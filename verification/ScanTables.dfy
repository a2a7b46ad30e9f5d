/** ps2_keyboard.c's two tables from set-2 scan codes to key codes. */
module ScanTables {
  /** Entries of the plain and of the extended table. */
  const NORM_SIZE: nat := 0x84
  const EXT_SIZE: nat := 0x80

  /** scan2_norm_to_keycode; 0 for codes without a key */
  function Norm(c: nat): nat {
    match c
    case 0x01 => 0x43
    case 0x03 => 0x3f
    case 0x04 => 0x3d
    case 0x05 => 0x3b
    case 0x06 => 0x3c
    case 0x07 => 0x58
    case 0x09 => 0x44
    case 0x0a => 0x42
    case 0x0b => 0x40
    case 0x0c => 0x3e
    case 0x0d => 0x0f
    case 0x0e => 0x29
    case 0x11 => 0x38
    case 0x12 => 0x2a
    case 0x14 => 0x1d
    case 0x15 => 0x10
    case 0x16 => 0x02
    case 0x1a => 0x2c
    case 0x1b => 0x1f
    case 0x1c => 0x1e
    case 0x1d => 0x11
    case 0x1e => 0x03
    case 0x21 => 0x2e
    case 0x22 => 0x2d
    case 0x23 => 0x20
    case 0x24 => 0x12
    case 0x25 => 0x05
    case 0x26 => 0x04
    case 0x29 => 0x39
    case 0x2a => 0x2f
    case 0x2b => 0x21
    case 0x2c => 0x14
    case 0x2d => 0x13
    case 0x2e => 0x06
    case 0x31 => 0x31
    case 0x32 => 0x30
    case 0x33 => 0x23
    case 0x34 => 0x22
    case 0x35 => 0x15
    case 0x36 => 0x07
    case 0x3a => 0x32
    case 0x3b => 0x24
    case 0x3c => 0x16
    case 0x3d => 0x08
    case 0x3e => 0x09
    case 0x41 => 0x33
    case 0x42 => 0x25
    case 0x43 => 0x17
    case 0x44 => 0x18
    case 0x45 => 0x0b
    case 0x46 => 0x0a
    case 0x49 => 0x34
    case 0x4a => 0x35
    case 0x4b => 0x26
    case 0x4c => 0x27
    case 0x4d => 0x19
    case 0x4e => 0x0c
    case 0x52 => 0x28
    case 0x54 => 0x1a
    case 0x55 => 0x0d
    case 0x58 => 0x3a
    case 0x59 => 0x36
    case 0x5a => 0x1c
    case 0x5b => 0x1b
    case 0x5d => 0x2b
    case 0x66 => 0x0e
    case 0x69 => 0x4f
    case 0x6d => 0x47
    case 0x70 => 0x52
    case 0x71 => 0x53
    case 0x72 => 0x50
    case 0x73 => 0x4c
    case 0x74 => 0x4d
    case 0x75 => 0x48
    case 0x76 => 0x01
    case 0x77 => 0x45
    case 0x78 => 0x57
    case 0x79 => 0x4e
    case 0x7a => 0x51
    case 0x7b => 0x4a
    case 0x7c => 0x37
    case 0x7d => 0x49
    case 0x7e => 0x46
    case 0x83 => 0x41
    case _ => 0
  }

  /** scan2_ext_to_keycode; 0 for codes without a key */
  function Ext(c: nat): nat {
    match c
    case 0x10 => 0x96
    case 0x11 => 0x64
    case 0x14 => 0x61
    case 0x15 => 0xa5
    case 0x18 => 0x9c
    case 0x1f => 0x7d
    case 0x20 => 0xad
    case 0x21 => 0x72
    case 0x23 => 0x71
    case 0x27 => 0x7e
    case 0x28 => 0x80
    case 0x2a => 0x8c
    case 0x2f => 0xcc
    case 0x30 => 0x9f
    case 0x32 => 0x73
    case 0x34 => 0xcf
    case 0x37 => 0x74
    case 0x38 => 0x9e
    case 0x3a => 0xac
    case 0x3b => 0xa6
    case 0x3f => 0x8e
    case 0x40 => 0x9d
    case 0x48 => 0xd7
    case 0x4a => 0x62
    case 0x4d => 0xa3
    case 0x50 => 0xe2
    case 0x5a => 0x60
    case 0x5e => 0x8f
    case 0x69 => 0x6b
    case 0x6b => 0x69
    case 0x6c => 0x66
    case 0x70 => 0x6e
    case 0x71 => 0x6f
    case 0x72 => 0x6c
    case 0x74 => 0x6a
    case 0x75 => 0x67
    case 0x7a => 0x6d
    case 0x7d => 0x6d
    case _ => 0
  }
}
