/** pml_entry: its 40-bit address field apart from the other 24 bits, which stay in place. */
module PageEntries {
  import Words

  const TWO_TO_64: nat := Words.TWO_TO_64
  const TWO_TO_40: nat := 0x100_0000_0000
  const PRESENT: bv64 := 0x01
  const WRITABLE: bv64 := 0x02
  const HUGE: bv64 := 0x80
  const FLAGS_MASK: bv64 := 0x8000_0000_0000_019E

  /** A frame number as the 40-bit address field holds it. */
  type Frame = f: nat | f < TWO_TO_40

  datatype Entry = Entry(address: Frame, bits: bv64)

  const NO_ENTRY := Entry(0, 0)

  predicate Present(e: Entry) {
    e.bits & PRESENT != 0
  }

  predicate Writable(e: Entry) {
    e.bits & WRITABLE != 0
  }

  predicate Huge(e: Entry) {
    e.bits & HUGE != 0
  }

  /** Set the present bit, then or in the caller's flags except HUGE and those outside the mask. */
  function Mark(bits: bv64, flags: bv64): bv64 {
    bits | PRESENT | ((flags & FLAGS_MASK) & !HUGE)
  }

  /** Marking makes an entry present, never makes it huge, and clears no bit. */
  lemma MarkSets(bits: bv64, flags: bv64)
    ensures Mark(bits, flags) & PRESENT != 0
    ensures Mark(bits, flags) & HUGE == bits & HUGE
    ensures Mark(bits, flags) & bits == bits
  {}

  /** An entry is writable afterwards exactly when it was or that was asked for. */
  lemma MarkWrites(bits: bv64, flags: bv64)
    ensures Mark(bits, flags) & WRITABLE != 0 <==> bits & WRITABLE != 0 || flags & WRITABLE != 0
  {}

  /** Of the other bits, it sets the flags writable, user, write-through, no-cache, global and
      no-execute that were asked for, and nothing else. */
  lemma MarkSetsFlags(bits: bv64, flags: bv64)
    ensures Mark(bits, flags) & !PRESENT == (bits | (flags & 0x8000_0000_0000_011E)) & !PRESENT
  {}
}
