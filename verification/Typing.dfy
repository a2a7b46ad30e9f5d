/** What handle_data prints: from keys struck on a set-2 keyboard to the characters on the screen. */
module Typing {
  import opened Words
  import opened ScanTables
  import opened Decoder

  /** keycode_to_char; zero for keys without a character */
  function KeyChar(code: nat): char {
    match code
    case 0x00 => '0'
    case 0x01 => '0'
    case 0x02 => '1'
    case 0x03 => '2'
    case 0x04 => '3'
    case 0x05 => '4'
    case 0x06 => '5'
    case 0x07 => '6'
    case 0x08 => '7'
    case 0x09 => '8'
    case 0x0a => '9'
    case 0x0b => '0'
    case 0x0c => '-'
    case 0x0d => '='
    case 0x0f => '\t'
    case 0x10 => 'q'
    case 0x11 => 'w'
    case 0x12 => 'e'
    case 0x13 => 'r'
    case 0x14 => 't'
    case 0x15 => 'y'
    case 0x16 => 'u'
    case 0x17 => 'i'
    case 0x18 => 'o'
    case 0x19 => 'p'
    case 0x1a => '['
    case 0x1b => ']'
    case 0x1e => 'a'
    case 0x1f => 's'
    case 0x20 => 'd'
    case 0x21 => 'f'
    case 0x22 => 'g'
    case 0x23 => 'h'
    case 0x24 => 'j'
    case 0x25 => 'k'
    case 0x26 => 'l'
    case 0x27 => ';'
    case 0x28 => '\''
    case 0x29 => '`'
    case 0x2b => '\\'
    case 0x2c => 'z'
    case 0x2d => 'x'
    case 0x2e => 'c'
    case 0x2f => 'v'
    case 0x30 => 'b'
    case 0x31 => 'n'
    case 0x32 => 'm'
    case 0x33 => ','
    case 0x34 => '.'
    case 0x35 => '/'
    case 0x37 => '*'
    case 0x39 => ' '
    case _ => '\0'
  }

  /** ps2_keyboard.c:218-222: presses of keys that have a character print it. */
  function Printed(e: Event): string {
    if e.released || KeyChar(e.code) == '\0' then "" else [KeyChar(e.code)]
  }

  function PrintedAll(es: seq<Event>): string {
    if es == [] then "" else Printed(es[0]) + PrintedAll(es[1..])
  }

  /** The code of the key labelled c in scan code set 2, 0 where there is none; '*' is the keypad's. */
  function StandardCode(c: char): Byte {
    match c
    case '1' => 0x16
    case '2' => 0x1e
    case '3' => 0x26
    case '4' => 0x25
    case '5' => 0x2e
    case '6' => 0x36
    case '7' => 0x3d
    case '8' => 0x3e
    case '9' => 0x46
    case '0' => 0x45
    case '-' => 0x4e
    case '=' => 0x55
    case '\t' => 0x0d
    case 'q' => 0x15
    case 'w' => 0x1d
    case 'e' => 0x24
    case 'r' => 0x2d
    case 't' => 0x2c
    case 'y' => 0x35
    case 'u' => 0x3c
    case 'i' => 0x43
    case 'o' => 0x44
    case 'p' => 0x4d
    case '[' => 0x54
    case ']' => 0x5b
    case 'a' => 0x1c
    case 's' => 0x1b
    case 'd' => 0x23
    case 'f' => 0x2b
    case 'g' => 0x34
    case 'h' => 0x33
    case 'j' => 0x3b
    case 'k' => 0x42
    case 'l' => 0x4b
    case ';' => 0x4c
    case '\'' => 0x52
    case '`' => 0x0e
    case '\\' => 0x5d
    case 'z' => 0x1a
    case 'x' => 0x22
    case 'c' => 0x21
    case 'v' => 0x2a
    case 'b' => 0x32
    case 'n' => 0x31
    case 'm' => 0x3a
    case ',' => 0x41
    case '.' => 0x49
    case '/' => 0x4a
    case '*' => 0x7c
    case ' ' => 0x29
    case _ => 0
  }

  predicate OnAKey(c: char) {
    StandardCode(c) != 0
  }

  /** Each key struck and released in turn. */
  function Strokes(text: string): seq<Code> {
    if text == "" then []
    else [Plain(StandardCode(text[0]), false), Plain(StandardCode(text[0]), true)] + Strokes(text[1..])
  }

  lemma FirstKeys(c: char)
    requires 0 < StandardCode(c) < 0x26
    ensures KeyChar(Norm(StandardCode(c))) == c
  {}

  lemma MiddleKeys(c: char)
    requires 0x26 <= StandardCode(c) < 0x43
    ensures KeyChar(Norm(StandardCode(c))) == c
  {}

  lemma LastKeys(c: char)
    requires 0x43 <= StandardCode(c)
    ensures KeyChar(Norm(StandardCode(c))) == c
  {}

  lemma StandardCodeBelow(c: char)
    ensures StandardCode(c) < 0x80 && (OnAKey(c) ==> c != '\0')
  {}

  /** The table gives every labelled key the key code its character is printed for. */
  lemma KeyPrintsItself(c: char)
    requires OnAKey(c)
    ensures var k := StandardCode(c);
      && WellFormed(Plain(k, false)) && WellFormed(Plain(k, true))
      && Printed(Reported(Plain(k, false))) == [c] && Printed(Reported(Plain(k, true))) == ""
  {
    hide StandardCode, KeyChar, Norm;
    StandardCodeBelow(c);
    if StandardCode(c) < 0x26 {
      FirstKeys(c);
    } else if StandardCode(c) < 0x43 {
      MiddleKeys(c);
    } else {
      LastKeys(c);
    }
  }

  lemma {:induction false} StrokesReported(text: string)
    requires forall i :: 0 <= i < |text| ==> OnAKey(text[i])
    ensures forall i :: 0 <= i < |Strokes(text)| ==> WellFormed(Strokes(text)[i]) && !Strokes(text)[i].Pause?
    ensures PrintedAll(Each(Reported, Strokes(text))) == text
  {
    hide StandardCode, Printed, Reported, WellFormed;
    if text != "" {
      var c, rest := text[0], text[1..];
      var down, up := Plain(StandardCode(c), false), Plain(StandardCode(c), true);
      KeyPrintsItself(c);
      StrokesReported(rest);
      TwoPrinted(Reported(down), Reported(up), Each(Reported, Strokes(rest)));
      TwoReported(down, up, Strokes(rest));
      assert text == [c] + rest;
    }
  }

  lemma TwoReported(a: Code, b: Code, rest: seq<Code>)
    ensures Each(Reported, [a, b] + rest) == [Reported(a), Reported(b)] + Each(Reported, rest)
  {}

  lemma TwoPrinted(a: Event, b: Event, rest: seq<Event>)
    ensures PrintedAll([a, b] + rest) == Printed(a) + Printed(b) + PrintedAll(rest)
  {
    hide Printed;
    assert ([a, b] + rest)[1..] == [b] + rest && ([b] + rest)[1..] == rest;
  }

  /** Typing any text made of labelled keys prints that text. */
  lemma TypingPrints(text: string)
    requires forall i :: 0 <= i < |text| ==> OnAKey(text[i])
    ensures PrintedAll(Events(IDLE, AllBytes(Strokes(text)))) == text
  {
    hide StandardCode, PrintedAll, Events, AllBytes, Each, WellFormed;
    StrokesReported(text);
    DecodesEach(Strokes(text));
  }

  /** A press prints "0" exactly for the key 0, for Escape, and for every code without a key. */
  lemma PrintsZeroIff(c: Byte)
    requires c < NORM_SIZE
    ensures Printed(Event(Norm(c), false)) == "0" <==> c == 0x45 || c == 0x76 || Norm(c) == 0
  {}

  /** The standard codes of keypad 4 and keypad 7 have no key, and keypad 7's key code stands at a code
      no key sends. */
  lemma KeypadFourAndSeven()
    ensures Norm(0x6B) == 0 && Norm(0x6C) == 0 && Norm(0x6D) == 0x47
  {}

  /** The cursor block and the arrows behind 0xE0, by the key codes of include/kernel/input_codes.h:
      Insert, Home, Delete, End, Page Down, Up, Left, Down and Right are where set 2 has them. */
  lemma CursorKeys()
    ensures Ext(0x70) == 0x6E && Ext(0x6C) == 0x66 && Ext(0x71) == 0x6F && Ext(0x69) == 0x6B && Ext(0x7A) == 0x6D
    ensures Ext(0x75) == 0x67 && Ext(0x6B) == 0x69 && Ext(0x72) == 0x6C && Ext(0x74) == 0x6A
  {}

  /** The bytes of the Up key, pressed and released, and of an A, as they come from the wire. */
  lemma WireBytesDecode()
    ensures Events(IDLE, [0xE0, 0x75]) == [Event(0x67, false)]
    ensures Events(IDLE, [0xE0, 0xF0, 0x75]) == [Event(0x67, true)]
    ensures Events(IDLE, [0x1C]) == [Event(0x1E, false)]
  {
    hide Events, After, StoresWithin, Norm, Ext;
    DecodesOne(Extended(0x75, false));
    DecodesOne(Extended(0x75, true));
    DecodesOne(Plain(0x1C, false));
    CursorKeys();
    LetterA();
  }

  lemma LetterA()
    ensures Norm(0x1C) == 0x1E
  {}
}
