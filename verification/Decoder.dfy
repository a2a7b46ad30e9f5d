/** ps2_keyboard.c's handle_data: scan code bytes to key events. */
module Decoder {
  import opened Words
  import opened Options
  import opened ScanTables

  const EMUL0: Byte := 0xe0
  const EMUL1: Byte := 0xe1
  const RELEASE: Byte := 0xf0
  const KEY_SYSRQ: nat := 0x63
  const KEY_PAUSE: nat := 0x77
  const KEY_NUMLOCK: nat := 0x45

  datatype Event = Event(code: nat, released: bool)

  /** The static variables; `stored` is how far scan_code_ptr is into its 8-byte buffer. */
  datatype Scan = Scan(
    ext0: bool, released: bool, ext1: bool, stored: nat, expected: Byte, isPause: bool, isSysrq: bool)

  const IDLE := Scan(false, false, false, 0, 1, false, false)

  /** u8 addition. */
  function Plus(expected: Byte, n: int): Byte {
    (expected + n) % 256
  }

  /** The key a finished code stands for. */
  function KeyOf(s: Scan, data: Byte): Event {
    if s.isSysrq then Event(KEY_SYSRQ, false)
    else if s.isPause then Event(KEY_PAUSE, false)
    else Event(if s.ext0 then Ext(data) else Norm(data), s.released)
  }

  /** handle_data: the next state, and the event if the byte completes a code. */
  function Feed(s0: Scan, data: Byte): (Scan, Option<Event>) {
    var s := s0.(stored := s0.stored + 1, expected := Plus(s0.expected, -1));
    if data == EMUL1 then (s.(ext1 := true, expected := Plus(s.expected, 2)), None)
    else if data == EMUL0 then (s.(ext0 := true, expected := Plus(s.expected, 1)), None)
    else if data == RELEASE then (s.(released := true, expected := Plus(s.expected, 1)), None)
    else if s.ext0 && !s.released && data == 0x12 then
      (s.(isSysrq := true, ext0 := false, expected := Plus(s.expected, 1)), None)
    else if s.ext0 && s.released && data == 0x7C then
      (s.(isSysrq := true, ext0 := false, released := true, expected := Plus(s.expected, 1)), None)
    else if s.ext1 && s.released && data == 0x77 then (s.(isPause := true, expected := 0), None)
    else if s.expected == 0 then
      (Scan(false, false, false, 0, 1, if s.isSysrq then s.isPause else false, false), Some(KeyOf(s, data)))
    else (s, None)
  }

  /** The state after some bytes. */
  function After(s: Scan, bytes: seq<Byte>): Scan
    decreases |bytes|
  {
    if bytes == [] then s else After(Feed(s, bytes[0]).0, bytes[1..])
  }

  /** The events some bytes produce. */
  function Events(s: Scan, bytes: seq<Byte>): seq<Event>
    decreases |bytes|
  {
    if bytes == [] then []
    else
      var (s', e) := Feed(s, bytes[0]);
      (if e.Some? then [e.value] else []) + Events(s', bytes[1..])
  }

  /** No byte is stored past the n-th place of the buffer. */
  predicate StoresWithin(s: Scan, bytes: seq<Byte>, n: nat)
    decreases |bytes|
  {
    bytes == [] || (s.stored < n && StoresWithin(Feed(s, bytes[0]).0, bytes[1..], n))
  }

  lemma {:induction false} FeedConcat(s: Scan, a: seq<Byte>, b: seq<Byte>)
    ensures After(s, a + b) == After(After(s, a), b)
    ensures Events(s, a + b) == Events(s, a) + Events(After(s, a), b)
    ensures forall n: nat :: StoresWithin(s, a + b, n) <==> StoresWithin(s, a, n) && StoresWithin(After(s, a), b, n)
    decreases |a|
  {
    if a == [] {
      assert a + b == b;
    } else {
      assert (a + b)[1..] == a[1..] + b;
      FeedConcat(Feed(s, a[0]).0, a[1..], b);
    }
  }

  // ---------- Scan code set 2

  /** What a keyboard sends for a key press or release. */
  datatype Code = Plain(c: Byte, up: bool) | Extended(c: Byte, up: bool) | PrtSc(up: bool) | Pause

  /** Codes inside the tables that are not prefixes, nor the bytes PrtSc starts with. */
  predicate WellFormed(k: Code) {
    match k
    case Plain(c, _) => c < NORM_SIZE
    case Extended(c, up) => c < EXT_SIZE && (if up then c != 0x7C else c != 0x12)
    case _ => true
  }

  function CodeBytes(k: Code): seq<Byte> {
    match k
    case Plain(c, up) => if up then [RELEASE, c] else [c]
    case Extended(c, up) => if up then [EMUL0, RELEASE, c] else [EMUL0, c]
    case PrtSc(up) =>
      if up then [EMUL0, RELEASE, 0x7C, EMUL0, RELEASE, 0x12] else [EMUL0, 0x12, EMUL0, 0x7C]
    case Pause => [EMUL1, 0x14, 0x77, EMUL1, RELEASE, 0x14, RELEASE, 0x77]
  }

  function AllBytes(codes: seq<Code>): seq<Byte> {
    if codes == [] then [] else CodeBytes(codes[0]) + AllBytes(codes[1..])
  }

  /** The event each code should give. */
  function Intended(k: Code): Event {
    match k
    case Plain(c, up) => Event(Norm(c), up)
    case Extended(c, up) => Event(Ext(c), up)
    case PrtSc(up) => Event(KEY_SYSRQ, up)
    case Pause => Event(KEY_PAUSE, false)
  }

  /** The event it does give: the release of PrtSc loses its flag. */
  function Reported(k: Code): Event {
    if k.PrtSc? then Event(KEY_SYSRQ, false) else Intended(k)
  }

  function Each(f: Code -> Event, codes: seq<Code>): (es: seq<Event>)
    ensures |es| == |codes| && forall i :: 0 <= i < |codes| ==> es[i] == f(codes[i])
  {
    if codes == [] then [] else [f(codes[0])] + Each(f, codes[1..])
  }

  /** One byte ahead of others. */
  lemma Cons(s: Scan, a: Byte, rest: seq<Byte>)
    ensures var (s', e) := Feed(s, a);
      && After(s, [a] + rest) == After(s', rest)
      && Events(s, [a] + rest) == (if e.Some? then [e.value] else []) + Events(s', rest)
      && forall n: nat :: StoresWithin(s, [a] + rest, n) <==> s.stored < n && StoresWithin(s', rest, n)
  {}

  /** The states a byte sequence passes through, byte by byte. */
  lemma {:induction false} Unroll(s: Scan, bytes: seq<Byte>, states: seq<Scan>)
    requires |states| == |bytes| + 1 && states[0] == s
    requires forall i :: 0 <= i < |bytes| ==> Feed(states[i], bytes[i]).0 == states[i + 1]
    requires forall i :: 0 <= i < |bytes| - 1 ==> Feed(states[i], bytes[i]).1 == None
    ensures After(s, bytes) == states[|bytes|]
    ensures bytes != [] && Feed(states[|bytes| - 1], bytes[|bytes| - 1]).1.Some? ==>
      Events(s, bytes) == [Feed(states[|bytes| - 1], bytes[|bytes| - 1]).1.value]
    ensures forall n: nat :: (forall i :: 0 <= i < |bytes| ==> states[i].stored < n) ==> StoresWithin(s, bytes, n)
    decreases |bytes|
  {
    hide Feed;
    if bytes != [] {
      Cons(s, bytes[0], bytes[1..]);
      assert [bytes[0]] + bytes[1..] == bytes;
      Unroll(states[1], bytes[1..], states[1..]);
      if |bytes| == 1 {
        assert Events(states[1], bytes[1..]) == [];
      }
    }
  }

  function Next(s: Scan, data: Byte): Scan {
    Feed(s, data).0
  }

  /** The last byte of a code, after its prefixes. */
  lemma Finishes(s: Scan, c: Byte)
    requires s.expected == 1 && !s.isSysrq && !s.isPause && !s.ext1 && c != EMUL0 && c != EMUL1 && c != RELEASE
    requires !(s.ext0 && !s.released && c == 0x12) && !(s.ext0 && s.released && c == 0x7C)
    ensures Feed(s, c) == (IDLE, Some(Event(if s.ext0 then Ext(c) else Norm(c), s.released)))
  {
    hide Norm, Ext;
  }

  lemma DecodesShort(k: Code)
    requires WellFormed(k) && !k.Pause? && !k.PrtSc?
    ensures After(IDLE, CodeBytes(k)) == IDLE && Events(IDLE, CodeBytes(k)) == [Reported(k)]
    ensures StoresWithin(IDLE, CodeBytes(k), 6)
  {
    hide Norm, Ext, After, Events, StoresWithin;
    var b := CodeBytes(k);
    var s1 := if k.Plain? then IDLE.(released := true, stored := 1) else IDLE.(ext0 := true, stored := 1);
    var s2 := s1.(released := true, stored := 2);
    if |b| == 1 {
      Finishes(IDLE, k.c);
      Unroll(IDLE, b, [IDLE, IDLE]);
    } else if |b| == 2 {
      Finishes(s1, k.c);
      Unroll(IDLE, b, [IDLE, s1, IDLE]);
    } else {
      Finishes(s2, k.c);
      Unroll(IDLE, b, [IDLE, s1, s2, IDLE]);
    }
  }

  lemma DecodesPrtSc(up: bool)
    ensures var b := CodeBytes(PrtSc(up));
      After(IDLE, b) == IDLE && Events(IDLE, b) == [Event(KEY_SYSRQ, false)] && StoresWithin(IDLE, b, 6)
  {
    hide Norm, Ext, After, Events, StoresWithin;
    var b := CodeBytes(PrtSc(up));
    var s1 := Next(IDLE, b[0]);
    var s2 := Next(s1, b[1]);
    var s3 := Next(s2, b[2]);
    if up {
      var s4 := Next(s3, b[3]);
      var s5 := Next(s4, b[4]);
      Unroll(IDLE, b, [IDLE, s1, s2, s3, s4, s5, Next(s5, b[5])]);
    } else {
      Unroll(IDLE, b, [IDLE, s1, s2, s3, Next(s3, b[3])]);
    }
  }

  /** Any code but Pause leaves the decoder idle after one event and at most six stored bytes. */
  lemma DecodesOne(k: Code)
    requires WellFormed(k) && !k.Pause?
    ensures After(IDLE, CodeBytes(k)) == IDLE && Events(IDLE, CodeBytes(k)) == [Reported(k)]
    ensures StoresWithin(IDLE, CodeBytes(k), 6)
  {
    if k.PrtSc? {
      DecodesPrtSc(k.up);
    } else {
      DecodesShort(k);
    }
  }

  /** Pause is first taken for NumLock, by its third byte. */
  lemma PauseStartsAsNumLock(rest: seq<Byte>)
    ensures Events(IDLE, CodeBytes(Pause) + rest) != []
    ensures Events(IDLE, CodeBytes(Pause) + rest)[0] == Event(KEY_NUMLOCK, false)
  {
    var b := [EMUL1, 0x14, 0x77];
    var s1 := Next(IDLE, EMUL1);
    var s2 := Next(s1, 0x14);
    Unroll(IDLE, b, [IDLE, s1, s2, Next(s2, 0x77)]);
    assert CodeBytes(Pause) + rest == b + ([EMUL1, RELEASE, 0x14, RELEASE, 0x77] + rest);
    FeedConcat(IDLE, b, [EMUL1, RELEASE, 0x14, RELEASE, 0x77] + rest);
  }

  /** Any sequence of well-formed codes without Pause gives one event per code, in order, ends idle
      and never stores past the sixth place of the 8-byte buffer. */
  lemma {:induction false} DecodesEach(codes: seq<Code>)
    requires forall i :: 0 <= i < |codes| ==> WellFormed(codes[i]) && !codes[i].Pause?
    ensures After(IDLE, AllBytes(codes)) == IDLE
    ensures Events(IDLE, AllBytes(codes)) == Each(Reported, codes)
    ensures StoresWithin(IDLE, AllBytes(codes), 6)
  {
    if codes != [] {
      DecodesOne(codes[0]);
      DecodesEach(codes[1..]);
      FeedConcat(IDLE, CodeBytes(codes[0]), AllBytes(codes[1..]));
    }
  }

  /** The events are the intended ones exactly when no key is Pause and none is a PrtSc release. */
  lemma {:induction false} DecodesAsIntendedIff(codes: seq<Code>)
    requires forall i :: 0 <= i < |codes| ==> WellFormed(codes[i])
    ensures Events(IDLE, AllBytes(codes)) == Each(Intended, codes) <==>
      forall i :: 0 <= i < |codes| ==> codes[i] != Pause && codes[i] != PrtSc(true)
  {
    if codes != [] {
      var k, rest := codes[0], codes[1..];
      var es := Events(IDLE, AllBytes(codes));
      if k.Pause? {
        PauseStartsAsNumLock(AllBytes(rest));
        assert es[0] != Each(Intended, codes)[0];
      } else {
        DecodesOne(k);
        FeedConcat(IDLE, CodeBytes(k), AllBytes(rest));
        DecodesAsIntendedIff(rest);
        assert es == [Reported(k)] + Events(IDLE, AllBytes(rest));
        assert es[1..] == Events(IDLE, AllBytes(rest)) && Each(Intended, codes)[1..] == Each(Intended, rest);
        if k == PrtSc(true) {
          assert es[0] != Each(Intended, codes)[0];
        }
      }
    }
  }

  /** Page Up and Page Down give the same event; no other two keys of the extended table do. */
  lemma SameExtendedKeyIff(a: Byte, b: Byte)
    requires a < b && Ext(a) != 0
    ensures Ext(a) == Ext(b) <==> a == 0x7A && b == 0x7D
  {}

  /** After Pause the next four ordinary bytes give no event, and the fourth has no place in the buffer. */
  lemma PauseLeavesStuck(a: Byte, b: Byte, c: Byte, d: Byte)
    requires a < 0x77 && b < 0x77 && c < 0x77 && d < 0x77
    ensures var s := After(IDLE, CodeBytes(Pause));
      s != IDLE && Events(s, [a, b, c, d]) == [] && !StoresWithin(s, [a, b, c, d], 8)
  {
    hide Norm, Ext, After, Events, StoresWithin;
    AfterPause();
    var s := After(IDLE, CodeBytes(Pause));
    var s1 := Next(s, a);
    var s2 := Next(s1, b);
    var s3 := Next(s2, c);
    Cons(s, a, [b, c, d]);
    Cons(s1, b, [c, d]);
    Cons(s2, c, [d]);
    Cons(s3, d, []);
    NoBytes(Next(s3, d));
    assert [a] + [b, c, d] == [a, b, c, d] && [b] + [c, d] == [b, c, d] && [c] + [d] == [c, d] && [d] + [] == [d];
  }

  lemma NoBytes(s: Scan)
    ensures Events(s, []) == [] && After(s, []) == s
  {}

  lemma AfterPause()
    ensures After(IDLE, CodeBytes(Pause)) == Scan(false, true, true, 5, 0, true, false)
  {}

  /** handle_data over its static variables. */
  class ScanDecoder {
    var ext0: bool
    var released: bool
    var ext1: bool
    const buf: array<Byte>
    var ptr: nat
    var expected: Byte
    var isPause: bool
    var isSysrq: bool

    function State(): Scan
      reads this
    {
      Scan(ext0, released, ext1, ptr, expected, isPause, isSysrq)
    }

    constructor ()
      ensures State() == IDLE && buf.Length == 8 && fresh(buf)
    {
      ext0, released, ext1, ptr, expected, isPause, isSysrq := false, false, false, 0, 1, false, false;
      buf := new Byte[8](_ => 0);
    }

    /** The byte is stored and the state moves as Feed says. */
    method HandleData(data: Byte) returns (event: Option<Event>)
      requires ptr < buf.Length == 8
      modifies this, buf
      ensures (State(), event) == Feed(old(State()), data)
      ensures buf[..] == old(buf[..])[old(ptr) := data]
    {
      hide Norm, Ext;
      buf[ptr] := data;
      ptr := ptr + 1;
      expected := Plus(expected, -1);
      event := None;
      if data == EMUL1 {
        ext1 := true;
        expected := Plus(expected, 2);
        return;
      } else if data == EMUL0 {
        ext0 := true;
        expected := Plus(expected, 1);
        return;
      } else if data == RELEASE {
        released := true;
        expected := Plus(expected, 1);
        return;
      }
      if ext0 && !released && data == 0x12 {
        isSysrq := true;
        ext0 := false;
        expected := Plus(expected, 1);
        return;
      } else if ext0 && released && data == 0x7C {
        isSysrq := true;
        ext0 := false;
        released := true;
        expected := Plus(expected, 1);
        return;
      } else if ext1 && released && data == 0x77 {
        isPause := true;
        expected := 0;
        return;
      }
      if expected == 0 {
        if isSysrq {
          event := Some(Event(KEY_SYSRQ, false));
          isSysrq := false;
        } else if isPause {
          event := Some(Event(KEY_PAUSE, false));
          isPause := false;
        } else {
          event := Some(Event(if ext0 then Ext(data) else Norm(data), released));
        }
        released, ext0, ext1 := false, false, false;
        ptr := 0;
        expected := 1;
      }
    }
  }
}
