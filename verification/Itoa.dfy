/** printk.c's itoa: digits written backwards into a buffer, then reversed in place. */
module Itoa {
  import opened Words
  import opened Strings

  // ---------- Numerals

  const DIGITS: string := "0123456789abcdef"

  /** digits[d] */
  function Glyph(d: nat): Byte
    requires d < 16
  {
    DIGITS[d] as int
  }

  /** The digit a character stands for. */
  function DigitOf(c: Byte): nat {
    if 0x30 <= c < 0x3A then c - 0x30 else if 0x61 <= c < 0x67 then c - 0x57 else 0
  }

  /** What the first loop leaves in the buffer. */
  function Written(num: nat, base: nat): (s: seq<Byte>)
    requires 2 <= base <= 16
    ensures |s| >= 1
  {
    if num == 0 then [0x30] else Glyphs(num, base)
  }

  function Glyphs(num: nat, base: nat): (s: seq<Byte>)
    requires 2 <= base <= 16
    ensures num > 0 ==> |s| >= 1
  {
    if num == 0 then [] else [Glyph(num % base)] + Glyphs(num / base, base)
  }

  function Reverse(s: seq<Byte>): (r: seq<Byte>)
    ensures |r| == |s| && forall i :: 0 <= i < |s| ==> r[i] == s[|s| - 1 - i]
  {
    if s == [] then [] else Reverse(s[1..]) + [s[0]]
  }

  /** The numeral itoa means to leave. */
  function Numeral(num: nat, base: nat): seq<Byte>
    requires 2 <= base <= 16
  {
    Reverse(Written(num, base))
  }

  /** Reading a numeral, most significant digit first. */
  function Read(s: seq<Byte>, base: nat): nat {
    if s == [] then 0 else Read(s[..|s| - 1], base) * base + DigitOf(s[|s| - 1])
  }

  /** The numeral reads back to the number. */
  lemma {:induction false} NumeralReadsBack(num: nat, base: nat)
    requires 2 <= base <= 16
    ensures Read(Numeral(num, base), base) == num
  {
    if num == 0 {
      assert Reverse([0x30]) == [0x30];
      assert [0x30][..0] == [];
    } else {
      GlyphsReadBack(num, base);
    }
  }

  lemma ReadLast(s: seq<Byte>, c: Byte, base: nat)
    ensures Read(s + [c], base) == Read(s, base) * base + DigitOf(c)
  {}

  lemma GlyphsUnfold(num: nat, base: nat)
    requires 2 <= base <= 16 && num > 0
    ensures num % base < 16
    ensures Reverse(Glyphs(num, base)) == Reverse(Glyphs(num / base, base)) + [Glyph(num % base)]
  {}

  lemma {:induction false} GlyphsReadBack(num: nat, base: nat)
    requires 2 <= base <= 16
    ensures Read(Reverse(Glyphs(num, base)), base) == num
  {
    if num > 0 {
      SmallerQuotient(num, base);
      GlyphsReadBack(num / base, base);
      GlyphsUnfold(num, base);
      ReadLast(Reverse(Glyphs(num / base, base)), Glyph(num % base), base);
      GlyphIsDigit(num % base);
      DivMod(num, base);
    }
  }

  lemma DivMod(num: nat, base: nat)
    requires base > 0
    ensures num / base * base + num % base == num && num % base < base
  {}

  lemma GlyphIsDigit(d: nat)
    requires d < 16
    ensures DigitOf(Glyph(d)) == d
  {}

  /** It has no leading zero, unless it is "0". */
  lemma NoLeadingZero(num: nat, base: nat)
    requires 2 <= base <= 16
    ensures |Numeral(num, base)| == 1 || Numeral(num, base)[0] != 0x30
  {
    if num > 0 {
      StartsNonzero(num, base);
    }
  }

  lemma {:induction false} StartsNonzero(num: nat, base: nat)
    requires 2 <= base <= 16 && num > 0
    ensures Numeral(num, base)[0] != 0x30
  {
    hide Glyphs, Reverse, Glyph;
    GlyphsUnfold(num, base);
    GlyphNonzero(num % base);
    if num / base > 0 {
      SmallerQuotient(num, base);
      StartsNonzero(num / base, base);
    } else {
      DivMod(num, base);
      NoGlyphs(base);
    }
  }

  lemma GlyphNonzero(d: nat)
    requires d < 16
    ensures Glyph(d) != 0 && (d > 0 ==> Glyph(d) != 0x30)
  {}

  lemma {:induction false} GlyphsNonzero(num: nat, base: nat)
    requires 2 <= base <= 16
    ensures 0 !in Glyphs(num, base)
  {
    if num > 0 {
      SmallerQuotient(num, base);
      GlyphsNonzero(num / base, base);
    }
  }

  /** No character of a numeral is the terminator. */
  lemma NumeralNonzero(num: nat, base: nat)
    requires 2 <= base <= 16
    ensures forall i :: 0 <= i < |Numeral(num, base)| ==> Numeral(num, base)[i] != 0
  {
    var written := Written(num, base);
    GlyphsNonzero(num, base);
    assert forall i :: 0 <= i < |written| ==> written[i] in written;
  }

  function Pow(base: nat, k: nat): nat {
    if k == 0 then 1 else base * Pow(base, k - 1)
  }

  lemma PowStep(base: nat, k: nat)
    ensures Pow(base, k) == if k == 0 then 1 else base * Pow(base, k - 1)
  {}

  lemma QuotientBelow(num: nat, base: nat, bound: nat)
    requires base > 0 && num < base * bound
    ensures num / base < bound
  {
    DivMod(num, base);
    TimesGrows(base, bound, num / base);
  }

  lemma TimesGrows(a: nat, b: nat, c: nat)
    ensures b <= c ==> a * b <= a * c
  {}

  lemma {:induction false} LengthBelow(num: nat, base: nat, k: nat)
    requires 2 <= base <= 16 && num < Pow(base, k)
    ensures |Glyphs(num, base)| <= k
    decreases k
  {
    hide Glyphs, Pow;
    PowStep(base, k);
    if num == 0 {
      NoGlyphs(base);
    } else {
      QuotientBelow(num, base, Pow(base, k - 1));
      GlyphsStep(num, base);
      LengthBelow(num / base, base, k - 1);
    }
  }

  /** Numerals of 64-bit numbers fit the callers' 24 bytes: at most 20 decimal or 16 hexadecimal digits. */
  lemma NumeralsFit(num: nat)
    requires num < TWO_TO_64
    ensures |Numeral(num, 10)| <= 20 && |Numeral(num, 16)| <= 16
  {
    assert Pow(10, 5) == 100_000 && Pow(16, 4) == 0x1_0000;
    assert Pow(10, 10) == 100_000 * Pow(10, 5) && Pow(16, 8) == 0x1_0000 * Pow(16, 4);
    assert Pow(10, 15) == 100_000 * Pow(10, 10) && Pow(16, 12) == 0x1_0000 * Pow(16, 8);
    assert Pow(10, 20) == 100_000 * Pow(10, 15) && Pow(16, 16) == 0x1_0000 * Pow(16, 12);
    LengthBelow(num, 10, 20);
    LengthBelow(num, 16, 16);
  }

  // ---------- itoa

  /** itoa with buf = &mem[p]: the numeral is in place, and the terminator has traded places with
      the byte before the buffer, so the string at p is the numeral exactly when that byte was zero. */
  method Itoa(mem: array<Byte>, p: nat, num: nat, base: nat)
    requires 2 <= base <= 16 && num < TWO_TO_64
    requires 1 <= p && p + |Numeral(num, base)| < mem.Length
    modifies mem
    ensures var n := |Numeral(num, base)|;
      && mem[p..p + n] == Numeral(num, base)
      && mem[p + n] == old(mem[p - 1]) && mem[p - 1] == 0
      && (IsLength(mem, p, n) <==> old(mem[p - 1]) == 0)
      && forall k :: 0 <= k < mem.Length && !(p - 1 <= k <= p + n) ==> mem[k] == old(mem[k])
  {
    hide Written, Reverse;
    var idx := WriteDigits(mem, p, num, base);
    ghost var digits := mem[..];
    assert digits[p..p + idx] == Written(num, base);
    mem[p + idx] := 0;
    ReverseDigits(mem, p, idx);
    forall i | 0 <= i < idx
      ensures mem[p..p + idx][i] == Numeral(num, base)[i]
    {
      assert mem[p + i] == digits[p + (idx - 1 - i)] == digits[p..p + idx][idx - 1 - i];
    }
    assert mem[p..p + idx] == Numeral(num, base);
    NumeralNonzero(num, base);
    assert forall k :: p <= k < p + idx ==> mem[k] == Numeral(num, base)[k - p];
  }

  lemma NumeralOfSeven()
    ensures Numeral(7, 10) == [0x37]
  {
    assert Glyphs(7, 10) == [0x37] && Reverse([0x37]) == [0x37];
  }

  /** A nonzero byte before the buffer leaves "7" without an end. */
  method UnterminatedSeven() returns (mem: array<Byte>)
    ensures mem[..] == [0, 0x37, 1, 1] && !Terminated(mem, 1)
  {
    hide Numeral;
    mem := new Byte[4](_ => 1);
    NumeralOfSeven();
    Itoa(mem, 1, 7, 10);
    assert mem[1..2] == [0x37];
    assert mem[1] == mem[1..2][0];
  }

  /** printk.c:11-20 */
  method WriteDigits(mem: array<Byte>, p: nat, num0: nat, base: nat) returns (idx: nat)
    requires 2 <= base <= 16 && p + |Written(num0, base)| < mem.Length
    modifies mem
    ensures idx == |Written(num0, base)|
    ensures mem[p..p + idx] == Written(num0, base)
    ensures forall k :: 0 <= k < mem.Length && !(p <= k < p + idx) ==> mem[k] == old(mem[k])
  {
    hide Glyphs, Glyph;
    idx := 0;
    if num0 == 0 {
      mem[p] := 0x30;
      idx := 1;
      return;
    }
    ghost var all := Glyphs(num0, base);
    var num: nat := num0;
    while num != 0
      invariant idx <= |all| && Glyphs(num, base) == all[idx..]
      invariant forall k :: p <= k < p + idx ==> mem[k] == all[k - p]
      invariant forall k :: 0 <= k < mem.Length && !(p <= k < p + idx) ==> mem[k] == old(mem[k])
      decreases num
    {
      GlyphsStep(num, base);
      assert all[idx..][0] == all[idx] && all[idx..][1..] == all[idx + 1..];
      var rem := num % base;
      mem[p + idx] := Glyph(rem);
      idx := idx + 1;
      num := num / base;
    }
    NoGlyphs(base);
  }

  lemma NoGlyphs(base: nat)
    requires 2 <= base <= 16
    ensures Glyphs(0, base) == []
  {}

  lemma GlyphsStep(num: nat, base: nat)
    requires 2 <= base <= 16 && num > 0
    ensures num % base < 16 && num / base < num
    ensures Glyphs(num, base) != [] && Glyphs(num, base)[0] == Glyph(num % base)
    ensures Glyphs(num, base)[1..] == Glyphs(num / base, base)
  {}

  lemma SmallerQuotient(num: nat, base: nat)
    requires num > 0 && base >= 2
    ensures num / base < num
  {}

  /** printk.c:24-30: n digits at p and the terminator after them; the first exchange is with mem[p - 1]. */
  method ReverseDigits(mem: array<Byte>, p: nat, n: nat)
    requires 1 <= p && 1 <= n && p + n < mem.Length
    modifies mem
    ensures forall k :: p - 1 <= k <= p + n ==> mem[k] == old(mem[2 * p + n - 1 - k])
    ensures forall k :: 0 <= k < mem.Length && !(p - 1 <= k <= p + n) ==> mem[k] == old(mem[k])
  {
    var end := n - 1;
    var idx := n;
    var pivot := (n + 1) / 2;
    while idx >= pivot
      invariant pivot - 1 <= idx <= n
      invariant forall k :: p - 1 <= k <= p + n && (k > p + idx || k < p + (end - idx)) ==>
        mem[k] == old(mem[2 * p + n - 1 - k])
      invariant forall k :: p + (end - idx) <= k <= p + idx ==> mem[k] == old(mem[k])
      invariant forall k :: 0 <= k < mem.Length && !(p - 1 <= k <= p + n) ==> mem[k] == old(mem[k])
    {
      var tmp := mem[p + (end - idx)];
      mem[p + (end - idx)] := mem[p + idx];
      mem[p + idx] := tmp;
      idx := idx - 1;
    }
  }
}
