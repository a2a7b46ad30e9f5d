/** Little-endian 64-bit words stored in byte memory, as the kernel's `u64` and `size_t` fields are. */
module Words {
  type Byte = b: int | 0 <= b < 256

  const TWO_TO_64: nat := 0x1_0000_0000_0000_0000

  /** 256 to the power n. */
  function Pow256(n: nat): (r: nat)
    ensures r > 0
  {
    if n == 0 then 1 else 256 * Pow256(n - 1)
  }

  /** The number whose little-endian bytes are s. */
  function Value(s: seq<Byte>): nat {
    if s == [] then 0 else s[0] + 256 * Value(s[1..])
  }

  /** The n low bytes of v, least significant first. */
  function Bytes(v: nat, n: nat): (s: seq<Byte>)
    ensures |s| == n
  {
    if n == 0 then [] else [v % 256] + Bytes(v / 256, n - 1)
  }

  function Load(m: seq<Byte>, a: nat): nat
    requires a + 8 <= |m|
  {
    Value(m[a..a + 8])
  }

  function Store(m: seq<Byte>, a: nat, v: nat): (r: seq<Byte>)
    requires a + 8 <= |m|
    ensures |r| == |m|
    ensures forall x {:trigger r[x]} :: 0 <= x < |m| && !(a <= x < a + 8) ==> r[x] == m[x]
  {
    m[..a] + Bytes(v, 8) + m[a + 8..]
  }

  lemma {:induction false} ValueOfBytes(v: nat, n: nat)
    requires v < Pow256(n)
    ensures Value(Bytes(v, n)) == v
  {
    if n > 0 {
      ValueOfBytes(v / 256, n - 1);
      assert Bytes(v, n)[1..] == Bytes(v / 256, n - 1);
    }
  }

  lemma Pow256Of8()
    ensures Pow256(8) == TWO_TO_64
  {}

  /** A word reads back as it was stored. */
  lemma LoadStored(m: seq<Byte>, a: nat, v: nat)
    requires a + 8 <= |m| && v < TWO_TO_64
    ensures Load(Store(m, a, v), a) == v
  {
    Pow256Of8();
    ValueOfBytes(v, 8);
    assert Store(m, a, v)[a..a + 8] == Bytes(v, 8);
  }

  /** Two memories agree outside the byte range [lo, hi). */
  ghost predicate SameOutside(m: seq<Byte>, m': seq<Byte>, lo: int, hi: int) {
    |m| == |m'| && forall x {:trigger m'[x]} :: 0 <= x < |m| && !(lo <= x < hi) ==> m'[x] == m[x]
  }

  /** A word clear of the changed range still reads the same. */
  lemma LoadOutside(m: seq<Byte>, m': seq<Byte>, lo: int, hi: int, a: nat)
    requires SameOutside(m, m', lo, hi)
    requires a + 8 <= |m| && (a + 8 <= lo || hi <= a)
    ensures Load(m', a) == Load(m, a)
  {
    assert m'[a..a + 8] == m[a..a + 8];
  }

  // ---------- Words cut at a byte boundary

  lemma {:induction false} ValueOfConcat(s: seq<Byte>, t: seq<Byte>)
    ensures Value(s + t) == Value(s) + Pow256(|s|) * Value(t)
  {
    if s == [] {
      assert s + t == t;
    } else {
      ValueOfConcat(s[1..], t);
      assert (s + t)[1..] == s[1..] + t;
      assert Pow256(|s|) * Value(t) == 256 * (Pow256(|s| - 1) * Value(t));
    }
  }

  lemma {:induction false} ValueBelowPow(s: seq<Byte>)
    ensures Value(s) < Pow256(|s|)
  {
    if s != [] {
      ValueBelowPow(s[1..]);
    }
  }

  lemma {:induction false} ValueOfZeros(s: seq<Byte>)
    requires forall i :: 0 <= i < |s| ==> s[i] == 0
    ensures Value(s) == 0
  {
    if s != [] {
      ValueOfZeros(s[1..]);
    }
  }

  /** Cutting a number's bytes after the k-th divides it by 256^k. */
  lemma CutBytes(s: seq<Byte>, k: nat)
    requires k <= |s|
    ensures Value(s[..k]) == Value(s) % Pow256(k)
    ensures Value(s) == Value(s[..k]) + Pow256(k) * Value(s[k..])
    ensures Value(s) < Pow256(k) <==> Value(s[k..]) == 0
  {
    hide Value, Pow256;
    ValueOfConcat(s[..k], s[k..]);
    assert s[..k] + s[k..] == s;
    ValueBelowPow(s[..k]);
    RemainderOf(Value(s[..k]), Pow256(k), Value(s[k..]));
  }

  lemma {:induction false} OneFactorMore(p: nat, x: nat, y: nat)
    requires x < y
    ensures p * x + p <= p * y
  {
    if x + 1 < y {
      OneFactorMore(p, x, y - 1);
    }
  }

  lemma RemainderOf(r: nat, p: nat, q: nat)
    requires r < p
    ensures (r + p * q) % p == r
    ensures r + p * q < p <==> q == 0
  {
    var n := r + p * q;
    var d := n / p;
    assert n == p * d + n % p;
    if q > 0 {
      OneFactorMore(p, 0, q);
    }
    if d < q {
      OneFactorMore(p, d, q);
    } else if d > q {
      OneFactorMore(p, q, d);
    }
  }

  lemma {:induction false} ZeroBytes(n: nat)
    ensures forall i :: 0 <= i < n ==> Bytes(0, n)[i] == 0
  {
    if n > 0 {
      ZeroBytes(n - 1);
    }
  }
}
