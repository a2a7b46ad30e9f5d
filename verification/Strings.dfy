/** string.c: moving overlapping bytes, and finding a substring. */
module Strings {
  import opened Options
  import opened Words

  /** memmove within one memory: the destination gets the old source, nothing else changes. */
  method Memmove(mem: array<Byte>, dest: nat, src: nat, n: nat) returns (r: nat)
    requires dest + n <= mem.Length && src + n <= mem.Length
    modifies mem
    ensures r == dest && mem[dest..dest + n] == old(mem[src..src + n])
    ensures forall k :: 0 <= k < mem.Length && !(dest <= k < dest + n) ==> mem[k] == old(mem[k])
  {
    var left := n;
    var ps, pd := src, dest;
    if dest <= src {
      while left != 0
        invariant 0 <= left <= n && ps == src + (n - left) && pd == dest + (n - left)
        invariant forall k :: dest <= k < pd ==> mem[k] == old(mem[k - dest + src])
        invariant forall k :: 0 <= k < mem.Length && !(dest <= k < pd) ==> mem[k] == old(mem[k])
      {
        left := left - 1;
        mem[pd] := mem[ps];
        pd, ps := pd + 1, ps + 1;
      }
    } else {
      ps, pd := ps + n, pd + n;
      while left != 0
        invariant 0 <= left <= n && ps == src + left && pd == dest + left
        invariant forall k :: pd <= k < dest + n ==> mem[k] == old(mem[k - dest + src])
        invariant forall k :: 0 <= k < mem.Length && !(pd <= k < dest + n) ==> mem[k] == old(mem[k])
      {
        left := left - 1;
        pd, ps := pd - 1, ps - 1;
        mem[pd] := mem[ps];
      }
    }
    return dest;
  }

  /** The ranges agree for k bytes, and then differ by d. */
  ghost predicate FirstDifference(a: array<Byte>, p: nat, b: array<Byte>, q: nat, k: nat, d: int)
    reads a, b
  {
    && p + k < a.Length && q + k < b.Length
    && a[p..p + k] == b[q..q + k] && a[p + k] as int - b[q + k] as int == d
  }

  /** memcmp: zero for equal ranges, else the difference of the first bytes that differ. */
  method Memcmp(a: array<Byte>, p: nat, b: array<Byte>, q: nat, n: nat) returns (ret: int)
    requires p + n <= a.Length && q + n <= b.Length
    ensures ret == 0 <==> a[p..p + n] == b[q..q + n]
    ensures ret != 0 ==> exists k: nat :: k < n && FirstDifference(a, p, b, q, k, ret)
  {
    ret := 0;
    var i := 0;
    while i < n
      invariant 0 <= i <= n && ret == 0 && a[p..p + i] == b[q..q + i]
    {
      ret := a[p + i] as int - b[q + i] as int;
      if ret != 0 {
        assert a[p..p + n][i] != b[q..q + n][i];
        assert FirstDifference(a, p, b, q, i, ret);
        return;
      }
      i := i + 1;
    }
  }

  /** A string starts at s: some byte from there on is zero. */
  ghost predicate Terminated(a: array<Byte>, s: nat)
    reads a
  {
    s <= a.Length && 0 in a[s..]
  }

  /** n is the length of the string at s. */
  ghost predicate IsLength(a: array<Byte>, s: nat, n: nat)
    reads a
  {
    s + n < a.Length && a[s + n] == 0 && forall k :: s <= k < s + n ==> a[k] != 0
  }

  method Strlen(a: array<Byte>, s: nat) returns (n: nat)
    requires Terminated(a, s)
    ensures IsLength(a, s, n)
  {
    n := 0;
    while a[s + n] != 0
      invariant s + n < a.Length && 0 in a[s + n..] && forall k :: s <= k < s + n ==> a[k] != 0
      decreases a.Length - n
    {
      assert a[s + n..] == [a[s + n]] + a[s + n + 1..];
      n := n + 1;
    }
  }

  /** The m bytes of b at q occur in a at p. */
  ghost predicate OccursAt(a: array<Byte>, p: nat, b: array<Byte>, q: nat, m: nat)
    reads a, b
  {
    p + m <= a.Length && q + m <= b.Length && a[p..p + m] == b[q..q + m]
  }

  /** strstr: the first place in the string at dom where the string at sub occurs, if any. Both
      arrays may end with their terminator, so no byte past either string is read. */
  method Strstr(a: array<Byte>, dom: nat, b: array<Byte>, sub: nat) returns (r: Option<nat>)
    requires Terminated(a, dom) && Terminated(b, sub)
    ensures forall n: nat, m: nat :: IsLength(a, dom, n) && IsLength(b, sub, m) ==>
      match r
      case Some(at) =>
        && dom <= at && at + m <= dom + n && OccursAt(a, at, b, sub, m)
        && forall k: nat :: dom <= k < at ==> !OccursAt(a, k, b, sub, m)
      case None => forall k: nat :: dom <= k && k + m <= dom + n ==> !OccursAt(a, k, b, sub, m)
  {
    hide Terminated;
    var subLen := Strlen(b, sub);
    LengthIsUnique(b, sub, subLen);
    if subLen == 0 {
      var n := Strlen(a, dom);
      LengthIsUnique(a, dom, n);
      assert a[dom..dom] == b[sub..sub];
      return Some(dom);
    }
    var domLen := Strlen(a, dom);
    LengthIsUnique(a, dom, domLen);
    var left, at := domLen, dom;
    while left >= subLen
      invariant 0 <= left <= domLen && at + left == dom + domLen
      invariant forall k: nat :: dom <= k < at ==> !OccursAt(a, k, b, sub, subLen)
    {
      left := left - 1;
      var order := Memcmp(a, at, b, sub, subLen);
      if order == 0 {
        return Some(at);
      }
      at := at + 1;
    }
    return None;
  }

  lemma LengthIsUnique(a: array<Byte>, s: nat, n: nat)
    requires IsLength(a, s, n)
    ensures forall m: nat :: IsLength(a, s, m) ==> m == n
  {}
}
