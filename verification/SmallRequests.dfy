/** split_block for requests too small to keep the two headers apart. */
module SmallRequests {
  import opened Words
  import opened HeapMemory

  /** Both headers and the link are what splitting off `size` bytes of the block at b should leave. */
  ghost predicate SplitIsRight(m: seq<Byte>, m': seq<Byte>, b: nat, size: nat)
    requires |m'| == |m| && b + 8 + size + 16 <= |m|
  {
    && Load(m', b) == size
    && Load(m', b + 8 + size) == Load(m, b) - size - 8
    && Load(m', b + 8 + size + 8) == Load(m, b + 8)
  }

  lemma LoadIsWord(m: seq<Byte>, a: nat)
    requires a + 8 <= |m|
    ensures Load(m, a) < TWO_TO_64
  {
    Pow256Of8();
    ValueBelowPow(m[a..a + 8]);
  }

  lemma CancelFactor(p: nat, x: nat, y: nat)
    requires p > 0
    ensures p * x == p * y <==> x == y
  {}

  /** The words a small split leaves, as the bytes they are made of. */
  lemma SmallSplitBytes(m: seq<Byte>, b: nat, size: nat)
    requires b + 8 + size + 16 <= |m| && Load(m, b) > size + 16 && size < 8
    ensures var m', r := SplitMemory(m, b, size), Bytes(Load(m, b) - size - 8, 8);
      && Load(m', b) == size
      && m'[b + 8 + size..b + 16 + size] == Bytes(0, 8)[size..] + r[8 - size..]
      && Load(m', b + 8 + size + 8) == Value(m[b + 8..b + 8 + size] + r[..8 - size])
  {
    hide Load, Bytes;
    var rem, cut := Load(m, b) - size, b + 8 + size;
    var m1 := Store(m, b, size);
    var m2 := Store(m1, cut, rem - 8);
    var x := Load(m2, b + 8);
    var m3 := Store(m2, cut + 8, x);
    var m4 := Store(m3, b + 8, 0);
    assert m2[b + 8..b + 16] == m[b + 8..b + 8 + size] + Bytes(rem - 8, 8)[..8 - size];
    assert m4[cut..cut + 8] == Bytes(0, 8)[size..] + Bytes(rem - 8, 8)[8 - size..];
    LoadStored(m, b, size);
    LoadOutside(m1, m4, b + 8, cut + 16, b);
    LoadIsWord(m2, b + 8);
    LoadStored(m2, cut + 8, x);
    LoadOutside(m3, m4, b + 8, b + 16, cut + 8);
    LoadIs(m2, b + 8);
  }

  lemma LoadIs(m: seq<Byte>, a: nat)
    requires a + 8 <= |m|
    ensures Load(m, a) == Value(m[a..a + 8])
  {}

  /** The low k bytes of v, as a number, are v modulo 256^k. */
  lemma LowBytes(v: nat, k: nat)
    requires v < TWO_TO_64 && k <= 8
    ensures Value(Bytes(v, 8)[..k]) == v % Pow256(k)
    ensures v == Value(Bytes(v, 8)[..k]) + Pow256(k) * Value(Bytes(v, 8)[k..])
  {
    Pow256Of8();
    ValueOfBytes(v, 8);
    CutBytes(Bytes(v, 8), k);
  }

  /** The remainder's size survives a small split exactly when its low bytes are zero. */
  lemma SmallSplitSize(m: seq<Byte>, b: nat, size: nat)
    requires b + 8 + size + 16 <= |m| && Load(m, b) > size + 16 && size < 8
    ensures var rem := Load(m, b) - size;
      Load(SplitMemory(m, b, size), b + 8 + size) == rem - 8 <==> (rem - 8) % Pow256(8 - size) == 0
  {
    hide Load, Bytes, SplitMemory, Value, Pow256;
    var v, k := Load(m, b) - size - 8, 8 - size;
    var m', zeros := SplitMemory(m, b, size), Bytes(0, 8)[size..];
    LoadIsWord(m, b);
    SmallSplitBytes(m, b, size);
    LoadIs(m', b + 8 + size);
    ValueOfConcat(zeros, Bytes(v, 8)[k..]);
    ZeroBytes(8);
    ValueOfZeros(zeros);
    LowBytes(v, k);
  }

  /** The link it hands on survives exactly when those low bytes equal the link's own high bytes. */
  lemma SmallSplitLink(m: seq<Byte>, b: nat, size: nat)
    requires b + 8 + size + 16 <= |m| && Load(m, b) > size + 16 && size < 8
    ensures var rem := Load(m, b) - size;
      Load(SplitMemory(m, b, size), b + 8 + size + 8) == Load(m, b + 8)
      <==> (rem - 8) % Pow256(8 - size) == Value(m[b + 8..b + 16][size..])
  {
    hide Load, Bytes, SplitMemory, Value, Pow256;
    var v, k, link := Load(m, b) - size - 8, 8 - size, m[b + 8..b + 16];
    LoadIsWord(m, b);
    SmallSplitBytes(m, b, size);
    LoadIs(m, b + 8);
    assert m[b + 8..b + 8 + size] == link[..size];
    ValueOfConcat(link[..size], Bytes(v, 8)[..k]);
    CutBytes(link, size);
    LowBytes(v, k);
    CancelFactor(Pow256(size), Value(Bytes(v, 8)[..k]), Value(link[size..]));
  }

  /** split_block leaves correct headers exactly for requests of at least 8 bytes, or smaller ones
      where the bytes that overlap happen to be zero. */
  lemma SplitIsRightIff(m: seq<Byte>, b: nat, size: nat)
    requires b + 8 + size + 16 <= |m| && Load(m, b) > size + 16
    ensures SplitIsRight(m, SplitMemory(m, b, size), b, size) <==>
      || size >= 8
      || ((Load(m, b) - size - 8) % Pow256(8 - size) == 0 && Load(m, b + 8) < Pow256(size))
  {
    hide Load, SplitMemory, Value, Pow256;
    LoadIsWord(m, b);
    LoadIsWord(m, b + 8);
    if size >= 8 {
      SplitWrites(m, b, size);
    } else {
      SmallSplitBytes(m, b, size);
      SmallSplitSize(m, b, size);
      SmallSplitLink(m, b, size);
      LoadIs(m, b + 8);
      CutBytes(m[b + 8..b + 16], size);
    }
  }

  /** Splitting 0 bytes off a 64-byte block: the remainder's header reads 0 instead of 56. */
  lemma ZeroByteSplit()
    ensures var m := Bytes(64, 8) + Bytes(0, 64);
      Load(m, 0) == 64 && !SplitIsRight(m, SplitMemory(m, 0, 0), 0, 0)
  {
    var m := Bytes(64, 8) + Bytes(0, 64);
    Pow256Of8();
    ValueOfBytes(64, 8);
    assert m[0..8] == Bytes(64, 8);
    SplitIsRightIff(m, 0, 0);
  }
}
