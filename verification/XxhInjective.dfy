/** The arithmetic of XXH32 and XXH64 loses nothing on the way: for given lanes a round tells all
    blocks apart, and the finish tells all inputs apart that differ in one of its units. */
module XxhInjective {
  import opened Basics
  import opened HashInput
  import opened XxhLanes
  import opened XxhKernels
  import Bits

  // ----- Steps modulo m

  /** A factor with an inverse can be cancelled. */
  lemma FactorUndone(x: nat, p: nat, i: nat, t: nat, m: nat)
    requires x < m && p * i == 1 + t * m
    ensures x * p % m * i % m == x
  {
    var q, r := x * p / m, x * p % m;
    assert x * p == m * q + r;
    FactorSteps(x, p, i, t, m, q, r);
    Bits.QuotientIs(r * i, m, x * t - q * i, x);
  }

  lemma FactorSteps(x: nat, p: nat, i: nat, t: nat, m: nat, q: nat, r: nat)
    requires x * p == m * q + r && p * i == 1 + t * m
    ensures r * i == m * (x * t - q * i) + x
  {
    assert x * p * i == x * (p * i) == x * (1 + t * m) == x + m * (x * t);
    assert (m * q + r) * i == m * (q * i) + r * i;
  }

  lemma FactorCancels(x: nat, y: nat, p: nat, i: nat, t: nat, m: nat)
    requires x < m && y < m && p * i == 1 + t * m && x * p % m == y * p % m
    ensures x == y
  {
    FactorUndone(x, p, i, t, m);
    FactorUndone(y, p, i, t, m);
  }

  lemma SumCancels(k: nat, a: nat, b: nat, m: nat)
    requires m > 0 && (k + a) % m == (k + b) % m
    ensures a % m == b % m
  {
    var q, q' := (k + a) / m, (k + b) / m;
    assert k + a == m * q + (k + a) % m && k + b == m * q' + (k + b) % m;
    var c, r := b / m, b % m;
    assert b == m * c + r;
    assert a == m * (q - q' + c) + r by { assert m * (q - q' + c) == m * q - m * q' + m * c; }
    Bits.QuotientIs(a, m, q - q' + c, r);
  }

  // ----- Rotations

  /** A rotation exchanges the two parts of a number. */
  lemma RotatedParts(x: nat, p: nat, c: nat, m: nat, h: nat, l: nat)
    requires p > 0 && c > 0 && p * c == m && x < m && h == x / c && l == x % c
    ensures h < p && (x * p + h) % m == l * p + h
  {
    Bits.QuotientBelow(x, p, c);
    RotatedSum(p, c, h, l);
    assert x == c * h + l;
    Bits.Below(p, c, l, h);
    Bits.QuotientIs(x * p + h, m, h, l * p + h);
  }

  lemma RotatedSum(p: nat, c: nat, h: nat, l: nat)
    ensures (c * h + l) * p + h == (p * c) * h + (l * p + h)
  {
  }

  function Rotated(x: nat, p: nat, c: nat, m: nat): (r: nat)
    requires c > 0 && m > 0
  {
    (x * p + x / c) % m
  }

  function RotatedBack(r: nat, p: nat, c: nat): (x: nat)
    requires p > 0
  {
    c * (r % p) + r / p
  }

  lemma RotationUndone(x: nat, p: nat, c: nat, m: nat)
    requires p > 0 && c > 0 && p * c == m && x < m
    ensures RotatedBack(Rotated(x, p, c, m), p, c) == x
  {
    var h, l := x / c, x % c;
    RotatedParts(x, p, c, m, h, l);
    Bits.QuotientIs(l * p + h, p, l, h);
    assert x == c * h + l;
  }

  lemma RotationCancels(x: nat, y: nat, p: nat, c: nat, m: nat)
    requires p > 0 && c > 0 && p * c == m && m > 0 && x < m && y < m && Rotated(x, p, c, m) == Rotated(y, p, c, m)
    ensures x == y
  {
    hide Rotated, RotatedBack;
    RotationUndone(x, p, c, m);
    RotationUndone(y, p, c, m);
  }

  lemma Rotl32Cancels(x: Word32, y: Word32, s: nat)
    requires s <= 32 && Rotl32(x, s) == Rotl32(y, s)
    ensures x == y
  {
    hide Bits.Pow2, Bits.Shr;
    Bits.TwoTo64();
    Bits.Pow2Add(s, 32 - s);
    Bits.ShrIsDivision(x, 32 - s);
    Bits.ShrIsDivision(y, 32 - s);
    RotationCancels(x, y, Bits.Pow2(s), Bits.Pow2(32 - s), TWO_32);
  }

  lemma Rotl64Cancels(x: Word, y: Word, s: nat)
    requires s <= 64 && Rotl64(x, s) == Rotl64(y, s)
    ensures x == y
  {
    hide Bits.Pow2, Bits.Shr;
    Bits.TwoTo64();
    Bits.Pow2Add(s, 64 - s);
    Bits.ShrIsDivision(x, 64 - s);
    Bits.ShrIsDivision(y, 64 - s);
    RotationCancels(x, y, Bits.Pow2(s), Bits.Pow2(64 - s), TWO_64);
  }

  // ----- Xor

  lemma {:induction false} HighBitsAreClear(x: nat, n: nat, i: nat)
    requires x < Bits.Pow2(n) && i >= n
    ensures !Bits.Bit(x, i)
  {
    if n == 0 {
      Bits.ZeroHasNoBits(i);
    } else {
      HighBitsAreClear(x / 2, n - 1, i - 1);
    }
  }

  ghost predicate SameBits(x: nat, y: nat, n: nat) {
    forall i: nat :: i < n ==> Bits.Bit(x, i) == Bits.Bit(y, i)
  }

  lemma {:induction false} BitsTellNumber(x: nat, y: nat, n: nat)
    requires x < Bits.Pow2(n) && y < Bits.Pow2(n) && SameBits(x, y, n)
    ensures x == y
  {
    if n > 0 {
      assert Bits.Bit(x, 0) == Bits.Bit(y, 0);
      forall i: nat | i < n - 1
        ensures Bits.Bit(x / 2, i) == Bits.Bit(y / 2, i)
      {
        assert Bits.Bit(x, i + 1) == Bits.Bit(y, i + 1);
      }
      BitsTellNumber(x / 2, y / 2, n - 1);
    }
  }

  lemma XorCancels(k: nat, a: nat, b: nat, n: nat)
    requires a < Bits.Pow2(n) && b < Bits.Pow2(n) && (Bits.Xor(k, a) == Bits.Xor(k, b) || Bits.Xor(a, k) == Bits.Xor(b, k))
    ensures a == b
  {
    forall i: nat | i < n
      ensures Bits.Bit(a, i) == Bits.Bit(b, i)
    {
      Bits.XorBit(k, a, i);
      Bits.XorBit(k, b, i);
      Bits.XorBit(a, k, i);
      Bits.XorBit(b, k, i);
    }
    BitsTellNumber(a, b, n);
  }

  /** From the highest bit down, each bit is told by that of the result and one `s` places higher. */
  lemma {:induction false} XorShiftBit(x: nat, y: nat, s: nat, n: nat, i: nat)
    requires s > 0 && x < Bits.Pow2(n) && y < Bits.Pow2(n)
    requires Bits.Xor(x, Bits.Shr(x, s)) == Bits.Xor(y, Bits.Shr(y, s))
    ensures Bits.Bit(x, i) == Bits.Bit(y, i)
    decreases n - i
  {
    if i >= n {
      HighBitsAreClear(x, n, i);
      HighBitsAreClear(y, n, i);
    } else {
      XorShiftBit(x, y, s, n, i + s);
      Bits.XorBit(x, Bits.Shr(x, s), i);
      Bits.XorBit(y, Bits.Shr(y, s), i);
      Bits.ShrBit(x, s, i);
      Bits.ShrBit(y, s, i);
    }
  }

  lemma XorShiftCancels(x: nat, y: nat, s: nat, n: nat)
    requires s > 0 && x < Bits.Pow2(n) && y < Bits.Pow2(n)
    requires Bits.Xor(x, Bits.Shr(x, s)) == Bits.Xor(y, Bits.Shr(y, s))
    ensures x == y
  {
    forall i: nat | i < n ensures Bits.Bit(x, i) == Bits.Bit(y, i) { XorShiftBit(x, y, s, n, i); }
    BitsTellNumber(x, y, n);
  }

  lemma XorShift32Cancels(x: Word32, y: Word32, s: nat)
    requires s > 0 && XorShift32(x, s) == XorShift32(y, s)
    ensures x == y
  {
    hide Bits.Pow2, Bits.Shr, Bits.Xor;
    Bits.TwoTo64();
    Bits.XorBound(x, Bits.Shr(x, s), 32);
    Bits.XorBound(y, Bits.Shr(y, s), 32);
    XorShiftCancels(x, y, s, 32);
  }

  lemma XorShift64Cancels(x: Word, y: Word, s: nat)
    requires s > 0 && XorShift64(x, s) == XorShift64(y, s)
    ensures x == y
  {
    hide Bits.Pow2, Bits.Shr, Bits.Xor;
    Bits.TwoTo64();
    Bits.XorBound(x, Bits.Shr(x, s), 64);
    Bits.XorBound(y, Bits.Shr(y, s), 64);
    XorShiftCancels(x, y, s, 64);
  }

  // ----- The primes

  lemma P32_1Cancels(x: nat, y: nat)
    requires x < TWO_32 && y < TWO_32 && Low32(x * P32_1) == Low32(y * P32_1)
    ensures x == y
  {
    FactorCancels(x, y, P32_1, 0xE8B2F51, 0x8FD0E05, TWO_32);
  }

  lemma P32_2Cancels(x: nat, y: nat)
    requires x < TWO_32 && y < TWO_32 && Low32(x * P32_2) == Low32(y * P32_2)
    ensures x == y
  {
    FactorCancels(x, y, P32_2, 0xB6C92F47, 0x5F9EE0CE, TWO_32);
  }

  lemma P32_3Cancels(x: nat, y: nat)
    requires x < TWO_32 && y < TWO_32 && Low32(x * P32_3) == Low32(y * P32_3)
    ensures x == y
  {
    FactorCancels(x, y, P32_3, 0xA89ED915, 0x803E11B9, TWO_32);
  }

  lemma P32_4Cancels(x: nat, y: nat)
    requires x < TWO_32 && y < TWO_32 && Low32(x * P32_4) == Low32(y * P32_4)
    ensures x == y
  {
    FactorCancels(x, y, P32_4, 0xA0FE3BCF, 0x190CA18D, TWO_32);
  }

  lemma P32_5Cancels(x: nat, y: nat)
    requires x < TWO_32 && y < TWO_32 && Low32(x * P32_5) == Low32(y * P32_5)
    ensures x == y
  {
    FactorCancels(x, y, P32_5, 0xAE398151, 0xF33BF00, TWO_32);
  }

  lemma P64_1Cancels(x: nat, y: nat)
    requires x < TWO_64 && y < TWO_64 && Low64(x * P64_1) == Low64(y * P64_1)
    ensures x == y
  {
    FactorCancels(x, y, P64_1, 0x887493432BADB37, 0x545584CCD1FA67A, TWO_64);
  }

  lemma P64_2Cancels(x: nat, y: nat)
    requires x < TWO_64 && y < TWO_64 && Low64(x * P64_2) == Low64(y * P64_2)
    ensures x == y
  {
    FactorCancels(x, y, P64_2, 0xBA79078168D4BAF, 0x8DD1DEC21860607, TWO_64);
  }

  lemma P64_3Cancels(x: nat, y: nat)
    requires x < TWO_64 && y < TWO_64 && Low64(x * P64_3) == Low64(y * P64_3)
    ensures x == y
  {
    FactorCancels(x, y, P64_3, 0xE9E9F4C41D6DF849, 0x14690E6081378F7F, TWO_64);
  }

  lemma P64_4Cancels(x: nat, y: nat)
    requires x < TWO_64 && y < TWO_64 && Low64(x * P64_4) == Low64(y * P64_4)
    ensures x == y
  {
    FactorCancels(x, y, P64_4, 0xD872E78F6FE1434B, 0x713B0EF8028AB485, TWO_64);
  }

  lemma P64_5Cancels(x: nat, y: nat)
    requires x < TWO_64 && y < TWO_64 && Low64(x * P64_5) == Low64(y * P64_5)
    ensures x == y
  {
    FactorCancels(x, y, P64_5, 0xC592C09FDFBA7F0D, 0x1EBDAE61ED7C1B77, TWO_64);
  }

  // ----- Reading

  lemma ReadTellsBytes(x: Bytes, y: Bytes, at: nat, n: nat)
    requires at + n <= |x| && at + n <= |y| && Read(x, at, n) == Read(y, at, n)
    ensures x[at..at + n] == y[at..at + n]
  {
    BytesRoundTrip(x[at..at + n]);
    BytesRoundTrip(y[at..at + n]);
  }

  lemma ReadBound(x: Bytes, at: nat, n: nat)
    ensures Read(x, at, n) < Pow256(n)
  {
    if at + n <= |x| { FromBytesBound(x[at..at + n]); }
  }

  lemma WordSizes()
    ensures Pow256(1) == 0x100 && Pow256(4) == TWO_32 && Pow256(8) == TWO_64
  {
    assert Pow256(4) == 0x1_0000_0000;
    assert Pow256(8) == 0x1_0000_0000 * Pow256(4);
  }

  // ----- Rounds of 32 bits

  /** For a given lane, a round tells all words of the input apart. */
  lemma Round32Cancels(acc: Word, a: nat, b: nat)
    requires a < TWO_32 && b < TWO_32 && Round32(acc, a) == Round32(acc, b)
    ensures a == b
  {
    hide Rotl32;
    var x, y := Low32(acc + a * P32_2), Low32(acc + b * P32_2);
    P32_1Cancels(Rotl32(x, 13), Rotl32(y, 13));
    Rotl32Cancels(x, y, 13);
    SumCancels(acc, a * P32_2, b * P32_2, TWO_32);
    P32_2Cancels(a, b);
  }

  lemma RoundReadCancels32(acc: Word, x: Bytes, y: Bytes, at: nat)
    requires at + 4 <= |x| && at + 4 <= |y| && Round32(acc, Read(x, at, 4)) == Round32(acc, Read(y, at, 4))
    ensures x[at..at + 4] == y[at..at + 4]
  {
    hide Round32;
    WordSizes();
    ReadBound(x, at, 4);
    ReadBound(y, at, 4);
    Round32Cancels(acc, Read(x, at, 4), Read(y, at, 4));
    ReadTellsBytes(x, y, at, 4);
  }

  /** For given lanes, a round tells all blocks apart. */
  lemma RoundBlock32TellsBlocks(v: Quad, x: Bytes, y: Bytes)
    requires |x| == |y| == 16 && RoundBlock32(v, x) == RoundBlock32(v, y)
    ensures x == y
  {
    hide Round32, Read;
    RoundReadCancels32(v.v1, x, y, 0);
    RoundReadCancels32(v.v2, x, y, 4);
    RoundReadCancels32(v.v3, x, y, 8);
    RoundReadCancels32(v.v4, x, y, 12);
    assert x == x[0..0 + 4] + x[4..4 + 4] + x[8..8 + 4] + x[12..12 + 4];
    assert y == y[0..0 + 4] + y[4..4 + 4] + y[8..8 + 4] + y[12..12 + 4];
  }

  // ----- Rounds of 64 bits

  /** For a given lane, a round tells all words of the input apart. */
  lemma Round64Cancels(acc: Word, a: nat, b: nat)
    requires a < TWO_64 && b < TWO_64 && Round64(acc, a) == Round64(acc, b)
    ensures a == b
  {
    hide Rotl64;
    var x, y := Low64(acc + a * P64_2), Low64(acc + b * P64_2);
    P64_1Cancels(Rotl64(x, 31), Rotl64(y, 31));
    Rotl64Cancels(x, y, 31);
    SumCancels(acc, a * P64_2, b * P64_2, TWO_64);
    P64_2Cancels(a, b);
  }

  lemma RoundReadCancels64(acc: Word, x: Bytes, y: Bytes, at: nat)
    requires at + 8 <= |x| && at + 8 <= |y| && Round64(acc, Read(x, at, 8)) == Round64(acc, Read(y, at, 8))
    ensures x[at..at + 8] == y[at..at + 8]
  {
    hide Round64;
    WordSizes();
    ReadBound(x, at, 8);
    ReadBound(y, at, 8);
    Round64Cancels(acc, Read(x, at, 8), Read(y, at, 8));
    ReadTellsBytes(x, y, at, 8);
  }

  /** For given lanes, a round tells all blocks apart. */
  lemma RoundBlock64TellsBlocks(v: Quad, x: Bytes, y: Bytes)
    requires |x| == |y| == 32 && RoundBlock64(v, x) == RoundBlock64(v, y)
    ensures x == y
  {
    hide Round64, Read;
    RoundReadCancels64(v.v1, x, y, 0);
    RoundReadCancels64(v.v2, x, y, 8);
    RoundReadCancels64(v.v3, x, y, 16);
    RoundReadCancels64(v.v4, x, y, 24);
    assert x == x[0..0 + 8] + x[8..8 + 8] + x[16..16 + 8] + x[24..24 + 8];
    assert y == y[0..0 + 8] + y[8..8 + 8] + y[16..16 + 8] + y[24..24 + 8];
  }

  // ----- The finish of XXH32

  lemma Avalanche32Cancels(x: Word32, y: Word32)
    requires Avalanche32(x) == Avalanche32(y)
    ensures x == y
  {
    hide XorShift32;
    var a, a' := Low32(XorShift32(x, 15) * P32_2), Low32(XorShift32(y, 15) * P32_2);
    var b, b' := Low32(XorShift32(a, 13) * P32_3), Low32(XorShift32(a', 13) * P32_3);
    XorShift32Cancels(b, b', 16);
    P32_3Cancels(XorShift32(a, 13), XorShift32(a', 13));
    XorShift32Cancels(a, a', 13);
    P32_2Cancels(XorShift32(x, 15), XorShift32(y, 15));
    XorShift32Cancels(x, y, 15);
  }

  /** Four bytes of the tail mixed in. */
  function Mix4(h: Word32, u: nat): (r: Word32) { Low32(Rotl32(Low32(h + u * P32_3), 17) * P32_4) }

  /** One byte of the tail mixed in. */
  function Mix1(h: Word32, u: nat): (r: Word32) { Low32(Rotl32(Low32(h + u * P32_5), 11) * P32_1) }

  lemma Finalize32ByUnits(h: Word32, x: Bytes)
    ensures |x| >= 4 ==> Finalize32(h, x) == Finalize32(Mix4(h, Read(x, 0, 4)), x[4..])
    ensures 0 < |x| < 4 ==> Finalize32(h, x) == Finalize32(Mix1(h, x[0]), x[1..])
    ensures |x| == 0 ==> Finalize32(h, x) == Avalanche32(h)
  {
  }

  lemma Mix4Cancels(h: Word32, h': Word32, u: nat, u': nat)
    requires u < TWO_32 && u' < TWO_32 && Mix4(h, u) == Mix4(h', u')
    ensures (h == h') == (u == u')
  {
    hide Rotl32;
    var x, y := Low32(h + u * P32_3), Low32(h' + u' * P32_3);
    P32_4Cancels(Rotl32(x, 17), Rotl32(y, 17));
    Rotl32Cancels(x, y, 17);
    if h == h' {
      SumCancels(h, u * P32_3, u' * P32_3, TWO_32);
      P32_3Cancels(u, u');
    }
    if u == u' { SumCancels(u * P32_3, h, h', TWO_32); }
  }

  lemma Mix1Cancels(h: Word32, h': Word32, u: nat, u': nat)
    requires u < TWO_32 && u' < TWO_32 && Mix1(h, u) == Mix1(h', u')
    ensures (h == h') == (u == u')
  {
    hide Rotl32;
    var x, y := Low32(h + u * P32_5), Low32(h' + u' * P32_5);
    P32_1Cancels(Rotl32(x, 11), Rotl32(y, 11));
    Rotl32Cancels(x, y, 11);
    if h == h' {
      SumCancels(h, u * P32_5, u' * P32_5, TWO_32);
      P32_5Cancels(u, u');
    }
    if u == u' { SumCancels(u * P32_5, h, h', TWO_32); }
  }

  /** For a given tail, the finish tells all hashes so far apart. */
  lemma {:induction false} Finalize32TellsHash(h: Word32, h': Word32, x: Bytes)
    requires Finalize32(h, x) == Finalize32(h', x)
    ensures h == h'
    decreases |x|
  {
    hide Finalize32, Mix4, Mix1, Read;
    Finalize32ByUnits(h, x);
    Finalize32ByUnits(h', x);
    if |x| >= 4 {
      var u := Read(x, 0, 4);
      Finalize32TellsHash(Mix4(h, u), Mix4(h', u), x[4..]);
      WordSizes();
      ReadBound(x, 0, 4);
      Mix4Cancels(h, h', u, u);
    } else if |x| > 0 {
      Finalize32TellsHash(Mix1(h, x[0]), Mix1(h', x[0]), x[1..]);
      Mix1Cancels(h, h', x[0], x[0]);
    } else {
      Avalanche32Cancels(h, h');
    }
  }

  /** The size of the unit at the front of a tail: four bytes while there are as many, then one. */
  function Unit32(len: nat): (n: nat) { if len >= 4 then 4 else if len > 0 then 1 else 0 }

  /** Tails that differ in one unit only. */
  ghost predicate DifferInUnit32(x: Bytes, y: Bytes)
    decreases |x|
  {
    var n := Unit32(|x|);
    |x| == |y| && n > 0 && if x[..n] != y[..n] then x[n..] == y[n..] else DifferInUnit32(x[n..], y[n..])
  }

  /** They give different hashes. */
  lemma {:induction false} Finalize32TellsUnits(h: Word32, x: Bytes, y: Bytes)
    requires DifferInUnit32(x, y)
    ensures Finalize32(h, x) != Finalize32(h, y)
    decreases |x|
  {
    hide Finalize32, Mix4, Mix1, Read;
    Finalize32ByUnits(h, x);
    Finalize32ByUnits(h, y);
    if |x| >= 4 {
      var u, u' := Read(x, 0, 4), Read(y, 0, 4);
      if x[..4] == y[..4] {
        Finalize32TellsUnits(Mix4(h, u), x[4..], y[4..]);
        SameRead(x, y, 4);
      } else if Finalize32(h, x) == Finalize32(h, y) {
        Finalize32TellsHash(Mix4(h, u), Mix4(h, u'), x[4..]);
        WordSizes();
        ReadBound(x, 0, 4);
        ReadBound(y, 0, 4);
        Mix4Cancels(h, h, u, u');
        ReadTellsBytes(x, y, 0, 4);
      }
    } else {
      assert x[..1] == [x[0]] && y[..1] == [y[0]];
      if x[0] == y[0] {
        Finalize32TellsUnits(Mix1(h, x[0]), x[1..], y[1..]);
      } else if Finalize32(h, x) == Finalize32(h, y) {
        Finalize32TellsHash(Mix1(h, x[0]), Mix1(h, y[0]), x[1..]);
        Mix1Cancels(h, h, x[0], y[0]);
      }
    }
  }

  lemma SameRead(x: Bytes, y: Bytes, n: nat)
    requires n <= |x| && n <= |y| && x[..n] == y[..n]
    ensures Read(x, 0, n) == Read(y, 0, n)
  {
    assert x[0..0 + n] == x[..n] && y[0..0 + n] == y[..n];
  }

  lemma OneShotOfSmall(k: Lanes<Quad>, block: nat, wrap: nat -> nat, seed: Word, x: Bytes)
    requires |x| < block
    ensures OneShot(k, block, wrap, seed, x) == k.finish(k.small(seed), wrap(|x|), x)
  {
  }

  /** XXH32 tells inputs of less than a block apart that differ in one unit, for every seed. */
  lemma SmallInputsDiffer32(seed: Word, x: Bytes, y: Bytes)
    requires |x| < 16 && DifferInUnit32(x, y)
    ensures OneShot(Lanes32(), 16, Wrap32, seed, x) != OneShot(Lanes32(), 16, Wrap32, seed, y)
  {
    hide OneShot, Finalize32, Small32, Low32, Wrap32;
    OneShotOfSmall(Lanes32(), 16, Wrap32, seed, x);
    OneShotOfSmall(Lanes32(), 16, Wrap32, seed, y);
    Finalize32TellsUnits(Low32(Small32(seed) + Wrap32(|x|)), x, y);
  }

  // ----- The finish of XXH64

  lemma Avalanche64Cancels(x: Word, y: Word)
    requires Avalanche64(x) == Avalanche64(y)
    ensures x == y
  {
    hide XorShift64;
    var a, a' := Low64(XorShift64(x, 33) * P64_2), Low64(XorShift64(y, 33) * P64_2);
    var b, b' := Low64(XorShift64(a, 29) * P64_3), Low64(XorShift64(a', 29) * P64_3);
    XorShift64Cancels(b, b', 32);
    P64_3Cancels(XorShift64(a, 29), XorShift64(a', 29));
    XorShift64Cancels(a, a', 29);
    P64_2Cancels(XorShift64(x, 33), XorShift64(y, 33));
    XorShift64Cancels(x, y, 33);
  }

  /** A unit of eight, four or one bytes, as it is xored into the hash. */
  function Unit64(n: nat, u: nat): (r: Word) {
    if n == 8 then Round64(0, u) else if n == 4 then Low64(u * P64_1) else Low64(u * P64_5)
  }

  /** The hash with a unit xored in, mixed on. */
  function Mix64(n: nat, x: Word): (r: Word) {
    if n == 8 then Low64(Rotl64(x, 27) * P64_1 + P64_4)
    else if n == 4 then Low64(Rotl64(x, 23) * P64_2 + P64_3)
    else Low64(Rotl64(x, 11) * P64_1)
  }

  function Size64(len: nat): (n: nat) { if len >= 8 then 8 else if len >= 4 then 4 else if len > 0 then 1 else 0 }

  lemma Finalize64ByUnits(h: Word, x: Bytes)
    ensures var n := Size64(|x|);
            && (n > 0 ==> Finalize64(h, x) == Finalize64(Mix64(n, Low64(Bits.Xor(h, Unit64(n, Read(x, 0, n))))), x[n..]))
            && (n == 0 ==> Finalize64(h, x) == Avalanche64(h))
  {
    if 0 < |x| < 4 {
      assert x[0..0 + 1] == [x[0]] && [x[0]][1..] == [];
      assert FromBytes([x[0]]) == x[0] + 256 * FromBytes([x[0]][1..]);
      assert Read(x, 0, 1) == x[0];
    }
  }

  lemma Unit64Cancels(n: nat, u: nat, u': nat)
    requires u < TWO_64 && u' < TWO_64 && Unit64(n, u) == Unit64(n, u')
    ensures u == u'
  {
    hide Round64;
    if n == 8 {
      Round64Cancels(0, u, u');
    } else if n == 4 {
      P64_1Cancels(u, u');
    } else {
      P64_5Cancels(u, u');
    }
  }

  lemma Mix64Cancels(n: nat, x: Word, y: Word)
    requires Mix64(n, x) == Mix64(n, y)
    ensures x == y
  {
    hide Rotl64;
    if n == 8 {
      SumCancels(P64_4, Rotl64(x, 27) * P64_1, Rotl64(y, 27) * P64_1, TWO_64);
      P64_1Cancels(Rotl64(x, 27), Rotl64(y, 27));
      Rotl64Cancels(x, y, 27);
    } else if n == 4 {
      SumCancels(P64_3, Rotl64(x, 23) * P64_2, Rotl64(y, 23) * P64_2, TWO_64);
      P64_2Cancels(Rotl64(x, 23), Rotl64(y, 23));
      Rotl64Cancels(x, y, 23);
    } else {
      P64_1Cancels(Rotl64(x, 11), Rotl64(y, 11));
      Rotl64Cancels(x, y, 11);
    }
  }

  lemma Xor64Cancels(h: Word, h': Word, u: Word, u': Word)
    requires Low64(Bits.Xor(h, u)) == Low64(Bits.Xor(h', u'))
    ensures (h == h') == (u == u')
  {
    hide Bits.Pow2, Bits.Xor;
    Bits.TwoTo64();
    Bits.XorBound(h, u, 64);
    Bits.XorBound(h', u', 64);
    if h == h' { XorCancels(h, u, u', 64); }
    if u == u' { XorCancels(u, h, h', 64); }
  }

  lemma SizesFit(x: Bytes)
    ensures var n := Size64(|x|); n <= |x| && (n > 0 ==> Read(x, 0, n) < TWO_64)
  {
    WordSizes();
    ReadBound(x, 0, Size64(|x|));
  }

  /** For a given tail, the finish tells all hashes so far apart. */
  lemma {:induction false} Finalize64TellsHash(h: Word, h': Word, x: Bytes)
    requires Finalize64(h, x) == Finalize64(h', x)
    ensures h == h'
    decreases |x|
  {
    hide Finalize64, Mix64, Unit64, Read, Bits.Xor;
    var n := Size64(|x|);
    Finalize64ByUnits(h, x);
    Finalize64ByUnits(h', x);
    if n > 0 {
      var u := Unit64(n, Read(x, 0, n));
      var k, k' := Low64(Bits.Xor(h, u)), Low64(Bits.Xor(h', u));
      Finalize64TellsHash(Mix64(n, k), Mix64(n, k'), x[n..]);
      Mix64Cancels(n, k, k');
      Xor64Cancels(h, h', u, u);
    } else {
      Avalanche64Cancels(h, h');
    }
  }

  /** Tails that differ in one unit only: eight bytes while there are as many, then four, then one. */
  ghost predicate DifferInUnit64(x: Bytes, y: Bytes)
    decreases |x|
  {
    var n := Size64(|x|);
    |x| == |y| && n > 0 && if x[..n] != y[..n] then x[n..] == y[n..] else DifferInUnit64(x[n..], y[n..])
  }

  /** They give different hashes. */
  lemma {:induction false} Finalize64TellsUnits(h: Word, x: Bytes, y: Bytes)
    requires DifferInUnit64(x, y)
    ensures Finalize64(h, x) != Finalize64(h, y)
    decreases |x|
  {
    hide Finalize64, Mix64, Unit64, Read, Bits.Xor;
    var n := Size64(|x|);
    Finalize64ByUnits(h, x);
    Finalize64ByUnits(h, y);
    SizesFit(x);
    SizesFit(y);
    var u, u' := Unit64(n, Read(x, 0, n)), Unit64(n, Read(y, 0, n));
    var k, k' := Low64(Bits.Xor(h, u)), Low64(Bits.Xor(h, u'));
    if x[..n] == y[..n] {
      Finalize64TellsUnits(Mix64(n, k), x[n..], y[n..]);
      SameRead(x, y, n);
    } else if Finalize64(h, x) == Finalize64(h, y) {
      Finalize64TellsHash(Mix64(n, k), Mix64(n, k'), x[n..]);
      Mix64Cancels(n, k, k');
      Xor64Cancels(h, h, u, u');
      Unit64Cancels(n, Read(x, 0, n), Read(y, 0, n));
      ReadTellsBytes(x, y, 0, n);
    }
  }

  /** XXH64 tells inputs of less than a block apart that differ in one unit, for every seed. */
  lemma SmallInputsDiffer64(seed: Word, x: Bytes, y: Bytes)
    requires |x| < 32 && DifferInUnit64(x, y)
    ensures OneShot(Lanes64(), 32, Wrap64, seed, x) != OneShot(Lanes64(), 32, Wrap64, seed, y)
  {
    hide OneShot, Finalize64, Small64, Low64, Wrap64;
    OneShotOfSmall(Lanes64(), 32, Wrap64, seed, x);
    OneShotOfSmall(Lanes64(), 32, Wrap64, seed, y);
    Finalize64TellsUnits(Low64(Small64(seed) + Wrap64(|x|)), x, y);
  }
}
