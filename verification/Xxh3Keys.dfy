/** How the XXH3 hash of short inputs depends on secret and seed: on the seed one to one, and on
    exactly two words of the secret, of which neither can be changed alone unnoticed. */
module Xxh3Keys {
  import opened Xxh3Short

  // ----- Steps that lose nothing

  lemma PlusWritten(a: bv64, b: bv64)
    ensures Plus(a, b) == a + b
    ensures Minus(a + b, a) == b && Minus(a + b, b) == a
  {
  }

  lemma PlusCancels(a: bv64, b: bv64, c: bv64)
    ensures Plus(a, b) == Plus(a, c) <==> b == c
    ensures Plus(b, a) == Plus(c, a) <==> b == c
  {
    hide Plus, Minus;
    PlusWritten(a, b);
    PlusWritten(a, c);
    PlusWritten(b, a);
    PlusWritten(c, a);
  }

  lemma MinusWritten(a: bv64, b: bv64)
    ensures Minus(a, b) == a - b
    ensures Plus(a - b, b) == a && Minus(a, a - b) == b
  {
  }

  lemma MinusCancels(a: bv64, b: bv64, c: bv64)
    ensures Minus(a, b) == Minus(a, c) <==> b == c
    ensures Minus(b, a) == Minus(c, a) <==> b == c
  {
    hide Plus, Minus;
    MinusWritten(a, b);
    MinusWritten(a, c);
    MinusWritten(b, a);
    MinusWritten(c, a);
  }

  lemma XorSwapped(a: bv64, b: bv64)
    ensures Xor(a, b) == Xor(b, a)
  {
  }

  lemma XorCancels(a: bv64, b: bv64, c: bv64)
    ensures Xor(a, b) == Xor(a, c) <==> b == c
    ensures Xor(b, a) == Xor(c, a) <==> b == c
  {
    hide Xor;
    XorTwice(b, a);
    XorTwice(c, a);
    XorSwapped(a, b);
    XorSwapped(a, c);
  }

  lemma Xor32Cancels(a: bv32, b: bv32, c: bv32)
    ensures Xor32(a, b) == Xor32(a, c) <==> b == c
    ensures Xor32(b, a) == Xor32(c, a) <==> b == c
  {
  }

  lemma WidenKeeps(a: bv32)
    ensures LowHalf(Widen(a)) == a
  {
  }

  lemma WidenLosesNothing(a: bv32, b: bv32)
    ensures Widen(a) == Widen(b) <==> a == b
  {
    hide Widen, LowHalf;
    WidenKeeps(a);
    WidenKeeps(b);
  }

  lemma JoinLosesNothing(a: bv32, b: bv32, c: bv32, d: bv32)
    ensures Join(a, b) == Join(c, d) <==> a == c && b == d
  {
    hide Join, LowHalf, HighHalf;
    JoinSplits(a, b);
    JoinSplits(c, d);
  }

  lemma JoinSplits(a: bv32, b: bv32)
    ensures LowHalf(Join(a, b)) == a && HighHalf(Join(a, b)) == b
  {
  }

  lemma MixSeedKeepsLow(s: bv64)
    ensures MixSeed(s) & 0xffffffff == s & 0xffffffff
  {
  }

  lemma MixSeedByte4(s: bv64)
    ensures (MixSeed(s) >> 32) & 0xff == ((s >> 32) & 0xff) ^ ((s >> 24) & 0xff)
  {
  }

  lemma MixSeedByte5(s: bv64)
    ensures (MixSeed(s) >> 40) & 0xff == ((s >> 40) & 0xff) ^ ((s >> 16) & 0xff)
  {
  }

  lemma MixSeedByte6(s: bv64)
    ensures (MixSeed(s) >> 48) & 0xff == ((s >> 48) & 0xff) ^ ((s >> 8) & 0xff)
  {
  }

  lemma MixSeedByte7(s: bv64)
    ensures (MixSeed(s) >> 56) & 0xff == ((s >> 56) & 0xff) ^ ((s >> 0) & 0xff)
  {
  }

  /** A mixed seed: the lower half as it was, and each byte of the upper half with a byte of the
      lower one, the bytes of which are taken in the opposite order. */
  lemma MixSeedByBytes(s: bv64)
    ensures MixSeed(s) & 0xffffffff == s & 0xffffffff
    ensures (MixSeed(s) >> 32) & 0xff == ((s >> 32) & 0xff) ^ ((s >> 24) & 0xff)
    ensures (MixSeed(s) >> 40) & 0xff == ((s >> 40) & 0xff) ^ ((s >> 16) & 0xff)
    ensures (MixSeed(s) >> 48) & 0xff == ((s >> 48) & 0xff) ^ ((s >> 8) & 0xff)
    ensures (MixSeed(s) >> 56) & 0xff == ((s >> 56) & 0xff) ^ ((s >> 0) & 0xff)
  {
    hide MixSeed;
    MixSeedKeepsLow(s);
    MixSeedByte4(s);
    MixSeedByte5(s);
    MixSeedByte6(s);
    MixSeedByte7(s);
  }

  /** The lower half is kept; knowing it, the upper one can be told too. */
  lemma MixSeedLosesNothing(s: bv64, t: bv64)
    ensures MixSeed(s) == MixSeed(t) <==> s == t
  {
    MixSeedKeepsLow(s);
    MixSeedKeepsLow(t);
    if MixSeed(s) == MixSeed(t) {
      var swapped := (Swap32((s & 0xffffffff) as bv32) as bv64) << 32;
      XorCancels(swapped, s, t);
    }
  }

  // ----- Reading words loses nothing

  predicate SameAt(s: Octets, t: Octets, at: nat, n: nat)
    requires at + n <= |s| && at + n <= |t|
  {
    s[at..at + n] == t[at..at + n]
  }

  lemma ReadLE32LosesNothing(x: Octets, y: Octets, at: nat)
    requires at + 4 <= |x| && at + 4 <= |y|
    ensures ReadLE32(x, at) == ReadLE32(y, at) <==> SameAt(x, y, at, 4)
  {
    hide Word32, ByteOf32;
    var a, b := x[at..at + 4], y[at..at + 4];
    BytesOfWord(a[0], a[1], a[2], a[3]);
    BytesOfWord(b[0], b[1], b[2], b[3]);
  }

  lemma SameHalves(x: Octets, y: Octets, at: nat)
    requires at + 8 <= |x| && at + 8 <= |y|
    ensures SameAt(x, y, at, 8) <==> SameAt(x, y, at, 4) && SameAt(x, y, at + 4, 4)
  {
    var a, b := x[at..at + 8], y[at..at + 8];
    assert a[..4] == x[at..at + 4] && a[4..] == x[at + 4..at + 8] && a == a[..4] + a[4..];
    assert b[..4] == y[at..at + 4] && b[4..] == y[at + 4..at + 8] && b == b[..4] + b[4..];
    assert at + 4 + 4 == at + 8;
  }

  lemma ReadLE64LosesNothing(x: Octets, y: Octets, at: nat)
    requires at + 8 <= |x| && at + 8 <= |y|
    ensures ReadLE64(x, at) == ReadLE64(y, at) <==> SameAt(x, y, at, 8)
  {
    hide Join, ReadLE32, SameAt;
    JoinLosesNothing(ReadLE32(x, at), ReadLE32(x, at + 4), ReadLE32(y, at), ReadLE32(y, at + 4));
    ReadLE32LosesNothing(x, y, at);
    ReadLE32LosesNothing(x, y, at + 4);
    SameHalves(x, y, at);
  }

  // ----- The hash and its key

  /** What an input of a length is xored with before mixing. */
  function Key(len: nat, secret: Octets, seed: bv64): (r: bv64)
    requires len <= 8 && |secret| >= SECRET_SIZE_MIN
  {
    if len >= 4 then Bitflip4to8(secret, seed) else if len >= 1 then Bitflip1to3(secret, seed) else Bitflip0(secret, seed)
  }

  /** For a given input, hashes are equal exactly when the keys are. */
  lemma HashTellsKey(x: Octets, secret: Octets, secret': Octets, seed: bv64, seed': bv64)
    requires |x| <= 8 && |secret| >= SECRET_SIZE_MIN && |secret'| >= SECRET_SIZE_MIN
    ensures ShortHash(x, secret, seed) == ShortHash(x, secret', seed') <==> Key(|x|, secret, seed) == Key(|x|, secret', seed')
  {
    hide Rrmxmx, UndoRrmxmx, Xxh64Avalanche, UndoAvalanche, Bitflip0, Bitflip1to3, Bitflip4to8, Combine4to8, Combine1to3, LenWord, Xor, ReadLE32;
    var len, k, k' := |x|, Key(|x|, secret, seed), Key(|x|, secret', seed');
    if len >= 4 {
      var w := Combine4to8(ReadLE32(x, 0), ReadLE32(x, len - 4));
      RrmxmxUndone(Xor(w, k), LenWord(len));
      RrmxmxUndone(Xor(w, k'), LenWord(len));
      XorCancels(w, k, k');
    } else if len >= 1 {
      var w := Combine1to3(x[0], x[len / 2], x[len - 1], LenWord(len));
      AvalancheUndone(Xor(w, k));
      AvalancheUndone(Xor(w, k'));
      XorCancels(w, k, k');
    } else {
      AvalancheUndone(k);
      AvalancheUndone(k');
    }
  }

  /** For a given input and secret, different seeds give different hashes. */
  lemma SeedMatters(x: Octets, secret: Octets, seed: bv64, seed': bv64)
    requires |x| <= 8 && |secret| >= SECRET_SIZE_MIN
    ensures ShortHash(x, secret, seed) == ShortHash(x, secret, seed') <==> seed == seed'
  {
    hide ShortHash, Plus, Minus, MixSeed, Xor, Xor32, Widen, ReadLE32, ReadLE64;
    HashTellsKey(x, secret, secret, seed, seed');
    if |x| >= 4 {
      MinusCancels(Xor(ReadLE64(secret, 8), ReadLE64(secret, 16)), MixSeed(seed), MixSeed(seed'));
      MixSeedLosesNothing(seed, seed');
    } else if |x| >= 1 {
      PlusCancels(Widen(Xor32(ReadLE32(secret, 0), ReadLE32(secret, 4))), seed, seed');
    } else {
      XorCancels(Xor(ReadLE64(secret, 56), ReadLE64(secret, 64)), seed, seed');
    }
  }

  /** Where the two words of the secret that a length is keyed with stand, and their size. */
  function KeyWords(len: nat): (r: (nat, nat, nat))
    requires len <= 8
  {
    if len >= 4 then (8, 16, 8) else if len >= 1 then (0, 4, 4) else (56, 64, 8)
  }

  /** For a given input and seed, no other byte of the secret matters, and a change of one of the
      two words alone always does. */
  lemma SecretMatters(x: Octets, secret: Octets, secret': Octets, seed: bv64)
    requires |x| <= 8 && |secret| >= SECRET_SIZE_MIN && |secret'| >= SECRET_SIZE_MIN
    ensures var (a, b, n) := KeyWords(|x|);
            var same, same' := SameAt(secret, secret', a, n), SameAt(secret, secret', b, n);
            && (same && same' ==> ShortHash(x, secret, seed) == ShortHash(x, secret', seed))
            && (same != same' ==> ShortHash(x, secret, seed) != ShortHash(x, secret', seed))
  {
    hide ShortHash, Plus, Minus, MixSeed, Xor, Xor32, Widen, ReadLE32, ReadLE64;
    HashTellsKey(x, secret, secret', seed, seed);
    if |x| >= 4 {
      Words64Matter(secret, secret', 8, 16);
      MinusCancels(MixSeed(seed), Xor(ReadLE64(secret, 8), ReadLE64(secret, 16)), Xor(ReadLE64(secret', 8), ReadLE64(secret', 16)));
    } else if |x| >= 1 {
      Words32Matter(secret, secret', 0, 4);
      var w, w' := Xor32(ReadLE32(secret, 0), ReadLE32(secret, 4)), Xor32(ReadLE32(secret', 0), ReadLE32(secret', 4));
      PlusCancels(seed, Widen(w), Widen(w'));
      WidenLosesNothing(w, w');
    } else {
      Words64Matter(secret, secret', 56, 64);
      XorCancels(seed, Xor(ReadLE64(secret, 56), ReadLE64(secret, 64)), Xor(ReadLE64(secret', 56), ReadLE64(secret', 64)));
    }
  }

  lemma Words64Matter(s: Octets, t: Octets, a: nat, b: nat)
    requires a + 8 <= |s| && a + 8 <= |t| && b + 8 <= |s| && b + 8 <= |t|
    ensures var w, w' := Xor(ReadLE64(s, a), ReadLE64(s, b)), Xor(ReadLE64(t, a), ReadLE64(t, b));
            && (SameAt(s, t, a, 8) && SameAt(s, t, b, 8) ==> w == w')
            && (SameAt(s, t, a, 8) != SameAt(s, t, b, 8) ==> w != w')
  {
    hide Xor, ReadLE64;
    ReadLE64LosesNothing(s, t, a);
    ReadLE64LosesNothing(s, t, b);
    XorCancels(ReadLE64(s, a), ReadLE64(s, b), ReadLE64(t, b));
    XorCancels(ReadLE64(s, b), ReadLE64(s, a), ReadLE64(t, a));
  }

  lemma Words32Matter(s: Octets, t: Octets, a: nat, b: nat)
    requires a + 4 <= |s| && a + 4 <= |t| && b + 4 <= |s| && b + 4 <= |t|
    ensures var w, w' := Xor32(ReadLE32(s, a), ReadLE32(s, b)), Xor32(ReadLE32(t, a), ReadLE32(t, b));
            && (SameAt(s, t, a, 4) && SameAt(s, t, b, 4) ==> w == w')
            && (SameAt(s, t, a, 4) != SameAt(s, t, b, 4) ==> w != w')
  {
    hide Xor32, ReadLE32;
    ReadLE32LosesNothing(s, t, a);
    ReadLE32LosesNothing(s, t, b);
    Xor32Cancels(ReadLE32(s, a), ReadLE32(s, b), ReadLE32(t, b));
    Xor32Cancels(ReadLE32(s, b), ReadLE32(s, a), ReadLE32(t, a));
  }

  // ----- Worked values

  /** The secret has the six words of the default one that short inputs are keyed with. */
  ghost predicate HasDefaultWords(secret: Octets) {
    && |secret| >= SECRET_SIZE_MIN
    && ReadLE32(secret, 0) == 0x396cfeb8 && ReadLE32(secret, 4) == 0xbe4ba423
    && ReadLE64(secret, 8) == 0x1cad21f72c81017c && ReadLE64(secret, 16) == 0xdb979083e96dd4de
    && ReadLE64(secret, 56) == 0x4c263a81e69035e0 && ReadLE64(secret, 64) == 0xcb00c391bb52283c
  }

  lemma DefaultKeys(secret: Octets)
    requires HasDefaultWords(secret)
    ensures Bitflip0(secret, 0) == 0x8726f9105dc21ddc && Bitflip1to3(secret, 0) == 0x87275a9b && Bitflip4to8(secret, 0) == 0xc73ab174c5ecd5a2
  {
    hide ReadLE32, ReadLE64;
  }

  lemma AvalancheValues()
    ensures Xxh64Avalanche(0x8726f9105dc21ddc) == 0x2d06800538d394c2
    ensures Xxh64Avalanche(0xe6465bfa) == 0xe6c632b61e964e1f
    ensures Xxh64Avalanche(0xe54659f8) == 0x78af5f94892f3950
  {
  }

  lemma MixedKey(k: bv64)
    ensures k == 0x8726f9105dc21ddc ==> Xxh64Avalanche(k) == 0x2d06800538d394c2
    ensures k == 0xe6465bfa ==> Xxh64Avalanche(k) == 0xe6c632b61e964e1f
    ensures k == 0xe54659f8 ==> Xxh64Avalanche(k) == 0x78af5f94892f3950
  {
    hide Xxh64Avalanche;
    AvalancheValues();
  }

  lemma MixedLongKey(k: bv64, len: bv64)
    ensures k == 0xa359d315a18fb7c3 && len == 4 ==> Rrmxmx(k, len) == 0x6497a96f53a89890
    ensures k == 0xa359d315ad8bb3c7 && len == 8 ==> Rrmxmx(k, len) == 0x6f45a76842a96483
  {
  }

  /** "a" and "abc", keyed. */
  lemma KeyedLetters(c1: bv8, c2: bv8, c3: bv8, len: bv64, flip: bv64)
    requires flip == 0x87275a9b && c1 == 0x61
    ensures c2 == 0x61 && c3 == 0x61 && len == 1 ==> Xor(Combine1to3(c1, c2, c3, len), flip) == 0xe6465bfa
    ensures c2 == 0x62 && c3 == 0x63 && len == 3 ==> Xor(Combine1to3(c1, c2, c3, len), flip) == 0xe54659f8
  {
  }

  /** "abcd" and "abcdefgh", keyed. */
  lemma KeyedWords(a: bv32, b: bv32, flip: bv64)
    requires flip == 0xc73ab174c5ecd5a2 && a == 0x64636261
    ensures b == 0x64636261 ==> Xor(Combine4to8(a, b), flip) == 0xa359d315a18fb7c3
    ensures b == 0x68676665 ==> Xor(Combine4to8(a, b), flip) == 0xa359d315ad8bb3c7
  {
  }

  lemma WordsOfLetters(a: bv8, b: bv8, c: bv8, d: bv8)
    ensures a == 0x61 && b == 0x62 && c == 0x63 && d == 0x64 ==> Word32(a, b, c, d) == 0x64636261
    ensures a == 0x65 && b == 0x66 && c == 0x67 && d == 0x68 ==> Word32(a, b, c, d) == 0x68676665
  {
  }

  /** The hashes of "", "a" and "abc" with the default secret and seed 0. */
  lemma WorkedHashesUpTo3(x: Octets, secret: Octets)
    requires HasDefaultWords(secret) && |x| <= 3
    ensures |x| == 0 ==> ShortHash(x, secret, 0) == 0x2d06800538d394c2
    ensures |x| == 1 && x[0] == 0x61 ==> ShortHash(x, secret, 0) == 0xe6c632b61e964e1f
    ensures |x| == 3 && x[0] == 0x61 && x[1] == 0x62 && x[2] == 0x63 ==> ShortHash(x, secret, 0) == 0x78af5f94892f3950
  {
    hide ShortHash, HasDefaultWords;
    if |x| == 0 {
      HashOfNothing(x, secret);
    } else if |x| == 1 && x[0] == 0x61 {
      HashOfA(x, secret);
    } else if |x| == 3 && x[0] == 0x61 && x[1] == 0x62 && x[2] == 0x63 {
      HashOfAbc(x, secret);
    }
  }

  lemma HashOfNothing(x: Octets, secret: Octets)
    requires HasDefaultWords(secret) && |x| == 0
    ensures ShortHash(x, secret, 0) == 0x2d06800538d394c2
  {
    DefaultKeys(secret);
    hide HasDefaultWords, Bitflip0, Xxh64Avalanche;
    MixedKey(Bitflip0(secret, 0));
  }

  lemma HashOfA(x: Octets, secret: Octets)
    requires HasDefaultWords(secret) && |x| == 1 && x[0] == 0x61
    ensures ShortHash(x, secret, 0) == 0xe6c632b61e964e1f
  {
    DefaultKeys(secret);
    hide HasDefaultWords, Bitflip1to3, Xxh64Avalanche, Combine1to3, Xor;
    var n, c, flip := |x|, x[0], Bitflip1to3(secret, 0);
    KeyedLetters(c, c, c, LenWord(n), flip);
    assert x[n / 2] == c && x[n - 1] == c;
    MixedKey(Xor(Combine1to3(c, c, c, LenWord(n)), flip));
  }

  lemma HashOfAbc(x: Octets, secret: Octets)
    requires HasDefaultWords(secret) && |x| == 3 && x[0] == 0x61 && x[1] == 0x62 && x[2] == 0x63
    ensures ShortHash(x, secret, 0) == 0x78af5f94892f3950
  {
    DefaultKeys(secret);
    hide HasDefaultWords, Bitflip1to3, Xxh64Avalanche, Combine1to3, Xor;
    var flip := Bitflip1to3(secret, 0);
    KeyedLetters(x[0], x[1], x[2], LenWord(3), flip);
    MixedKey(Xor(Combine1to3(x[0], x[1], x[2], LenWord(3)), flip));
  }

  /** The hashes of "abcd" and "abcdefgh" with the default secret and seed 0. */
  lemma WorkedHashesUpTo8(x: Octets, secret: Octets)
    requires HasDefaultWords(secret) && 4 <= |x| <= 8 && x[..4] == [0x61, 0x62, 0x63, 0x64]
    ensures |x| == 4 ==> ShortHash(x, secret, 0) == 0x6497a96f53a89890
    ensures |x| == 8 && x[4..] == [0x65, 0x66, 0x67, 0x68] ==> ShortHash(x, secret, 0) == 0x6f45a76842a96483
  {
    DefaultKeys(secret);
    hide HasDefaultWords, Bitflip0, Bitflip1to3, Bitflip4to8, Xxh64Avalanche, Rrmxmx, Combine1to3, Combine4to8, Xor, Word32;
    var n, flip, head := |x|, Bitflip4to8(secret, 0), x[..4];
    assert x[0] == head[0] && x[1] == head[1] && x[2] == head[2] && x[3] == head[3];
    WordsOfLetters(x[0], x[1], x[2], x[3]);
    if n == 8 && x[4..] == [0x65, 0x66, 0x67, 0x68] {
      var tail := x[4..];
      assert x[4] == tail[0] && x[5] == tail[1] && x[6] == tail[2] && x[7] == tail[3];
      WordsOfLetters(x[4], x[5], x[6], x[7]);
    }
    var a, b := ReadLE32(x, 0), ReadLE32(x, n - 4);
    KeyedWords(a, b, flip);
    MixedLongKey(Xor(Combine4to8(a, b), flip), LenWord(n));
  }
}
