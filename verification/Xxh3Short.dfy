/** The 64-bit XXH3 hash of inputs of up to eight bytes, with the bit arithmetic of the
    header, and its inverse: the input can be recovered from hash, length, secret and seed. */
module Xxh3Short {
  type Octets = seq<bv8>

  const SECRET_SIZE_MIN := 136
  // ----- Reading words

  function Word32(a: bv8, b: bv8, c: bv8, d: bv8): (r: bv32) {
    (a as bv32) | ((b as bv32) << 8) | ((c as bv32) << 16) | ((d as bv32) << 24)
  }

  function ReadLE32(x: Octets, at: nat): (r: bv32)
    requires at + 4 <= |x|
  {
    Word32(x[at], x[at + 1], x[at + 2], x[at + 3])
  }

  function Join(low: bv32, high: bv32): (r: bv64) {
    (low as bv64) | ((high as bv64) << 32)
  }

  function ReadLE64(x: Octets, at: nat): (r: bv64)
    requires at + 8 <= |x|
  {
    Join(ReadLE32(x, at), ReadLE32(x, at + 4))
  }

  function Swap32(x: bv32): (r: bv32) {
    ((x << 24) & 0xff000000) | ((x << 8) & 0x00ff0000) | ((x >> 8) & 0x0000ff00) | ((x >> 24) & 0x000000ff)
  }

  function ByteOf32(x: bv32, i: nat): (r: bv8)
    requires i < 4
  {
    if i == 0 then (x & 0xff) as bv8
    else if i == 1 then ((x >> 8) & 0xff) as bv8
    else if i == 2 then ((x >> 16) & 0xff) as bv8
    else ((x >> 24) & 0xff) as bv8
  }

  /** The length of a short input, as the word it is converted to. */
  function LenWord(len: nat): (r: bv64)
    requires len <= 8
    ensures r <= 8
  {
    if len == 0 then 0 else if len == 1 then 1 else if len == 2 then 2 else if len == 3 then 3 else if len == 4 then 4
    else if len == 5 then 5 else if len == 6 then 6 else if len == 7 then 7 else 8
  }

  // ----- Mixing steps

  function Xor(a: bv64, b: bv64): (r: bv64) {
    a ^ b
  }

  function XorShift(x: bv64, s: nat): (r: bv64)
    requires s < 64
  {
    x ^ (x >> s)
  }

  function TimesPrime2(x: bv64): (r: bv64) { x * 0xC2B2AE3D27D4EB4F }

  function TimesPrime3(x: bv64): (r: bv64) { x * 0x165667B19E3779F9 }

  function TimesMx2(x: bv64): (r: bv64) { x * 0x9FB21C651E98DF25 }

  function Rotl(x: bv64, s: nat): (r: bv64)
    requires s < 64
  {
    x.RotateLeft(s)
  }

  function Xor3(a: bv64, b: bv64, c: bv64): (r: bv64) {
    a ^ b ^ c
  }

  function XorRotate(x: bv64, s: nat, t: nat): (r: bv64)
    requires s < 64 && t < 64
  {
    Xor3(x, Rotl(x, s), Rotl(x, t))
  }

  function Top(a: bv64): (r: bv64) { a >> 35 }

  function Plus(a: bv64, b: bv64): (r: bv64) { a + b }

  function TopPlusLength(a: bv64, len: bv64): (r: bv64) {
    Plus(Top(a), len)
  }

  function AddLength(a: bv64, len: bv64): (r: bv64) {
    Xor(a, TopPlusLength(a, len))
  }

  function Xxh64Avalanche(h: bv64): (r: bv64) {
    XorShift(TimesPrime3(XorShift(TimesPrime2(XorShift(h, 33)), 29)), 32)
  }

  function Rrmxmx(h: bv64, len: bv64): (r: bv64) {
    XorShift(TimesMx2(AddLength(TimesMx2(XorRotate(h, 49, 24)), len)), 28)
  }

  // ----- Keys

  function Xor32(a: bv32, b: bv32): (r: bv32) { a ^ b }

  function Widen(a: bv32): (r: bv64) { a as bv64 }

  function Minus(a: bv64, b: bv64): (r: bv64) { a - b }

  /** The seed with its lower half, turned round, mixed into the upper one. */
  function MixSeed(seed: bv64): (r: bv64) {
    seed ^ ((Swap32((seed & 0xffffffff) as bv32) as bv64) << 32)
  }

  // ----- The hash

  function Combine1to3(c1: bv8, c2: bv8, c3: bv8, len: bv64): (r: bv64) {
    ((c1 as bv64) << 16) | ((c2 as bv64) << 24) | (c3 as bv64) | (len << 8)
  }

  function Bitflip1to3(secret: Octets, seed: bv64): (r: bv64)
    requires |secret| >= SECRET_SIZE_MIN
  {
    Plus(Widen(Xor32(ReadLE32(secret, 0), ReadLE32(secret, 4))), seed)
  }

  function Bitflip4to8(secret: Octets, seed: bv64): (r: bv64)
    requires |secret| >= SECRET_SIZE_MIN
  {
    Minus(Xor(ReadLE64(secret, 8), ReadLE64(secret, 16)), MixSeed(seed))
  }

  function Bitflip0(secret: Octets, seed: bv64): (r: bv64)
    requires |secret| >= SECRET_SIZE_MIN
  {
    Xor(seed, Xor(ReadLE64(secret, 56), ReadLE64(secret, 64)))
  }

  function Combine4to8(input1: bv32, input2: bv32): (r: bv64) {
    (input2 as bv64) + ((input1 as bv64) << 32)
  }

  function ShortHash(input: Octets, secret: Octets, seed: bv64): (h: bv64)
    requires |input| <= 8 && |secret| >= SECRET_SIZE_MIN
  {
    var len := |input|;
    if len >= 4 then
      Rrmxmx(Xor(Combine4to8(ReadLE32(input, 0), ReadLE32(input, len - 4)), Bitflip4to8(secret, seed)), LenWord(len))
    else if len >= 1 then
      Xxh64Avalanche(Xor(Combine1to3(input[0], input[len / 2], input[len - 1], LenWord(len)), Bitflip1to3(secret, seed)))
    else
      Xxh64Avalanche(Bitflip0(secret, seed))
  }

  // ----- Its inverse

  /** The factors are the inverses of the primes modulo 2^64. */
  function UndoPrime2(x: bv64): (r: bv64) { x * 0x0BA79078168D4BAF }

  function UndoPrime3(x: bv64): (r: bv64) { x * 0xE9E9F4C41D6DF849 }

  function UndoMx2(x: bv64): (r: bv64) { x * 0x02AB9C720D1024AD }

  function UndoAvalanche(h: bv64): (r: bv64) {
    var b := UndoPrime3(XorShift(h, 32));
    var a := UndoPrime2(XorShift(XorShift(b, 29), 58));
    XorShift(a, 33)
  }

  /** Xoring a word with two rotations of it, done twice, doubles the rotation amounts; done
      eight times it is a rotation by eight. Seven more times and a rotation undo it. */
  function UndoXorRotate(x: bv64): (r: bv64) {
    Rotl(XorRotate(XorRotate(XorRotate(x, 49, 24), 34, 48), 4, 32), 56)
  }

  function UndoRrmxmx(h: bv64, len: bv64): (r: bv64) {
    var b := UndoMx2(XorShift(XorShift(h, 28), 56));
    UndoXorRotate(UndoMx2(AddLength(b, len)))
  }

  function HighHalf(w: bv64): (r: bv32) { (w >> 32) as bv32 }

  function LowHalf(w: bv64): (r: bv32) { (w & 0xffffffff) as bv32 }

  function FirstByte(w: bv64): (r: bv8) { ((w >> 16) & 0xff) as bv8 }

  function MiddleByte(w: bv64): (r: bv8) { ((w >> 24) & 0xff) as bv8 }

  function LastByte(w: bv64): (r: bv8) { (w & 0xff) as bv8 }

  /** Recovers an input of known length from its hash. */
  function Recover(h: bv64, len: nat, secret: Octets, seed: bv64): (input: Octets)
    requires len <= 8 && |secret| >= SECRET_SIZE_MIN
  {
    if len >= 4 then
      var w := Xor(UndoRrmxmx(h, LenWord(len)), Bitflip4to8(secret, seed));
      seq(len, i requires 0 <= i < len =>
        if i < 4 then ByteOf32(HighHalf(w), i) else ByteOf32(LowHalf(w), i - (len - 4)))
    else
      var w := Xor(UndoAvalanche(h), Bitflip1to3(secret, seed));
      if len == 3 then [FirstByte(w), MiddleByte(w), LastByte(w)]
      else if len == 2 then [FirstByte(w), LastByte(w)]
      else if len == 1 then [FirstByte(w)]
      else []
  }

  // ----- Each step is undone
  //
  // The identities on words are stated for a step applied to its argument written out.

  lemma XorShift33(x: bv64)
    ensures XorShift(x, 33) == x ^ (x >> 33)
    ensures XorShift(x ^ (x >> 33), 33) == x
  {
  }

  lemma XorShift32(x: bv64)
    ensures XorShift(x, 32) == x ^ (x >> 32)
    ensures XorShift(x ^ (x >> 32), 32) == x
  {
  }

  lemma XorShift29(x: bv64)
    ensures XorShift(x, 29) == x ^ (x >> 29)
    ensures XorShift(x ^ (x >> 29), 29) == x ^ (x >> 58)
    ensures XorShift(x ^ (x >> 58), 58) == x
  {
  }

  lemma XorShift28(x: bv64)
    ensures XorShift(x, 28) == x ^ (x >> 28)
    ensures XorShift(x ^ (x >> 28), 28) == x ^ (x >> 56)
    ensures XorShift(x ^ (x >> 56), 56) == x
  {
  }

  lemma Prime2Written(x: bv64)
    ensures TimesPrime2(x) == x * 0xC2B2AE3D27D4EB4F
    ensures UndoPrime2(x * 0xC2B2AE3D27D4EB4F) == x
  {
  }

  lemma Prime2Undone(x: bv64)
    ensures UndoPrime2(TimesPrime2(x)) == x
  {
    hide TimesPrime2, UndoPrime2;
    Prime2Written(x);
  }

  lemma Prime3Written(x: bv64)
    ensures TimesPrime3(x) == x * 0x165667B19E3779F9
    ensures UndoPrime3(x * 0x165667B19E3779F9) == x
  {
  }

  lemma Prime3Undone(x: bv64)
    ensures UndoPrime3(TimesPrime3(x)) == x
  {
    hide TimesPrime3, UndoPrime3;
    Prime3Written(x);
  }

  lemma Mx2Written(x: bv64)
    ensures TimesMx2(x) == x * 0x9FB21C651E98DF25
    ensures UndoMx2(x * 0x9FB21C651E98DF25) == x
  {
  }

  lemma Mx2Undone(x: bv64)
    ensures UndoMx2(TimesMx2(x)) == x
  {
    hide TimesMx2, UndoMx2;
    Mx2Written(x);
  }

  lemma AvalancheUndone(h: bv64)
    ensures UndoAvalanche(Xxh64Avalanche(h)) == h
  {
    hide XorShift, TimesPrime2, TimesPrime3, UndoPrime2, UndoPrime3;
    XorShift33(h);
    Prime2Undone(XorShift(h, 33));
    var a := TimesPrime2(XorShift(h, 33));
    XorShift29(a);
    Prime3Undone(XorShift(a, 29));
    XorShift32(TimesPrime3(XorShift(a, 29)));
  }

  // Rotations distribute over xor and compose; the mixed terms of a square cancel.

  lemma Cancel(x: bv64, a: bv64, b: bv64, c: bv64, d: bv64, e: bv64)
    ensures Xor3(Xor3(x, a, b), Xor3(a, c, d), Xor3(b, d, e)) == Xor3(x, c, e)
  {
    hide Xor3;
    Xor3Written(x, a, b);
    Xor3Written(a, c, d);
    Xor3Written(b, d, e);
    Xor3Written(x, c, e);
    CancelWritten(x, a, b, c, d, e);
  }

  lemma Xor3Written(a: bv64, b: bv64, c: bv64)
    ensures Xor3(a, b, c) == a ^ b ^ c
  {
  }

  lemma CancelWritten(x: bv64, a: bv64, b: bv64, c: bv64, d: bv64, e: bv64)
    ensures Xor3(x ^ a ^ b, a ^ c ^ d, b ^ d ^ e) == x ^ c ^ e
  {
  }

  lemma Rotl49(a: bv64, b: bv64, c: bv64)
    ensures Rotl(a, 49) == a.RotateLeft(49)
    ensures Rotl(a ^ b ^ c, 49) == Xor3(a.RotateLeft(49), b.RotateLeft(49), c.RotateLeft(49))
  {
  }

  lemma Rotl49OfXor(a: bv64, b: bv64, c: bv64)
    ensures Rotl(Xor3(a, b, c), 49) == Xor3(Rotl(a, 49), Rotl(b, 49), Rotl(c, 49))
  {
    hide Rotl, Xor3;
    Xor3Written(a, b, c);
    Rotl49(a, b, c);
    Rotl49(b, a, c);
    Rotl49(c, a, b);
  }

  lemma Rotl24(a: bv64, b: bv64, c: bv64)
    ensures Rotl(a, 24) == a.RotateLeft(24)
    ensures Rotl(a ^ b ^ c, 24) == Xor3(a.RotateLeft(24), b.RotateLeft(24), c.RotateLeft(24))
  {
  }

  lemma Rotl24OfXor(a: bv64, b: bv64, c: bv64)
    ensures Rotl(Xor3(a, b, c), 24) == Xor3(Rotl(a, 24), Rotl(b, 24), Rotl(c, 24))
  {
    hide Rotl, Xor3;
    Xor3Written(a, b, c);
    Rotl24(a, b, c);
    Rotl24(b, a, c);
    Rotl24(c, a, b);
  }

  lemma Rotl34(a: bv64, b: bv64, c: bv64)
    ensures Rotl(a, 34) == a.RotateLeft(34)
    ensures Rotl(a ^ b ^ c, 34) == Xor3(a.RotateLeft(34), b.RotateLeft(34), c.RotateLeft(34))
  {
  }

  lemma Rotl34OfXor(a: bv64, b: bv64, c: bv64)
    ensures Rotl(Xor3(a, b, c), 34) == Xor3(Rotl(a, 34), Rotl(b, 34), Rotl(c, 34))
  {
    hide Rotl, Xor3;
    Xor3Written(a, b, c);
    Rotl34(a, b, c);
    Rotl34(b, a, c);
    Rotl34(c, a, b);
  }

  lemma Rotl48(a: bv64, b: bv64, c: bv64)
    ensures Rotl(a, 48) == a.RotateLeft(48)
    ensures Rotl(a ^ b ^ c, 48) == Xor3(a.RotateLeft(48), b.RotateLeft(48), c.RotateLeft(48))
  {
  }

  lemma Rotl48OfXor(a: bv64, b: bv64, c: bv64)
    ensures Rotl(Xor3(a, b, c), 48) == Xor3(Rotl(a, 48), Rotl(b, 48), Rotl(c, 48))
  {
    hide Rotl, Xor3;
    Xor3Written(a, b, c);
    Rotl48(a, b, c);
    Rotl48(b, a, c);
    Rotl48(c, a, b);
  }

  lemma Rotl4(a: bv64, b: bv64, c: bv64)
    ensures Rotl(a, 4) == a.RotateLeft(4)
    ensures Rotl(a ^ b ^ c, 4) == Xor3(a.RotateLeft(4), b.RotateLeft(4), c.RotateLeft(4))
  {
  }

  lemma Rotl4OfXor(a: bv64, b: bv64, c: bv64)
    ensures Rotl(Xor3(a, b, c), 4) == Xor3(Rotl(a, 4), Rotl(b, 4), Rotl(c, 4))
  {
    hide Rotl, Xor3;
    Xor3Written(a, b, c);
    Rotl4(a, b, c);
    Rotl4(b, a, c);
    Rotl4(c, a, b);
  }

  lemma Rotl32(a: bv64, b: bv64, c: bv64)
    ensures Rotl(a, 32) == a.RotateLeft(32)
    ensures Rotl(a ^ b ^ c, 32) == Xor3(a.RotateLeft(32), b.RotateLeft(32), c.RotateLeft(32))
  {
  }

  lemma Rotl32OfXor(a: bv64, b: bv64, c: bv64)
    ensures Rotl(Xor3(a, b, c), 32) == Xor3(Rotl(a, 32), Rotl(b, 32), Rotl(c, 32))
  {
    hide Rotl, Xor3;
    Xor3Written(a, b, c);
    Rotl32(a, b, c);
    Rotl32(b, a, c);
    Rotl32(c, a, b);
  }

  lemma RotationsAdd49(x: bv64)
    ensures Rotl(x, 49) == x.RotateLeft(49) && Rotl(x, 24) == x.RotateLeft(24)
    ensures Rotl(x.RotateLeft(49), 49) == x.RotateLeft(34) && Rotl(x.RotateLeft(24), 24) == x.RotateLeft(48)
    ensures Rotl(x.RotateLeft(49), 24) == Rotl(x.RotateLeft(24), 49)
    ensures Rotl(x, 34) == x.RotateLeft(34) && Rotl(x, 48) == x.RotateLeft(48)
  {
  }

  lemma XorRotateSquare49(x: bv64)
    ensures XorRotate(XorRotate(x, 49, 24), 49, 24) == XorRotate(x, 34, 48)
  {
    hide Rotl, Xor3;
    var a, b := Rotl(x, 49), Rotl(x, 24);
    RotationsAdd49(x);
    Rotl49OfXor(x, a, b);
    Rotl24OfXor(x, a, b);
    Cancel(x, a, b, Rotl(a, 49), Rotl(b, 49), Rotl(b, 24));
  }

  lemma RotationsAdd34(x: bv64)
    ensures Rotl(x, 34) == x.RotateLeft(34) && Rotl(x, 48) == x.RotateLeft(48)
    ensures Rotl(x.RotateLeft(34), 34) == x.RotateLeft(4) && Rotl(x.RotateLeft(48), 48) == x.RotateLeft(32)
    ensures Rotl(x.RotateLeft(34), 48) == Rotl(x.RotateLeft(48), 34)
    ensures Rotl(x, 4) == x.RotateLeft(4) && Rotl(x, 32) == x.RotateLeft(32)
  {
  }

  lemma XorRotateSquare34(x: bv64)
    ensures XorRotate(XorRotate(x, 34, 48), 34, 48) == XorRotate(x, 4, 32)
  {
    hide Rotl, Xor3;
    var a, b := Rotl(x, 34), Rotl(x, 48);
    RotationsAdd34(x);
    Rotl34OfXor(x, a, b);
    Rotl48OfXor(x, a, b);
    Cancel(x, a, b, Rotl(a, 34), Rotl(b, 34), Rotl(b, 48));
  }

  lemma RotationsAdd4(x: bv64)
    ensures Rotl(x, 4) == x.RotateLeft(4) && Rotl(x, 32) == x.RotateLeft(32)
    ensures Rotl(x.RotateLeft(4), 4) == x.RotateLeft(8) && Rotl(x.RotateLeft(32), 32) == x.RotateLeft(0)
    ensures Rotl(x.RotateLeft(4), 32) == Rotl(x.RotateLeft(32), 4)
    ensures Rotl(x, 8) == x.RotateLeft(8) && Rotl(x, 0) == x.RotateLeft(0)
  {
  }

  lemma XorRotateSquare4(x: bv64)
    ensures XorRotate(XorRotate(x, 4, 32), 4, 32) == XorRotate(x, 8, 0)
  {
    hide Rotl, Xor3;
    var a, b := Rotl(x, 4), Rotl(x, 32);
    RotationsAdd4(x);
    Rotl4OfXor(x, a, b);
    Rotl32OfXor(x, a, b);
    Cancel(x, a, b, Rotl(a, 4), Rotl(b, 4), Rotl(b, 32));
  }

  lemma RotateBack(x: bv64)
    ensures Rotl(x, 0) == x
    ensures Rotl(x, 8) == x.RotateLeft(8)
    ensures Rotl(x.RotateLeft(8), 56) == x
    ensures Xor3(x, x.RotateLeft(8), x) == x.RotateLeft(8)
  {
  }

  lemma XorRotateUndone(x: bv64)
    ensures UndoXorRotate(XorRotate(x, 49, 24)) == x
  {
    XorRotateSquare49(x);
    XorRotateSquare34(x);
    XorRotateSquare4(x);
    RotateBack(x);
    hide Rotl, Xor3;
  }

  lemma TopIsSmall(a: bv64, len: bv64)
    requires len <= 8
    ensures TopPlusLength(a, len) <= 0x20000007
  {
    assert a >> 35 <= 0x1fffffff;
  }

  /** A word below 2^35 does not reach the bits that are shifted down. */
  lemma TopWritten(a: bv64, small: bv64)
    requires small <= 0x20000007
    ensures Top(a ^ small) == Top(a)
  {
    assert small >> 35 == 0;
  }

  lemma TopUnchanged(a: bv64, small: bv64)
    requires small <= 0x20000007
    ensures Top(Xor(a, small)) == Top(a)
  {
    hide Top, Xor;
    TopWritten(a, small);
    XorWritten(a, small);
  }

  lemma TopPlusLengthUnchanged(a: bv64, small: bv64, len: bv64)
    requires small <= 0x20000007
    ensures TopPlusLength(Xor(a, small), len) == TopPlusLength(a, len)
  {
    hide Top, Xor, Plus;
    TopUnchanged(a, small);
  }

  lemma AddLengthUndone(a: bv64, len: bv64)
    requires len <= 8
    ensures AddLength(AddLength(a, len), len) == a
  {
    hide Xor, TopPlusLength;
    var small := TopPlusLength(a, len);
    TopIsSmall(a, len);
    TopPlusLengthUnchanged(a, small, len);
    XorTwice(a, small);
  }

  lemma RrmxmxUndone(h: bv64, len: bv64)
    requires len <= 8
    ensures UndoRrmxmx(Rrmxmx(h, len), len) == h
  {
    hide XorShift, TimesMx2, UndoMx2, XorRotate, UndoXorRotate, AddLength;
    XorRotateUndone(h);
    Mx2Undone(XorRotate(h, 49, 24));
    var a := TimesMx2(XorRotate(h, 49, 24));
    AddLengthUndone(a, len);
    Mx2Undone(AddLength(a, len));
    XorShift28(TimesMx2(AddLength(a, len)));
  }

  // ----- Words hold the bytes they are read from

  lemma Word32Byte0(a: bv8, b: bv8, c: bv8, d: bv8)
    ensures ByteOf32((a as bv32) | ((b as bv32) << 8) | ((c as bv32) << 16) | ((d as bv32) << 24), 0) == a
  {
  }

  lemma Word32Byte1(a: bv8, b: bv8, c: bv8, d: bv8)
    ensures ByteOf32((a as bv32) | ((b as bv32) << 8) | ((c as bv32) << 16) | ((d as bv32) << 24), 1) == b
  {
  }

  lemma Word32Byte2(a: bv8, b: bv8, c: bv8, d: bv8)
    ensures ByteOf32((a as bv32) | ((b as bv32) << 8) | ((c as bv32) << 16) | ((d as bv32) << 24), 2) == c
  {
  }

  lemma Word32Byte3(a: bv8, b: bv8, c: bv8, d: bv8)
    ensures ByteOf32((a as bv32) | ((b as bv32) << 8) | ((c as bv32) << 16) | ((d as bv32) << 24), 3) == d
  {
  }

  lemma Word32Written(a: bv8, b: bv8, c: bv8, d: bv8)
    ensures Word32(a, b, c, d) == (a as bv32) | ((b as bv32) << 8) | ((c as bv32) << 16) | ((d as bv32) << 24)
  {
  }

  lemma BytesOfWord(a: bv8, b: bv8, c: bv8, d: bv8)
    ensures ByteOf32(Word32(a, b, c, d), 0) == a && ByteOf32(Word32(a, b, c, d), 1) == b
    ensures ByteOf32(Word32(a, b, c, d), 2) == c && ByteOf32(Word32(a, b, c, d), 3) == d
  {
    hide Word32, ByteOf32;
    Word32Written(a, b, c, d);
    Word32Byte0(a, b, c, d);
    Word32Byte1(a, b, c, d);
    Word32Byte2(a, b, c, d);
    Word32Byte3(a, b, c, d);
  }

  lemma Combine4to8Written(input1: bv32, input2: bv32)
    ensures Combine4to8(input1, input2) == (input2 as bv64) + ((input1 as bv64) << 32)
    ensures HighHalf((input2 as bv64) + ((input1 as bv64) << 32)) == input1
    ensures LowHalf((input2 as bv64) + ((input1 as bv64) << 32)) == input2
  {
  }

  lemma Uncombine4to8(input1: bv32, input2: bv32)
    ensures HighHalf(Combine4to8(input1, input2)) == input1
    ensures LowHalf(Combine4to8(input1, input2)) == input2
  {
    hide Combine4to8, HighHalf, LowHalf;
    Combine4to8Written(input1, input2);
  }

  lemma Uncombine1to3(c1: bv8, c2: bv8, c3: bv8, len: bv64)
    requires len <= 8
    ensures var w := Combine1to3(c1, c2, c3, len);
            FirstByte(w) == c1 && MiddleByte(w) == c2 && LastByte(w) == c3
  {
  }

  lemma XorWritten(a: bv64, b: bv64)
    ensures Xor(a, b) == a ^ b
    ensures Xor(a ^ b, b) == a
  {
  }

  lemma XorTwice(a: bv64, b: bv64)
    ensures Xor(Xor(a, b), b) == a
  {
    hide Xor;
    XorWritten(a, b);
  }

  // ----- The hash can be undone

  lemma Recover4to8(input: Octets, secret: Octets, seed: bv64)
    requires 4 <= |input| <= 8 && |secret| >= SECRET_SIZE_MIN
    ensures Recover(ShortHash(input, secret, seed), |input|, secret, seed) == input
  {
    hide Rrmxmx, UndoRrmxmx, Bitflip4to8, Combine4to8, ByteOf32, Word32, LenWord, Xor, HighHalf, LowHalf;
    var len := |input|;
    var i1, i2 := ReadLE32(input, 0), ReadLE32(input, len - 4);
    var w, flip := Combine4to8(i1, i2), Bitflip4to8(secret, seed);
    RrmxmxUndone(Xor(w, flip), LenWord(len));
    XorTwice(w, flip);
    Uncombine4to8(i1, i2);
    BytesOfWord(input[0], input[1], input[2], input[3]);
    BytesOfWord(input[len - 4], input[len - 3], input[len - 2], input[len - 1]);
  }

  lemma Recover1to3(input: Octets, secret: Octets, seed: bv64)
    requires 1 <= |input| <= 3 && |secret| >= SECRET_SIZE_MIN
    ensures Recover(ShortHash(input, secret, seed), |input|, secret, seed) == input
  {
    hide Xxh64Avalanche, UndoAvalanche, Bitflip1to3, Combine1to3, LenWord, Xor, FirstByte, MiddleByte, LastByte;
    hide Rrmxmx, UndoRrmxmx, Bitflip4to8, Combine4to8, ReadLE32, ReadLE64, ByteOf32, HighHalf, LowHalf;
    var len := |input|;
    var w, flip := Combine1to3(input[0], input[len / 2], input[len - 1], LenWord(len)), Bitflip1to3(secret, seed);
    AvalancheUndone(Xor(w, flip));
    XorTwice(w, flip);
    Uncombine1to3(input[0], input[len / 2], input[len - 1], LenWord(len));
  }

  /** Every input of up to eight bytes is recovered from its hash, whatever secret and seed. */
  lemma RecoverInput(input: Octets, secret: Octets, seed: bv64)
    requires |input| <= 8 && |secret| >= SECRET_SIZE_MIN
    ensures Recover(ShortHash(input, secret, seed), |input|, secret, seed) == input
  {
    if |input| >= 4 { Recover4to8(input, secret, seed); }
    else if |input| >= 1 { Recover1to3(input, secret, seed); }
  }

  /** Hence inputs of equal length up to eight never collide. */
  lemma ShortHashIsInjective(x: Octets, y: Octets, secret: Octets, seed: bv64)
    requires |x| == |y| <= 8 && |secret| >= SECRET_SIZE_MIN
    requires ShortHash(x, secret, seed) == ShortHash(y, secret, seed)
    ensures x == y
  {
    RecoverInput(x, secret, seed);
    RecoverInput(y, secret, seed);
  }
}
