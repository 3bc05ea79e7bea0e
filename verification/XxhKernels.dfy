/** The arithmetic of XXH32 and XXH64, for which streaming and one-shot hashes then agree. */
module XxhKernels {
  import opened Basics
  import opened HashInput
  import opened XxhLanes
  import Bits

  datatype Quad = Quad(v1: Word, v2: Word, v3: Word, v4: Word)

  /** The little-endian word of `n` bytes at a place of the input. */
  function Read(x: Bytes, at: nat, n: nat): (r: nat) {
    if at + n <= |x| then FromBytes(x[at..at + n]) else 0
  }

  // ----- 32 bits

  const P32_1 := 0x9E3779B1
  const P32_2 := 0x85EBCA77
  const P32_3 := 0xC2B2AE3D
  const P32_4 := 0x27D4EB2F
  const P32_5 := 0x165667B1

  type Word32 = x: nat | x < TWO_32

  function Low32(x: int): (r: Word32) { x % TWO_32 }

  function Rotl32(x: Word32, s: nat): (r: Word32)
    requires s <= 32
  {
    Low32(x * Bits.Pow2(s) + Bits.Shr(x, 32 - s))
  }

  function XorShift32(x: Word32, s: nat): (r: Word32) {
    Low32(Bits.Xor(x, Bits.Shr(x, s)))
  }

  function Round32(acc: Word, input: nat): (r: Word32) {
    Low32(Rotl32(Low32(acc + input * P32_2), 13) * P32_1)
  }

  function Avalanche32(h: Word32): (r: Word32) {
    XorShift32(Low32(XorShift32(Low32(XorShift32(h, 15) * P32_2), 13) * P32_3), 16)
  }

  /** The last bytes, four at a time and then one by one. */
  function Finalize32(h: Word32, x: Bytes): (r: Word32)
    decreases |x|
  {
    if |x| >= 4 then Finalize32(Low32(Rotl32(Low32(h + Read(x, 0, 4) * P32_3), 17) * P32_4), x[4..])
    else if |x| > 0 then Finalize32(Low32(Rotl32(Low32(h + x[0] * P32_5), 11) * P32_1), x[1..])
    else Avalanche32(h)
  }

  function Initial32(seed: Word): (v: Quad) {
    Quad(Low32(seed + P32_1 + P32_2), Low32(seed + P32_2), Low32(seed), Low32(seed - P32_1))
  }

  function RoundBlock32(v: Quad, x: Bytes): (r: Quad) {
    Quad(Round32(v.v1, Read(x, 0, 4)), Round32(v.v2, Read(x, 4, 4)), Round32(v.v3, Read(x, 8, 4)), Round32(v.v4, Read(x, 12, 4)))
  }

  function Converge32(v: Quad): (r: Word) {
    Low32(Rotl32(Low32(v.v1), 1) + Rotl32(Low32(v.v2), 7) + Rotl32(Low32(v.v3), 12) + Rotl32(Low32(v.v4), 18))
  }

  function Small32(seed: Word): (r: Word) { Low32(seed + P32_5) }

  function Finish32(h: Word, len: nat, rest: Bytes): (r: Word) { Finalize32(Low32(h + len), rest) }

  function ThirdLane(v: Quad): (r: Word) { v.v3 }

  function Lanes32(): (k: Lanes<Quad>) {
    Lanes(Initial32, ThirdLane, RoundBlock32, Converge32, Small32, Finish32)
  }

  /** The third of the 32-bit lanes starts out as the seed, as long as that has 32 bits too. */
  lemma Lanes32AreValid(seed: Word)
    ensures Lanes32().Valid(seed) <==> seed < TWO_32
  {
    hide RoundBlock32, Converge32, Small32, Finish32;
  }

  // ----- 64 bits

  const P64_1 := 0x9E3779B185EBCA87
  const P64_2 := 0xC2B2AE3D27D4EB4F
  const P64_3 := 0x165667B19E3779F9
  const P64_4 := 0x85EBCA77C2B2AE63
  const P64_5 := 0x27D4EB2F165667C5

  function Low64(x: int): (r: Word) { x % TWO_64 }

  function Rotl64(x: Word, s: nat): (r: Word)
    requires s <= 64
  {
    Low64(x * Bits.Pow2(s) + Bits.Shr(x, 64 - s))
  }

  function XorShift64(x: Word, s: nat): (r: Word) {
    Low64(Bits.Xor(x, Bits.Shr(x, s)))
  }

  function Round64(acc: Word, input: nat): (r: Word) {
    Low64(Rotl64(Low64(acc + input * P64_2), 31) * P64_1)
  }

  function MergeRound64(acc: Word, v: Word): (r: Word) {
    Low64(Bits.Xor(acc, Round64(0, v)) * P64_1 + P64_4)
  }

  function Avalanche64(h: Word): (r: Word) {
    XorShift64(Low64(XorShift64(Low64(XorShift64(h, 33) * P64_2), 29) * P64_3), 32)
  }

  /** The last bytes, eight at a time, then four, then one by one. */
  function Finalize64(h: Word, x: Bytes): (r: Word)
    decreases |x|
  {
    if |x| >= 8 then
      Finalize64(Low64(Rotl64(Low64(Bits.Xor(h, Round64(0, Read(x, 0, 8)))), 27) * P64_1 + P64_4), x[8..])
    else if |x| >= 4 then
      Finalize64(Low64(Rotl64(Low64(Bits.Xor(h, Low64(Read(x, 0, 4) * P64_1))), 23) * P64_2 + P64_3), x[4..])
    else if |x| > 0 then
      Finalize64(Low64(Rotl64(Low64(Bits.Xor(h, Low64(x[0] * P64_5))), 11) * P64_1), x[1..])
    else Avalanche64(h)
  }

  function Converge64(v: Quad): (r: Word) {
    var h := Low64(Rotl64(v.v1, 1) + Rotl64(v.v2, 7) + Rotl64(v.v3, 12) + Rotl64(v.v4, 18));
    MergeRound64(MergeRound64(MergeRound64(MergeRound64(h, v.v1), v.v2), v.v3), v.v4)
  }

  function Initial64(seed: Word): (v: Quad) {
    Quad(Low64(seed + P64_1 + P64_2), Low64(seed + P64_2), seed, Low64(seed - P64_1))
  }

  function RoundBlock64(v: Quad, x: Bytes): (r: Quad) {
    Quad(Round64(v.v1, Read(x, 0, 8)), Round64(v.v2, Read(x, 8, 8)), Round64(v.v3, Read(x, 16, 8)), Round64(v.v4, Read(x, 24, 8)))
  }

  function Small64(seed: Word): (r: Word) { Low64(seed + P64_5) }

  function Finish64(h: Word, len: nat, rest: Bytes): (r: Word) { Finalize64(Low64(h + len), rest) }

  function Lanes64(): (k: Lanes<Quad>) {
    Lanes(Initial64, ThirdLane, RoundBlock64, Converge64, Small64, Finish64)
  }

  lemma Lanes64AreValid(seed: Word)
    ensures Lanes64().Valid(seed)
  {
    hide RoundBlock64, Converge64, Small64, Finish64;
  }

  // ----- The two hashes

  /** XXH32 itself, fed in any chunks: the one-shot hash of the whole input. */
  method Xxh32(seed: Word32, chunks: seq<Bytes>) returns (h: Word)
    ensures h == OneShot(Lanes32(), 16, Wrap32, seed, Concat(chunks))
  {
    Lanes32AreValid(seed);
    hide OneShot, Lanes32;
    h := Streaming32(Lanes32(), seed, chunks);
  }

  /** XXH64 itself, fed in any chunks that a one-shot call could take at once. */
  method Xxh64(seed: Word, chunks: seq<Bytes>) returns (h: Word)
    requires |Concat(chunks)| < TWO_64
    ensures h == OneShot(Lanes64(), 32, Wrap64, seed, Concat(chunks))
  {
    Lanes64AreValid(seed);
    hide OneShot, Lanes64;
    h := Streaming64(Lanes64(), seed, chunks);
  }
}
