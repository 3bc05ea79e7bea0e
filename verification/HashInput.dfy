/** Bytes, words and input chunks, shared by the hash models. */
module HashInput {
  import opened Basics

  type Bytes = seq<Byte>

  /** Unsigned counters wrap. */
  function Wrap32(n: nat): (r: nat) { n % TWO_32 }

  function Wrap64(n: nat): (r: nat) { n % TWO_64 }

  lemma Wrap32Add(a: nat, b: nat)
    ensures Wrap32(Wrap32(a) + Wrap32(b)) == Wrap32(a + b)
  {
    var q := (a % TWO_32 + b % TWO_32) / TWO_32;
    assert a + b == TWO_32 * (a / TWO_32 + b / TWO_32 + q) + Wrap32(Wrap32(a) + Wrap32(b));
  }

  lemma Wrap64Add(a: nat, b: nat)
    ensures Wrap64(Wrap64(a) + b) == Wrap64(a + b)
  {
    var q := (a % TWO_64 + b) / TWO_64;
    assert a + b == TWO_64 * (a / TWO_64 + q) + Wrap64(Wrap64(a) + b);
  }

  /** The whole input of a sequence of updates. */
  function Concat(chunks: seq<Bytes>): (r: Bytes) {
    if chunks == [] then [] else Concat(chunks[..|chunks| - 1]) + chunks[|chunks| - 1]
  }

  lemma {:induction false} ConcatPrefix(chunks: seq<Bytes>, n: nat)
    requires n <= |chunks|
    ensures |Concat(chunks[..n])| <= |Concat(chunks)|
    decreases |chunks| - n
  {
    if n == |chunks| {
      assert chunks[..n] == chunks;
    } else {
      ConcatPrefix(chunks, n + 1);
      assert chunks[..n + 1][..n] == chunks[..n];
    }
  }
}
