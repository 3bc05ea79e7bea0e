/** Bytes and machine words, numbers as bytes, and copying: what several models share. */
module Basics {
  const TWO_32 := 0x1_0000_0000
  const TWO_64 := 0x1_0000_0000_0000_0000

  type Byte = x: nat | x < 256
  type Word = x: nat | x < TWO_64

  datatype Option<+T> = None | Some(value: T)

  // ----- Copying

  method Memcpy<T>(dst: array<T>, at: nat, src: seq<T>)
    requires at + |src| <= dst.Length
    modifies dst
    ensures dst[..] == old(dst[..at]) + src + old(dst[at + |src|..])
  {
    forall i | 0 <= i < |src| { dst[at + i] := src[i]; }
  }

  // ----- Numbers as bytes, the lowest first

  function Pow256(k: nat): (r: nat)
    ensures r > 0
  {
    if k == 0 then 1 else 256 * Pow256(k - 1)
  }

  lemma {:induction false} Pow256Monotone(a: nat, b: nat)
    requires a <= b
    ensures Pow256(a) <= Pow256(b)
  {
    if a < b { Pow256Monotone(a, b - 1); }
  }

  function ToBytes(v: nat, k: nat): (r: seq<Byte>)
    ensures |r| == k
  {
    if k == 0 then [] else [v % 256] + ToBytes(v / 256, k - 1)
  }

  function FromBytes(b: seq<Byte>): (r: nat) {
    if b == [] then 0 else b[0] + 256 * FromBytes(b[1..])
  }

  lemma {:induction false} ItemRoundTrip(v: nat, k: nat)
    requires v < Pow256(k)
    ensures FromBytes(ToBytes(v, k)) == v
  {
    if k > 0 {
      assert v / 256 < Pow256(k - 1);
      ItemRoundTrip(v / 256, k - 1);
      assert ToBytes(v, k)[1..] == ToBytes(v / 256, k - 1);
    }
  }

  lemma {:induction false} FromBytesBound(b: seq<Byte>)
    ensures FromBytes(b) < Pow256(|b|)
  {
    if b != [] { FromBytesBound(b[1..]); }
  }

  lemma {:induction false} BytesRoundTrip(b: seq<Byte>)
    ensures ToBytes(FromBytes(b), |b|) == b
  {
    if b != [] {
      var v := FromBytes(b);
      assert v % 256 == b[0] && v / 256 == FromBytes(b[1..]);
      BytesRoundTrip(b[1..]);
    }
  }

  function Reverse<T>(s: seq<T>): (r: seq<T>)
    ensures |r| == |s| && forall i :: 0 <= i < |s| ==> r[i] == s[|s| - 1 - i]
  {
    seq(|s|, i requires 0 <= i < |s| => s[|s| - 1 - i])
  }
}
