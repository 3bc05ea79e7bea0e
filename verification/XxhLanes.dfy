/** XXH32 and XXH64: four lanes fed with blocks of 16 or 32 bytes. Streaming, for every
    way of cutting the input, equals the one-shot hash. */
module XxhLanes {
  import opened Basics
  import opened HashInput

  /** The arithmetic of one hash: `initial` lanes from a seed, `round` on one block,
      `converge` of the lanes, `small` for inputs below one block, and `finish`, which adds
      the (wrapped) length and mixes in the bytes after the last whole block. */
  datatype Lanes<!V> = Lanes(
    initial: Word -> V,
    seedLane: V -> Word,
    round: (V, Bytes) -> V,
    converge: V -> Word,
    small: Word -> Word,
    finish: (Word, nat, Bytes) -> Word)
  {
    /** The third lane starts out as the seed. */
    ghost predicate Valid(seed: Word) {
      seedLane(initial(seed)) == seed
    }
  }

  // ----- Whole blocks and the rest

  function Fold<V>(k: Lanes<V>, block: nat, v: V, x: Bytes): (r: V)
    requires block > 0
    decreases |x|
  {
    if |x| < block then v else Fold(k, block, k.round(v, x[..block]), x[block..])
  }

  function Rest(block: nat, x: Bytes): (r: Bytes)
    requires block > 0
    ensures |r| < block && |r| <= |x|
    ensures |x| < block ==> r == x
    decreases |x|
  {
    if |x| < block then x else Rest(block, x[block..])
  }

  /** One block at position `p`. */
  lemma FoldStep<V>(k: Lanes<V>, block: nat, v: V, x: Bytes, p: nat)
    requires block > 0 && p + block <= |x|
    ensures Fold(k, block, v, x[p..]) == Fold(k, block, k.round(v, x[p..p + block]), x[p + block..])
    ensures Rest(block, x[p..]) == Rest(block, x[p + block..])
  {
    assert x[p..][..block] == x[p..p + block] && x[p..][block..] == x[p + block..];
  }

  lemma FoldEnd<V>(k: Lanes<V>, block: nat, v: V, x: Bytes)
    requires |x| < block
    ensures Fold(k, block, v, x) == v && Rest(block, x) == x
  {
  }

  /** Appending input: what was left over is completed first. */
  lemma {:induction false} FoldAppend<V>(k: Lanes<V>, block: nat, v: V, x: Bytes, y: Bytes)
    requires block > 0
    ensures Fold(k, block, v, x + y) == Fold(k, block, Fold(k, block, v, x), Rest(block, x) + y)
    ensures Rest(block, x + y) == Rest(block, Rest(block, x) + y)
    decreases |x|
  {
    if |x| >= block {
      assert (x + y)[..block] == x[..block] && (x + y)[block..] == x[block..] + y;
      FoldAppend(k, block, k.round(v, x[..block]), x[block..], y);
    }
  }

  lemma {:induction false} RestLength32(x: Bytes)
    ensures |Rest(32, x)| == |x| % 32
    decreases |x|
  {
    if |x| >= 32 { RestLength32(x[32..]); }
  }

  // ----- One-shot hashes

  /** The one-shot hash: lanes only from one block on, length wrapped to the word size. */
  function OneShot<V>(k: Lanes<V>, block: nat, wrap: nat -> nat, seed: Word, x: Bytes): (h: Word)
    requires block > 0
  {
    var h := if |x| >= block then k.converge(Fold(k, block, k.initial(seed), x)) else k.small(seed);
    k.finish(h, wrap(|x|), Rest(block, x))
  }

  /** The one-shot loop: at least one block, then while a whole block is left. */
  method HashOneShot<V>(k: Lanes<V>, block: nat, wrap: nat -> nat, seed: Word, input: Bytes) returns (h: Word)
    requires block > 0
    ensures h == OneShot(k, block, wrap, seed, input)
  {
    var p := 0;
    if |input| >= block {
      var v := k.initial(seed);
      while true
        invariant 0 <= p && p + block <= |input|
        invariant Fold(k, block, v, input[p..]) == Fold(k, block, k.initial(seed), input)
        invariant Rest(block, input[p..]) == Rest(block, input)
        decreases |input| - p
      {
        FoldStep(k, block, v, input, p);
        v := k.round(v, input[p..p + block]);
        p := p + block;
        if p >= |input| - (block - 1) { break; }
      }
      h := k.converge(v);
    } else {
      h := k.small(seed);
    }
    h := k.finish(h, wrap(|input|), input[p..]);
  }

  // ----- Streaming

  /** The part of an update that the two hashes share: `mem` keeps what is left over. */
  method Absorb<V>(k: Lanes<V>, block: nat, start: V, mem: array<Byte>, memsize: nat, input: Bytes) returns (v: V, memsize': nat)
    requires mem.Length == block && memsize < block
    modifies mem
    ensures memsize' < block
    ensures v == Fold(k, block, start, old(mem[..memsize]) + input)
    ensures mem[..memsize'] == Rest(block, old(mem[..memsize]) + input)
  {
    hide Fold, Rest;
    ghost var all := mem[..memsize] + input;
    v, memsize' := start, memsize;
    if memsize + |input| < block {
      Memcpy(mem, memsize, input);
      memsize' := memsize + |input|;
      assert mem[..memsize'] == all;
      FoldEnd(k, block, v, all);
      return;
    }
    var p := 0;
    assert all[0..] == all && input[0..] == input;
    if memsize != 0 {
      p := block - memsize;
      Memcpy(mem, memsize, input[..p]);
      FoldStep(k, block, v, all, 0);
      assert mem[..] == all[0..block] && input[p..] == all[block..];
      v := k.round(v, mem[..]);
      memsize' := 0;
    }
    while p + block <= |input|
      invariant 0 <= p <= |input|
      invariant Fold(k, block, v, input[p..]) == Fold(k, block, start, all)
      invariant Rest(block, input[p..]) == Rest(block, all)
    {
      FoldStep(k, block, v, input, p);
      v := k.round(v, input[p..p + block]);
      p := p + block;
    }
    FoldEnd(k, block, v, input[p..]);
    if p < |input| {
      Memcpy(mem, 0, input[p..]);
      memsize' := |input| - p;
    }
    assert mem[..memsize'] == input[p..];
  }

  /** A wrapped 32-bit total and the sticky flag together still tell whether sixteen bytes
      or more have been seen. */
  lemma LargeLenIsExact(before: nat, len: nat)
    ensures before >= 16 || len >= 16 || Wrap32(before + len) >= 16 <==> before + len >= 16
  {
  }

  class State32<V> {
    const k: Lanes<V>
    const mem32: array<Byte>
    var v: V
    var memsize: nat
    var totalLen32: nat
    var largeLen: bool
    ghost var seed: Word
    ghost var data: Bytes

    /** `largeLen` is exactly "sixteen bytes or more so far", although the 32-bit total wraps. */
    ghost predicate Valid()
      reads this, mem32
    {
      && k.Valid(seed)
      && mem32.Length == 16 && memsize < 16
      && v == Fold(k, 16, k.initial(seed), data)
      && mem32[..memsize] == Rest(16, data)
      && totalLen32 == Wrap32(|data|)
      && largeLen == (|data| >= 16)
    }

    /** Allocation and reset. */
    constructor (k: Lanes<V>, seed: Word)
      requires k.Valid(seed)
      ensures Valid() && this.k == k && fresh(mem32) && data == [] && this.seed == seed
    {
      this.k := k;
      mem32 := new Byte[16];
      v, memsize, totalLen32, largeLen := k.initial(seed), 0, 0, false;
      this.seed, data := seed, [];
    }

    method Update(input: Bytes)
      requires Valid()
      modifies this, mem32
      ensures Valid() && data == old(data) + input && seed == old(seed)
    {
      hide Fold, Rest, Wrap32;
      FoldAppend(k, 16, k.initial(seed), data, input);
      Wrap32Add(|data|, |input|);
      LargeLenIsExact(|data|, |input|);
      totalLen32 := Wrap32(totalLen32 + Wrap32(|input|));
      largeLen := largeLen || |input| >= 16 || totalLen32 >= 16;
      v, memsize := Absorb(k, 16, v, mem32, memsize, input);
      data := data + input;
    }

    method Digest() returns (h: Word)
      requires Valid()
      ensures h == OneShot(k, 16, Wrap32, seed, data)
    {
      h := if largeLen then k.converge(v) else k.small(k.seedLane(v));
      h := k.finish(h, totalLen32, mem32[..memsize]);
    }
  }

  class State64<V> {
    const k: Lanes<V>
    const mem64: array<Byte>
    var v: V
    var memsize: nat
    var totalLen: nat
    ghost var seed: Word
    ghost var data: Bytes

    ghost predicate Valid()
      reads this, mem64
    {
      && k.Valid(seed)
      && mem64.Length == 32 && memsize < 32
      && v == Fold(k, 32, k.initial(seed), data)
      && mem64[..memsize] == Rest(32, data)
      && totalLen == Wrap64(|data|)
    }

    /** Allocation and reset. */
    constructor (k: Lanes<V>, seed: Word)
      requires k.Valid(seed)
      ensures Valid() && this.k == k && fresh(mem64) && data == [] && this.seed == seed
    {
      this.k := k;
      mem64 := new Byte[32];
      v, memsize, totalLen := k.initial(seed), 0, 0;
      this.seed, data := seed, [];
    }

    method Update(input: Bytes)
      requires Valid()
      modifies this, mem64
      ensures Valid() && data == old(data) + input && seed == old(seed)
    {
      hide Fold, Rest, Wrap64;
      FoldAppend(k, 32, k.initial(seed), data, input);
      Wrap64Add(|data|, |input|);
      totalLen := Wrap64(totalLen + |input|);
      v, memsize := Absorb(k, 32, v, mem64, memsize, input);
      data := data + input;
    }

    /** The tail length is taken from the total, not from `memsize`. The total must not have
        wrapped: a one-shot call cannot take that much. */
    method Digest() returns (h: Word)
      requires Valid() && |data| < TWO_64
      ensures h == OneShot(k, 32, Wrap64, seed, data)
    {
      RestLength32(data);
      h := if totalLen >= 32 then k.converge(v) else k.small(k.seedLane(v));
      h := k.finish(h, totalLen, mem64[..totalLen % 32]);
    }
  }

  // ----- Every way of cutting the input

  /** XXH32 streaming equals one-shot, with no bound on the total length. */
  method Streaming32<V>(k: Lanes<V>, seed: Word, chunks: seq<Bytes>) returns (h: Word)
    requires k.Valid(seed)
    ensures h == OneShot(k, 16, Wrap32, seed, Concat(chunks))
  {
    var s := new State32(k, seed);
    for n := 0 to |chunks|
      invariant s.Valid() && s.seed == seed && s.k == k && fresh(s) && fresh(s.mem32)
      invariant s.data == Concat(chunks[..n])
    {
      s.Update(chunks[n]);
      assert chunks[..n + 1][..n] == chunks[..n];
    }
    assert chunks[..|chunks|] == chunks;
    h := s.Digest();
  }

  /** XXH64 streaming equals one-shot for every total a one-shot call can take. */
  method Streaming64<V>(k: Lanes<V>, seed: Word, chunks: seq<Bytes>) returns (h: Word)
    requires k.Valid(seed) && |Concat(chunks)| < TWO_64
    ensures h == OneShot(k, 32, Wrap64, seed, Concat(chunks))
  {
    var s := new State64(k, seed);
    for n := 0 to |chunks|
      invariant s.Valid() && s.seed == seed && s.k == k && fresh(s) && fresh(s.mem64)
      invariant s.data == Concat(chunks[..n])
    {
      s.Update(chunks[n]);
      assert chunks[..n + 1][..n] == chunks[..n];
    }
    assert chunks[..|chunks|] == chunks;
    h := s.Digest();
  }
}
