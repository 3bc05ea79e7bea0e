/** The long-input part of XXH3: what consuming 64-byte stripes means, and the one-shot
    hash computed block by block.

    The arithmetic of a stripe is a parameter (`Kernel`): the header selects one of several
    scalar and vector implementations at build time, and the results here hold for each. */
module Xxh3Core {
  import opened Basics
  import opened HashInput

  const STRIPE_LEN := 64
  const SECRET_CONSUME_RATE := 8
  const SECRET_SIZE_MIN := 136
  const SECRET_DEFAULT_SIZE := 192
  const SECRET_LASTACC_START := 7
  const SECRET_MERGEACCS_START := 11
  const MIDSIZE_MAX := 240

  /** `accumulate` mixes one stripe into the accumulators with 64 bytes of secret, `scramble`
      ends a block, `merge` converges the accumulators for a given input length, `short`
      hashes inputs of up to 240 bytes, `derive` builds a secret from a seed. */
  datatype Kernel<!Acc> = Kernel(
    init: Acc,
    accumulate: (Acc, Bytes, Bytes) -> Acc,
    scramble: (Acc, Bytes) -> Acc,
    merge: (Acc, Bytes, nat) -> Word,
    short: (Bytes, Bytes, Word) -> Word,
    defaultSecret: Bytes,
    derive: Word -> Bytes)
  {
    ghost predicate Valid() {
      |defaultSecret| == SECRET_DEFAULT_SIZE && forall s :: |derive(s)| == SECRET_DEFAULT_SIZE
    }
  }

  type Secret = s: Bytes | |s| >= SECRET_SIZE_MIN witness seq(SECRET_SIZE_MIN, _ => 0)

  function SecretLimit(secret: Secret): (r: nat) {
    |secret| - STRIPE_LEN
  }

  function StripesPerBlock(secret: Secret): (r: nat)
    ensures r >= 9 && (r - 1) * SECRET_CONSUME_RATE + STRIPE_LEN <= |secret|
  {
    SecretLimit(secret) / SECRET_CONSUME_RATE
  }

  function Stripe(x: Bytes, i: nat): (r: Bytes)
    requires STRIPE_LEN * (i + 1) <= |x|
  {
    x[STRIPE_LEN * i..STRIPE_LEN * (i + 1)]
  }

  function SecretAt(secret: Secret, pos: nat): (r: Bytes)
    requires pos < StripesPerBlock(secret)
  {
    secret[SECRET_CONSUME_RATE * pos..SECRET_CONSUME_RATE * pos + STRIPE_LEN]
  }

  function ScrambleSecret(secret: Secret): (r: Bytes) {
    secret[SecretLimit(secret)..]
  }

  // ----- The meaning of consuming stripes

  /** Where a block of `perBlock` stripes stands `n` stripes after position `pos`. */
  function Advance(perBlock: nat, pos: nat, n: nat): (r: nat)
    requires pos < perBlock
    ensures r < perBlock
    decreases n
  {
    if n == 0 then pos else
      var before := Advance(perBlock, pos, n - 1);
      if before + 1 == perBlock then 0 else before + 1
  }

  /** Consumes the first `n` stripes of `x`, one at a time, starting at stripe `pos` of a
      block: each stripe uses the secret at its position in the block, and the accumulators
      are scrambled right after the last stripe of each block. */
  function Consume<A>(k: Kernel<A>, secret: Secret, acc: A, pos: nat, x: Bytes, n: nat): (r: A)
    requires pos < StripesPerBlock(secret) && STRIPE_LEN * n <= |x|
    decreases n
  {
    if n == 0 then acc else
      var at := Advance(StripesPerBlock(secret), pos, n - 1);
      var a := k.accumulate(Consume(k, secret, acc, pos, x, n - 1), Stripe(x, n - 1), SecretAt(secret, at));
      if at + 1 == StripesPerBlock(secret) then k.scramble(a, ScrambleSecret(secret)) else a
  }

  /** The hash of an input of more than 240 bytes: all stripes but the last byte's, then
      the last 64 bytes (which may overlap them) with a secret of their own. */
  function LongHash<A>(k: Kernel<A>, secret: Secret, x: Bytes): (h: Word)
    requires |x| >= STRIPE_LEN
  {
    var acc := Consume(k, secret, k.init, 0, x, (|x| - 1) / STRIPE_LEN);
    k.merge(LastStripe(k, secret, acc, x[|x| - STRIPE_LEN..]), MergeSecret(secret), |x|)
  }

  function LastStripe<A>(k: Kernel<A>, secret: Secret, acc: A, stripe: Bytes): (r: A) {
    k.accumulate(acc, stripe, secret[SecretLimit(secret) - SECRET_LASTACC_START..|secret| - SECRET_LASTACC_START])
  }

  function MergeSecret(secret: Secret): (r: Bytes) {
    secret[SECRET_MERGEACCS_START..SECRET_MERGEACCS_START + STRIPE_LEN]
  }

  // ----- Laws of stripe positions

  lemma {:induction false} AdvanceSplit(perBlock: nat, pos: nat, m: nat, n: nat)
    requires pos < perBlock
    ensures Advance(perBlock, pos, m + n) == Advance(perBlock, Advance(perBlock, pos, m), n)
  {
    if n > 0 {
      AdvanceSplit(perBlock, pos, m, n - 1);
      assert m + n - 1 == m + (n - 1);
    }
  }

  lemma {:induction false} AdvanceWithinBlock(perBlock: nat, pos: nat, n: nat)
    requires pos < perBlock && pos + n <= perBlock
    ensures Advance(perBlock, pos, n) == if pos + n == perBlock then 0 else pos + n
  {
    if n > 0 { AdvanceWithinBlock(perBlock, pos, n - 1); }
  }

  // ----- Laws of Consume

  /** Only the consumed stripes matter. */
  lemma {:induction false} ConsumeCongruence<A>(k: Kernel<A>, secret: Secret, acc: A, pos: nat, x: Bytes, y: Bytes, n: nat)
    requires pos < StripesPerBlock(secret) && STRIPE_LEN * n <= |x| && STRIPE_LEN * n <= |y|
    requires x[..STRIPE_LEN * n] == y[..STRIPE_LEN * n]
    ensures Consume(k, secret, acc, pos, x, n) == Consume(k, secret, acc, pos, y, n)
  {
    if n > 0 {
      assert x[..STRIPE_LEN * (n - 1)] == x[..STRIPE_LEN * n][..STRIPE_LEN * (n - 1)];
      assert y[..STRIPE_LEN * (n - 1)] == y[..STRIPE_LEN * n][..STRIPE_LEN * (n - 1)];
      ConsumeCongruence(k, secret, acc, pos, x, y, n - 1);
      assert Stripe(x, n - 1) == x[..STRIPE_LEN * n][STRIPE_LEN * (n - 1)..];
      assert Stripe(y, n - 1) == y[..STRIPE_LEN * n][STRIPE_LEN * (n - 1)..];
    }
  }

  /** Consuming in two parts, the second from wherever the first ended in its block. */
  lemma {:induction false} ConsumeSplit<A>(k: Kernel<A>, secret: Secret, acc: A, pos: nat, x: Bytes, m: nat, n: nat)
    requires pos < StripesPerBlock(secret) && STRIPE_LEN * (m + n) <= |x|
    ensures Consume(k, secret, acc, pos, x, m + n)
            == Consume(k, secret, Consume(k, secret, acc, pos, x, m),
                       Advance(StripesPerBlock(secret), pos, m), x[STRIPE_LEN * m..], n)
  {
    if n > 0 {
      ConsumeSplit(k, secret, acc, pos, x, m, n - 1);
      AdvanceSplit(StripesPerBlock(secret), pos, m, n - 1);
      assert m + n - 1 == m + (n - 1);
      assert Stripe(x[STRIPE_LEN * m..], n - 1) == Stripe(x, m + n - 1);
    }
  }

  /** A run of `n` stripes with consecutive secrets and no scramble. */
  function Accumulated<A>(k: Kernel<A>, secret: Secret, acc: A, pos: nat, x: Bytes, n: nat): (r: A)
    requires STRIPE_LEN * n <= |x| && pos + n <= StripesPerBlock(secret)
    decreases n
  {
    if n == 0 then acc
    else k.accumulate(Accumulated(k, secret, acc, pos, x, n - 1), Stripe(x, n - 1), SecretAt(secret, pos + n - 1))
  }

  /** Within one block, consuming is accumulating, with a scramble exactly when the block
      is completed. */
  lemma {:induction false} ConsumeWithinBlock<A>(k: Kernel<A>, secret: Secret, acc: A, pos: nat, x: Bytes, n: nat)
    requires pos < StripesPerBlock(secret) && STRIPE_LEN * n <= |x| && pos + n <= StripesPerBlock(secret)
    ensures var a := Accumulated(k, secret, acc, pos, x, n);
            Consume(k, secret, acc, pos, x, n)
            == if n > 0 && pos + n == StripesPerBlock(secret) then k.scramble(a, ScrambleSecret(secret)) else a
  {
    if n > 0 {
      ConsumeWithinBlock(k, secret, acc, pos, x, n - 1);
      AdvanceWithinBlock(StripesPerBlock(secret), pos, n - 1);
    }
  }

  /** After `done` stripes, one more run that stays within the current block. */
  lemma ConsumeRun<A>(k: Kernel<A>, secret: Secret, start: A, pos: nat, x: Bytes, done: nat, n: nat)
    requires pos < StripesPerBlock(secret) && STRIPE_LEN * (done + n) <= |x|
    requires Advance(StripesPerBlock(secret), pos, done) + n <= StripesPerBlock(secret)
    ensures var perBlock, at := StripesPerBlock(secret), Advance(StripesPerBlock(secret), pos, done);
            var a := Accumulated(k, secret, Consume(k, secret, start, pos, x, done), at, x[STRIPE_LEN * done..], n);
            && Consume(k, secret, start, pos, x, done + n)
               == (if n > 0 && at + n == perBlock then k.scramble(a, ScrambleSecret(secret)) else a)
            && Advance(perBlock, pos, done + n) == (if at + n == perBlock then 0 else at + n)
  {
    var perBlock, at := StripesPerBlock(secret), Advance(StripesPerBlock(secret), pos, done);
    ConsumeSplit(k, secret, start, pos, x, done, n);
    ConsumeWithinBlock(k, secret, Consume(k, secret, start, pos, x, done), at, x[STRIPE_LEN * done..], n);
    AdvanceSplit(perBlock, pos, done, n);
    AdvanceWithinBlock(perBlock, at, n);
  }

  // ----- The loops of the header

  method Accumulate<A>(k: Kernel<A>, start: A, x: Bytes, secret: Secret, pos: nat, nbStripes: nat) returns (acc: A)
    requires STRIPE_LEN * nbStripes <= |x| && pos + nbStripes <= StripesPerBlock(secret)
    ensures acc == Accumulated(k, secret, start, pos, x, nbStripes)
  {
    acc := start;
    for n := 0 to nbStripes
      invariant acc == Accumulated(k, secret, start, pos, x, n)
    {
      acc := k.accumulate(acc, Stripe(x, n), SecretAt(secret, pos + n));
    }
  }

  lemma MulMonotone(n: nat, a: nat, b: nat)
    requires a <= b
    ensures n * a <= n * b
  {
    assert n * b == n * a + n * (b - a);
  }

  lemma BlockFits(blockLen: nat, n: nat, nbBlocks: nat, len: nat)
    requires n < nbBlocks && blockLen * nbBlocks <= len
    ensures blockLen * n + blockLen == blockLen * (n + 1) <= len
  {
    MulMonotone(blockLen, n + 1, nbBlocks);
  }

  function WholeBlocks(len: nat, blockLen: nat): (r: nat)
    requires blockLen > 0
  {
    len / blockLen
  }

  /** Dividing off whole blocks leaves less than one block. */
  lemma BlockCounts(len: nat, blockLen: nat)
    requires blockLen > 0
    ensures blockLen * WholeBlocks(len, blockLen) <= len < blockLen * WholeBlocks(len, blockLen) + blockLen
  {
  }

  /** Whole blocks from the start of the input. */
  method HashBlocks<A>(k: Kernel<A>, input: Bytes, secret: Secret, blockLen: nat, nbBlocks: nat) returns (acc: A, ghost done: nat)
    requires blockLen == STRIPE_LEN * StripesPerBlock(secret) && blockLen * nbBlocks <= |input|
    ensures STRIPE_LEN * done == blockLen * nbBlocks
    ensures acc == Consume(k, secret, k.init, 0, input, done)
    ensures Advance(StripesPerBlock(secret), 0, done) == 0
  {
    var perBlock := StripesPerBlock(secret);
    assert Consume(k, secret, k.init, 0, input, 0) == k.init && Advance(perBlock, 0, 0) == 0;
    hide Consume, Advance, Accumulated;
    acc, done := k.init, 0;
    for n := 0 to nbBlocks
      invariant STRIPE_LEN * done == blockLen * n <= |input|
      invariant acc == Consume(k, secret, k.init, 0, input, done)
      invariant Advance(perBlock, 0, done) == 0
    {
      BlockFits(blockLen, n, nbBlocks, |input|);
      ConsumeRun(k, secret, k.init, 0, input, done, perBlock);
      acc := Accumulate(k, acc, input[blockLen * n..], secret, 0, perBlock);
      acc := k.scramble(acc, ScrambleSecret(secret));
      done := done + perBlock;
    }
  }

  /** The last, partial block from `at` on, the last stripe, and the merge. */
  method FinishLong<A>(k: Kernel<A>, input: Bytes, secret: Secret, start: A, at: nat, ghost done: nat) returns (h: Word)
    requires STRIPE_LEN * done == at < |input| <= at + STRIPE_LEN * StripesPerBlock(secret) && |input| > STRIPE_LEN
    requires start == Consume(k, secret, k.init, 0, input, done) && Advance(StripesPerBlock(secret), 0, done) == 0
    ensures h == LongHash(k, secret, input)
  {
    hide Consume, Advance, Accumulated, LastStripe, MergeSecret;
    var nbStripes := (|input| - 1 - at) / STRIPE_LEN;
    ConsumeRun(k, secret, k.init, 0, input, done, nbStripes);
    var acc := Accumulate(k, start, input[at..], secret, 0, nbStripes);
    acc := LastStripe(k, secret, acc, input[|input| - STRIPE_LEN..]);
    h := k.merge(acc, MergeSecret(secret), |input|);
  }

  /** The one-shot long hash, block by block as the header does it. */
  method HashLong<A>(k: Kernel<A>, input: Bytes, secret: Secret) returns (h: Word)
    requires |input| > STRIPE_LEN
    ensures h == LongHash(k, secret, input)
  {
    hide Consume, Advance, LongHash, WholeBlocks;
    var blockLen := STRIPE_LEN * StripesPerBlock(secret);
    BlockCounts(|input| - 1, blockLen);
    var nbBlocks := WholeBlocks(|input| - 1, blockLen);
    ghost var done;
    var acc;
    acc, done := HashBlocks(k, input, secret, blockLen, nbBlocks);
    h := FinishLong(k, input, secret, acc, blockLen * nbBlocks, done);
  }

  /** Completes the current block, then consumes whole blocks while there are any. */
  method ConsumeBlocks<A>(k: Kernel<A>, start: A, soFar: nat, input: Bytes, nbStripes: nat, secret: Secret)
    returns (acc: A, done: nat)
    requires soFar < StripesPerBlock(secret) <= soFar + nbStripes && STRIPE_LEN * nbStripes <= |input|
    ensures done <= nbStripes < done + StripesPerBlock(secret)
    ensures acc == Consume(k, secret, start, soFar, input, done)
    ensures Advance(StripesPerBlock(secret), soFar, done) == 0
  {
    var perBlock := StripesPerBlock(secret);
    assert Consume(k, secret, start, soFar, input, 0) == start && Advance(perBlock, soFar, 0) == soFar;
    hide Consume, Advance, Accumulated;
    acc, done := start, 0;
    var pos, thisIter := soFar, perBlock - soFar;
    while true
      invariant pos == Advance(perBlock, soFar, done) && thisIter == perBlock - pos > 0
      invariant done + thisIter <= nbStripes
      invariant acc == Consume(k, secret, start, soFar, input, done)
      decreases nbStripes - done
    {
      ConsumeRun(k, secret, start, soFar, input, done, thisIter);
      acc := Accumulate(k, acc, input[STRIPE_LEN * done..], secret, pos, thisIter);
      acc := k.scramble(acc, ScrambleSecret(secret));
      done := done + thisIter;
      thisIter, pos := perBlock, 0;
      if nbStripes - done < perBlock { break; }
    }
  }

  /** Consumes stripes that may cross block ends: whole blocks first, then the start of a
      partial one. The position returned is where the block stands afterwards. */
  method ConsumeStripes<A>(k: Kernel<A>, start: A, soFar: nat, input: Bytes, nbStripes: nat, secret: Secret)
    returns (acc: A, soFar': nat, used: nat)
    requires soFar < StripesPerBlock(secret) && STRIPE_LEN * nbStripes <= |input|
    ensures acc == Consume(k, secret, start, soFar, input, nbStripes)
    ensures soFar' == Advance(StripesPerBlock(secret), soFar, nbStripes)
    ensures used == STRIPE_LEN * nbStripes
  {
    assert Consume(k, secret, start, soFar, input, 0) == start && Advance(StripesPerBlock(secret), soFar, 0) == soFar;
    hide Consume, Advance, Accumulated;
    var done := 0;
    acc, soFar' := start, soFar;
    if nbStripes >= StripesPerBlock(secret) - soFar {
      acc, done := ConsumeBlocks(k, acc, soFar, input, nbStripes, secret);
      soFar' := 0;
    }
    var left := nbStripes - done;
    if left > 0 {
      ConsumeRun(k, secret, start, soFar, input, done, left);
      acc := Accumulate(k, acc, input[STRIPE_LEN * done..], secret, soFar', left);
      soFar' := soFar' + left;
    }
    used := STRIPE_LEN * nbStripes;
  }
}
