/** The XXH3 streaming state: resets, updates and digest of the 64-bit variant, proved
    equal to the one-shot hash of everything fed in since the last reset. */
module Xxh3Stream {
  import opened Basics
  import opened HashInput
  import opened Xxh3Core

  const BUFFER_SIZE := 256
  const BUFFER_STRIPES := 4

  datatype Status = Ok | Error

  // ----- The one-shot entry points

  /** How a hash is keyed: one case per one-shot function. */
  datatype Keying =
    | Default
    | WithSecret(secret: Secret)
    | WithSeed(seed: Word)
    | WithSecretAndSeed(secret: Secret, seed: Word)

  /** The secret that long inputs are hashed with. */
  function LongSecret<A>(k: Kernel<A>, key: Keying): (r: Bytes) {
    match key
    case Default => k.defaultSecret
    case WithSecret(secret) => secret
    case WithSeed(seed) => if seed == 0 then k.defaultSecret else k.derive(seed)
    case WithSecretAndSeed(secret, _) => secret
  }

  /** The 64-bit one-shot hash of `x` under each keying. */
  function OneShot<A>(k: Kernel<A>, key: Keying, x: Bytes): (h: Word)
    requires |LongSecret(k, key)| >= SECRET_SIZE_MIN
  {
    if |x| > MIDSIZE_MAX then LongHash(k, LongSecret(k, key), x) else
    match key
    case Default => k.short(x, k.defaultSecret, 0)
    case WithSecret(secret) => k.short(x, secret, 0)
    case WithSeed(seed) => k.short(x, k.defaultSecret, seed)
    case WithSecretAndSeed(_, seed) => k.short(x, k.defaultSecret, seed)
  }

  // ----- The streaming invariant, on values

  /** All of `data` has been consumed; the tail of the buffer still holds its last stripe. */
  ghost predicate Flushed<A>(k: Kernel<A>, secret: Secret, data: Bytes, acc: A, soFar: nat, buf: Bytes) {
    && |buf| == BUFFER_SIZE
    && |data| % STRIPE_LEN == 0
    && acc == Consume(k, secret, k.init, 0, data, |data| / STRIPE_LEN)
    && soFar == Advance(StripesPerBlock(secret), 0, |data| / STRIPE_LEN)
    && (data == [] || (|data| >= BUFFER_SIZE && buf[BUFFER_SIZE - STRIPE_LEN..] == data[|data| - STRIPE_LEN..]))
  }

  /** The last `buffered` bytes of `data` wait in the buffer. Once anything was consumed,
      the buffer is never empty, and its tail keeps the last consumed stripe for as long
      as the waiting bytes leave room for it. */
  ghost predicate Streaming<A>(k: Kernel<A>, secret: Secret, data: Bytes, acc: A, soFar: nat, buf: Bytes, buffered: nat) {
    && |buf| == BUFFER_SIZE
    && buffered <= BUFFER_SIZE && buffered <= |data|
    && var eaten := |data| - buffered;
    && eaten % STRIPE_LEN == 0
    && buf[..buffered] == data[eaten..]
    && acc == Consume(k, secret, k.init, 0, data, eaten / STRIPE_LEN)
    && soFar == Advance(StripesPerBlock(secret), 0, eaten / STRIPE_LEN)
    && (eaten == 0 || (buffered > 0 && eaten >= BUFFER_SIZE))
    && (eaten > 0 && buffered <= BUFFER_SIZE - STRIPE_LEN ==>
          buf[BUFFER_SIZE - STRIPE_LEN..] == data[eaten - STRIPE_LEN..eaten])
  }

  /** Consuming `n` stripes of `x` on top of fully consumed `data`. */
  lemma ConsumeMore<A>(k: Kernel<A>, secret: Secret, data: Bytes, x: Bytes, n: nat)
    requires |data| % STRIPE_LEN == 0 && STRIPE_LEN * n <= |x|
    ensures var perBlock, m := StripesPerBlock(secret), |data| / STRIPE_LEN;
            var all := data + x[..STRIPE_LEN * n];
            && |all| % STRIPE_LEN == 0 && |all| / STRIPE_LEN == m + n
            && Consume(k, secret, k.init, 0, all, m + n)
               == Consume(k, secret, Consume(k, secret, k.init, 0, data, m), Advance(perBlock, 0, m), x, n)
            && Advance(perBlock, 0, m + n) == Advance(perBlock, Advance(perBlock, 0, m), n)
  {
    hide Consume, Advance;
    var perBlock, m := StripesPerBlock(secret), |data| / STRIPE_LEN;
    var all := data + x[..STRIPE_LEN * n];
    ConsumeSplit(k, secret, k.init, 0, all, m, n);
    ConsumeCongruence(k, secret, k.init, 0, all, data, m);
    assert all[STRIPE_LEN * m..] == x[..STRIPE_LEN * n];
    ConsumeCongruence(k, secret, Consume(k, secret, k.init, 0, data, m), Advance(perBlock, 0, m), all[STRIPE_LEN * m..], x, n);
    AdvanceSplit(perBlock, 0, m, n);
  }

  /** Buffering more bytes in front of the tail. */
  lemma BufferMore<A>(k: Kernel<A>, secret: Secret, data: Bytes, acc: A, soFar: nat, buf: Bytes, buffered: nat, x: Bytes)
    requires Streaming(k, secret, data, acc, soFar, buf, buffered)
    requires |x| <= BUFFER_SIZE - buffered
    ensures Streaming(k, secret, data + x, acc, soFar, buf[..buffered] + x + buf[buffered + |x|..], buffered + |x|)
  {
    hide Consume, Advance;
    var buf' := buf[..buffered] + x + buf[buffered + |x|..];
    var eaten := |data| - buffered;
    assert buf'[..buffered + |x|] == (data + x)[eaten..];
    ConsumeCongruence(k, secret, k.init, 0, data, data + x, eaten / STRIPE_LEN);
    if eaten > 0 && buffered + |x| <= BUFFER_SIZE - STRIPE_LEN {
      assert buf'[BUFFER_SIZE - STRIPE_LEN..] == buf[BUFFER_SIZE - STRIPE_LEN..];
      assert (data + x)[eaten - STRIPE_LEN..eaten] == data[eaten - STRIPE_LEN..eaten];
    }
  }

  /** A full buffer, consumed. */
  lemma FlushBuffer<A>(k: Kernel<A>, secret: Secret, data: Bytes, acc: A, soFar: nat, buf: Bytes)
    requires Streaming(k, secret, data, acc, soFar, buf, BUFFER_SIZE)
    ensures Flushed(k, secret, data, Consume(k, secret, acc, soFar, buf, BUFFER_STRIPES),
                    Advance(StripesPerBlock(secret), soFar, BUFFER_STRIPES), buf)
  {
    hide Consume, Advance;
    var before := data[..|data| - BUFFER_SIZE];
    ConsumeCongruence(k, secret, k.init, 0, data, before, |before| / STRIPE_LEN);
    ConsumeMore(k, secret, before, buf, BUFFER_STRIPES);
    assert buf[..STRIPE_LEN * BUFFER_STRIPES] == buf == buf[..BUFFER_SIZE];
    assert data == before + buf;
  }

  /** Stripes consumed straight from the input, the last one copied to the buffer's tail. */
  lemma ConsumeDirectly<A>(k: Kernel<A>, secret: Secret, data: Bytes, acc: A, soFar: nat, buf: Bytes, x: Bytes, n: nat)
    requires Flushed(k, secret, data, acc, soFar, buf)
    requires n >= BUFFER_STRIPES && STRIPE_LEN * n <= |x|
    ensures var eaten := x[..STRIPE_LEN * n];
            Flushed(k, secret, data + eaten, Consume(k, secret, acc, soFar, x, n), Advance(StripesPerBlock(secret), soFar, n),
                    buf[..BUFFER_SIZE - STRIPE_LEN] + eaten[|eaten| - STRIPE_LEN..])
  {
    hide Consume, Advance;
    var eaten := x[..STRIPE_LEN * n];
    ConsumeMore(k, secret, data, x, n);
    var tail := eaten[|eaten| - STRIPE_LEN..];
    assert (buf[..BUFFER_SIZE - STRIPE_LEN] + tail)[BUFFER_SIZE - STRIPE_LEN..] == tail;
    assert (data + eaten)[|data + eaten| - STRIPE_LEN..] == tail;
  }

  /** The rest of the input, buffered after a flush. */
  lemma BufferRest<A>(k: Kernel<A>, secret: Secret, data: Bytes, acc: A, soFar: nat, buf: Bytes, x: Bytes)
    requires Flushed(k, secret, data, acc, soFar, buf)
    requires 0 < |x| <= BUFFER_SIZE
    ensures Streaming(k, secret, data + x, acc, soFar, x + buf[|x|..], |x|)
  {
    hide Consume, Advance;
    ConsumeCongruence(k, secret, k.init, 0, data, data + x, |data| / STRIPE_LEN);
    if data != [] && |x| <= BUFFER_SIZE - STRIPE_LEN {
      assert (x + buf[|x|..])[BUFFER_SIZE - STRIPE_LEN..] == buf[BUFFER_SIZE - STRIPE_LEN..];
      assert (data + x)[|data| - STRIPE_LEN..|data|] == data[|data| - STRIPE_LEN..];
    }
  }

  // ----- The digest, on values

  /** The last stripe, taken from the buffer alone or completed from its stale tail. */
  function LastStripeBytes(buf: Bytes, buffered: nat): (r: Bytes)
    requires |buf| == BUFFER_SIZE && 0 < buffered <= BUFFER_SIZE
  {
    if buffered >= STRIPE_LEN then buf[buffered - STRIPE_LEN..buffered]
    else buf[BUFFER_SIZE - (STRIPE_LEN - buffered)..] + buf[..buffered]
  }

  /** Nothing is consumed before the input outgrows the buffer. */
  lemma ShortInputIsBuffered<A>(k: Kernel<A>, secret: Secret, data: Bytes, acc: A, soFar: nat, buf: Bytes, buffered: nat)
    requires Streaming(k, secret, data, acc, soFar, buf, buffered) && |data| <= MIDSIZE_MAX
    ensures |buf| == BUFFER_SIZE && buf[..|data|] == data
  {
  }

  /** The last 64 bytes of the input: in the buffer, or split between its tail and its start. */
  lemma LastStripeIsEndOfInput<A>(k: Kernel<A>, secret: Secret, data: Bytes, acc: A, soFar: nat, buf: Bytes, buffered: nat)
    requires Streaming(k, secret, data, acc, soFar, buf, buffered) && |data| > MIDSIZE_MAX
    ensures buffered > 0 && LastStripeBytes(buf, buffered) == data[|data| - STRIPE_LEN..]
  {
    hide Consume, Advance;
    var eaten := |data| - buffered;
    if buffered >= STRIPE_LEN {
      assert buf[buffered - STRIPE_LEN..buffered] == buf[..buffered][buffered - STRIPE_LEN..];
    } else {
      var tail := buf[BUFFER_SIZE - STRIPE_LEN..];
      assert buf[BUFFER_SIZE - (STRIPE_LEN - buffered)..] == tail[buffered..];
      assert data[eaten - STRIPE_LEN..eaten][buffered..] == data[|data| - STRIPE_LEN..eaten];
      assert data[|data| - STRIPE_LEN..] == data[|data| - STRIPE_LEN..eaten] + data[eaten..];
    }
  }

  /** The buffered stripes complete the stripes of the input. */
  lemma BufferedStripesCompleteInput<A>(k: Kernel<A>, secret: Secret, data: Bytes, acc: A, soFar: nat, buf: Bytes, buffered: nat)
    requires Streaming(k, secret, data, acc, soFar, buf, buffered) && buffered > 0
    ensures var nbStripes := (buffered - 1) / STRIPE_LEN;
            Consume(k, secret, acc, soFar, buf, nbStripes)
            == Consume(k, secret, k.init, 0, data, (|data| - 1) / STRIPE_LEN)
  {
    hide Consume, Advance;
    var eaten := |data| - buffered;
    var nbStripes := (buffered - 1) / STRIPE_LEN;
    var before := data[..eaten];
    ConsumeCongruence(k, secret, k.init, 0, data, before, eaten / STRIPE_LEN);
    ConsumeMore(k, secret, before, buf, nbStripes);
    var all := before + buf[..STRIPE_LEN * nbStripes];
    assert buf[..STRIPE_LEN * nbStripes] == buf[..buffered][..STRIPE_LEN * nbStripes];
    assert all == data[..eaten + STRIPE_LEN * nbStripes];
    ConsumeCongruence(k, secret, k.init, 0, all, data, eaten / STRIPE_LEN + nbStripes);
  }

  /** Nothing fed in yet. */
  lemma StreamingNothing<A>(k: Kernel<A>, secret: Secret, buf: Bytes)
    requires |buf| == BUFFER_SIZE
    ensures Streaming(k, secret, [], k.init, 0, buf, 0)
  {
  }

  // ----- The state

  /** Takes in `input`: buffers it if it fits; otherwise completes and consumes the buffer,
      consumes stripes straight from the input while more than a buffer is left, and
      buffers the rest. */
  method Absorb<A>(k: Kernel<A>, secret: Secret, ghost data: Bytes, start: A, soFar: nat, buffer: array<Byte>, buffered: nat, input: Bytes)
    returns (acc: A, soFar': nat, buffered': nat)
    requires buffer.Length == BUFFER_SIZE
    requires Streaming(k, secret, data, start, soFar, buffer[..], buffered)
    modifies buffer
    ensures Streaming(k, secret, data + input, acc, soFar', buffer[..], buffered')
  {
    hide Consume, Advance;
    acc, soFar', buffered' := start, soFar, buffered;
    if |input| <= BUFFER_SIZE - buffered {
      BufferMore(k, secret, data, acc, soFar, buffer[..], buffered, input);
      Memcpy(buffer, buffered, input);
      buffered' := buffered + |input|;
      return;
    }
    var p := 0;
    if buffered != 0 {
      acc, soFar' := CompleteBuffer(k, secret, data, acc, soFar, buffer, buffered, input[..BUFFER_SIZE - buffered]);
      p := BUFFER_SIZE - buffered;
    }
    acc, soFar', buffered' := AbsorbFlushed(k, secret, data + input[..p], acc, soFar', buffer, input[p..]);
    assert data + input[..p] + input[p..] == data + input;
  }

  method CompleteBuffer<A>(k: Kernel<A>, secret: Secret, ghost data: Bytes, start: A, soFar: nat, buffer: array<Byte>, buffered: nat, x: Bytes)
    returns (acc: A, soFar': nat)
    requires buffer.Length == BUFFER_SIZE
    requires Streaming(k, secret, data, start, soFar, buffer[..], buffered) && |x| == BUFFER_SIZE - buffered
    modifies buffer
    ensures Flushed(k, secret, data + x, acc, soFar', buffer[..])
  {
    hide Consume, Advance;
    BufferMore(k, secret, data, start, soFar, buffer[..], buffered, x);
    Memcpy(buffer, buffered, x);
    FlushBuffer(k, secret, data + x, start, soFar, buffer[..]);
    var used;
    acc, soFar', used := ConsumeStripes(k, start, soFar, buffer[..], BUFFER_STRIPES, secret);
  }

  /** While more than a buffer is left, all stripes but the last byte's go straight in. */
  method ConsumeInput<A>(k: Kernel<A>, secret: Secret, ghost data: Bytes, start: A, soFar: nat, buffer: array<Byte>, x: Bytes)
    returns (acc: A, soFar': nat, p: nat)
    requires buffer.Length == BUFFER_SIZE && |x| > BUFFER_SIZE
    requires Flushed(k, secret, data, start, soFar, buffer[..])
    modifies buffer
    ensures p < |x| <= p + STRIPE_LEN && Flushed(k, secret, data + x[..p], acc, soFar', buffer[..])
  {
    hide Consume, Advance;
    var nbStripes := (|x| - 1) / STRIPE_LEN;
    ConsumeDirectly(k, secret, data, start, soFar, buffer[..], x, nbStripes);
    hide Flushed;
    acc, soFar', p := ConsumeStripes(k, start, soFar, x, nbStripes, secret);
    assert x[..p][p - STRIPE_LEN..] == x[p - STRIPE_LEN..p];
    Memcpy(buffer, BUFFER_SIZE - STRIPE_LEN, x[p - STRIPE_LEN..p]);
    assert buffer[..] == old(buffer[..])[..BUFFER_SIZE - STRIPE_LEN] + x[p - STRIPE_LEN..p];
  }

  method AbsorbFlushed<A>(k: Kernel<A>, secret: Secret, ghost data: Bytes, start: A, soFar: nat, buffer: array<Byte>, x: Bytes)
    returns (acc: A, soFar': nat, buffered: nat)
    requires buffer.Length == BUFFER_SIZE && x != []
    requires Flushed(k, secret, data, start, soFar, buffer[..])
    modifies buffer
    ensures Streaming(k, secret, data + x, acc, soFar', buffer[..], buffered)
  {
    hide Flushed, Streaming;
    acc, soFar' := start, soFar;
    var p := 0;
    assert data + x[..0] == data;
    if |x| > BUFFER_SIZE {
      acc, soFar', p := ConsumeInput(k, secret, data, start, soFar, buffer, x);
    }
    BufferRest(k, secret, data + x[..p], acc, soFar', buffer[..], x[p..]);
    assert data + x[..p] + x[p..] == data + x;
    ghost var tail := buffer[..][|x| - p..];
    Memcpy(buffer, 0, x[p..]);
    buffered := |x| - p;
    assert buffer[..] == x[p..] + tail;
  }

  /** The accumulators of the whole input, from a copy of those of the state. */
  method DigestLong<A>(k: Kernel<A>, secret: Secret, ghost data: Bytes, start: A, soFar: nat, buffer: array<Byte>, buffered: nat)
    returns (acc: A)
    requires buffer.Length == BUFFER_SIZE && |data| > MIDSIZE_MAX
    requires Streaming(k, secret, data, start, soFar, buffer[..], buffered)
    ensures k.merge(acc, MergeSecret(secret), |data|) == LongHash(k, secret, data)
  {
    LastStripeIsEndOfInput(k, secret, data, start, soFar, buffer[..], buffered);
    BufferedStripesCompleteInput(k, secret, data, start, soFar, buffer[..], buffered);
    assert buffered < STRIPE_LEN ==> Consume(k, secret, start, soFar, buffer[..], (buffered - 1) / STRIPE_LEN) == start;
    hide Advance, Consume;
    acc := start;
    if buffered >= STRIPE_LEN {
      var pos, used;
      acc, pos, used := ConsumeStripes(k, acc, soFar, buffer[..], (buffered - 1) / STRIPE_LEN, secret);
    }
    acc := LastStripe(k, secret, acc, LastStripeBytes(buffer[..], buffered));
  }

  class State<A> {
    const k: Kernel<A>
    const buffer: array<Byte>
    var acc: A
    var customSecret: Bytes
    var bufferedSize: nat
    var useSeed: bool
    var nbStripesSoFar: nat
    var totalLen: nat
    var nbStripesPerBlock: nat
    var secretLimit: nat
    var seed: Word
    var extSecret: Option<Bytes>

    ghost var data: Bytes
    ghost var key: Keying

    ghost predicate Allocated()
      reads this
    {
      k.Valid() && buffer.Length == BUFFER_SIZE && |customSecret| == SECRET_DEFAULT_SIZE
    }

    /** Holds from initialisation on, whatever resets follow: a seed that is in force
        without an external secret has its derived secret in `customSecret`. */
    ghost predicate Valid()
      reads this
    {
      && Allocated()
      && (extSecret == None && seed != 0 ==> customSecret == k.derive(seed))
    }

    function ActiveSecret(): (r: Bytes)
      reads this
    {
      if extSecret == None then customSecret else extSecret.value
    }

    /** The state hashes `data` under `key`. */
    ghost predicate Hashing()
      reads this, buffer
    {
      && Valid()
      && ActiveSecret() == LongSecret(k, key) && |ActiveSecret()| >= SECRET_SIZE_MIN
      && secretLimit == SecretLimit(ActiveSecret())
      && nbStripesPerBlock == StripesPerBlock(ActiveSecret())
      && (match key
          case Default => !useSeed
          case WithSecret(_) => !useSeed
          case WithSeed(s) => if s == 0 then !useSeed else useSeed && seed == s
          case WithSecretAndSeed(_, s) => useSeed && seed == s)
      && totalLen == Wrap64(|data|)
      && Streaming(k, ActiveSecret(), data, acc, nbStripesSoFar, buffer[..], bufferedSize)
    }

    /** A state right after XXH3_INITSTATE; the other fields hold whatever was in memory. */
    constructor (k: Kernel<A>, garbage: Bytes)
      requires k.Valid() && |garbage| == SECRET_DEFAULT_SIZE
      ensures Valid() && this.k == k && fresh(buffer)
    {
      this.k := k;
      buffer := new Byte[BUFFER_SIZE];
      acc, customSecret := k.init, garbage;
      bufferedSize, useSeed, nbStripesSoFar, totalLen, nbStripesPerBlock, secretLimit := 0, false, 0, 0, 0, 0;
      seed, extSecret := 0, None;
      data, key := [], Default;
    }

    method ResetInternal(seed: Word, secret: Option<Bytes>, secretSize: nat)
      requires Allocated() && secretSize < TWO_64
      requires secret == None && seed != 0 ==> customSecret == k.derive(seed)
      modifies `acc, `bufferedSize, `useSeed, `nbStripesSoFar, `totalLen, `nbStripesPerBlock, `secretLimit, `seed, `extSecret, `data
      ensures acc == k.init && bufferedSize == 0 && nbStripesSoFar == 0 && totalLen == 0
      ensures this.seed == seed && useSeed == (seed != 0) && extSecret == secret
      ensures secretLimit == if secretSize >= STRIPE_LEN then secretSize - STRIPE_LEN else secretSize + TWO_64 - STRIPE_LEN
      ensures nbStripesPerBlock == secretLimit / SECRET_CONSUME_RATE
      ensures data == []
    {
      bufferedSize, nbStripesSoFar, totalLen := 0, 0, 0;
      acc := k.init;
      this.seed := seed;
      useSeed := seed != 0;
      extSecret := secret;
      // unsigned subtraction wraps
      secretLimit := if secretSize >= STRIPE_LEN then secretSize - STRIPE_LEN else secretSize + TWO_64 - STRIPE_LEN;
      nbStripesPerBlock := secretLimit / SECRET_CONSUME_RATE;
      data := [];
    }

    method Reset()
      requires Valid()
      modifies this
      ensures Hashing() && data == [] && key == Default
    {
      hide Streaming;
      ResetInternal(0, Some(k.defaultSecret), SECRET_DEFAULT_SIZE);
      key := Default;
      StreamingNothing(k, k.defaultSecret, buffer[..]);
    }

    /** A missing or short secret is reported, after the state has been overwritten; the
        state still accepts further resets. */
    method ResetWithSecret(secret: Option<Bytes>, secretSize: nat) returns (r: Status)
      requires Valid() && secretSize < TWO_64
      requires secret.Some? ==> |secret.value| == secretSize
      modifies this
      ensures Valid()
      ensures r == Ok <==> secret.Some? && secretSize >= SECRET_SIZE_MIN
      ensures r == Ok ==> Hashing() && data == [] && key == WithSecret(secret.value)
    {
      hide Streaming;
      ResetInternal(0, secret, secretSize);
      if secret == None { return Error; }
      if secretSize < SECRET_SIZE_MIN { return Error; }
      key := WithSecret(secret.value);
      StreamingNothing(k, secret.value, buffer[..]);
      return Ok;
    }

    /** The derived secret is rebuilt only when the seed changed or an external secret was
        in use; whatever resets came before, the one in force belongs to `seed`. */
    method ResetWithSeed(seed: Word)
      requires Valid()
      modifies this
      ensures Hashing() && data == [] && key == WithSeed(seed)
    {
      hide Streaming;
      if seed == 0 {
        Reset();
        key := WithSeed(seed);
        return;
      }
      if seed != this.seed || extSecret != None {
        customSecret := k.derive(seed);
      }
      ResetInternal(seed, None, SECRET_DEFAULT_SIZE);
      key := WithSeed(seed);
      StreamingNothing(k, customSecret, buffer[..]);
    }

    method ResetWithSecretAndSeed(secret: Option<Bytes>, secretSize: nat, seed: Word) returns (r: Status)
      requires Valid() && secretSize < TWO_64
      requires secret.Some? ==> |secret.value| == secretSize
      modifies this
      ensures Valid()
      ensures r == Ok <==> secret.Some? && secretSize >= SECRET_SIZE_MIN
      ensures r == Ok ==> Hashing() && data == [] && key == WithSecretAndSeed(secret.value, seed)
      ensures r == Error ==> unchanged(this)
    {
      hide Streaming;
      if secret == None { return Error; }
      if secretSize < SECRET_SIZE_MIN { return Error; }
      ResetInternal(seed, secret, secretSize);
      useSeed := true;
      key := WithSecretAndSeed(secret.value, seed);
      StreamingNothing(k, secret.value, buffer[..]);
      return Ok;
    }

    method Update(input: Bytes)
      requires Hashing()
      modifies this, buffer
      ensures Hashing() && data == old(data) + input && key == old(key)
    {
      hide Streaming, Wrap64;
      Wrap64Add(|data|, |input|);
      ghost var before := data;
      data := data + input;
      totalLen := Wrap64(totalLen + |input|);
      acc, nbStripesSoFar, bufferedSize :=
        Absorb(k, ActiveSecret(), before, acc, nbStripesSoFar, buffer, bufferedSize, input);
    }

    /** Digesting leaves the state as it is, so that more input may follow. */
    method Digest() returns (h: Word)
      requires Hashing() && |data| < TWO_64
      ensures h == OneShot(k, key, data)
    {
      hide LongHash, Streaming;
      if totalLen > MIDSIZE_MAX {
        var a := DigestLong(k, ActiveSecret(), data, acc, nbStripesSoFar, buffer, bufferedSize);
        return k.merge(a, MergeSecret(ActiveSecret()), totalLen);
      }
      ShortInputIsBuffered(k, ActiveSecret(), data, acc, nbStripesSoFar, buffer[..], bufferedSize);
      assert buffer[..totalLen] == buffer[..][..totalLen] == data;
      if useSeed {
        return k.short(buffer[..totalLen], k.defaultSecret, seed);
      }
      return k.short(buffer[..totalLen], ActiveSecret(), 0);
    }
  }

  // ----- Every way of cutting the input

  /** Feeds chunks to a state after any reset, digesting after each one: every digest is the
      one-shot hash of what was fed so far. */
  method HashInChunks<A>(s: State<A>, chunks: seq<Bytes>) returns (digests: seq<Word>)
    requires s.Hashing() && s.data == [] && |Concat(chunks)| < TWO_64
    modifies s, s.buffer
    ensures |digests| == |chunks| + 1
    ensures forall i :: 0 <= i <= |chunks| ==> digests[i] == OneShot(s.k, old(s.key), Concat(chunks[..i]))
  {
    hide Streaming, LongHash;
    var h := s.Digest();
    digests := [h];
    for n := 0 to |chunks|
      invariant s.Hashing() && s.key == old(s.key)
      invariant s.data == Concat(chunks[..n])
      invariant |digests| == n + 1
      invariant forall i :: 0 <= i <= n ==> digests[i] == OneShot(s.k, s.key, Concat(chunks[..i]))
    {
      s.Update(chunks[n]);
      assert chunks[..n + 1][..n] == chunks[..n];
      ConcatPrefix(chunks, n + 1);
      h := s.Digest();
      digests := digests + [h];
    }
  }

  /** For every keying and every way of cutting the input, streaming gives the one-shot hash. */
  method StreamingHash<A>(k: Kernel<A>, key: Keying, chunks: seq<Bytes>) returns (h: Word)
    requires k.Valid() && |Concat(chunks)| < TWO_64
    requires key.WithSecret? || key.WithSecretAndSeed? ==> |key.secret| < TWO_64
    ensures h == OneShot(k, key, Concat(chunks))
  {
    hide Streaming, LongHash;
    var s := new State(k, k.defaultSecret);
    var status := Ok;
    match key {
      case Default => s.Reset();
      case WithSecret(secret) => status := s.ResetWithSecret(Some(secret), |secret|);
      case WithSeed(seed) => s.ResetWithSeed(seed);
      case WithSecretAndSeed(secret, seed) => status := s.ResetWithSecretAndSeed(Some(secret), |secret|, seed);
    }
    var digests := HashInChunks(s, chunks);
    assert chunks[..|chunks|] == chunks;
    h := digests[|chunks|];
  }

  // ----- Every sequence of calls

  /** The calls on a state; resets with a secret give its size too, as it may be missing. */
  datatype Call =
    | DoReset
    | DoResetWithSecret(secret: Option<Bytes>, size: nat)
    | DoResetWithSeed(seed: Word)
    | DoResetWithSecretAndSeed(secret: Option<Bytes>, size: nat, seed: Word)
    | DoUpdate(input: Bytes)
    | DoDigest
  {
    /** What the header asks of a caller: a secret has the size given for it. */
    ghost predicate Valid() {
      DoResetWithSecret? || DoResetWithSecretAndSeed? ==> size < TWO_64 && (secret.Some? ==> |secret.value| == size)
    }
  }

  datatype Answer = Accepted | Refused | Hash(h: Word)

  /** What the calls mean: nothing to hash yet, or input under a keying. Feeding or digesting
      without a reset in force, or digesting 2^64 bytes or more, is not defined. */
  datatype Plain =
    | Undefined
    | Idle(answers: seq<Answer>)
    | Fed(key: Keying, data: Bytes, answers: seq<Answer>)

  ghost function After<A(!new)>(k: Kernel<A>, s: Plain, call: Call): (r: Plain)
    requires k.Valid()
  {
    if s == Undefined then Undefined else
    match call
    case DoReset => Fed(Default, [], s.answers + [Accepted])
    case DoResetWithSeed(seed) => Fed(WithSeed(seed), [], s.answers + [Accepted])
    case DoResetWithSecret(secret, _) =>
      if secret.Some? && |secret.value| >= SECRET_SIZE_MIN then Fed(WithSecret(secret.value), [], s.answers + [Accepted])
      else Idle(s.answers + [Refused])
    case DoResetWithSecretAndSeed(secret, _, seed) =>
      if secret.Some? && |secret.value| >= SECRET_SIZE_MIN then Fed(WithSecretAndSeed(secret.value, seed), [], s.answers + [Accepted])
      else s.(answers := s.answers + [Refused])
    case DoUpdate(input) =>
      if s.Fed? then s.(data := s.data + input, answers := s.answers + [Accepted]) else Undefined
    case DoDigest =>
      if s.Fed? && |s.data| < TWO_64 then s.(answers := s.answers + [Hash(OneShot(k, s.key, s.data))]) else Undefined
  }

  ghost function AfterAll<A(!new)>(k: Kernel<A>, calls: seq<Call>): (r: Plain)
    requires k.Valid()
  {
    if calls == [] then Idle([]) else After(k, AfterAll(k, calls[..|calls| - 1]), calls[|calls| - 1])
  }

  lemma {:induction false} UndefinedIsFinal<A(!new)>(k: Kernel<A>, calls: seq<Call>, n: nat)
    requires k.Valid() && n <= |calls| && AfterAll(k, calls[..n]) == Undefined
    ensures AfterAll(k, calls) == Undefined
  {
    if n < |calls| {
      assert calls[..|calls| - 1][..n] == calls[..n];
      UndefinedIsFinal(k, calls[..|calls| - 1], n);
    } else {
      assert calls[..n] == calls;
    }
  }

  ghost predicate Describes<A(!new)>(s: State<A>, plain: Plain)
    reads s, s.buffer
  {
    match plain
    case Undefined => false
    case Idle(_) => s.Valid()
    case Fed(key, data, _) => s.Hashing() && s.key == key && s.data == data
  }

  lemma DescribedIsValid<A(!new)>(s: State<A>, plain: Plain)
    requires Describes(s, plain)
    ensures s.Valid()
  {
  }

  method ApplyReset<A(!new)>(s: State<A>, call: Call, ghost plain: Plain) returns (answer: Answer)
    requires Describes(s, plain) && call.Valid() && !call.DoUpdate? && !call.DoDigest?
    modifies s
    ensures var next := After(s.k, plain, call);
            && Describes(s, next) && next.answers == plain.answers + [answer]
            && (next.Fed? <==> answer == Accepted || (plain.Fed? && call.DoResetWithSecretAndSeed?))
            && (next.Fed? ==> next.data == if answer == Accepted then [] else plain.data)
  {
    DescribedIsValid(s, plain);
    hide State.Hashing;
    var status := Ok;
    match call {
      case DoReset => s.Reset();
      case DoResetWithSecret(secret, size) => status := s.ResetWithSecret(secret, size);
      case DoResetWithSeed(seed) => s.ResetWithSeed(seed);
      case DoResetWithSecretAndSeed(secret, size, seed) => status := s.ResetWithSecretAndSeed(secret, size, seed);
    }
    answer := if status == Ok then Accepted else Refused;
  }

  /** Any calls on a new state, refused resets among them: every answer is as the plain
      description says, in particular every digest is the one-shot hash of what was fed in
      since the last reset in force. */
  method Run<A(!new)>(k: Kernel<A>, garbage: Bytes, calls: seq<Call>) returns (defined: bool, answers: seq<Answer>)
    requires k.Valid() && |garbage| == SECRET_DEFAULT_SIZE
    requires forall i :: 0 <= i < |calls| ==> calls[i].Valid()
    ensures defined <==> AfterAll(k, calls) != Undefined
    ensures defined ==> answers == AfterAll(k, calls).answers
  {
    hide State.Hashing, State.Valid, OneShot, Kernel.Valid;
    var s := new State(k, garbage);
    answers := [];
    var ready, fed := false, 0;
    for n := 0 to |calls|
      invariant fresh(s) && fresh(s.buffer) && s.k == k && Describes(s, AfterAll(k, calls[..n]))
      invariant answers == AfterAll(k, calls[..n]).answers && ready == AfterAll(k, calls[..n]).Fed?
      invariant ready ==> fed == |AfterAll(k, calls[..n]).data|
    {
      ghost var plain := AfterAll(k, calls[..n]);
      assert calls[..n + 1][..n] == calls[..n];
      var answer;
      if calls[n].DoUpdate? || calls[n].DoDigest? {
        if !ready || (calls[n].DoDigest? && fed >= TWO_64) {
          UndefinedIsFinal(k, calls, n + 1);
          return false, answers;
        }
        if calls[n].DoUpdate? {
          s.Update(calls[n].input);
          fed, answer := fed + |calls[n].input|, Accepted;
        } else {
          var h := s.Digest();
          answer := Hash(h);
        }
      } else {
        answer := ApplyReset(s, calls[n], plain);
        ready, fed := answer == Accepted || (ready && calls[n].DoResetWithSecretAndSeed?), if answer == Accepted then 0 else fed;
      }
      answers := answers + [answer];
    }
    assert calls[..|calls|] == calls;
    defined := true;
  }
}
