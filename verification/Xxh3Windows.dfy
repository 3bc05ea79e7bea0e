/** Which bytes meet which part of the secret in the XXH3 long hash: the whole schedule written
    out by positions, and the claim that no part of the secret is used in two roles. */
module Xxh3Windows {
  import opened Basics
  import opened HashInput
  import opened Xxh3Core
  import opened Xxh3Stream
  import Bits

  // ----- The schedule, as a record of what is mixed with what

  datatype Event = Mixed(stripe: Bytes, secret: Bytes) | Scrambled(secret: Bytes)

  /** A kernel that only notes down what it is given. */
  function Recorder(): (k: Kernel<seq<Event>>) {
    Kernel([],
           (log: seq<Event>, stripe: Bytes, secret: Bytes) => log + [Mixed(stripe, secret)],
           (log: seq<Event>, secret: Bytes) => log + [Scrambled(secret)],
           (log: seq<Event>, secret: Bytes, len: nat) => 0,
           (x: Bytes, secret: Bytes, seed: Word) => 0,
           seq(SECRET_DEFAULT_SIZE, _ => 0),
           (seed: Word) => seq(SECRET_DEFAULT_SIZE, _ => 0))
  }

  lemma RecorderRecords(log: seq<Event>, stripe: Bytes, secret: Bytes)
    ensures Recorder().accumulate(log, stripe, secret) == log + [Mixed(stripe, secret)]
    ensures Recorder().scramble(log, secret) == log + [Scrambled(secret)]
  {
  }

  /** Stripe after stripe: 64 bytes of input with 64 bytes of secret, which move on by eight from
      stripe to stripe; when the secret is used up, its last 64 bytes scramble and it starts over. */
  ghost function Schedule(secret: Secret, x: Bytes, n: nat): (log: seq<Event>)
    requires 64 * n <= |x|
    decreases n
  {
    if n == 0 then [] else
      var perBlock := (|secret| - 64) / 8;
      var at := 8 * ((n - 1) % perBlock);
      AtFits(secret, n - 1);
      Schedule(secret, x, n - 1) + [Mixed(x[64 * (n - 1)..64 * n], secret[at..at + 64])]
      + if n % perBlock == 0 then [Scrambled(secret[|secret| - 64..])] else []
  }

  lemma AtFits(secret: Secret, n: nat)
    ensures var perBlock := (|secret| - 64) / 8; 8 * (n % perBlock) + 64 <= |secret|
  {
    var perBlock := (|secret| - 64) / 8;
    assert n % perBlock < perBlock;
  }

  lemma {:induction false} AdvanceIsRemainder(perBlock: nat, n: nat)
    requires perBlock > 0
    ensures Advance(perBlock, 0, n) == n % perBlock
  {
    if n == 0 {
      ZeroRemainder(perBlock);
    } else {
      AdvanceIsRemainder(perBlock, n - 1);
      var before := (n - 1) % perBlock;
      assert Advance(perBlock, 0, n) == if before + 1 == perBlock then 0 else before + 1;
      hide Advance;
      NextRemainder(n - 1, perBlock);
    }
  }

  lemma ZeroRemainder(m: nat)
    requires m > 0
    ensures 0 % m == 0
  {
    Bits.QuotientIs(0, m, 0, 0);
  }

  lemma NextRemainder(n: nat, m: nat)
    requires m > 0
    ensures (n + 1) % m == if n % m + 1 == m then 0 else n % m + 1
  {
    var q, r := n / m, n % m;
    assert n == m * q + r;
    if r + 1 == m {
      assert n + 1 == m * (q + 1);
      Bits.QuotientIs(n + 1, m, q + 1, 0);
    } else {
      Bits.QuotientIs(n + 1, m, q, r + 1);
    }
  }

  /** Consuming stripes follows the schedule. */
  lemma {:induction false} ConsumeFollowsSchedule(secret: Secret, x: Bytes, n: nat)
    requires 64 * n <= |x|
    ensures Consume(Recorder(), secret, [], 0, x, n) == Schedule(secret, x, n)
  {
    if n > 0 {
      ConsumeFollowsSchedule(secret, x, n - 1);
      ScheduleStep(secret, x, n);
      ConsumeStep(secret, x, n);
    }
  }

  /** One stripe more, as consumed. */
  lemma ConsumeStep(secret: Secret, x: Bytes, n: nat)
    requires 0 < n && 64 * n <= |x|
    ensures var perBlock := StripesPerBlock(secret);
            Consume(Recorder(), secret, [], 0, x, n)
            == Consume(Recorder(), secret, [], 0, x, n - 1) + [Mixed(Stripe(x, n - 1), SecretAt(secret, (n - 1) % perBlock))]
               + if (n - 1) % perBlock + 1 == perBlock then [Scrambled(ScrambleSecret(secret))] else []
  {
    var perBlock, log := StripesPerBlock(secret), Consume(Recorder(), secret, [], 0, x, n - 1);
    AdvanceIsRemainder(perBlock, n - 1);
    var stripe, part := Stripe(x, n - 1), SecretAt(secret, (n - 1) % perBlock);
    RecorderRecords(log, stripe, part);
    RecorderRecords(log + [Mixed(stripe, part)], [], ScrambleSecret(secret));
    hide Recorder, Advance, Stripe, SecretAt, ScrambleSecret, StripesPerBlock;
  }

  /** One stripe more, as scheduled. */
  lemma ScheduleStep(secret: Secret, x: Bytes, n: nat)
    requires 0 < n && 64 * n <= |x|
    ensures var perBlock := StripesPerBlock(secret);
            Schedule(secret, x, n)
            == Schedule(secret, x, n - 1) + [Mixed(Stripe(x, n - 1), SecretAt(secret, (n - 1) % perBlock))]
               + if (n - 1) % perBlock + 1 == perBlock then [Scrambled(ScrambleSecret(secret))] else []
  {
    NextRemainder(n - 1, StripesPerBlock(secret));
  }

  lemma LastStripeByPositions<A>(k: Kernel<A>, secret: Secret, acc: A, stripe: Bytes)
    ensures LastStripe(k, secret, acc, stripe) == k.accumulate(acc, stripe, secret[|secret| - 71..|secret| - 7])
    ensures MergeSecret(secret) == secret[11..75]
  {
  }

  /** The last stripe and the merge, by positions. */
  lemma LongHashByPositions<A>(k: Kernel<A>, secret: Secret, x: Bytes)
    requires |x| >= 64
    ensures LongHash(k, secret, x)
            == k.merge(k.accumulate(Consume(k, secret, k.init, 0, x, (|x| - 1) / 64), x[|x| - 64..], secret[|secret| - 71..|secret| - 7]),
                       secret[11..75], |x|)
  {
    hide Consume;
    var acc := Consume(k, secret, k.init, 0, x, (|x| - 1) / 64);
    LastStripeByPositions(k, secret, acc, x[|x| - 64..]);
    hide LastStripe;
  }

  /** The positions in a secret of 192 bytes, such as the default one: blocks of 16 stripes. */
  lemma WindowsOfDefaultSize(secret: Secret, pos: nat)
    requires |secret| == 192 && pos < 16
    ensures StripesPerBlock(secret) == 16 && SecretAt(secret, pos) == secret[8 * pos..8 * pos + 64]
    ensures ScrambleSecret(secret) == secret[128..192] && MergeSecret(secret) == secret[11..75]
    ensures LastStripe(Recorder(), secret, [], []) == [Mixed([], secret[121..185])]
  {
  }

  // ----- No part of the secret has two roles

  function Part(secret: Secret, i: nat): (r: Bytes)
    requires i + 64 <= |secret|
  {
    secret[i..i + 64]
  }

  /** The secret has no two equal parts of 64 bytes. */
  ghost predicate PartsDiffer(secret: Secret) {
    forall i: nat, j: nat :: i < j && j + 64 <= |secret| ==> Part(secret, i) != Part(secret, j)
  }

  /** The part for the last stripe. */
  function LastSecret(secret: Secret): (r: Bytes)
  {
    LastStripe(Recorder(), secret, [], [])[0].secret
  }

  lemma PartsInUse(secret: Secret, pos: nat)
    requires pos < StripesPerBlock(secret)
    ensures var n := |secret| - 64;
            && 8 * pos <= n - 8 && n >= 72
            && SecretAt(secret, pos) == Part(secret, 8 * pos) && ScrambleSecret(secret) == Part(secret, n)
            && LastSecret(secret) == Part(secret, n - 7) && MergeSecret(secret) == Part(secret, 11)
  {
  }

  /** The last stripe's part is none of those that stripes or scrambles use, and the merge's part
      is none of these. */
  lemma RolesDiffer(secret: Secret, pos: nat)
    requires PartsDiffer(secret) && pos < StripesPerBlock(secret)
    ensures LastSecret(secret) != SecretAt(secret, pos) && LastSecret(secret) != ScrambleSecret(secret)
    ensures MergeSecret(secret) != SecretAt(secret, pos) && MergeSecret(secret) != ScrambleSecret(secret)
    ensures MergeSecret(secret) != LastSecret(secret) && SecretAt(secret, pos) != ScrambleSecret(secret)
  {
    PartsInUse(secret, pos);
    hide Part, SecretAt, ScrambleSecret, LastSecret, MergeSecret;
    assert 8 * pos != 11;
  }

  // ----- Where the long hash begins

  /** Up to 240 bytes the short hash is used, with the secret and seed of its keying; beyond, the
      long one. */
  lemma ShortUpTo240<A>(k: Kernel<A>, secret: Secret, seed: Word, x: Bytes)
    requires k.Valid()
    ensures |x| <= 240 ==> OneShot(k, Default, x) == k.short(x, k.defaultSecret, 0)
    ensures |x| <= 240 ==> OneShot(k, WithSecret(secret), x) == k.short(x, secret, 0)
    ensures |x| <= 240 ==> OneShot(k, WithSeed(seed), x) == OneShot(k, WithSecretAndSeed(secret, seed), x) == k.short(x, k.defaultSecret, seed)
    ensures |x| > 240 ==> OneShot(k, Default, x) == OneShot(k, WithSeed(0), x) == LongHash(k, k.defaultSecret, x)
    ensures |x| > 240 ==> OneShot(k, WithSecret(secret), x) == OneShot(k, WithSecretAndSeed(secret, seed), x) == LongHash(k, secret, x)
    ensures |x| > 240 && seed != 0 ==> OneShot(k, WithSeed(seed), x) == LongHash(k, k.derive(seed), x)
  {
  }

  /** Secrets of 136 bytes or more are accepted. */
  lemma SecretsFrom136<A(!new)>(k: Kernel<A>, secret: Bytes, seed: Word)
    requires k.Valid()
    ensures After(k, Idle([]), DoResetWithSecret(Some(secret), |secret|)).Fed? <==> |secret| >= 136
    ensures After(k, Idle([]), DoResetWithSecretAndSeed(Some(secret), |secret|, seed)).Fed? <==> |secret| >= 136
  {
  }
}
