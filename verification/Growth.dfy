/** Rounding up to a power of two, and the buffer that grows by it. */
module Growth {
  import opened Basics
  import opened Bits

  // ----- Rounding up

  function Spread(x: nat, k: nat): (r: nat) { Or(x, Shr(x, k)) }

  /** The five spreading steps. */
  function Smear(x: nat): (r: nat) {
    Spread(Spread(Spread(Spread(Spread(x, 1), 2), 4), 8), 16)
  }

  function NextPow2(n: nat): (r: nat)
    requires n < TWO_64
  {
    (Smear((n - 1) % TWO_64) + 1) % TWO_64
  }

  /** Some bit is set among the `w` bits from bit `i` on. */
  ghost predicate Within(x: nat, i: nat, w: nat) {
    exists b: nat :: i <= b < i + w && Bit(x, b)
  }

  /** `y` has a bit set exactly where `x` has one at most `w` - 1 places higher. */
  ghost predicate SpreadOver(x: nat, y: nat, w: nat) {
    forall i: nat :: Bit(y, i) <==> Within(x, i, w)
  }

  lemma SpreadDoubles(x: nat, y: nat, w: nat)
    requires SpreadOver(x, y, w)
    ensures SpreadOver(x, Spread(y, w), 2 * w)
  {
    forall i: nat
      ensures Bit(Spread(y, w), i) <==> Within(x, i, 2 * w)
    {
      OrBit(y, Shr(y, w), i);
      ShrBit(y, w, i);
      WithinSplits(x, i, w);
    }
  }

  lemma WithinSplits(x: nat, i: nat, w: nat)
    ensures Within(x, i, 2 * w) <==> Within(x, i, w) || Within(x, i + w, w)
  {
  }

  /** The steps spread each bit over the 31 places below it. */
  lemma SmearSpreads(x: nat)
    ensures SpreadOver(x, Smear(x), 32)
  {
    hide Spread;
    assert SpreadOver(x, x, 1) by {
      forall i: nat
        ensures Bit(x, i) <==> Within(x, i, 1)
      {
        if Within(x, i, 1) {
          var b: nat :| i <= b < i + 1 && Bit(x, b);
          assert b == i;
        }
      }
    }
    hide SpreadOver;
    var a := Spread(x, 1);
    SpreadDoubles(x, x, 1);
    var b := Spread(a, 2);
    SpreadDoubles(x, a, 2);
    var c := Spread(b, 4);
    SpreadDoubles(x, b, 4);
    var d := Spread(c, 8);
    SpreadDoubles(x, c, 8);
    SpreadDoubles(x, d, 16);
  }

  lemma SpreadBound(x: nat, k: nat, n: nat)
    requires x < Pow2(n)
    ensures x <= Spread(x, k) < Pow2(n)
  {
    OrBound(x, Shr(x, k), n);
  }

  lemma SmearBound(x: nat, n: nat)
    requires x < Pow2(n)
    ensures x <= Smear(x) < Pow2(n)
  {
    hide Spread;
    var a := Spread(x, 1);
    SpreadBound(x, 1, n);
    var b := Spread(a, 2);
    SpreadBound(a, 2, n);
    var c := Spread(b, 4);
    SpreadBound(b, 4, n);
    var d := Spread(c, 8);
    SpreadBound(c, 8, n);
    SpreadBound(d, 16, n);
  }

  lemma {:induction false} OnesHaveAllBits(n: nat, i: nat)
    requires i < n
    ensures Bit(Pow2(n) - 1, i)
  {
    assert (Pow2(n) - 1) / 2 == Pow2(n - 1) - 1;
    if i > 0 { OnesHaveAllBits(n - 1, i - 1); }
  }

  ghost predicate AllBits(x: nat, n: nat) {
    forall i: nat :: i < n ==> Bit(x, i)
  }

  /** The number of n bits that are all set. */
  lemma {:induction false} AllBitsAreOnes(x: nat, n: nat)
    requires x < Pow2(n) && AllBits(x, n)
    ensures x == Pow2(n) - 1
  {
    if n > 0 {
      assert Bit(x, 0);
      forall i: nat | i < n - 1
        ensures Bit(x / 2, i)
      {
        assert Bit(x, i + 1);
      }
      AllBitsAreOnes(x / 2, n - 1);
    }
  }

  /** Below the highest bit there are 32 zeros in a row. */
  ghost predicate LongGap(x: nat) {
    exists i: nat :: i < Width(x) && !Within(x, i, 32)
  }

  lemma SmearFills(x: nat)
    ensures Smear(x) == Pow2(Width(x)) - 1 <==> !LongGap(x)
  {
    hide Smear, Within, Width, Bit, Pow2;
    var y, n := Smear(x), Width(x);
    SmearBound(x, n);
    SmearSpreads(x);
    if !LongGap(x) {
      assert AllBits(y, n);
      AllBitsAreOnes(y, n);
    } else {
      var i: nat :| i < n && !Within(x, i, 32);
      assert !Bit(y, i);
      OnesHaveAllBits(n, i);
    }
  }

  ghost function RoundUp(n: nat): (r: nat)
    requires n >= 1
  {
    Pow2(Width(n - 1))
  }

  /** The least power of two that is not below `n`. */
  lemma RoundUpIsLeast(n: nat, k: nat)
    requires n >= 1
    ensures n <= RoundUp(n)
    ensures n <= Pow2(k) ==> RoundUp(n) <= Pow2(k)
  {
    var w := Width(n - 1);
    if k < w { Pow2Monotone(k, w - 1); } else { Pow2Monotone(w, k); }
  }

  lemma {:induction false} WidthAtMost(x: nat, n: nat)
    requires x < Pow2(n)
    ensures Width(x) <= n
  {
    if x > 0 && n < Width(x) { Pow2Monotone(n, Width(x) - 1); }
  }

  lemma NextPow2Adds(n: nat)
    requires 1 <= n < TWO_64
    ensures var s := Smear(n - 1);
            n <= s + 1 <= RoundUp(n) <= TWO_64 && NextPow2(n) == if s + 1 == TWO_64 then 0 else s + 1
  {
    hide Pow2, Smear, Width;
    TwoTo64();
    var x := n - 1;
    WidthAtMost(x, 64);
    Pow2Monotone(Width(x), 64);
    SmearBound(x, Width(x));
  }

  /** The result is the least power of two, 0 standing for 2^64, exactly when the argument less
      one has no gap of 32 zeros; in every case it is 0 or large enough. */
  lemma NextPow2Rounds(n: nat)
    requires 1 <= n < TWO_64
    ensures NextPow2(n) == RoundUp(n) % TWO_64 <==> !LongGap(n - 1)
    ensures NextPow2(n) == 0 || NextPow2(n) >= n
  {
    hide Pow2, Smear, NextPow2, LongGap, Width;
    NextPow2Adds(n);
    SmearFills(n - 1);
  }

  lemma ShortNumbersHaveNoGap(x: nat)
    requires x < 0x1_0000_0000
    ensures !LongGap(x)
  {
    hide Pow2;
    TwoTo64();
    WidthAtMost(x, 32);
    if x > 0 {
      assert forall i: nat :: i < Width(x) ==> Within(x, i, 32);
    }
  }

  /** Arguments up to 2^32 are rounded up correctly. */
  lemma NextPow2UpTo32Bits(n: nat)
    requires 1 <= n <= 0x1_0000_0000
    ensures NextPow2(n) == RoundUp(n)
  {
    hide NextPow2, LongGap, Pow2, RoundUp;
    ShortNumbersHaveNoGap(n - 1);
    NextPow2Rounds(n);
    TwoTo64();
    RoundUpIsLeast(n, 32);
  }

  lemma {:induction false} Pow2HasOneBit(n: nat, i: nat)
    ensures Bit(Pow2(n), i) <==> i == n
  {
    if n == 0 && i > 0 {
      ZeroHasNoBits(i - 1);
    } else if n > 0 && i > 0 {
      Pow2HasOneBit(n - 1, i - 1);
    }
  }

  /** The first argument that is not: the shift by 32 places is missing. */
  lemma NextPow2Beyond32Bits()
    ensures NextPow2(0x1_0000_0001) != RoundUp(0x1_0000_0001) % TWO_64
  {
    TwoTo64();
    var x := Pow2(32);
    forall i: nat
      ensures Bit(x, i) <==> i == 32
    {
      Pow2HasOneBit(32, i);
    }
    assert Bit(x, 32);
    assert !Within(x, 0, 32);
    hide NextPow2, Pow2;
    assert LongGap(x);
    NextPow2Rounds(0x1_0000_0001);
  }

  /** The loop that doubles: the same rounding. */
  method NextP2(val: nat) returns (ret: nat)
    requires val <= TWO_64 / 2
    ensures ret == if val == 0 then 1 else RoundUp(val)
  {
    ret := 1;
    ghost var k := 0;
    while val > ret
      invariant ret == Pow2(k) && (k > 0 ==> Pow2(k - 1) < val)
      decreases val - ret
    {
      ret := ret * 2 % TWO_64;
      k := k + 1;
    }
    if val > 0 {
      RoundUpIs(val, k);
    }
  }

  lemma RoundUpIs(n: nat, k: nat)
    requires n >= 1 && n <= Pow2(k) && (k > 0 ==> Pow2(k - 1) < n)
    ensures RoundUp(n) == Pow2(k)
  {
    var w := Width(n - 1);
    WidthAtMost(n - 1, k);
    if w < k { Pow2Monotone(w, k - 1); }
  }

  // ----- The growing buffer

  const INITIAL_GROWTH_SIZE := 64
  /** The header in front of the buffer, which holds the complete size. */
  const HEADER := 8

  function Zeros(n: nat): (r: seq<Byte>) { seq(n, _ => 0) }

  /** The size to allocate for a request, header included. */
  function NextSize(needed: nat): (r: nat)
    requires needed < TWO_64
  {
    if needed < INITIAL_GROWTH_SIZE then INITIAL_GROWTH_SIZE
    else if NextPow2(needed) == 0 then needed
    else NextPow2(needed)
  }

  lemma NextSizeSuffices(needed: nat)
    requires needed < TWO_64
    ensures needed <= NextSize(needed) && INITIAL_GROWTH_SIZE <= NextSize(needed) < TWO_64
    ensures needed < 64 ==> NextSize(needed) == 64
  {
    hide Smear;
    if needed >= 1 {
      hide RoundUp, LongGap;
      NextPow2Rounds(needed);
    }
  }

  lemma NextSizeIsPow2(needed: nat)
    requires needed <= 0x1_0000_0000
    ensures IsPow2(NextSize(needed))
  {
    hide NextPow2;
    if needed < INITIAL_GROWTH_SIZE {
      assert Pow2(6) == INITIAL_GROWTH_SIZE;
    } else {
      NextPow2UpTo32Bits(needed);
      assert RoundUp(needed) == Pow2(Width(needed - 1));
    }
  }

  ghost predicate IsPow2(n: nat) {
    exists k :: n == Pow2(k)
  }

  /** A larger power of two is at least twice as large, so it pays for what was spent before. */
  lemma GrowthPays(spent: nat, was: nat, next: nat)
    requires was < next && IsPow2(next)
    requires if was == 0 then spent == 0 else spent < 2 * was && IsPow2(was)
    ensures spent + next < 2 * next
  {
    if was > 0 {
      var a: nat :| was == Pow2(a);
      var b: nat :| next == Pow2(b);
      if b <= a {
        Pow2Monotone(b, a);
      } else {
        Pow2Monotone(a + 1, b);
      }
    }
  }

  class Buffer {
    var present: bool
    var completeSize: nat
    var data: seq<Byte>
    /** All that was allocated since the buffer was last null. */
    ghost var spent: nat

    ghost predicate Valid()
      reads this
    {
      if present then INITIAL_GROWTH_SIZE <= completeSize < TWO_64 && |data| == completeSize - HEADER
      else completeSize == 0 && data == [] && spent == 0
    }

    /** Growing in powers of two has cost less than twice the present size. */
    ghost predicate Amortised()
      reads this
    {
      present ==> spent < 2 * completeSize && IsPow2(completeSize)
    }

    constructor ()
      ensures Valid() && Amortised() && !present
    {
      present, completeSize, data, spent := false, 0, [], 0;
    }

    /** Makes room for `size` bytes; `granted` says whether the allocator finds the memory. */
    method Realloc(size: nat, granted: bool) returns (nonnull: bool)
      requires Valid() && size < TWO_64
      modifies this
      ensures Valid() && nonnull == present
      ensures old(completeSize) >= (size + HEADER) % TWO_64 || granted
              ==> old(data) <= data && forall i :: old(|data|) <= i < |data| ==> data[i] == 0
      ensures old(completeSize) >= (size + HEADER) % TWO_64 ==> data == old(data) && present == old(present)
      ensures nonnull ==> (size <= |data| <==> size + HEADER < TWO_64)
      ensures !old(present) && granted && size < 56 ==> |data| == 56
      ensures !(old(completeSize) >= (size + HEADER) % TWO_64) ==> nonnull == granted
      ensures old(Amortised()) && size + HEADER <= 0x1_0000_0000 ==> Amortised()
    {
      hide NextSize, IsPow2;
      var needed := (size + HEADER) % TWO_64;
      if completeSize >= needed {
        return present;
      }
      var next := NextSize(needed);
      NextSizeSuffices(needed);
      if !granted {
        present, completeSize, data, spent := false, 0, [], 0;
        return false;
      }
      if Amortised() && size + HEADER <= 0x1_0000_0000 {
        NextSizeIsPow2(needed);
        GrowthPays(spent, completeSize, next);
      }
      var kept, more := |data|, next - HEADER - |data|;
      assert |Zeros(more)| == more;
      var junk: seq<Byte> :| |junk| == more;
      data := data + junk;
      data := data[..kept] + Zeros(more);
      spent := spent + next;
      present, completeSize := true, next;
      return true;
    }
  }

  /** Any requests in a row, all of them granted: each is met, and in the end less than twice
      the buffer's size was allocated in total. */
  method GrowAll(sizes: seq<nat>) returns (buffer: Buffer)
    requires forall i :: 0 <= i < |sizes| ==> sizes[i] + HEADER <= 0x1_0000_0000
    ensures buffer.Valid() && forall i :: 0 <= i < |sizes| ==> sizes[i] <= |buffer.data|
    ensures sizes != [] ==> buffer.spent < 2 * buffer.completeSize
    ensures forall i :: 0 <= i < |buffer.data| ==> buffer.data[i] == 0
  {
    buffer := new Buffer();
    for n := 0 to |sizes|
      invariant fresh(buffer) && buffer.Valid() && buffer.Amortised() && (n > 0 ==> buffer.present)
      invariant forall i :: 0 <= i < n ==> sizes[i] <= |buffer.data|
      invariant forall i :: 0 <= i < |buffer.data| ==> buffer.data[i] == 0
    {
      var nonnull := buffer.Realloc(sizes[n], true);
    }
  }
}
