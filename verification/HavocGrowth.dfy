/** How long an altered number can get: what decides whether the operator on decimal numbers
    leaves its buffers. */
module HavocGrowth {
  import opened Basics
  import opened HavocNumbers

  function Max(a: nat, b: nat): (r: nat) { if a < b then b else a }

  /** The characters that are kept of a printed number. */
  function Shown(r: int): (n: nat)
    ensures 1 <= n <= 7
  {
    |Kept(Printed(r))|
  }

  lemma ShownAtMost(r: int, k: nat)
    requires 1 <= k <= 6
    ensures Shown(r) <= k <==> -(Pow10(k - 1) as int) < r < Pow10(k)
  {
    if r >= 0 {
      DigitsLength(r, k);
    } else if k > 1 {
      DigitsLength(-r, k - 1);
    }
  }

  lemma Powers()
    ensures Pow10(0) == 1 && Pow10(1) == 10 && Pow10(2) == 100 && Pow10(3) == 1000
    ensures Pow10(4) == 10_000 && Pow10(5) == 100_000 && Pow10(6) == 1_000_000
  {
  }

  lemma DigitsMonotone(a: nat, b: nat)
    requires a <= b
    ensures |Digits(a)| <= |Digits(b)|
  {
    DigitsLength(a, |Digits(b)|);
    DigitsLength(b, |Digits(b)|);
  }

  /** Between two numbers none is longer than both. */
  lemma ShownBetween(lo: int, r: int, hi: int)
    requires lo <= r <= hi
    ensures Shown(r) <= Max(Shown(lo), Shown(hi))
  {
    if r >= 0 { DigitsMonotone(r, hi); } else { DigitsMonotone(-r, -lo); }
  }

  /** The most that can be drawn in place of a number. */
  function LargestDraw(v: int): (r: nat) {
    if CanScale(v) then v * 10 - 1 else 255
  }

  /** The longest that a number can get: one of five alterations attains it. */
  function Longest(v: int): (n: nat)
    ensures n <= 7
  {
    Max(Max(Shown(Moved(v, -255)), Shown(Moved(v, 255))),
        Max(Max(Shown(Signed(v * 2)), Shown(-v - 1)), Shown(LargestDraw(v))))
  }

  lemma LongestIsReached(v: int) returns (r: int)
    ensures Altered(v, r) && Shown(r) == Longest(v)
  {
    hide Shown;
    if Shown(Moved(v, -255)) == Longest(v) {
      r := Moved(v, -255);
    } else if Shown(Moved(v, 255)) == Longest(v) {
      r := Moved(v, 255);
    } else if Shown(Signed(v * 2)) == Longest(v) {
      r := Signed(v * 2);
    } else if Shown(-v - 1) == Longest(v) {
      r := -v - 1;
    } else {
      r := LargestDraw(v);
    }
  }

  /** Far from zero some alteration fills all seven characters, whether it wraps around or not. */
  lemma FarIsLong(v: int)
    requires -TWO_63 <= v < TWO_63 && (v >= 1_000_000 || v <= -100_000)
    ensures Longest(v) == 7
  {
    Powers();
    ShownAtMost(Moved(v, if v > 0 then 255 else -255), 6);
  }

  lemma ShownZero()
    ensures Shown(0) == 1
  {
  }

  /** Near zero nothing wraps around. */
  lemma NearAlterations(v: int, r: int)
    requires -100_000 < v < 1_000_000 && Altered(v, r)
    ensures v - 255 <= r <= v + 255 || r == v * 2 || r == -v - 1 || 0 <= r <= LargestDraw(v) || r == Half(v)
    ensures Moved(v, -255) == v - 255 && Moved(v, 255) == v + 255 && Signed(v * 2) == v * 2
  {
    if d :| -256 < d < 256 && r == Moved(v, d) {
      assert r == v + d;
    }
  }

  lemma HalfIsNotLonger(v: int)
    ensures Shown(Half(v)) <= Max(Shown(v - 255), Shown(v + 255))
  {
    hide Shown;
    ShownZero();
    ShownBetween(v - 255, v, v + 255);
    ShownBetween(if v < 0 then v else 0, Half(v), if v < 0 then 0 else v);
  }

  lemma LongestIsLongest(v: int, r: int)
    requires -TWO_63 <= v < TWO_63 && Altered(v, r)
    ensures Shown(r) <= Longest(v)
  {
    if v >= 1_000_000 || v <= -100_000 {
      FarIsLong(v);
    } else {
      NearAlterations(v, r);
      hide Shown, Signed, Moved, Altered, CanScale, LargestDraw, Half;
      ShownZero();
      if v - 255 <= r <= v + 255 {
        ShownBetween(v - 255, r, v + 255);
      } else if 0 <= r <= LargestDraw(v) {
        ShownBetween(0, r, LargestDraw(v));
      } else if r == Half(v) {
        HalfIsNotLonger(v);
      }
    }
  }

  // ----- Numbers in the input

  lemma {:induction false} ParsedBound(s: seq<Byte>)
    requires Pow10(|s|) <= TWO_63 && forall i :: 0 <= i < |s| ==> IsDigit(s[i])
    ensures 0 <= Parsed(s) < Pow10(|s|)
  {
    if s != [] {
      ParsedBound(s[..|s| - 1]);
    }
  }

  /** No number gets longer by more than three characters. */
  lemma NumberGrowsByThree(s: seq<Byte>, at: nat, n: nat)
    requires IsNumberAt(s, at, n)
    ensures Longest(ValueAt(s, at, n)) <= n + 3
  {
    if n <= 3 {
      Powers();
      ParsedBound(s[at..at + n]);
      SmallNumbersGrowByThree(ValueAt(s, at, n), n);
    }
  }

  lemma SmallNumbersGrowByThree(v: int, n: nat)
    requires 1 <= n <= 3 && -(Pow10(n) as int) < v < Pow10(n)
    ensures Longest(v) <= n + 3
  {
    Powers();
    hide Shown, Signed, Pow10;
    ShownAtMost(Moved(v, -255), n + 3);
    ShownAtMost(Moved(v, 255), n + 3);
    ShownAtMost(Signed(v * 2), n + 3);
    ShownAtMost(-v - 1, n + 3);
    ShownAtMost(LargestDraw(v), n + 3);
  }

  /** Some number in the input could be replaced by one that `capacity` bytes do not hold. */
  predicate CanOutgrow(s: seq<Byte>, capacity: nat) {
    |s| >= 4 && exists at, n :: 0 <= at < |s| && 0 < n <= |s| - at && OutgrowsAt(s, at, n, capacity)
  }

  predicate OutgrowsAt(s: seq<Byte>, at: nat, n: nat, capacity: nat) {
    IsNumberAt(s, at, n) && |s| - n + Longest(ValueAt(s, at, n)) > capacity
  }
}
