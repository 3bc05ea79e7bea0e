/** Decimal numbers in the input, as the havoc operators on them find, alter and print them. */
module HavocNumbers {
  import opened Basics
  import opened Mutations
  import Bits

  const TWO_63 := 0x8000_0000_0000_0000

  predicate IsDigit(b: Byte) { 48 <= b <= 57 }

  /** Signed 64-bit arithmetic wraps around. */
  function Signed(v: int): (r: int)
    ensures -TWO_63 <= r < TWO_63
    ensures -TWO_63 <= v < TWO_63 ==> r == v
    ensures (r - v) % TWO_64 == 0
  {
    (v + TWO_63) % TWO_64 - TWO_63
  }

  // ----- Printing and reading

  function Digits(n: nat): (r: seq<Byte>)
    ensures r != [] && forall i :: 0 <= i < |r| ==> IsDigit(r[i])
  {
    if n < 10 then [48 + n] else Digits(n / 10) + [48 + n % 10]
  }

  function Printed(v: int): (r: seq<Byte>)
    ensures r != []
  {
    if v < 0 then [45] + Digits(-v) else Digits(v)
  }

  /** The number is printed into a buffer whose size is taken to be that of a pointer: eight
      bytes, the last of them for the end of the string. */
  function Kept(text: seq<Byte>): (r: seq<Byte>)
    ensures r <= text && |r| == if |text| > 7 then 7 else |text|
  {
    if |text| > 7 then text[..7] else text
  }

  /** The value of a run of digits, read from the left. */
  function Parsed(s: seq<Byte>): (v: int) {
    if s == [] then 0 else Signed(Parsed(s[..|s| - 1]) * 10 + s[|s| - 1] - 48)
  }

  lemma {:induction false} PrintedIsParsed(n: nat)
    requires n < TWO_63
    ensures Parsed(Digits(n)) == n
  {
    var d := Digits(n);
    if n < 10 {
      assert d[..0] == [];
    } else {
      PrintedIsParsed(n / 10);
      assert d[..|d| - 1] == Digits(n / 10);
    }
  }

  /** The digits are the characters that numbers below ten are printed as. */
  lemma DigitsAreDigits(b: Byte)
    ensures IsDigit(b) <==> exists n: nat :: n < 10 && Digits(n) == [b]
  {
    if IsDigit(b) { assert Digits(b - 48) == [b]; }
  }

  /** A negative number is printed as a minus sign and digits from which it is read back. */
  lemma NegativeIsRead(v: int)
    requires -TWO_63 < v < 0
    ensures Printed(v)[0] == 45 && ValueAt(Printed(v), 1, |Printed(v)| - 1) == v
  {
    var text := Printed(v);
    assert text[1..1 + (|text| - 1)] == Digits(-v);
    PrintedIsParsed(-v);
  }

  function Pow10(k: nat): (r: nat)
    ensures r > 0
  {
    if k == 0 then 1 else 10 * Pow10(k - 1)
  }

  lemma {:induction false} DigitsLength(n: nat, k: nat)
    requires k > 0
    ensures |Digits(n)| <= k <==> n < Pow10(k)
  {
    if n >= 10 && k > 1 {
      DigitsLength(n / 10, k - 1);
    } else if n < 10 && k > 1 {
      DigitsLength(n, k - 1);
    }
  }

  /** Exactly the numbers of up to seven characters are printed in full. */
  lemma PrintedInFull(v: int)
    ensures Kept(Printed(v)) == Printed(v) <==> -1_000_000 < v < 10_000_000
  {
    DigitsLength(if v < 0 then -v else v, 7);
    DigitsLength(if v < 0 then -v else v, 6);
    assert Pow10(7) == 10_000_000 && Pow10(6) == 1_000_000;
  }

  // ----- Numbers in the input

  /** Digits from `at` on, as far as they go. */
  predicate IsNumberAt(s: seq<Byte>, at: nat, n: nat) {
    && n > 0 && at + n <= |s| && (at + n < |s| ==> !IsDigit(s[at + n]))
    && forall i :: at <= i < at + n ==> IsDigit(s[i])
  }

  function ValueAt(s: seq<Byte>, at: nat, n: nat): (v: int)
    requires at + n <= |s|
  {
    var v := Parsed(s[at..at + n]);
    if at > 0 && s[at - 1] == 45 then Signed(-v) else v
  }

  ghost predicate HasDigit(s: seq<Byte>) {
    exists i :: 0 <= i < |s| && IsDigit(s[i])
  }

  /** Half, towards zero. */
  function Half(v: int): (r: int) {
    if v < 0 then -(-v / 2) else v / 2
  }

  /** A value from which ten times as many can be drawn. */
  predicate CanScale(v: int) { 0 < v < 0x1999_9999 }

  /** C's division by two. */
  lemma HalfIsTowardsZero(v: int)
    ensures if v >= 0 then 0 <= v - 2 * Half(v) <= 1 else -1 <= v - 2 * Half(v) <= 0
  {
  }

  /** Ten times the value, and of the next one too, fits 32 bits. */
  lemma ScalingFits32Bits(v: int)
    ensures CanScale(v) <==> v > 0 && (v + 1) * 10 < TWO_32
  {
  }

  function Moved(v: int, d: int): (r: int) { Signed(v + d) }

  /** The eight ways to alter a number. */
  ghost predicate Altered(v: int, r: int) {
    || r == Moved(v, 1) || r == Moved(v, -1) || r == Signed(v * 2) || r == Half(v) || r == -v - 1
    || (if CanScale(v) then 0 <= r < v * 10 else 0 <= r < 256)
    || exists d :: -256 < d < 256 && r == Moved(v, d)
  }

  method Alter(v: int) returns (r: int)
    ensures Altered(v, r)
  {
    var strat := RandBelow(8);
    if strat == 0 {
      r := Moved(v, 1);
    } else if strat == 1 {
      r := Moved(v, -1);
    } else if strat == 2 {
      r := Signed(v * 2);
    } else if strat == 3 {
      r := Half(v);
    } else if strat == 4 {
      if CanScale(v) {
        var word: nat :| word < TWO_64;
        r := word % (v * 10);
      } else {
        r := RandBelow(256);
      }
    } else if strat == 5 {
      var d := RandBelow(256);
      r := Moved(v, d);
    } else if strat == 6 {
      var d := RandBelow(256);
      r := Moved(v, -(d as int));
    } else {
      r := -v - 1;
    }
  }

  /** The first digit in a part of the input, or its end. */
  method FindDigit(buf: array<Byte>, from: nat, to: nat) returns (pos: nat)
    requires from <= to <= buf.Length
    ensures from <= pos <= to && (pos < to ==> IsDigit(buf[pos]))
    ensures forall i :: from <= i < pos ==> !IsDigit(buf[i])
  {
    pos := from;
    while pos < to && !IsDigit(buf[pos])
      invariant from <= pos <= to
      invariant forall i :: from <= i < pos ==> !IsDigit(buf[i])
    {
      pos := pos + 1;
    }
  }

  /** Looks for a digit from a random place on and then from the start: finds one if there is
      one, with the digits behind it. */
  method FindNumber(buf: array<Byte>, len: nat) returns (found: bool, at: nat, n: nat)
    requires 0 < len <= buf.Length && len < TWO_32
    ensures found <==> HasDigit(buf[..len])
    ensures found ==> IsNumberAt(buf[..len], at, n)
  {
    var off := RandBelow(len);
    at := FindDigit(buf, off, len);
    if at == len {
      at := FindDigit(buf, 0, off);
      if at == off { return false, 0, 0; }
    }
    assert IsDigit(buf[..len][at]);
    var end := at + 1;
    while end < len && IsDigit(buf[end])
      invariant at < end <= len
      invariant forall i :: at <= i < end ==> IsDigit(buf[i])
    {
      end := end + 1;
    }
    return true, at, end - at;
  }

  method ReadNumber(buf: array<Byte>, len: nat, at: nat, n: nat) returns (v: int)
    requires len <= buf.Length && at + n <= len && n > 0
    ensures v == ValueAt(buf[..len], at, n)
  {
    ghost var s := buf[..len][at..at + n];
    v := 0;
    for i := 0 to n
      invariant v == Parsed(s[..i])
    {
      v := Signed(v * 10 + buf[at + i] - 48);
      assert s[..i + 1][..i] == s[..i] && s[..i + 1][i] == buf[at + i];
    }
    assert s[..n] == s;
    if at > 0 && buf[at - 1] == 45 {
      v := Signed(-v);
    }
  }

  /** The last `n` digits of a number, or all of them. */
  function LastDigits(v: Word, n: nat): (r: seq<Byte>) {
    var d := Digits(v);
    if n > |d| then d else d[|d| - n..]
  }

  /** The remainder by a power of ten. */
  function LowDigits(v: nat, n: nat): (r: nat)
    ensures r < Pow10(n)
  {
    if n == 0 then 0 else LowDigits(v / 10, n - 1) * 10 + v % 10
  }

  lemma {:induction false} LowDigitsIsRemainder(v: nat, n: nat)
    ensures LowDigits(v, n) == v % Pow10(n)
  {
    if n > 0 {
      LowDigitsIsRemainder(v / 10, n - 1);
      LastDigitSplit(v, Pow10(n - 1));
    }
  }

  lemma {:induction false} TailIsLowDigits(v: nat, n: nat)
    requires n <= |Digits(v)| && Pow10(n) <= TWO_63
    ensures Parsed(Digits(v)[|Digits(v)| - n..]) == LowDigits(v, n)
  {
    var d := Digits(v);
    var tail := d[|d| - n..];
    if n > 0 {
      assert tail[n - 1] == d[|d| - 1] == 48 + v % 10;
      if n == 1 {
        assert tail[..0] == [] && LowDigits(v / 10, 0) == 0;
      } else {
        var d' := Digits(v / 10);
        assert d == d' + [48 + v % 10];
        assert tail[..n - 1] == d'[|d'| - (n - 1)..];
        TailIsLowDigits(v / 10, n - 1);
      }
      assert LowDigits(v, n) == LowDigits(v / 10, n - 1) * 10 + v % 10;
      hide Digits;
    }
  }

  lemma LastDigitSplit(v: nat, m: nat)
    requires m > 0
    ensures v % (10 * m) == v / 10 % m * 10 + v % 10
  {
    var q, r := v / 10 / m, v / 10 % m;
    assert v / 10 == m * q + r;
    Bits.Regroup(10, m, q, r);
    Bits.QuotientIs(v, 10 * m, q, r * 10 + v % 10);
  }

  /** The digits kept are the last ones: they stand for the remainder by a power of ten. */
  lemma LastDigitsAreRemainder(v: Word, n: nat)
    requires 0 < n <= 8
    ensures Parsed(LastDigits(v, n)) == v % Pow10(n) && |LastDigits(v, n)| <= n
  {
    hide Pow10, Digits, Parsed, LowDigits;
    Pow10UpTo8(n);
    if n > |Digits(v)| {
      DigitsLength(v, n);
      PrintedIsParsed(v);
      SmallRemainder(v, Pow10(n));
    } else {
      TailIsLowDigits(v, n);
      LowDigitsIsRemainder(v, n);
    }
  }

  lemma SmallRemainder(v: nat, m: nat)
    requires v < m
    ensures v % m == v
  {
    Bits.QuotientIs(v, m, 0, v);
  }

  lemma {:induction false} Pow10UpTo8(n: nat)
    requires n <= 8
    ensures Pow10(n) <= 100_000_000
    decreases 8 - n
  {
    if n < 8 {
      Pow10UpTo8(n + 1);
    } else {
      assert Pow10(4) == 10_000;
      assert Pow10(8) == 10_000 * Pow10(4);
    }
  }
}
