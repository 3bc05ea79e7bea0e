/** Unsigned machine words as naturals: powers of two, bits, bitwise or and xor. */
module Bits {
  import opened Basics

  function Pow2(n: nat): (r: nat)
    ensures r >= 1
  {
    if n == 0 then 1 else 2 * Pow2(n - 1)
  }

  lemma {:induction false} Pow2Monotone(a: nat, b: nat)
    requires a <= b
    ensures Pow2(a) <= Pow2(b)
  {
    if a < b { Pow2Monotone(a, b - 1); }
  }

  lemma {:induction false} Pow2Doubles(n: nat)
    ensures Pow2(2 * n) == Pow2(n) * Pow2(n)
  {
    if n > 0 {
      Pow2Doubles(n - 1);
      assert Pow2(2 * n) == 4 * Pow2(2 * (n - 1));
    }
  }

  lemma Pow2Square(n: nat, m: nat, p: nat)
    requires m == 2 * n && Pow2(n) == p
    ensures Pow2(m) == p * p
  {
    Pow2Doubles(n);
  }

  lemma TwoTo64()
    ensures Pow2(64) == TWO_64 && Pow2(32) == 0x1_0000_0000
  {
    assert Pow2(4) == 0x10;
    hide Pow2;
    Pow2Square(4, 8, 0x10);
    Pow2Square(8, 16, 0x100);
    Pow2Square(16, 32, 0x1_0000);
    Pow2Square(32, 64, 0x1_0000_0000);
  }

  lemma {:induction false} Pow2Add(a: nat, b: nat)
    ensures Pow2(a + b) == Pow2(a) * Pow2(b)
  {
    if a > 0 {
      Pow2Add(a - 1, b);
      assert Pow2(a - 1 + b) == Pow2(a - 1) * Pow2(b);
    }
  }

  /** C's `|`, bit by bit. */
  function Or(a: nat, b: nat): (r: nat)
    decreases a + b
  {
    if a == 0 then b else if b == 0 then a
    else 2 * Or(a / 2, b / 2) + (if a % 2 == 1 || b % 2 == 1 then 1 else 0)
  }

  /** C's `^`, bit by bit. */
  function Xor(a: nat, b: nat): (r: nat)
    decreases a + b
  {
    if a == 0 then b else if b == 0 then a
    else 2 * Xor(a / 2, b / 2) + (if a % 2 != b % 2 then 1 else 0)
  }

  lemma {:induction false} XorBound(a: nat, b: nat, n: nat)
    requires a < Pow2(n) && b < Pow2(n)
    ensures Xor(a, b) < Pow2(n)
  {
    if a != 0 && b != 0 && n > 0 { XorBound(a / 2, b / 2, n - 1); }
  }

  lemma {:induction false} XorBit(a: nat, b: nat, i: nat)
    ensures Bit(Xor(a, b), i) <==> Bit(a, i) != Bit(b, i)
  {
    if a == 0 || b == 0 {
      ZeroHasNoBits(i);
    } else {
      var r := Xor(a, b);
      assert r / 2 == Xor(a / 2, b / 2) && (r % 2 == 1 <==> a % 2 != b % 2);
      if i > 0 { XorBit(a / 2, b / 2, i - 1); }
    }
  }

  /** Xor with anything but zero changes a number. */
  lemma {:induction false} XorChanges(a: nat, b: nat)
    requires b != 0
    ensures Xor(a, b) != a
    decreases a
  {
    if a != 0 {
      var r := Xor(a, b);
      assert r / 2 == Xor(a / 2, b / 2) && (r % 2 == a % 2 <==> b % 2 == 0);
      if b % 2 == 0 { XorChanges(a / 2, b / 2); }
    }
  }

  /** Xor with all ones is subtracting from them. */
  lemma {:induction false} XorOnes(a: nat, n: nat)
    requires a < Pow2(n)
    ensures Xor(a, Pow2(n) - 1) == Pow2(n) - 1 - a
  {
    if n > 0 && a != 0 {
      XorOnes(a / 2, n - 1);
      assert (Pow2(n) - 1) / 2 == Pow2(n - 1) - 1 && (Pow2(n) - 1) % 2 == 1;
    }
  }

  /** Bit `i` of a number. */
  ghost predicate Bit(x: nat, i: nat) {
    if i == 0 then x % 2 == 1 else Bit(x / 2, i - 1)
  }

  /** C's `>>`, one place at a time. */
  function Shr(x: nat, k: nat): (r: nat)
    ensures r <= x
    ensures k == 0 ==> r == x
  {
    if k == 0 then x else Shr(x / 2, k - 1)
  }

  lemma {:induction false} ShrIsDivision(x: nat, k: nat)
    ensures Shr(x, k) == x / Pow2(k)
  {
    if k > 0 {
      ShrIsDivision(x / 2, k - 1);
      DivideTwice(x, 2, Pow2(k - 1));
    }
  }

  lemma DivideTwice(x: nat, a: nat, b: nat)
    requires a > 0 && b > 0
    ensures a * b > 0 && x / a / b == x / (a * b)
  {
    assert a * b > 0 by { Positive(a, b); }
    var q, r := x / a / b, x / a % b;
    var s := x % a;
    assert x == a * (x / a) + s;
    assert x / a == b * q + r;
    Regroup(a, b, q, r);
    assert x == (a * b) * q + (a * r + s);
    Below(a, b, r, s);
    QuotientIs(x, a * b, q, a * r + s);
  }

  lemma Positive(a: nat, b: nat)
    requires a > 0 && b > 0
    ensures a * b > 0
  {
  }

  lemma Regroup(a: nat, b: nat, q: nat, r: nat)
    ensures a * (b * q + r) == (a * b) * q + a * r
  {
  }

  lemma Below(a: nat, b: nat, r: nat, s: nat)
    requires r < b && s < a
    ensures a * r + s < a * b
  {
    assert a * (r + 1) <= a * b;
  }

  lemma {:induction false} NextMultiple(d: nat, q: int, q': int)
    requires q < q'
    ensures d * q + d <= d * q'
    decreases q' - q
  {
    if q + 1 < q' { NextMultiple(d, q, q' - 1); }
    assert d * q' == d * (q' - 1) + d;
  }

  /** Division with remainder has one answer. */
  lemma QuotientIs(x: int, d: nat, q: int, r: nat)
    requires d > 0 && x == d * q + r && r < d
    ensures x / d == q && x % d == r
  {
    var q' := x / d;
    assert x == d * q' + x % d;
    if q < q' { NextMultiple(d, q, q'); }
    if q' < q { NextMultiple(d, q', q); }
  }

  lemma QuotientBelow(x: nat, p: nat, c: nat)
    requires x < p * c && c > 0
    ensures x / c < p
  {
    assert c * (x / c) <= x;
    if p < x / c { NextMultiple(c, p, x / c); }
  }

  lemma {:induction false} OrBit(a: nat, b: nat, i: nat)
    ensures Bit(Or(a, b), i) <==> Bit(a, i) || Bit(b, i)
  {
    if a == 0 || b == 0 {
      ZeroHasNoBits(i);
    } else {
      var r := Or(a, b);
      assert r / 2 == Or(a / 2, b / 2) && (r % 2 == 1 <==> a % 2 == 1 || b % 2 == 1);
      if i > 0 { OrBit(a / 2, b / 2, i - 1); }
    }
  }

  lemma {:induction false} ZeroHasNoBits(i: nat)
    ensures !Bit(0, i)
  {
    if i > 0 { ZeroHasNoBits(i - 1); }
  }

  lemma {:induction false} ShrBit(x: nat, k: nat, i: nat)
    ensures Bit(Shr(x, k), i) <==> Bit(x, i + k)
  {
    if k > 0 { ShrBit(x / 2, k - 1, i); }
  }

  lemma {:induction false} OrBound(a: nat, b: nat, n: nat)
    requires a < Pow2(n) && b < Pow2(n)
    ensures a <= Or(a, b) < Pow2(n)
  {
    if a != 0 && b != 0 && n > 0 { OrBound(a / 2, b / 2, n - 1); }
  }

  /** Numbers without a common bit: one a multiple of 2^n, the other below it. */
  lemma {:induction false} OrAdds(a: nat, b: nat, n: nat)
    requires b < Pow2(n)
    ensures Or(a * Pow2(n), b) == a * Pow2(n) + b
  {
    if n > 0 && a != 0 && b != 0 {
      var m := a * Pow2(n - 1);
      assert a * Pow2(n) == 2 * m;
      OrAdds(a, b / 2, n - 1);
      if b / 2 == 0 || m == 0 { assert Or(m, b / 2) == m + b / 2; }
    }
  }

  /** The number of bits up to the highest one. */
  ghost function Width(x: nat): (n: nat)
    ensures x < Pow2(n)
    ensures x > 0 ==> n > 0 && Pow2(n - 1) <= x && Bit(x, n - 1)
    ensures forall i :: i >= n ==> !Bit(x, i)
  {
    if x == 0 then (forall i: nat { ZeroHasNoBits(i); } 0) else Width(x / 2) + 1
  }
}
