/** Products and sums of 64-bit and 128-bit numbers out of 64-bit words. */
module WideArithmetic {
  import opened Basics
  import opened Bits

  datatype Wide = Wide(high: Word, low: Word)

  function Value(w: Wide): (r: nat)
  {
    w.high * TWO_64 + w.low
  }

  // ----- Sums with carry

  datatype Sum = Sum(carry: nat, word: Word)

  /** A sum that wrapped around is below its addend. */
  function AddFirst(base: Word, addend: Word): (r: Sum)
    ensures r.carry * TWO_64 + r.word == base + addend
  {
    var sum := (base + addend) % TWO_64;
    Sum(if sum < addend then 1 else 0, sum)
  }

  function AddNext(carry: nat, base: Word, addend: Word): (r: Sum)
    requires carry <= 1
    ensures r.carry <= 1 && r.carry * TWO_64 + r.word == base + addend + carry
  {
    var sum := (base + addend + carry) % TWO_64;
    Sum(if sum < addend || (carry != 0 && sum == addend) then 1 else 0, sum)
  }

  function AddLast(carry: nat, base: Word, addend: Word): (r: Word)
  {
    (base + addend + carry) % TWO_64
  }

  // ----- Products

  lemma Foil(ah: nat, al: nat, bh: nat, bl: nat, h: nat)
    ensures (ah * h + al) * (bh * h + bl) == al * bl + (ah * bl + al * bh) * h + ah * bh * (h * h)
  {
  }

  lemma Bounded(a: nat, b: nat, m: nat, n: nat)
    requires a < m && b < n
    ensures a * b < m * n
  {
    assert a * b <= a * n;
    assert a * n < m * n;
  }

  /** The four products of half words make up the whole product. */
  lemma HalfProducts(a: Word, b: Word)
    ensures a * b == (a % TWO_32) * (b % TWO_32) + ((a / TWO_32) * (b % TWO_32) + (a % TWO_32) * (b / TWO_32)) * TWO_32
                     + (a / TWO_32) * (b / TWO_32) * TWO_64
  {
    Foil(a / TWO_32, a % TWO_32, b / TWO_32, b % TWO_32, TWO_32);
    assert a == a / TWO_32 * TWO_32 + a % TWO_32 && b == b / TWO_32 * TWO_32 + b % TWO_32;
  }

  type Half = x: nat | x < TWO_32

  /** A product of half words fits a word, with room for two more half words. */
  function Mul32(a: Half, b: Half): (r: Word)
    ensures r <= (TWO_32 - 1) * (TWO_32 - 1)
  {
    LargestProduct(a, b);
    a * b
  }

  lemma LargestProduct(a: Half, b: Half)
    ensures a * b <= (TWO_32 - 1) * (TWO_32 - 1)
  {
    ProductAtMost(a, b, TWO_32 - 1);
  }

  lemma ProductAtMost(a: nat, b: nat, m: nat)
    requires a <= m && b <= m
    ensures a * b <= m * m
  {
    assert a * b <= a * m;
  }

  /** Adds a word into the middle of a double word. */
  function AddMiddle(w: Wide, x: Word): (r: Wide)
  {
    var s := AddFirst(w.low, x * TWO_32 % TWO_64);
    Wide(AddLast(s.carry, w.high, x / TWO_32), s.word)
  }

  /** The multiplication that tracks carries. */
  function MulWithCarry(a: Word, b: Word): (r: Wide)
  {
    var ll, lh := Mul32(a % TWO_32, b % TWO_32), Mul32(a / TWO_32, b % TWO_32);
    var hl, hh := Mul32(a % TWO_32, b / TWO_32), Mul32(a / TWO_32, b / TWO_32);
    AddMiddle(AddMiddle(Wide(hh, ll), lh), hl)
  }

  /** The multiplication without carries: the cross products are added up in one word. */
  function StackProducts(ll: Word, hl: Word, lh: Word, hh: Word): (r: Wide)
  {
    var cross := (ll / TWO_32 + hl % TWO_32 + lh) % TWO_64;
    var upper := (hl / TWO_32 + cross / TWO_32 + hh) % TWO_64;
    var lower := Or(cross * TWO_32 % TWO_64, ll % TWO_32);
    LowerIsWord(cross, ll);
    Wide(upper, lower)
  }

  function MulWithoutCarry(a: Word, b: Word): (r: Wide)
  {
    StackProducts(Mul32(a % TWO_32, b % TWO_32), Mul32(a / TWO_32, b % TWO_32), Mul32(a % TWO_32, b / TWO_32), Mul32(a / TWO_32, b / TWO_32))
  }

  lemma LowerIsWord(cross: Word, ll: Word)
    ensures Or(cross * TWO_32 % TWO_64, ll % TWO_32) == cross % TWO_32 * TWO_32 + ll % TWO_32
  {
    TwoTo64();
    hide Or, Pow2;
    OrAdds(cross % TWO_32, ll % TWO_32, 32);
    ShiftHalf(cross);
  }

  lemma ShiftHalf(x: Word)
    ensures x * TWO_32 % TWO_64 == x % TWO_32 * TWO_32
  {
    QuotientIs(x * TWO_32, TWO_64, x / TWO_32, x % TWO_32 * TWO_32);
  }

  lemma AddMiddleIsExact(w: Wide, x: Word)
    requires Value(w) + x * TWO_32 < TWO_64 * TWO_64
    ensures Value(AddMiddle(w, x)) == Value(w) + x * TWO_32
  {
    ShiftHalf(x);
    var s := AddFirst(w.low, x % TWO_32 * TWO_32);
    hide AddFirst;
    assert x * TWO_32 == x / TWO_32 * TWO_64 + x % TWO_32 * TWO_32;
  }

  /** The cross sum does not overflow. */
  lemma StackProductsWords(ll: Word, hl: Word, lh: Word, hh: Word)
    requires lh <= (TWO_32 - 1) * (TWO_32 - 1)
    ensures var cross, r := ll / TWO_32 + hl % TWO_32 + lh, StackProducts(ll, hl, lh, hh);
            r.high == (hl / TWO_32 + cross / TWO_32 + hh) % TWO_64 && r.low == cross % TWO_32 * TWO_32 + ll % TWO_32
  {
    hide Or;
    var cross := ll / TWO_32 + hl % TWO_32 + lh;
    CrossFits(ll / TWO_32, hl % TWO_32, lh);
    assert cross % TWO_64 == cross;
    LowerIsWord(cross, ll);
  }

  lemma CrossFits(a: Half, b: Half, c: Word)
    requires c <= (TWO_32 - 1) * (TWO_32 - 1)
    ensures a + b + c < TWO_64
  {
    assert (TWO_32 - 1) * (TWO_32 - 1) + 2 * (TWO_32 - 1) == TWO_64 - 1;
  }

  lemma StackProductsIsExact(ll: Word, hl: Word, lh: Word, hh: Word)
    requires lh <= (TWO_32 - 1) * (TWO_32 - 1) && ll + (hl + lh) * TWO_32 + hh * TWO_64 < TWO_64 * TWO_64
    ensures Value(StackProducts(ll, hl, lh, hh)) == ll + (hl + lh) * TWO_32 + hh * TWO_64
  {
    hide StackProducts;
    var cross := ll / TWO_32 + hl % TWO_32 + lh;
    StackProductsWords(ll, hl, lh, hh);
    Stack(ll / TWO_32, ll % TWO_32, hl / TWO_32, hl % TWO_32, lh, hh, cross / TWO_32, cross % TWO_32);
  }

  /** Adding up the columns. */
  lemma Stack(l1: nat, l0: nat, m1: nat, m0: nat, lh: nat, hh: nat, c1: nat, c0: nat)
    requires TWO_32 * c1 + c0 == l1 + m0 + lh
    ensures (TWO_32 * l1 + l0) + ((TWO_32 * m1 + m0) + lh) * TWO_32 + hh * TWO_64 == (m1 + c1 + hh) * TWO_64 + (c0 * TWO_32 + l0)
  {
  }

  /** Both multiplications give the exact product of two words. */
  lemma MulIsExact(a: Word, b: Word)
    ensures Value(MulWithCarry(a, b)) == a * b
    ensures Value(MulWithoutCarry(a, b)) == a * b
  {
    hide AddMiddle, StackProducts;
    HalfProducts(a, b);
    Bounded(a, b, TWO_64, TWO_64);
    var ll, hl := Mul32(a % TWO_32, b % TWO_32), Mul32(a / TWO_32, b % TWO_32);
    var lh, hh := Mul32(a % TWO_32, b / TWO_32), Mul32(a / TWO_32, b / TWO_32);
    AddMiddleIsExact(Wide(hh, ll), hl);
    AddMiddleIsExact(AddMiddle(Wide(hh, ll), hl), lh);
    StackProductsIsExact(ll, hl, lh, hh);
  }

  // ----- 128-bit operations

  const WIDES := TWO_64 * TWO_64

  function Add128(x: Wide, y: Wide): (r: Wide)
  {
    var s := AddFirst(x.low, y.low);
    Wide(AddLast(s.carry, x.high, y.high), s.word)
  }

  lemma Add128IsExact(x: Wide, y: Wide)
    ensures Value(Add128(x, y)) == (Value(x) + Value(y)) % WIDES
  {
    hide AddFirst;
    var s := AddFirst(x.low, y.low);
    var h := x.high + y.high + s.carry;
    QuotientIs(Value(x) + Value(y), WIDES, h / TWO_64, Value(Wide(h % TWO_64, s.word)));
  }

  function Product(a: nat, b: nat): (r: nat) { a * b }

  function CrossTerms(x: Wide, y: Wide): (r: nat) { Product(x.low, y.high) + Product(y.low, x.high) }

  function Mul128(x: Wide, y: Wide): (r: Wide)
  {
    var r := MulWithCarry(x.low, y.low);
    Wide((r.high + CrossTerms(x, y) % TWO_64) % TWO_64, r.low)
  }

  lemma Mul128IsExact(x: Wide, y: Wide)
    ensures Value(Mul128(x, y)) == Value(x) * Value(y) % WIDES
  {
    var r := MulWithCarry(x.low, y.low);
    hide MulWithCarry, CrossTerms, Value;
    MulIsExact(x.low, y.low);
    ExpandProduct(x, y);
    WrapHigh(r, CrossTerms(x, y), Product(x.high, y.high));
  }

  lemma ExpandProduct(x: Wide, y: Wide)
    ensures Value(x) * Value(y) == x.low * y.low + CrossTerms(x, y) * TWO_64 + x.high * y.high * WIDES
  {
    Foil(x.high, x.low, y.high, y.low, TWO_64);
  }

  /** Overflow of the high word is lost, and only that. */
  lemma WrapHigh(r: Wide, middle: nat, top: nat)
    ensures (Value(r) + middle * TWO_64 + top * WIDES) % WIDES == Value(Wide((r.high + middle % TWO_64) % TWO_64, r.low))
  {
    var h := r.high + middle % TWO_64;
    QuotientIs(Value(r) + middle * TWO_64 + top * WIDES, WIDES, top + middle / TWO_64 + h / TWO_64, Value(Wide(h % TWO_64, r.low)));
  }

  function Shl64(x: Word, s: nat): (r: Word) { x * Pow2(s) % TWO_64 }

  function Left128(v: Wide, s: nat): (r: Wide)
    requires s < 128
  {
    if s < 64 then
      OrIsWord(Shl64(v.high, s), if s == 0 then 0 else Shr(v.low, 64 - s));
      Wide(Or(Shl64(v.high, s), if s == 0 then 0 else Shr(v.low, 64 - s)), Shl64(v.low, s))
    else
      Wide(Shl64(v.low, s - 64), 0)
  }

  function Right128(v: Wide, s: nat): (r: Wide)
    requires s < 128
  {
    if s < 64 then
      OrIsWord(if s == 0 then 0 else Shl64(v.high, 64 - s), Shr(v.low, s));
      Wide(Shr(v.high, s), Or(if s == 0 then 0 else Shl64(v.high, 64 - s), Shr(v.low, s)))
    else
      Wide(0, Shr(v.high, s - 64))
  }

  lemma OrIsWord(a: Word, b: Word)
    ensures Or(a, b) < TWO_64
  {
    TwoTo64();
    OrBound(a, b, 64);
  }

  /** Shifting a word left: what stays and what moves out. */
  lemma ShiftOut(x: nat, p: nat, c: nat)
    requires p * c == TWO_64 && p > 0 && c > 0
    ensures x * p / TWO_64 == x / c && x * p % TWO_64 == x % c * p
  {
    assert x == c * (x / c) + x % c;
    Regroup(p, c, x / c, x % c);
    Below(p, c, x % c, 0);
    QuotientIs(x * p, TWO_64, x / c, x % c * p);
  }

  lemma ShiftFactors(s: nat)
    requires s <= 64
    ensures Pow2(s) * Pow2(64 - s) == TWO_64
  {
    TwoTo64();
    Pow2Add(s, 64 - s);
  }

  lemma LeftWords(v: Wide, s: nat)
    requires s < 64
    ensures var p, c := Pow2(s), Pow2(64 - s);
            Left128(v, s).high == v.high % c * p + v.low / c && Left128(v, s).low == v.low % c * p
  {
    hide Pow2, Or, Shr;
    var p, c := Pow2(s), Pow2(64 - s);
    ShiftFactors(s);
    ShiftOut(v.high, p, c);
    ShiftOut(v.low, p, c);
    QuotientBelow(v.low, p, c);
    ShrIsDivision(v.low, 64 - s);
    OrAdds(v.high % c, v.low / c, s);
    if s == 0 { TwoTo64(); }
  }

  /** Multiplying a double word by a power of two, word by word. */
  lemma ShiftLeftValue(h: Word, l: Word, p: nat, c: nat)
    requires p * c == TWO_64 && p > 0 && c > 0
    ensures (h * TWO_64 + l) * p % WIDES == (h % c * p + l / c) * TWO_64 + l % c * p
  {
    ShiftOut(h, p, c);
    ShiftOut(l, p, c);
    QuotientBelow(l, p, c);
    var hp, lp := h * p, l * p;
    assert (h * TWO_64 + l) * p == hp * TWO_64 + lp;
    Below(p, c, h % c, l / c);
    QuotientIs(hp * TWO_64 + lp, WIDES, h / c, (h % c * p + l / c) * TWO_64 + l % c * p);
  }

  /** The shift to the left multiplies by a power of two and keeps the lower 128 bits. */
  lemma Left128IsExact(v: Wide, s: nat)
    requires s < 128
    ensures Value(Left128(v, s)) == Value(v) * Pow2(s) % WIDES
  {
    hide Pow2, Or, Shr;
    if s < 64 {
      LeftWords(v, s);
      ShiftFactors(s);
      ShiftLeftValue(v.high, v.low, Pow2(s), Pow2(64 - s));
    } else {
      TwoTo64();
      Pow2Add(64, s - 64);
      ShiftWord(v.high, v.low, Pow2(s - 64));
    }
  }

  lemma ShiftWord(h: Word, l: Word, p: nat)
    ensures (h * TWO_64 + l) * (TWO_64 * p) % WIDES == l * p % TWO_64 * TWO_64
  {
    var hp, lp := h * p, l * p;
    assert (h * TWO_64 + l) * (TWO_64 * p) == hp * WIDES + lp * TWO_64;
    QuotientIs(hp * WIDES + lp * TWO_64, WIDES, hp + lp / TWO_64, lp % TWO_64 * TWO_64);
  }

  lemma RightWords(v: Wide, s: nat)
    requires s < 64
    ensures var p, c := Pow2(s), Pow2(64 - s);
            Right128(v, s).high == v.high / p && Right128(v, s).low == v.high % p * c + v.low / p
  {
    hide Pow2, Or, Shr;
    var p, c := Pow2(s), Pow2(64 - s);
    ShiftFactors(s);
    ShiftOut(v.high, c, p);
    QuotientBelow(v.low, c, p);
    ShrIsDivision(v.high, s);
    ShrIsDivision(v.low, s);
    OrAdds(v.high % p, v.low / p, 64 - s);
    if s == 0 { OnePow(); }
  }

  lemma OnePow()
    ensures Pow2(0) == 1
  {
  }

  /** Dividing a double word by a power of two, word by word. */
  lemma ShiftRightValue(h: Word, l: Word, p: nat, c: nat)
    requires p * c == TWO_64 && p > 0 && c > 0
    ensures (h * TWO_64 + l) / p == h / p * TWO_64 + (h % p * c + l / p)
  {
    var a, b, d, e := h / p, h % p, l / p, l % p;
    assert h == p * a + b && l == p * d + e;
    Collect(p, a, b, c, d, e);
    QuotientIs(h * TWO_64 + l, p, a * TWO_64 + (b * c + d), e);
  }

  lemma Collect(p: nat, a: nat, b: nat, c: nat, d: nat, e: nat)
    ensures (p * a + b) * (p * c) + (p * d + e) == p * (a * (p * c) + (b * c + d)) + e
  {
  }

  /** The shift to the right divides by a power of two. */
  lemma Right128IsExact(v: Wide, s: nat)
    requires s < 128
    ensures Value(Right128(v, s)) == Value(v) / Pow2(s)
  {
    hide Pow2, Or, Shr;
    if s < 64 {
      RightWords(v, s);
      ShiftFactors(s);
      ShiftRightValue(v.high, v.low, Pow2(s), Pow2(64 - s));
    } else {
      TwoTo64();
      Pow2Add(64, s - 64);
      DivideTwice(Value(v), TWO_64, Pow2(s - 64));
      ShrIsDivision(v.high, s - 64);
    }
  }

  function Or128(x: Wide, y: Wide): (r: Wide)
  {
    OrIsWord(x.high, y.high);
    OrIsWord(x.low, y.low);
    Wide(Or(x.high, y.high), Or(x.low, y.low))
  }

  lemma {:induction false} OrSplits(a: nat, b: nat, c: nat, d: nat, n: nat)
    requires b < Pow2(n) && d < Pow2(n)
    ensures Or(a * Pow2(n) + b, c * Pow2(n) + d) == Or(a, c) * Pow2(n) + Or(b, d)
  {
    if n == 0 {
      assert Or(b, d) == 0;
    } else {
      var am, cm := Product(a, Pow2(n - 1)), Product(c, Pow2(n - 1));
      TwiceProduct(a, Pow2(n - 1));
      TwiceProduct(c, Pow2(n - 1));
      TwiceProduct(Or(a, c), Pow2(n - 1));
      OrHalves(2 * am + b, 2 * cm + d);
      OrHalves(b, d);
      OrSplits(a, b / 2, c, d / 2, n - 1);
      hide Or;
      assert Pow2(n) == 2 * Pow2(n - 1);
      hide Pow2;
      assert (2 * am + b) / 2 == am + b / 2 && (2 * cm + d) / 2 == cm + d / 2;
    }
  }

  lemma TwiceProduct(a: nat, m: nat)
    ensures a * (2 * m) == 2 * Product(a, m) && a * m == Product(a, m)
  {
  }

  lemma OrHalves(a: nat, b: nat)
    ensures Or(a, b) == 2 * Or(a / 2, b / 2) + (if a % 2 == 1 || b % 2 == 1 then 1 else 0)
  {
  }

  function Rot128(v: Wide, s: nat): (r: Wide)
  {
    RotateRight(v, s % 128)
  }

  function RotateRight(v: Wide, s: nat): (r: Wide)
    requires s < 128
  {
    if s == 0 then v else Or128(Left128(v, 128 - s), Right128(v, s))
  }

  /** The rotation moves the lowest bits to the top and the others down. */
  lemma Rot128IsRotation(v: Wide, n: nat)
    ensures var s := n % 128;
            Value(Rot128(v, n)) == Value(v) % Pow2(s) * Pow2(128 - s) + Value(v) / Pow2(s)
  {
    hide RotateRight, Value, Pow2;
    RotateRightIsExact(v, n % 128);
  }

  lemma RotateRightIsExact(v: Wide, s: nat)
    requires s < 128
    ensures Value(RotateRight(v, s)) == Value(v) % Pow2(s) * Pow2(128 - s) + Value(v) / Pow2(s)
  {
    hide Pow2, Or, Left128, Right128, Value, Or128;
    if s == 0 {
      OnePow();
    } else {
      Left128IsExact(v, 128 - s);
      Right128IsExact(v, s);
      OrOfWides(Left128(v, 128 - s), Right128(v, s));
      ValueIsWide(v);
      OrRotates(Value(v), s, Value(Left128(v, 128 - s)), Value(Right128(v, s)));
    }
  }

  lemma OrOfWides(x: Wide, y: Wide)
    ensures Value(Or128(x, y)) == Or(Value(x), Value(y))
  {
    hide Pow2, Or;
    TwoTo64();
    OrSplits(x.high, x.low, y.high, y.low, 64);
  }

  lemma ValueIsWide(v: Wide)
    ensures Value(v) < WIDES
  {
  }

  lemma OrRotates(x: nat, s: nat, up: nat, down: nat)
    requires 0 < s < 128 && x < WIDES
    requires up == x * Pow2(128 - s) % WIDES && down == x / Pow2(s)
    ensures Or(up, down) == x % Pow2(s) * Pow2(128 - s) + down
  {
    hide Pow2, Or;
    var p, c := Pow2(s), Pow2(128 - s);
    WideFactors(s);
    ShiftOutWide(x, c, p);
    QuotientBelow(x, c, p);
    OrOfMultiple(up, x % p, down, 128 - s);
  }

  lemma OrOfMultiple(m: nat, a: nat, b: nat, n: nat)
    requires m == a * Pow2(n) && b < Pow2(n)
    ensures Or(m, b) == m + b
  {
    OrAdds(a, b, n);
  }

  lemma WideFactors(s: nat)
    requires s <= 128
    ensures Pow2(128 - s) * Pow2(s) == WIDES
  {
    TwoTo64();
    hide Pow2;
    Pow2Square(64, 128, TWO_64);
    Pow2Add(128 - s, s);
  }

  lemma ShiftOutWide(x: nat, p: nat, c: nat)
    requires p * c == WIDES && p > 0 && c > 0
    ensures x * p % WIDES == x % c * p
  {
    assert x == c * (x / c) + x % c;
    Regroup(p, c, x / c, x % c);
    Below(p, c, x % c, 0);
    QuotientIs(x * p, WIDES, x / c, x % c * p);
  }
}
