/** The havoc operators that change one, two or four bytes where they stand. */
module HavocBytes {
  import opened Basics
  import opened Mutations
  import Bits

  const ARITH_MAX := 35

  datatype Size = One | Two | Four

  /** The arithmetic operators and those with interesting values come in both byte orders. */
  datatype PointOp =
    | FlipBit
    | Rand8
    | Flip8
    | ByteAdd
    | ByteSub
    | Arith(size: Size, bigEndian: bool, subtract: bool)
    | Interesting(size: Size, bigEndian: bool)

  function Length(size: Size): (n: nat)
    ensures n > 0
  {
    match size case One => 1 case Two => 2 case Four => 4
  }

  function Width(op: PointOp): (n: nat)
    ensures n > 0
  {
    if op.Arith? || op.Interesting? then Length(op.size) else 1
  }

  const INTERESTING_8: seq<int> := [-128, -1, 0, 1, 16, 32, 64, 100, 127]
  const INTERESTING_16: seq<int> := [-32768, -129, 128, 255, 256, 512, 1000, 1024, 4096, 32767]
  const INTERESTING_32: seq<int> :=
    [-2147483648, -100663046, -32769, 32768, 65535, 65536, 100663045, 2139095040, 2147483647]

  function InterestingValues(size: Size): (r: seq<int>)
    ensures r != []
  {
    match size
    case One => INTERESTING_8
    case Two => INTERESTING_8 + INTERESTING_16
    case Four => INTERESTING_8 + INTERESTING_16 + INTERESTING_32
  }

  // ----- What the operators mean

  /** The number that some bytes stand for in a byte order. */
  function Number(b: seq<Byte>, bigEndian: bool): (v: nat) {
    FromBytes(if bigEndian then Reverse(b) else b)
  }

  /** Adding or subtracting, with wrap-around at `m`. */
  function Moved(v: nat, item: nat, subtract: bool, m: nat): (r: nat)
    requires m > 0
    ensures r < m
  {
    (if subtract then v - item else v + item) % m
  }

  ghost predicate Changed(op: PointOp, before: seq<Byte>, after: seq<Byte>)
  {
    |before| == |after| == Width(op) &&
    match op
    case FlipBit => exists bit: nat :: bit < 8 && after[0] == Bits.Xor(before[0], Bits.Pow2(bit))
    case Rand8 => exists item: nat :: 1 <= item <= 255 && after[0] == Bits.Xor(before[0], item)
    case Flip8 => after[0] == 255 - before[0]
    case ByteAdd => after[0] == (before[0] as int + 1) % 256
    case ByteSub => after[0] == (before[0] as int - 1) % 256
    case Arith(size, bigEndian, subtract) =>
      exists item: nat :: 1 <= item <= 35 &&
        Number(after, bigEndian) == Moved(Number(before, bigEndian), item, subtract, Pow256(|before|))
    case Interesting(size, bigEndian) =>
      exists k :: 0 <= k < |InterestingValues(size)| && Number(after, bigEndian) == InterestingValues(size)[k] % Pow256(|before|)
  }

  // ----- What the operators do

  /** The bytes of a word in the opposite order. */
  function Swap(v: nat, n: nat): (r: nat) {
    FromBytes(Reverse(ToBytes(v, n)))
  }

  /** The word at a place of the input, on a little-endian machine, turned round for the
      operators that work on the other byte order. */
  function Load(b: seq<Byte>, bigEndian: bool): (v: nat) {
    if bigEndian then Swap(FromBytes(b), |b|) else FromBytes(b)
  }

  function Store(v: nat, n: nat, bigEndian: bool): (b: seq<Byte>)
    ensures |b| == n
  {
    ToBytes(if bigEndian then Swap(v, n) else v, n)
  }

  lemma LoadIsNumber(b: seq<Byte>, bigEndian: bool)
    ensures Load(b, bigEndian) == Number(b, bigEndian)
  {
    BytesRoundTrip(b);
  }

  lemma NumberOfStored(v: nat, n: nat, bigEndian: bool)
    requires v < Pow256(n)
    ensures Number(Store(v, n, bigEndian), bigEndian) == v
  {
    var b := ToBytes(v, n);
    ItemRoundTrip(v, n);
    BytesRoundTrip(Reverse(b));
    assert Reverse(Reverse(b)) == b;
  }

  method ChangeByte(op: PointOp, b: Byte) returns (r: Byte)
    requires !op.Arith? && !op.Interesting?
    ensures Changed(op, [b], [r])
  {
    assert Bits.Pow2(8) == 256;
    match op {
      case FlipBit =>
        var bit := RandBelow(8);
        BitIsByte(bit);
        Bits.XorBound(b, Bits.Pow2(bit), 8);
        r := Bits.Xor(b, Bits.Pow2(bit));
      case Rand8 =>
        var item := RandBelow(255);
        item := item + 1;
        Bits.XorBound(b, item, 8);
        r := Bits.Xor(b, item);
        assert [r][0] == Bits.Xor([b][0], item);
      case Flip8 =>
        Bits.XorOnes(b, 8);
        r := Bits.Xor(b, 0xff);
      case ByteAdd =>
        r := (b as int + 1) % 256;
      case ByteSub =>
        r := (b as int - 1) % 256;
    }
  }

  lemma BitIsByte(bit: nat)
    requires bit < 8
    ensures Bits.Pow2(bit) < Bits.Pow2(8)
  {
    Bits.Pow2Monotone(bit + 1, 8);
  }

  method ChangeWord(op: PointOp, before: seq<Byte>) returns (after: seq<Byte>)
    requires (op.Arith? || op.Interesting?) && |before| == Width(op)
    ensures Changed(op, before, after)
  {
    var n := |before|;
    match op {
      case Arith(size, bigEndian, subtract) =>
        var item := RandBelow(ARITH_MAX);
        item := item + 1;
        var v := Moved(Load(before, bigEndian), item, subtract, Pow256(n));
        after := Store(v, n, bigEndian);
        LoadIsNumber(before, bigEndian);
        NumberOfStored(v, n, bigEndian);
      case Interesting(size, bigEndian) =>
        var k := RandBelow(|InterestingValues(size)|);
        var v := InterestingValues(size)[k] % Pow256(n);
        after := Store(v, n, bigEndian);
        NumberOfStored(v, n, bigEndian);
    }
  }

  /** The new bytes at a place of the input. */
  method Change(op: PointOp, before: seq<Byte>) returns (after: seq<Byte>)
    requires |before| == Width(op)
    ensures Changed(op, before, after)
  {
    if op.Arith? || op.Interesting? {
      after := ChangeWord(op, before);
    } else {
      var r := ChangeByte(op, before[0]);
      after := [r];
      assert before == [before[0]];
    }
  }

  /** None of these operators leaves the bytes as they are, interesting values aside. */
  lemma PointOpsChangeBytes(op: PointOp, before: seq<Byte>, after: seq<Byte>)
    requires Changed(op, before, after) && !op.Interesting?
    ensures before != after
  {
    match op
    case FlipBit =>
      var bit: nat :| bit < 8 && after[0] == Bits.Xor(before[0], Bits.Pow2(bit));
      Bits.XorChanges(before[0], Bits.Pow2(bit));
    case Rand8 =>
      var item: nat :| 1 <= item <= 255 && after[0] == Bits.Xor(before[0], item);
      Bits.XorChanges(before[0], item);
    case Flip8 =>
    case ByteAdd =>
    case ByteSub =>
    case Arith(size, bigEndian, subtract) =>
      var item: nat :| 1 <= item <= 35 && Number(after, bigEndian) == Moved(Number(before, bigEndian), item, subtract, Pow256(|before|));
      var v, m := Number(before, bigEndian), Pow256(|before|);
      FromBytesBound(if bigEndian then Reverse(before) else before);
      Pow256Monotone(1, |before|);
      MovedMoves(v, item, subtract, m);
  }

  lemma MovedMoves(v: nat, item: nat, subtract: bool, m: nat)
    requires 0 < item < m && v < m
    ensures Moved(v, item, subtract, m) != v
  {
    var x := if subtract then v - item else v + item;
    if x < 0 {
      Bits.QuotientIs(x, m, -1, x + m);
    } else if x < m {
      Bits.QuotientIs(x, m, 0, x);
    } else {
      Bits.QuotientIs(x, m, 1, x - m);
    }
  }

  /** Away from the ends, adding adds and subtracting subtracts. */
  lemma MovedWithoutWrap(v: nat, item: nat, m: nat)
    requires 0 < m && v < m
    ensures v + item < m ==> Moved(v, item, false, m) == v + item
    ensures item <= v ==> Moved(v, item, true, m) == v - item
  {
    if v + item < m { Bits.QuotientIs(v + item, m, 0, v + item); }
    if item <= v { Bits.QuotientIs(v - item, m, 0, v - item); }
  }

  /** The tables have the sizes given for them, and their values fit signed numbers of their width. */
  lemma InterestingValuesFit(size: Size, k: nat)
    requires k < |InterestingValues(size)|
    ensures |InterestingValues(One)| == 9 && |InterestingValues(Two)| == 9 + 10 && |InterestingValues(Four)| == 9 + 10 + 9
    ensures var v := InterestingValues(size)[k];
            match size case One => -0x80 <= v < 0x80 case Two => -0x8000 <= v < 0x8000 case Four => -0x8000_0000 <= v < 0x8000_0000
  {
  }
}
