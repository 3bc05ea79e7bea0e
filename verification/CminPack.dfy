/** Index widths and trace packs of the corpus minimiser: arrays of fixed-width unsigned
    numbers, written to and read back from a file of bytes. */
module CminPack {
  import opened Basics

  /** The item sizes of the array type codes B, H, I, L and Q. */
  const ITEM_SIZES: seq<nat> := [1, 2, 4, 8, 8]

  /** The first type code whose numbers go beyond `size`. Its largest number is then at
      least `size`, so it can stand for "no file" beside indices below `size`. */
  method DetectTypeCode(size: nat) returns (width: Option<nat>)
    ensures width.Some? ==> size <= Pow256(width.value) - 1
    ensures width.Some? <==> size < Pow256(8)
    ensures width.Some? ==> width.value in ITEM_SIZES && forall v :: v in ITEM_SIZES && v < width.value ==> Pow256(v) <= size
  {
    for i := 0 to |ITEM_SIZES|
      invariant forall j :: 0 <= j < i ==> Pow256(ITEM_SIZES[j]) <= size
    {
      if Pow256(ITEM_SIZES[i]) > size {
        width := Some(ITEM_SIZES[i]);
        Pow256Monotone(ITEM_SIZES[i], 8);
        assert forall v :: v in ITEM_SIZES && v < ITEM_SIZES[i] ==> exists j :: 0 <= j < i && ITEM_SIZES[j] == v;
        return;
      }
    }
    assert Pow256(ITEM_SIZES[3]) <= size;
    width := None;
  }

  // ----- Traces as bytes

  /** What writing an array to a file appends. */
  function ToFile(items: seq<nat>, width: nat): (r: seq<Byte>)
    ensures |r| == |items| * width
  {
    if items == [] then [] else ToBytes(items[0], width) + ToFile(items[1..], width)
  }

  /** Reading `count` items; stops early at the end of the file. */
  function FromFile(b: seq<Byte>, width: nat, count: nat): (r: seq<nat>)
    decreases count
  {
    if count == 0 || |b| < width then [] else [FromBytes(b[..width])] + FromFile(b[width..], width, count - 1)
  }

  /** The file holds the array at `pos`. */
  ghost predicate Holds(pack: seq<Byte>, pos: nat, items: seq<nat>, width: nat) {
    pos <= |pack| && ToFile(items, width) <= pack[pos..]
  }

  lemma {:induction false} FileRoundTrip(items: seq<nat>, width: nat, b: seq<Byte>)
    requires forall i :: 0 <= i < |items| ==> items[i] < Pow256(width)
    requires ToFile(items, width) <= b
    ensures FromFile(b, width, |items|) == items
  {
    if items != [] {
      var first, rest := ToBytes(items[0], width), ToFile(items[1..], width);
      var all := ToFile(items, width);
      assert all == first + rest;
      assert b[..width] == all[..width] == first;
      assert all[width..] == rest;
      assert b[width..][..|rest|] == b[..|all|][width..];
      ItemRoundTrip(items[0], width);
      FileRoundTrip(items[1..], width, b[width..]);
    }
  }

  /** Appending to a pack keeps what it holds. */
  lemma HoldsAppended(pack: seq<Byte>, pos: nat, items: seq<nat>, width: nat, more: seq<Byte>)
    requires Holds(pack, pos, items, width)
    ensures Holds(pack + more, pos, items, width)
  {
    assert (pack + more)[pos..] == pack[pos..] + more;
  }
}
