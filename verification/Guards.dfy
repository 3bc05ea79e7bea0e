/** Numbering the guard slots of a function, and counting hits in the coverage map. */
module Guards {
  import opened Basics

  // ----- Guard slots

  /** Instructions as far as the numbering tells them apart: calls to the marker function, and
      selects by the type of their condition. */
  datatype Instruction = Interesting | SelectOnBit | SelectOnVector(elements: nat) | Other

  /** The slots of one instruction's select, one for each outcome of each element. */
  function SelectSlots(i: Instruction): (r: nat) {
    match i
    case SelectOnBit => 2
    case SelectOnVector(n) => 2 * n
    case _ => 0
  }

  ghost function CountSelects(code: seq<Instruction>): (r: nat) {
    if code == [] then 0 else CountSelects(code[..|code| - 1]) + SelectSlots(code[|code| - 1])
  }

  ghost function CountInteresting(code: seq<Instruction>): (r: nat) {
    if code == [] then 0 else CountInteresting(code[..|code| - 1]) + if code[|code| - 1] == Interesting then 1 else 0
  }

  ghost function Range(from: nat, n: nat): (r: seq<nat>) {
    seq(n, i requires 0 <= i < n => from + i)
  }

  ghost predicate Distinct(s: seq<nat>) {
    forall i, j :: 0 <= i < j < |s| ==> s[i] != s[j]
  }

  ghost predicate Below(s: seq<nat>, size: nat) {
    forall i :: 0 <= i < |s| ==> s[i] < size
  }

  /** The first pass over the code: how many slots the two kinds of extra guards need. */
  method CountExtras(code: seq<Instruction>) returns (interesting: nat, selects: nat)
    ensures interesting == CountInteresting(code) && selects == CountSelects(code)
  {
    interesting, selects := 0, 0;
    for k := 0 to |code|
      invariant interesting == CountInteresting(code[..k]) && selects == CountSelects(code[..k])
    {
      assert code[..k + 1][..k] == code[..k];
      match code[k]
      case Interesting => interesting := interesting + 1;
      case SelectOnBit => selects := selects + 2;
      case SelectOnVector(n) => selects := selects + 2 * n;
      case Other =>
    }
    assert code[..|code|] == code;
  }

  /** The slots of one select, two for every element. */
  method NumberSelect(elements: nat, base: nat, local: nat) returns (slots: seq<nat>, local': nat)
    ensures local' == local + 2 * elements && slots == Range(base + local, 2 * elements)
  {
    slots, local' := [], local;
    for i := 0 to elements
      invariant local' == local + 2 * i && slots == Range(base + local, 2 * i)
    {
      slots := slots + [base + local', base + local' + 1];
      local' := local' + 2;
    }
  }

  lemma RangeGrows(from: nat, n: nat, m: nat)
    ensures Range(from, n) + Range(from + n, m) == Range(from, n + m)
    ensures Range(from, n) + [from + n] == Range(from, n + 1)
  {
  }

  /** The second pass over the code: gives every extra guard its slot. The select that is
      inserted to choose between the guards of a select is passed over when its turn comes. */
  method NumberExtras(blocks: nat, cov: nat, code: seq<Instruction>) returns (marks: seq<nat>, picks: seq<nat>)
    ensures marks == Range(blocks + 1, CountInteresting(code))
    ensures picks == Range(blocks + cov, CountSelects(code))
  {
    marks, picks := [], [];
    var special, local := 0, 0;
    for k := 0 to |code|
      invariant special == CountInteresting(code[..k]) && local == CountSelects(code[..k])
      invariant marks == Range(blocks + 1, special) && picks == Range(blocks + cov, local)
    {
      hide Range;
      assert code[..k + 1][..k] == code[..k];
      var more: seq<nat>;
      match code[k]
      case Interesting =>
        RangeGrows(blocks + 1, special, 0);
        special := special + 1;
        marks := marks + [special + blocks];
      case SelectOnBit =>
        RangeGrows(blocks + cov, local, 2);
        more, local := NumberSelect(1, blocks + cov, local);
        picks := picks + more;
      case SelectOnVector(n) =>
        RangeGrows(blocks + cov, local, 2 * n);
        more, local := NumberSelect(n, blocks + cov, local);
        picks := picks + more;
      case Other =>
    }
    assert code[..|code|] == code;
  }

  /** All guards of a function, and the size of the array that holds them. The slots differ from
      each other unless there are both markers and selects; they lie in the array unless there
      are markers and nothing behind them. */
  method NumberGuards(blocks: nat, code: seq<Instruction>, first: bool) returns (size: nat, slots: seq<nat>)
    ensures blocks == 0 ==> size == 0 && slots == []
    ensures blocks > 0 ==> |slots| == blocks + CountInteresting(code) + CountSelects(code)
    ensures blocks > 0 ==> (Distinct(slots) <==> CountInteresting(code) == 0 || CountSelects(code) == 0)
    ensures blocks > 0 ==> (Below(slots, size) <==> first || CountInteresting(code) == 0 || CountSelects(code) > 0)
  {
    if blocks == 0 {
      return 0, [];
    }
    var cov, sel := CountExtras(code);
    size := blocks + (if first then 1 else 0) + cov + sel;
    var marks, picks := NumberExtras(blocks, cov, code);
    var own := seq(blocks, i => i);
    assert own == Range(0, blocks);
    hide Distinct, CountInteresting, CountSelects;
    slots := own + marks + picks;
    SlotsClash(blocks, cov, sel);
    SlotsInRange(blocks, cov, sel, size);
  }

  /** The last marker's slot is the first select's. */
  lemma SlotsClash(blocks: nat, cov: nat, sel: nat)
    ensures Distinct(Range(0, blocks) + Range(blocks + 1, cov) + Range(blocks + cov, sel)) <==> cov == 0 || sel == 0
  {
    var s := Range(0, blocks) + Range(blocks + 1, cov) + Range(blocks + cov, sel);
    if cov > 0 && sel > 0 {
      assert s[blocks + cov - 1] == s[blocks + cov];
    }
  }

  lemma SlotsInRange(blocks: nat, cov: nat, sel: nat, size: nat)
    requires blocks + cov + sel <= size <= blocks + cov + sel + 1 && blocks > 0
    ensures var s := Range(0, blocks) + Range(blocks + 1, cov) + Range(blocks + cov, sel);
            Below(s, size) <==> size > blocks + cov + sel || cov == 0 || sel > 0
  {
    var s := Range(0, blocks) + Range(blocks + 1, cov) + Range(blocks + cov, sel);
    if cov > 0 {
      assert s[blocks + cov - 1] == blocks + cov;
    }
  }

  // ----- Counters

  /** A hit: the counter wraps around, and a zero is made a one. */
  function Hit(counter: Byte): (r: Byte) {
    var incremented := (counter + 1) % 256;
    var carry := if incremented == 0 then 1 else 0;
    (incremented + carry) % 256
  }

  ghost function Hits(n: nat): (r: Byte) {
    if n == 0 then 0 else Hit(Hits(n - 1))
  }

  lemma HitAdvances(k: nat)
    ensures Hit(k % 255 + 1) == (k + 1) % 255 + 1
  {
    var q, r := k / 255, k % 255;
    assert k + 1 == 255 * q + (r + 1);
  }

  lemma FirstHit()
    ensures Hit(0) == 1
  {
  }

  /** Counting from one, past 255 back to one: never to zero. */
  lemma {:induction false} HitsNeverZero(n: nat)
    ensures Hits(n) == if n == 0 then 0 else (n - 1) % 255 + 1
  {
    hide Hit;
    if n == 1 {
      FirstHit();
    } else if n > 1 {
      HitsNeverZero(n - 1);
      HitAdvances(n - 2);
    }
  }

  ghost function Times(run: seq<nat>, slot: nat): (r: nat)
    ensures r > 0 <==> slot in run
  {
    if run == [] then 0 else Times(run[..|run| - 1], slot) + if run[|run| - 1] == slot then 1 else 0
  }

  /** The instrumented code over a whole run: every map entry counts its guard's visits, and is
      nonzero exactly when there was one. */
  method Record(map_: array<Byte>, run: seq<nat>)
    requires forall i :: 0 <= i < |run| ==> run[i] < map_.Length
    requires forall slot :: 0 <= slot < map_.Length ==> map_[slot] == 0
    modifies map_
    ensures forall slot :: 0 <= slot < map_.Length ==> map_[slot] == Hits(Times(run, slot))
    ensures forall slot :: 0 <= slot < map_.Length ==> (map_[slot] != 0 <==> slot in run)
  {
    for k := 0 to |run|
      invariant forall slot :: 0 <= slot < map_.Length ==> map_[slot] == Hits(Times(run[..k], slot))
    {
      assert run[..k + 1][..k] == run[..k];
      var cur := run[k];
      map_[cur] := Hit(map_[cur]);
    }
    assert run[..|run|] == run;
    forall slot | 0 <= slot < map_.Length
      ensures map_[slot] != 0 <==> slot in run
    {
      HitsNeverZero(Times(run, slot));
    }
  }
}
