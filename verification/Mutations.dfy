/** Block mutators of the havoc stage: choosing a block length, shuffling a block, switching
    two blocks. Random draws are arbitrary within their range. */
module Mutations {
  import opened Basics
  import Bits

  const HAVOC_BLK_SMALL := 32
  const HAVOC_BLK_MEDIUM := 128
  const HAVOC_BLK_LARGE := 1500
  const HAVOC_BLK_XL := 32768

  function Min(a: nat, b: nat): (r: nat) { if a < b then a else b }

  const UINT64_MAX := TWO_64 - 1

  /** Random words from here on are drawn again. */
  function Rejected(limit: nat): (r: nat)
    requires limit > 0
    ensures r <= UINT64_MAX
  {
    UINT64_MAX - UINT64_MAX % limit
  }

  /** A draw below `limit`; zero if there is no choice. Of the random words the loop draws, only
      the one it ends with matters. */
  method RandBelow(limit: nat) returns (r: nat)
    requires limit < TWO_32
    ensures if limit <= 1 then r == 0 else r < limit
  {
    if limit <= 1 { return 0; }
    SomeWordIsAccepted(limit);
    var unbiased: nat :| unbiased < Rejected(limit);
    r := unbiased % limit;
  }

  /** The loop of a draw can end: the words accepted make up whole rounds of `limit`. */
  lemma SomeWordIsAccepted(limit: nat)
    requires 1 < limit < TWO_32
    ensures Rejected(limit) == limit * (UINT64_MAX / limit) && UINT64_MAX / limit > 0
  {
    var q := UINT64_MAX / limit;
    assert UINT64_MAX == limit * q + UINT64_MAX % limit;
  }

  /** The number of words below `n` that give the draw `r`. */
  ghost function WordsGiving(n: nat, limit: nat, r: nat): (count: nat)
    requires limit > 0
  {
    if n == 0 then 0 else WordsGiving(n - 1, limit, r) + if (n - 1) % limit == r then 1 else 0
  }

  lemma {:induction false} WordsInRounds(q: nat, j: nat, limit: nat, r: nat)
    requires r < limit && j <= limit
    ensures limit * q >= 0 && WordsGiving(limit * q + j, limit, r) == q + if r < j then 1 else 0
    decreases q, j
  {
    if j > 0 {
      WordsInRounds(q, j - 1, limit, r);
      Bits.QuotientIs(limit * q + (j - 1), limit, q, j - 1);
    } else if q > 0 {
      WordsInRounds(q - 1, limit, limit, r);
      assert limit * (q - 1) + limit == limit * q;
    }
  }

  /** Draws are unbiased: the same number of accepted words gives each of them. */
  lemma DrawsAreUniform(limit: nat, r: nat)
    requires 1 < limit < TWO_32 && r < limit
    ensures WordsGiving(Rejected(limit), limit, r) == UINT64_MAX / limit > 0
  {
    SomeWordIsAccepted(limit);
    WordsInRounds(UINT64_MAX / limit, 0, limit, r);
  }

  // ----- Block lengths

  /** What the choice of block lengths depends on. */
  datatype Settings = Settings(queueCycle: nat, runOver10m: bool)

  /** The four classes of block lengths. */
  function ClassMin(c: nat): (r: nat) {
    if c == 0 then 1 else if c == 1 then HAVOC_BLK_SMALL else if c == 2 then HAVOC_BLK_MEDIUM else HAVOC_BLK_LARGE
  }

  function ClassMax(c: nat): (r: nat) {
    if c == 0 then HAVOC_BLK_SMALL else if c == 1 then HAVOC_BLK_MEDIUM else if c == 2 then HAVOC_BLK_LARGE else HAVOC_BLK_XL
  }

  /** In the first ten minutes and the first cycle there are small blocks only; then medium ones
      too; from the third cycle on, all. */
  predicate ClassAllowed(c: nat, havoc: Settings) {
    c == 0 || (havoc.runOver10m && ((c == 1 && havoc.queueCycle >= 2) || (2 <= c <= 3 && havoc.queueCycle >= 3)))
  }

  /** The lengths of a class under a limit; a class that begins at the limit begins at 1 instead. */
  predicate InClass(c: nat, limit: nat, len: nat) {
    (if ClassMin(c) >= limit then 1 else ClassMin(c)) <= len <= Min(ClassMax(c), limit)
  }

  /** The lengths that can be drawn. */
  ghost predicate Drawable(limit: nat, havoc: Settings, len: nat) {
    if limit == 0 then len == 1 else exists c: nat :: ClassAllowed(c, havoc) && InClass(c, limit, len)
  }

  /** A draw below `n` lies in this range. */
  predicate InDraw(n: int, r: nat) { r == 0 || r < n }

  /** The length that three draws give. */
  function LengthDrawn(limit: nat, size: nat, usual: nat, extra: nat): (len: nat) {
    var c := SizeClass(size, usual);
    (if ClassMin(c) >= limit then 1 else ClassMin(c)) + extra
  }

  function SizeClass(size: nat, usual: nat): (c: nat) {
    if size == 0 then 0 else if size == 1 then 1 else if usual != 0 then 2 else 3
  }

  function ExtraBelow(limit: nat, size: nat, usual: nat): (n: int) {
    var c := SizeClass(size, usual);
    Min(ClassMax(c), limit) - (if ClassMin(c) >= limit then 1 else ClassMin(c)) + 1
  }

  function SizesBelow(havoc: Settings): (n: nat) {
    if !havoc.runOver10m then 1 else Min(havoc.queueCycle, 3)
  }

  /** The draws are in their ranges and give the length. */
  ghost predicate Drawn(limit: nat, havoc: Settings, size: nat, usual: nat, extra: nat, len: nat) {
    && InDraw(SizesBelow(havoc), size) && InDraw(10, usual) && InDraw(ExtraBelow(limit, size, usual), extra)
    && len == LengthDrawn(limit, size, usual, extra)
  }

  /** The draws behind a block length. */
  method DrawBlockLen(limit: nat, havoc: Settings) returns (len: nat, ghost size: nat, ghost usual: nat, ghost extra: nat)
    ensures Drawn(limit, havoc, size, usual, extra, len)
  {
    var rlim := Min(havoc.queueCycle, 3);
    if !havoc.runOver10m { rlim := 1; }
    var minValue, maxValue;
    var s := RandBelow(rlim);
    var u := 0;
    if s == 0 {
      minValue, maxValue := 1, HAVOC_BLK_SMALL;
    } else if s == 1 {
      minValue, maxValue := HAVOC_BLK_SMALL, HAVOC_BLK_MEDIUM;
    } else {
      u := RandBelow(10);
      if u != 0 {
        minValue, maxValue := HAVOC_BLK_MEDIUM, HAVOC_BLK_LARGE;
      } else {
        minValue, maxValue := HAVOC_BLK_LARGE, HAVOC_BLK_XL;
      }
    }
    if minValue >= limit { minValue := 1; }
    var e := RandBelow(Min(maxValue, limit) - minValue + 1);
    len := minValue + e;
    size, usual, extra := s, u, e;
  }

  /** Exactly the lengths of the classes allowed can be drawn. */
  lemma LengthsDrawn(limit: nat, havoc: Settings, len: nat)
    ensures Drawable(limit, havoc, len) <==> exists size: nat, usual: nat, extra: nat :: Drawn(limit, havoc, size, usual, extra, len)
  {
    if size: nat, usual: nat, extra: nat :| Drawn(limit, havoc, size, usual, extra, len) {
      DrawnIsDrawable(limit, havoc, size, usual, extra, len);
    }
    if Drawable(limit, havoc, len) {
      var c: nat := if limit == 0 then 0 else var c: nat :| ClassAllowed(c, havoc) && InClass(c, limit, len); c;
      var size, usual := if c >= 2 then 2 else c, if c == 2 then 1 else 0;
      assert SizeClass(size, usual) == c;
      assert Drawn(limit, havoc, size, usual, len - if ClassMin(c) >= limit then 1 else ClassMin(c), len);
    }
  }

  lemma DrawnIsDrawable(limit: nat, havoc: Settings, size: nat, usual: nat, extra: nat, len: nat)
    requires Drawn(limit, havoc, size, usual, extra, len)
    ensures Drawable(limit, havoc, len)
  {
    assert ClassAllowed(SizeClass(size, usual), havoc);
  }

  /** The classes in numbers. */
  lemma Classes(havoc: Settings)
    ensures (ClassMin(0), ClassMax(0)) == (1, 32) && (ClassMin(1), ClassMax(1)) == (32, 128)
    ensures (ClassMin(2), ClassMax(2)) == (128, 1500) && (ClassMin(3), ClassMax(3)) == (1500, 32768)
    ensures ClassAllowed(0, havoc) && (ClassAllowed(1, havoc) <==> havoc.runOver10m && havoc.queueCycle >= 2)
    ensures ClassAllowed(2, havoc) == ClassAllowed(3, havoc) == (havoc.runOver10m && havoc.queueCycle >= 3)
  {
  }

  lemma DrawableBounds(limit: nat, havoc: Settings, len: nat)
    requires Drawable(limit, havoc, len)
    ensures if limit == 0 then len == 1 else 1 <= len <= limit && len <= 32768
    ensures !havoc.runOver10m || havoc.queueCycle <= 1 ==> len <= 32
    ensures havoc.queueCycle == 2 ==> len <= 128
  {
  }

  /** A block length never exceeds a nonzero limit and is never zero; it is small at first. */
  method ChooseBlockLen(limit: nat, havoc: Settings) returns (len: nat)
    ensures Drawable(limit, havoc, len)
    ensures if limit == 0 then len == 1 else 1 <= len <= Min(limit, HAVOC_BLK_XL)
    ensures !havoc.runOver10m || havoc.queueCycle <= 1 ==> len <= 32
    ensures havoc.queueCycle == 2 ==> len <= 128
  {
    ghost var size, usual, extra;
    len, size, usual, extra := DrawBlockLen(limit, havoc);
    DrawnIsDrawable(limit, havoc, size, usual, extra, len);
    DrawableBounds(limit, havoc, len);
  }

  // ----- The permutation a shuffle applies

  function SwapAt(p: nat, i: nat, j: nat): (r: nat) {
    if p == i then j else if p == j then i else p
  }

  /** Where the byte at `p` comes from after the swaps of positions n-1 down to i+1, each
      with its draw `js[_]`. */
  ghost function Source(js: seq<nat>, i: nat, p: nat): (r: nat)
    decreases |js| - i
  {
    if i + 1 >= |js| then p else Source(js, i + 1, SwapAt(p, i + 1, js[i + 1]))
  }

  /** Every draw is below its position. */
  ghost predicate Draws(js: seq<nat>) {
    forall i :: 1 <= i < |js| ==> js[i] < i
  }

  /** The swaps of positions 1 up to k, composed the other way round. */
  ghost function Composed(js: seq<nat>, k: nat, p: nat): (r: nat)
    requires k < |js|
  {
    if k == 0 then p else SwapAt(Composed(js, k - 1, p), k, js[k])
  }

  lemma {:induction false} SourceIsComposed(js: seq<nat>, i: nat, p: nat)
    requires i < |js|
    ensures Source(js, i, Composed(js, i, p)) == Composed(js, |js| - 1, p)
    decreases |js| - i
  {
    if i + 1 < |js| { SourceIsComposed(js, i + 1, p); }
  }

  /** A listing of 0 to n-1 together with its inverse: where each number stands. */
  datatype Listing = Listing(at: seq<nat>, place: seq<nat>)

  ghost predicate Lists(l: Listing, n: nat) {
    && |l.at| == n && |l.place| == n
    && (forall i :: 0 <= i < n ==> l.at[i] < n && l.place[l.at[i]] == i)
    && (forall x :: 0 <= x < n ==> l.place[x] < n && l.at[l.place[x]] == x)
  }

  /** Puts the number n in front of the number `before`. */
  ghost function Insert(l: Listing, n: nat, before: nat): (r: Listing)
    requires Lists(l, n) && before < n
  {
    var p := l.place[before];
    Listing(l.at[..p] + [n] + l.at[p..],
            seq(n + 1, x requires 0 <= x <= n => if x == n then p else if l.place[x] < p then l.place[x] else l.place[x] + 1))
  }

  lemma InsertAt(l: Listing, n: nat, before: nat, i: nat)
    requires Lists(l, n) && before < n && i <= n
    ensures var r, p := Insert(l, n, before), l.place[before];
            |r.at| == |r.place| == n + 1 && r.at[i] == if i < p then l.at[i] else if i == p then n else l.at[i - 1]
  {
  }

  lemma InsertLists(l: Listing, n: nat, before: nat)
    requires Lists(l, n) && before < n
    ensures Lists(Insert(l, n, before), n + 1)
  {
    var r, p := Insert(l, n, before), l.place[before];
    forall i | 0 <= i <= n
      ensures r.at[i] <= n && r.place[r.at[i]] == i
    {
      InsertAt(l, n, before, i);
    }
    forall x | 0 <= x <= n
      ensures r.place[x] <= n && r.at[r.place[x]] == x
    {
      InsertAt(l, n, before, r.place[x]);
    }
  }

  /** The positions in the order in which the permutation visits them: each new position is
      put in front of the one it was swapped with. */
  ghost function Cycle(js: seq<nat>, k: nat): (l: Listing)
    requires k < |js| && Draws(js)
    ensures Lists(l, k + 1) && |l.at| == |l.place| == k + 1
  {
    if k == 0 then Listing([0], [0]) else
      InsertLists(Cycle(js, k - 1), k, js[k]);
      Insert(Cycle(js, k - 1), k, js[k])
  }

  function Next(c: seq<nat>, m: nat): (r: nat)
    requires m < |c|
  {
    if m + 1 == |c| then c[0] else c[m + 1]
  }

  lemma {:induction false} LaterPositionsStay(js: seq<nat>, k: nat, p: nat)
    requires k < |js| && Draws(js) && p > k
    ensures Composed(js, k, p) == p
  {
    if k > 0 { LaterPositionsStay(js, k - 1, p); }
  }

  /** The composition is one cycle through all positions. */
  lemma {:induction false} ComposedFollowsCycle(js: seq<nat>, k: nat, m: nat)
    requires k < |js| && Draws(js) && m <= k
    ensures Composed(js, k, Cycle(js, k).at[m]) == Next(Cycle(js, k).at, m)
  {
    hide Lists, Insert;
    if k == 0 {
      assert Cycle(js, 0).at == [0];
    } else {
      CycleStep(js, k, m);
      var l, x := Cycle(js, k - 1), Cycle(js, k).at[m];
      assert Composed(js, k, x) == SwapAt(Composed(js, k - 1, x), k, js[k]);
      hide Cycle, Composed, Next, Draws;
      var p := l.place[js[k]];
      if m == p {
        LaterPositionsStay(js, k - 1, k);
      } else {
        ComposedFollowsCycle(js, k - 1, if m < p then m else m - 1);
      }
    }
  }

  /** The new position's neighbours in the longer cycle. */
  lemma CycleStep(js: seq<nat>, k: nat, m: nat)
    requires 0 < k < |js| && Draws(js) && m <= k
    ensures var l, c := Cycle(js, k - 1), Cycle(js, k);
            js[k] < k && l.place[js[k]] < k &&
            if m == l.place[js[k]] then c.at[m] == k && Next(c.at, m) == js[k]
            else var m' := if m < l.place[js[k]] then m else m - 1;
              c.at[m] == l.at[m'] && Next(c.at, m) == SwapAt(Next(l.at, m'), k, js[k])
  {
    NextAfterInsert(Cycle(js, k - 1), k, js[k], m);
  }

  lemma NextAfterInsert(l: Listing, n: nat, before: nat, m: nat)
    requires Lists(l, n) && before < n && m <= n
    ensures var r, p := Insert(l, n, before), l.place[before];
            if m == p then r.at[m] == n && Next(r.at, m) == before
            else var m' := if m < p then m else m - 1;
              r.at[m] == l.at[m'] && Next(r.at, m) == SwapAt(Next(l.at, m'), n, before)
  {
    InsertAt(l, n, before, m);
    InsertAt(l, n, before, if m == n then 0 else m + 1);
  }

  /** `perm` is a single cycle through all positions: following it from any position visits
      every other one before coming back. */
  ghost predicate SingleCycle(perm: seq<nat>) {
    exists l :: IsCycleOf(l, perm)
  }

  ghost predicate IsCycleOf(l: Listing, perm: seq<nat>) {
    Lists(l, |perm|) && forall m :: 0 <= m < |perm| ==> perm[l.at[m]] == Next(l.at, m)
  }

  ghost function Permutation(js: seq<nat>): (perm: seq<nat>)
    ensures |perm| == |js|
  {
    seq(|js|, p requires 0 <= p < |js| => Source(js, 0, p))
  }

  lemma PermutationIsSingleCycle(js: seq<nat>)
    requires js != [] && Draws(js)
    ensures SingleCycle(Permutation(js))
  {
    var k, perm := |js| - 1, Permutation(js);
    var l := Cycle(js, k);
    forall m | 0 <= m <= k
      ensures perm[l.at[m]] == Next(l.at, m)
    {
      ComposedFollowsCycle(js, k, m);
      SourceIsComposed(js, 0, l.at[m]);
    }
    assert IsCycleOf(l, perm);
  }

  /** No position of a longer cycle keeps its own byte. */
  lemma SingleCycleMovesAll(perm: seq<nat>, p: nat)
    requires SingleCycle(perm) && |perm| >= 2 && p < |perm|
    ensures perm[p] != p
  {
    var l :| IsCycleOf(l, perm);
    var m := l.place[p];
    assert perm[l.at[m]] == Next(l.at, m);
  }

  // ----- The mutators

  ghost predicate IsPermutedBlock(before: seq<Byte>, after: seq<Byte>, off: nat, perm: seq<nat>) {
    && |before| == |after| && off + |perm| <= |before|
    && (forall p :: 0 <= p < |perm| ==> perm[p] < |perm| && after[off + p] == before[off + perm[p]])
    && (forall q :: 0 <= q < |before| && !(off <= q < off + |perm|) ==> after[q] == before[q])
  }

  /** Shuffles a block in place: from the last position down, each byte is exchanged with one
      of a lower position, never its own. */
  method ShuffleBlock(buf: array<Byte>, off: nat, blen: nat) returns (ghost js: seq<nat>)
    requires 1 <= blen && off + blen <= buf.Length
    modifies buf
    ensures |js| == blen && Draws(js)
    ensures IsPermutedBlock(old(buf[..]), buf[..], off, Permutation(js))
  {
    js := seq(blen, _ => 0);
    var i := blen - 1;
    ghost var before := buf[..];
    while i > 0
      invariant 0 <= i < blen && |js| == blen
      invariant Draws(js)
      invariant forall p :: 0 <= p < blen ==> Source(js, i, p) < blen && buf[off + p] == before[off + Source(js, i, p)]
      invariant forall q :: 0 <= q < buf.Length && !(off <= q < off + blen) ==> buf[q] == before[q]
    {
      var j :| 0 <= j <= i && j != i;
      ghost var js' := js[i := j];
      forall p | 0 <= p < blen
        ensures Source(js', i - 1, p) == Source(js, i, SwapAt(p, i, j))
      {
        SourceIgnores(js, js', i, SwapAt(p, i, j));
      }
      buf[off + i], buf[off + j] := buf[off + j], buf[off + i];
      js := js';
      i := i - 1;
    }
  }

  /** Draws of lower positions do not matter yet. */
  lemma {:induction false} SourceIgnores(js: seq<nat>, js': seq<nat>, i: nat, p: nat)
    requires |js| == |js'| && forall k :: i < k < |js| ==> js[k] == js'[k]
    ensures Source(js, i, p) == Source(js', i, p)
    decreases |js| - i
  {
    if i + 1 < |js| { SourceIgnores(js, js', i + 1, SwapAt(p, i + 1, js[i + 1])); }
  }

  /** MUT_SHUFFLE on the first `len` bytes. */
  method MutShuffle(buf: array<Byte>, len: nat, havoc: Settings) returns (ghost off: nat, ghost perm: seq<nat>)
    requires len <= buf.Length && len < TWO_32
    modifies buf
    ensures len < 4 ==> buf[..] == old(buf[..])
    ensures len >= 4 ==> Drawable(len - 1, havoc, |perm|) && 1 <= |perm| && off + |perm| <= len && SingleCycle(perm) && IsPermutedBlock(old(buf[..]), buf[..], off, perm)
  {
    off, perm := 0, [];
    if len < 4 { return; }
    var blen := ChooseBlockLen(len - 1, havoc);
    var at := RandBelow(len - blen + 1);
    ghost var js := ShuffleBlock(buf, at, blen);
    PermutationIsSingleCycle(js);
    off, perm := at, Permutation(js);
  }

  /** Two disjoint blocks of equal length change places; every other byte stays. */
  ghost predicate IsSwitched(before: seq<Byte>, after: seq<Byte>, a: nat, b: nat, n: nat) {
    && |before| == |after| && a + n <= |before| && b + n <= |before| && (a + n <= b || b + n <= a)
    && (forall q {:trigger after[q]} :: 0 <= q < |before| ==>
          after[q] == if a <= q < a + n then before[b + (q - a)] else if b <= q < b + n then before[a + (q - b)] else before[q])
  }

  method SwitchBlocks(buf: array<Byte>, a: nat, b: nat, n: nat)
    requires a + n <= buf.Length && b + n <= buf.Length && (a + n <= b || b + n <= a)
    modifies buf
    ensures IsSwitched(old(buf[..]), buf[..], a, b, n)
  {
    var tmp := buf[a..a + n];
    forall i | 0 <= i < n { buf[a + i] := buf[b + i]; }
    forall i | 0 <= i < n { buf[b + i] := tmp[i]; }
  }

  /** Blocks at `a` and `b` that neither meet nor leave the input are at most this long. */
  function SwitchLimit(len: nat, a: nat, b: nat): (n: nat) {
    var low, high := Min(a, b), if a < b then b else a;
    if high < len then Min(high - low, len - high) else 0
  }

  /** MUT_SWITCH on the first `len` bytes: the blocks lie within them and are not empty. */
  method MutSwitch(buf: array<Byte>, len: nat, havoc: Settings) returns (ghost from: nat, ghost to: nat, ghost n: nat)
    requires len <= buf.Length && len < TWO_32
    modifies buf
    ensures len < 4 ==> buf[..] == old(buf[..])
    ensures len >= 4 ==> Drawable(SwitchLimit(len, from, to), havoc, n) && n >= 1 && from + n <= len && to + n <= len && IsSwitched(old(buf[..]), buf[..], from, to, n)
  {
    from, to, n := 0, 0, 0;
    if len < 4 { return; }
    var a := RandBelow(len);
    var b :| 0 <= b < len && b != a;
    var gap := if a < b then b - a else a - b;
    var toEnd := if a < b then len - b else len - a;
    var size := ChooseBlockLen(Min(gap, toEnd), havoc);
    assert SwitchLimit(len, a, b) == Min(gap, toEnd);
    SwitchBlocks(buf, a, b, size);
    from, to, n := a, b, size;
  }
}
