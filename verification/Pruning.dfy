/** The block-pruning rule of the coverage pass, and why it loses no coverage. */
module Pruning {
  import opened ControlFlow

  /** The block has successors and dominates all of them. */
  ghost predicate IsFullDominator<B(!new)>(g: Cfg<B>, b: B) {
    HasSuccessor(g, b) && forall s :: Edge(g, b, s) ==> Dominates(g, b, s)
  }

  /** The block has predecessors and post-dominates all of them. */
  ghost predicate IsFullPostDominator<B(!new)>(g: Cfg<B>, b: B) {
    (exists u :: Edge(g, u, b)) && forall u :: Edge(g, u, b) ==> PostDominates(g, b, u)
  }

  ghost predicate ShouldInstrument<B(!new)>(g: Cfg<B>, b: B, noPrune: bool) {
    if b in g.dead then false
    else if noPrune || b == g.entry then true
    else !IsFullDominator(g, b) && !(IsFullPostDominator(g, b) && !HasSinglePredecessor(g, b))
  }

  /** Both runs hit the same instrumented blocks. */
  ghost predicate SameCoverage<B(!new)>(g: Cfg<B>, noPrune: bool, p: seq<B>, q: seq<B>) {
    forall b :: b in g.blocks && ShouldInstrument(g, b, noPrune) ==> (b in p <==> b in q)
  }

  /** The block is not a full dominator, and a live block shows it: it has no successor,
      or it fails to dominate a successor that is not dead. */
  ghost predicate Escapes<B(!new)>(g: Cfg<B>, b: B) {
    !HasSuccessor(g, b) || exists s :: Edge(g, b, s) && s !in g.dead && !Dominates(g, b, s)
  }

  // ----- One edge of a pruned stretch

  /** If `d` dominates its only successor `t`, every path to another predecessor of `t`
      has already passed through `t`. */
  lemma TargetDominatesOtherPredecessor<B(!new)>(g: Cfg<B>, d: B, t: B, e: B, p: seq<B>)
    requires WellFormed(g) && OnlySuccessor(g, d, t) && Dominates(g, d, t)
    requires d != t && e != d && Edge(g, e, t)
    requires PathBetween(g, g.entry, e, p)
    ensures t in p
  {
    AppendIsPath(g, p, t);
    assert d in p + [t];
    var k :| 0 <= k < |p| && p[k] == d;
    assert Edge(g, p[k], p[k + 1]);
  }

  /** A successor that `t` does not dominate has another predecessor, hence, without
      critical edges, is the only successor of `t`. The path found avoids `t`. */
  lemma UndominatedIsOnlySuccessor<B(!new)>(g: Cfg<B>, t: B, s: B) returns (p: seq<B>)
    requires WellFormed(g) && NoCriticalEdges(g)
    requires Edge(g, t, s) && s !in g.dead && !Dominates(g, t, s)
    ensures OnlySuccessor(g, t, s) && s != t
    ensures PathBetween(g, g.entry, s, p) && t !in p
  {
    p :| PathBetween(g, g.entry, s, p) && t !in p;
    assert |p| >= 2;
    assert Edge(g, p[|p| - 2], p[|p| - 1]);
    assert !Critical(g, t, s);
  }

  /** A block with several predecessors that is dominated by one of them, from which it is
      the only way on, dominates all its live successors. */
  lemma DominatedTargetCannotEscape<B(!new)>(g: Cfg<B>, d: B, t: B, e: B)
    requires WellFormed(g) && NoCriticalEdges(g)
    requires OnlySuccessor(g, d, t) && Dominates(g, d, t)
    requires Edge(g, e, t) && e != d && Reachable(g, e)
    ensures !Escapes(g, t)
  {
    if Escapes(g, t) {
      var toE :| PathBetween(g, g.entry, e, toE);
      if d != t {
        TargetDominatesOtherPredecessor(g, d, t, e, toE);
        var k := LastOccurrence(toE, t);
        var next := if k == |toE| - 1 then t else toE[k + 1];
        assert Edge(g, t, next);
        var s :| Edge(g, t, s) && s !in g.dead && !Dominates(g, t, s);
        var toS := UndominatedIsOnlySuccessor(g, t, s);
        SuffixIsPath(g, toE, k + 1);
        var around := toE[k + 1..];
        JoinIsPath(g, toS, around);
        TargetDominatesOtherPredecessor(g, d, t, e, toS + around[1..]);
      }
    }
  }

  // ----- The stretch of a run that another run misses

  lemma RunBlocksAreLive<B(!new)>(g: Cfg<B>, p: seq<B>, i: nat)
    requires WellFormed(g) && IsRun(g, p) && i < |p|
    ensures p[i] !in g.dead
  {
    if i + 1 < |p| {
      assert Edge(g, p[i], p[i + 1]);
    }
  }

  /** Blocks of `p` that `q` misses are pruned when the two runs have the same coverage. */
  lemma MissedBlockIsPruned<B(!new)>(g: Cfg<B>, noPrune: bool, p: seq<B>, q: seq<B>, i: nat)
    requires WellFormed(g) && IsRun(g, p) && IsRun(g, q) && SameCoverage(g, noPrune, p, q)
    requires i < |p| && p[i] !in q
    ensures IsFullDominator(g, p[i]) ||
            (IsFullPostDominator(g, p[i]) && !HasSinglePredecessor(g, p[i]))
  {
    RunBlocksAreLive(g, p, i);
    assert q[0] == g.entry;
  }

  /** Walking a missed stretch from its end to its start: none of its blocks is a full
      dominator. */
  lemma {:induction false} MissedBlockEscapes<B(!new)>(g: Cfg<B>, noPrune: bool, p: seq<B>, q: seq<B>, i: nat)
    requires WellFormed(g) && NoCriticalEdges(g)
    requires IsRun(g, p) && IsRun(g, q) && SameCoverage(g, noPrune, p, q)
    requires i < |p| && p[i] !in q
    ensures Escapes(g, p[i])
    decreases |p| - i
  {
    if i + 1 < |p| {
      var b, next := p[i], p[i + 1];
      assert Edge(g, b, next);
      RunBlocksAreLive(g, p, i + 1);
      PrefixIsPath(g, p, i + 1);
      if next in q {
        var k :| 0 <= k < |q| && q[k] == next;
        PrefixIsPath(g, q, k);
        assert b !in q[..k + 1];
      } else {
        MissedBlockEscapes(g, noPrune, p, q, i + 1);
        MissedBlockIsPruned(g, noPrune, p, q, i + 1);
        assert !OnlyPredecessor(g, b, next);
        assert !Critical(g, b, next);
        var e :| Edge(g, e, next) && e != b;
        if Dominates(g, b, next) {
          DominatedTargetCannotEscape(g, b, next, e);
        }
      }
    }
  }

  lemma SkippedIsNoPostDominator<B(!new)>(g: Cfg<B>, q: seq<B>, u: B, b: B)
    requires IsRun(g, q) && u in q && b !in q
    ensures !PostDominates(g, b, u)
  {
    var k :| 0 <= k < |q| && q[k] == u;
    SuffixIsPath(g, q, k);
    assert IsExitPath(g, u, q[k..]) && b !in q[k..];
  }

  lemma SameCoverageMissesNothing<B(!new)>(g: Cfg<B>, noPrune: bool, p: seq<B>, q: seq<B>)
    requires WellFormed(g) && NoCriticalEdges(g)
    requires IsRun(g, p) && IsRun(g, q) && SameCoverage(g, noPrune, p, q)
    ensures forall b :: b in p ==> b in q
  {
    var i := 0;
    while i < |p|
      invariant 0 <= i <= |p|
      invariant forall k :: 0 <= k < i ==> p[k] in q
    {
      if p[i] !in q {
        assert q[0] == p[0];
        assert Edge(g, p[i - 1], p[i]);
        SkippedIsNoPostDominator(g, q, p[i - 1], p[i]);
        MissedBlockEscapes(g, noPrune, p, q, i);
        MissedBlockIsPruned(g, noPrune, p, q, i);
      }
      i := i + 1;
    }
  }

  /** Without critical edges, the blocks of a complete run determine its edges. */
  lemma BlocksDetermineEdges<B(!new)>(g: Cfg<B>, p: seq<B>, q: seq<B>, u: B, v: B)
    requires WellFormed(g) && NoCriticalEdges(g) && IsRun(g, p) && IsRun(g, q)
    requires forall b :: b in p ==> b in q
    requires Traverses(p, u, v)
    ensures Traverses(q, u, v)
  {
    var i, j :| 0 <= i && j == i + 1 && j < |p| && p[i] == u && p[j] == v;
    assert Edge(g, u, v) && u in q && v in q;
    RunBlocksAreLive(g, p, j);
    assert !Critical(g, u, v);
    if OnlySuccessor(g, u, v) {
      var k :| 0 <= k < |q| && q[k] == u;
      assert k + 1 < |q|;
      assert Edge(g, q[k], q[k + 1]);
    } else {
      var k :| 0 <= k < |q| && q[k] == v;
      assert k > 0;
      assert Edge(g, q[k - 1], q[k]);
      assert q[k - 1] == u;
    }
  }

  /** Pruning is lossless: complete runs that hit the same instrumented blocks hit the
      same blocks and take the same edges. */
  lemma PruningIsLossless<B(!new)>(g: Cfg<B>, noPrune: bool, p: seq<B>, q: seq<B>)
    requires WellFormed(g) && NoCriticalEdges(g) && IsRun(g, p) && IsRun(g, q)
    ensures SameCoverage(g, noPrune, p, q) <==> (forall b :: b in p <==> b in q)
    ensures SameCoverage(g, noPrune, p, q) <==> (forall u, v :: Traverses(p, u, v) <==> Traverses(q, u, v))
  {
    if SameCoverage(g, noPrune, p, q) {
      SameCoverageMissesNothing(g, noPrune, p, q);
      SameCoverageMissesNothing(g, noPrune, q, p);
      forall u, v
        ensures Traverses(p, u, v) <==> Traverses(q, u, v)
      {
        if Traverses(p, u, v) { BlocksDetermineEdges(g, p, q, u, v); }
        if Traverses(q, u, v) { BlocksDetermineEdges(g, q, p, u, v); }
      }
    }
    if forall u, v :: Traverses(p, u, v) <==> Traverses(q, u, v) {
      EdgesDetermineBlocks(g, p, q);
      EdgesDetermineBlocks(g, q, p);
    }
  }

  lemma EdgesDetermineBlocks<B(!new)>(g: Cfg<B>, p: seq<B>, q: seq<B>)
    requires IsRun(g, p) && IsRun(g, q)
    requires forall u, v :: Traverses(p, u, v) ==> Traverses(q, u, v)
    ensures forall b :: b in p ==> b in q
  {
    forall b | b in p
      ensures b in q
    {
      var i :| 0 <= i < |p| && p[i] == b;
      if i > 0 {
        assert Traverses(p, p[i - 1], p[i]);
      } else {
        assert q[0] == b;
      }
    }
  }

  // ----- What the rule leaves out

  /** Without critical edges, a block with several successors, none of them dead, is the only way
      to each of them: it dominates them all. */
  lemma BranchesArePruned<B(!new)>(g: Cfg<B>, b: B, s: B, t: B)
    requires WellFormed(g) && NoCriticalEdges(g)
    requires b != g.entry && Edge(g, b, s) && Edge(g, b, t) && s != t
    requires forall v :: Edge(g, b, v) ==> v !in g.dead
    ensures IsFullDominator(g, b) && !ShouldInstrument(g, b, false)
  {
    forall v | Edge(g, b, v)
      ensures Dominates(g, b, v)
    {
      assert !Critical(g, b, v);
      forall p | PathBetween(g, g.entry, v, p)
        ensures b in p
      {
        assert Edge(g, p[|p| - 2], p[|p| - 1]);
        assert p[|p| - 2] == b;
      }
    }
  }

  /** Without critical edges, a block with several predecessors is the only way on from each of
      them: it post-dominates them all. */
  lemma JoinsArePruned<B(!new)>(g: Cfg<B>, b: B, u: B, w: B)
    requires WellFormed(g) && NoCriticalEdges(g)
    requires b != g.entry && Edge(g, u, b) && Edge(g, w, b) && u != w
    ensures !ShouldInstrument(g, b, false)
    ensures b !in g.dead ==> IsFullPostDominator(g, b) && !HasSinglePredecessor(g, b)
  {
    if b !in g.dead {
      forall v | Edge(g, v, b)
        ensures PostDominates(g, b, v)
      {
        assert !Critical(g, v, b);
        forall p | IsExitPath(g, v, p)
          ensures b in p
        {
          assert |p| > 1;
          assert Edge(g, p[0], p[1]);
          assert p[1] == b;
        }
      }
    }
  }

  /** What is instrumented after splitting, block by block: the entry, and the blocks with one
      predecessor that end the function or can be gone around on the way to a successor. */
  lemma InstrumentedExactly<B(!new)>(g: Cfg<B>, b: B)
    requires WellFormed(g) && NoCriticalEdges(g) && b in g.blocks && b !in g.dead && Reachable(g, b)
    ensures ShouldInstrument(g, b, true)
    ensures ShouldInstrument(g, b, false) <==>
              || b == g.entry
              || (HasSinglePredecessor(g, b) && (!HasSuccessor(g, b) || exists s :: Edge(g, b, s) && !Dominates(g, b, s)))
  {
    if b != g.entry {
      var p :| PathBetween(g, g.entry, b, p);
      var u := p[|p| - 2];
      assert Edge(g, u, b);
      if !HasSinglePredecessor(g, b) {
        assert !OnlyPredecessor(g, u, b);
        var w :| Edge(g, w, b) && w != u;
        JoinsArePruned(g, b, u, w);
      }
    }
  }

  // ----- Reachability cannot be dropped

  /** Two branches, 0-1-3 and 0-2-4, whose last blocks each have a second predecessor
      (5 and 6) that nothing reaches. */
  const UnreachablePredecessors: Cfg<nat> :=
    Cfg({0, 1, 2, 3, 4, 5, 6}, {(0, 1), (0, 2), (1, 3), (2, 4), (5, 3), (6, 4)}, 0, {})

  lemma ArmIsPruned(g: Cfg<nat>, arm: nat, end: nat, extra: nat)
    requires g == UnreachablePredecessors
    requires (arm, end, extra) == (1, 3, 5) || (arm, end, extra) == (2, 4, 6)
    ensures !ShouldInstrument(g, arm, false) && !ShouldInstrument(g, end, false)
  {
    forall p | PathBetween(g, 0, end, p)
      ensures arm in p
    {
      assert Edge(g, p[|p| - 2], p[|p| - 1]);
      if p[|p| - 2] == extra {
        assert Edge(g, p[|p| - 3], p[|p| - 2]);
      }
    }
    assert Edge(g, arm, end) && IsFullDominator(g, arm);
    forall u, p | Edge(g, u, end) && IsExitPath(g, u, p)
      ensures end in p
    {
      assert Edge(g, u, end) && |p| > 1;
      assert Edge(g, p[0], p[1]);
    }
    assert Edge(g, extra, end);
  }

  lemma ArmsHaveNoCriticalEdges(g: Cfg<nat>)
    requires g == UnreachablePredecessors
    ensures NoCriticalEdges(g)
  {
    forall u, v | Edge(g, u, v)
      ensures !Critical(g, u, v)
    {
      if u == 0 { assert OnlyPredecessor(g, u, v); } else { assert OnlySuccessor(g, u, v); }
    }
  }

  lemma ArmIsRun(g: Cfg<nat>, arm: nat, end: nat)
    requires g == UnreachablePredecessors
    requires (arm, end) == (1, 3) || (arm, end) == (2, 4)
    ensures IsRun(g, [0, arm, end])
  {
    var p := [0, arm, end];
    assert Edge(g, p[0], p[1]) && Edge(g, p[1], p[2]);
  }

  /** With a predecessor that is not reachable, the same rule prunes both arms of a branch:
      the two runs cover the same instrumented blocks and no common block after the entry. */
  lemma UnreachablePredecessorLosesCoverage(p: seq<nat>, q: seq<nat>)
    requires p == [0, 1, 3] && q == [0, 2, 4]
    ensures NoCriticalEdges(UnreachablePredecessors)
    ensures IsRun(UnreachablePredecessors, p) && IsRun(UnreachablePredecessors, q)
    ensures SameCoverage(UnreachablePredecessors, false, p, q)
    ensures 1 in p && 1 !in q
  {
    var g := UnreachablePredecessors;
    ArmIsPruned(g, 1, 3, 5);
    ArmIsPruned(g, 2, 4, 6);
    ArmIsRun(g, 1, 3);
    ArmIsRun(g, 2, 4);
    ArmsHaveNoCriticalEdges(g);
    assert p[1] == 1;
    forall b | b in g.blocks && ShouldInstrument(g, b, false)
      ensures b in p <==> b in q
    {
      assert b !in {1, 2, 3, 4};
      assert p[0] == 0 && q[0] == 0;
    }
  }

  // ----- Nor can the splitting of critical edges

  /** A branch 0-3 past the blocks 1 and 2, of which 2 is its own successor: the edges (0, 3),
      (2, 2) and (2, 3) are critical. */
  const CriticalBranch: Cfg<nat> :=
    Cfg({0, 1, 2, 3}, {(0, 1), (0, 3), (1, 2), (2, 2), (2, 3)}, 0, {})

  lemma BranchIsWellFormed(g: Cfg<nat>)
    requires g == CriticalBranch
    ensures WellFormed(g)
  {
    BranchRuns(g);
    PrefixIsPath(g, [0, 1, 2, 3], 1);
    PrefixIsPath(g, [0, 1, 2, 3], 2);
    assert PathBetween(g, 0, 0, [0]);
    assert Reachable(g, 0) && Reachable(g, 1) && Reachable(g, 2);
  }

  lemma BranchRuns(g: Cfg<nat>)
    requires g == CriticalBranch
    ensures IsRun(g, [0, 3]) && IsRun(g, [0, 1, 2, 3])
  {
    assert Edge(g, 0, 3) && Edge(g, 0, 1) && Edge(g, 1, 2) && Edge(g, 2, 3);
    var p, q := [0, 3], [0, 1, 2, 3];
    assert Edge(g, p[0], p[1]) && Edge(g, q[0], q[1]) && Edge(g, q[1], q[2]) && Edge(g, q[2], q[3]);
  }

  lemma OneIsFullDominator(g: Cfg<nat>)
    requires g == CriticalBranch
    ensures IsFullDominator(g, 1)
  {
    forall p | PathBetween(g, 0, 2, p)
      ensures 1 in p
    {
      TwoIsReachedThroughOne(g, p, |p| - 1);
    }
    assert Edge(g, 1, 2);
  }

  lemma {:induction false} TwoIsReachedThroughOne(g: Cfg<nat>, p: seq<nat>, i: nat)
    requires g == CriticalBranch && IsPath(g, p) && p[0] == 0 && i < |p| && p[i] == 2
    ensures 1 in p
  {
    assert Edge(g, p[i - 1], p[i]);
    if p[i - 1] == 2 { TwoIsReachedThroughOne(g, p, i - 1); }
  }

  lemma LaterBlocksPostDominate(g: Cfg<nat>, b: nat)
    requires g == CriticalBranch && b in {2, 3}
    ensures IsFullPostDominator(g, b) && !HasSinglePredecessor(g, b)
  {
    assert Edge(g, 1, 2) && Edge(g, 2, 2) && Edge(g, 0, 3) && Edge(g, 2, 3) && Edge(g, 0, 1);
    forall u, p | Edge(g, u, b) && IsExitPath(g, u, p)
      ensures b in p
    {
      if b == 3 {
        assert p[|p| - 1] == 3;
      } else {
        assert p[0] == 2 || Edge(g, p[0], p[1]);
      }
    }
  }

  /** With critical edges left, only the entry is instrumented although every block is reachable,
      and two runs that differ have the same coverage. */
  lemma CriticalEdgesLoseCoverage(p: seq<nat>, q: seq<nat>)
    requires p == [0, 3] && q == [0, 1, 2, 3]
    ensures WellFormed(CriticalBranch) && Critical(CriticalBranch, 0, 3)
    ensures IsRun(CriticalBranch, p) && IsRun(CriticalBranch, q)
    ensures SameCoverage(CriticalBranch, false, p, q) && 1 !in p && 1 in q
  {
    var g := CriticalBranch;
    BranchIsWellFormed(g);
    BranchRuns(g);
    assert Edge(g, 0, 3) && Edge(g, 0, 1) && Edge(g, 2, 3);
    OneIsFullDominator(g);
    LaterBlocksPostDominate(g, 2);
    LaterBlocksPostDominate(g, 3);
    assert q[1] == 1 && p[0] == 0 && q[0] == 0;
  }
}
