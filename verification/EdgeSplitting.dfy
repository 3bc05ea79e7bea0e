/** Splitting every critical edge before pruning, and the end-to-end statement: the
    instrumented blocks of the split function determine the edges of the original one. */
module EdgeSplitting {
  import opened ControlFlow
  import opened Pruning

  /** A block of the split function: an original block, or the block put on a critical edge. */
  datatype SplitBlock<B> = Orig(b: B) | OnEdge(from: B, to: B)

  /** A critical edge that the compiler does split. It refuses those into exception-handling
      pads and out of indirect branches; which ones these are is given as `unsplit`. */
  ghost predicate IsSplit<B(!new)>(g: Cfg<B>, unsplit: set<(B, B)>, u: B, v: B) {
    Critical(g, u, v) && (u, v) !in unsplit
  }

  ghost function EdgesToSplit<B(!new)>(g: Cfg<B>, unsplit: set<(B, B)>): set<(B, B)> {
    set e | e in g.edges && IsSplit(g, unsplit, e.0, e.1)
  }

  /** The edges that stay, and the two halves of each critical edge. */
  ghost function SplitCriticalEdges<B(!new)>(g: Cfg<B>, unsplit: set<(B, B)>): (r: Cfg<SplitBlock<B>>) {
    var critical := EdgesToSplit(g, unsplit);
    Cfg((set b | b in g.blocks :: Orig(b)) + (set e | e in critical :: OnEdge(e.0, e.1)),
        (set e | e in g.edges && e !in critical :: (Orig(e.0), Orig(e.1)))
        + (set e | e in critical :: (Orig(e.0), OnEdge(e.0, e.1)))
        + (set e | e in critical :: (OnEdge(e.0, e.1), Orig(e.1))),
        Orig(g.entry),
        set b | b in g.dead :: Orig(b))
  }

  /** The edges of the split function, read off directly. */
  ghost predicate SplitEdge<B(!new)>(g: Cfg<B>, unsplit: set<(B, B)>, u: SplitBlock<B>, v: SplitBlock<B>) {
    match (u, v)
    case (Orig(a), Orig(b)) => Edge(g, a, b) && !IsSplit(g, unsplit, a, b)
    case (Orig(a), OnEdge(f, t)) => a == f && IsSplit(g, unsplit, f, t)
    case (OnEdge(f, t), Orig(b)) => b == t && IsSplit(g, unsplit, f, t)
    case (OnEdge(_, _), OnEdge(_, _)) => false
  }

  lemma SplitEdges<B(!new)>(g: Cfg<B>, unsplit: set<(B, B)>, u: SplitBlock<B>, v: SplitBlock<B>)
    ensures Edge(SplitCriticalEdges(g, unsplit), u, v) <==> SplitEdge(g, unsplit, u, v)
  {
    match (u, v)
    case (Orig(a), Orig(b)) => assert Edge(g, a, b) ==> (a, b) in g.edges;
    case (Orig(a), OnEdge(f, t)) => assert IsSplit(g, unsplit, f, t) <==> (f, t) in EdgesToSplit(g, unsplit);
    case (OnEdge(f, t), Orig(b)) => assert IsSplit(g, unsplit, f, t) <==> (f, t) in EdgesToSplit(g, unsplit);
    case (OnEdge(_, _), OnEdge(_, _)) =>
  }

  // ----- Runs of the split function

  /** The steps a split function takes for one edge of the original. */
  ghost function Step<B(!new)>(g: Cfg<B>, unsplit: set<(B, B)>, u: B, v: B): (r: seq<SplitBlock<B>>) {
    if IsSplit(g, unsplit, u, v) then [OnEdge(u, v), Orig(v)] else [Orig(v)]
  }

  /** The path of the split function that does what `p` does in the original. */
  ghost function SplitPath<B(!new)>(g: Cfg<B>, unsplit: set<(B, B)>, p: seq<B>): (r: seq<SplitBlock<B>>)
    requires p != []
    ensures r != []
  {
    if |p| == 1 then [Orig(p[0])]
    else SplitPath(g, unsplit, p[..|p| - 1]) + Step(g, unsplit, p[|p| - 2], p[|p| - 1])
  }

  lemma {:induction false} SplitPathIsPath<B(!new)>(g: Cfg<B>, unsplit: set<(B, B)>, p: seq<B>)
    requires IsPath(g, p)
    ensures PathBetween(SplitCriticalEdges(g, unsplit), Orig(p[0]), Orig(p[|p| - 1]), SplitPath(g, unsplit, p))
  {
    var h := SplitCriticalEdges(g, unsplit);
    if |p| > 1 {
      var front, u, v := p[..|p| - 1], p[|p| - 2], p[|p| - 1];
      PrefixIsPath(g, p, |p| - 2);
      SplitPathIsPath(g, unsplit, front);
      var r := SplitPath(g, unsplit, front);
      assert Edge(g, u, v) && (u, v) in g.edges;
      if IsSplit(g, unsplit, u, v) {
        assert (u, v) in EdgesToSplit(g, unsplit);
        SplitEdges(g, unsplit, Orig(u), OnEdge(u, v));
        SplitEdges(g, unsplit, OnEdge(u, v), Orig(v));
        assert OnEdge(u, v) in h.blocks;
        AppendIsPath(h, r, OnEdge(u, v));
        AppendIsPath(h, r + [OnEdge(u, v)], Orig(v));
        assert r + [OnEdge(u, v)] + [Orig(v)] == SplitPath(g, unsplit, p);
      } else {
        SplitEdges(g, unsplit, Orig(u), Orig(v));
        AppendIsPath(h, r, Orig(v));
      }
    }
  }

  /** The original block that a block of the split function is reached through. */
  function Origin<B>(v: SplitBlock<B>): (b: B) {
    if v.Orig? then v.b else v.from
  }

  /** A path of the split function, seen in the original. */
  lemma {:induction false} SplitPathComesFromPath<B(!new)>(g: Cfg<B>, unsplit: set<(B, B)>, p: seq<SplitBlock<B>>)
    requires IsPath(SplitCriticalEdges(g, unsplit), p) && p[0] == Orig(g.entry)
    requires WellFormed(g)
    ensures Reachable(g, Origin(p[|p| - 1]))
  {
    var h := SplitCriticalEdges(g, unsplit);
    if |p| == 1 {
      assert PathBetween(g, g.entry, g.entry, [g.entry]);
    } else {
      var u, v := p[|p| - 2], p[|p| - 1];
      PrefixIsPath(h, p, |p| - 2);
      SplitPathComesFromPath(g, unsplit, p[..|p| - 1]);
      assert Edge(h, u, v);
      SplitEdges(g, unsplit, u, v);
      if v.Orig? {
        var q :| PathBetween(g, g.entry, Origin(u), q);
        AppendIsPath(g, q, v.b);
      }
    }
  }

  /** Reachable in the split function is reachable in the original one. */
  lemma SplitReachable<B(!new)>(g: Cfg<B>, unsplit: set<(B, B)>, v: SplitBlock<B>)
    requires WellFormed(g) && v in SplitCriticalEdges(g, unsplit).blocks
    ensures Reachable(SplitCriticalEdges(g, unsplit), v) <==> Reachable(g, Origin(v))
  {
    var h := SplitCriticalEdges(g, unsplit);
    if Reachable(h, v) {
      var p :| PathBetween(h, h.entry, v, p);
      SplitPathComesFromPath(g, unsplit, p);
    }
    if Reachable(g, Origin(v)) {
      var p :| PathBetween(g, g.entry, Origin(v), p);
      SplitPathIsPath(g, unsplit, p);
      if v.OnEdge? {
        assert (v.from, v.to) in EdgesToSplit(g, unsplit);
        SplitEdges(g, unsplit, Orig(v.from), v);
        AppendIsPath(h, SplitPath(g, unsplit, p), v);
      }
    }
  }

  /** Splitting keeps a function well formed. */
  lemma SplitIsWellFormed<B(!new)>(g: Cfg<B>, unsplit: set<(B, B)>)
    requires WellFormed(g)
    ensures WellFormed(SplitCriticalEdges(g, unsplit))
  {
    var h := SplitCriticalEdges(g, unsplit);
    forall u, v | Edge(h, u, v)
      ensures u in h.blocks && v in h.blocks && v != h.entry && u !in h.dead
      ensures Reachable(h, v) ==> Reachable(h, u)
    {
      SplitEdges(g, unsplit, u, v);
      assert u.OnEdge? ==> (u.from, u.to) in EdgesToSplit(g, unsplit);
      assert v.OnEdge? ==> (v.from, v.to) in EdgesToSplit(g, unsplit);
      SplitReachable(g, unsplit, u);
      SplitReachable(g, unsplit, v);
      assert Origin(u) == Origin(v) || Edge(g, Origin(u), Origin(v));
    }
  }

  /** No critical edge appears, and those left are the ones not split. */
  lemma SplitHasNoCriticalEdges<B(!new)>(g: Cfg<B>, unsplit: set<(B, B)>)
    ensures NoCriticalEdges(SplitCriticalEdges(g, unsplit)) <==> AllSplit(g, unsplit)
  {
    var h := SplitCriticalEdges(g, unsplit);
    forall x, y ensures Edge(h, x, y) <==> SplitEdge(g, unsplit, x, y) { SplitEdges(g, unsplit, x, y); }
    if AllSplit(g, unsplit) {
      forall u, v | Edge(h, u, v)
        ensures !Critical(h, u, v)
      {
        SplitEdgeIsNotCritical(g, unsplit, u, v);
      }
    } else {
      var a, b :| Critical(g, a, b) && (a, b) in unsplit;
      UnsplitStaysCritical(g, unsplit, a, b);
    }
  }

  /** The compiler left no critical edge unsplit. */
  ghost predicate AllSplit<B(!new)>(g: Cfg<B>, unsplit: set<(B, B)>) {
    forall u, v :: Critical(g, u, v) ==> (u, v) !in unsplit
  }

  lemma SplitEdgeIsNotCritical<B(!new)>(g: Cfg<B>, unsplit: set<(B, B)>, u: SplitBlock<B>, v: SplitBlock<B>)
    requires AllSplit(g, unsplit) && Edge(SplitCriticalEdges(g, unsplit), u, v)
    ensures !Critical(SplitCriticalEdges(g, unsplit), u, v)
  {
    var h := SplitCriticalEdges(g, unsplit);
    forall x, y ensures Edge(h, x, y) <==> SplitEdge(g, unsplit, x, y) { SplitEdges(g, unsplit, x, y); }
    if u.Orig? && v.Orig? {
      if OnlySuccessor(g, u.b, v.b) {
        assert OnlySuccessor(h, u, v);
      } else if OnlyPredecessor(g, u.b, v.b) {
        assert OnlyPredecessor(h, u, v);
      } else {
        assert v.b in g.dead;
      }
    } else if u.Orig? {
      assert OnlyPredecessor(h, u, v);
    } else {
      assert OnlySuccessor(h, u, v);
    }
  }

  lemma UnsplitStaysCritical<B(!new)>(g: Cfg<B>, unsplit: set<(B, B)>, a: B, b: B)
    requires Critical(g, a, b) && (a, b) in unsplit
    ensures Critical(SplitCriticalEdges(g, unsplit), Orig(a), Orig(b))
  {
    var h := SplitCriticalEdges(g, unsplit);
    SplitEdges(g, unsplit, Orig(a), Orig(b));
    var w :| Edge(g, a, w) && w != b;
    var w': SplitBlock<B> := if IsSplit(g, unsplit, a, w) then OnEdge(a, w) else Orig(w);
    SplitEdges(g, unsplit, Orig(a), w');
    var x :| Edge(g, x, b) && x != a;
    var x': SplitBlock<B> := if IsSplit(g, unsplit, x, b) then OnEdge(x, b) else Orig(x);
    SplitEdges(g, unsplit, x', Orig(b));
    assert Edge(h, Orig(a), w') && Edge(h, x', Orig(b));
  }

  lemma SplitRunIsRun<B(!new)>(g: Cfg<B>, unsplit: set<(B, B)>, p: seq<B>)
    requires IsRun(g, p)
    ensures IsRun(SplitCriticalEdges(g, unsplit), SplitPath(g, unsplit, p))
  {
    SplitPathIsPath(g, unsplit, p);
    var h, last := SplitCriticalEdges(g, unsplit), p[|p| - 1];
    forall v ensures !Edge(h, Orig(last), v) { SplitEdges(g, unsplit, Orig(last), v); }
  }

  /** An edge of the original is taken exactly when its image is taken in the split function. */
  lemma {:induction false} SplitPathTraverses<B(!new)>(g: Cfg<B>, unsplit: set<(B, B)>, p: seq<B>, u: B, v: B)
    requires IsPath(g, p)
    ensures IsSplit(g, unsplit, u, v) ==> (Traverses(p, u, v) <==> OnEdge(u, v) in SplitPath(g, unsplit, p))
    ensures Edge(g, u, v) && !IsSplit(g, unsplit, u, v) ==>
              (Traverses(p, u, v) <==> Traverses(SplitPath(g, unsplit, p), Orig(u), Orig(v)))
  {
    if |p| > 1 {
      var front, a, b := p[..|p| - 1], p[|p| - 2], p[|p| - 1];
      PrefixIsPath(g, p, |p| - 2);
      SplitPathTraverses(g, unsplit, front, u, v);
      SplitPathIsPath(g, unsplit, front);
      TraversesLast(front, b, u, v);
      assert p == front + [b];
      var r := SplitPath(g, unsplit, front);
      if IsSplit(g, unsplit, a, b) {
        TraversesLast(r, OnEdge(a, b), Orig(u), Orig(v));
        TraversesLast(r + [OnEdge(a, b)], Orig(b), Orig(u), Orig(v));
        assert r + [OnEdge(a, b)] + [Orig(b)] == SplitPath(g, unsplit, p);
      } else {
        TraversesLast(r, Orig(b), Orig(u), Orig(v));
      }
    }
  }

  lemma TraversesLast<B(!new)>(p: seq<B>, b: B, u: B, v: B)
    requires p != []
    ensures Traverses(p + [b], u, v) <==> Traverses(p, u, v) || (u == p[|p| - 1] && v == b)
  {
    var q := p + [b];
    if Traverses(p, u, v) {
      var i, j :| 0 <= i && j == i + 1 && j < |p| && p[i] == u && p[j] == v;
      assert q[i] == u && q[j] == v;
    }
    assert q[|p| - 1] == p[|p| - 1] && q[|p|] == b;
  }

  /** Splitting and pruning together lose nothing: two complete executions of the original
      function take the same edges exactly when their split versions hit the same
      instrumented blocks. */
  lemma SplitPruningIsLossless<B(!new)>(g: Cfg<B>, unsplit: set<(B, B)>, noPrune: bool, p: seq<B>, q: seq<B>)
    requires WellFormed(g) && AllSplit(g, unsplit) && IsRun(g, p) && IsRun(g, q)
    ensures SameCoverage(SplitCriticalEdges(g, unsplit), noPrune, SplitPath(g, unsplit, p), SplitPath(g, unsplit, q))
            <==> forall u, v :: Traverses(p, u, v) <==> Traverses(q, u, v)
  {
    var h, p', q' := SplitCriticalEdges(g, unsplit), SplitPath(g, unsplit, p), SplitPath(g, unsplit, q);
    SplitIsWellFormed(g, unsplit);
    SplitHasNoCriticalEdges(g, unsplit);
    SplitRunIsRun(g, unsplit, p);
    SplitRunIsRun(g, unsplit, q);
    PruningIsLossless(h, noPrune, p', q');
    if SameCoverage(h, noPrune, p', q') {
      forall u, v
        ensures Traverses(p, u, v) <==> Traverses(q, u, v)
      {
        SplitPathTraverses(g, unsplit, p, u, v);
        SplitPathTraverses(g, unsplit, q, u, v);
        assert Traverses(p, u, v) || Traverses(q, u, v) ==> Edge(g, u, v);
      }
    }
    if forall u, v :: Traverses(p, u, v) <==> Traverses(q, u, v) {
      SplitBlocksFollowEdges(g, unsplit, p, q);
      SplitBlocksFollowEdges(g, unsplit, q, p);
    }
  }

  lemma SplitBlocksFollowEdges<B(!new)>(g: Cfg<B>, unsplit: set<(B, B)>, p: seq<B>, q: seq<B>)
    requires IsRun(g, p) && IsRun(g, q)
    requires forall u, v :: Traverses(p, u, v) ==> Traverses(q, u, v)
    ensures forall b :: b in SplitPath(g, unsplit, p) ==> b in SplitPath(g, unsplit, q)
  {
    EdgesDetermineBlocks(g, p, q);
    forall b | b in SplitPath(g, unsplit, p)
      ensures b in SplitPath(g, unsplit, q)
    {
      if b.Orig? {
        SplitPathOriginals(g, unsplit, p, b.b);
        SplitPathOriginals(g, unsplit, q, b.b);
      } else {
        SplitPathSplits(g, unsplit, p, b);
        SplitPathTraverses(g, unsplit, p, b.from, b.to);
        SplitPathTraverses(g, unsplit, q, b.from, b.to);
      }
    }
  }

  lemma {:induction false} SplitPathOriginals<B(!new)>(g: Cfg<B>, unsplit: set<(B, B)>, p: seq<B>, b: B)
    requires p != []
    ensures Orig(b) in SplitPath(g, unsplit, p) <==> b in p
  {
    if |p| > 1 {
      SplitPathOriginals(g, unsplit, p[..|p| - 1], b);
      assert p == p[..|p| - 1] + [p[|p| - 1]];
    }
  }

  lemma {:induction false} SplitPathSplits<B(!new)>(g: Cfg<B>, unsplit: set<(B, B)>, p: seq<B>, b: SplitBlock<B>)
    requires p != [] && b.OnEdge? && b in SplitPath(g, unsplit, p)
    ensures IsSplit(g, unsplit, b.from, b.to)
  {
    if |p| > 1 && b in SplitPath(g, unsplit, p[..|p| - 1]) {
      SplitPathSplits(g, unsplit, p[..|p| - 1], b);
    }
  }
}
