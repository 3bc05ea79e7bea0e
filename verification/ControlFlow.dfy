/** Control-flow graphs of one function, as the coverage pass sees them: blocks,
    edges, runs, dominance and post-dominance (both by their path definitions). */
module ControlFlow {

  /** A simple directed graph. `dead` holds the blocks that contain nothing but an
      `unreachable` instruction: they end a path, but no run ever completes there. */
  datatype Cfg<!B(==)> = Cfg(blocks: set<B>, edges: set<(B, B)>, entry: B, dead: set<B>)

  ghost predicate Edge<B(!new)>(g: Cfg<B>, u: B, v: B) {
    (u, v) in g.edges
  }

  ghost predicate IsPath<B(!new)>(g: Cfg<B>, p: seq<B>) {
    && p != []
    && (forall i :: 0 <= i < |p| ==> p[i] in g.blocks)
    && (forall i, j :: 0 <= i && j == i + 1 && j < |p| ==> Edge(g, p[i], p[j]))
  }

  ghost predicate PathBetween<B(!new)>(g: Cfg<B>, u: B, v: B, p: seq<B>) {
    IsPath(g, p) && p[0] == u && p[|p| - 1] == v
  }

  ghost predicate HasSuccessor<B(!new)>(g: Cfg<B>, u: B) {
    exists v :: Edge(g, u, v)
  }

  ghost predicate OnlySuccessor<B(!new)>(g: Cfg<B>, u: B, v: B) {
    Edge(g, u, v) && forall w :: Edge(g, u, w) ==> w == v
  }

  ghost predicate OnlyPredecessor<B(!new)>(g: Cfg<B>, u: B, v: B) {
    Edge(g, u, v) && forall w :: Edge(g, w, v) ==> w == u
  }

  ghost predicate HasSinglePredecessor<B(!new)>(g: Cfg<B>, v: B) {
    exists u :: OnlyPredecessor(g, u, v)
  }

  ghost predicate Reachable<B(!new)>(g: Cfg<B>, v: B) {
    exists p :: PathBetween(g, g.entry, v, p)
  }

  /** What the rule relies on in a function body: edges join blocks, the entry has no
      predecessors, no reachable block has an unreachable predecessor, dead blocks have no
      successors. Unreachable blocks may exist, but lead only to one another. */
  ghost predicate WellFormed<B(!new)>(g: Cfg<B>) {
    && g.entry in g.blocks
    && g.dead <= g.blocks
    && (forall u, v :: Edge(g, u, v) ==> u in g.blocks && v in g.blocks && v != g.entry)
    && (forall u, v :: Edge(g, u, v) && Reachable(g, v) ==> Reachable(g, u))
    && (forall u, v :: Edge(g, u, v) ==> u !in g.dead)
  }

  /** An edge is critical when its source has another successor and its target another
      predecessor. Edges into dead blocks are never split, so they are not counted. */
  ghost predicate Critical<B(!new)>(g: Cfg<B>, u: B, v: B) {
    Edge(g, u, v) && v !in g.dead && !OnlySuccessor(g, u, v) && !OnlyPredecessor(g, u, v)
  }

  ghost predicate NoCriticalEdges<B(!new)>(g: Cfg<B>) {
    forall u, v :: Edge(g, u, v) ==> !Critical(g, u, v)
  }

  /** A complete execution: from the entry to a block without successors that is not dead. */
  ghost predicate IsRun<B(!new)>(g: Cfg<B>, p: seq<B>) {
    && IsPath(g, p)
    && p[0] == g.entry
    && !HasSuccessor(g, p[|p| - 1])
    && p[|p| - 1] !in g.dead
  }

  ghost predicate IsExitPath<B(!new)>(g: Cfg<B>, u: B, p: seq<B>) {
    IsPath(g, p) && p[0] == u && !HasSuccessor(g, p[|p| - 1])
  }

  ghost predicate Dominates<B(!new)>(g: Cfg<B>, a: B, b: B) {
    forall p :: PathBetween(g, g.entry, b, p) ==> a in p
  }

  ghost predicate PostDominates<B(!new)>(g: Cfg<B>, a: B, b: B) {
    forall p :: IsExitPath(g, b, p) ==> a in p
  }

  /** The run `p` takes the edge from `u` to `v`. */
  ghost predicate Traverses<B(!new)>(p: seq<B>, u: B, v: B) {
    exists i, j :: 0 <= i && j == i + 1 && j < |p| && p[i] == u && p[j] == v
  }

  // ----- Paths

  lemma PrefixIsPath<B(!new)>(g: Cfg<B>, p: seq<B>, i: nat)
    requires IsPath(g, p) && i < |p|
    ensures PathBetween(g, p[0], p[i], p[..i + 1])
  {
  }

  lemma SuffixIsPath<B(!new)>(g: Cfg<B>, p: seq<B>, i: nat)
    requires IsPath(g, p) && i < |p|
    ensures PathBetween(g, p[i], p[|p| - 1], p[i..])
  {
  }

  lemma AppendIsPath<B(!new)>(g: Cfg<B>, p: seq<B>, v: B)
    requires IsPath(g, p) && v in g.blocks && Edge(g, p[|p| - 1], v)
    ensures PathBetween(g, p[0], v, p + [v])
  {
  }

  /** Two paths joined at a shared block. */
  lemma JoinIsPath<B(!new)>(g: Cfg<B>, p: seq<B>, q: seq<B>)
    requires IsPath(g, p) && IsPath(g, q) && p[|p| - 1] == q[0]
    ensures PathBetween(g, p[0], q[|q| - 1], p + q[1..])
  {
    var r := p + q[1..];
    forall i, j | 0 <= i && j == i + 1 && j < |r|
      ensures Edge(g, r[i], r[j])
    {
      if j >= |p| {
        assert r[j] == q[j - |p| + 1];
        assert r[i] == q[i - |p| + 1];
      }
    }
    assert |q| > 1 ==> r[|r| - 1] == q[|q| - 1];
  }

  /** The last occurrence of a block on a path. */
  lemma LastOccurrence<B(!new)>(p: seq<B>, b: B) returns (k: nat)
    requires b in p
    ensures k < |p| && p[k] == b && b !in p[k + 1..]
  {
    k := |p| - 1;
    while p[k] != b
      invariant k < |p| && b !in p[k + 1..]
      decreases k
    {
      assert p[k..] == [p[k]] + p[k + 1..];
      assert b in p[..k + 1];
      k := k - 1;
    }
  }
}
