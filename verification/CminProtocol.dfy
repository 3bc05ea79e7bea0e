/** The parallel trace collection of the corpus minimiser: a dispatcher, worker processes
    and the main process, joined by first-in first-out queues, as a transition system. */
module CminProtocol {
  import opened Basics
  import opened CminPack

  // ----- Configuration

  /** One run of the minimiser: the trace of each file (in order of file size), the number of
      workers, the number of tuples a trace can name, and the item sizes of the two kinds of
      arrays. A file that crashed, or was not run, has an empty trace. */
  datatype Config = Config(traces: seq<seq<nat>>, workers: nat, tuples: nat, fileWidth: nat, itemSize: nat, crashDir: bool) {
    ghost predicate Valid() {
      && workers >= 1
      && |traces| < Pow256(fileWidth)
      && forall i, j :: 0 <= i < |traces| && 0 <= j < |traces[i]| ==>
           traces[i][j] < tuples && traces[i][j] < Pow256(itemSize)
    }
  }

  /** The index that stands for "no file". */
  function NoFile(c: Config): (r: nat) {
    Pow256(c.fileWidth) - 1
  }

  function Range(n: nat): (r: seq<nat>)
    ensures |r| == n && forall i :: 0 <= i < n ==> r[i] == i
  {
    seq(n, i => i)
  }

  // ----- Jobs

  datatype Job = Batch(files: seq<nat>) | Stop

  /** File indices from `from` up to `n`, in batches of `chunk`. */
  function Batches(from: nat, n: nat, chunk: nat): (r: seq<Job>)
    requires chunk > 0 && from <= n
    decreases n - from
  {
    if from == n then [] else
      var to := if from + chunk <= n then from + chunk else n;
      [Batch(Range(n)[from..to])] + Batches(to, n, chunk)
  }

  function Chunk(n: nat, workers: nat): (r: nat)
    requires workers >= 1
    ensures r >= 1
  {
    var share := if n / workers < 128 then n / workers else 128;
    if share > 1 then share else 1
  }

  /** The batch size: an even share of the files, but at least one and at most 128. */
  lemma ChunkIsFairShare(n: nat, workers: nat)
    requires workers >= 1
    ensures 1 <= Chunk(n, workers) <= 128
    ensures n >= workers ==> Chunk(n, workers) * workers <= n
    ensures Chunk(n, workers) < 128 ==> n < (Chunk(n, workers) + 1) * workers
  {
    var q := n / workers;
    ShareBounds(n, workers, q);
    if q == 0 {
      assert Chunk(n, workers) == 1;
    } else if q < 128 {
      assert Chunk(n, workers) == q;
    } else {
      assert Chunk(n, workers) == 128;
      ProductMonotone(128, q, workers);
    }
  }

  lemma ShareBounds(n: nat, workers: nat, q: nat)
    requires workers >= 1 && q == n / workers
    ensures q * workers <= n < (q + 1) * workers
    ensures n < workers ==> q == 0
    ensures q == 0 ==> n < workers && n < 2 * workers
  {
    assert n == workers * q + n % workers;
    assert (q + 1) * workers == workers * q + workers;
  }

  lemma {:induction false} ProductMonotone(a: nat, b: nat, m: nat)
    requires a <= b
    ensures a * m <= b * m
  {
    if a < b {
      ProductMonotone(a, b - 1, m);
      assert b * m == (b - 1) * m + m;
    }
  }

  /** The batches are consecutive, all of the batch size but the last, which is not empty. */
  lemma {:induction false} BatchAt(from: nat, n: nat, chunk: nat, k: nat)
    requires chunk > 0 && from <= n && k < |Batches(from, n, chunk)|
    ensures chunk * k >= 0 && from + chunk * k < n
    ensures Batches(from, n, chunk)[k] == Batch(Range(n)[from + chunk * k..if from + chunk * k + chunk <= n then from + chunk * k + chunk else n])
    decreases k
  {
    var to := if from + chunk <= n then from + chunk else n;
    if k > 0 {
      BatchAt(to, n, chunk, k - 1);
      assert chunk * k == chunk * (k - 1) + chunk;
    }
  }

  function Stops(n: nat): (r: seq<Job>)
    ensures |r| == n && forall k :: 0 <= k < n ==> r[k] == Stop
  {
    seq(n, _ => Stop)
  }

  /** All batches, then one sentinel per worker. */
  function Jobs(c: Config): (r: seq<Job>)
    requires c.workers >= 1
  {
    Batches(0, |c.traces|, Chunk(|c.traces|, c.workers)) + Stops(c.workers)
  }

  // ----- Workers

  /** Progress message: nothing new in the trace, or where the trace was packed. */
  datatype Note = Skipped | Kept(idx: nat, worker: nat, pos: nat, count: nat)

  datatype Result = Result(worker: nat, best: seq<nat>, counts: multiset<nat>, crashes: seq<nat>)

  /** `rest` is what is left of the current batch. `done` and `sent` are history: the files
      handled so far, and the packed position reported for each that was kept. */
  datatype Worker = Worker(
    stopped: bool, rest: seq<nat>,
    best: seq<nat>, counts: multiset<nat>, crashes: seq<nat>, pack: seq<Byte>, packPos: nat,
    done: seq<nat>, sent: map<nat, (nat, nat)>)

  /** The table after looking at the tuples of file `idx`: smaller indices replace larger. */
  function Improve(best: seq<nat>, idx: nat, trace: seq<nat>): (r: seq<nat>)
    requires forall j :: 0 <= j < |trace| ==> trace[j] < |best|
    ensures |r| == |best|
  {
    if trace == [] then best else
      var b := Improve(best, idx, trace[..|trace| - 1]);
      var t := trace[|trace| - 1];
      if idx < b[t] then b[t := idx] else b
  }

  lemma {:induction false} ImproveTakesMinimum(best: seq<nat>, idx: nat, trace: seq<nat>, t: nat)
    requires forall j :: 0 <= j < |trace| ==> trace[j] < |best|
    requires t < |best|
    ensures Improve(best, idx, trace)[t] == if t in trace && idx < best[t] then idx else best[t]
  {
    if trace != [] {
      var n := |trace| - 1;
      ImproveTakesMinimum(best, idx, trace[..n], t);
      assert trace == trace[..n] + [trace[n]];
    }
  }

  /** The in-place loop over one trace. The trace is packed exactly when the table changed. */
  method RecordTrace(m: array<nat>, idx: nat, trace: seq<nat>) returns (used: bool)
    requires forall j :: 0 <= j < |trace| ==> trace[j] < m.Length
    modifies m
    ensures m[..] == Improve(old(m[..]), idx, trace)
    ensures used <==> m[..] != old(m[..])
  {
    used := false;
    ghost var before := m[..];
    for k := 0 to |trace|
      invariant m[..] == Improve(before, idx, trace[..k])
      invariant used <==> m[..] != before
    {
      assert trace[..k + 1][..k] == trace[..k];
      var t := trace[k];
      ImproveTakesMinimum(before, idx, trace[..k], t);
      if idx < m[t] {
        m[t] := idx;
        used := true;
        assert m[..][t] != before[t];
      }
    }
    assert trace[..|trace|] == trace;
  }

  /** The files whose trace is empty, in the order in which they were handled. */
  ghost function Crashed(c: Config, files: seq<nat>): (r: seq<nat>) {
    if files == [] then [] else
      var last := files[|files| - 1];
      Crashed(c, files[..|files| - 1]) + if last < |c.traces| && c.traces[last] == [] then [last] else []
  }

  lemma {:induction false} CrashedAre(c: Config, files: seq<nat>, idx: nat)
    ensures idx in Crashed(c, files) <==> idx in files && idx < |c.traces| && c.traces[idx] == []
  {
    if files != [] {
      var n := |files| - 1;
      CrashedAre(c, files[..n], idx);
      assert files == files[..n] + [files[n]];
    }
  }

  function NewWorker(c: Config): (w: Worker) {
    Worker(false, [], seq(c.tuples, _ => NoFile(c)), multiset{}, [], [], 0, [], map[])
  }

  ghost predicate CanProcess(c: Config, w: Worker) {
    && w.rest != [] && w.rest[0] < |c.traces|
    && forall j :: 0 <= j < |c.traces[w.rest[0]]| ==> c.traces[w.rest[0]][j] < |w.best|
  }

  /** Worker `i` handles the next file of its batch. */
  ghost function Process(c: Config, i: nat, w: Worker): (r: (Worker, Note))
    requires CanProcess(c, w)
  {
    var idx := w.rest[0];
    var trace := c.traces[idx];
    var crash := trace == [];
    var best := if !crash || !c.crashDir then Improve(w.best, idx, trace) else w.best;
    var used := best != w.best;
    var w' := w.(rest := w.rest[1..], best := best, counts := w.counts + multiset(trace),
                 crashes := if crash then w.crashes + [idx] else w.crashes, done := w.done + [idx]);
    if used then
      (w'.(pack := w.pack + ToFile(trace, c.itemSize), packPos := w.packPos + |trace| * c.itemSize,
           sent := w.sent[idx := (w.packPos, |trace|)]),
       Kept(idx, i, w.packPos, |trace|))
    else (w', Skipped)
  }

  // ----- The whole system

  datatype State = State(
    toDispatch: seq<Job>, queue: seq<Job>, workers: seq<Worker>,
    progress: seq<Note>, received: nat, traceInfo: map<nat, (nat, nat, nat)>,
    results: seq<Result>, merged: seq<Result>)

  datatype Actor = Dispatcher | WorkerNo(i: nat) | Main

  ghost function Init(c: Config): (s: State)
    requires c.Valid()
  {
    State(Jobs(c), [], seq(c.workers, _ => NewWorker(c)), [], 0, map[], [], [])
  }

  ghost predicate Finished(c: Config, s: State) {
    s.received == |c.traces| && |s.merged| == c.workers
  }

  ghost predicate Enabled(c: Config, s: State, a: Actor) {
    match a
    case Dispatcher => s.toDispatch != []
    case WorkerNo(i) => i < |s.workers| && !s.workers[i].stopped &&
                        if s.workers[i].rest != [] then CanProcess(c, s.workers[i]) else s.queue != []
    case Main => if s.received < |c.traces| then s.progress != []
                 else s.toDispatch == [] && |s.merged| < c.workers && s.results != []
  }

  /** One step of one process. Getting from an empty queue blocks; a sentinel stops the
      worker, which then reports its table; main first takes one message per file, waits for
      the dispatcher, then takes one result per worker. */
  ghost function Step(c: Config, s: State, a: Actor): (s': State)
    requires Enabled(c, s, a)
  {
    match a
    case Dispatcher => s.(toDispatch := s.toDispatch[1..], queue := s.queue + [s.toDispatch[0]])
    case WorkerNo(i) =>
      var w := s.workers[i];
      if w.rest != [] then
        var (w', note) := Process(c, i, w);
        s.(workers := s.workers[i := w'], progress := s.progress + [note])
      else if s.queue[0].Batch? then
        s.(workers := s.workers[i := w.(rest := s.queue[0].files)], queue := s.queue[1..])
      else
        s.(workers := s.workers[i := w.(stopped := true)], queue := s.queue[1..],
           results := s.results + [Result(i, w.best, w.counts, w.crashes)])
    case Main =>
      if s.received < |c.traces| then
        var note := s.progress[0];
        s.(progress := s.progress[1..], received := s.received + 1,
           traceInfo := if note.Kept? then s.traceInfo[note.idx := (note.worker, note.pos, note.count)] else s.traceInfo)
      else
        s.(results := s.results[1..], merged := s.merged + [s.results[0]])
  }

  // ----- Conserved quantities

  /** The sum of `g` over a list of files. */
  ghost function Mass(g: nat -> multiset<nat>, files: seq<nat>): (r: multiset<nat>) {
    if files == [] then multiset{} else g(files[0]) + Mass(g, files[1..])
  }

  ghost function JobMass(g: nat -> multiset<nat>, jobs: seq<Job>): (r: multiset<nat>) {
    if jobs == [] then multiset{}
    else (if jobs[0].Batch? then Mass(g, jobs[0].files) else multiset{}) + JobMass(g, jobs[1..])
  }

  datatype Part = Rest | Done | Unreported

  ghost function PartMass(g: nat -> multiset<nat>, w: Worker, part: Part): (r: multiset<nat>) {
    match part
    case Rest => Mass(g, w.rest)
    case Done => Mass(g, w.done)
    case Unreported => if w.stopped then multiset{} else Mass(g, w.done)
  }

  ghost function WorkerMass(g: nat -> multiset<nat>, ws: seq<Worker>, part: Part): (r: multiset<nat>) {
    if ws == [] then multiset{} else PartMass(g, ws[0], part) + WorkerMass(g, ws[1..], part)
  }

  ghost function ResultMass(rs: seq<Result>): (r: multiset<nat>) {
    if rs == [] then multiset{} else rs[0].counts + ResultMass(rs[1..])
  }

  ghost function StoppedCount(ws: seq<Worker>): (r: nat) {
    if ws == [] then 0 else (if ws[0].stopped then 1 else 0) + StoppedCount(ws[1..])
  }

  ghost function StopCount(jobs: seq<Job>): (r: nat) {
    if jobs == [] then 0 else (if jobs[0].Stop? then 1 else 0) + StopCount(jobs[1..])
  }

  /** Each file once. */
  ghost function Once(): (g: nat -> multiset<nat>) {
    (i: nat) => multiset{i}
  }

  /** Each file with its tuples. */
  ghost function Tuples(c: Config): (g: nat -> multiset<nat>) {
    (i: nat) => if i < |c.traces| then multiset(c.traces[i]) else multiset{}
  }

  lemma {:induction false} MassAppend(g: nat -> multiset<nat>, a: seq<nat>, b: seq<nat>)
    ensures Mass(g, a + b) == Mass(g, a) + Mass(g, b)
  {
    if a == [] {
      assert a + b == b;
    } else {
      assert (a + b)[1..] == a[1..] + b;
      MassAppend(g, a[1..], b);
    }
  }

  lemma AddFront(front: multiset<nat>, a: multiset<nat>, p: multiset<nat>, b: multiset<nat>, q: multiset<nat>)
    requires a + p == b + q
    ensures (front + a) + p == (front + b) + q
  {
    assert (front + a) + p == front + (a + p);
    assert (front + b) + q == front + (b + q);
  }

  lemma {:induction false} WorkerMassUpdate(g: nat -> multiset<nat>, ws: seq<Worker>, i: nat, w: Worker, part: Part)
    requires i < |ws|
    ensures WorkerMass(g, ws[i := w], part) + PartMass(g, ws[i], part) == WorkerMass(g, ws, part) + PartMass(g, w, part)
  {
    hide PartMass;
    if i == 0 {
      assert ws[0 := w][1..] == ws[1..];
    } else {
      assert ws[i := w][1..] == ws[1..][i - 1 := w];
      WorkerMassUpdate(g, ws[1..], i - 1, w, part);
      AddFront(PartMass(g, ws[0], part), WorkerMass(g, ws[1..][i - 1 := w], part), PartMass(g, ws[i], part),
               WorkerMass(g, ws[1..], part), PartMass(g, w, part));
    }
  }

  lemma {:induction false} StoppedCountUpdate(ws: seq<Worker>, i: nat, w: Worker)
    requires i < |ws| && !ws[i].stopped
    ensures StoppedCount(ws[i := w]) == StoppedCount(ws) + if w.stopped then 1 else 0
  {
    if i == 0 {
      assert ws[0 := w][1..] == ws[1..];
    } else {
      assert ws[i := w][1..] == ws[1..][i - 1 := w];
      StoppedCountUpdate(ws[1..], i - 1, w);
    }
  }

  lemma {:induction false} ResultMassAppend(a: seq<Result>, b: seq<Result>)
    ensures ResultMass(a + b) == ResultMass(a) + ResultMass(b)
  {
    if a == [] {
      assert a + b == b;
    } else {
      assert (a + b)[1..] == a[1..] + b;
      ResultMassAppend(a[1..], b);
    }
  }

  /** What a worker has done is part of the whole; what two workers have done is disjoint in it. */
  lemma {:induction false} WorkerMassIncludes(g: nat -> multiset<nat>, ws: seq<Worker>, i: nat, part: Part)
    requires i < |ws|
    ensures PartMass(g, ws[i], part) <= WorkerMass(g, ws, part)
  {
    if i > 0 { WorkerMassIncludes(g, ws[1..], i - 1, part); }
  }

  lemma {:induction false} WorkerMassIncludesTwo(g: nat -> multiset<nat>, ws: seq<Worker>, i: nat, j: nat, part: Part)
    requires i < j < |ws|
    ensures PartMass(g, ws[i], part) + PartMass(g, ws[j], part) <= WorkerMass(g, ws, part)
  {
    hide PartMass;
    if i > 0 {
      WorkerMassIncludesTwo(g, ws[1..], i - 1, j - 1, part);
      assert WorkerMass(g, ws[1..], part) <= WorkerMass(g, ws, part);
    } else {
      WorkerMassIncludes(g, ws[1..], j - 1, part);
    }
  }

  lemma {:induction false} WorkerMassMember(g: nat -> multiset<nat>, ws: seq<Worker>, part: Part, x: nat) returns (i: nat)
    requires x in WorkerMass(g, ws, part)
    ensures i < |ws| && x in PartMass(g, ws[i], part)
  {
    if x in PartMass(g, ws[0], part) {
      i := 0;
    } else {
      i := WorkerMassMember(g, ws[1..], part, x);
      i := i + 1;
    }
  }

  lemma {:induction false} OnceIsContent(files: seq<nat>)
    ensures Mass(Once(), files) == multiset(files)
  {
    if files != [] {
      OnceIsContent(files[1..]);
      assert files == [files[0]] + files[1..];
    }
  }
}
