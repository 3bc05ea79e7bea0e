/** What every interleaving of the trace collection keeps, why it never deadlocks, and what
    holds when it ends. */
module CminInvariant {
  import opened Basics
  import opened CminPack
  import opened CminProtocol

  // ----- The invariant

  ghost function Pending(s: State): (r: seq<Job>) {
    s.queue + s.toDispatch
  }

  ghost predicate OnlyStops(jobs: seq<Job>) {
    forall k :: 0 <= k < |jobs| ==> jobs[k].Stop?
  }

  ghost predicate StopsLast(jobs: seq<Job>) {
    forall i, j :: 0 <= i < j < |jobs| && jobs[i].Stop? ==> jobs[j].Stop?
  }

  ghost predicate Below(n: nat, files: seq<nat>) {
    forall k :: 0 <= k < |files| ==> files[k] < n
  }

  ghost predicate InRange(c: Config, files: seq<nat>) {
    Below(|c.traces|, files)
  }

  /** Nothing is lost or duplicated between queue, batches at work and finished files. */
  ghost predicate Conserved(c: Config, s: State, g: nat -> multiset<nat>) {
    JobMass(g, Pending(s)) + WorkerMass(g, s.workers, Rest) + WorkerMass(g, s.workers, Done) == Mass(g, Range(|c.traces|))
  }

  /** Sentinels come after all batches, and one is left for each worker still running. */
  ghost predicate JobsInv(c: Config, s: State) {
    && |s.workers| == c.workers
    && StopsLast(Pending(s))
    && StopCount(Pending(s)) + StoppedCount(s.workers) == c.workers
    && (forall k :: 0 <= k < |Pending(s)| && Pending(s)[k].Batch? ==> InRange(c, Pending(s)[k].files))
    && (forall i :: 0 <= i < |s.workers| ==> InRange(c, s.workers[i].rest))
    && (forall i :: 0 <= i < |s.workers| && s.workers[i].stopped ==> OnlyStops(Pending(s)) && s.workers[i].rest == [])
  }

  /** Least index, among the files of `done`, whose trace has `t`; else the index for "no file". */
  ghost predicate IsLeast(c: Config, done: seq<nat>, t: nat, least: nat) {
    && (forall k :: 0 <= k < |done| && done[k] < |c.traces| && t in c.traces[done[k]] ==> least <= done[k])
    && (least == NoFile(c) || (least in done && least < |c.traces| && t in c.traces[least]))
  }

  ghost predicate PackInv(c: Config, w: Worker) {
    && w.packPos == |w.pack|
    && (forall idx :: idx in w.sent ==>
          && idx in w.done && idx < |c.traces|
          && w.sent[idx].1 == |c.traces[idx]| && Holds(w.pack, w.sent[idx].0, c.traces[idx], c.itemSize))
  }

  /** The table is exact for the files done, and every file it names has been reported. */
  ghost predicate TableInv(c: Config, w: Worker) {
    && |w.best| == c.tuples
    && (forall t :: 0 <= t < c.tuples ==>
          IsLeast(c, w.done, t, w.best[t]) && (w.best[t] != NoFile(c) ==> w.best[t] in w.sent))
  }

  ghost predicate WorkerInv(c: Config, w: Worker) {
    && TableInv(c, w)
    && PackInv(c, w)
    && InRange(c, w.done)
    && w.counts == Mass(Tuples(c), w.done)
    && w.crashes == Crashed(c, w.done)
  }

  ghost predicate Sent(ws: seq<Worker>, i: nat, idx: nat, pos: nat, count: nat) {
    i < |ws| && idx in ws[i].sent && ws[i].sent[idx] == (pos, count)
  }

  /** Whatever was sent has been taken in or is still queued. */
  ghost predicate AllReported(ws: seq<Worker>, info: map<nat, (nat, nat, nat)>, progress: seq<Note>) {
    forall i: nat, idx: nat, pos: nat, count: nat :: Sent(ws, i, idx, pos, count) ==>
      (idx in info && info[idx] == (i, pos, count)) || Kept(idx, i, pos, count) in progress
  }

  ghost predicate NotesTrue(ws: seq<Worker>, progress: seq<Note>) {
    forall k :: 0 <= k < |progress| && progress[k].Kept? ==>
      Sent(ws, progress[k].worker, progress[k].idx, progress[k].pos, progress[k].count)
  }

  /** One message per finished file, each taken in or still queued. */
  ghost predicate NotesInv(c: Config, s: State) {
    && s.received <= |c.traces|
    && s.received + |s.progress| == |WorkerMass(Once(), s.workers, Done)|
    && AllReported(s.workers, s.traceInfo, s.progress)
    && NotesTrue(s.workers, s.progress)
  }

  ghost predicate ResultsTrue(ws: seq<Worker>, rs: seq<Result>) {
    forall k :: 0 <= k < |rs| ==>
      rs[k].worker < |ws| && ws[rs[k].worker].stopped
      && rs[k].best == ws[rs[k].worker].best && rs[k].crashes == ws[rs[k].worker].crashes
  }

  ghost predicate HasResult(rs: seq<Result>, i: nat) {
    exists k :: 0 <= k < |rs| && rs[k].worker == i
  }

  ghost predicate AllResults(ws: seq<Worker>, rs: seq<Result>) {
    forall i :: 0 <= i < |ws| && ws[i].stopped ==> HasResult(rs, i)
  }

  /** One result per stopped worker, with its table and its counts. */
  ghost predicate ResultsInv(c: Config, s: State) {
    var rs := s.merged + s.results;
    && |s.merged| <= c.workers
    && |rs| == StoppedCount(s.workers)
    && ResultsTrue(s.workers, rs)
    && AllResults(s.workers, rs)
    && ResultMass(rs) + WorkerMass(Tuples(c), s.workers, Unreported) == WorkerMass(Tuples(c), s.workers, Done)
  }

  ghost predicate Inv(c: Config, s: State) {
    && JobsInv(c, s)
    && Conserved(c, s, Once()) && Conserved(c, s, Tuples(c))
    && (forall i :: 0 <= i < |s.workers| ==> WorkerInv(c, s.workers[i]))
    && NotesInv(c, s)
    && ResultsInv(c, s)
  }

  // ----- It holds initially

  lemma {:induction false} JobMassAppend(g: nat -> multiset<nat>, a: seq<Job>, b: seq<Job>)
    ensures JobMass(g, a + b) == JobMass(g, a) + JobMass(g, b)
  {
    if a == [] {
      assert a + b == b;
    } else {
      assert (a + b)[1..] == a[1..] + b;
      JobMassAppend(g, a[1..], b);
    }
  }

  lemma {:induction false} StopCountAppend(a: seq<Job>, b: seq<Job>)
    ensures StopCount(a + b) == StopCount(a) + StopCount(b)
  {
    if a == [] {
      assert a + b == b;
    } else {
      assert (a + b)[1..] == a[1..] + b;
      StopCountAppend(a[1..], b);
    }
  }

  lemma {:induction false} StopsMass(g: nat -> multiset<nat>, jobs: seq<Job>)
    requires OnlyStops(jobs)
    ensures JobMass(g, jobs) == multiset{} && StopCount(jobs) == |jobs|
  {
    if jobs != [] { StopsMass(g, jobs[1..]); }
  }

  lemma {:induction false} BatchesCoverRange(g: nat -> multiset<nat>, from: nat, n: nat, chunk: nat)
    requires chunk > 0 && from <= n
    ensures JobMass(g, Batches(from, n, chunk)) == Mass(g, Range(n)[from..])
    decreases n - from
  {
    if from < n {
      var to := if from + chunk <= n then from + chunk else n;
      BatchesCoverRange(g, to, n, chunk);
      assert Range(n)[from..] == Range(n)[from..to] + Range(n)[to..];
      MassAppend(g, Range(n)[from..to], Range(n)[to..]);
      hide Mass;
    }
  }

  lemma {:induction false} BatchesAreBatches(from: nat, n: nat, chunk: nat)
    requires chunk > 0 && from <= n
    ensures StopCount(Batches(from, n, chunk)) == 0
    ensures forall k :: 0 <= k < |Batches(from, n, chunk)| ==>
              var j := Batches(from, n, chunk)[k]; j.Batch? && Below(n, j.files)
    decreases n - from
  {
    if from < n {
      var to := if from + chunk <= n then from + chunk else n;
      BatchesAreBatches(to, n, chunk);
    }
  }

  lemma {:induction false} NewWorkersMass(g: nat -> multiset<nat>, c: Config, ws: seq<Worker>, part: Part)
    requires forall i :: 0 <= i < |ws| ==> ws[i] == NewWorker(c)
    ensures WorkerMass(g, ws, part) == multiset{} && StoppedCount(ws) == 0
  {
    if ws != [] { NewWorkersMass(g, c, ws[1..], part); }
  }

  lemma InitConserved(c: Config, g: nat -> multiset<nat>)
    requires c.Valid()
    ensures Conserved(c, Init(c), g)
  {
    var s, n := Init(c), |c.traces|;
    var batches, stops := Batches(0, n, Chunk(n, c.workers)), Stops(c.workers);
    assert Pending(s) == batches + stops;
    JobMassAppend(g, batches, stops);
    StopsMass(g, stops);
    BatchesCoverRange(g, 0, n, Chunk(n, c.workers));
    assert Range(n)[0..] == Range(n);
    NewWorkersMass(g, c, s.workers, Rest);
    NewWorkersMass(g, c, s.workers, Done);
  }

  lemma BatchesThenStops(c: Config, batches: seq<Job>, stops: seq<Job>)
    requires OnlyStops(stops)
    requires forall k :: 0 <= k < |batches| ==> batches[k].Batch? && InRange(c, batches[k].files)
    ensures StopsLast(batches + stops)
    ensures forall k :: 0 <= k < |batches + stops| && (batches + stops)[k].Batch? ==> InRange(c, (batches + stops)[k].files)
  {
    hide InRange;
  }

  lemma InitJobs(c: Config)
    requires c.Valid()
    ensures JobsInv(c, Init(c))
  {
    hide Chunk, Stops, Range, NewWorker;
    var s, n := Init(c), |c.traces|;
    hide Config.Valid;
    var batches, stops := Batches(0, n, Chunk(n, c.workers)), Stops(c.workers);
    assert Pending(s) == batches + stops;
    BatchesAreBatches(0, n, Chunk(n, c.workers));
    hide Batches;
    assert forall k :: 0 <= k < |batches| ==> batches[k].Batch? && InRange(c, batches[k].files);
    StopsMass(Once(), stops);
    StopCountAppend(batches, stops);
    BatchesThenStops(c, batches, stops);
    NewWorkersMass(Once(), c, s.workers, Done);
    assert NewWorker(c).rest == [] && !NewWorker(c).stopped by { NewWorkerIdle(c); }
    hide StopCount, StoppedCount, StopsLast;
  }

  lemma NewWorkerIdle(c: Config)
    ensures NewWorker(c).rest == [] && !NewWorker(c).stopped
  {
  }

  lemma NewWorkerInv(c: Config)
    ensures WorkerInv(c, NewWorker(c))
  {
  }

  lemma InitNotes(c: Config)
    requires c.Valid()
    ensures NotesInv(c, Init(c))
  {
    var s := Init(c);
    NewWorkersMass(Once(), c, s.workers, Done);
    hide WorkerMass, StoppedCount, Jobs;
    assert forall i: nat, idx: nat, pos: nat, count: nat :: !Sent(s.workers, i, idx, pos, count);
  }

  lemma InitResults(c: Config)
    requires c.Valid()
    ensures ResultsInv(c, Init(c))
  {
    var s := Init(c);
    NewWorkersMass(Tuples(c), c, s.workers, Done);
    NewWorkersMass(Tuples(c), c, s.workers, Unreported);
    hide WorkerMass, Jobs;
    assert s.merged + s.results == [];
  }

  lemma InitInv(c: Config)
    requires c.Valid()
    ensures Inv(c, Init(c))
  {
    InitJobs(c);
    InitConserved(c, Once());
    InitConserved(c, Tuples(c));
    InitNotes(c);
    InitResults(c);
    NewWorkerInv(c);
    hide Conserved, JobsInv, NotesInv, ResultsInv, Jobs, WorkerInv, NewWorker;
  }

  // ----- Steps that move files

  /** A batch goes from the queue to a worker. */
  lemma BalanceTake(jobs: multiset<nat>, files: multiset<nat>, jobs': multiset<nat>,
                    rest: multiset<nat>, rest': multiset<nat>, done: multiset<nat>, done': multiset<nat>)
    requires jobs == files + jobs'
    requires rest' + multiset{} == rest + files
    requires done' == done
    ensures jobs' + rest' + done' == jobs + rest + done
  {
    assert rest' == rest + files;
    assert jobs' + (rest + files) == (files + jobs') + rest;
  }

  /** A file goes from a worker's batch to its finished files. */
  lemma BalanceProcess(jobs: multiset<nat>, file: multiset<nat>, rest: multiset<nat>, rest': multiset<nat>,
                       done: multiset<nat>, done': multiset<nat>, r: multiset<nat>, d: multiset<nat>)
    requires rest' + (file + r) == rest + r
    requires done' + d == done + (d + file)
    ensures jobs + rest' + done' == jobs + rest + done
  {
    forall x
      ensures (jobs + rest' + done')[x] == (jobs + rest + done)[x]
    {
      assert (rest' + (file + r))[x] == (rest + r)[x];
      assert (done' + d)[x] == (done + (d + file))[x];
    }
  }

  lemma TakeConserves(c: Config, s: State, i: nat, g: nat -> multiset<nat>)
    requires Conserved(c, s, g)
    requires Enabled(c, s, WorkerNo(i)) && s.workers[i].rest == []
    ensures Conserved(c, Step(c, s, WorkerNo(i)), g)
  {
    var s', w := Step(c, s, WorkerNo(i)), s.workers[i];
    assert Pending(s') == Pending(s)[1..] && Pending(s)[0] == s.queue[0];
    var w' := s'.workers[i];
    assert s'.workers == s.workers[i := w'];
    var files := if s.queue[0].Batch? then Mass(g, s.queue[0].files) else multiset{};
    assert JobMass(g, Pending(s)) == files + JobMass(g, Pending(s'));
    assert PartMass(g, w, Rest) == multiset{} && PartMass(g, w', Rest) == files && PartMass(g, w', Done) == PartMass(g, w, Done);
    WorkerMassUpdate(g, s.workers, i, w', Rest);
    WorkerMassUpdate(g, s.workers, i, w', Done);
    hide JobMass, WorkerMass, PartMass, Mass;
    var d := PartMass(g, w, Done);
    assert WorkerMass(g, s'.workers, Done) == WorkerMass(g, s.workers, Done) by {
      CancelSame(WorkerMass(g, s'.workers, Done), WorkerMass(g, s.workers, Done), d);
    }
    BalanceTake(JobMass(g, Pending(s)), files, JobMass(g, Pending(s')),
                WorkerMass(g, s.workers, Rest), WorkerMass(g, s'.workers, Rest),
                WorkerMass(g, s.workers, Done), WorkerMass(g, s'.workers, Done));
  }

  lemma CancelSame(a: multiset<nat>, b: multiset<nat>, d: multiset<nat>)
    requires a + d == b + d
    ensures a == b
  {
    forall x ensures a[x] == b[x] { assert (a + d)[x] == (b + d)[x]; }
  }

  lemma ProcessConserves(c: Config, s: State, i: nat, g: nat -> multiset<nat>)
    requires Conserved(c, s, g)
    requires Enabled(c, s, WorkerNo(i)) && s.workers[i].rest != []
    ensures Conserved(c, Step(c, s, WorkerNo(i)), g)
  {
    var s', w := Step(c, s, WorkerNo(i)), s.workers[i];
    var w' := s'.workers[i];
    assert s'.workers == s.workers[i := w'] && Pending(s') == Pending(s);
    var idx := w.rest[0];
    assert PartMass(g, w, Rest) == g(idx) + PartMass(g, w', Rest);
    MassOfOne(g, w.done, idx);
    assert PartMass(g, w', Done) == PartMass(g, w, Done) + g(idx);
    WorkerMassUpdate(g, s.workers, i, w', Rest);
    WorkerMassUpdate(g, s.workers, i, w', Done);
    hide JobMass, WorkerMass, PartMass, Mass;
    BalanceProcess(JobMass(g, Pending(s)), g(idx), WorkerMass(g, s.workers, Rest), WorkerMass(g, s'.workers, Rest),
                   WorkerMass(g, s.workers, Done), WorkerMass(g, s'.workers, Done), PartMass(g, w', Rest), PartMass(g, w, Done));
  }

  // ----- Jobs and sentinels

  lemma DispatchKeepsPending(c: Config, s: State)
    requires Enabled(c, s, Dispatcher)
    ensures Pending(Step(c, s, Dispatcher)) == Pending(s)
  {
  }

  lemma TakeKeepsJobs(c: Config, s: State, i: nat)
    requires JobsInv(c, s)
    requires Enabled(c, s, WorkerNo(i)) && s.workers[i].rest == []
    ensures JobsInv(c, Step(c, s, WorkerNo(i)))
  {
    var s' := Step(c, s, WorkerNo(i));
    var p, p' := Pending(s), Pending(s');
    assert p' == p[1..] && p[0] == s.queue[0];
    StoppedCountUpdate(s.workers, i, s'.workers[i]);
    assert StopCount(p) == (if p[0].Stop? then 1 else 0) + StopCount(p');
    hide StopCount, StoppedCount, InRange;
    assert p[0].Stop? ==> OnlyStops(p');
    forall k | 0 <= k < |p'| && p'[k].Batch?
      ensures InRange(c, p'[k].files)
    {
      assert p'[k] == p[k + 1];
    }
    assert s.workers[i].rest == [] && InRange(c, s.workers[i].rest);
  }

  lemma ProcessKeepsJobs(c: Config, s: State, i: nat)
    requires JobsInv(c, s)
    requires Enabled(c, s, WorkerNo(i)) && s.workers[i].rest != []
    ensures JobsInv(c, Step(c, s, WorkerNo(i)))
  {
    var s' := Step(c, s, WorkerNo(i));
    StoppedCountUpdate(s.workers, i, s'.workers[i]);
    assert Pending(s') == Pending(s);
    assert InRange(c, s.workers[i].rest) && s'.workers[i].rest == s.workers[i].rest[1..];
    hide StopCount, StoppedCount, StopsLast, OnlyStops;
  }

  // ----- One worker's table and pack

  lemma ProcessKeepsLeast(c: Config, i: nat, w: Worker, t: nat)
    requires c.Valid() && TableInv(c, w) && CanProcess(c, w) && t < c.tuples
    ensures var w' := Process(c, i, w).0;
            IsLeast(c, w'.done, t, w'.best[t]) && (w'.best[t] != NoFile(c) ==> w'.best[t] in w'.sent)
  {
    var idx, w' := w.rest[0], Process(c, i, w).0;
    ImproveTakesMinimum(w.best, idx, c.traces[idx], t);
    assert IsLeast(c, w.done, t, w.best[t]);
    assert w'.done == w.done + [idx] && w'.done[|w.done|] == idx;
    assert forall x :: x in w.done ==> x in w'.done;
  }

  lemma ProcessKeepsPack(c: Config, i: nat, w: Worker)
    requires PackInv(c, w) && CanProcess(c, w)
    ensures PackInv(c, Process(c, i, w).0)
  {
    var idx, w' := w.rest[0], Process(c, i, w).0;
    assert w'.done == w.done + [idx] && w'.done[|w.done|] == idx;
    var more := w'.pack[|w.pack|..];
    assert w'.pack == w.pack + more;
    forall x | x in w'.sent
      ensures x in w'.done && x < |c.traces| && w'.sent[x].1 == |c.traces[x]|
      ensures Holds(w'.pack, w'.sent[x].0, c.traces[x], c.itemSize)
    {
      if w'.sent != w.sent && x == idx {
        assert w'.pack[w.packPos..] == ToFile(c.traces[idx], c.itemSize);
      } else {
        HoldsAppended(w.pack, w.sent[x].0, c.traces[x], c.itemSize, more);
      }
    }
  }

  lemma {:induction false} MassOfOne(g: nat -> multiset<nat>, files: seq<nat>, x: nat)
    ensures Mass(g, files + [x]) == Mass(g, files) + g(x)
  {
    MassAppend(g, files, [x]);
    assert Mass(g, [x]) == g(x) + multiset{};
  }

  lemma ProcessKeepsTable(c: Config, i: nat, w: Worker)
    requires c.Valid() && TableInv(c, w) && CanProcess(c, w)
    ensures TableInv(c, Process(c, i, w).0)
  {
    var w' := Process(c, i, w).0;
    hide IsLeast, Config.Valid, ToFile;
    forall t | 0 <= t < c.tuples
      ensures IsLeast(c, w'.done, t, w'.best[t]) && (w'.best[t] != NoFile(c) ==> w'.best[t] in w'.sent)
    {
      ProcessKeepsLeast(c, i, w, t);
    }
  }

  /** What handling a file does to the bookkeeping. */
  lemma ProcessEffect(c: Config, i: nat, w: Worker)
    requires CanProcess(c, w)
    ensures var (w', note) := Process(c, i, w);
            var idx := w.rest[0];
            && w'.done == w.done + [idx] && w'.rest == w.rest[1..] && w'.stopped == w.stopped
            && w'.counts == w.counts + Tuples(c)(idx)
            && w'.crashes == (if c.traces[idx] == [] then w.crashes + [idx] else w.crashes)
            && (if note.Kept? then note.idx == idx && note.worker == i && w'.sent == w.sent[idx := (note.pos, note.count)]
                else w'.sent == w.sent)
  {
    hide ToFile, Improve;
  }

  lemma ProcessKeepsWorker(c: Config, i: nat, w: Worker)
    requires c.Valid() && WorkerInv(c, w) && CanProcess(c, w)
    ensures WorkerInv(c, Process(c, i, w).0)
  {
    hide TableInv, PackInv, Mass, Process, Config.Valid, Tuples;
    ProcessEffect(c, i, w);
    MassOfOne(Tuples(c), w.done, w.rest[0]);
    assert (w.done + [w.rest[0]])[..|w.done|] == w.done;
    ProcessKeepsPack(c, i, w);
    ProcessKeepsTable(c, i, w);
  }

  // ----- Each file is in one place

  lemma {:induction false} RangeOnce(n: nat, m: nat, x: nat)
    requires m <= n
    ensures multiset(Range(n)[..m])[x] == if x < m then 1 else 0
  {
    if m > 0 {
      RangeOnce(n, m - 1, x);
      assert Range(n)[..m] == Range(n)[..m - 1] + [m - 1];
    }
  }

  lemma FilesOnce(c: Config, s: State, x: nat)
    requires Conserved(c, s, Once())
    ensures (WorkerMass(Once(), s.workers, Rest) + WorkerMass(Once(), s.workers, Done))[x] <= 1
  {
    var n := |c.traces|;
    hide JobMass, WorkerMass;
    OnceIsContent(Range(n));
    RangeOnce(n, n, x);
    assert Range(n)[..n] == Range(n);
    assert Mass(Once(), Range(n))[x] <= 1;
    hide Mass, Range;
    var j, r, d := JobMass(Once(), Pending(s)), WorkerMass(Once(), s.workers, Rest), WorkerMass(Once(), s.workers, Done);
    assert (j + r + d)[x] == j[x] + (r + d)[x];
  }

  lemma DoneIsMass(w: Worker, x: nat)
    requires x in w.done
    ensures PartMass(Once(), w, Done)[x] >= 1
  {
    OnceIsContent(w.done);
  }

  /** The file at work is not among the finished ones. */
  lemma WorkingFileIsNew(c: Config, s: State, i: nat)
    requires Conserved(c, s, Once()) && i < |s.workers| && s.workers[i].rest != []
    ensures s.workers[i].rest[0] !in s.workers[i].done
  {
    var w := s.workers[i];
    var x := w.rest[0];
    FilesOnce(c, s, x);
    WorkerMassIncludes(Once(), s.workers, i, Rest);
    WorkerMassIncludes(Once(), s.workers, i, Done);
    OnceIsContent(w.rest);
    assert PartMass(Once(), w, Rest)[x] >= 1;
    if x in w.done { DoneIsMass(w, x); }
  }

  /** No file was finished by two workers. */
  lemma OneWorkerPerFile(c: Config, s: State, i: nat, j: nat, x: nat)
    requires Conserved(c, s, Once()) && i < |s.workers| && j < |s.workers|
    requires x in s.workers[i].done && x in s.workers[j].done
    ensures i == j
  {
    FilesOnce(c, s, x);
    DoneIsMass(s.workers[i], x);
    DoneIsMass(s.workers[j], x);
    hide PartMass, WorkerMass;
    if i < j { WorkerMassIncludesTwo(Once(), s.workers, i, j, Done); }
    if j < i { WorkerMassIncludesTwo(Once(), s.workers, j, i, Done); }
  }

  // ----- Messages

  lemma MassCount(a: multiset<nat>, d: multiset<nat>, b: multiset<nat>, x: nat)
    requires a + d == b + (d + multiset{x})
    ensures |a| == |b| + 1
  {
    assert |a + d| == |a| + |d|;
    assert |b + (d + multiset{x})| == |b| + (|d| + 1);
  }

  lemma ProcessCounts(c: Config, s: State, i: nat)
    requires Enabled(c, s, WorkerNo(i)) && s.workers[i].rest != []
    ensures |WorkerMass(Once(), Step(c, s, WorkerNo(i)).workers, Done)| == |WorkerMass(Once(), s.workers, Done)| + 1
  {
    var s', w := Step(c, s, WorkerNo(i)), s.workers[i];
    var w', idx := s'.workers[i], w.rest[0];
    assert s'.workers == s.workers[i := w'] && w'.done == w.done + [idx];
    MassOfOne(Once(), w.done, idx);
    assert PartMass(Once(), w', Done) == PartMass(Once(), w, Done) + multiset{idx};
    WorkerMassUpdate(Once(), s.workers, i, w', Done);
    hide WorkerMass, PartMass;
    MassCount(WorkerMass(Once(), s'.workers, Done), PartMass(Once(), w, Done), WorkerMass(Once(), s.workers, Done), idx);
  }

  lemma TakeKeepsMass(c: Config, s: State, i: nat, g: nat -> multiset<nat>)
    requires Enabled(c, s, WorkerNo(i)) && s.workers[i].rest == []
    ensures WorkerMass(g, Step(c, s, WorkerNo(i)).workers, Done) == WorkerMass(g, s.workers, Done)
  {
    var s' := Step(c, s, WorkerNo(i));
    var w' := s'.workers[i];
    assert s'.workers == s.workers[i := w'];
    assert PartMass(g, w', Done) == PartMass(g, s.workers[i], Done);
    WorkerMassUpdate(g, s.workers, i, w', Done);
    hide WorkerMass, PartMass;
    CancelSame(WorkerMass(g, s'.workers, Done), WorkerMass(g, s.workers, Done), PartMass(g, w', Done));
  }

  lemma AddNote(ws: seq<Worker>, info: map<nat, (nat, nat, nat)>, progress: seq<Note>, i: nat, w: Worker, note: Note)
    requires AllReported(ws, info, progress) && NotesTrue(ws, progress) && i < |ws|
    requires if note.Kept? then note.worker == i && note.idx !in ws[i].sent && w.sent == ws[i].sent[note.idx := (note.pos, note.count)]
             else w.sent == ws[i].sent
    ensures AllReported(ws[i := w], info, progress + [note]) && NotesTrue(ws[i := w], progress + [note])
  {
    var ws', progress' := ws[i := w], progress + [note];
    assert progress'[|progress|] == note;
    forall j: nat, idx: nat, pos: nat, count: nat | Sent(ws', j, idx, pos, count)
      ensures (idx in info && info[idx] == (j, pos, count)) || Kept(idx, j, pos, count) in progress'
    {
      if j == i && note.Kept? && idx == note.idx {
        assert Kept(idx, j, pos, count) == note;
      } else {
        assert Sent(ws, j, idx, pos, count);
      }
    }
    forall k | 0 <= k < |progress'| && progress'[k].Kept?
      ensures Sent(ws', progress'[k].worker, progress'[k].idx, progress'[k].pos, progress'[k].count)
    {
      if k < |progress| {
        var n := progress[k];
        assert progress'[k] == n && Sent(ws, n.worker, n.idx, n.pos, n.count);
      }
    }
  }

  lemma ProcessKeepsNotes(c: Config, s: State, i: nat)
    requires Conserved(c, s, Once()) && NotesInv(c, s) && i < |s.workers| && PackInv(c, s.workers[i])
    requires Enabled(c, s, WorkerNo(i)) && s.workers[i].rest != []
    ensures NotesInv(c, Step(c, s, WorkerNo(i)))
  {
    hide WorkerMass, Conserved, AllReported, NotesTrue, Process, Holds;
    var w := s.workers[i];
    WorkingFileIsNew(c, s, i);
    assert w.rest[0] !in w.sent;
    hide PackInv;
    ProcessCounts(c, s, i);
    ProcessEffect(c, i, w);
    var (w', note) := Process(c, i, w);
    AddNote(s.workers, s.traceInfo, s.progress, i, w', note);
  }

  lemma TakeNote(c: Config, s: State, note: Note)
    requires Conserved(c, s, Once())
    requires forall k :: 0 <= k < |s.workers| ==> PackInv(c, s.workers[k])
    requires s.progress != [] && note == s.progress[0]
    requires AllReported(s.workers, s.traceInfo, s.progress) && NotesTrue(s.workers, s.progress)
    ensures var info := if note.Kept? then s.traceInfo[note.idx := (note.worker, note.pos, note.count)] else s.traceInfo;
            AllReported(s.workers, info, s.progress[1..]) && NotesTrue(s.workers, s.progress[1..])
  {
    hide Conserved, Holds;
    var info := if note.Kept? then s.traceInfo[note.idx := (note.worker, note.pos, note.count)] else s.traceInfo;
    assert s.progress == [note] + s.progress[1..];
    if note.Kept? {
      assert Sent(s.workers, note.worker, note.idx, note.pos, note.count);
    }
    forall i: nat, idx: nat, pos: nat, count: nat | Sent(s.workers, i, idx, pos, count)
      ensures (idx in info && info[idx] == (i, pos, count)) || Kept(idx, i, pos, count) in s.progress[1..]
    {
      if note.Kept? && note.idx == idx {
        assert PackInv(c, s.workers[i]) && PackInv(c, s.workers[note.worker]);
        OneWorkerPerFile(c, s, i, note.worker, idx);
      }
    }
  }

  lemma ReceiveKeepsNotes(c: Config, s: State)
    requires Conserved(c, s, Once()) && NotesInv(c, s)
    requires forall k :: 0 <= k < |s.workers| ==> PackInv(c, s.workers[k])
    requires Enabled(c, s, Main) && s.received < |c.traces|
    ensures NotesInv(c, Step(c, s, Main))
  {
    hide WorkerMass, Conserved, PackInv, AllReported, NotesTrue;
    TakeNote(c, s, s.progress[0]);
  }

  lemma SameSentSameNotes(ws: seq<Worker>, i: nat, w: Worker, info: map<nat, (nat, nat, nat)>, progress: seq<Note>)
    requires i < |ws| && w.sent == ws[i].sent
    requires AllReported(ws, info, progress) && NotesTrue(ws, progress)
    ensures AllReported(ws[i := w], info, progress) && NotesTrue(ws[i := w], progress)
  {
    assert forall j: nat, idx: nat, pos: nat, count: nat :: Sent(ws[i := w], j, idx, pos, count) <==> Sent(ws, j, idx, pos, count);
    hide Sent;
  }

  lemma TakeKeepsNotes(c: Config, s: State, i: nat)
    requires NotesInv(c, s)
    requires Enabled(c, s, WorkerNo(i)) && s.workers[i].rest == []
    ensures NotesInv(c, Step(c, s, WorkerNo(i)))
  {
    hide WorkerMass, AllReported, NotesTrue;
    var s' := Step(c, s, WorkerNo(i));
    TakeKeepsMass(c, s, i, Once());
    assert s'.workers == s.workers[i := s'.workers[i]] && s'.workers[i].sent == s.workers[i].sent;
    assert s'.progress == s.progress && s'.received == s.received && s'.traceInfo == s.traceInfo;
    hide Step;
    SameSentSameNotes(s.workers, i, s'.workers[i], s.traceInfo, s.progress);
  }

  // ----- Results

  lemma AddResult(ws: seq<Worker>, rs: seq<Result>, i: nat, w: Worker, r: Result)
    requires ResultsTrue(ws, rs) && AllResults(ws, rs) && i < |ws| && !ws[i].stopped
    requires w.stopped && r.worker == i && r.best == w.best && r.crashes == w.crashes
    ensures ResultsTrue(ws[i := w], rs + [r]) && AllResults(ws[i := w], rs + [r])
  {
    var ws', rs' := ws[i := w], rs + [r];
    forall j | 0 <= j < |ws'| && ws'[j].stopped
      ensures HasResult(rs', j)
    {
      if j == i {
        assert rs'[|rs|].worker == i;
      } else {
        assert HasResult(rs, j);
        var k :| 0 <= k < |rs| && rs[k].worker == j;
        assert rs'[k].worker == j;
      }
    }
  }

  lemma KeepResults(ws: seq<Worker>, rs: seq<Result>, i: nat, w: Worker)
    requires ResultsTrue(ws, rs) && AllResults(ws, rs) && i < |ws| && !ws[i].stopped && !w.stopped
    ensures ResultsTrue(ws[i := w], rs) && AllResults(ws[i := w], rs)
  {
    hide HasResult;
  }

  /** The counts of a stopping worker go into its result. */
  lemma StopReportsCounts(g: nat -> multiset<nat>, ws: seq<Worker>, rs: seq<Result>, i: nat, r: Result)
    requires i < |ws| && !ws[i].stopped && r.counts == Mass(g, ws[i].done)
    ensures var ws' := ws[i := ws[i].(stopped := true)];
            ResultMass(rs + [r]) + WorkerMass(g, ws', Unreported) == ResultMass(rs) + WorkerMass(g, ws, Unreported)
  {
    var w := ws[i];
    var w' := w.(stopped := true);
    assert PartMass(g, w, Unreported) == r.counts && PartMass(g, w', Unreported) == multiset{};
    assert ResultMass([r]) == r.counts + multiset{};
    hide WorkerMass, PartMass, Mass, ResultMass;
    WorkerMassUpdate(g, ws, i, w', Unreported);
    ResultMassAppend(rs, [r]);
    BalanceReport(ResultMass(rs), r.counts, WorkerMass(g, ws, Unreported), WorkerMass(g, ws[i := w'], Unreported));
  }

  lemma StopKeepsResults(c: Config, s: State, i: nat)
    requires ResultsInv(c, s)
    requires Enabled(c, s, WorkerNo(i)) && s.workers[i].rest == [] && s.queue[0].Stop?
    requires s.workers[i].counts == Mass(Tuples(c), s.workers[i].done)
    ensures ResultsInv(c, Step(c, s, WorkerNo(i)))
  {
    hide WorkerMass, StoppedCount, Mass, Tuples, ResultMass, ResultsTrue, AllResults;
    var s', w, g := Step(c, s, WorkerNo(i)), s.workers[i], Tuples(c);
    var w' := w.(stopped := true);
    var rs, r := s.merged + s.results, Result(i, w.best, w.counts, w.crashes);
    TakeKeepsMass(c, s, i, g);
    assert s'.workers == s.workers[i := w'] && s'.merged == s.merged && s'.merged + s'.results == rs + [r];
    hide Step;
    StopReportsCounts(g, s.workers, rs, i, r);
    StoppedCountUpdate(s.workers, i, w');
    AddResult(s.workers, rs, i, w', r);
  }

  lemma BatchKeepsResults(c: Config, s: State, i: nat)
    requires ResultsInv(c, s)
    requires Enabled(c, s, WorkerNo(i)) && s.workers[i].rest == [] && s.queue[0].Batch?
    ensures ResultsInv(c, Step(c, s, WorkerNo(i)))
  {
    var s', w, g := Step(c, s, WorkerNo(i)), s.workers[i], Tuples(c);
    var w' := w.(rest := s.queue[0].files);
    TakeKeepsMass(c, s, i, g);
    assert s'.workers == s.workers[i := w'] && s'.merged == s.merged && s'.results == s.results;
    assert PartMass(g, w', Unreported) == PartMass(g, w, Unreported);
    hide WorkerMass, StoppedCount, PartMass, Mass, Tuples, ResultMass, ResultsTrue, AllResults;
    WorkerMassUpdate(g, s.workers, i, w', Unreported);
    StoppedCountUpdate(s.workers, i, w');
    KeepResults(s.workers, s.merged + s.results, i, w');
    CancelSame(WorkerMass(g, s'.workers, Unreported), WorkerMass(g, s.workers, Unreported), PartMass(g, w, Unreported));
  }

  lemma BalanceReport(r: multiset<nat>, counts: multiset<nat>, u: multiset<nat>, u': multiset<nat>)
    requires u' + counts == u + multiset{}
    ensures (r + (counts + multiset{})) + u' == r + u
  {
    assert (r + (counts + multiset{})) + u' == r + (u' + counts);
  }

  lemma ProcessKeepsResults(c: Config, s: State, i: nat)
    requires ResultsInv(c, s)
    requires Enabled(c, s, WorkerNo(i)) && s.workers[i].rest != []
    ensures ResultsInv(c, Step(c, s, WorkerNo(i)))
  {
    hide Process;
    var s', w, g := Step(c, s, WorkerNo(i)), s.workers[i], Tuples(c);
    var w' := Process(c, i, w).0;
    ProcessEffect(c, i, w);
    assert s'.workers == s.workers[i := w'] && s'.merged == s.merged && s'.results == s.results;
    assert PartMass(g, w', Unreported) == PartMass(g, w', Done) && PartMass(g, w, Unreported) == PartMass(g, w, Done);
    hide WorkerMass, StoppedCount, PartMass, ResultMass, Mass, Tuples, ResultsTrue, AllResults;
    WorkerMassUpdate(g, s.workers, i, w', Unreported);
    WorkerMassUpdate(g, s.workers, i, w', Done);
    StoppedCountUpdate(s.workers, i, w');
    KeepResults(s.workers, s.merged + s.results, i, w');
    BalanceWork(ResultMass(s.merged + s.results), WorkerMass(g, s.workers, Unreported), WorkerMass(g, s'.workers, Unreported),
                WorkerMass(g, s.workers, Done), WorkerMass(g, s'.workers, Done), PartMass(g, w, Done), PartMass(g, w', Done));
  }

  lemma BalanceWork(r: multiset<nat>, u: multiset<nat>, u': multiset<nat>, d: multiset<nat>, d': multiset<nat>,
                    p: multiset<nat>, p': multiset<nat>)
    requires r + u == d && u' + p == u + p' && d' + p == d + p'
    ensures r + u' == d'
  {
    forall x ensures (r + u')[x] == d'[x] {
      assert (r + u)[x] == d[x] && (u' + p)[x] == (u + p')[x] && (d' + p)[x] == (d + p')[x];
    }
  }

  // ----- Every step keeps the invariant

  lemma JobsFrame(c: Config, s: State, s': State)
    requires JobsInv(c, s) && Conserved(c, s, Once()) && Conserved(c, s, Tuples(c))
    requires Pending(s') == Pending(s) && s'.workers == s.workers
    ensures JobsInv(c, s') && Conserved(c, s', Once()) && Conserved(c, s', Tuples(c))
  {
    hide Pending, JobMass, WorkerMass, StopsLast, StopCount, StoppedCount, OnlyStops, InRange;
  }

  lemma NotesFrame(c: Config, s: State, s': State)
    requires NotesInv(c, s) && s'.workers == s.workers
    requires s'.progress == s.progress && s'.received == s.received && s'.traceInfo == s.traceInfo
    ensures NotesInv(c, s')
  {
    hide WorkerMass, AllReported, NotesTrue;
  }

  lemma ResultsFrame(c: Config, s: State, s': State)
    requires ResultsInv(c, s) && s'.workers == s.workers
    requires s'.merged + s'.results == s.merged + s.results && |s'.merged| <= c.workers
    ensures ResultsInv(c, s')
  {
    hide WorkerMass, ResultMass, StoppedCount, ResultsTrue, AllResults;
  }

  lemma Bounds(c: Config, s: State)
    requires NotesInv(c, s) && ResultsInv(c, s)
    ensures s.received <= |c.traces| && |s.merged| <= c.workers
  {
    hide WorkerMass, AllReported, NotesTrue, ResultMass, StoppedCount, ResultsTrue, AllResults;
  }

  lemma DispatchKeepsInv(c: Config, s: State)
    requires Inv(c, s) && Enabled(c, s, Dispatcher)
    ensures Inv(c, Step(c, s, Dispatcher))
  {
    hide JobsInv, Conserved, NotesInv, ResultsInv, WorkerInv;
    var s' := Step(c, s, Dispatcher);
    Bounds(c, s);
    DispatchKeepsPending(c, s);
    JobsFrame(c, s, s');
    NotesFrame(c, s, s');
    ResultsFrame(c, s, s');
  }

  lemma ReceiveKeepsInv(c: Config, s: State)
    requires Inv(c, s) && Enabled(c, s, Main) && s.received < |c.traces|
    ensures Inv(c, Step(c, s, Main))
  {
    hide JobsInv, Conserved, NotesInv, ResultsInv, TableInv, PackInv, Mass;
    var s' := Step(c, s, Main);
    Bounds(c, s);
    assert forall i :: 0 <= i < |s.workers| ==> PackInv(c, s.workers[i]);
    hide WorkerInv;
    JobsFrame(c, s, s');
    ReceiveKeepsNotes(c, s);
    ResultsFrame(c, s, s');
  }

  lemma MergeKeepsInv(c: Config, s: State)
    requires Inv(c, s) && Enabled(c, s, Main) && s.received >= |c.traces|
    ensures Inv(c, Step(c, s, Main))
  {
    hide JobsInv, Conserved, NotesInv, ResultsInv, WorkerInv;
    var s' := Step(c, s, Main);
    assert s'.merged + s'.results == s.merged + s.results;
    JobsFrame(c, s, s');
    NotesFrame(c, s, s');
    ResultsFrame(c, s, s');
  }

  lemma TakeKeepsInv(c: Config, s: State, i: nat)
    requires Inv(c, s) && Enabled(c, s, WorkerNo(i)) && s.workers[i].rest == []
    ensures Inv(c, Step(c, s, WorkerNo(i)))
  {
    hide JobsInv, Conserved, NotesInv, ResultsInv, TableInv, PackInv, Mass;
    var s', w := Step(c, s, WorkerNo(i)), s.workers[i];
    var w' := s'.workers[i];
    assert WorkerInv(c, w);
    TakeConserves(c, s, i, Once());
    TakeConserves(c, s, i, Tuples(c));
    TakeKeepsJobs(c, s, i);
    TakeKeepsNotes(c, s, i);
    if s.queue[0].Stop? { StopKeepsResults(c, s, i); } else { BatchKeepsResults(c, s, i); }
    WorkerFrame(c, w, w');
    assert s'.workers == s.workers[i := w'];
    hide Step, WorkerInv;
  }

  lemma WorkerFrame(c: Config, w: Worker, w': Worker)
    requires WorkerInv(c, w)
    requires w'.(stopped := w.stopped, rest := w.rest) == w
    ensures WorkerInv(c, w')
  {
  }

  lemma ProcessKeepsInv(c: Config, s: State, i: nat)
    requires c.Valid() && Inv(c, s) && Enabled(c, s, WorkerNo(i)) && s.workers[i].rest != []
    ensures Inv(c, Step(c, s, WorkerNo(i)))
  {
    hide JobsInv, Conserved, NotesInv, ResultsInv, TableInv, PackInv, Mass, Process, Config.Valid;
    var s', w := Step(c, s, WorkerNo(i)), s.workers[i];
    assert WorkerInv(c, w);
    ProcessConserves(c, s, i, Once());
    ProcessConserves(c, s, i, Tuples(c));
    ProcessKeepsJobs(c, s, i);
    ProcessKeepsNotes(c, s, i);
    ProcessKeepsResults(c, s, i);
    ProcessKeepsWorker(c, i, w);
    assert s'.workers == s.workers[i := Process(c, i, w).0];
    hide Step, WorkerInv;
  }

  lemma StepKeepsInv(c: Config, s: State, a: Actor)
    requires c.Valid() && Inv(c, s) && Enabled(c, s, a)
    ensures Inv(c, Step(c, s, a))
  {
    hide Inv, Step;
    match a
    case Dispatcher => DispatchKeepsInv(c, s);
    case Main => if s.received < |c.traces| { ReceiveKeepsInv(c, s); } else { MergeKeepsInv(c, s); }
    case WorkerNo(i) => if s.workers[i].rest == [] { TakeKeepsInv(c, s, i); } else { ProcessKeepsInv(c, s, i); }
  }

  // ----- Termination and deadlock freedom

  /** How many steps are still to come, whatever the interleaving. */
  ghost function StepsLeft(c: Config, s: State): (r: int) {
    2 * |s.toDispatch| + |s.queue| + (|c.traces| - |WorkerMass(Once(), s.workers, Done)|)
    + (|c.traces| - s.received) + (c.workers - |s.merged|)
  }

  lemma StepsCountDown(c: Config, s: State, a: Actor)
    requires Enabled(c, s, a)
    ensures StepsLeft(c, Step(c, s, a)) == StepsLeft(c, s) - 1
  {
    match a
    case Dispatcher =>
    case Main =>
    case WorkerNo(i) =>
      if s.workers[i].rest == [] { TakeKeepsMass(c, s, i, Once()); } else { ProcessCounts(c, s, i); }
  }

  lemma FinishedFilesAreFiles(c: Config, s: State)
    requires Conserved(c, s, Once())
    ensures |WorkerMass(Once(), s.workers, Done)| <= |c.traces|
    ensures |WorkerMass(Once(), s.workers, Done)| == |c.traces| ==>
              JobMass(Once(), Pending(s)) == multiset{} && WorkerMass(Once(), s.workers, Rest) == multiset{}
    ensures JobMass(Once(), Pending(s)) == multiset{} && WorkerMass(Once(), s.workers, Rest) == multiset{} ==>
              |WorkerMass(Once(), s.workers, Done)| == |c.traces|
  {
    OnceIsContent(Range(|c.traces|));
    hide Mass, JobMass, WorkerMass;
    var j, r, d := JobMass(Once(), Pending(s)), WorkerMass(Once(), s.workers, Rest), WorkerMass(Once(), s.workers, Done);
    assert |j + r + d| == |j| + |r| + |d|;
  }

  lemma {:induction false} NotAllStopped(ws: seq<Worker>) returns (i: nat)
    requires StoppedCount(ws) < |ws|
    ensures i < |ws| && !ws[i].stopped
  {
    if !ws[0].stopped {
      i := 0;
    } else {
      i := NotAllStopped(ws[1..]);
      i := i + 1;
    }
  }

  lemma {:induction false} AllStopped(ws: seq<Worker>)
    requires StoppedCount(ws) >= |ws|
    ensures StoppedCount(ws) == |ws| && forall i :: 0 <= i < |ws| ==> ws[i].stopped
  {
    if ws != [] {
      StoppedAtMostAll(ws[1..]);
      AllStopped(ws[1..]);
      assert forall i :: 0 <= i < |ws| ==> ws[i] == if i == 0 then ws[0] else ws[1..][i - 1];
    }
  }

  lemma {:induction false} StoppedAtMostAll(ws: seq<Worker>)
    ensures StoppedCount(ws) <= |ws|
  {
    if ws != [] { StoppedAtMostAll(ws[1..]); }
  }

  lemma {:induction false} IdleMass(g: nat -> multiset<nat>, ws: seq<Worker>)
    requires forall i :: 0 <= i < |ws| ==> ws[i].rest == []
    ensures WorkerMass(g, ws, Rest) == multiset{}
  {
    if ws != [] { IdleMass(g, ws[1..]); }
  }

  /** With no job left, all workers have stopped and every file is finished. */
  lemma NothingPending(c: Config, s: State)
    requires JobsInv(c, s) && Conserved(c, s, Once()) && Pending(s) == []
    ensures StoppedCount(s.workers) == c.workers
    ensures forall i :: 0 <= i < |s.workers| ==> s.workers[i].stopped && s.workers[i].rest == []
    ensures |WorkerMass(Once(), s.workers, Done)| == |c.traces|
  {
    AllStopped(s.workers);
    IdleMass(Once(), s.workers);
    FinishedFilesAreFiles(c, s);
  }

  /** A sentinel is left for every worker that has not stopped, so work in the queue finds one. */
  lemma SomeWorkerLeft(c: Config, s: State)
    requires c.Valid() && JobsInv(c, s) && Pending(s) != []
    ensures StoppedCount(s.workers) < |s.workers|
  {
    if s.workers[0].stopped {
      assert Pending(s)[0].Stop?;
    } else {
      StoppedAtMostAll(s.workers[1..]);
    }
  }

  /** Some process can always move until main has everything. */
  lemma NoDeadlock(c: Config, s: State) returns (a: Actor)
    requires c.Valid() && Inv(c, s) && !Finished(c, s)
    ensures Enabled(c, s, a)
  {
    hide WorkerInv, NotesTrue, AllReported, ResultsTrue, AllResults, InRange;
    if s.toDispatch != [] {
      a := Dispatcher;
    } else if s.queue != [] {
      assert Pending(s) == s.queue;
      SomeWorkerLeft(c, s);
      var i := NotAllStopped(s.workers);
      WaitingWorkerCanMove(c, s, i);
      a := WorkerNo(i);
    } else {
      assert Pending(s) == [];
      NothingPending(c, s);
      hide WorkerMass, StoppedCount, JobsInv, Conserved;
      assert |s.merged + s.results| == |s.merged| + |s.results|;
      a := Main;
    }
  }

  lemma WaitingWorkerCanMove(c: Config, s: State, i: nat)
    requires c.Valid() && Inv(c, s) && i < |s.workers| && !s.workers[i].stopped && s.queue != []
    ensures Enabled(c, s, WorkerNo(i))
  {
    hide NotesInv, ResultsInv, Conserved, PackInv, IsLeast, Mass, StopsLast, StopCount, StoppedCount, OnlyStops;
    var w := s.workers[i];
    assert WorkerInv(c, w) && TableInv(c, w) && InRange(c, w.rest);
    if w.rest != [] {
      var idx := w.rest[0];
      assert forall j :: 0 <= j < |c.traces[idx]| ==> c.traces[idx][j] < c.tuples;
    }
  }

  // ----- Whole runs

  /** A schedule that each process can follow from the start, with the states it passes. */
  ghost predicate IsRun(c: Config, schedule: seq<Actor>, states: seq<State>)
    requires c.Valid()
  {
    && |states| == |schedule| + 1 && states[0] == Init(c)
    && forall k :: 0 <= k < |schedule| ==> Enabled(c, states[k], schedule[k]) && states[k + 1] == Step(c, states[k], schedule[k])
  }

  /** Whatever the interleaving: the invariant holds throughout; no run is longer than a fixed
      number of steps; and a run in which nobody can move has ended properly, after exactly
      that many. */
  lemma {:induction false} EveryRun(c: Config, schedule: seq<Actor>, states: seq<State>)
    requires c.Valid() && IsRun(c, schedule, states)
    ensures Inv(c, states[|schedule|])
    ensures StepsLeft(c, states[|schedule|]) == 2 * |Jobs(c)| + 2 * |c.traces| + c.workers - |schedule| >= 0
    ensures (forall a :: !Enabled(c, states[|schedule|], a)) ==>
              Finished(c, states[|schedule|]) && |schedule| == 2 * |Jobs(c)| + 2 * |c.traces| + c.workers
  {
    var n, s := |schedule|, states[|schedule|];
    if n == 0 {
      InitInv(c);
      NewWorkersMass(Once(), c, Init(c).workers, Done);
    } else {
      EveryRun(c, schedule[..n - 1], states[..n]);
      StepKeepsInv(c, states[n - 1], schedule[n - 1]);
      StepsCountDown(c, states[n - 1], schedule[n - 1]);
    }
    hide Step, Init, Jobs, JobsInv, WorkerInv, Conserved, AllReported, NotesTrue, ResultsTrue, AllResults, ResultMass;
    StepsNeverNegative(c, s);
    if forall a :: !Enabled(c, s, a) {
      if !Finished(c, s) { var a := NoDeadlock(c, s); }
      FinishedMeansNoSteps(c, s);
    }
  }

  lemma StepsNeverNegative(c: Config, s: State)
    requires Inv(c, s)
    ensures StepsLeft(c, s) >= 0
  {
    hide JobsInv, WorkerInv, Conserved, NotesInv, ResultsInv;
    Bounds(c, s);
    FinishedFilesAreFiles(c, s);
  }

  /** When main has everything, nothing is left anywhere. */
  lemma NothingLeft(c: Config, s: State)
    requires Inv(c, s) && Finished(c, s)
    ensures s.progress == [] && s.results == []
    ensures forall i :: 0 <= i < |s.workers| ==> s.workers[i].stopped
    ensures WorkerMass(Once(), s.workers, Done) == Mass(Once(), Range(|c.traces|))
  {
    hide WorkerInv, NotesTrue, AllReported, ResultsTrue, AllResults, ResultMass;
    FinishedFilesAreFiles(c, s);
    StoppedAtMostAll(s.workers);
    assert |s.merged + s.results| == |s.merged| + |s.results|;
    hide JobMass, WorkerMass, Mass;
    AllStopped(s.workers);
    assert multiset{} + multiset{} + WorkerMass(Once(), s.workers, Done) == WorkerMass(Once(), s.workers, Done);
  }

  lemma FinishedMeansNoSteps(c: Config, s: State)
    requires c.Valid() && Inv(c, s) && Finished(c, s)
    ensures StepsLeft(c, s) == 0
  {
    NothingLeft(c, s);
    hide NotesInv, ResultsInv, WorkerInv, Conserved, WorkerMass;
    assert s.workers[0].stopped;
    StopCountZero(c, s);
    OnceIsContent(Range(|c.traces|));
  }

  lemma StopCountZero(c: Config, s: State)
    requires JobsInv(c, s) && c.workers >= 1 && forall i :: 0 <= i < |s.workers| ==> s.workers[i].stopped
    ensures s.queue == [] && s.toDispatch == []
  {
    assert s.workers[0].stopped && OnlyStops(Pending(s));
    StopsMass(Once(), Pending(s));
    AllStoppedCount(s.workers);
    assert |Pending(s)| == 0;
  }

  lemma {:induction false} AllStoppedCount(ws: seq<Worker>)
    requires forall i :: 0 <= i < |ws| ==> ws[i].stopped
    ensures StoppedCount(ws) == |ws|
  {
    if ws != [] { AllStoppedCount(ws[1..]); }
  }

  // ----- What main holds at the end

  ghost predicate LeastOfAll(c: Config, t: nat, least: nat) {
    && (forall i :: 0 <= i < |c.traces| && t in c.traces[i] ==> least <= i)
    && (least == NoFile(c) || (least < |c.traces| && t in c.traces[least]))
  }

  /** Main knows where the trace of file `idx` is packed. */
  ghost predicate Packed(c: Config, s: State, idx: nat) {
    && idx < |c.traces| && idx in s.traceInfo
    && var (i, pos, count) := s.traceInfo[idx];
    && i < |s.workers| && count == |c.traces[idx]| && Holds(s.workers[i].pack, pos, c.traces[idx], c.itemSize)
  }

  /** Every file was finished by some worker. */
  lemma FinishedBySomeone(c: Config, s: State, idx: nat) returns (i: nat)
    requires Inv(c, s) && Finished(c, s) && idx < |c.traces|
    ensures i < |s.workers| && idx in s.workers[i].done
  {
    NothingLeft(c, s);
    OnceIsContent(Range(|c.traces|));
    assert Range(|c.traces|)[idx] == idx && idx in multiset(Range(|c.traces|));
    hide Inv, WorkerMass, Mass;
    i := WorkerMassMember(Once(), s.workers, Done, idx);
    OnceIsContent(s.workers[i].done);
  }

  lemma MergedIsTrue(c: Config, s: State)
    requires Inv(c, s) && Finished(c, s)
    ensures forall k :: 0 <= k < |s.merged| ==>
              s.merged[k].worker < |s.workers| && s.merged[k].best == s.workers[s.merged[k].worker].best
              && s.merged[k].crashes == s.workers[s.merged[k].worker].crashes
    ensures forall i :: 0 <= i < |s.workers| ==> HasResult(s.merged, i)
  {
    NothingLeft(c, s);
    hide JobsInv, Conserved, NotesInv, WorkerInv, WorkerMass, ResultMass, HasResult;
    assert s.merged + s.results == s.merged;
  }

  /** The smallest entry over all tables is the least file with the tuple, and its trace can
      be found in a pack. */
  lemma MergedTablesAreExact(c: Config, s: State, t: nat, v: nat, k: nat)
    requires c.Valid() && Inv(c, s) && Finished(c, s) && t < c.tuples && k < |s.merged|
    requires forall m :: 0 <= m < |s.merged| ==> |s.merged[m].best| == c.tuples && v <= s.merged[m].best[t]
    requires v == s.merged[k].best[t]
    ensures LeastOfAll(c, t, v) && (v != NoFile(c) ==> Packed(c, s, v))
  {
    hide Inv, Packed, Config.Valid;
    MergedIsTrue(c, s);
    var j := s.merged[k].worker;
    TableOf(c, s, j);
    forall i | 0 <= i < |c.traces| && t in c.traces[i]
      ensures v <= i
    {
      var m := FinishedBySomeone(c, s, i);
      TableOf(c, s, m);
      var d :| 0 <= d < |s.workers[m].done| && s.workers[m].done[d] == i;
      assert IsLeast(c, s.workers[m].done, t, s.workers[m].best[t]);
      assert HasResult(s.merged, m);
      var r :| 0 <= r < |s.merged| && s.merged[r].worker == m;
      assert v <= s.merged[r].best[t];
    }
    assert IsLeast(c, s.workers[j].done, t, v);
    if v != NoFile(c) { SentIsPacked(c, s, j, v); }
  }

  lemma TableOf(c: Config, s: State, i: nat)
    requires Inv(c, s) && i < |s.workers|
    ensures TableInv(c, s.workers[i])
  {
    assert WorkerInv(c, s.workers[i]);
  }

  lemma SentIsPacked(c: Config, s: State, i: nat, idx: nat)
    requires Inv(c, s) && Finished(c, s) && i < |s.workers| && idx in s.workers[i].sent
    ensures Packed(c, s, idx)
  {
    NothingLeft(c, s);
    hide JobsInv, Conserved, ResultsInv, TableInv, Mass, Holds;
    var (pos, count) := s.workers[i].sent[idx];
    assert WorkerInv(c, s.workers[i]) && PackInv(c, s.workers[i]);
    assert AllReported(s.workers, s.traceInfo, s.progress);
    assert Sent(s.workers, i, idx, pos, count);
  }

  /** The results together name exactly the files that crashed. */
  lemma MergedCrashesAreExact(c: Config, s: State, idx: nat)
    requires c.Valid() && Inv(c, s) && Finished(c, s)
    ensures (exists k :: 0 <= k < |s.merged| && idx in s.merged[k].crashes) <==> idx < |c.traces| && c.traces[idx] == []
  {
    MergedIsTrue(c, s);
    if k :| 0 <= k < |s.merged| && idx in s.merged[k].crashes {
      CrashesOf(c, s, s.merged[k].worker);
      CrashedAre(c, s.workers[s.merged[k].worker].done, idx);
    }
    if idx < |c.traces| && c.traces[idx] == [] {
      var i := FinishedBySomeone(c, s, idx);
      CrashesOf(c, s, i);
      CrashedAre(c, s.workers[i].done, idx);
      hide Inv;
      assert HasResult(s.merged, i);
      var k :| 0 <= k < |s.merged| && s.merged[k].worker == i;
      assert idx in s.merged[k].crashes;
    }
  }

  lemma CrashesOf(c: Config, s: State, i: nat)
    requires Inv(c, s) && i < |s.workers|
    ensures s.workers[i].crashes == Crashed(c, s.workers[i].done)
  {
    assert WorkerInv(c, s.workers[i]);
  }

  /** The merged counter holds every occurrence of every tuple. */
  lemma MergedCountsAreExact(c: Config, s: State)
    requires c.Valid() && Inv(c, s) && Finished(c, s)
    ensures ResultMass(s.merged) == Mass(Tuples(c), Range(|c.traces|))
  {
    NothingLeft(c, s);
    assert s.merged + s.results == s.merged;
    assert s.workers[0].stopped;
    StopCountZero(c, s);
    assert Pending(s) == [];
    assert forall i :: 0 <= i < |s.workers| ==> s.workers[i].rest == [];
    IdleMass(Tuples(c), s.workers);
    AllStoppedUnreported(Tuples(c), s.workers);
    assert JobMass(Tuples(c), []) == multiset{};
    hide WorkerMass, Mass, ResultMass, WorkerInv, NotesInv, JobsInv;
    assert Conserved(c, s, Tuples(c)) && ResultsInv(c, s);
    assert ResultMass(s.merged) + multiset{} == ResultMass(s.merged);
  }

  lemma {:induction false} AllStoppedUnreported(g: nat -> multiset<nat>, ws: seq<Worker>)
    requires forall i :: 0 <= i < |ws| ==> ws[i].stopped
    ensures WorkerMass(g, ws, Unreported) == multiset{}
  {
    if ws != [] { AllStoppedUnreported(g, ws[1..]); }
  }
}
