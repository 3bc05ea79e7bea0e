/** Choosing the files to keep: files with a tuple of their own first, then one file for each
    tuple still missing. */
module CminSelection {
  import opened Basics
  import opened CminPack
  import opened CminProtocol
  import opened CminInvariant

  // ----- What the selection works on

  /** Main's data after the collection: the merged table, each tuple seen with its number of
      occurrences, and the packs with the positions of the traces. */
  ghost predicate Collected(c: Config, best: seq<nat>, unique: seq<(nat, nat)>,
                            info: map<nat, (nat, nat, nat)>, packs: seq<seq<Byte>>) {
    && |best| == c.tuples && |packs| == c.workers
    && (forall t :: 0 <= t < c.tuples ==> LeastOfAll(c, t, best[t]) && (best[t] != NoFile(c) ==> Readable(c, best[t], info, packs)))
    && (forall k :: 0 <= k < |unique| ==> unique[k].0 < c.tuples && unique[k].1 == Occurrences(c)[unique[k].0] > 0)
    && (forall t :: t in Occurrences(c) ==> exists k :: 0 <= k < |unique| && unique[k].0 == t)
    && (forall i, j :: 0 <= i < j < |unique| ==> unique[i].0 != unique[j].0)
  }

  ghost predicate Readable(c: Config, idx: nat, info: map<nat, (nat, nat, nat)>, packs: seq<seq<Byte>>) {
    && idx < |c.traces| && idx in info
    && var (i, pos, count) := info[idx];
    && i < |packs| && count == |c.traces[idx]| && Holds(packs[i], pos, c.traces[idx], c.itemSize)
  }

  /** Every occurrence of every tuple in every trace. */
  ghost function Occurrences(c: Config): (r: multiset<nat>) {
    Mass(Tuples(c), Range(|c.traces|))
  }

  // ----- Coverage

  ghost predicate HasTuple(c: Config, files: seq<nat>, t: nat) {
    exists k :: 0 <= k < |files| && files[k] < |c.traces| && t in c.traces[files[k]]
  }

  /** The files cover everything that all files together cover. */
  ghost predicate Covers(c: Config, files: seq<nat>) {
    forall i, t :: 0 <= i < |c.traces| && t in c.traces[i] ==> HasTuple(c, files, t)
  }

  /** No covering selection does without the file. */
  ghost predicate Essential(c: Config, idx: nat) {
    forall files: seq<nat> :: Covers(c, files) ==> idx in files
  }

  ghost predicate DuplicateFree(trace: seq<nat>) {
    forall i, j :: 0 <= i < j < |trace| ==> trace[i] != trace[j]
  }

  /** No trace names a tuple twice. */
  ghost predicate NoRepeats(c: Config) {
    forall i :: 0 <= i < |c.traces| ==> DuplicateFree(c.traces[i])
  }

  ghost predicate ExactlyEssential(c: Config, files: seq<nat>) {
    forall idx :: 0 <= idx < |c.traces| ==> (Essential(c, idx) <==> idx in files)
  }

  // ----- Counting occurrences

  lemma {:induction false} OccurrencesOf(c: Config, files: seq<nat>, t: nat)
    requires InRange(c, files)
    ensures t in Mass(Tuples(c), files) <==> HasTuple(c, files, t)
    ensures Mass(Tuples(c), files)[t] == 1 ==>
              forall i, j :: 0 <= i < j < |files| ==> !(t in c.traces[files[i]] && t in c.traces[files[j]])
  {
    if files != [] {
      OccurrencesOf(c, files[1..], t);
      var head := Tuples(c)(files[0]);
      assert head == multiset(c.traces[files[0]]);
      assert Mass(Tuples(c), files)[t] == head[t] + Mass(Tuples(c), files[1..])[t];
      assert forall k :: 1 <= k < |files| ==> files[k] == files[1..][k - 1];
      assert t in head <==> t in c.traces[files[0]];
      if HasTuple(c, files, t) {
        var k :| 0 <= k < |files| && files[k] < |c.traces| && t in c.traces[files[k]];
        if k > 0 { assert HasTuple(c, files[1..], t) by { assert files[1..][k - 1] == files[k]; } }
      }
      if HasTuple(c, files[1..], t) {
        var k :| 0 <= k < |files[1..]| && files[1..][k] < |c.traces| && t in c.traces[files[1..][k]];
        assert files[k + 1] == files[1..][k];
      }
    }
  }

  /** A tuple that occurs once belongs to one file only. */
  lemma SingleOccurrence(c: Config, t: nat, idx: nat, i: nat)
    requires Occurrences(c)[t] == 1
    requires idx < |c.traces| && t in c.traces[idx] && i < |c.traces| && t in c.traces[i]
    ensures i == idx
  {
    var all := Range(|c.traces|);
    OccurrencesOf(c, all, t);
    assert all[i] == i && all[idx] == idx;
  }

  lemma SingleOccurrenceIsEssential(c: Config, t: nat, idx: nat)
    requires Occurrences(c)[t] == 1 && idx < |c.traces| && t in c.traces[idx]
    ensures Essential(c, idx)
  {
    forall files: seq<nat> | Covers(c, files)
      ensures idx in files
    {
      assert HasTuple(c, files, t);
      var k :| 0 <= k < |files| && files[k] < |c.traces| && t in c.traces[files[k]];
      SingleOccurrence(c, t, idx, files[k]);
    }
  }

  lemma {:induction false} CountIfOnly(c: Config, n: nat, t: nat, idx: nat)
    requires n <= |c.traces| && idx < |c.traces|
    requires forall i :: 0 <= i < n && i != idx ==> t !in c.traces[i]
    ensures Mass(Tuples(c), Range(|c.traces|)[..n])[t] == if idx < n then multiset(c.traces[idx])[t] else 0
  {
    if n > 0 {
      CountIfOnly(c, n - 1, t, idx);
      var all := Range(|c.traces|);
      assert all[..n] == all[..n - 1] + [n - 1];
      MassOfOne(Tuples(c), all[..n - 1], n - 1);
      assert Tuples(c)(n - 1) == multiset(c.traces[n - 1]);
      hide Mass;
      if n - 1 != idx { assert t !in c.traces[n - 1]; }
    }
  }

  lemma {:induction false} DuplicateFreeCount(trace: seq<nat>, t: nat)
    requires DuplicateFree(trace) && t in trace
    ensures multiset(trace)[t] == 1
  {
    var n := |trace| - 1;
    assert trace == trace[..n] + [trace[n]];
    if t in trace[..n] { DuplicateFreeCount(trace[..n], t); }
  }

  /** A file that nothing can replace has a tuple that occurs once. */
  lemma EssentialHasSingleOccurrence(c: Config, idx: nat) returns (t: nat)
    requires idx < |c.traces| && Essential(c, idx) && DuplicateFree(c.traces[idx])
    ensures t in c.traces[idx] && Occurrences(c)[t] == 1
  {
    var all := Range(|c.traces|);
    var others := all[..idx] + all[idx + 1..];
    assert idx !in others;
    assert !Covers(c, others);
    var i, t' :| 0 <= i < |c.traces| && t' in c.traces[i] && !HasTuple(c, others, t');
    t := t';
    forall j | 0 <= j < |c.traces| && j != idx
      ensures t !in c.traces[j]
    {
      assert others[if j < idx then j else j - 1] == j;
    }
    CountIfOnly(c, |c.traces|, t, idx);
    assert all[..|c.traces|] == all;
    DuplicateFreeCount(c.traces[idx], t);
  }

  // ----- Reading packs

  function ReadTrace(pack: seq<Byte>, job: (nat, nat), itemSize: nat): (r: seq<nat>) {
    FromFile(if job.0 <= |pack| then pack[job.0..] else [], itemSize, job.1)
  }

  lemma ReadTraceIsTrace(c: Config, idx: nat, info: map<nat, (nat, nat, nat)>, packs: seq<seq<Byte>>)
    requires c.Valid() && Readable(c, idx, info, packs)
    ensures ReadTrace(packs[info[idx].0], (info[idx].1, info[idx].2), c.itemSize) == c.traces[idx]
  {
    var (i, pos, count) := info[idx];
    FileRoundTrip(c.traces[idx], c.itemSize, packs[i][pos..]);
  }

  /** What one combining worker returns: all tuples of its jobs. */
  method CombineTraces(pack: seq<Byte>, jobs: seq<(nat, nat)>, itemSize: nat) returns (have: set<nat>)
    ensures forall t :: t in have <==> exists j :: 0 <= j < |jobs| && t in ReadTrace(pack, jobs[j], itemSize)
  {
    have := {};
    for n := 0 to |jobs|
      invariant forall t :: t in have <==> exists j :: 0 <= j < n && t in ReadTrace(pack, jobs[j], itemSize)
    {
      var trace := ReadTrace(pack, jobs[n], itemSize);
      have := have + set t | t in trace;
    }
  }

  /** The table entry of a tuple that occurs is a file that has it. */
  lemma EntryHasTuple(c: Config, best: seq<nat>, unique: seq<(nat, nat)>, info: map<nat, (nat, nat, nat)>, packs: seq<seq<Byte>>, n: nat)
    requires c.Valid() && Collected(c, best, unique, info, packs) && n < |unique|
    ensures var t := unique[n].0; Readable(c, best[t], info, packs) && t in c.traces[best[t]]
  {
    hide Readable;
    var t, all := unique[n].0, Range(|c.traces|);
    OccurrencesOf(c, all, t);
    assert HasTuple(c, all, t);
    var k :| 0 <= k < |all| && all[k] < |c.traces| && t in c.traces[all[k]];
    assert LeastOfAll(c, t, best[t]) && best[t] <= k;
  }

  lemma SingleTupleFile(c: Config, best: seq<nat>, unique: seq<(nat, nat)>, info: map<nat, (nat, nat, nat)>, packs: seq<seq<Byte>>, n: nat)
    requires c.Valid() && Collected(c, best, unique, info, packs) && n < |unique| && unique[n].1 == 1
    ensures var idx := best[unique[n].0];
            Essential(c, idx) && Readable(c, idx, info, packs) && idx in info && info[idx].0 < c.workers
  {
    EntryHasTuple(c, best, unique, info, packs, n);
    SingleOccurrenceIsEssential(c, unique[n].0, best[unique[n].0]);
  }

  // ----- Passes

  /** Each saved file's trace is among the jobs of the worker that packed it, and no other. */
  ghost predicate JobsOf(saved: seq<nat>, jobs: seq<seq<(nat, nat)>>, info: map<nat, (nat, nat, nat)>) {
    && (forall k :: 0 <= k < |saved| ==>
          saved[k] in info && info[saved[k]].0 < |jobs| && (info[saved[k]].1, info[saved[k]].2) in jobs[info[saved[k]].0])
    && (forall i, j :: 0 <= i < |jobs| && 0 <= j < |jobs[i]| ==>
          exists k :: 0 <= k < |saved| && saved[k] in info && info[saved[k]] == (i, jobs[i][j].0, jobs[i][j].1))
  }

  lemma AddJob(saved: seq<nat>, jobs: seq<seq<(nat, nat)>>, info: map<nat, (nat, nat, nat)>, idx: nat)
    requires JobsOf(saved, jobs, info) && idx in info && info[idx].0 < |jobs|
    ensures var (i, pos, count) := info[idx]; JobsOf(saved + [idx], jobs[i := jobs[i] + [(pos, count)]], info)
  {
    var (i, pos, count) := info[idx];
    var saved', jobs' := saved + [idx], jobs[i := jobs[i] + [(pos, count)]];
    assert saved'[|saved|] == idx && jobs'[i][|jobs[i]|] == (pos, count);
    forall k | 0 <= k < |saved'|
      ensures saved'[k] in info && info[saved'[k]].0 < |jobs'| && (info[saved'[k]].1, info[saved'[k]].2) in jobs'[info[saved'[k]].0]
    {
      if k < |saved| { assert saved'[k] == saved[k]; }
    }
    forall m, j | 0 <= m < |jobs'| && 0 <= j < |jobs'[m]|
      ensures exists k :: 0 <= k < |saved'| && saved'[k] in info && info[saved'[k]] == (m, jobs'[m][j].0, jobs'[m][j].1)
    {
      if m == i && j == |jobs[i]| {
        assert info[saved'[|saved|]] == (m, jobs'[m][j].0, jobs'[m][j].1);
      } else {
        assert jobs'[m][j] == jobs[m][j];
        var k :| 0 <= k < |saved| && saved[k] in info && info[saved[k]] == (m, jobs[m][j].0, jobs[m][j].1);
        assert saved'[k] == saved[k];
      }
    }
  }

  method FirstPass(ghost c: Config, best: seq<nat>, unique: seq<(nat, nat)>, info: map<nat, (nat, nat, nat)>,
                   ghost packs: seq<seq<Byte>>, workers: nat)
    returns (saved: seq<nat>, jobs: seq<seq<(nat, nat)>>)
    requires c.Valid() && Collected(c, best, unique, info, packs) && workers == c.workers
    ensures |jobs| == workers && JobsOf(saved, jobs, info)
    ensures DuplicateFree(saved)
    ensures forall k :: 0 <= k < |saved| ==> Essential(c, saved[k]) && Readable(c, saved[k], info, packs)
    ensures forall t :: 0 <= t < c.tuples && Occurrences(c)[t] == 1 ==> best[t] in saved
  {
    hide Readable, Occurrences, Essential, LeastOfAll, JobsOf;
    saved := [];
    jobs := seq(workers, _ => []);
    assert JobsOf(saved, jobs, info) by { NoJobs(jobs, info); }
    for n := 0 to |unique|
      invariant |jobs| == workers && JobsOf(saved, jobs, info)
      invariant DuplicateFree(saved)
      invariant forall k :: 0 <= k < |saved| ==> Essential(c, saved[k]) && Readable(c, saved[k], info, packs)
      invariant forall m :: 0 <= m < n && unique[m].1 == 1 ==> best[unique[m].0] in saved
    {
      var (t, count) := unique[n];
      if count != 1 { continue; }
      var idx := best[t];
      if idx in saved { continue; }
      SingleTupleFile(c, best, unique, info, packs, n);
      AddJob(saved, jobs, info, idx);
      var (worker, pos, tuples) := info[idx];
      saved := saved + [idx];
      jobs := jobs[worker := jobs[worker] + [(pos, tuples)]];
      assert saved[|saved| - 1] == idx;
    }
    forall t | 0 <= t < c.tuples && Occurrences(c)[t] == 1
      ensures best[t] in saved
    {
      assert t in Occurrences(c);
    }
  }

  lemma NoJobs(jobs: seq<seq<(nat, nat)>>, info: map<nat, (nat, nat, nat)>)
    requires forall i :: 0 <= i < |jobs| ==> jobs[i] == []
    ensures JobsOf([], jobs, info)
  {
  }

  // ----- From the first pass to the second

  /** The combined sets of all workers hold exactly the tuples of the saved files. */
  method CombineAll(ghost c: Config, ghost saved: seq<nat>, jobs: seq<seq<(nat, nat)>>, ghost info: map<nat, (nat, nat, nat)>,
                    packs: seq<seq<Byte>>, itemSize: nat)
    returns (have: set<nat>)
    requires c.Valid() && itemSize == c.itemSize && |jobs| == |packs| && JobsOf(saved, jobs, info)
    requires forall k :: 0 <= k < |saved| ==> Readable(c, saved[k], info, packs)
    ensures forall t :: t in have <==> HasTuple(c, saved, t)
  {
    hide Readable, JobsOf;
    have := {};
    for n := 0 to |jobs|
      invariant forall t :: t in have <==> exists i, j :: 0 <= i < n && 0 <= j < |jobs[i]| && t in ReadTrace(packs[i], jobs[i][j], itemSize)
    {
      var part := CombineTraces(packs[n], jobs[n], itemSize);
      have := have + part;
    }
    forall t
      ensures t in have <==> HasTuple(c, saved, t)
    {
      JobsAreSaved(c, saved, jobs, info, packs, t);
    }
  }

  lemma JobsAreSaved(c: Config, saved: seq<nat>, jobs: seq<seq<(nat, nat)>>, info: map<nat, (nat, nat, nat)>, packs: seq<seq<Byte>>, t: nat)
    requires c.Valid() && |jobs| == |packs| && JobsOf(saved, jobs, info)
    requires forall k :: 0 <= k < |saved| ==> Readable(c, saved[k], info, packs)
    ensures (exists i, j :: 0 <= i < |jobs| && 0 <= j < |jobs[i]| && t in ReadTrace(packs[i], jobs[i][j], c.itemSize)) <==> HasTuple(c, saved, t)
  {
    hide ReadTrace;
    if i, j :| 0 <= i < |jobs| && 0 <= j < |jobs[i]| && t in ReadTrace(packs[i], jobs[i][j], c.itemSize) {
      var k :| 0 <= k < |saved| && saved[k] in info && info[saved[k]] == (i, jobs[i][j].0, jobs[i][j].1);
      ReadTraceIsTrace(c, saved[k], info, packs);
      assert t in c.traces[saved[k]];
    }
    if HasTuple(c, saved, t) {
      var k :| 0 <= k < |saved| && saved[k] < |c.traces| && t in c.traces[saved[k]];
      ReadTraceIsTrace(c, saved[k], info, packs);
      var (i, pos, count) := info[saved[k]];
      var j :| 0 <= j < |jobs[i]| && jobs[i][j] == (pos, count);
      assert t in ReadTrace(packs[i], jobs[i][j], c.itemSize);
    }
  }

  /** The file at `k` brought a tuple that no file saved before it has. */
  ghost predicate AddsTuple(c: Config, saved: seq<nat>, k: nat) {
    k < |saved| && saved[k] < |c.traces| && exists t :: t in c.traces[saved[k]] && !HasTuple(c, saved[..k], t)
  }

  lemma HasTupleMore(c: Config, saved: seq<nat>, idx: nat, t: nat)
    requires idx < |c.traces|
    ensures HasTuple(c, saved + [idx], t) <==> HasTuple(c, saved, t) || t in c.traces[idx]
  {
    var more := saved + [idx];
    assert more[|saved|] == idx;
    assert forall k :: 0 <= k < |saved| ==> more[k] == saved[k];
    if HasTuple(c, saved, t) {
      var k :| 0 <= k < |saved| && saved[k] < |c.traces| && t in c.traces[saved[k]];
      assert more[k] == saved[k];
    }
  }

  /** Goes through the tuples in reverse and saves the file of each one still missing, without
      looking at what is saved already. */
  method SecondPass(ghost c: Config, best: seq<nat>, unique: seq<(nat, nat)>, info: map<nat, (nat, nat, nat)>,
                    packs: seq<seq<Byte>>, itemSize: nat, saved0: seq<nat>, have0: set<nat>)
    returns (saved: seq<nat>)
    requires c.Valid() && Collected(c, best, unique, info, packs) && itemSize == c.itemSize
    requires DuplicateFree(saved0) && forall t :: t in have0 <==> HasTuple(c, saved0, t)
    ensures saved0 <= saved && DuplicateFree(saved)
    ensures forall k :: |saved0| <= k < |saved| ==> AddsTuple(c, saved, k)
    ensures Covers(c, saved)
  {
    hide Readable, Occurrences, LeastOfAll, HasTuple, AddsTuple, ReadTrace;
    saved := saved0;
    var have, n := have0, |unique|;
    while n > 0
      invariant 0 <= n <= |unique|
      invariant saved0 <= saved && DuplicateFree(saved)
      invariant forall t :: t in have <==> HasTuple(c, saved, t)
      invariant forall k :: |saved0| <= k < |saved| ==> AddsTuple(c, saved, k)
      invariant forall m :: n <= m < |unique| ==> unique[m].0 in have
    {
      n := n - 1;
      var t := unique[n].0;
      if t in have { continue; }
      var idx := best[t];
      EntryHasTuple(c, best, unique, info, packs, n);
      ReadableFile(c, idx, info, packs);
      MissingFileIsNew(c, saved, idx, t);
      ReadTraceIsTrace(c, idx, info, packs);
      NewFileAdds(c, saved0, saved, idx, t);
      forall u ensures HasTuple(c, saved + [idx], u) <==> HasTuple(c, saved, u) || u in c.traces[idx] { HasTupleMore(c, saved, idx, u); }
      var (worker, pos, count) := info[idx];
      var trace := ReadTrace(packs[worker], (pos, count), itemSize);
      saved := saved + [idx];
      have := have + set u | u in trace;
    }
    forall i, t | 0 <= i < |c.traces| && t in c.traces[i]
      ensures HasTuple(c, saved, t)
    {
      TupleIsListed(c, best, unique, info, packs, i, t);
    }
  }

  lemma ReadableFile(c: Config, idx: nat, info: map<nat, (nat, nat, nat)>, packs: seq<seq<Byte>>)
    requires Readable(c, idx, info, packs)
    ensures idx < |c.traces| && idx in info && info[idx].0 < |packs|
  {
  }

  lemma MissingFileIsNew(c: Config, saved: seq<nat>, idx: nat, t: nat)
    requires idx < |c.traces| && t in c.traces[idx] && !HasTuple(c, saved, t) && DuplicateFree(saved)
    ensures DuplicateFree(saved + [idx])
  {
  }

  lemma NewFileAdds(c: Config, saved0: seq<nat>, saved: seq<nat>, idx: nat, t: nat)
    requires idx < |c.traces| && t in c.traces[idx] && !HasTuple(c, saved, t)
    requires forall k :: |saved0| <= k < |saved| ==> AddsTuple(c, saved, k)
    ensures forall k :: |saved0| <= k < |saved + [idx]| ==> AddsTuple(c, saved + [idx], k)
  {
    hide HasTuple;
    var more := saved + [idx];
    forall k | |saved0| <= k < |more|
      ensures AddsTuple(c, more, k)
    {
      if k < |saved| {
        assert AddsTuple(c, saved, k) && more[..k] == saved[..k] && more[k] == saved[k];
      } else {
        assert more[..k] == saved && more[k] == idx;
      }
    }
  }

  lemma TupleIsListed(c: Config, best: seq<nat>, unique: seq<(nat, nat)>, info: map<nat, (nat, nat, nat)>, packs: seq<seq<Byte>>, i: nat, t: nat)
    requires Collected(c, best, unique, info, packs) && i < |c.traces| && t in c.traces[i]
    ensures exists m :: 0 <= m < |unique| && unique[m].0 == t
  {
    hide Readable, LeastOfAll;
    OccurrencesOf(c, Range(|c.traces|), t);
    assert Range(|c.traces|)[i] == i;
    assert HasTuple(c, Range(|c.traces|), t);
    assert t in Occurrences(c);
  }

  // ----- The selection

  /** Keeps the coverage of the whole corpus, saves no file twice; the first files are ones no
      covering selection does without, and each later one adds a tuple. If no trace repeats a
      tuple, the first pass finds exactly the indispensable files. */
  method Select(ghost c: Config, best: seq<nat>, unique: seq<(nat, nat)>, info: map<nat, (nat, nat, nat)>,
                packs: seq<seq<Byte>>, itemSize: nat, workers: nat)
    returns (saved: seq<nat>, first: nat)
    requires c.Valid() && Collected(c, best, unique, info, packs) && itemSize == c.itemSize && workers == c.workers
    ensures first <= |saved| && Covers(c, saved) && DuplicateFree(saved)
    ensures forall k :: 0 <= k < first ==> Essential(c, saved[k])
    ensures forall k :: first <= k < |saved| ==> AddsTuple(c, saved, k)
    ensures NoRepeats(c) ==> ExactlyEssential(c, saved[..first])
  {
    var jobs, saved0;
    saved0, jobs := FirstPass(c, best, unique, info, packs, workers);
    var have := CombineAll(c, saved0, jobs, info, packs, itemSize);
    saved := SecondPass(c, best, unique, info, packs, itemSize, saved0, have);
    first := |saved0|;
    assert saved[..first] == saved0;
    if NoRepeats(c) {
      hide Readable, Covers, AddsTuple;
      forall idx | 0 <= idx < |c.traces|
        ensures Essential(c, idx) <==> idx in saved0
      {
        if Essential(c, idx) { EssentialIsFirst(c, best, unique, info, packs, idx, saved0); }
      }
    }
  }

  lemma EssentialIsFirst(c: Config, best: seq<nat>, unique: seq<(nat, nat)>, info: map<nat, (nat, nat, nat)>, packs: seq<seq<Byte>>,
                         idx: nat, saved0: seq<nat>)
    requires c.Valid() && Collected(c, best, unique, info, packs)
    requires forall t :: 0 <= t < c.tuples && Occurrences(c)[t] == 1 ==> best[t] in saved0
    requires idx < |c.traces| && Essential(c, idx) && DuplicateFree(c.traces[idx])
    ensures idx in saved0
  {
    hide Readable;
    var t := EssentialHasSingleOccurrence(c, idx);
    hide Essential;
    assert t < c.tuples by {
      var j :| 0 <= j < |c.traces[idx]| && c.traces[idx][j] == t;
    }
    assert LeastOfAll(c, t, best[t]);
    SingleOccurrence(c, t, idx, best[t]);
  }

  // ----- Merging the results

  /** Entry by entry, the smallest over all tables. */
  method MergeTables(merged: seq<Result>, tuples: nat) returns (best: seq<nat>)
    requires merged != [] && forall k :: 0 <= k < |merged| ==> |merged[k].best| == tuples
    ensures |best| == tuples
    ensures forall t, k :: 0 <= t < tuples && 0 <= k < |merged| ==> best[t] <= merged[k].best[t]
    ensures forall t :: 0 <= t < tuples ==> exists k :: 0 <= k < |merged| && best[t] == merged[k].best[t]
  {
    best := [];
    for t := 0 to tuples
      invariant |best| == t
      invariant forall u, k :: 0 <= u < t && 0 <= k < |merged| ==> best[u] <= merged[k].best[u]
      invariant forall u :: 0 <= u < t ==> exists k :: 0 <= k < |merged| && best[u] == merged[k].best[u]
    {
      var low := merged[0].best[t];
      for k := 1 to |merged|
        invariant forall m :: 0 <= m < k ==> low <= merged[m].best[t]
        invariant exists m :: 0 <= m < k && low == merged[m].best[t]
      {
        if merged[k].best[t] < low { low := merged[k].best[t]; }
      }
      best := best + [low];
    }
  }

  method MergeCounters(merged: seq<Result>) returns (counter: multiset<nat>)
    ensures counter == ResultMass(merged)
  {
    counter := multiset{};
    for k := 0 to |merged|
      invariant counter == ResultMass(merged[..k])
    {
      assert merged[..k + 1] == merged[..k] + [merged[k]];
      ResultMassAppend(merged[..k], [merged[k]]);
      counter := counter + merged[k].counts;
    }
    assert merged[..|merged|] == merged;
  }

  /** All crashing files, as the workers report them. */
  method MergeCrashes(merged: seq<Result>) returns (crashes: seq<nat>)
    ensures forall idx :: idx in crashes <==> exists k :: 0 <= k < |merged| && idx in merged[k].crashes
  {
    crashes := [];
    for n := 0 to |merged|
      invariant forall idx :: idx in crashes <==> exists k :: 0 <= k < n && idx in merged[k].crashes
    {
      crashes := crashes + merged[n].crashes;
    }
  }

  /** Each tuple once, with its count. The order is left open. */
  method ListTuples(counter: multiset<nat>) returns (unique: seq<(nat, nat)>)
    ensures forall k :: 0 <= k < |unique| ==> unique[k].1 == counter[unique[k].0] > 0
    ensures forall t :: t in counter ==> exists k :: 0 <= k < |unique| && unique[k].0 == t
    ensures forall i, j :: 0 <= i < j < |unique| ==> unique[i].0 != unique[j].0
  {
    unique := [];
    var left := counter;
    while left != multiset{}
      invariant left <= counter
      invariant forall k :: 0 <= k < |unique| ==> unique[k].1 == counter[unique[k].0] > 0 && unique[k].0 !in left
      invariant forall t :: t in counter ==> t in left || exists k :: 0 <= k < |unique| && unique[k].0 == t
      invariant forall i, j :: 0 <= i < j < |unique| ==> unique[i].0 != unique[j].0
      decreases |left|
    {
      var t :| t in left;
      ghost var before := unique;
      unique := unique + [(t, counter[t])];
      left := left[t := 0];
      assert unique[|before|].0 == t && forall k :: 0 <= k < |before| ==> unique[k] == before[k];
    }
  }

  lemma CollectedAtEnd(c: Config, s: State, best: seq<nat>, unique: seq<(nat, nat)>, packs: seq<seq<Byte>>)
    requires c.Valid() && Inv(c, s) && Finished(c, s)
    requires |packs| == c.workers == |s.workers| && forall i :: 0 <= i < |packs| ==> packs[i] == s.workers[i].pack
    requires forall k :: 0 <= k < |s.merged| ==> |s.merged[k].best| == c.tuples
    requires |best| == c.tuples
    requires forall t, k :: 0 <= t < c.tuples && 0 <= k < |s.merged| ==> best[t] <= s.merged[k].best[t]
    requires forall t :: 0 <= t < c.tuples ==> exists k :: 0 <= k < |s.merged| && best[t] == s.merged[k].best[t]
    requires forall k :: 0 <= k < |unique| ==> unique[k].1 == Occurrences(c)[unique[k].0] > 0
    requires forall t :: t in Occurrences(c) ==> exists k :: 0 <= k < |unique| && unique[k].0 == t
    requires forall i, j :: 0 <= i < j < |unique| ==> unique[i].0 != unique[j].0
    ensures Collected(c, best, unique, s.traceInfo, packs)
  {
    hide Inv, Occurrences, LeastOfAll, Holds;
    forall t | 0 <= t < c.tuples
      ensures LeastOfAll(c, t, best[t]) && (best[t] != NoFile(c) ==> Readable(c, best[t], s.traceInfo, packs))
    {
      var k :| 0 <= k < |s.merged| && best[t] == s.merged[k].best[t];
      MergedTablesAreExact(c, s, t, best[t], k);
      if best[t] != NoFile(c) {
        var i := s.traceInfo[best[t]].0;
        assert packs[i] == s.workers[i].pack;
      }
    }
    forall k | 0 <= k < |unique|
      ensures unique[k].0 < c.tuples
    {
      OccurringTuple(c, unique[k].0);
    }
  }

  lemma OccurringTuple(c: Config, t: nat)
    requires c.Valid() && t in Occurrences(c)
    ensures t < c.tuples
  {
    var all := Range(|c.traces|);
    OccurrencesOf(c, all, t);
    var k :| 0 <= k < |all| && all[k] < |c.traces| && t in c.traces[all[k]];
    var j :| 0 <= j < |c.traces[all[k]]| && c.traces[all[k]][j] == t;
  }

  lemma TablesHaveAllTuples(c: Config, s: State)
    requires Inv(c, s) && Finished(c, s)
    ensures |s.workers| == c.workers
    ensures forall k :: 0 <= k < |s.merged| ==> |s.merged[k].best| == c.tuples
  {
    MergedIsTrue(c, s);
    hide Conserved, NotesInv, ResultsInv, WorkerInv;
    forall k | 0 <= k < |s.merged| ensures |s.merged[k].best| == c.tuples { TableOf(c, s, s.merged[k].worker); }
  }

  /** The list names the files with an empty trace, and no others. */
  ghost predicate ExactlyCrashed(c: Config, crashes: seq<nat>) {
    forall idx: nat :: idx in crashes <==> idx < |c.traces| && c.traces[idx] == []
  }

  method CollectCrashes(ghost c: Config, ghost s: State, merged: seq<Result>) returns (crashes: seq<nat>)
    requires c.Valid() && Inv(c, s) && Finished(c, s) && merged == s.merged
    ensures ExactlyCrashed(c, crashes)
  {
    hide Inv, Config.Valid, Finished;
    crashes := MergeCrashes(merged);
    forall idx: nat
      ensures idx in crashes <==> idx < |c.traces| && c.traces[idx] == []
    {
      MergedCrashesAreExact(c, s, idx);
    }
  }

  /** What main does once the collection has finished. */
  method MinimiseCollected(ghost c: Config, ghost s: State, merged: seq<Result>, info: map<nat, (nat, nat, nat)>, packs: seq<seq<Byte>>,
                           tuples: nat, itemSize: nat, workers: nat)
    returns (saved: seq<nat>, first: nat, crashes: seq<nat>)
    requires c.Valid() && Inv(c, s) && Finished(c, s) && merged == s.merged && info == s.traceInfo
    requires |packs| == |s.workers| && forall i :: 0 <= i < |packs| ==> packs[i] == s.workers[i].pack
    requires tuples == c.tuples && itemSize == c.itemSize && workers == c.workers
    ensures first <= |saved| && Covers(c, saved) && DuplicateFree(saved)
    ensures forall k :: 0 <= k < first ==> Essential(c, saved[k])
    ensures forall k :: first <= k < |saved| ==> AddsTuple(c, saved, k)
    ensures NoRepeats(c) ==> ExactlyEssential(c, saved[..first])
    ensures ExactlyCrashed(c, crashes)
  {
    hide Inv, ExactlyCrashed, NoRepeats, ExactlyEssential, Covers, Essential, AddsTuple, Occurrences, Collected;
    TablesHaveAllTuples(c, s);
    MergedCountsAreExact(c, s);
    OccurrencesWritten(c);
    var best := MergeTables(merged, tuples);
    var counter := MergeCounters(merged);
    var unique := ListTuples(counter);
    CollectedAtEnd(c, s, best, unique, packs);
    saved, first := Select(c, best, unique, info, packs, itemSize, workers);
    crashes := CollectCrashes(c, s, merged);
  }

  /** End to end: whatever the interleaving of dispatcher and workers, once nobody can move,
      the files main saves from what it then holds cover what the whole corpus covers; and if no
      trace names a tuple twice, the first of them are exactly the essential files. */
  method Minimise(ghost c: Config, ghost schedule: seq<Actor>, ghost states: seq<State>,
                  merged: seq<Result>, info: map<nat, (nat, nat, nat)>, packs: seq<seq<Byte>>,
                  tuples: nat, itemSize: nat, workers: nat)
    returns (saved: seq<nat>, first: nat, crashes: seq<nat>)
    requires c.Valid() && IsRun(c, schedule, states) && forall a :: !Enabled(c, states[|schedule|], a)
    requires merged == states[|schedule|].merged && info == states[|schedule|].traceInfo
    requires |packs| == |states[|schedule|].workers| && forall i :: 0 <= i < |packs| ==> packs[i] == states[|schedule|].workers[i].pack
    requires tuples == c.tuples && itemSize == c.itemSize && workers == c.workers
    ensures first <= |saved| && Covers(c, saved) && DuplicateFree(saved)
    ensures forall k :: 0 <= k < first ==> Essential(c, saved[k])
    ensures forall k :: first <= k < |saved| ==> AddsTuple(c, saved, k)
    ensures NoRepeats(c) ==> ExactlyEssential(c, saved[..first])
    ensures ExactlyCrashed(c, crashes)
  {
    ghost var s := states[|schedule|];
    hide Inv, ExactlyCrashed, IsRun, Enabled, NoRepeats, ExactlyEssential, Covers, Essential, AddsTuple;
    EveryRun(c, schedule, states);
    saved, first, crashes := MinimiseCollected(c, s, merged, info, packs, tuples, itemSize, workers);
  }

  lemma OccurrencesWritten(c: Config)
    ensures Occurrences(c) == Mass(Tuples(c), Range(|c.traces|))
  {
  }
}
