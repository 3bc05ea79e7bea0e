/** The virgin map of the fuzzer and the scans over it: classifying hit counts, discovering
    new tuples and counts, and the read-only scan that skips uninteresting traces.

    Maps are arrays of bytes; a word is `width` consecutive bytes (4 or 8), on which the
    bitwise operations act byte by byte whatever the byte order. */
module Coverage {
  import opened Basics

  type Bytes = seq<bv8>

  // ----- What a scan reports

  /** A bit of the trace byte is still set in the virgin byte. */
  predicate Hit(c: bv8, v: bv8) { c & v != 0 }

  /** A nonzero byte meets a byte never touched before. */
  predicate Fresh(c: bv8, v: bv8) { c != 0 && v == 0xff }

  function Clear(c: bv8, v: bv8): (r: bv8) { v & !c }

  ghost predicate AnyHit(cur: Bytes, vir: Bytes)
    requires |cur| == |vir|
  {
    exists i :: 0 <= i < |cur| && Hit(cur[i], vir[i])
  }

  ghost predicate AnyFresh(cur: Bytes, vir: Bytes)
    requires |cur| == |vir|
  {
    exists i :: 0 <= i < |cur| && Fresh(cur[i], vir[i])
  }

  /** 2 for a new tuple, 1 for a new hit count only, 0 for nothing new. */
  ghost function Verdict(cur: Bytes, vir: Bytes): (r: nat)
    requires |cur| == |vir|
    ensures r <= 2
  {
    if AnyFresh(cur, vir) then 2 else if AnyHit(cur, vir) then 1 else 0
  }

  function Cleared(cur: Bytes, vir: Bytes): (r: Bytes)
    requires |cur| == |vir|
    ensures |r| == |vir| && forall i :: 0 <= i < |r| ==> r[i] == Clear(cur[i], vir[i])
  {
    seq(|vir|, i requires 0 <= i < |vir| => Clear(cur[i], vir[i]))
  }

  function Max(a: nat, b: nat): (r: nat) { if a < b then b else a }

  lemma ByteFacts(c: bv8, v: bv8)
    ensures Fresh(c, v) ==> Hit(c, v)
    ensures !Hit(c, v) ==> Clear(c, v) == v
    ensures c == 0 ==> !Hit(c, v)
  {
  }

  lemma AnyFreshHits(cur: Bytes, vir: Bytes)
    requires |cur| == |vir|
    ensures AnyFresh(cur, vir) ==> AnyHit(cur, vir)
  {
    hide Hit, Fresh;
    if i :| 0 <= i < |cur| && Fresh(cur[i], vir[i]) {
      ByteFacts(cur[i], vir[i]);
    }
  }

  lemma NoHitClearsNothing(cur: Bytes, vir: Bytes)
    requires |cur| == |vir| && !AnyHit(cur, vir)
    ensures Cleared(cur, vir) == vir
  {
    hide Hit, Clear;
    forall i | 0 <= i < |vir| ensures Cleared(cur, vir)[i] == vir[i] { ByteFacts(cur[i], vir[i]); }
  }

  /** The verdict on a map is the largest over its parts. */
  lemma VerdictAppend(c1: Bytes, v1: Bytes, c2: Bytes, v2: Bytes)
    requires |c1| == |v1| && |c2| == |v2|
    ensures Verdict(c1 + c2, v1 + v2) == Max(Verdict(c1, v1), Verdict(c2, v2))
    ensures AnyHit(c1 + c2, v1 + v2) <==> AnyHit(c1, v1) || AnyHit(c2, v2)
  {
    hide Hit, Fresh;
    var c, v, n := c1 + c2, v1 + v2, |c1|;
    if i :| 0 <= i < |c1| && Hit(c1[i], v1[i]) { assert Hit(c[i], v[i]); }
    if i :| 0 <= i < |c2| && Hit(c2[i], v2[i]) { assert Hit(c[n + i], v[n + i]); }
    if i :| 0 <= i < |c1| && Fresh(c1[i], v1[i]) { assert Fresh(c[i], v[i]); }
    if i :| 0 <= i < |c2| && Fresh(c2[i], v2[i]) { assert Fresh(c[n + i], v[n + i]); }
    if i :| 0 <= i < |c| && Hit(c[i], v[i]) { assert i >= n ==> Hit(c2[i - n], v2[i - n]); }
    if i :| 0 <= i < |c| && Fresh(c[i], v[i]) { assert i >= n ==> Fresh(c2[i - n], v2[i - n]); }
    AnyFreshHits(c1, v1);
    AnyFreshHits(c2, v2);
  }

  ghost predicate IsMultiple(n: nat, size: nat)
    requires size > 0
    decreases n
  {
    n == 0 || (n >= size && IsMultiple(n - size, size))
  }

  lemma MultipleStep(n: nat, size: nat)
    requires size > 0 && IsMultiple(n, size) && n > 0
    ensures n >= size && IsMultiple(n - size, size)
  {
  }

  // ----- Discovering

  /** One word: raises the verdict so far and clears the bits seen. */
  method DiscoverWord(ret: nat, c: Bytes, virgin: array<bv8>, at: nat) returns (ret': nat)
    requires at + |c| <= virgin.Length && ret <= 2
    modifies virgin
    ensures ret' == Max(ret, Verdict(c, old(virgin[at..at + |c|])))
    ensures virgin[..] == old(virgin[..at]) + Cleared(c, old(virgin[at..at + |c|])) + old(virgin[at + |c|..])
  {
    hide Hit, Fresh, Clear;
    ret' := ret;
    var v := virgin[at..at + |c|];
    AnyFreshHits(c, v);
    if exists i :: 0 <= i < |c| && Hit(c[i], v[i]) {
      if ret < 2 {
        ret' := if exists i :: 0 <= i < |c| && Fresh(c[i], v[i]) then 2 else 1;
      }
      Memcpy(virgin, at, Cleared(c, v));
    } else {
      NoHitClearsNothing(c, v);
      assert virgin[..] == virgin[..at] + v + virgin[at + |c|..];
    }
  }

  /** The first `at` bytes are scanned: the verdict on them so far, and the virgin map without
      their bits. */
  ghost predicate Scanned(cur: Bytes, before: Bytes, virgin: Bytes, at: nat, ret: nat) {
    && at <= |cur| && at <= |before|
    && ret == Verdict(cur[..at], before[..at])
    && virgin == Cleared(cur[..at], before[..at]) + before[at..]
  }

  lemma NothingScanned(cur: Bytes, v: Bytes)
    ensures Scanned(cur, v, v, 0, 0)
  {
    hide AnyHit, AnyFresh, Cleared;
    EmptyWordHitsNothing([], []);
    assert cur[..0] == [] == v[..0] && [] + v[0..] == v;
  }

  /** The word at `at`, skipped if empty. */
  method ScanAt(ret: nat, current: array<bv8>, virgin: array<bv8>, at: nat, to: nat, ghost v: Bytes) returns (ret': nat)
    requires current != virgin && at <= to <= current.Length && to <= virgin.Length == |v|
    requires Scanned(current[..], v, virgin[..], at, ret)
    modifies virgin
    ensures Scanned(current[..], v, virgin[..], to, ret')
  {
    hide AnyHit, AnyFresh, Verdict, Cleared;
    ret' := ret;
    var c := current[at..to];
    ghost var cur, head := current[..], Cleared(current[..][..at], v[..at]);
    ScanStep(cur, v, at, to);
    assert cur[at..to] == c;
    SplitMap(virgin[..], head, v, at, to);
    assert virgin[..at] == head && virgin[at..to] == v[at..to] && virgin[to..] == v[to..];
    if exists i :: 0 <= i < |c| && c[i] != 0 {
      ret' := DiscoverWord(ret, c, virgin, at);
    } else {
      EmptyWordHitsNothing(c, v[at..to]);
    }
  }

  /** The scan over the first `n` bytes, word by word. */
  method HasNewBits(current: array<bv8>, virgin: array<bv8>, n: nat, width: nat) returns (ret: nat)
    requires current != virgin && n <= current.Length && n <= virgin.Length && width > 0 && IsMultiple(n, width)
    modifies virgin
    ensures ret == Verdict(current[..n], old(virgin[..])[..n])
    ensures virgin[..] == Cleared(current[..n], old(virgin[..])[..n]) + old(virgin[..])[n..]
  {
    hide AnyHit, AnyFresh, Verdict, Cleared, IsMultiple;
    ret := ScanWords(current, virgin, n, width);
    assert current[..][..n] == current[..n];
  }

  method ScanWords(current: array<bv8>, virgin: array<bv8>, n: nat, width: nat) returns (ret: nat)
    requires current != virgin && n <= current.Length && n <= virgin.Length && width > 0 && IsMultiple(n, width)
    modifies virgin
    ensures Scanned(current[..], old(virgin[..]), virgin[..], n, ret)
  {
    hide Scanned, IsMultiple;
    ret := 0;
    var at := 0;
    ghost var v := virgin[..];
    NothingScanned(current[..], v);
    while at < n
      invariant 0 <= at <= n && IsMultiple(n - at, width)
      invariant Scanned(current[..], v, virgin[..], at, ret)
    {
      MultipleStep(n - at, width);
      ret := ScanAt(ret, current, virgin, at, at + width, v);
      at := at + width;
    }
  }

  lemma SplitMap(x: Bytes, head: Bytes, v: Bytes, at: nat, to: nat)
    requires at <= to <= |v| && |head| == at && x == head + v[at..]
    ensures x[..at] == head && x[at..to] == v[at..to] && x[to..] == v[to..]
    ensures x == head + v[at..to] + v[to..]
  {
  }

  lemma ScanStep(c: Bytes, v: Bytes, at: nat, to: nat)
    requires at <= to <= |c| && to <= |v|
    ensures Verdict(c[..to], v[..to]) == Max(Verdict(c[..at], v[..at]), Verdict(c[at..to], v[at..to]))
    ensures Cleared(c[..to], v[..to]) == Cleared(c[..at], v[..at]) + Cleared(c[at..to], v[at..to])
  {
    hide Hit, Fresh, Clear, Verdict;
    assert c[..to] == c[..at] + c[at..to] && v[..to] == v[..at] + v[at..to];
    VerdictAppend(c[..at], v[..at], c[at..to], v[at..to]);
  }

  lemma EmptyWordHitsNothing(c: Bytes, v: Bytes)
    requires |c| == |v| && forall i :: 0 <= i < |c| ==> c[i] == 0
    ensures Verdict(c, v) == 0 && !AnyHit(c, v) && Cleared(c, v) == v
  {
    hide Hit, Fresh, Clear;
    forall i | 0 <= i < |c| ensures !Hit(c[i], v[i]) { ByteFacts(c[i], v[i]); }
    AnyFreshHits(c, v);
    NoHitClearsNothing(c, v);
  }

  // ----- Whole fuzzing runs

  ghost predicate SameSize(vir: Bytes, traces: seq<Bytes>) {
    forall k :: 0 <= k < |traces| ==> |traces[k]| == |vir|
  }

  /** The virgin map after scanning the traces in order. */
  ghost function After(vir: Bytes, traces: seq<Bytes>): (r: Bytes)
    requires SameSize(vir, traces)
    ensures |r| == |vir|
  {
    if traces == [] then vir else Cleared(traces[|traces| - 1], After(vir, traces[..|traces| - 1]))
  }

  /** What each scan reports. */
  ghost function Verdicts(vir: Bytes, traces: seq<Bytes>): (r: seq<nat>)
    requires SameSize(vir, traces)
    ensures |r| == |traces|
  {
    if traces == [] then [] else
      var before := traces[..|traces| - 1];
      Verdicts(vir, before) + [Verdict(traces[|traces| - 1], After(vir, before))]
  }

  ghost function OrAt(traces: seq<Bytes>, i: nat): (r: bv8)
    requires forall k :: 0 <= k < |traces| ==> i < |traces[k]|
  {
    if traces == [] then 0 else OrAt(traces[..|traces| - 1], i) | traces[|traces| - 1][i]
  }

  lemma ClearWritten(c: bv8, v: bv8)
    ensures Clear(c, v) == v & !c
  {
  }

  lemma ClearTwice(v: bv8, a: bv8, b: bv8)
    ensures Clear(b, Clear(a, v)) == Clear(a | b, v)
    ensures Clear(0, v) == v
  {
  }

  lemma {:induction false} AfterIsCleared(vir: Bytes, traces: seq<Bytes>, i: nat)
    requires SameSize(vir, traces) && i < |vir|
    ensures After(vir, traces)[i] == Clear(OrAt(traces, i), vir[i])
  {
    hide Clear;
    if traces == [] {
      ClearTwice(vir[i], 0, 0);
    } else {
      var before, last := traces[..|traces| - 1], traces[|traces| - 1];
      AfterIsCleared(vir, before, i);
      ClearTwice(vir[i], OrAt(before, i), last[i]);
    }
  }

  /** The map ends up as the initial one without any bit of any trace. */
  lemma AfterClearsTheUnion(vir: Bytes, traces: seq<Bytes>, i: nat)
    requires SameSize(vir, traces) && i < |vir|
    ensures After(vir, traces)[i] == vir[i] & !OrAt(traces, i)
  {
    hide Clear, After, OrAt;
    AfterIsCleared(vir, traces, i);
    ClearWritten(OrAt(traces, i), vir[i]);
  }

  function Bit(x: bv8, mask: bv8): (r: nat) { if x & mask != 0 then 1 else 0 }

  function BitsOf(x: bv8): (r: nat)
    ensures r <= 8
  {
    Bit(x, 1) + Bit(x, 2) + Bit(x, 4) + Bit(x, 8) + Bit(x, 16) + Bit(x, 32) + Bit(x, 64) + Bit(x, 128)
  }

  function PristineOf(x: bv8): (r: nat) { if x == 0xff then 1 else 0 }

  predicate HitBit(c: bv8, v: bv8, mask: bv8) { c & v & mask != 0 }

  lemma ClearedBit(c: bv8, v: bv8, mask: bv8)
    requires mask in {1, 2, 4, 8, 16, 32, 64, 128}
    ensures Bit(Clear(c, v), mask) <= Bit(v, mask) && (HitBit(c, v, mask) ==> Bit(Clear(c, v), mask) < Bit(v, mask))
  {
  }

  lemma SomeBit(c: bv8, v: bv8)
    requires Hit(c, v)
    ensures HitBit(c, v, 1) || HitBit(c, v, 2) || HitBit(c, v, 4) || HitBit(c, v, 8)
            || HitBit(c, v, 16) || HitBit(c, v, 32) || HitBit(c, v, 64) || HitBit(c, v, 128)
  {
  }

  lemma ClearLosesPristine(c: bv8, v: bv8)
    ensures PristineOf(Clear(c, v)) <= PristineOf(v) && (Fresh(c, v) <==> PristineOf(Clear(c, v)) < PristineOf(v))
  {
  }

  lemma ClearLosesBits(c: bv8, v: bv8)
    ensures BitsOf(Clear(c, v)) <= BitsOf(v) && (Hit(c, v) <==> BitsOf(Clear(c, v)) < BitsOf(v))
  {
    ByteFacts(c, v);
    hide Clear, Hit, HitBit, Bit;
    ClearedBit(c, v, 1);
    ClearedBit(c, v, 2);
    ClearedBit(c, v, 4);
    ClearedBit(c, v, 8);
    ClearedBit(c, v, 16);
    ClearedBit(c, v, 32);
    ClearedBit(c, v, 64);
    ClearedBit(c, v, 128);
    if Hit(c, v) { SomeBit(c, v); }
  }

  ghost function Bits(vir: Bytes): (r: nat)
    ensures r <= 8 * |vir|
  {
    if vir == [] then 0 else BitsOf(vir[0]) + Bits(vir[1..])
  }

  ghost function Pristine(vir: Bytes): (r: nat)
    ensures r <= |vir|
  {
    if vir == [] then 0 else PristineOf(vir[0]) + Pristine(vir[1..])
  }

  lemma {:induction false} ScanLosesBits(cur: Bytes, vir: Bytes)
    requires |cur| == |vir|
    ensures Bits(Cleared(cur, vir)) <= Bits(vir) && (AnyHit(cur, vir) <==> Bits(Cleared(cur, vir)) < Bits(vir))
    ensures Pristine(Cleared(cur, vir)) <= Pristine(vir) && (AnyFresh(cur, vir) <==> Pristine(Cleared(cur, vir)) < Pristine(vir))
  {
    hide Hit, Fresh, Clear, BitsOf, PristineOf;
    if vir != [] {
      ScanLosesBits(cur[1..], vir[1..]);
      ClearLosesBits(cur[0], vir[0]);
      ClearLosesPristine(cur[0], vir[0]);
      assert Cleared(cur, vir)[1..] == Cleared(cur[1..], vir[1..]);
      assert forall i :: 1 <= i < |cur| ==> cur[i] == cur[1..][i - 1] && vir[i] == vir[1..][i - 1];
    }
  }

  /** What the verdicts mean for the virgin map: 2 exactly when a byte never touched before is
      touched, and not 0 exactly when any bit is lost. */
  lemma VerdictTellsLosses(cur: Bytes, vir: Bytes)
    requires |cur| == |vir|
    ensures Verdict(cur, vir) == 2 <==> Pristine(Cleared(cur, vir)) < Pristine(vir)
    ensures Verdict(cur, vir) != 0 <==> Bits(Cleared(cur, vir)) < Bits(vir)
  {
    ScanLosesBits(cur, vir);
    AnyFreshHits(cur, vir);
    hide AnyHit, AnyFresh;
  }

  ghost function CountAtLeast(verdicts: seq<nat>, least: nat): (r: nat) {
    if verdicts == [] then 0 else
      CountAtLeast(verdicts[..|verdicts| - 1], least) + if verdicts[|verdicts| - 1] >= least then 1 else 0
  }

  /** Each report of a new tuple uses up a pristine byte, each report of anything new a bit:
      over any run there are at most as many as the map has to begin with. */
  lemma {:induction false} ReportsAreBounded(vir: Bytes, traces: seq<Bytes>)
    requires SameSize(vir, traces)
    ensures CountAtLeast(Verdicts(vir, traces), 2) + Pristine(After(vir, traces)) <= Pristine(vir) <= |vir|
    ensures CountAtLeast(Verdicts(vir, traces), 1) + Bits(After(vir, traces)) <= Bits(vir) <= 8 * |vir|
  {
    if traces != [] {
      var before, last := traces[..|traces| - 1], traces[|traces| - 1];
      ReportsAreBounded(vir, before);
      ScanLosesBits(last, After(vir, before));
      AnyFreshHits(last, After(vir, before));
      var vs := Verdicts(vir, traces);
      assert vs[..|vs| - 1] == Verdicts(vir, before);
      hide AnyHit, AnyFresh, Bits, Pristine;
    }
  }

  /** A whole run: each trace is put into the trace map and scanned. The virgin map and the
      reports are those of the traces in order, so there are at most as many reports of new
      tuples as the map has bytes, and at most as many reports as it has bits. */
  method ScanAll(traces: seq<Bytes>, current: array<bv8>, virgin: array<bv8>, width: nat) returns (reports: seq<nat>)
    requires current != virgin && current.Length == virgin.Length && width > 0 && IsMultiple(virgin.Length, width)
    requires SameSize(virgin[..], traces)
    modifies current, virgin
    ensures virgin[..] == After(old(virgin[..]), traces) && reports == Verdicts(old(virgin[..]), traces)
    ensures forall i :: 0 <= i < virgin.Length ==> virgin[i] == old(virgin[i]) & !OrAt(traces, i)
    ensures CountAtLeast(reports, 2) <= virgin.Length && CountAtLeast(reports, 1) <= 8 * virgin.Length
  {
    hide Clear, Verdict, Cleared, IsMultiple, CountAtLeast, Bits, Pristine, OrAt;
    ghost var vir := virgin[..];
    reports := [];
    for n := 0 to |traces|
      invariant virgin[..] == After(vir, traces[..n]) && reports == Verdicts(vir, traces[..n])
    {
      var report := ScanTrace(traces[n], current, virgin, width);
      reports := reports + [report];
      assert traces[..n + 1][..n] == traces[..n];
    }
    assert traces[..|traces|] == traces;
    ReportsAreBounded(vir, traces);
    forall i | 0 <= i < virgin.Length
      ensures virgin[i] == vir[i] & !OrAt(traces, i)
    {
      AfterClearsTheUnion(vir, traces, i);
      assert virgin[i] == virgin[..][i];
    }
  }

  method ScanTrace(trace: Bytes, current: array<bv8>, virgin: array<bv8>, width: nat) returns (report: nat)
    requires current != virgin && |trace| == current.Length == virgin.Length && width > 0 && IsMultiple(virgin.Length, width)
    modifies current, virgin
    ensures report == Verdict(trace, old(virgin[..])) && virgin[..] == Cleared(trace, old(virgin[..]))
  {
    hide Verdict, Cleared, IsMultiple;
    ghost var v := virgin[..];
    Memcpy(current, 0, trace);
    report := HasNewBits(current, virgin, current.Length, width);
    assert current[..current.Length] == trace && v[..current.Length] == v && v[current.Length..] == [];
  }

  // ----- Classifying hit counts

  /** The lookup table for pairs of bytes. Nothing is assumed about its contents. */
  type Classes = (bv8, bv8) -> (bv8, bv8)

  predicate IsZero(x: Bytes) {
    forall i :: 0 <= i < |x| ==> x[i] == 0
  }

  function ClassifyWord(classes: Classes, x: Bytes): (r: Bytes)
    ensures |r| == |x|
    decreases |x|
  {
    if |x| < 2 then x else
      var (a, b) := classes(x[0], x[1]);
      [a, b] + ClassifyWord(classes, x[2..])
  }

  /** A map with every nonempty word classified. */
  function Classified(classes: Classes, x: Bytes, width: nat): (r: Bytes)
    requires width > 0
    ensures |r| == |x|
    decreases |x|
  {
    if |x| < width then x else
      ClassifiedWord(classes, x[..width]) + Classified(classes, x[width..], width)
  }

  function ClassifiedWord(classes: Classes, word: Bytes): (r: Bytes)
    ensures |r| == |word|
  {
    if IsZero(word) then word else ClassifyWord(classes, word)
  }

  /** A word is looked up pair by pair. */
  lemma {:induction false} ClassifyWordByPairs(classes: Classes, x: Bytes, i: nat)
    requires i % 2 == 0 && i + 1 < |x|
    ensures (ClassifyWord(classes, x)[i], ClassifyWord(classes, x)[i + 1]) == classes(x[i], x[i + 1])
  {
    if i >= 2 { ClassifyWordByPairs(classes, x[2..], i - 2); }
  }

  /** So is a map, if the table leaves the pair of zeros alone: skipping the words that are zero
      makes no difference. */
  lemma {:induction false} ClassifiedByPairs(classes: Classes, x: Bytes, width: nat, i: nat)
    requires classes(0, 0) == (0, 0) && width > 0 && width % 2 == 0 && IsMultiple(|x|, width)
    requires i % 2 == 0 && i + 1 < |x|
    ensures (Classified(classes, x, width)[i], Classified(classes, x, width)[i + 1]) == classes(x[i], x[i + 1])
    decreases |x|
  {
    MultipleStep(|x|, width);
    var word := x[..width];
    hide ClassifyWord;
    if i >= width {
      ClassifiedByPairs(classes, x[width..], width, i - width);
    } else if !IsZero(word) {
      ClassifyWordByPairs(classes, word, i);
    } else {
      assert word[i] == 0 && word[i + 1] == 0;
    }
  }

  lemma {:induction false} EvenMultiple(n: nat, width: nat)
    requires width > 0 && width % 2 == 0 && IsMultiple(n, width)
    ensures n % 2 == 0
  {
    if n > 0 { EvenMultiple(n - width, width); }
  }

  /** The 32-bit and the 64-bit form classify alike. */
  lemma WidthsClassifyAlike(classes: Classes, x: Bytes, width: nat, width': nat)
    requires classes(0, 0) == (0, 0) && width > 0 && width % 2 == 0 && width' > 0 && width' % 2 == 0
    requires IsMultiple(|x|, width) && IsMultiple(|x|, width')
    ensures Classified(classes, x, width) == Classified(classes, x, width')
  {
    hide Classified;
    EvenMultiple(|x|, width);
    var a, b := Classified(classes, x, width), Classified(classes, x, width');
    forall i | 0 <= i < |x|
      ensures a[i] == b[i]
    {
      var k := i - i % 2;
      ClassifiedByPairs(classes, x, width, k);
      ClassifiedByPairs(classes, x, width', k);
    }
  }

  lemma ClassifiedStep(classes: Classes, x: Bytes, at: nat, width: nat)
    requires width > 0 && at + width <= |x|
    ensures Classified(classes, x[at..], width) == ClassifiedWord(classes, x[at..at + width]) + Classified(classes, x[at + width..], width)
  {
    hide IsZero, ClassifyWord;
    assert x[at..][..width] == x[at..at + width] && x[at..][width..] == x[at + width..];
  }

  method ClassifyAt(classes: Classes, current: array<bv8>, at: nat, width: nat, ghost done: Bytes, ghost x: Bytes)
    requires at + width <= current.Length == |x| && |done| == at && current[..] == done + x[at..]
    modifies current
    ensures current[..] == (done + ClassifiedWord(classes, x[at..at + width])) + x[at + width..]
  {
    hide IsZero, ClassifyWord;
    SplitMap(current[..], done, x, at, at + width);
    var word := current[at..at + width];
    assert word == x[at..at + width] && current[..at] == done && current[at + width..] == x[at + width..];
    if !IsZero(word) { Memcpy(current, at, ClassifyWord(classes, word)); }
  }

  lemma ClassifiedSoFar(classes: Classes, x: Bytes, at: nat, width: nat, done: Bytes)
    requires width > 0 && at + width <= |x|
    requires done + Classified(classes, x[at..], width) == Classified(classes, x, width)
    ensures (done + ClassifiedWord(classes, x[at..at + width])) + Classified(classes, x[at + width..], width) == Classified(classes, x, width)
  {
    ClassifiedStep(classes, x, at, width);
    hide Classified, ClassifiedWord;
    var k, rest := ClassifiedWord(classes, x[at..at + width]), Classified(classes, x[at + width..], width);
    assert done + (k + rest) == (done + k) + rest;
  }

  lemma ClassifiedEnd(classes: Classes, x: Bytes, width: nat)
    requires width > 0
    ensures Classified(classes, x[|x|..], width) == [] && x[0..] == x
  {
  }

  method ClassifyCounts(classes: Classes, current: array<bv8>, width: nat)
    requires width > 0 && IsMultiple(current.Length, width)
    modifies current
    ensures current[..] == Classified(classes, old(current[..]), width)
  {
    hide Classified, ClassifiedWord, IsMultiple;
    var at := 0;
    ghost var x, done := current[..], [];
    ClassifiedEnd(classes, x, width);
    assert [] + x == x && [] + Classified(classes, x, width) == Classified(classes, x, width);
    while at < current.Length
      invariant 0 <= at <= current.Length && IsMultiple(current.Length - at, width)
      invariant |done| == at && current[..] == done + x[at..]
      invariant done + Classified(classes, x[at..], width) == Classified(classes, x, width)
    {
      MultipleStep(current.Length - at, width);
      ClassifyAt(classes, current, at, width, done, x);
      ClassifiedSoFar(classes, x, at, width, done);
      done := done + ClassifiedWord(classes, x[at..at + width]);
      at := at + width;
    }
    assert x[at..] == [] && done + [] == done;
  }

  // ----- Skimming

  /** A nonempty word whose classified form hits the virgin map. */
  predicate WordHit(classes: Classes, c: Bytes, v: Bytes)
    requires |c| == |v|
  {
    !IsZero(c) && var k := ClassifyWord(classes, c); exists i :: 0 <= i < |c| && Hit(k[i], v[i])
  }

  ghost predicate SkimHit(classes: Classes, c: Bytes, v: Bytes, width: nat)
    requires |c| == |v| && width > 0
    decreases |c|
  {
    |c| >= width && (WordHit(classes, c[..width], v[..width]) || SkimHit(classes, c[width..], v[width..], width))
  }

  /** Word by word without changing anything: the same answer as classifying the whole map. */
  lemma {:induction false} SkimSeesClassifiedHits(classes: Classes, c: Bytes, v: Bytes, width: nat)
    requires |c| == |v| && width > 0 && IsMultiple(|c|, width)
    ensures SkimHit(classes, c, v, width) <==> AnyHit(Classified(classes, c, width), v)
    decreases |c|
  {
    hide Hit, ClassifyWord;
    if |c| >= width {
      SkimSeesClassifiedHits(classes, c[width..], v[width..], width);
      var head := ClassifiedWord(classes, c[..width]);
      assert v == v[..width] + v[width..];
      VerdictAppend(head, v[..width], Classified(classes, c[width..], width), v[width..]);
      if IsZero(c[..width]) { EmptyWordHitsNothing(head, v[..width]); }
    }
  }

  lemma {:induction false} MultipleOfWords(n: nat, width: nat, pack: nat)
    requires width > 0 && pack > 0 && IsMultiple(n, width * pack)
    ensures IsMultiple(n, width)
  {
    if n > 0 {
      MultipleOfWords(n - width * pack, width, pack);
      AddWords(n - width * pack, width, pack);
    }
  }

  lemma {:induction false} AddWords(n: nat, width: nat, pack: nat)
    requires width > 0 && IsMultiple(n, width)
    ensures IsMultiple(n + width * pack, width)
    decreases pack
  {
    if pack > 0 {
      AddWords(n, width, pack - 1);
      assert width * pack == width * (pack - 1) + width;
    }
  }

  lemma SkimStep(classes: Classes, c: Bytes, v: Bytes, at: nat, width: nat)
    requires |c| == |v| && width > 0 && at + width <= |c|
    ensures SkimHit(classes, c[at..], v[at..], width)
            <==> WordHit(classes, c[at..at + width], v[at..at + width]) || SkimHit(classes, c[at + width..], v[at + width..], width)
  {
    hide WordHit;
    assert c[at..][..width] == c[at..at + width] && c[at..][width..] == c[at + width..];
    assert v[at..][..width] == v[at..at + width] && v[at..][width..] == v[at + width..];
  }

  lemma WordsFit(width: nat, x: nat, pack: nat)
    requires x < pack
    ensures width * x + width == width * (x + 1) <= width * pack
  {
    assert width * pack == width * (x + 1) + width * (pack - x - 1);
  }

  /** The words of one pack, one after the other. */
  method SkimPack(classes: Classes, v: Bytes, c: Bytes, at: nat, width: nat, pack: nat) returns (found: bool)
    requires |c| == |v| && width > 0 && at + width * pack <= |c|
    ensures found ==> SkimHit(classes, c[at..], v[at..], width)
    ensures !found ==> SkimHit(classes, c[at..], v[at..], width) == SkimHit(classes, c[at + width * pack..], v[at + width * pack..], width)
  {
    hide WordHit, SkimHit;
    for x := 0 to pack
      invariant at + width * x <= |c|
      invariant SkimHit(classes, c[at..], v[at..], width) == SkimHit(classes, c[at + width * x..], v[at + width * x..], width)
    {
      WordsFit(width, x, pack);
      var from := at + width * x;
      SkimStep(classes, c, v, from, width);
      if WordHit(classes, c[from..from + width], v[from..from + width]) { return true; }
    }
    return false;
  }

  /** The vector form: one comparison marks the empty words of the pack, an empty pack is
      skipped, and only unmarked words are classified. */
  method SkimPackVector(classes: Classes, v: Bytes, c: Bytes, at: nat, width: nat, pack: nat) returns (found: bool)
    requires |c| == |v| && width > 0 && at + width * pack <= |c|
    ensures found ==> SkimHit(classes, c[at..], v[at..], width)
    ensures !found ==> SkimHit(classes, c[at..], v[at..], width) == SkimHit(classes, c[at + width * pack..], v[at + width * pack..], width)
  {
    hide WordHit, SkimHit, IsZero, Hit;
    var empty := [];
    for x := 0 to pack
      invariant |empty| == x && at + width * x <= |c|
      invariant forall y :: 0 <= y < x ==> at + width * y + width <= |c| && empty[y] == IsZero(c[at + width * y..at + width * y + width])
    {
      WordsFit(width, x, pack);
      empty := empty + [IsZero(c[at + width * x..at + width * x + width])];
    }
    var skip := forall y :: 0 <= y < pack ==> empty[y];
    for x := 0 to pack
      invariant at + width * x <= |c|
      invariant SkimHit(classes, c[at..], v[at..], width) == SkimHit(classes, c[at + width * x..], v[at + width * x..], width)
    {
      WordsFit(width, x, pack);
      var from := at + width * x;
      var word, vir := c[from..from + width], v[from..from + width];
      SkimStep(classes, c, v, from, width);
      WordHitWritten(classes, word, vir);
      if !skip && !empty[x] {
        var k := ClassifyWord(classes, word);
        if exists i :: 0 <= i < width && Hit(k[i], vir[i]) { return true; }
      }
    }
    return false;
  }

  lemma WordHitWritten(classes: Classes, c: Bytes, v: Bytes)
    requires |c| == |v|
    ensures WordHit(classes, c, v) <==> !IsZero(c) && var k := ClassifyWord(classes, c); exists i :: 0 <= i < |c| && Hit(k[i], v[i])
  {
  }

  /** The read-only scan, a pack of words at a time, in its scalar or its vector form. */
  method Skim(classes: Classes, virgin: array<bv8>, current: array<bv8>, width: nat, pack: nat, vector: bool) returns (found: bool)
    requires virgin.Length == current.Length && width > 0 && pack > 0 && IsMultiple(current.Length, width * pack)
    ensures found <==> AnyHit(Classified(classes, current[..], width), virgin[..])
  {
    hide AnyHit, Classified, SkimHit;
    MultipleOfWords(current.Length, width, pack);
    SkimSeesClassifiedHits(classes, current[..], virgin[..], width);
    found := SkimPacks(classes, virgin[..], current[..], width, pack, width * pack, vector);
  }

  method SkimPacks(classes: Classes, v: Bytes, c: Bytes, width: nat, pack: nat, size: nat, vector: bool) returns (found: bool)
    requires |c| == |v| && width > 0 && pack > 0 && size == width * pack && IsMultiple(|c|, size)
    ensures found <==> SkimHit(classes, c, v, width)
  {
    hide SkimHit, IsMultiple;
    var at := 0;
    SkimEnd(classes, c, v, width);
    while at < |c|
      invariant 0 <= at <= |c| && IsMultiple(|c| - at, size)
      invariant SkimHit(classes, c, v, width) == SkimHit(classes, c[at..], v[at..], width)
    {
      MultipleStep(|c| - at, size);
      if vector {
        found := SkimPackVector(classes, v, c, at, width, pack);
      } else {
        found := SkimPack(classes, v, c, at, width, pack);
      }
      if found { return; }
      at := at + size;
    }
    return false;
  }

  lemma SkimEnd(classes: Classes, c: Bytes, v: Bytes, width: nat)
    requires |c| == |v| && width > 0
    ensures !SkimHit(classes, c[|c|..], v[|v|..], width) && c[0..] == c && v[0..] == v
  {
  }

  /** The fast form of classify-then-scan. Only `scanned` of the bytes are looked at by the
      scan itself, while skimming and classifying cover the whole map. The answer is that of
      the slow form. The trace is left as it is unless some classified word hits the virgin
      map, in the scanned part (then the answer is not 0) or only behind it. */
  method HasNewBitsUnclassified(classes: Classes, current: array<bv8>, virgin: array<bv8>, width: nat, pack: nat, vector: bool, scanned: nat)
    returns (ret: nat)
    requires current != virgin && virgin.Length == current.Length && width > 0 && pack > 0
    requires IsMultiple(current.Length, width * pack) && scanned <= current.Length && IsMultiple(scanned, width)
    modifies current, virgin
    ensures var k, v := Classified(classes, old(current[..]), width), old(virgin[..]);
            && ret == Verdict(k[..scanned], v[..scanned])
            && virgin[..] == Cleared(k[..scanned], v[..scanned]) + v[scanned..]
            && current[..] == (if ret != 0 || AnyHit(k[scanned..], v[scanned..]) then k else old(current[..]))
  {
    hide AnyHit, AnyFresh, Cleared, Classified;
    ghost var k, v := Classified(classes, current[..], width), virgin[..];
    HitsByPart(k, v, scanned);
    MultipleOfWords(current.Length, width, pack);
    var found := Skim(classes, virgin, current, width, pack, vector);
    if !found { return 0; }
    ClassifyCounts(classes, current, width);
    assert current[..scanned] == current[..][..scanned];
    ret := HasNewBits(current, virgin, scanned, width);
  }

  lemma HitsByPart(k: Bytes, v: Bytes, n: nat)
    requires |k| == |v| && n <= |k|
    ensures AnyHit(k, v) <==> Verdict(k[..n], v[..n]) != 0 || AnyHit(k[n..], v[n..])
    ensures !AnyHit(k, v) ==> Cleared(k[..n], v[..n]) + v[n..] == v
  {
    hide Hit, Fresh, Clear;
    assert k == k[..n] + k[n..] && v == v[..n] + v[n..];
    VerdictAppend(k[..n], v[..n], k[n..], v[n..]);
    AnyFreshHits(k[..n], v[..n]);
    if !AnyHit(k, v) { NoHitClearsNothing(k[..n], v[..n]); }
  }

  function Zeros(n: nat): (r: Bytes)
    ensures |r| == n && IsZero(r)
  {
    seq(n, _ => 0)
  }

  lemma ZeroWordStaysZero(classes: Classes, width: nat)
    ensures ClassifiedWord(classes, Zeros(width)) == Zeros(width)
  {
  }

  lemma ZerosSplit(n: nat, width: nat, word: Bytes)
    requires width <= n
    ensures (Zeros(n) + word)[..width] == Zeros(width) && (Zeros(n) + word)[width..] == Zeros(n - width) + word
    ensures forall x: Bytes {:trigger Zeros(width) + (Zeros(n - width) + x)} :: Zeros(width) + (Zeros(n - width) + x) == Zeros(n) + x
  {
    assert Zeros(n) == Zeros(width) + Zeros(n - width);
  }

  lemma {:induction false} ZerosStayZero(classes: Classes, n: nat, width: nat, word: Bytes)
    requires width > 0 && IsMultiple(n, width) && |word| == width
    ensures Classified(classes, Zeros(n) + word, width) == Zeros(n) + ClassifiedWord(classes, word)
    decreases n
  {
    hide Zeros, ClassifiedWord;
    var x := Zeros(n) + word;
    if n == 0 {
      assert x == word && x[..width] == word && x[width..] == [];
      assert Classified(classes, [], width) == [];
    } else {
      ZerosSplit(n, width, word);
      ZeroWordStaysZero(classes, width);
      ZerosStayZero(classes, n - width, width, word);
    }
  }

  lemma {:induction false} ClassifyZeros(classes: Classes, n: nat)
    requires classes(0, 0) == (0, 0)
    ensures ClassifyWord(classes, Zeros(n)) == Zeros(n)
  {
    if n >= 2 {
      assert Zeros(n)[2..] == Zeros(n - 2);
      ClassifyZeros(classes, n - 2);
    }
  }

  /** The answer 0 alone does not mean that the trace was left as it is. A map of 64 bytes, of
      which 56 are in use, with three hits in the first byte behind them: every variant of the
      scan takes it, the answer is 0, and the trace has changed. */
  lemma TailHitChangesTrace(classes: Classes)
    requires classes(0, 0) == (0, 0) && classes(3, 0) == (4, 0)
    ensures IsMultiple(64, 8 * 4) && IsMultiple(64, 8 * 8) && IsMultiple(56, 8)
    ensures var c, v: Bytes := Zeros(56) + ([3, 0] + Zeros(6)), seq(64, _ => 0xff);
            var k := Classified(classes, c, 8);
            |c| == 64 && Verdict(k[..56], v[..56]) == 0 && AnyHit(k[56..], v[56..]) && k != c
  {
    var tail: Bytes := [3, 0] + Zeros(6);
    var c, v: Bytes := Zeros(56) + tail, seq(64, _ => 0xff);
    assert tail[0] != 0 && !IsZero(tail);
    ZerosStayZero(classes, 56, 8, tail);
    assert tail[2..] == Zeros(6);
    ClassifyZeros(classes, 6);
    assert ClassifiedWord(classes, tail) == [4, 0] + Zeros(6);
    var k := Classified(classes, c, 8);
    hide Classified, ClassifyWord, ClassifiedWord;
    assert k[..56] == Zeros(56);
    EmptyWordHitsNothing(k[..56], v[..56]);
    assert k[56] == 4 && c[56] == 3;
    assert Hit(k[56..][0], v[56..][0]);
  }
}
