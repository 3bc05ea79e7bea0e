/** The intrusive circular list with its pool of preallocated elements. */
module ElementList {
  const PREALLOC_SIZE := 64

  /** What list entries point to; 0 is the null pointer. */
  type Pointer = nat

  datatype Status = Unused | Used | Malloc

  class Element {
    var status: Status
    var prev: Element?
    var next: Element?
    var data: Pointer

    constructor ()
      ensures status == Unused && prev == null && next == null && data == 0
    {
      status, prev, next, data := Unused, null, null, 0;
    }
  }

  /** Going forward from an element leads to the next one around the ring. */
  ghost predicate Forward(ring: seq<Element>)
    reads ring`next
  {
    forall i {:trigger ring[i].next} :: 0 <= i < |ring| ==> ring[i].next == ring[if i + 1 == |ring| then 0 else i + 1]
  }

  /** Going backward from an element leads to the one before it around the ring. */
  ghost predicate Backward(ring: seq<Element>)
    reads ring`prev
  {
    forall i {:trigger ring[i].prev} :: 0 <= i < |ring| ==> ring[i].prev == ring[if i == 0 then |ring| - 1 else i - 1]
  }

  ghost predicate Distinct(s: seq<Element>) {
    forall i, j :: 0 <= i < j < |s| ==> s[i] != s[j]
  }

  lemma DistinctAt(s: seq<Element>, i: nat)
    requires i < |s| && Distinct(s)
    ensures forall j :: 0 <= j < |s| && s[j] == s[i] ==> j == i
  {
  }

  /** Fewer used slots than slots: one is not used. */
  lemma {:induction false} FreeSlotExists(used: set<nat>, n: nat)
    requires |used| < n && forall i :: i in used ==> i < n
    ensures exists i :: 0 <= i < n && i !in used
  {
    if n - 1 in used {
      FreeSlotExists(used - {n - 1}, n - 1);
    }
  }

  ghost function RemoveFirst(s: seq<Pointer>, x: Pointer): (r: seq<Pointer>)
    requires x in s
  {
    if s[0] == x then s[1..] else [s[0]] + RemoveFirst(s[1..], x)
  }

  lemma {:induction false} RemoveFirstAt(s: seq<Pointer>, x: Pointer, k: nat)
    requires k < |s| && s[k] == x && x !in s[..k]
    ensures RemoveFirst(s, x) == s[..k] + s[k + 1..]
  {
    if k > 0 {
      assert s[0] in s[..k];
      assert s[1..][..k - 1] == s[..k][1..];
      RemoveFirstAt(s[1..], x, k - 1);
    }
  }

  /** Puts an element at the end of the ring, that is, in front of its head. */
  method LinkLast(head: Element, e: Element, ghost ring: seq<Element>)
    requires ring != [] && ring[0] == head && Distinct(ring) && Forward(ring) && Backward(ring) && e !in ring
    modifies ring`next, ring`prev, e`next, e`prev
    ensures Distinct(ring + [e]) && Forward(ring + [e]) && Backward(ring + [e])
  {
    ghost var n := |ring|;
    assert ring[0].prev == ring[n - 1];
    e.next := head;
    e.prev := head.prev;
    head.prev.next := e;
    head.prev := e;
    ghost var r := ring + [e];
    forall i | 0 <= i < |r|
      ensures r[i].next == r[if i + 1 == |r| then 0 else i + 1]
    {
      assert i < n ==> old(ring[i].next) == ring[if i + 1 == n then 0 else i + 1];
    }
    forall i | 0 <= i < |r|
      ensures r[i].prev == r[if i == 0 then |r| - 1 else i - 1]
    {
      assert i < n ==> old(ring[i].prev) == ring[if i == 0 then n - 1 else i - 1];
    }
  }

  ghost function Without(ring: seq<Element>, k: nat): (r: seq<Element>)
    requires k < |ring|
  {
    ring[..k] + ring[k + 1..]
  }

  lemma WithoutElements(ring: seq<Element>, k: nat)
    requires 0 < k < |ring| && Distinct(ring)
    ensures forall x :: x in Without(ring, k) <==> x in ring && x != ring[k]
  {
    var r := Without(ring, k);
    forall x | x in ring && x != ring[k]
      ensures x in r
    {
      var i :| 0 <= i < |ring| && ring[i] == x;
      assert r[if i < k then i else i - 1] == x;
    }
  }

  lemma ForwardAround(ring: seq<Element>, k: nat)
    requires 0 < k < |ring| && ring[k - 1].next == ring[if k + 1 == |ring| then 0 else k + 1]
    requires forall i {:trigger ring[i].next} :: 0 <= i < |ring| && i != k - 1 ==> ring[i].next == ring[if i + 1 == |ring| then 0 else i + 1]
    ensures Forward(Without(ring, k))
  {
  }

  lemma BackwardAround(ring: seq<Element>, k: nat)
    requires 0 < k < |ring| && ring[if k + 1 == |ring| then 0 else k + 1].prev == ring[k - 1]
    requires forall i {:trigger ring[i].prev} :: 0 <= i < |ring| && i != (if k + 1 == |ring| then 0 else k + 1) ==> ring[i].prev == ring[if i == 0 then |ring| - 1 else i - 1]
    ensures Backward(Without(ring, k))
  {
  }

  /** Takes an element other than the head out of the ring. */
  method Unlink(e: Element, ghost ring: seq<Element>, ghost k: nat)
    requires 0 < k < |ring| && ring[k] == e && Distinct(ring) && Forward(ring) && Backward(ring)
    modifies ring`next, ring`prev
    ensures Forward(Without(ring, k)) && Backward(Without(ring, k)) && e.next == old(e.next)
  {
    assert ring[k].prev == ring[k - 1] && ring[k].next == ring[if k + 1 == |ring| then 0 else k + 1];
    e.prev.next := e.next;
    e.next.prev := e.prev;
    hide Without;
    ForwardAround(ring, k);
    BackwardAround(ring, k);
  }

  /** The slots in `used` are exactly those marked as used, and exactly those whose elements
      are in the ring; the other elements of the ring were allocated separately. */
  ghost predicate PoolServes(pool: seq<Element>, used: set<nat>, ring: seq<Element>)
    reads pool`status, ring`status
  {
    && (forall i :: i in used ==> i < |pool|)
    && (forall i :: 0 <= i < |pool| ==> pool[i].status == if i in used then Used else Unused)
    && (forall i :: 0 <= i < |pool| ==> (pool[i] in ring <==> i in used))
    && (forall e :: e in ring ==> e in pool || e.status == Malloc)
  }

  /** The elements after the head hold the entries, in order. */
  ghost predicate Holds(ring: seq<Element>, entries: seq<Pointer>)
    reads ring`data
  {
    && |entries| == (if ring == [] then 0 else |ring| - 1)
    && forall i {:trigger entries[i]} :: 0 <= i < |entries| ==> entries[i] == ring[i + 1].data
  }

  lemma HoldsAppend(ring: seq<Element>, e: Element, entries: seq<Pointer>)
    requires ring != [] && Holds(ring, entries)
    ensures Holds(ring + [e], entries + [e.data])
  {
  }

  lemma HoldsWithout(ring: seq<Element>, entries: seq<Pointer>, k: nat)
    requires 0 < k < |ring| && Distinct(ring) && Holds(ring, entries)
    ensures |entries| == |ring| - 1 && Holds(Without(ring, k), entries[..k - 1] + entries[k..])
    ensures ring[k] !in Without(ring, k) && Distinct(Without(ring, k))
    ensures Without(ring, k) != [] && Without(ring, k)[0] == ring[0]
  {
  }

  class List {
    const pool: seq<Element>
    var count: int
    ghost var ring: seq<Element>
    ghost var used: set<nat>
    ghost var entries: seq<Pointer>

    /** Before the first append only the head's link is null; the other memory may hold anything. */
    ghost predicate Unset()
      reads this, pool
    {
      ring == [] && entries == [] && pool != [] && pool[0].next == null
    }

    ghost predicate Ready()
      reads this, pool, ring
    {
      && ring != [] && pool != [] && ring[0] == pool[0] && Distinct(ring) && Forward(ring) && Backward(ring)
      && count == |used| && PoolServes(pool, used, ring) && Holds(ring, entries)
    }

    ghost predicate Valid()
      reads this, pool, ring
    {
      |pool| == PREALLOC_SIZE && Distinct(pool) && (Unset() || Ready())
    }

    constructor ()
      ensures Valid() && !Ready() && ring == [] && entries == [] && fresh(pool)
    {
      var slots: seq<Element> := [];
      for i := 0 to PREALLOC_SIZE
        invariant |slots| == i && Distinct(slots) && fresh(slots)
        invariant forall k :: 0 <= k < i ==> slots[k].status == Unused && slots[k].next == null
      {
        var e := new Element();
        slots := slots + [e];
      }
      pool, count, ring, used, entries := slots, 0, [], {}, [];
    }

    /** The first slot that is not in use; the counter promises that there is one. */
    method FindUnused() returns (i: nat)
      requires PoolServes(pool, used, ring) && |used| < |pool|
      ensures i < |pool| && i !in used && pool[i].status == Unused
    {
      FreeSlotExists(used, |pool|);
      i := 0;
      while pool[i].status != Unused
        invariant i < |pool| && forall k :: 0 <= k < i ==> pool[k].status != Unused
        decreases |pool| - i
      {
        i := i + 1;
      }
    }

    /** A slot of the pool that is not in use, or a new element once all are in use. */
    method PreAlloc() returns (e: Element)
      requires |pool| == PREALLOC_SIZE && Distinct(pool) && count == |used| && PoolServes(pool, used, ring)
      modifies this`count, this`used, pool`status
      ensures e !in ring && (if old(count) < PREALLOC_SIZE then e in pool && count == old(count) + 1 else fresh(e) && count == old(count))
      ensures count == |used| && PoolServes(pool, used, ring + [e])
    {
      hide Distinct;
      if count >= PREALLOC_SIZE {
        e := new Element();
        e.status := Malloc;
      } else {
        var i := FindUnused();
        DistinctAt(pool, i);
        e := pool[i];
        count := count + 1;
        e.status := Used;
        used := used + {i};
      }
      ghost var more := ring + [e];
      assert forall x :: x in more <==> x in ring || x == e;
    }

    /** Gives an element back: to the pool if it is one of its slots. */
    method PreFree(e: Element, ghost k: nat)
      requires Distinct(pool) && count == |used| && PoolServes(pool, used, ring) && Distinct(ring)
      requires 0 < k < |ring| && ring[k] == e
      modifies this`count, this`used, e`status
      ensures count == |used| && PoolServes(pool, used, Without(ring, k))
      ensures e.status == Unused && count == old(count) - (if old(e.status) == Used then 1 else 0)
    {
      WithoutElements(ring, k);
      hide Without, Distinct;
      assert e in ring;
      match e.status
      case Used =>
        ghost var i :| 0 <= i < |pool| && pool[i] == e;
        DistinctAt(pool, i);
        e.status := Unused;
        count := count - 1;
        used := used - {i};
        assert count >= 0;
      case Malloc =>
        e.status := Unused;
      case Unused =>
        assert false;
    }

    method ClearMemory()
      modifies this`count, pool
      ensures count == 0 && forall i :: 0 <= i < |pool| ==> pool[i].status == Unused
    {
      for i := 0 to |pool|
        invariant forall k :: 0 <= k < i ==> pool[k].status == Unused
      {
        var e := pool[i];
        e.status, e.prev, e.next, e.data := Unused, null, null, 0;
      }
      count := 0;
    }

    /** The memory is cleared and the head takes the first slot. */
    method Initialise()
      requires Valid() && Unset()
      modifies this, pool
      ensures Valid() && Ready() && ring == [pool[0]] && entries == []
    {
      ClearMemory();
      var head := pool[0];
      assert head.status == Unused;
      head.status := Used;
      count := count + 1;
      head.next, head.prev := head, head;
      ring, used := [head], {0};
    }

    /** Takes an element and links it in as the last one. */
    method AppendBox(x: Pointer)
      requires Valid() && Ready()
      modifies this, pool, ring
      ensures Valid() && Ready() && forall i :: 0 <= i < |ring| ==> ring[i] in old(ring) || ring[i] in pool || fresh(ring[i])
      ensures entries == old(entries) + [x]
    {
      hide Forward, Backward, Distinct, PoolServes, Holds;
      var box := PreAlloc();
      box.data := x;
      LinkLast(pool[0], box, ring);
      HoldsAppend(ring, box, entries);
      ring := ring + [box];
      entries := entries + [x];
    }

    /** The head's link tells an unset list from one that is set up. */
    lemma HeadTellsUnset()
      requires Valid()
      ensures pool[0].next == null <==> Unset()
    {
      if Ready() {
        assert ring[0].next != null;
      }
    }

    /** Appends an entry; the first append sets up the ring around the head. */
    method Append(x: Pointer)
      requires Valid()
      modifies this, pool, ring
      ensures Valid() && Ready() && forall i :: 0 <= i < |ring| ==> ring[i] in old(ring) || ring[i] in pool || fresh(ring[i])
      ensures entries == old(entries) + [x]
    {
      HeadTellsUnset();
      if pool[0].next == null {
        Initialise();
      }
      AppendBox(x);
    }

    /** Unlinks one element and gives it back; the other entries keep their order. */
    method RemoveElement(e: Element, wipe: bool, ghost k: nat)
      requires Valid() && Ready() && 0 < k < |ring| && ring[k] == e
      modifies this, ring
      ensures Valid() && Ready() && ring == Without(old(ring), k) && e.next == old(e.next)
      ensures entries == old(entries[..k - 1] + entries[k..])
    {
      hide Forward, Backward, Distinct, PoolServes, Holds, Without;
      ghost var rest := Without(ring, k);
      HoldsWithout(ring, entries, k);
      ghost var left := entries[..k - 1] + entries[k..];
      assert Holds(rest, left);
      Unlink(e, ring, k);
      e.data := if wipe then 0 else e.data;
      PreFree(e, k);
      assert Holds(rest, left);
      ring, entries := rest, left;
    }

    /** Removes the first entry equal to `x`; without one, or on an unset list, ends in
        a FATAL error. */
    method Remove(x: Pointer) returns (aborted: bool)
      requires Valid()
      modifies this, ring
      ensures Valid() && aborted == (x !in old(entries)) && (!aborted ==> Ready())
      ensures forall i :: 0 <= i < |ring| ==> ring[i] in old(ring)
      ensures aborted ==> entries == old(entries) && ring == old(ring)
      ensures !aborted ==> entries == RemoveFirst(old(entries), x)
    {
      HeadTellsUnset();
      var head := pool[0];
      var box := head.next;
      if box == null {
        return true;
      }
      hide PoolServes, Distinct, Backward;
      ghost var k := 1;
      while box != head
        invariant Valid() && Ready() && ring == old(ring) && entries == old(entries)
        invariant 1 <= k <= |ring| && box == ring[if k == |ring| then 0 else k] && x !in entries[..k - 1]
        decreases |ring| - k
      {
        if box.data == x {
          RemoveFirstAt(entries, x, k - 1);
          RemoveElement(box, true, k);
          return false;
        }
        box := box.next;
        k := k + 1;
      }
      return true;
    }

    /** Whether `x` is an entry; an unset list is a FATAL error. */
    method Contains(x: Pointer) returns (aborted: bool, found: bool)
      requires Valid()
      ensures aborted == Unset()
      ensures found == (x in entries)
    {
      HeadTellsUnset();
      var head := pool[0];
      var box := head.next;
      if box == null {
        return true, false;
      }
      ghost var k := 1;
      while box != head
        invariant 1 <= k <= |ring| && box == ring[if k == |ring| then 0 else k] && x !in entries[..k - 1]
        decreases |ring| - k
      {
        if box.data == x {
          assert entries[k - 1] == x;
          return false, true;
        }
        box := box.next;
        k := k + 1;
      }
      return false, false;
    }

    /** The element that a walk around the ring starts at: the head itself when there are no entries. */
    ghost function First(): (r: Element)
      requires ring != []
      reads this
    {
      ring[if |ring| == 1 then 0 else 1]
    }

    /** One round of a clearing walk: reads the first entry and removes its element. */
    method VisitFirst(box: Element) returns (x: Pointer, next: Element?)
      requires Valid() && Ready() && box == First() && box != pool[0]
      modifies this, ring
      ensures Valid() && Ready() && next == First() && |ring| < old(|ring|) && forall i :: 0 <= i < |ring| ==> ring[i] in old(ring)
      ensures [x] + entries == old(entries)
    {
      assert ring[1] == box && ring[1].next == ring[if |ring| == 2 then 0 else 2];
      x := box.data;
      next := box.next;
      RemoveElement(box, false, 1);
    }

    /** Visits the entries in order and removes each one. */
    method ForeachClear() returns (aborted: bool, visited: seq<Pointer>)
      requires Valid()
      modifies this, ring
      ensures Valid() && aborted == old(Unset()) && (!aborted ==> Ready()) && (forall i :: 0 <= i < |ring| ==> ring[i] in old(ring))
      ensures visited == old(entries) && entries == []
    {
      HeadTellsUnset();
      var head := pool[0];
      var box := head.next;
      visited := [];
      if box == null {
        return true, [];
      }
      assert visited + entries == entries;
      hide Forward, Backward, Distinct, PoolServes, Holds;
      while box != head
        invariant Valid() && Ready() && forall i :: 0 <= i < |ring| ==> ring[i] in old(ring)
        invariant box == First() && visited + entries == old(entries)
        decreases |ring|
      {
        var x, next := VisitFirst(box);
        visited := visited + [x];
        box := next;
      }
      aborted := false;
    }
  }

  datatype Operation = DoAppend(x: Pointer) | DoRemove(x: Pointer) | DoContains(x: Pointer) | DoClear

  datatype Answer = Nothing | Found(found: bool) | Visited(entries: seq<Pointer>)

  /** A list as a plain sequence: whether it was set up, and its entries. `Aborted` ends a run. */
  datatype Plain = Aborted | Running(ready: bool, entries: seq<Pointer>, answers: seq<Answer>)

  ghost function After(s: Plain, op: Operation): (r: Plain)
  {
    match s
    case Aborted => Aborted
    case Running(ready, entries, answers) =>
      match op
      case DoAppend(x) => Running(true, entries + [x], answers + [Nothing])
      case DoRemove(x) => if x in entries then Running(true, RemoveFirst(entries, x), answers + [Nothing]) else Aborted
      case DoContains(x) => if ready then Running(true, entries, answers + [Found(x in entries)]) else Aborted
      case DoClear => if ready then Running(true, [], answers + [Visited(entries)]) else Aborted
  }

  ghost function AfterAll(ops: seq<Operation>): (r: Plain)
  {
    if ops == [] then Running(false, [], []) else After(AfterAll(ops[..|ops| - 1]), ops[|ops| - 1])
  }

  lemma {:induction false} AbortIsFinal(ops: seq<Operation>, n: nat)
    requires n <= |ops| && AfterAll(ops[..n]) == Aborted
    ensures AfterAll(ops) == Aborted
  {
    if n < |ops| {
      assert ops[..|ops| - 1][..n] == ops[..n];
      AbortIsFinal(ops[..|ops| - 1], n);
    } else {
      assert ops[..n] == ops;
    }
  }

  /** Applies one operation to a list. */
  method Apply(list: List, op: Operation) returns (aborted: bool, answer: Answer)
    requires list.Valid()
    modifies list, list.pool, list.ring
    ensures list.Valid() && forall i :: 0 <= i < |list.ring| ==> list.ring[i] in old(list.ring) || list.ring[i] in list.pool || fresh(list.ring[i])
    ensures forall answers ::
      After(Running(old(list.Ready()), old(list.entries), answers), op)
      == if aborted then Aborted else Running(list.Ready(), list.entries, answers + [answer])
  {
    answer := Nothing;
    match op
    case DoAppend(x) =>
      list.Append(x);
      aborted := false;
    case DoRemove(x) =>
      aborted := list.Remove(x);
    case DoContains(x) =>
      var found;
      aborted, found := list.Contains(x);
      answer := Found(found);
    case DoClear =>
      var visited;
      aborted, visited := list.ForeachClear();
      answer := Visited(visited);
  }

  /** Every sequence of operations on a new list answers as the plain sequence does. */
  method Run(ops: seq<Operation>) returns (aborted: bool, answers: seq<Answer>)
    ensures aborted <==> AfterAll(ops) == Aborted
    ensures !aborted ==> AfterAll(ops).answers == answers
  {
    hide List.Valid, List.Ready, After;
    var list := new List();
    answers := [];
    for n := 0 to |ops|
      invariant list.Valid() && fresh(list) && fresh(list.pool)
      invariant forall i :: 0 <= i < |list.ring| ==> fresh(list.ring[i])
      invariant AfterAll(ops[..n]) == Running(list.Ready(), list.entries, answers)
    {
      assert ops[..n + 1][..n] == ops[..n];
      var failed, answer := Apply(list, ops[n]);
      if failed {
        AbortIsFinal(ops, n + 1);
        return true, answers;
      }
      answers := answers + [answer];
    }
    assert ops[..|ops|] == ops;
    aborted := false;
  }
}
