/**
 * The solver's bounded priority queue. Entries are kept in an array sorted so
 * that priorities never increase from front to back; the lowest priority sits
 * last and is popped in O(1). Insertion shifts larger-index entries up one slot.
 * Nodes are referred to by their index in the solver's node arena.
 */
module PriorityQueue {
  import opened Wrappers
  import opened Grid

  datatype QEntry = QEntry(node: nat, priority: nat)

  /** Priorities never increase towards the back. */
  predicate NonIncreasing(q: seq<QEntry>) {
    forall i, j :: 0 <= i < j < |q| ==> q[i].priority >= q[j].priority
  }

  /**
   * The slot where the shifting loop stops: it walks down from the back past
   * every entry whose priority is strictly below the new one.
   */
  function InsertAt(q: seq<QEntry>, priority: nat): (k: nat)
    ensures k <= |q|
  {
    if q == [] || priority <= q[|q| - 1].priority then |q|
    else InsertAt(q[..|q| - 1], priority)
  }

  /** The queue after enqueue: the new entry goes in at InsertAt, the rest keep their order. */
  function Enqueued(q: seq<QEntry>, e: QEntry): seq<QEntry> {
    var k := InsertAt(q, e.priority);
    q[..k] + [e] + q[k..]
  }

  /** The node dequeue hands back, and the queue it leaves. */
  function Dequeued(q: seq<QEntry>): (Option<nat>, seq<QEntry>) {
    if q == [] then (None, q) else (Some(q[|q| - 1].node), q[..|q| - 1])
  }

  /**
   * In a sorted queue the new entry lands after every entry of greater or
   * equal priority and before every entry of strictly lower priority; ties
   * therefore come back out last-in first-out.
   */
  lemma {:induction false} InsertAtSplits(q: seq<QEntry>, priority: nat)
    requires NonIncreasing(q)
    ensures forall j :: 0 <= j < InsertAt(q, priority) ==> q[j].priority >= priority
    ensures forall j :: InsertAt(q, priority) <= j < |q| ==> q[j].priority < priority
  {
    if q != [] && priority > q[|q| - 1].priority {
      InsertAtSplits(q[..|q| - 1], priority);
    }
  }

  /** The slot the loop stops at is characterised by the two sides of the split. */
  lemma {:induction false} InsertAtIs(q: seq<QEntry>, priority: nat, i: nat)
    requires i <= |q|
    requires forall j :: i <= j < |q| ==> q[j].priority < priority
    requires i == 0 || q[i - 1].priority >= priority
    ensures InsertAt(q, priority) == i
  {
    if i < |q| {
      InsertAtIs(q[..|q| - 1], priority, i);
    }
  }

  /** Enqueue keeps the queue sorted. */
  lemma EnqueuedSorted(q: seq<QEntry>, e: QEntry)
    requires NonIncreasing(q)
    ensures NonIncreasing(Enqueued(q, e))
  {
    InsertAtSplits(q, e.priority);
    var k := InsertAt(q, e.priority);
    var r := Enqueued(q, e);
    forall i, j | 0 <= i < j < |r| ensures r[i].priority >= r[j].priority {
      if j < k {
        assert r[i] == q[i] && r[j] == q[j];
      } else if i > k {
        assert r[i] == q[i - 1] && r[j] == q[j - 1];
      } else if i == k {
        assert r[j] == q[j - 1];
      } else {
        assert r[i] == q[i];
        if j > k {
          assert r[j] == q[j - 1];
        }
      }
    }
  }

  /** Enqueue adds exactly the new entry and loses nothing. */
  lemma EnqueuedContents(q: seq<QEntry>, e: QEntry)
    ensures |Enqueued(q, e)| == |q| + 1
    ensures multiset(Enqueued(q, e)) == multiset(q) + multiset{e}
    ensures forall f :: f in Enqueued(q, e) <==> f in q || f == e
  {
    var k := InsertAt(q, e.priority);
    assert q == q[..k] + q[k..];
    var r := Enqueued(q, e);
    forall f ensures f in r <==> f in q || f == e {
      assert f in r <==> f in multiset(r);
      assert f in q <==> f in multiset(q);
    }
  }

  /** Among entries of one priority the newest is dequeued first. */
  lemma EnqueuedTiesLifo(q: seq<QEntry>, e: QEntry)
    requires NonIncreasing(q)
    ensures var r := Enqueued(q, e); var k := InsertAt(q, e.priority);
      r[k] == e && forall j :: k < j < |r| ==> r[j].priority < e.priority
  {
    InsertAtSplits(q, e.priority);
    var k := InsertAt(q, e.priority);
    var r := Enqueued(q, e);
    forall j | k < j < |r| ensures r[j].priority < e.priority {
      assert r[j] == q[j - 1];
    }
  }

  /** Dequeue on a non-empty sorted queue yields a node of minimum priority and drops only that entry. */
  lemma DequeuedIsMinimum(q: seq<QEntry>)
    requires NonIncreasing(q)
    ensures Dequeued(q).0.None? <==> q == []
    ensures q != [] ==>
      var e := q[|q| - 1];
      Dequeued(q).0 == Some(e.node) && Dequeued(q).1 + [e] == q &&
      forall f :: f in q ==> e.priority <= f.priority
    ensures NonIncreasing(Dequeued(q).1)
  {
    if q != [] {
      var e := q[|q| - 1];
      forall f | f in q ensures e.priority <= f.priority {
        var j :| 0 <= j < |q| && q[j] == f;
      }
    }
  }

  /** The entries held in the first n slots of the two parallel arrays. */
  function Pairs(es: seq<nat>, ps: seq<nat>): (r: seq<QEntry>)
    requires |es| == |ps|
    ensures |r| == |es|
    ensures forall j :: 0 <= j < |r| ==> r[j] == QEntry(es[j], ps[j])
  {
    if es == [] then [] else Pairs(es[..|es| - 1], ps[..|ps| - 1]) + [QEntry(es[|es| - 1], ps[|ps| - 1])]
  }

  /** The array contents the shifting loop leaves behind hold exactly the enqueued sequence. */
  lemma ShiftInsert(oe: seq<nat>, op: seq<nat>, ne: seq<nat>, np: seq<nat>, n: nat, i: nat, e: QEntry)
    requires |oe| == |op| == |ne| == |np| && i <= n < |oe|
    requires forall j :: 0 <= j < i ==> ne[j] == oe[j] && np[j] == op[j]
    requires ne[i] == e.node && np[i] == e.priority
    requires forall j :: i < j <= n ==> ne[j] == oe[j - 1] && np[j] == op[j - 1]
    requires forall j :: i <= j < n ==> op[j] < e.priority
    requires i == 0 || op[i - 1] >= e.priority
    ensures Pairs(ne[..n + 1], np[..n + 1]) == Enqueued(Pairs(oe[..n], op[..n]), e)
  {
    var q := Pairs(oe[..n], op[..n]);
    InsertAtIs(q, e.priority, i);
    var r := Pairs(ne[..n + 1], np[..n + 1]);
    assert |r| == |Enqueued(q, e)|;
    forall j | 0 <= j < |r| ensures r[j] == Enqueued(q, e)[j] {
      if j < i {
        assert r[j] == q[j];
      } else if j > i {
        assert r[j] == q[j - 1];
      }
    }
  }

  class Queue {
    const elements: array<nat>
    const priorities: array<nat>
    var size: nat

    ghost predicate Valid()
      reads this, elements, priorities
    {
      elements.Length == QUEUE_CAPACITY && priorities.Length == QUEUE_CAPACITY &&
      elements != priorities && size <= QUEUE_CAPACITY &&
      NonIncreasing(Entries())
    }

    function Entries(): seq<QEntry>
      reads this, elements, priorities
      requires size <= elements.Length && size <= priorities.Length
    {
      Pairs(elements[..size], priorities[..size])
    }

    /** A zero-filled queue, as calloc leaves it. */
    constructor ()
      ensures Valid() && Entries() == []
      ensures fresh(elements) && fresh(priorities)
    {
      elements := new nat[QUEUE_CAPACITY];
      priorities := new nat[QUEUE_CAPACITY];
      size := 0;
    }

    /** clear_queue: forget every entry. */
    method Clear()
      requires Valid()
      modifies this
      ensures Valid() && Entries() == []
    {
      size := 0;
    }

    /**
     * enqueue: insert after every entry of greater or equal priority. A full
     * queue is reported by ok == false (the C code spins there forever).
     */
    method Enqueue(node: nat, priority: nat) returns (ok: bool)
      requires Valid()
      modifies this, elements, priorities
      ensures Valid()
      ensures ok <==> old(size) < QUEUE_CAPACITY
      ensures ok ==> Entries() == Enqueued(old(Entries()), QEntry(node, priority))
      ensures !ok ==> Entries() == old(Entries())
    {
      if size == QUEUE_CAPACITY {
        return false;
      }
      ghost var oe, op := elements[..], priorities[..];
      ghost var q := Entries();
      var i := MakeRoom(priority);
      elements[i] := node;
      priorities[i] := priority;
      size := size + 1;
      ghost var e := QEntry(node, priority);
      assert oe[..size - 1] == old(elements[..size]) && op[..size - 1] == old(priorities[..size]);
      ShiftInsert(oe, op, elements[..], priorities[..], size - 1, i, e);
      EnqueuedSorted(q, e);
      ok := true;
    }

    /**
     * The shifting loop of enqueue: moves every entry of priority strictly
     * below the new one up one slot, and returns the slot left free.
     */
    method MakeRoom(priority: nat) returns (i: nat)
      requires Valid() && size < QUEUE_CAPACITY
      modifies elements, priorities
      ensures i <= size
      ensures forall j :: 0 <= j < i ==> elements[j] == old(elements[j]) && priorities[j] == old(priorities[j])
      ensures forall j :: i < j <= size ==> elements[j] == old(elements[j - 1]) && priorities[j] == old(priorities[j - 1])
      ensures forall j :: i <= j < size ==> old(priorities[j]) < priority
      ensures i == 0 || old(priorities[i - 1]) >= priority
    {
      i := size;
      while i > 0 && priority > priorities[i - 1]
        invariant 0 <= i <= size
        invariant forall j :: 0 <= j < i ==> elements[j] == old(elements[j]) && priorities[j] == old(priorities[j])
        invariant forall j :: i < j <= size ==> elements[j] == old(elements[j - 1]) && priorities[j] == old(priorities[j - 1])
        invariant forall j :: i <= j < size ==> old(priorities[j]) < priority
      {
        elements[i] := elements[i - 1];
        priorities[i] := priorities[i - 1];
        i := i - 1;
      }
    }

    /** dequeue: pop the last entry, the one of lowest priority; an empty queue yields None. */
    method Dequeue() returns (r: Option<nat>)
      requires Valid()
      modifies this
      ensures Valid()
      ensures (r, Entries()) == Dequeued(old(Entries()))
    {
      ghost var q := Entries();
      if size == 0 {
        return None;
      }
      size := size - 1;
      r := Some(elements[size]);
      assert Entries() == q[..|q| - 1];
      DequeuedIsMinimum(q);
    }
  }
}
