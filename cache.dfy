/**
 * The solver's visited set: a bounded array of (position id, node) entries
 * kept in strictly ascending id order. A lookup scans linearly; on a miss the
 * new entry is inserted by shifting larger ids up one slot.
 */
module VisitedCache {
  import opened Grid

  datatype CacheEntry = CacheEntry(id: nat, node: nat)

  datatype LookupResult = Hit | Miss | Full

  /** Ids strictly increase from front to back, so none repeats. */
  predicate StrictlyAscending(c: seq<CacheEntry>) {
    forall i, j :: 0 <= i < j < |c| ==> c[i].id < c[j].id
  }

  function Ids(c: seq<CacheEntry>): set<nat> {
    set e | e in c :: e.id
  }

  /** The slot the shifting loop stops at: it walks down past every entry with a larger id. */
  function Slot(c: seq<CacheEntry>, id: nat): (k: nat)
    ensures k <= |c|
  {
    if c == [] || c[|c| - 1].id <= id then |c|
    else Slot(c[..|c| - 1], id)
  }

  function Inserted(c: seq<CacheEntry>, e: CacheEntry): seq<CacheEntry> {
    var k := Slot(c, e.id);
    c[..k] + [e] + c[k..]
  }

  /**
   * The outcome of cache_lookup and the entries it leaves: a hit changes
   * nothing, a miss in a full cache is reported (the C code spins), and any
   * other miss inserts the new entry.
   */
  function Looked(c: seq<CacheEntry>, id: nat, node: nat): (LookupResult, seq<CacheEntry>) {
    if id in Ids(c) then (Hit, c)
    else if |c| == CACHE_CAPACITY then (Full, c)
    else (Miss, Inserted(c, CacheEntry(id, node)))
  }

  lemma {:induction false} SlotSplits(c: seq<CacheEntry>, id: nat)
    requires StrictlyAscending(c)
    ensures forall j :: 0 <= j < Slot(c, id) ==> c[j].id <= id
    ensures forall j :: Slot(c, id) <= j < |c| ==> c[j].id > id
  {
    if c != [] && c[|c| - 1].id > id {
      SlotSplits(c[..|c| - 1], id);
    }
  }

  lemma {:induction false} SlotIs(c: seq<CacheEntry>, id: nat, i: nat)
    requires i <= |c|
    requires forall j :: i <= j < |c| ==> c[j].id > id
    requires i == 0 || c[i - 1].id <= id
    ensures Slot(c, id) == i
  {
    if i < |c| {
      SlotIs(c[..|c| - 1], id, i);
    }
  }

  /** Inserting an id not yet present keeps the ids strictly ascending. */
  lemma InsertedAscending(c: seq<CacheEntry>, e: CacheEntry)
    requires StrictlyAscending(c) && e.id !in Ids(c)
    ensures StrictlyAscending(Inserted(c, e))
  {
    SlotSplits(c, e.id);
    var k := Slot(c, e.id);
    var r := Inserted(c, e);
    forall j | 0 <= j < k ensures c[j].id < e.id {
      assert c[j] in c;
    }
    forall i, j | 0 <= i < j < |r| ensures r[i].id < r[j].id {
      if j < k {
        assert r[i] == c[i] && r[j] == c[j];
      } else if i > k {
        assert r[i] == c[i - 1] && r[j] == c[j - 1];
      } else if i == k {
        assert r[j] == c[j - 1];
      } else {
        assert r[i] == c[i];
        if j > k {
          assert r[j] == c[j - 1];
        }
      }
    }
  }

  /** A miss grows the cache by exactly the new entry. */
  lemma InsertedContents(c: seq<CacheEntry>, e: CacheEntry)
    ensures |Inserted(c, e)| == |c| + 1
    ensures multiset(Inserted(c, e)) == multiset(c) + multiset{e}
    ensures Ids(Inserted(c, e)) == Ids(c) + {e.id}
    ensures forall f :: f in Inserted(c, e) <==> f in c || f == e
  {
    var k := Slot(c, e.id);
    assert c == c[..k] + c[k..];
    var r := Inserted(c, e);
    assert forall f :: f in r <==> f in c || f == e by {
      assert multiset(r) == multiset(c) + multiset{e};
      forall f ensures f in r <==> f in c || f == e {
        assert f in r <==> f in multiset(r);
        assert f in c <==> f in multiset(c);
      }
    }
  }

  /** In a strictly ascending cache the number of entries equals the number of distinct ids. */
  lemma {:induction false} AscendingCount(c: seq<CacheEntry>)
    requires StrictlyAscending(c)
    ensures |Ids(c)| == |c|
  {
    if c != [] {
      var init := c[..|c| - 1];
      var last := c[|c| - 1];
      assert StrictlyAscending(init) by {
        forall i, j | 0 <= i < j < |init| ensures init[i].id < init[j].id {
          assert init[i] == c[i] && init[j] == c[j];
        }
      }
      AscendingCount(init);
      assert last.id !in Ids(init) by {
        forall f | f in init ensures f.id != last.id {
          var j :| 0 <= j < |init| && init[j] == f;
          assert c[j] == f;
        }
      }
      assert Ids(c) == Ids(init) + {last.id} by {
        assert c == init + [last];
      }
    }
  }

  /**
   * cache_lookup in terms of Looked: hit exactly when the id is present,
   * and the cache stays strictly ascending whatever happens.
   */
  lemma LookedSpec(c: seq<CacheEntry>, id: nat, node: nat)
    requires StrictlyAscending(c)
    ensures Looked(c, id, node).0 == Hit <==> id in Ids(c)
    ensures Looked(c, id, node).0 == Full <==> id !in Ids(c) && |c| == CACHE_CAPACITY
    ensures Looked(c, id, node).0 != Miss ==> Looked(c, id, node).1 == c
    ensures Looked(c, id, node).0 == Miss ==>
      Ids(Looked(c, id, node).1) == Ids(c) + {id} && |Looked(c, id, node).1| == |c| + 1 &&
      CacheEntry(id, node) in Looked(c, id, node).1
    ensures StrictlyAscending(Looked(c, id, node).1)
  {
    if id !in Ids(c) && |c| != CACHE_CAPACITY {
      InsertedAscending(c, CacheEntry(id, node));
      InsertedContents(c, CacheEntry(id, node));
    }
  }

  class Cache {
    const entries: array<CacheEntry>
    var size: nat

    ghost predicate Valid()
      reads this, entries
    {
      entries.Length == CACHE_CAPACITY && size <= CACHE_CAPACITY &&
      StrictlyAscending(entries[..size])
    }

    function Entries(): seq<CacheEntry>
      reads this, entries
      requires size <= entries.Length
    {
      entries[..size]
    }

    /** A zero-filled cache, as calloc leaves it. */
    constructor ()
      ensures Valid() && Entries() == []
      ensures fresh(entries)
    {
      entries := new CacheEntry[CACHE_CAPACITY](_ => CacheEntry(0, 0));
      size := 0;
    }

    /** clear_cache: forget every entry (the nodes it frees are not modelled). */
    method Clear()
      requires Valid()
      modifies this
      ensures Valid() && Entries() == []
    {
      size := 0;
    }

    /** cache_lookup for the node at index node, standing at position. */
    method Lookup(position: Coord, node: nat) returns (r: LookupResult)
      requires Valid()
      modifies this, entries
      ensures Valid()
      ensures (r, Entries()) == Looked(old(Entries()), PositionId(position), node)
    {
      var id := PositionId(position);
      ghost var c := Entries();
      var i := 0;
      while i < size
        invariant 0 <= i <= size
        invariant forall j :: 0 <= j < i ==> entries[j].id != id
      {
        if entries[i].id == id {
          assert entries[i] in c;
          return Hit;
        }
        i := i + 1;
      }
      assert id !in Ids(c);
      if size == CACHE_CAPACITY {
        return Full;
      }
      ghost var oe := entries[..];
      var k := MakeRoom(id);
      entries[k] := CacheEntry(id, node);
      size := size + 1;
      ghost var e := CacheEntry(id, node);
      assert oe[..size - 1] == c;
      ShiftInsert(oe, entries[..], size - 1, k, e);
      InsertedAscending(c, e);
      r := Miss;
    }

    /** The shifting loop of cache_lookup: moves every larger id up one slot and returns the free slot. */
    method MakeRoom(id: nat) returns (i: nat)
      requires Valid() && size < CACHE_CAPACITY
      modifies entries
      ensures i <= size
      ensures forall j :: 0 <= j < i ==> entries[j] == old(entries[j])
      ensures forall j :: i < j <= size ==> entries[j] == old(entries[j - 1])
      ensures forall j :: i <= j < size ==> old(entries[j]).id > id
      ensures i == 0 || old(entries[i - 1]).id <= id
    {
      i := size;
      while i > 0 && id < entries[i - 1].id
        invariant 0 <= i <= size
        invariant forall j :: 0 <= j < i ==> entries[j] == old(entries[j])
        invariant forall j :: i < j <= size ==> entries[j] == old(entries[j - 1])
        invariant forall j :: i <= j < size ==> old(entries[j]).id > id
      {
        entries[i] := entries[i - 1];
        i := i - 1;
      }
    }
  }

  /** The array contents the shifting loop leaves behind hold exactly the inserted sequence. */
  lemma ShiftInsert(oe: seq<CacheEntry>, ne: seq<CacheEntry>, n: nat, i: nat, e: CacheEntry)
    requires |oe| == |ne| && i <= n < |oe|
    requires forall j :: 0 <= j < i ==> ne[j] == oe[j]
    requires ne[i] == e
    requires forall j :: i < j <= n ==> ne[j] == oe[j - 1]
    requires forall j :: i <= j < n ==> oe[j].id > e.id
    requires i == 0 || oe[i - 1].id <= e.id
    ensures ne[..n + 1] == Inserted(oe[..n], e)
  {
    var c := oe[..n];
    SlotIs(c, e.id, i);
    var r := ne[..n + 1];
    assert |r| == |Inserted(c, e)|;
    forall j | 0 <= j < |r| ensures r[j] == Inserted(c, e)[j] {
      if j < i {
        assert r[j] == c[j];
      } else if j > i {
        assert r[j] == c[j - 1];
      }
    }
  }
}
