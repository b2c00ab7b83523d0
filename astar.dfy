/**
 * The A* solver: one search step and the driver loop. Nodes live in an arena
 * (a sequence indexed by node number); a node's `prev` is the index of the
 * node it was reached from. The active heuristic and neighbour generator are
 * parameters. The queue holds (node, priority) pairs, the cache (position id,
 * node) pairs, as in the queue and cache modules.
 */
module AStar {
  import opened Wrappers
  import opened Grid
  import opened Heuristics
  import opened Neighbors
  import opened PriorityQueue
  import opened VisitedCache

  datatype Node = Node(position: Coord, steps: nat, prev: Option<nat>)

  /** Everything a step reads and writes: queue entries, cache entries and the node arena. */
  datatype State = State(queue: seq<QEntry>, cache: seq<CacheEntry>, arena: seq<Node>)

  /**
   * What a step reports: keep going, the queue ran dry (the (Node *)-1
   * sentinel), a solution node, or one of the two capacity stops at which the
   * C code spins forever.
   */
  datatype Outcome = Running | Exhausted | Solved(node: nat) | QueueFull | CacheFull

  predicate NodesBelow(q: seq<QEntry>, n: nat) {
    forall e :: e in q ==> e.node < n
  }

  /**
   * One neighbour n of node w: a child node one step further is made; it is
   * kept and enqueued with priority distance + steps only on a cache miss.
   */
  function Visit(h: Heuristic, goal: Coord, w: nat, n: Coord, s: State): (r: (Outcome, State))
    requires w < |s.arena|
    ensures |s.arena| <= |r.1.arena|
  {
    var child := Node(n, s.arena[w].steps + 1, Some(w));
    var idx := |s.arena|;
    var lk := Looked(s.cache, PositionId(n), idx);
    if lk.0 == Hit then (Running, s)
    else if lk.0 == Full then (CacheFull, s)
    else if |s.queue| == QUEUE_CAPACITY then (QueueFull, State(s.queue, lk.1, s.arena + [child]))
    else (Running, State(Enqueued(s.queue, QEntry(idx, Distance(h, n, goal) + child.steps)), lk.1, s.arena + [child]))
  }

  /** The neighbours of w visited in the order the generator lists them. */
  function ExpandAll(h: Heuristic, goal: Coord, w: nat, ns: seq<Coord>, s: State): (Outcome, State)
    requires w < |s.arena|
    decreases |ns|
  {
    if ns == [] then (Running, s)
    else
      var r := Visit(h, goal, w, ns[0], s);
      if r.0 != Running then r else ExpandAll(h, goal, w, ns[1..], r.1)
  }

  /**
   * a_star_search_step: dequeue the lowest-priority node; none left means the
   * search space is exhausted; a node at the goal is the solution; any other
   * node is expanded.
   */
  function StepSpec(h: Heuristic, policy: Policy, g: Grid, goal: Coord, s: State): (Outcome, State)
    requires NodesBelow(s.queue, |s.arena|)
  {
    if s.queue == [] then (Exhausted, s)
    else
      assert s.queue[|s.queue| - 1] in s.queue;
      var w := s.queue[|s.queue| - 1].node;
      var rest := State(s.queue[..|s.queue| - 1], s.cache, s.arena);
      if IsGoal(h, s.arena[w].position, goal) then (Solved(w), rest)
      else ExpandAll(h, goal, w, Successors(policy, g, s.arena[w].position), rest)
  }

  // ---------------------------------------------------------------------
  // Invariants of the search
  // ---------------------------------------------------------------------

  /** Node i (not the start) was reached by one generator step from an earlier node, one step further. */
  ghost predicate Linked(policy: Policy, g: Grid, a: seq<Node>, i: nat)
    requires i < |a|
  {
    match a[i].prev
    case None => false
    case Some(j) =>
      j < i && a[i].steps == a[j].steps + 1 &&
      a[i].position in Successors(policy, g, a[j].position)
  }

  /** Node 0 is the start with no predecessor; every other node is linked; all stand on the map. */
  ghost predicate ArenaOk(policy: Policy, g: Grid, start: Coord, a: seq<Node>) {
    |a| >= 1 && a[0] == Node(start, 0, None) &&
    (forall i :: 0 <= i < |a| ==> OnMap(a[i].position)) &&
    (forall i :: 0 < i < |a| ==> Linked(policy, g, a, i))
  }

  /** Every queued node exists and carries priority distance-to-goal plus steps. */
  ghost predicate QueueOk(h: Heuristic, goal: Coord, a: seq<Node>, q: seq<QEntry>) {
    forall e :: e in q ==>
      e.node < |a| && e.priority == Distance(h, a[e.node].position, goal) + a[e.node].steps
  }

  /** Cache ids are ascending, and each is the position id of its node. */
  ghost predicate CacheOk(a: seq<Node>, c: seq<CacheEntry>) {
    StrictlyAscending(c) &&
    forall e :: e in c ==> e.node < |a| && e.id == PositionId(a[e.node].position)
  }

  function QNodes(q: seq<QEntry>): set<nat> {
    set e | e in q :: e.node
  }

  /** Node i has been expanded: it is not at the goal and all its neighbours are in the cache. */
  ghost predicate Expanded(h: Heuristic, policy: Policy, g: Grid, goal: Coord, a: seq<Node>, c: seq<CacheEntry>, i: nat)
    requires i < |a|
  {
    !IsGoal(h, a[i].position, goal) &&
    forall n :: n in Successors(policy, g, a[i].position) ==> PositionId(n) in Ids(c)
  }

  /** Every cached node is still queued or already expanded, except possibly node `skip`. */
  ghost predicate Closed(h: Heuristic, policy: Policy, g: Grid, goal: Coord, s: State, skip: Option<nat>) {
    forall e :: e in s.cache ==>
      (e.node < |s.arena| &&
       (e.node in QNodes(s.queue) || skip == Some(e.node) || Expanded(h, policy, g, goal, s.arena, s.cache, e.node)))
  }

  /** The invariant between two search steps. */
  ghost predicate Inv(h: Heuristic, policy: Policy, g: Grid, start: Coord, goal: Coord, s: State) {
    ArenaOk(policy, g, start, s.arena) &&
    QueueOk(h, goal, s.arena, s.queue) &&
    CacheOk(s.arena, s.cache) &&
    Closed(h, policy, g, goal, s, None) &&
    PositionId(start) in Ids(s.cache) &&
    |s.queue| <= |s.cache|
  }

  /** The invariant while node w's neighbours ns are still to be visited. */
  ghost predicate Expanding(h: Heuristic, policy: Policy, g: Grid, start: Coord, goal: Coord, w: nat, ns: seq<Coord>, s: State) {
    ArenaOk(policy, g, start, s.arena) && w < |s.arena| &&
    QueueOk(h, goal, s.arena, s.queue) &&
    CacheOk(s.arena, s.cache) &&
    Closed(h, policy, g, goal, s, Some(w)) &&
    PositionId(start) in Ids(s.cache) &&
    |s.queue| <= |s.cache| &&
    !IsGoal(h, s.arena[w].position, goal) &&
    (forall n :: n in ns ==> n in Successors(policy, g, s.arena[w].position)) &&
    (forall n :: n in Successors(policy, g, s.arena[w].position) ==> n in ns || PositionId(n) in Ids(s.cache))
  }

  // ---------------------------------------------------------------------
  // Capacity: the cache holds at most one entry per cell, so neither the
  // cache nor the queue can fill up on an 8 x 10 map.
  // ---------------------------------------------------------------------

  lemma RankFollowsId(p: Coord, q: Coord)
    requires OnMap(p) && OnMap(q) && PositionId(p) < PositionId(q)
    ensures Rank(p) < Rank(q)
  {
    PositionIdOrder(p, q);
    if p.x < q.x {
      assert (p.x + 1) * MAP_SIZE_Y <= q.x * MAP_SIZE_Y;
    }
  }

  lemma {:induction false} CacheRankBound(a: seq<Node>, c: seq<CacheEntry>)
    requires CacheOk(a, c) && forall i :: 0 <= i < |a| ==> OnMap(a[i].position)
    requires c != []
    ensures |c| <= Rank(a[c[|c| - 1].node].position) + 1
  {
    var last := c[|c| - 1];
    assert last in c;
    var init := c[..|c| - 1];
    if init != [] {
      assert forall e :: e in init ==> e in c;
      CacheRankBound(a, init);
      var prev := init[|init| - 1];
      assert prev in c;
      RankFollowsId(a[prev.node].position, a[last.node].position);
    }
  }

  /** A consistent cache never holds more entries than the map has cells. */
  lemma CacheBound(a: seq<Node>, c: seq<CacheEntry>)
    requires CacheOk(a, c) && forall i :: 0 <= i < |a| ==> OnMap(a[i].position)
    ensures |c| <= CELLS
  {
    if c != [] {
      CacheRankBound(a, c);
      var p := a[c[|c| - 1].node].position;
      assert c[|c| - 1] in c;
      RankOf(p.x, p.y);
    }
  }

  // ---------------------------------------------------------------------
  // Preservation of the invariant by one step
  // ---------------------------------------------------------------------

  /** Appending a child of node w reached by one generator step keeps the arena well formed. */
  lemma AppendKeepsArena(policy: Policy, g: Grid, start: Coord, a: seq<Node>, w: nat, n: Coord)
    requires ArenaOk(policy, g, start, a) && w < |a|
    requires n in Successors(policy, g, a[w].position)
    ensures ArenaOk(policy, g, start, a + [Node(n, a[w].steps + 1, Some(w))])
  {
    var a' := a + [Node(n, a[w].steps + 1, Some(w))];
    SuccessorsOnMap(policy, g, a[w].position, n);
    forall i | 0 < i < |a'| ensures Linked(policy, g, a', i) {
      if i < |a| {
        assert Linked(policy, g, a, i);
        assert a'[i] == a[i] && a'[a[i].prev.value] == a[a[i].prev.value];
      }
    }
  }

  /** Being expanded survives growth of the arena and of the cache. */
  lemma ExpandedGrows(h: Heuristic, policy: Policy, g: Grid, goal: Coord,
                      a: seq<Node>, a': seq<Node>, c: seq<CacheEntry>, c': seq<CacheEntry>, i: nat)
    requires i < |a| <= |a'| && a'[i] == a[i]
    requires Ids(c) <= Ids(c')
    requires Expanded(h, policy, g, goal, a, c, i)
    ensures Expanded(h, policy, g, goal, a', c', i)
  {
  }

  /** A neighbour already in the cache is skipped and nothing changes. */
  lemma HitKeeps(h: Heuristic, policy: Policy, g: Grid, start: Coord, goal: Coord, w: nat, ns: seq<Coord>, s: State)
    requires Expanding(h, policy, g, start, goal, w, ns, s) && ns != []
    requires PositionId(ns[0]) in Ids(s.cache)
    ensures Visit(h, goal, w, ns[0], s) == (Running, s)
    ensures Expanding(h, policy, g, start, goal, w, ns[1..], s)
  {
    forall n | n in Successors(policy, g, s.arena[w].position)
      ensures n in ns[1..] || PositionId(n) in Ids(s.cache)
    {
      if n in ns && n != ns[0] {
        var k :| 0 <= k < |ns| && ns[k] == n;
        assert ns[1..][k - 1] == n;
      }
    }
  }

  /** On a miss with room in both structures, Visit appends, caches and queues the child. */
  lemma VisitMiss(h: Heuristic, goal: Coord, w: nat, n: Coord, s: State)
    requires w < |s.arena|
    requires PositionId(n) !in Ids(s.cache)
    requires |s.cache| < CACHE_CAPACITY && |s.queue| < QUEUE_CAPACITY
    ensures var child := Node(n, s.arena[w].steps + 1, Some(w));
      Visit(h, goal, w, n, s) ==
        (Running, State(Enqueued(s.queue, QEntry(|s.arena|, Distance(h, n, goal) + child.steps)),
                        Inserted(s.cache, CacheEntry(PositionId(n), |s.arena|)),
                        s.arena + [child]))
  {
  }

  lemma GrowKeepsQueue(h: Heuristic, goal: Coord, a: seq<Node>, q: seq<QEntry>, child: Node)
    requires QueueOk(h, goal, a, q)
    ensures QueueOk(h, goal, a + [child], Enqueued(q, QEntry(|a|, Distance(h, child.position, goal) + child.steps)))
  {
    var a', qe := a + [child], QEntry(|a|, Distance(h, child.position, goal) + child.steps);
    EnqueuedContents(q, qe);
    forall e | e in Enqueued(q, qe)
      ensures e.node < |a'| && e.priority == Distance(h, a'[e.node].position, goal) + a'[e.node].steps
    {
      if e in q {
        assert a'[e.node] == a[e.node];
      }
    }
  }

  lemma GrowKeepsCache(a: seq<Node>, c: seq<CacheEntry>, child: Node)
    requires CacheOk(a, c) && PositionId(child.position) !in Ids(c)
    ensures CacheOk(a + [child], Inserted(c, CacheEntry(PositionId(child.position), |a|)))
  {
    var a', ce := a + [child], CacheEntry(PositionId(child.position), |a|);
    InsertedContents(c, ce);
    InsertedAscending(c, ce);
    forall e | e in Inserted(c, ce) ensures e.node < |a'| && e.id == PositionId(a'[e.node].position) {
      if e in c {
        assert a'[e.node] == a[e.node];
      }
    }
  }

  lemma GrowKeepsClosed(h: Heuristic, policy: Policy, g: Grid, goal: Coord, s: State, w: nat, child: Node, qe: QEntry)
    requires CacheOk(s.arena, s.cache) && Closed(h, policy, g, goal, s, Some(w))
    requires qe.node == |s.arena|
    ensures var ce := CacheEntry(PositionId(child.position), |s.arena|);
      Closed(h, policy, g, goal, State(Enqueued(s.queue, qe), Inserted(s.cache, ce), s.arena + [child]), Some(w))
  {
    var a, q, c := s.arena, s.queue, s.cache;
    var ce := CacheEntry(PositionId(child.position), |a|);
    var a', c', q' := a + [child], Inserted(c, ce), Enqueued(q, qe);
    InsertedContents(c, ce);
    EnqueuedContents(q, qe);
    forall e | e in c'
      ensures e.node < |a'| &&
        (e.node in QNodes(q') || Some(w) == Some(e.node) || Expanded(h, policy, g, goal, a', c', e.node))
    {
      if e == ce {
        assert qe in q';
      } else {
        assert e in c;
        if e.node in QNodes(q) {
          var f :| f in q && f.node == e.node;
          assert f in q';
        } else if e.node != w {
          ExpandedGrows(h, policy, g, goal, a, a', c, c', e.node);
        }
      }
    }
  }

  /** A neighbour not yet cached becomes a new node, cached and queued, and the invariant carries over. */
  lemma MissKeeps(h: Heuristic, policy: Policy, g: Grid, start: Coord, goal: Coord, w: nat, ns: seq<Coord>, s: State)
    requires Expanding(h, policy, g, start, goal, w, ns, s) && ns != []
    requires PositionId(ns[0]) !in Ids(s.cache)
    ensures var r := Visit(h, goal, w, ns[0], s);
      r.0 == Running && Expanding(h, policy, g, start, goal, w, ns[1..], r.1) &&
      |r.1.cache| == |s.cache| + 1 && |r.1.queue| == |s.queue| + 1
  {
    var a, q, c := s.arena, s.queue, s.cache;
    var n := ns[0];
    var child := Node(n, a[w].steps + 1, Some(w));
    var idx := |a|;
    var ce := CacheEntry(PositionId(n), idx);
    var qe := QEntry(idx, Distance(h, n, goal) + child.steps);
    CacheBound(a, c);
    var a', c', q' := a + [child], Inserted(c, ce), Enqueued(q, qe);
    MissHasRoom(policy, g, start, h, goal, w, n, s);
    AppendKeepsArena(policy, g, start, a, w, n);
    GrowKeepsQueue(h, goal, a, q, child);
    GrowKeepsCache(a, c, child);
    GrowKeepsClosed(h, policy, g, goal, s, w, child, qe);
    InsertedContents(c, ce);
    EnqueuedContents(q, qe);
    CoverageShifts(Successors(policy, g, a[w].position), ns, c, c');
    assert a'[w] == a[w];
  }

  /** Under the invariant a miss always finds room: the cache and the queue hold at most one entry per cell. */
  lemma MissHasRoom(policy: Policy, g: Grid, start: Coord, h: Heuristic, goal: Coord, w: nat, n: Coord, s: State)
    requires ArenaOk(policy, g, start, s.arena) && CacheOk(s.arena, s.cache)
    requires w < |s.arena| && |s.queue| <= |s.cache| && PositionId(n) !in Ids(s.cache)
    ensures var child := Node(n, s.arena[w].steps + 1, Some(w));
      Visit(h, goal, w, n, s) ==
        (Running, State(Enqueued(s.queue, QEntry(|s.arena|, Distance(h, n, goal) + child.steps)),
                        Inserted(s.cache, CacheEntry(PositionId(n), |s.arena|)),
                        s.arena + [child]))
  {
    CacheBound(s.arena, s.cache);
    VisitMiss(h, goal, w, n, s);
  }

  /** Once the first pending neighbour is cached, the rest of the list covers what is still missing. */
  lemma CoverageShifts(succ: seq<Coord>, ns: seq<Coord>, c: seq<CacheEntry>, c': seq<CacheEntry>)
    requires ns != [] && Ids(c) <= Ids(c') && PositionId(ns[0]) in Ids(c')
    requires forall n :: n in ns ==> n in succ
    requires forall n :: n in succ ==> n in ns || PositionId(n) in Ids(c)
    ensures forall n :: n in ns[1..] ==> n in succ
    ensures forall n :: n in succ ==> n in ns[1..] || PositionId(n) in Ids(c')
  {
    forall m | m in succ ensures m in ns[1..] || PositionId(m) in Ids(c') {
      if m in ns && m != ns[0] {
        var k :| 0 <= k < |ns| && ns[k] == m;
        assert ns[1..][k - 1] == m;
      }
    }
    assert forall m :: m in ns[1..] ==> m in ns;
  }

  /** Visiting the remaining neighbours of a non-goal node ends Running, with the invariant restored. */
  lemma {:induction false} ExpandAllKeeps(h: Heuristic, policy: Policy, g: Grid, start: Coord, goal: Coord, w: nat, ns: seq<Coord>, s: State)
    requires Expanding(h, policy, g, start, goal, w, ns, s)
    ensures var r := ExpandAll(h, goal, w, ns, s);
      r.0 == Running && Inv(h, policy, g, start, goal, r.1) &&
      |r.1.cache| - |s.cache| == |r.1.queue| - |s.queue| && |s.cache| <= |r.1.cache|
    decreases |ns|
  {
    if ns == [] {
      assert Closed(h, policy, g, goal, s, None) by {
        forall e | e in s.cache
          ensures e.node < |s.arena| &&
            (e.node in QNodes(s.queue) || None == Some(e.node) || Expanded(h, policy, g, goal, s.arena, s.cache, e.node))
        {
        }
      }
    } else {
      if PositionId(ns[0]) in Ids(s.cache) {
        HitKeeps(h, policy, g, start, goal, w, ns, s);
        ExpandAllKeeps(h, policy, g, start, goal, w, ns[1..], s);
      } else {
        MissKeeps(h, policy, g, start, goal, w, ns, s);
        var r := Visit(h, goal, w, ns[0], s);
        ExpandAllKeeps(h, policy, g, start, goal, w, ns[1..], r.1);
      }
    }
  }

  /** Every queued node index is inside the arena. */
  lemma InvNodesBelow(h: Heuristic, policy: Policy, g: Grid, start: Coord, goal: Coord, s: State)
    requires Inv(h, policy, g, start, goal, s)
    ensures NodesBelow(s.queue, |s.arena|)
  {
  }

  /**
   * One search step from a state satisfying the invariant: it never hits a
   * capacity stop; it reports exhaustion exactly on an empty queue; a
   * reported solution is a node standing on the goal; and a step that goes
   * on restores the invariant, expanding one more cached position.
   */
  lemma StepKeeps(h: Heuristic, policy: Policy, g: Grid, start: Coord, goal: Coord, s: State)
    requires Inv(h, policy, g, start, goal, s)
    ensures NodesBelow(s.queue, |s.arena|)
    ensures var r := StepSpec(h, policy, g, goal, s);
      (r.0 == Exhausted <==> s.queue == []) &&
      (r.0 == Exhausted ==> r.1 == s) &&
      (r.0.Solved? ==> r.0.node < |s.arena| && s.arena[r.0.node].position == goal && r.1.arena == s.arena) &&
      (r.0 == Running || r.0 == Exhausted || r.0.Solved?) &&
      (r.0 == Running ==>
        Inv(h, policy, g, start, goal, r.1) &&
        |r.1.cache| - |r.1.queue| == |s.cache| - |s.queue| + 1 && |s.cache| <= |r.1.cache|)
  {
    InvNodesBelow(h, policy, g, start, goal, s);
    if s.queue != [] {
      var q := s.queue;
      var last := q[|q| - 1];
      assert last in q;
      var w := last.node;
      var rest := State(q[..|q| - 1], s.cache, s.arena);
      if !IsGoal(h, s.arena[w].position, goal) {
        var ns := Successors(policy, g, s.arena[w].position);
        PopKeeps(h, policy, g, start, goal, s);
        ExpandAllKeeps(h, policy, g, start, goal, w, ns, rest);
      } else {
        IsGoalAtGoalOnly(h, s.arena[w].position, goal);
      }
    }
  }

  /** Popping a non-goal node leaves a state ready to expand all of its successors. */
  lemma PopKeeps(h: Heuristic, policy: Policy, g: Grid, start: Coord, goal: Coord, s: State)
    requires Inv(h, policy, g, start, goal, s) && s.queue != []
    requires var w := s.queue[|s.queue| - 1].node; w < |s.arena| && !IsGoal(h, s.arena[w].position, goal)
    ensures var q := s.queue; var w := q[|q| - 1].node;
      Expanding(h, policy, g, start, goal, w, Successors(policy, g, s.arena[w].position), State(q[..|q| - 1], s.cache, s.arena))
  {
    var q := s.queue;
    var w := q[|q| - 1].node;
    var rest := State(q[..|q| - 1], s.cache, s.arena);
    assert QueueOk(h, goal, rest.arena, rest.queue) by {
      assert forall e :: e in rest.queue ==> e in q;
    }
    assert Closed(h, policy, g, goal, rest, Some(w)) by {
      forall e | e in rest.cache
        ensures e.node < |rest.arena| &&
          (e.node in QNodes(rest.queue) || Some(w) == Some(e.node) || Expanded(h, policy, g, goal, rest.arena, rest.cache, e.node))
      {
        if e.node in QNodes(q) && e.node != w {
          var f :| f in q && f.node == e.node;
          var k :| 0 <= k < |q| && q[k] == f;
          assert k < |q| - 1;
          assert rest.queue[k] == f;
        }
      }
    }
  }

  // ---------------------------------------------------------------------
  // Soundness and completeness of the search
  // ---------------------------------------------------------------------

  /** A walk over the grid in which every position is offered by the generator at the previous one. */
  predicate IsPath(policy: Policy, g: Grid, path: seq<Coord>) {
    forall k :: 0 < k < |path| ==> path[k] in Successors(policy, g, path[k - 1])
  }

  /** The positions from the start to node i, following the prev links back and reversing them. */
  function PathTo(a: seq<Node>, i: nat): seq<Coord>
    requires i < |a|
    decreases i
  {
    match a[i].prev
    case Some(j) => if j < i then PathTo(a, j) + [a[i].position] else [a[i].position]
    case None => [a[i].position]
  }

  /**
   * Following the prev links of any node leads back to the start along a
   * path the generator allows, with one position per step taken.
   */
  lemma {:induction false} PathToValid(policy: Policy, g: Grid, start: Coord, a: seq<Node>, i: nat)
    requires ArenaOk(policy, g, start, a) && i < |a|
    ensures var p := PathTo(a, i);
      |p| == a[i].steps + 1 && p[0] == start && p[|p| - 1] == a[i].position && IsPath(policy, g, p)
    decreases i
  {
    if i > 0 {
      assert Linked(policy, g, a, i);
      var j := a[i].prev.value;
      PathToValid(policy, g, start, a, j);
      var pj := PathTo(a, j);
      var p := pj + [a[i].position];
      forall k | 0 < k < |p| ensures p[k] in Successors(policy, g, p[k - 1]) {
        if k < |pj| {
          assert p[k] == pj[k] && p[k - 1] == pj[k - 1];
        }
      }
    }
  }

  /** With nothing left in the queue, every cached position has been expanded. */
  lemma CachedIsExpanded(h: Heuristic, policy: Policy, g: Grid, start: Coord, goal: Coord, s: State, p: Coord)
    requires Inv(h, policy, g, start, goal, s) && s.queue == []
    requires PositionId(p) in Ids(s.cache)
    ensures p != goal
    ensures forall n :: n in Successors(policy, g, p) ==> PositionId(n) in Ids(s.cache)
  {
    var e :| e in s.cache && e.id == PositionId(p);
    PositionIdInjective(p, s.arena[e.node].position);
    assert Expanded(h, policy, g, goal, s.arena, s.cache, e.node);
    IsGoalAtGoalOnly(h, p, goal);
  }

  lemma {:induction false} PathStaysCached(h: Heuristic, policy: Policy, g: Grid, start: Coord, goal: Coord, s: State, path: seq<Coord>, k: nat)
    requires Inv(h, policy, g, start, goal, s) && s.queue == []
    requires IsPath(policy, g, path) && |path| > 0 && path[0] == start && k < |path|
    ensures PositionId(path[k]) in Ids(s.cache)
  {
    if k > 0 {
      PathStaysCached(h, policy, g, start, goal, s, path, k - 1);
      CachedIsExpanded(h, policy, g, start, goal, s, path[k - 1]);
    }
  }

  /** When the queue runs dry, no path the generator allows leads from the start to the goal. */
  lemma ExhaustedMeansUnreachable(h: Heuristic, policy: Policy, g: Grid, start: Coord, goal: Coord, s: State)
    requires Inv(h, policy, g, start, goal, s) && s.queue == []
    ensures forall path :: IsPath(policy, g, path) && |path| > 0 && path[0] == start ==> goal !in path
  {
    forall path | IsPath(policy, g, path) && |path| > 0 && path[0] == start ensures goal !in path {
      forall k | 0 <= k < |path| ensures path[k] != goal {
        PathStaysCached(h, policy, g, start, goal, s, path, k);
        CachedIsExpanded(h, policy, g, start, goal, s, path[k]);
      }
    }
  }

  // ---------------------------------------------------------------------
  // The step and the driver, on the queue and cache objects
  // ---------------------------------------------------------------------

  /**
   * a_star_search_step on the queue and cache objects and the node arena.
   * The neighbours are visited in generator order; each new node is added to
   * the arena only on a cache miss.
   */
  method Step(queue: Queue, cache: Cache, arena: seq<Node>, h: Heuristic, policy: Policy, g: Grid, goal: Coord)
    returns (o: Outcome, arena': seq<Node>)
    requires queue.Valid() && cache.Valid()
    requires NodesBelow(queue.Entries(), |arena|)
    modifies queue, queue.elements, queue.priorities, cache, cache.entries
    ensures queue.Valid() && cache.Valid()
    ensures (o, State(queue.Entries(), cache.Entries(), arena')) ==
      StepSpec(h, policy, g, goal, State(old(queue.Entries()), old(cache.Entries()), arena))
  {
    ghost var s0 := State(queue.Entries(), cache.Entries(), arena);
    var d := queue.Dequeue();
    if d.None? {
      return Exhausted, arena;
    }
    var w := d.value;
    assert s0.queue[|s0.queue| - 1] in s0.queue;
    var node := arena[w];
    if IsGoal(h, node.position, goal) {
      return Solved(w), arena;
    }
    var neighbors := Successors(policy, g, node.position);
    o, arena' := ExpandNeighbors(queue, cache, arena, h, goal, w, neighbors);
  }

  /** The neighbour loop of a_star_search_step, for node w and the generator's list ns. */
  method ExpandNeighbors(queue: Queue, cache: Cache, arena: seq<Node>, h: Heuristic, goal: Coord, w: nat, ns: seq<Coord>)
    returns (o: Outcome, arena': seq<Node>)
    requires queue.Valid() && cache.Valid() && w < |arena|
    modifies queue, queue.elements, queue.priorities, cache, cache.entries
    ensures queue.Valid() && cache.Valid()
    ensures (o, State(queue.Entries(), cache.Entries(), arena')) ==
      ExpandAll(h, goal, w, ns, State(old(queue.Entries()), old(cache.Entries()), arena))
  {
    ghost var s0 := State(queue.Entries(), cache.Entries(), arena);
    arena' := arena;
    var i := 0;
    while i < |ns|
      invariant 0 <= i <= |ns|
      invariant queue.Valid() && cache.Valid()
      invariant w < |arena'|
      invariant ExpandAll(h, goal, w, ns[i..], State(queue.Entries(), cache.Entries(), arena')) ==
        ExpandAll(h, goal, w, ns, s0)
    {
      ghost var cur := State(queue.Entries(), cache.Entries(), arena');
      ExpandAllUnfold(h, goal, w, ns, i, cur);
      o, arena' := VisitNeighbor(queue, cache, arena', h, goal, w, ns[i]);
      if o != Running {
        return;
      }
      i := i + 1;
    }
    assert ns[i..] == [];
    o := Running;
  }

  lemma ExpandAllUnfold(h: Heuristic, goal: Coord, w: nat, ns: seq<Coord>, i: nat, s: State)
    requires i < |ns| && w < |s.arena|
    ensures ExpandAll(h, goal, w, ns[i..], s) ==
      var r := Visit(h, goal, w, ns[i], s);
      if r.0 != Running then r else ExpandAll(h, goal, w, ns[i + 1..], r.1)
  {
    assert ns[i..][0] == ns[i] && ns[i..][1..] == ns[i + 1..];
  }

  /** The body of the neighbour loop: build the child, look it up, and queue it on a miss. */
  method VisitNeighbor(queue: Queue, cache: Cache, arena: seq<Node>, h: Heuristic, goal: Coord, w: nat, n: Coord)
    returns (o: Outcome, arena': seq<Node>)
    requires queue.Valid() && cache.Valid() && w < |arena|
    modifies queue, queue.elements, queue.priorities, cache, cache.entries
    ensures queue.Valid() && cache.Valid()
    ensures (o, State(queue.Entries(), cache.Entries(), arena')) ==
      Visit(h, goal, w, n, State(old(queue.Entries()), old(cache.Entries()), arena))
  {
    ghost var s0 := State(queue.Entries(), cache.Entries(), arena);
    var distance := Distance(h, n, goal);
    var child := Node(n, arena[w].steps + 1, Some(w));
    var idx := |arena|;
    var r := cache.Lookup(n, idx);
    ghost var c1 := cache.Entries();
    assert queue.Entries() == s0.queue;
    VisitCases(h, goal, w, n, s0);
    arena' := arena;
    if r == Hit {
      return Running, arena';
    }
    if r == Full {
      return CacheFull, arena';
    }
    arena' := arena' + [child];
    var ok := queue.Enqueue(idx, distance + child.steps);
    assert cache.Entries() == c1;
    if !ok {
      return QueueFull, arena';
    }
    o := Running;
  }

  /** Visit spelled out by the outcome of the cache lookup. */
  lemma VisitCases(h: Heuristic, goal: Coord, w: nat, n: Coord, s: State)
    requires w < |s.arena|
    ensures var lk := Looked(s.cache, PositionId(n), |s.arena|);
      var child := Node(n, s.arena[w].steps + 1, Some(w));
      var r := Visit(h, goal, w, n, s);
      (lk.0 == Hit ==> r == (Running, s)) &&
      (lk.0 == Full ==> r == (CacheFull, s)) &&
      (lk.0 == Miss && |s.queue| == QUEUE_CAPACITY ==> r == (QueueFull, State(s.queue, lk.1, s.arena + [child]))) &&
      (lk.0 == Miss && |s.queue| != QUEUE_CAPACITY ==>
        r == (Running, State(Enqueued(s.queue, QEntry(|s.arena|, Distance(h, n, goal) + child.steps)), lk.1, s.arena + [child])))
  {
  }

  /** Where find leaves the player: the search starts here. */
  function Start(g: Grid): Coord {
    Found(g, PLAYER)
  }

  /** Where find leaves the goal: the search aims here ((0, 0) when the map has no goal tile). */
  function Goal(g: Grid): Coord {
    Found(g, GOAL)
  }

  /**
   * a_star_search: seed the queue and the cache with the start node, then
   * step until the queue runs dry or a node at the goal is dequeued. It
   * returns the outcome, the node arena and the number of steps that went on
   * (one per expanded position).
   */
  method Search(g: Grid, h: Heuristic, policy: Policy) returns (o: Outcome, arena: seq<Node>, steps: nat)
    ensures o.Exhausted? || o.Solved?
    ensures o.Solved? ==>
      o.node < |arena| && arena[o.node].position == Goal(g) &&
      var path := PathTo(arena, o.node);
      path[0] == Start(g) && path[|path| - 1] == Goal(g) && IsPath(policy, g, path) &&
      |path| == arena[o.node].steps + 1
    ensures o.Exhausted? ==>
      forall path :: IsPath(policy, g, path) && |path| > 0 && path[0] == Start(g) ==> Goal(g) !in path
    ensures steps <= CELLS
  {
    var queue, cache, start, goal;
    queue, cache, start, goal, arena := Seed(g, h, policy);
    SeededInv(h, policy, g, start, goal);
    steps := 0;
    while true
      invariant queue.Valid() && cache.Valid()
      invariant start == Start(g) && goal == Goal(g) && OnMap(start)
      invariant fresh(queue.elements) && fresh(queue.priorities) && fresh(cache.entries)
      invariant Inv(h, policy, g, start, goal, State(queue.Entries(), cache.Entries(), arena))
      invariant |cache.Entries()| <= CELLS
      invariant steps + |queue.Entries()| == |cache.Entries()|
      decreases 2 * (CELLS - |cache.Entries()|) + |queue.Entries()|
    {
      ghost var cur := State(queue.Entries(), cache.Entries(), arena);
      StepKeeps(h, policy, g, start, goal, cur);
      o, arena := Step(queue, cache, arena, h, policy, g, goal);
      ghost var next := State(queue.Entries(), cache.Entries(), arena);
      if o == Exhausted {
        ExhaustedMeansUnreachable(h, policy, g, start, goal, cur);
        return;
      }
      if o.Solved? {
        PathToValid(policy, g, start, arena, o.node);
        return;
      }
      CacheBound(next.arena, next.cache);
      steps := steps + 1;
    }
  }

  /** The set-up of a_star_search: find start and goal, queue the start node, then cache it. */
  method Seed(g: Grid, h: Heuristic, policy: Policy)
    returns (queue: Queue, cache: Cache, start: Coord, goal: Coord, arena: seq<Node>)
    ensures fresh(queue) && fresh(cache)
    ensures fresh(queue.elements) && fresh(queue.priorities) && fresh(cache.entries)
    ensures queue.Valid() && cache.Valid()
    ensures start == Start(g) && goal == Goal(g) && OnMap(start)
    ensures State(queue.Entries(), cache.Entries(), arena) == Seeded(h, start, goal)
  {
    start := FindPlayer(g);
    goal := FindGoal(g);
    arena := [Node(start, 0, None)];
    queue := SeedQueue(Distance(h, start, goal));
    cache := SeedCache(start);
  }

  /** A fresh queue holding the start node (arena index 0) alone. */
  method SeedQueue(priority: nat) returns (queue: Queue)
    ensures fresh(queue) && fresh(queue.elements) && fresh(queue.priorities)
    ensures queue.Valid() && queue.Entries() == [QEntry(0, priority)]
  {
    queue := new Queue();
    var ok := queue.Enqueue(0, priority + 0);
    assert Enqueued([], QEntry(0, priority)) == [QEntry(0, priority)];
  }

  /** A fresh cache holding the start position alone. */
  method SeedCache(start: Coord) returns (cache: Cache)
    ensures fresh(cache) && fresh(cache.entries)
    ensures cache.Valid() && cache.Entries() == [CacheEntry(PositionId(start), 0)]
  {
    cache := new Cache();
    var r := cache.Lookup(start, 0);
    assert Inserted([], CacheEntry(PositionId(start), 0)) == [CacheEntry(PositionId(start), 0)];
  }

  /** The state the loop starts from: the start node alone, queued and cached. */
  function Seeded(h: Heuristic, start: Coord, goal: Coord): State {
    State([QEntry(0, Distance(h, start, goal))], [CacheEntry(PositionId(start), 0)], [Node(start, 0, None)])
  }

  /** The seeded state satisfies the search invariant. */
  lemma SeededInv(h: Heuristic, policy: Policy, g: Grid, start: Coord, goal: Coord)
    requires OnMap(start)
    ensures Inv(h, policy, g, start, goal, Seeded(h, start, goal))
  {
    var s := Seeded(h, start, goal);
    assert 0 in QNodes(s.queue);
  }
}
