/**
 * Moves on the grid: the adjacency test, the legal-move test, the in-place
 * player move, and the three neighbour generators the solver can be wired to.
 * Neighbour coordinates are built with 16-bit arithmetic, so stepping left or
 * up from row or column 0 wraps to 65535, which every bounds test rejects.
 */
module Neighbors {
  import opened Grid
  import opened Heuristics

  /** is_neighbor: the two positions are one step apart along one axis. */
  predicate IsNeighbor(p: Coord, q: Coord) {
    Distance(Manhattan, p, q) == 1
  }

  /** legal_move: a single orthogonal step onto a legal position. */
  predicate LegalMove(g: Grid, player: Coord, newPosition: Coord) {
    IsNeighbor(newPosition, player) && LegalPosition(g, newPosition)
  }

  // The candidate coordinates, named as in the source (up is x - 1).
  function Left(p: Coord): Coord { Coord(p.x, Dec(p.y)) }
  function Right(p: Coord): Coord { Coord(p.x, Inc(p.y)) }
  function Up(p: Coord): Coord { Coord(Dec(p.x), p.y) }
  function Down(p: Coord): Coord { Coord(Inc(p.x), p.y) }
  function NorthEast(p: Coord): Coord { Coord(Dec(p.x), Inc(p.y)) }
  function SouthEast(p: Coord): Coord { Coord(Inc(p.x), Inc(p.y)) }
  function SouthWest(p: Coord): Coord { Coord(Inc(p.x), Dec(p.y)) }
  function NorthWest(p: Coord): Coord { Coord(Dec(p.x), Dec(p.y)) }

  function KeepIf(b: bool, c: Coord): seq<Coord> {
    if b then [c] else []
  }

  /** get_neighbors_simple: bounds only, walls are not looked at. */
  function NeighborsSimple(p: Coord): seq<Coord> {
    KeepIf(p.y != 0, Left(p)) +
    KeepIf(p.y + 1 < MAP_SIZE_Y, Right(p)) +
    KeepIf(p.x != 0, Up(p)) +
    KeepIf(p.x + 1 < MAP_SIZE_X, Down(p))
  }

  /** The candidates, in the order the generators test them. */
  function Orthogonals(p: Coord): seq<Coord> {
    [Left(p), Right(p), Up(p), Down(p)]
  }

  function Diagonals(p: Coord): seq<Coord> {
    [NorthEast(p), SouthEast(p), SouthWest(p), NorthWest(p)]
  }

  /** The candidates that pass legal_position, in their original order. */
  function KeepLegal(g: Grid, s: seq<Coord>): seq<Coord> {
    if s == [] then []
    else KeepIf(LegalPosition(g, s[0]), s[0]) + KeepLegal(g, s[1..])
  }

  /** get_legal_neighbors_4: left, right, up, down, each kept when legal. */
  function LegalNeighbors4(g: Grid, p: Coord): seq<Coord> {
    KeepLegal(g, Orthogonals(p))
  }

  /** get_legal_neighbors_8: the four above, then the legal diagonals ne, se, sw, nw. */
  function LegalNeighbors8(g: Grid, p: Coord): seq<Coord> {
    LegalNeighbors4(g, p) + KeepLegal(g, Diagonals(p))
  }

  /** The generator the solver's function pointer designates. */
  datatype Policy = Simple | Legal4 | Legal8

  function Successors(policy: Policy, g: Grid, p: Coord): seq<Coord> {
    match policy
    case Simple => NeighborsSimple(p)
    case Legal4 => LegalNeighbors4(g, p)
    case Legal8 => LegalNeighbors8(g, p)
  }

  /** One king move: both coordinates change by at most one, and not both by zero. */
  predicate KingStep(p: Coord, q: Coord) {
    p != q && AbsDiff(p.x, q.x) <= 1 && AbsDiff(p.y, q.y) <= 1
  }

  predicate Distinct(s: seq<Coord>) {
    forall i, j :: 0 <= i < j < |s| ==> s[i] != s[j]
  }

  /** The neighbour relation each policy is meant to enumerate. */
  predicate Adjacent(policy: Policy, g: Grid, p: Coord, q: Coord) {
    match policy
    case Simple => OnMap(q) && IsNeighbor(q, p)
    case Legal4 => LegalPosition(g, q) && IsNeighbor(q, p)
    case Legal8 => LegalPosition(g, q) && KingStep(q, p)
  }

  /** Away from the 16-bit edge, neither Dec nor Inc wraps. */
  predicate NoWrapEdge(p: Coord) {
    p.x < 0xFFFF && p.y < 0xFFFF
  }

  /** legal_position is exactly "inside both bounds and not a wall". */
  lemma LegalPositionIff(g: Grid, p: Coord)
    ensures LegalPosition(g, p) <==> OnMap(p) && TileAt(g, p) != WALL
  {
  }

  /** legal_move accepts exactly the moves legal_neighbors_4 would offer. */
  lemma LegalMoveIffOffered(g: Grid, player: Coord, q: Coord)
    requires NoWrapEdge(player)
    ensures LegalMove(g, player, q) <==> q in LegalNeighbors4(g, player)
  {
    LegalNeighbors4Exact(g, player, q);
  }

  /** A position survives the legal filter exactly when it was a candidate and is legal. */
  lemma {:induction false} InKeepLegal(g: Grid, s: seq<Coord>, q: Coord)
    ensures q in KeepLegal(g, s) <==> q in s && LegalPosition(g, q)
  {
    if s != [] {
      InKeepLegal(g, s[1..], q);
      assert s == [s[0]] + s[1..];
    }
  }

  /** The legal filter never lengthens and never duplicates. */
  lemma {:induction false} KeepLegalShape(g: Grid, s: seq<Coord>)
    ensures |KeepLegal(g, s)| <= |s|
    ensures Distinct(s) ==> Distinct(KeepLegal(g, s))
  {
    if s != [] {
      KeepLegalShape(g, s[1..]);
      if Distinct(s) {
        assert Distinct(s[1..]) by {
          forall i, j | 0 <= i < j < |s[1..]| ensures s[1..][i] != s[1..][j] {
            assert s[1..][i] == s[i + 1] && s[1..][j] == s[j + 1];
          }
        }
        InKeepLegal(g, s[1..], s[0]);
        assert s[0] !in s[1..];
        DistinctConcat(KeepIf(LegalPosition(g, s[0]), s[0]), KeepLegal(g, s[1..]));
      }
    }
  }

  lemma DistinctConcat(a: seq<Coord>, b: seq<Coord>)
    requires Distinct(a) && Distinct(b)
    requires forall c :: c in a ==> c !in b
    ensures Distinct(a + b)
  {
    forall i, j | 0 <= i < j < |a + b| ensures (a + b)[i] != (a + b)[j] {
      if j < |a| {
      } else if i >= |a| {
        assert (a + b)[i] == b[i - |a|] && (a + b)[j] == b[j - |a|];
      } else {
        assert (a + b)[i] in a && (a + b)[j] == b[j - |a|];
      }
    }
  }

  /** The eight candidates are pairwise different: orthogonal ones move one coordinate, diagonal ones both. */
  lemma CandidatesDistinct(p: Coord)
    ensures Distinct(Orthogonals(p)) && Distinct(Diagonals(p))
    ensures forall c :: c in Orthogonals(p) ==> c !in Diagonals(p)
  {
  }

  /**
   * get_legal_neighbors_4 offers a position exactly when it is legal and one
   * orthogonal step away (away from the 16-bit edge, where Inc would wrap).
   */
  lemma LegalNeighbors4Exact(g: Grid, p: Coord, q: Coord)
    requires NoWrapEdge(p)
    ensures q in LegalNeighbors4(g, p) <==> LegalPosition(g, q) && IsNeighbor(q, p)
  {
    InKeepLegal(g, Orthogonals(p), q);
    ManhattanOne(q, p);
  }

  /** get_legal_neighbors_8 offers a position exactly when it is legal and one king move away. */
  lemma LegalNeighbors8Exact(g: Grid, p: Coord, q: Coord)
    requires NoWrapEdge(p)
    ensures q in LegalNeighbors8(g, p) <==> LegalPosition(g, q) && KingStep(q, p)
  {
    LegalNeighbors4Exact(g, p, q);
    InKeepLegal(g, Diagonals(p), q);
    ManhattanOne(q, p);
  }

  /** From an on-map position, get_neighbors_simple offers exactly the on-map orthogonal neighbours. */
  lemma NeighborsSimpleExact(p: Coord, q: Coord)
    requires OnMap(p)
    ensures q in NeighborsSimple(p) <==> OnMap(q) && IsNeighbor(q, p)
  {
    if OnMap(q) && IsNeighbor(q, p) {
      ManhattanOne(q, p);
      if q.x == p.x && q.y + 1 == p.y {
        assert q == Left(p);
      } else if q.x == p.x {
        assert q == Right(p);
      } else if q.x + 1 == p.x {
        assert q == Up(p);
      } else {
        assert q == Down(p);
      }
    }
  }

  /** Every policy offers exactly its adjacency relation, from any on-map position. */
  lemma SuccessorsExact(policy: Policy, g: Grid, p: Coord, q: Coord)
    requires OnMap(p)
    ensures q in Successors(policy, g, p) <==> Adjacent(policy, g, p, q)
  {
    match policy
    case Simple => NeighborsSimpleExact(p, q);
    case Legal4 => LegalNeighbors4Exact(g, p, q);
    case Legal8 => LegalNeighbors8Exact(g, p, q);
  }

  /** Whatever the policy, an offered position lies on the map. */
  lemma SuccessorsOnMap(policy: Policy, g: Grid, p: Coord, q: Coord)
    requires OnMap(p)
    requires q in Successors(policy, g, p)
    ensures OnMap(q)
  {
    SuccessorsExact(policy, g, p, q);
  }

  /** The 4-neighbour generators return at most 4 distinct positions, the 8-neighbour one at most 8. */
  lemma SuccessorsBounded(policy: Policy, g: Grid, p: Coord)
    ensures |Successors(policy, g, p)| <= (if policy == Legal8 then MAX_LEGAL_NEIGHBORS else 4)
    ensures Distinct(Successors(policy, g, p))
  {
    CandidatesDistinct(p);
    KeepLegalShape(g, Orthogonals(p));
    KeepLegalShape(g, Diagonals(p));
    match policy
    case Simple =>
    case Legal4 =>
    case Legal8 =>
      forall c | c in LegalNeighbors4(g, p) ensures c !in KeepLegal(g, Diagonals(p)) {
        InKeepLegal(g, Orthogonals(p), c);
        InKeepLegal(g, Diagonals(p), c);
      }
      DistinctConcat(LegalNeighbors4(g, p), KeepLegal(g, Diagonals(p)));
  }

  /** The left and up candidates of row or column 0 wrap to 65535 and are never offered. */
  lemma WrapAtZeroRejected(g: Grid, p: Coord)
    ensures p.y == 0 ==> Left(p).y == 0xFFFF && !LegalPosition(g, Left(p))
    ensures p.x == 0 ==> Up(p).x == 0xFFFF && !LegalPosition(g, Up(p))
    ensures p.y == 0 ==> Left(p) !in LegalNeighbors4(g, p) && Left(p) !in NeighborsSimple(p)
    ensures p.x == 0 ==> Up(p) !in LegalNeighbors4(g, p) && Up(p) !in NeighborsSimple(p)
  {
    InKeepLegal(g, Orthogonals(p), Left(p));
    InKeepLegal(g, Orthogonals(p), Up(p));
  }

  /**
   * At the 16-bit edge the right candidate wraps to column 0: from the
   * off-map position (3, 65535) the generator offers (3, 0), which is not
   * adjacent. The solver never stands there, since it only visits on-map cells.
   */
  lemma RightWrapsAtEdge(g: Grid)
    requires g[3][0] != WALL
    ensures Coord(3, 0) in LegalNeighbors4(g, Coord(3, 0xFFFF))
    ensures !IsNeighbor(Coord(3, 0), Coord(3, 0xFFFF))
  {
    InKeepLegal(g, Orthogonals(Coord(3, 0xFFFF)), Coord(3, 0));
  }

  /**
   * move_player: when the move is legal the new cell receives the player and
   * the old one becomes empty; otherwise the map is untouched. The old
   * position must be on the map, since the C code writes it unchecked.
   */
  method MovePlayer(m: array2<Tile>, position: Coord, newPosition: Coord)
    requires IsMapArray(m)
    requires OnMap(position)
    modifies m
    ensures var legal := LegalMove(old(Snapshot(m)), position, newPosition);
      forall x, y :: 0 <= x < MAP_SIZE_X && 0 <= y < MAP_SIZE_Y ==>
        m[x, y] == (if legal && Coord(x, y) == newPosition then PLAYER
                    else if legal && Coord(x, y) == position then EMPTY
                    else old(m[x, y]))
  {
    var g := Snapshot(m);
    if LegalMove(g, position, newPosition) {
      m[newPosition.x, newPosition.y] := PLAYER;
      m[position.x, position.y] := EMPTY;
    }
  }
}
