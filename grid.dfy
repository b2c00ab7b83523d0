/**
 * The grid of the A* path-finding solver: sizes and capacities, uint16
 * coordinates, tiles, the 8 x 10 map, map queries and the two operations
 * that write map cells.
 */
module Grid {
  import opened Wrappers

  const MAP_SIZE_X: nat := 8
  const MAP_SIZE_Y: nat := 10
  const QUEUE_CAPACITY: nat := 1024
  const CACHE_CAPACITY: nat := 2 * QUEUE_CAPACITY
  const MAX_LEGAL_NEIGHBORS: nat := 8

  /** Number of cells of a map. */
  const CELLS: nat := MAP_SIZE_X * MAP_SIZE_Y

  /** uint16_t, the type of one coordinate component. */
  type U16 = v: int | 0 <= v < 0x1_0000

  /** The value C stores when an int expression is assigned to a uint16_t field. */
  function ToU16(v: int): U16 {
    v % 0x1_0000
  }

  /** `c - 1` stored into a uint16_t: wraps from 0 to 65535. */
  function Dec(c: U16): (r: U16)
    ensures c == 0 ==> r == 0xFFFF
    ensures c > 0 ==> r == c - 1
  {
    ToU16(c - 1)
  }

  /** `c + 1` stored into a uint16_t: wraps from 65535 to 0. */
  function Inc(c: U16): (r: U16)
    ensures c == 0xFFFF ==> r == 0
    ensures c < 0xFFFF ==> r == c + 1
  {
    ToU16(c + 1)
  }

  /** Coordinates: map[x][y], x is the row, y the column. */
  datatype Coord = Coord(x: U16, y: U16)

  /** tile_t is a byte holding an ASCII character. */
  type Tile = bv8

  const PATH: Tile := 0x2A    // '*'
  const GOAL: Tile := 0x40    // '@'
  const PLAYER: Tile := 0x70  // 'p'
  const EMPTY: Tile := 0x2E   // '.'
  const WALL: Tile := 0x57    // 'W'

  predicate IsGrid(g: seq<seq<Tile>>) {
    |g| == MAP_SIZE_X && forall x :: 0 <= x < |g| ==> |g[x]| == MAP_SIZE_Y
  }

  /** map_t: MAP_SIZE_X rows of MAP_SIZE_Y tiles. */
  type Grid = g: seq<seq<Tile>> | IsGrid(g) witness seq(MAP_SIZE_X, _ => seq(MAP_SIZE_Y, _ => EMPTY))

  predicate OnMap(p: Coord) {
    p.x < MAP_SIZE_X && p.y < MAP_SIZE_Y
  }

  function TileAt(g: Grid, p: Coord): Tile
    requires OnMap(p)
  {
    g[p.x][p.y]
  }

  /** A position is legal when it is inside the map and not a wall. */
  predicate LegalPosition(g: Grid, p: Coord) {
    p.x < MAP_SIZE_X && p.y < MAP_SIZE_Y && g[p.x][p.y] != WALL
  }

  /** Row-major rank of a cell: the order in which `find` visits it. */
  function Rank(p: Coord): nat {
    p.x * MAP_SIZE_Y + p.y
  }

  /** The position key: x in the high half-word, y in the low half-word. */
  function PositionId(p: Coord): (id: nat)
    ensures id < 0x1_0000_0000
    ensures id / 0x1_0000 == p.x && id % 0x1_0000 == p.y
  {
    p.x * 0x1_0000 + p.y
  }

  /** The same key computed as the C code does, with a shift and an or on 32 bits. */
  function PositionIdBits(p: Coord): bv32 {
    ((p.x as bv32) << 16) | (p.y as bv32)
  }

  /** The shifted key splits back into the two coordinates, as PositionId does. */
  lemma PositionIdBitsDecode(p: Coord)
    ensures PositionIdBits(p) >> 16 == p.x as bv32
    ensures PositionIdBits(p) & 0xFFFF == p.y as bv32
  {
    var x, y := p.x as bv32, p.y as bv32;
    assert x < 0x1_0000 && y < 0x1_0000;
    HalfWordsDecode(x, y);
  }

  lemma HalfWordsDecode(x: bv32, y: bv32)
    requires x < 0x1_0000 && y < 0x1_0000
    ensures ((x << 16) | y) >> 16 == x
    ensures ((x << 16) | y) & 0xFFFF == y
  {
  }

  /** Two positions have the same key exactly when they are the same position. */
  lemma PositionIdInjective(p: Coord, q: Coord)
    ensures PositionId(p) == PositionId(q) <==> p == q
  {
    if PositionId(p) == PositionId(q) {
      assert p.x == PositionId(p) / 0x1_0000 == q.x;
      assert p.y == PositionId(p) % 0x1_0000 == q.y;
    }
  }

  /** Ordering keys orders positions row-major (by x, then by y). */
  lemma PositionIdOrder(p: Coord, q: Coord)
    ensures PositionId(p) < PositionId(q) <==> p.x < q.x || (p.x == q.x && p.y < q.y)
  {
  }

  lemma RankOf(x: nat, y: nat)
    requires x < MAP_SIZE_X && y < MAP_SIZE_Y
    ensures (x * MAP_SIZE_Y + y) / MAP_SIZE_Y == x && (x * MAP_SIZE_Y + y) % MAP_SIZE_Y == y
    ensures x * MAP_SIZE_Y + y < CELLS
  {
  }

  /** First cell, in row-major order from rank k on, that holds `thing`. */
  function LocateFrom(g: Grid, thing: Tile, k: nat): Option<Coord>
    requires k <= CELLS
    decreases CELLS - k
  {
    if k == CELLS then None
    else
      var c := Coord(k / MAP_SIZE_Y, k % MAP_SIZE_Y);
      if g[c.x][c.y] == thing then Some(c) else LocateFrom(g, thing, k + 1)
  }

  /** LocateFrom finds the first matching cell of rank k or more, and None means there is none. */
  lemma {:induction false} LocateFromFirst(g: Grid, thing: Tile, k: nat)
    requires k <= CELLS
    ensures var r := LocateFrom(g, thing, k);
      r.Some? ==> OnMap(r.value) && TileAt(g, r.value) == thing && k <= Rank(r.value)
    ensures var r := LocateFrom(g, thing, k);
      r.Some? ==> forall q :: OnMap(q) && k <= Rank(q) < Rank(r.value) ==> TileAt(g, q) != thing
    ensures LocateFrom(g, thing, k).None? ==> forall q :: OnMap(q) && k <= Rank(q) ==> TileAt(g, q) != thing
    decreases CELLS - k
  {
    if k < CELLS {
      var c := Coord(k / MAP_SIZE_Y, k % MAP_SIZE_Y);
      assert Rank(c) == k;
      LocateFromFirst(g, thing, k + 1);
      forall q | OnMap(q) && Rank(q) == k
        ensures q == c
      {
        RankOf(q.x, q.y);
      }
    }
  }

  lemma UnfoldLocate(g: Grid, thing: Tile, x: nat, y: nat)
    requires x < MAP_SIZE_X && y < MAP_SIZE_Y
    ensures x * MAP_SIZE_Y + y < CELLS
    ensures LocateFrom(g, thing, x * MAP_SIZE_Y + y) ==
      if g[x][y] == thing then Some(Coord(x, y)) else LocateFrom(g, thing, x * MAP_SIZE_Y + y + 1)
  {
    RankOf(x, y);
  }

  /** First cell of the map, row-major, that holds `thing`, or None. */
  function Locate(g: Grid, thing: Tile): Option<Coord> {
    LocateFrom(g, thing, 0)
  }

  /** What find hands back: the first match, or (0, 0) when there is none. */
  function Found(g: Grid, thing: Tile): Coord {
    match Locate(g, thing)
    case Some(c) => c
    case None => Coord(0, 0)
  }

  /**
   * find: scans x outer, y inner and returns the first match; when the tile
   * does not occur it returns (0, 0), which a caller cannot tell from a real
   * match at (0, 0).
   */
  method Find(g: Grid, thing: Tile) returns (r: Coord)
    ensures OnMap(r)
    ensures Locate(g, thing).Some? ==> r == Locate(g, thing).value
    ensures Locate(g, thing).None? ==> r == Coord(0, 0)
  {
    var i := 0;
    while i < MAP_SIZE_X
      invariant 0 <= i <= MAP_SIZE_X
      invariant Locate(g, thing) == LocateFrom(g, thing, i * MAP_SIZE_Y)
    {
      var j := 0;
      while j < MAP_SIZE_Y
        invariant 0 <= j <= MAP_SIZE_Y
        invariant Locate(g, thing) == LocateFrom(g, thing, i * MAP_SIZE_Y + j)
      {
        UnfoldLocate(g, thing, i, j);
        if g[i][j] == thing {
          return Coord(i, j);
        }
        j := j + 1;
      }
      assert (i + 1) * MAP_SIZE_Y == i * MAP_SIZE_Y + MAP_SIZE_Y;
      i := i + 1;
    }
    return Coord(0, 0);
  }

  method FindGoal(g: Grid) returns (r: Coord)
    ensures OnMap(r)
    ensures Locate(g, GOAL).Some? ==> r == Locate(g, GOAL).value
    ensures Locate(g, GOAL).None? ==> r == Coord(0, 0)
  {
    r := Find(g, GOAL);
  }

  method FindPlayer(g: Grid) returns (r: Coord)
    ensures OnMap(r)
    ensures Locate(g, PLAYER).Some? ==> r == Locate(g, PLAYER).value
    ensures Locate(g, PLAYER).None? ==> r == Coord(0, 0)
  {
    r := Find(g, PLAYER);
  }

  /** The map with every cell empty except (0, 0), which holds `thing`. */
  function CornerGrid(thing: Tile): Grid {
    seq(MAP_SIZE_X, x => seq(MAP_SIZE_Y, y => if x == 0 && y == 0 then thing else EMPTY))
  }

  /**
   * The default result of `find` is ambiguous: a map holding the player only
   * at (0, 0) and a map with no player at all both make `find` return (0, 0).
   */
  lemma FindDefaultIsAmbiguous()
    ensures Locate(CornerGrid(PLAYER), PLAYER) == Some(Coord(0, 0))
    ensures Locate(CornerGrid(EMPTY), PLAYER) == None
  {
    LocateFromFirst(CornerGrid(EMPTY), PLAYER, 0);
  }

  /** map_t as the C code holds it: a two-dimensional array that can be written. */
  predicate IsMapArray(m: array2<Tile>) {
    m.Length0 == MAP_SIZE_X && m.Length1 == MAP_SIZE_Y
  }

  /** The value of a map array. */
  function Snapshot(m: array2<Tile>): (g: Grid)
    requires IsMapArray(m)
    reads m
    ensures forall x, y :: 0 <= x < MAP_SIZE_X && 0 <= y < MAP_SIZE_Y ==> g[x][y] == m[x, y]
  {
    seq(MAP_SIZE_X, x reads m requires 0 <= x < MAP_SIZE_X =>
      seq(MAP_SIZE_Y, y reads m requires 0 <= y < MAP_SIZE_Y => m[x, y]))
  }

  /** place_on_map: writes `thing` at an on-map position and ignores any other. */
  method PlaceOnMap(m: array2<Tile>, p: Coord, thing: Tile)
    requires IsMapArray(m)
    modifies m
    ensures forall x, y :: 0 <= x < MAP_SIZE_X && 0 <= y < MAP_SIZE_Y ==>
      m[x, y] == if OnMap(p) && x == p.x && y == p.y then thing else old(m[x, y])
  {
    if !OnMap(p) {
      return;
    }
    m[p.x, p.y] := thing;
  }

  /** Exclusive or of two tiles. */
  function Xor(a: Tile, b: Tile): Tile {
    a ^ b
  }

  lemma XorCancel(a: Tile, b: Tile)
    ensures Xor(Xor(a, b), b) == a && Xor(a, Xor(a, b)) == b && Xor(a, a) == 0
  {
  }

  /**
   * swap_c: the three-xor swap of two tiles given by address; here the two
   * addresses are indices into one block of tiles. When both name the same
   * tile, the xor sequence clears it instead of leaving it unchanged.
   */
  method SwapXor(a: array<Tile>, i: nat, j: nat)
    requires i < a.Length && j < a.Length
    modifies a
    ensures i != j ==> a[i] == old(a[j]) && a[j] == old(a[i])
    ensures i == j ==> a[i] == 0
    ensures forall k :: 0 <= k < a.Length && k != i && k != j ==> a[k] == old(a[k])
  {
    XorCancel(a[i], a[j]);
    XorCancel(Xor(a[i], a[j]), a[i]);
    XorCancel(0, 0);
    a[i] := Xor(a[i], a[j]);
    a[j] := Xor(a[i], a[j]);
    a[i] := Xor(a[i], a[j]);
  }
}
