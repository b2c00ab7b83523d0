/**
 * The four distance functions the solver can use as its heuristic, and the
 * goal test built on the active one. Their bodies are written in assembly
 * elsewhere; here each is the integer metric its name describes.
 */
module Heuristics {
  import opened Grid

  datatype Heuristic = Discrete | Hamming | Manhattan | SumOfSquares

  function Max(a: int, b: int): int {
    if a > b then a else b
  }

  function Min(a: int, b: int): int {
    if a < b then a else b
  }

  /** ABSDIFF: MAX - MIN, which never goes below zero on unsigned operands. */
  function AbsDiff(a: int, b: int): (d: nat)
    ensures d == if a >= b then a - b else b - a
  {
    Max(a, b) - Min(a, b)
  }

  /** The distance computed by heuristic h between a position and a target. */
  function Distance(h: Heuristic, p: Coord, q: Coord): nat {
    match h
    case Discrete => if p == q then 0 else 1
    case Hamming => (if p.x != q.x then 1 else 0) + (if p.y != q.y then 1 else 0)
    case Manhattan => AbsDiff(p.x, q.x) + AbsDiff(p.y, q.y)
    case SumOfSquares =>
      var dx, dy := AbsDiff(p.x, q.x), AbsDiff(p.y, q.y);
      dx * dx + dy * dy
  }

  /** Every heuristic is symmetric in its two arguments. */
  lemma DistanceSymmetric(h: Heuristic, p: Coord, q: Coord)
    ensures Distance(h, p, q) == Distance(h, q, p)
  {
  }

  lemma SquareZero(d: nat)
    ensures d * d == 0 <==> d == 0
  {
    if d > 0 {
      assert d * d >= d;
    }
  }

  /** Every heuristic is zero exactly on equal positions. */
  lemma DistanceZeroIffEqual(h: Heuristic, p: Coord, q: Coord)
    ensures Distance(h, p, q) == 0 <==> p == q
  {
    if h == SumOfSquares {
      var dx, dy := AbsDiff(p.x, q.x), AbsDiff(p.y, q.y);
      SquareZero(dx);
      SquareZero(dy);
      assert dx * dx >= 0 && dy * dy >= 0;
    }
  }

  /**
   * The values the distance-map printer checks: the target (2, 2) is at
   * distance 0 from itself, and (6, 5) is at distance 1, 2, 7 and 25 under the
   * discrete, Hamming, Manhattan and sum-of-squares functions.
   */
  lemma DistanceMapExpectations()
    ensures forall h :: Distance(h, Coord(2, 2), Coord(2, 2)) == 0
    ensures Distance(Discrete, Coord(2, 2), Coord(6, 5)) == 1
    ensures Distance(Hamming, Coord(2, 2), Coord(6, 5)) == 2
    ensures Distance(Manhattan, Coord(2, 2), Coord(6, 5)) == 7
    ensures Distance(SumOfSquares, Coord(2, 2), Coord(6, 5)) == 25
  {
  }

  /** is_goal: the goal is reached when the active distance to it is zero. */
  predicate IsGoal(h: Heuristic, p: Coord, goal: Coord) {
    Distance(h, p, goal) == 0
  }

  /** Whatever heuristic is active, the goal test holds exactly at the goal. */
  lemma IsGoalAtGoalOnly(h: Heuristic, p: Coord, goal: Coord)
    ensures IsGoal(h, p, goal) <==> p == goal
  {
    DistanceZeroIffEqual(h, p, goal);
  }

  /** Manhattan distance 1 means one step along exactly one axis. */
  lemma ManhattanOne(p: Coord, q: Coord)
    ensures Distance(Manhattan, p, q) == 1 <==>
      (p.x == q.x && (p.y == q.y + 1 || q.y == p.y + 1)) ||
      (p.y == q.y && (p.x == q.x + 1 || q.x == p.x + 1))
  {
  }
}
