/** The four directions of the game and what they do to an entity's position. */
module Directions {
  import opened Geometry

  datatype Direction = Left | Up | Right | Down

  /** The `oppositeDirection` each direction is constructed with. */
  function OppositeOf(d: Direction): (r: Direction)
    ensures r != d
    ensures (r == Left || r == Right) <==> (d == Left || d == Right)
  {
    match d
    case Left => Right
    case Up => Down
    case Right => Left
    case Down => Up
  }

  /** `Direction.isOpposite`: `d`'s recorded opposite is `other`. */
  predicate IsOpposite(d: Direction, other: Direction)
    ensures IsOpposite(d, other) ==> d != other && ((d == Left || d == Right) <==> (other == Left || other == Right))
  {
    OppositeOf(d) == other
  }

  /** `applyMovement`: the position after moving `amount` cells in direction `d`. */
  function ApplyMovement(p: Point, d: Direction, amount: int): (r: Point)
    ensures d == Left || d == Right ==> r.y == p.y
    ensures d == Up || d == Down ==> r.x == p.x
    ensures (r.x - p.x) + (r.y - p.y) == if d == Right || d == Down then amount else -amount
  {
    match d
    case Left => Point(p.x - amount, p.y)
    case Up => Point(p.x, p.y - amount)
    case Right => Point(p.x + amount, p.y)
    case Down => Point(p.x, p.y + amount)
  }

  /** Two cells one step apart: they differ by one on exactly one axis. */
  predicate Adjacent(p: Point, q: Point)
  {
    (p.x == q.x && (p.y - q.y == 1 || q.y - p.y == 1))
    || (p.y == q.y && (p.x - q.x == 1 || q.x - p.x == 1))
  }

  /** Being opposite is symmetric and irreflexive, and every direction has exactly one opposite. */
  lemma IsOppositeProperties(d: Direction, e: Direction)
    ensures IsOpposite(d, e) <==> IsOpposite(e, d)
    ensures !IsOpposite(d, d)
    ensures IsOpposite(d, e) <==> e == OppositeOf(d)
    ensures OppositeOf(OppositeOf(d)) == d
  {
  }

  /** Moving in a direction and then the same amount in its opposite returns to the start. */
  lemma OppositeMovementCancels(p: Point, d: Direction, amount: int)
    ensures ApplyMovement(ApplyMovement(p, d, amount), OppositeOf(d), amount) == p
  {
  }

  /**
   * A one-cell move lands on a neighbouring cell, keeps the other coordinate,
   * and different directions land on different cells.
   */
  lemma StepIsAdjacent(p: Point, d: Direction, e: Direction)
    ensures Adjacent(p, ApplyMovement(p, d, 1))
    ensures d == Left || d == Right ==> ApplyMovement(p, d, 1).y == p.y
    ensures d == Up || d == Down ==> ApplyMovement(p, d, 1).x == p.x
    ensures ApplyMovement(p, d, 1) == ApplyMovement(p, e, 1) <==> d == e
  {
  }

  /** Every cell next to `p` is reached by exactly one direction. */
  lemma AdjacentHasDirection(p: Point, q: Point) returns (d: Direction)
    requires Adjacent(p, q)
    ensures ApplyMovement(p, d, 1) == q
  {
    if q.x == p.x - 1 { d := Left; }
    else if q.x == p.x + 1 { d := Right; }
    else if q.y == p.y - 1 { d := Up; }
    else { d := Down; }
  }
}
