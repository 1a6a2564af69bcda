/** Grid coordinates. The source's Position class is a mutable pair compared by value;
    here it is an immutable value, and every "setX"/"setY" on it becomes a new value. */
module Positions {

  datatype Position = Position(x: int, y: int)

  /** The position `dx` columns to the right and `dy` rows further down. */
  function Offset(p: Position, dx: int, dy: int): (r: Position)
    ensures r.x - p.x == dx && r.y - p.y == dy
  {
    Position(p.x + dx, p.y + dy)
  }

  /** Two cells share an edge. */
  predicate Adjacent(p: Position, q: Position)
  {
    (p.x == q.x && (p.y - q.y == 1 || q.y - p.y == 1)) ||
    (p.y == q.y && (p.x - q.x == 1 || q.x - p.x == 1))
  }

  lemma AdjacentSymmetric(p: Position, q: Position)
    ensures Adjacent(p, q) <==> Adjacent(q, p)
  {
  }

  /** Equality of positions is equality of both coordinates (the source's equals). */
  lemma PositionEquality(a: Position, b: Position)
    ensures a == b <==> (a.x == b.x && a.y == b.y)
  {
  }
}
