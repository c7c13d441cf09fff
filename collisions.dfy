/** Positions, headings and the two collision tests every object of the game
    is checked with. Turtle works on floating-point coordinates; this model
    works on integer ones, which is exact for the game's step sizes. */
module Collisions {

  /** A point of the arena; the origin is its centre. */
  datatype Pos = Pos(x: int, y: int)

  /** The four headings the game ever gives the snake's head. */
  datatype Heading = East | North | West | South

  /** What a collision test reads of a turtle: where it is and its pen size. */
  datatype Body = Body(pos: Pos, pen: int)

  /** Distance between a segment and the one appended behind it. */
  const GapBetweenCells := 20
  /** Distance the head travels on one tick. */
  const SnakeSteps := 25

  /** Turtle's heading in degrees (a new turtle faces 0, i.e. East). */
  function Angle(h: Heading): (deg: int)
    ensures 0 <= deg < 360 && deg % 90 == 0
  {
    match h
    case East => 0
    case North => 90
    case West => 180
    case South => 270
  }

  /** The heading that points the other way. */
  function Opposite(h: Heading): (r: Heading)
    ensures Angle(r) == (Angle(h) + 180) % 360
    ensures r != h
  {
    match h
    case East => West
    case North => South
    case West => East
    case South => North
  }

  /** Where a turtle at `p` facing `h` ends up after `forward(d)`. */
  function Forward(p: Pos, h: Heading, d: int): Pos
  {
    match h
    case East => Pos(p.x + d, p.y)
    case North => Pos(p.x, p.y + d)
    case West => Pos(p.x - d, p.y)
    case South => Pos(p.x, p.y - d)
  }

  function Abs(n: int): int
  {
    if n < 0 then -n else n
  }

  function SqDist(a: Pos, b: Pos): int
  {
    (a.x - b.x) * (a.x - b.x) + (a.y - b.y) * (a.y - b.y)
  }

  /** `check_collisions_2_obj`: twice the distance along each axis is less
      than the sum of the two pen sizes. */
  predicate Overlaps(a: Body, b: Body)
  {
    2 * Abs(a.pos.x - b.pos.x) < a.pen + b.pen &&
    2 * Abs(a.pos.y - b.pos.y) < a.pen + b.pen
  }

  /** `check_collisions_2_obj_food`: the distance from `a` to `b` is less than
      twice `b`'s pen size. A distance is never negative, so the test is
      false for a pen size that is not positive; otherwise it is the squared
      comparison below. */
  predicate Near(a: Body, b: Body)
  {
    0 < b.pen && SqDist(a.pos, b.pos) < 4 * b.pen * b.pen
  }

  /** Two steps along one heading add up. */
  lemma ForwardAdds(p: Pos, h: Heading, d: int, e: int)
    ensures Forward(Forward(p, h, d), h, e) == Forward(p, h, d + e)
  {
  }

  /** Stepping back along the opposite heading undoes a step. */
  lemma ForwardThenBack(p: Pos, h: Heading, d: int)
    ensures Forward(Forward(p, h, d), Opposite(h), d) == p
  {
  }

  /** The box test does not depend on which object comes first. */
  lemma OverlapsSymmetric(a: Body, b: Body)
    ensures Overlaps(a, b) <==> Overlaps(b, a)
  {
  }

  /** Two objects at the same place overlap exactly when their pens add up
      to something positive. */
  lemma SamePlaceOverlaps(a: Body, b: Body)
    requires a.pos == b.pos
    ensures Overlaps(a, b) <==> 0 < a.pen + b.pen
  {
  }

  /** The circular food test is tighter than a box of the same reach: a hit
      lies less than twice the pen size away along each axis. */
  lemma NearInsideBox(a: Body, b: Body)
    requires Near(a, b)
    ensures Abs(a.pos.x - b.pos.x) < 2 * b.pen
    ensures Abs(a.pos.y - b.pos.y) < 2 * b.pen
  {
    var dx, dy, r := Abs(a.pos.x - b.pos.x), Abs(a.pos.y - b.pos.y), 2 * b.pen;
    assert dx * dx + dy * dy < r * r;
    if r <= dx {
      SquareMonotone(r, dx);
    }
    if r <= dy {
      SquareMonotone(r, dy);
    }
  }

  lemma SquareMonotone(a: int, b: int)
    requires 0 <= a <= b
    ensures a * a <= b * b
  {
    assert a * a <= a * b;
    assert a * b <= b * b;
  }
}
