/** The apple: a position, the pen size its pickup test reads and an
    `is_eaten` flag that is written but never consulted by the game. */
module AppleModel {
  import opened Collisions

  /** Pen size of the apple; the pickup radius is twice this. */
  const ApplePen := 10
  /** Distance kept between a new apple and every wall. */
  const GapAlign := 50
  /** Width and height `show_up_apple` assumes when it is given none. */
  const DefaultBoundary := 150

  /** Python's `int(n / 2)`: half of `n`, truncated toward zero. */
  function TruncHalf(n: int): (r: int)
    ensures Abs(2 * r) <= Abs(n) < Abs(2 * r) + 2
    ensures r > 0 ==> n > 0
    ensures r < 0 ==> n < 0
  {
    if n >= 0 then n / 2 else -((-n) / 2)
  }

  /** The points `show_up_apple(w, h)` can draw with `random.randint`: the
      window's half-extents, each reduced by `GapAlign`, bounds included. */
  predicate InSpawnArea(w: int, h: int, p: Pos)
  {
    -TruncHalf(w) + GapAlign <= p.x <= TruncHalf(w) - GapAlign &&
    -TruncHalf(h) + GapAlign <= p.y <= TruncHalf(h) - GapAlign
  }

  /** An apple at `p` as the pickup test sees it. */
  function AppleAt(p: Pos): Body
  {
    Body(p, ApplePen)
  }

  class Apple {
    var pos: Pos
    var isEaten: bool

    /** A new apple is placed with the default boundary and is not eaten;
        `p` stands for the two random draws. */
    constructor (p: Pos)
      requires InSpawnArea(DefaultBoundary, DefaultBoundary, p)
      ensures pos == p && !isEaten
    {
      pos := p;
      isEaten := false;
    }

    /** The apple as the pickup test sees it. */
    function AsBody(): Body
      reads this
    {
      AppleAt(pos)
    }

    /** `show_up_apple(w, h)`: `p` stands for the two draws of
        `random.randint`, which only return points of the spawn area. */
    method ShowUp(w: int, h: int, p: Pos)
      requires InSpawnArea(w, h, p)
      modifies this`pos
      ensures pos == p && InSpawnArea(w, h, pos)
    {
      pos := p;
    }

    method SetIsEaten(v: bool)
      modifies this`isEaten
      ensures isEaten == v
    {
      isEaten := v;
    }
  }

  /** A spawn area has points only in a window at least `2 * GapAlign` wide
      and high, and each of its points keeps `GapAlign` away from the
      window's edges. */
  lemma SpawnMargin(w: int, h: int, p: Pos)
    requires InSpawnArea(w, h, p)
    ensures w >= 2 * GapAlign && h >= 2 * GapAlign
    ensures 2 * Abs(p.x) <= w - 2 * GapAlign
    ensures 2 * Abs(p.y) <= h - 2 * GapAlign
  {
    var hw, hh := TruncHalf(w), TruncHalf(h);
    assert hw >= GapAlign && hh >= GapAlign;
  }
}
