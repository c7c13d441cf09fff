/** The snake: an ordered body of segment positions (index 0 is the head),
    the head's heading and the `moving` flag that collisions clear. */
module SnakeModel {
  import opened Collisions

  /** Pen size given to the head; the collision tests use it as its size. */
  const HeadPen := 10
  /** Turtle's default pen size, kept by every segment but the head. */
  const DefaultPen := 1
  /** Number of segments a new snake is built with. */
  const InitialLength := 3

  /** Segment `k` of `body` as the collision tests see it: the head carries
      `HeadPen`, every other segment `DefaultPen`. */
  function SegmentAt(body: seq<Pos>, k: nat): Body
    requires k < |body|
  {
    Body(body[k], if k == 0 then HeadPen else DefaultPen)
  }

  /** The body after one move: every segment takes the place its
      predecessor held, and the head steps forward along `h`. */
  function Advance(body: seq<Pos>, h: Heading): (r: seq<Pos>)
    requires |body| >= 1
    ensures |r| == |body|
    ensures r[0] == Forward(body[0], h, SnakeSteps)
    ensures forall i :: 1 <= i < |r| ==> r[i] == body[i - 1]
  {
    [Forward(body[0], h, SnakeSteps)] + body[..|body| - 1]
  }

  /** The body with one segment appended `GapBetweenCells` west of its tail,
      whatever way the tail happens to be going. */
  function Grown(body: seq<Pos>): seq<Pos>
    requires |body| >= 1
  {
    var tail := body[|body| - 1];
    body + [Pos(tail.x - GapBetweenCells, tail.y)]
  }

  /** `add_segment_2_tail(x, y)`: the first segment goes to (x, y), every
      later one behind the tail. */
  function AddedToTail(body: seq<Pos>, x: int, y: int): seq<Pos>
  {
    if |body| == 0 then [Pos(x, y)] else Grown(body)
  }

  /** The body after `n` segments are added to an empty snake at the origin:
      a straight line going west from the origin. */
  function Formation(n: nat): (r: seq<Pos>)
    ensures |r| == n
    ensures forall k :: 0 <= k < n ==> r[k] == Pos(-GapBetweenCells * k, 0)
  {
    if n == 0 then [] else AddedToTail(Formation(n - 1), 0, 0)
  }

  /** The heading after a request to turn to `req`: an exact reversal is
      refused, anything else is taken. */
  function Turned(h: Heading, req: Heading): Heading
  {
    if h == Opposite(req) then h else req
  }

  /** The body after `n` moves without turning. */
  function Moves(body: seq<Pos>, h: Heading, n: nat): (r: seq<Pos>)
    requires |body| >= 1
    ensures |r| == |body|
  {
    if n == 0 then body else Advance(Moves(body, h, n - 1), h)
  }

  class Snake {
    var body: seq<Pos>
    var heading: Heading
    var moving: bool

    /** A snake always has at least its initial segments. */
    ghost predicate Valid()
      reads this
    {
      |body| >= InitialLength
    }

    /** The head as the collision tests see it. */
    function Head(): Body
      reads this
      requires |body| > 0
    {
      SegmentAt(body, 0)
    }

    /** Segment `k` as the collision tests see it. */
    function Segment(k: nat): Body
      reads this
      requires k < |body|
    {
      SegmentAt(body, k)
    }

    constructor ()
      ensures Valid()
      ensures body == Formation(InitialLength)
      ensures body == [Pos(0, 0), Pos(-20, 0), Pos(-40, 0)]
      ensures Head() == Body(Pos(0, 0), 10)
      ensures heading == East && moving
    {
      body := [];
      heading := East;
      new;
      var i := 0;
      while i < InitialLength
        invariant 0 <= i <= InitialLength
        invariant body == Formation(i) && heading == East
      {
        AddSegmentToTail(0, 0);
        i := i + 1;
      }
      moving := true;
    }

    method SetMoving(v: bool)
      modifies this`moving
      ensures moving == v
    {
      moving := v;
    }

    /** Follow-the-leader shift, from the tail towards the head so that each
        segment reads its predecessor before that one is overwritten; then
        the head steps forward. Nothing happens once `moving` is false. */
    method Move()
      requires Valid()
      modifies this`body
      ensures Valid()
      ensures old(moving) ==> body == Advance(old(body), heading)
      ensures !old(moving) ==> body == old(body)
    {
      if moving {
        var segment := |body| - 1;
        while segment > 0
          invariant 0 <= segment < |body|
          invariant |body| == |old(body)|
          invariant forall k :: 0 <= k <= segment ==> body[k] == old(body)[k]
          invariant forall k :: segment < k < |body| ==> body[k] == old(body)[k - 1]
        {
          body := body[segment := body[segment - 1]];
          segment := segment - 1;
        }
        body := body[0 := Forward(body[0], heading, SnakeSteps)];
      }
    }

    method AddSegmentToTail(x: int, y: int)
      modifies this`body
      ensures body == AddedToTail(old(body), x, y)
      ensures |body| == |old(body)| + 1 && body[..|old(body)|] == old(body)
    {
      if |body| == 0 {
        body := body + [Pos(x, y)];
      } else {
        var last := body[|body| - 1];
        body := body + [Pos(last.x - GapBetweenCells, last.y)];
      }
    }

    method TurnNorth()
      modifies this`heading
      ensures heading == Turned(old(heading), North)
    {
      if Angle(heading) != 270 {
        heading := North;
      }
    }

    method TurnSouth()
      modifies this`heading
      ensures heading == Turned(old(heading), South)
    {
      if Angle(heading) != 90 {
        heading := South;
      }
    }

    method TurnWest()
      modifies this`heading
      ensures heading == Turned(old(heading), West)
    {
      if Angle(heading) != 0 {
        heading := West;
      }
    }

    method TurnEast()
      modifies this`heading
      ensures heading == Turned(old(heading), East)
    {
      if Angle(heading) != 180 {
        heading := East;
      }
    }
  }

  /** A turn never points the head back the way it came, and it is refused
      exactly when it asks for a reversal. */
  lemma TurnNeverReverses(h: Heading, req: Heading)
    ensures Turned(h, req) != Opposite(h)
    ensures Turned(h, req) == req <==> req != Opposite(h)
    ensures Turned(h, req) != req ==> Turned(h, req) == h
  {
  }

  /** Growing keeps every segment and puts the new tail `GapBetweenCells`
      west of the old one. */
  lemma GrowthAppendsWestOfTail(body: seq<Pos>)
    requires |body| >= 1
    ensures |Grown(body)| == |body| + 1
    ensures Grown(body)[..|body|] == body
    ensures Grown(body)[|body|] == Pos(body[|body| - 1].x - GapBetweenCells, body[|body| - 1].y)
  {
  }

  /** After `n` moves along one heading the head is `n` steps further on,
      the first `n` segments lie on the head's path, one step apart, and the
      rest have moved `n` places down the body. */
  lemma {:induction false} MovesFollowHead(body: seq<Pos>, h: Heading, n: nat)
    requires |body| >= 1
    ensures Moves(body, h, n)[0] == Forward(body[0], h, n * SnakeSteps)
    ensures forall i :: 1 <= i < |body| && i <= n ==>
              Moves(body, h, n)[i] == Forward(body[0], h, (n - i) * SnakeSteps)
    ensures forall i :: n < i < |body| ==> Moves(body, h, n)[i] == body[i - n]
  {
    if n == 0 {
      assert Forward(body[0], h, 0) == body[0];
    } else {
      MovesFollowHead(body, h, n - 1);
      var m := Moves(body, h, n - 1);
      assert Moves(body, h, n) == Advance(m, h);
      ForwardAdds(body[0], h, (n - 1) * SnakeSteps, SnakeSteps);
      forall i | 1 <= i < |body| && i <= n
        ensures Moves(body, h, n)[i] == Forward(body[0], h, (n - i) * SnakeSteps)
      {
        assert Moves(body, h, n)[i] == m[i - 1];
      }
      forall i | n < i < |body|
        ensures Moves(body, h, n)[i] == body[i - n]
      {
        assert Moves(body, h, n)[i] == m[i - 1];
      }
    }
  }
}
