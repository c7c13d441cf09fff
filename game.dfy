/** The game: one snake, one apple, the score and the running flag, and the
    tick that moves the snake and runs the wall, tail, apple and game-over
    checks in that order. */
module GameModel {
  import opened Collisions
  import opened SnakeModel
  import opened AppleModel

  /** Width and height of the window the game opens by default. */
  const DefaultWindow := 600

  /** The head is on or beyond a wall of a `w` by `h` window centred on the
      origin: `x >= w/2`, `x <= -w/2`, `y >= h/2` or `y <= -h/2`, which for
      integers is the comparison of twice the coordinate. */
  predicate OnOrBeyondWall(p: Pos, w: int, h: int)
  {
    2 * p.x >= w || 2 * p.x <= -w || 2 * p.y >= h || 2 * p.y <= -h
  }

  /** The head overlaps segment `k`. */
  predicate HitsSegment(body: seq<Pos>, k: int)
    requires 0 < k < |body|
  {
    Overlaps(SegmentAt(body, 0), SegmentAt(body, k))
  }

  /** The tail check: the head overlaps one of the segments 1 to `|body| - 2`;
      the last segment is never looked at. */
  predicate HitsTail(body: seq<Pos>)
  {
    exists k :: 1 <= k <= |body| - 2 && HitsSegment(body, k)
  }

  /** The apple test, between the head of `body` and an apple at `apple`. */
  predicate ReachesApple(body: seq<Pos>, apple: Pos)
    requires |body| >= 1
  {
    Near(SegmentAt(body, 0), AppleAt(apple))
  }

  /** Everything a tick reads or writes, as one value. */
  datatype World = World(
    body: seq<Pos>,
    heading: Heading,
    moving: bool,
    apple: Pos,
    appleEaten: bool,
    points: int,
    on: bool)

  /** A game just started, with its apple at `apple`. */
  function FreshWorld(apple: Pos): World
  {
    World(Formation(InitialLength), East, true, apple, false, 0, true)
  }

  /** The body after the tick's move. */
  function MovedBody(s: World): seq<Pos>
    requires |s.body| >= 1
  {
    if s.moving then Advance(s.body, s.heading) else s.body
  }

  /** One tick in a `w` by `h` window; `spawn` is where the apple goes if
      the head reaches it. */
  function TickSpec(s: World, w: int, h: int, spawn: Pos): (r: World)
    requires |s.body| >= 1
    ensures |r.body| >= |s.body|
  {
    var moved := MovedBody(s);
    var moving := s.moving && !OnOrBeyondWall(moved[0], w, h) && !HitsTail(moved);
    var eats := ReachesApple(moved, s.apple);
    World(
      if eats then Grown(moved) else moved,
      s.heading,
      moving,
      if eats then spawn else s.apple,
      s.appleEaten || eats,
      if eats then s.points + 1 else s.points,
      s.on && moving)
  }

  /** The game loop: ticks run while the game is on, tick `i` drawing
      `spawns[i]` for the apple. */
  function Run(s: World, w: int, h: int, spawns: seq<Pos>): (r: World)
    requires |s.body| >= 1
    ensures |r.body| >= |s.body|
    decreases |spawns|
  {
    if !s.on || spawns == [] then s else Run(TickSpec(s, w, h, spawns[0]), w, h, spawns[1..])
  }

  class MainGame {
    const snake: Snake
    const apple: Apple
    var gameIsOn: bool
    var gamePoints: int

    /** The snake keeps its initial segments, and the score counts the
        segments it has grown since. */
    ghost predicate Valid()
      reads this, snake
    {
      snake.Valid() && gamePoints == |snake.body| - InitialLength
    }

    ghost function State(): World
      reads this, snake, apple
    {
      World(snake.body, snake.heading, snake.moving, apple.pos, apple.isEaten, gamePoints, gameIsOn)
    }

    /** A new game; `applePos` stands for the apple's random first place. */
    constructor (applePos: Pos)
      requires InSpawnArea(DefaultBoundary, DefaultBoundary, applePos)
      ensures Valid()
      ensures State() == FreshWorld(applePos)
    {
      snake := new Snake();
      apple := new Apple(applePos);
      gameIsOn := true;
      gamePoints := 0;
    }

    method IncreaseGamePointCounter()
      modifies this`gamePoints
      ensures gamePoints == old(gamePoints) + 1
    {
      gamePoints := gamePoints + 1;
    }

    method CheckCollisionsWithWalls(w: int, h: int)
      requires snake.Valid()
      modifies snake`moving
      ensures snake.moving == (old(snake.moving) && !OnOrBeyondWall(snake.body[0], w, h))
    {
      var xCor := snake.body[0].x;
      var yCor := snake.body[0].y;
      if 2 * xCor >= w || 2 * xCor <= -w || 2 * yCor >= h || 2 * yCor <= -h {
        snake.SetMoving(false);
      }
    }

    method CheckCollisionsWithTail()
      modifies snake`moving
      ensures snake.moving == (old(snake.moving) && !HitsTail(snake.body))
    {
      var segment := 1;
      while segment < |snake.body| - 1
        invariant segment == 1 || 1 <= segment <= |snake.body| - 1
        invariant snake.moving ==
                  (old(snake.moving) && !exists k :: 1 <= k < segment && HitsSegment(snake.body, k))
      {
        if Overlaps(snake.Head(), snake.Segment(segment)) {
          snake.SetMoving(false);
        }
        assert snake.moving == (old(snake.moving) && !(exists k :: 1 <= k < segment && HitsSegment(snake.body, k))
                                && !HitsSegment(snake.body, segment));
        segment := segment + 1;
      }
    }

    method CheckCollisionWithApple(w: int, h: int, spawn: Pos)
      requires Valid()
      requires ReachesApple(snake.body, apple.pos) ==> InSpawnArea(w, h, spawn)
      modifies this`gamePoints, snake`body, apple
      ensures Valid()
      ensures var eats := ReachesApple(old(snake.body), old(apple.pos));
              snake.body == (if eats then Grown(old(snake.body)) else old(snake.body)) &&
              apple.pos == (if eats then spawn else old(apple.pos)) &&
              apple.isEaten == (old(apple.isEaten) || eats) &&
              gamePoints == (if eats then old(gamePoints) + 1 else old(gamePoints))
    {
      if Near(snake.Head(), apple.AsBody()) {
        apple.SetIsEaten(true);
        apple.ShowUp(w, h, spawn);
        IncreaseGamePointCounter();
        snake.AddSegmentToTail(0, 0);
      }
    }

    /** Ends the game once the snake has stopped; reports whether it did. */
    method CheckGameIsOver() returns (over: bool)
      modifies this`gameIsOn
      ensures over == !snake.moving
      ensures gameIsOn == (old(gameIsOn) && snake.moving)
    {
      if !snake.moving {
        gameIsOn := false;
        return true;
      }
      return false;
    }

    /** One iteration of the game loop, without the drawing. */
    method Tick(w: int, h: int, spawn: Pos)
      requires Valid()
      requires ReachesApple(MovedBody(State()), apple.pos) ==> InSpawnArea(w, h, spawn)
      modifies this, snake, apple
      ensures Valid()
      ensures State() == TickSpec(old(State()), w, h, spawn)
    {
      snake.Move();
      CheckCollisionsWithWalls(w, h);
      CheckCollisionsWithTail();
      CheckCollisionWithApple(w, h, spawn);
      var over := CheckGameIsOver();
    }
  }

  /** A tick never restarts the game or the snake, stops the game exactly
      when the snake has stopped, and keeps the score equal to the number of
      segments grown. */
  lemma TickFlags(s: World, w: int, h: int, spawn: Pos)
    requires |s.body| >= 1
    ensures TickSpec(s, w, h, spawn).moving ==> s.moving
    ensures TickSpec(s, w, h, spawn).on <==> s.on && TickSpec(s, w, h, spawn).moving
    ensures s.points == |s.body| - InitialLength ==>
              TickSpec(s, w, h, spawn).points == |TickSpec(s, w, h, spawn).body| - InitialLength
  {
  }

  /** A stopped snake keeps its head where it is. */
  lemma StoppedSnakeStays(s: World, w: int, h: int, spawn: Pos)
    requires |s.body| >= 1 && !s.moving
    ensures TickSpec(s, w, h, spawn).body[0] == s.body[0]
    ensures !TickSpec(s, w, h, spawn).on
  {
  }

  /** The game loop stops at the first tick that ends the game. */
  lemma {:induction false} RunStopsWhenOver(s: World, w: int, h: int, spawns: seq<Pos>)
    requires |s.body| >= 1
    ensures !s.on ==> Run(s, w, h, spawns) == s
    ensures Run(s, w, h, spawns).on ==> s.on && forall i :: 0 <= i <= |spawns| ==> Run(s, w, h, spawns[..i]).on
    decreases |spawns|
  {
    if s.on && spawns != [] {
      var s' := TickSpec(s, w, h, spawns[0]);
      RunStopsWhenOver(s', w, h, spawns[1..]);
      forall i | 0 <= i <= |spawns|
        ensures Run(s, w, h, spawns).on ==> Run(s, w, h, spawns[..i]).on
      {
        if i > 0 {
          assert spawns[..i][0] == spawns[0];
          assert spawns[..i][1..] == spawns[1..][..i - 1];
        }
      }
    }
  }

  /** A head placed exactly on a segment from 1 to `|body| - 2` is a hit,
      segment 1 included. */
  lemma HeadOnSegmentHits(body: seq<Pos>, k: int)
    requires 1 <= k <= |body| - 2 && body[k] == body[0]
    ensures HitsTail(body)
  {
    assert HitsSegment(body, k);
  }

  /** Where the last segment is makes no difference to the tail check. */
  lemma LastSegmentNeverTested(body: seq<Pos>, p: Pos)
    requires |body| >= 2
    ensures HitsTail(body) <==> HitsTail(body[..|body| - 1] + [p])
  {
    var other := body[..|body| - 1] + [p];
    assert other[0] == body[0];
    if HitsTail(body) {
      var k :| 1 <= k <= |body| - 2 && HitsSegment(body, k);
      assert other[k] == body[k];
      assert HitsSegment(other, k);
    }
    if HitsTail(other) {
      var k :| 1 <= k <= |other| - 2 && HitsSegment(other, k);
      assert other[k] == body[k];
      assert HitsSegment(body, k);
    }
  }

  /** Every segment behind the head lies on the head's row, at least
      `GapBetweenCells` west of it. */
  predicate TrailsWest(body: seq<Pos>)
  {
    |body| >= 1 &&
    forall k :: 1 <= k < |body| ==> body[k].y == body[0].y && body[k].x <= body[0].x - GapBetweenCells
  }

  /** A game that has run `t` ticks straight east from the start in the
      default window and is still on. */
  predicate EastLine(s: World, t: nat)
  {
    s.heading == East && s.moving && s.on && TrailsWest(s.body) &&
    s.body[0] == Pos(SnakeSteps * t, 0) &&
    2 * Abs(s.apple.x) <= DefaultWindow - 2 * GapAlign
  }

  lemma TrailsWestKept(body: seq<Pos>)
    requires TrailsWest(body)
    ensures TrailsWest(Advance(body, East))
    ensures TrailsWest(Grown(Advance(body, East)))
    ensures !HitsTail(Advance(body, East))
  {
    var moved := Advance(body, East);
    assert TrailsWest(moved) by {
      forall k | 1 <= k < |moved|
        ensures moved[k].y == moved[0].y && moved[k].x <= moved[0].x - GapBetweenCells
      {
        assert moved[k] == body[k - 1];
      }
    }
    forall k | 1 <= k <= |moved| - 2
      ensures !HitsSegment(moved, k)
    {
      assert moved[k] == body[k - 1];
    }
  }

  /** A tick before the wall: the snake stays on its line, one step further. */
  lemma EastTick(s: World, t: nat, spawn: Pos)
    requires EastLine(s, t) && t < 11
    requires InSpawnArea(DefaultWindow, DefaultWindow, spawn)
    ensures EastLine(TickSpec(s, DefaultWindow, DefaultWindow, spawn), t + 1)
  {
    TrailsWestKept(s.body);
    SpawnMargin(DefaultWindow, DefaultWindow, spawn);
  }

  /** The tick that reaches the wall ends the game with the head at x = 300
      and no apple eaten, since every apple is at least 50 units away. */
  lemma WallTick(s: World, spawn: Pos)
    requires EastLine(s, 11)
    ensures var r := TickSpec(s, DefaultWindow, DefaultWindow, spawn);
            !r.on && r.body[0] == Pos(300, 0) && r.points == s.points
  {
    var head := Advance(s.body, East)[0];
    assert head == Pos(300, 0);
    var dx := head.x - s.apple.x;
    assert dx >= 50;
    assert dx * dx >= 50 * dx >= 2500;
  }

  /** Without any turn, a snake that has run `t` ticks east reaches the wall
      of the default window after `12 - t` more ticks: the game ends there
      with the head at x = 300, it was still on one tick earlier, and that
      last tick adds no point. */
  lemma {:induction false} EastRunHitsWall(s: World, t: nat, spawns: seq<Pos>)
    requires EastLine(s, t) && t <= 11
    requires |spawns| >= 12 - t
    requires forall i :: 0 <= i < |spawns| ==> InSpawnArea(DefaultWindow, DefaultWindow, spawns[i])
    ensures var before := Run(s, DefaultWindow, DefaultWindow, spawns[..11 - t]);
            var after := Run(s, DefaultWindow, DefaultWindow, spawns);
            before.on && !after.on && after.body[0] == Pos(300, 0) && after.points == before.points
    decreases 11 - t
  {
    var s' := TickSpec(s, DefaultWindow, DefaultWindow, spawns[0]);
    if t == 11 {
      WallTick(s, spawns[0]);
      RunStopsWhenOver(s', DefaultWindow, DefaultWindow, spawns[1..]);
      assert spawns[..0] == [];
    } else {
      EastTick(s, t, spawns[0]);
      EastRunHitsWall(s', t + 1, spawns[1..]);
      assert spawns[..11 - t][0] == spawns[0];
      assert spawns[..11 - t][1..] == spawns[1..][..11 - (t + 1)];
    }
  }

  /** From a fresh game in the default window with no turns, the game ends
      on the twelfth tick with the head at x = 300, and the score it ends
      with is the score it had one tick before. */
  lemma EndToEndEast(applePos: Pos, spawns: seq<Pos>)
    requires InSpawnArea(DefaultBoundary, DefaultBoundary, applePos)
    requires |spawns| >= 12
    requires forall i :: 0 <= i < |spawns| ==> InSpawnArea(DefaultWindow, DefaultWindow, spawns[i])
    ensures var before := Run(FreshWorld(applePos), DefaultWindow, DefaultWindow, spawns[..11]);
            var after := Run(FreshWorld(applePos), DefaultWindow, DefaultWindow, spawns);
            before.on && !after.on && after.body[0] == Pos(300, 0) && after.points == before.points
  {
    SpawnMargin(DefaultBoundary, DefaultBoundary, applePos);
    EastRunHitsWall(FreshWorld(applePos), 0, spawns);
  }
}
