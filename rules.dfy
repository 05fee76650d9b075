/**
 * The movement rules both versions of the game state share (src/state.rs, src/state/mod.rs):
 * the tentative step from the buttons, the all-or-nothing acceptance of a move, the bullet
 * step that stops at walls, and the removal of bullets no longer in flight.
 */
module Rules {
  import opened Constants
  import opened Util
  import opened Maze
  import opened Arms

  /**
   * The tentative pose after one frame of input: forward and backward move along the heading
   * the player had at the start of the frame, right and left turn by `step`. The trigonometry
   * is supplied by the caller.
   */
  function Tentative(x: real, y: real, angle: real, up: bool, down: bool, left: bool, right: bool,
                     step: real, cos: real -> real, sin: real -> real): (real, real, real)
  {
    var (x1, y1) := if up then (x + cos(angle) * step, y + -sin(angle) * step) else (x, y);
    var (x2, y2) := if down then (x1 - cos(angle) * step, y1 - -sin(angle) * step) else (x1, y1);
    var a1 := if right then angle - step else angle;
    var a2 := if left then a1 + step else a1;
    (x2, y2, a2)
  }

  /** Pressing both directions of a pair cancels: up with down leaves the position, left with right the angle. */
  lemma OppositeButtonsCancel(x: real, y: real, angle: real, up: bool, left: bool, right: bool,
                              step: real, cos: real -> real, sin: real -> real)
    ensures var t := Tentative(x, y, angle, up, up, left, right, step, cos, sin);
      t.0 == x && t.1 == y && (left == right ==> t.2 == angle)
  {
  }

  /**
   * Would the move from (prevX, prevY) to (x, y) be undone? It is when the point leaves the
   * maze (a coordinate at most 0, or its truncation past the last cell), or when it enters
   * another cell that no passage joins to the one it left.
   */
  function MoveRejected(passages: seq<Passage>, prevX: real, prevY: real, x: real, y: real): bool
  {
    var previousIndex := GetIndex(prevX, prevY, WIDTH, HEIGHT);
    var newIndex := GetIndex(x, y, WIDTH, HEIGHT);
    (x <= 0.0 || y <= 0.0 || AsUsize(x) >= WIDTH || AsUsize(y) >= HEIGHT)
      || (previousIndex != newIndex && ThereIsNoPassageHere(previousIndex, newIndex, passages))
  }

  /**
   * A move is accepted exactly when the new point is strictly inside the maze and either stays
   * in its cell or crosses into a cell a recorded passage joins to it, in either order.
   */
  lemma MoveAcceptedIff(passages: seq<Passage>, prevX: real, prevY: real, x: real, y: real)
    ensures !MoveRejected(passages, prevX, prevY, x, y) <==>
      && 0.0 < x && 0.0 < y && x.Floor < WIDTH && y.Floor < HEIGHT
      && (GetIndex(prevX, prevY, WIDTH, HEIGHT) == GetIndex(x, y, WIDTH, HEIGHT)
          || HasPassage(GetIndex(prevX, prevY, WIDTH, HEIGHT), GetIndex(x, y, WIDTH, HEIGHT), passages))
  {
  }

  /** A point strictly inside the maze. */
  predicate InMaze(x: real, y: real)
  {
    0.0 < x < WIDTH as real && 0.0 < y < HEIGHT as real
  }

  /** An accepted point lies inside the maze, in a cell of the grid. */
  lemma AcceptedInGrid(passages: seq<Passage>, prevX: real, prevY: real, x: real, y: real)
    requires !MoveRejected(passages, prevX, prevY, x, y)
    ensures InMaze(x, y)
    ensures GetIndex(x, y, WIDTH, HEIGHT) < NUM_CELLS
  {
    GetIndexInGrid(x, y, WIDTH, HEIGHT);
  }

  /** Staying in the same cell inside the maze is always accepted, whatever the passages. */
  lemma SameCellAccepted(passages: seq<Passage>, prevX: real, prevY: real, x: real, y: real)
    requires InMaze(x, y)
    requires GetIndex(prevX, prevY, WIDTH, HEIGHT) == GetIndex(x, y, WIDTH, HEIGHT)
    ensures !MoveRejected(passages, prevX, prevY, x, y)
  {
  }

  /** One frame of flight along the bullet's heading; the trigonometry is supplied by the caller. */
  function Advance(b: Bullet, cos: real -> real, sin: real -> real): (r: Bullet)
    ensures r.owner == b.owner && r.angle == b.angle && r.inflight == b.inflight
  {
    b.(x := b.x + cos(b.angle) * BULLET_SPEED, y := b.y + -sin(b.angle) * BULLET_SPEED)
  }

  /**
   * The bullet after one frame: advanced, and no longer in flight if the player rule would
   * have undone that move.
   */
  function Fly(b: Bullet, passages: seq<Passage>, cos: real -> real, sin: real -> real): (r: Bullet)
  {
    var moved := Advance(b, cos, sin);
    if MoveRejected(passages, b.x, b.y, moved.x, moved.y) then moved.(inflight := false) else moved
  }

  /** A bullet stays in flight for a frame exactly when it was and its move is one a player could make. */
  lemma FlyStopsAtWalls(b: Bullet, passages: seq<Passage>, cos: real -> real, sin: real -> real)
    ensures var r := Fly(b, passages, cos, sin);
      && r.x == b.x + cos(b.angle) * BULLET_SPEED && r.y == b.y + -sin(b.angle) * BULLET_SPEED
      && r.owner == b.owner && r.angle == b.angle
      && (r.inflight <==> b.inflight && !MoveRejected(passages, b.x, b.y, r.x, r.y))
  {
  }

  /** The bullets still in flight, in their original order (`filter(|b| b.inflight)`). */
  function InFlight(bs: seq<Bullet>): (r: seq<Bullet>)
    ensures |r| <= |bs|
    ensures forall b :: b in r <==> b in bs && b.inflight
  {
    if bs == [] then []
    else
      var rest := InFlight(bs[1..]);
      assert forall b :: b in bs <==> b == bs[0] || b in bs[1..];
      if bs[0].inflight then [bs[0]] + rest else rest
  }

  /** Filtering distributes over concatenation, so it keeps the order of the survivors. */
  lemma {:induction false} InFlightConcat(a: seq<Bullet>, b: seq<Bullet>)
    ensures InFlight(a + b) == InFlight(a) + InFlight(b)
  {
    if a == [] {
      assert a + b == b;
    } else {
      var ab := a + b;
      assert ab[0] == a[0] && ab[1..] == a[1..] + b;
      InFlightConcat(a[1..], b);
    }
  }

  /** A bullet list entirely in flight is kept whole; so filtering twice is filtering once. */
  lemma {:induction false} InFlightKeepsAllInFlight(bs: seq<Bullet>)
    requires forall i :: 0 <= i < |bs| ==> bs[i].inflight
    ensures InFlight(bs) == bs
  {
    if bs != [] {
      InFlightKeepsAllInFlight(bs[1..]);
    }
  }

  lemma InFlightIdempotent(bs: seq<Bullet>)
    ensures InFlight(InFlight(bs)) == InFlight(bs)
  {
    var r := InFlight(bs);
    forall i | 0 <= i < |r| ensures r[i].inflight {
      assert r[i] in r;
    }
    InFlightKeepsAllInFlight(r);
  }

  /** Every bullet in the map of `Fly` over a list. */
  function FlyAll(bs: seq<Bullet>, passages: seq<Passage>, cos: real -> real, sin: real -> real): (r: seq<Bullet>)
    ensures |r| == |bs| && forall i :: 0 <= i < |bs| ==> r[i] == Fly(bs[i], passages, cos, sin)
  {
    if bs == [] then [] else [Fly(bs[0], passages, cos, sin)] + FlyAll(bs[1..], passages, cos, sin)
  }
}
