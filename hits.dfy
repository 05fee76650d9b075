/**
 * Hit detection for bullets in the four-player game of src/state.rs: which players a bullet
 * strikes in the frame it moves, and what a frame of flight does to the bullet list.
 */
module Hits {
  import opened Constants
  import opened Util
  import opened Maze
  import opened Arms
  import opened Rules

  /**
   * The inputs of the collision window: the bullet's position, the target's pose and the
   * shooter's position. The window itself (cosine, `atan2`, distance and the player width) is
   * supplied by the caller as a predicate on these.
   */
  datatype Contact = Contact(bulletX: real, bulletY: real, targetX: real, targetY: real,
                             targetAngle: real, shooterX: real, shooterY: real)

  /** The players' poses, one entry per player. */
  datatype Poses = Poses(x: seq<real>, y: seq<real>, angle: seq<real>)

  predicate PosesOk(ps: Poses)
  {
    |ps.x| == NUM_PLAYERS && |ps.y| == NUM_PLAYERS && |ps.angle| == NUM_PLAYERS
  }

  /**
   * Does bullet `b`, after its move, strike player `p`? Only a bullet still in flight strikes,
   * never its owner, and only a player in the cell the bullet has just entered.
   */
  predicate Strikes(b: Bullet, p: nat, poses: Poses, strike: Contact -> bool)
    requires PosesOk(poses) && p < NUM_PLAYERS && b.owner < NUM_PLAYERS
  {
    && b.inflight
    && p != b.owner
    && GetIndex(poses.x[p], poses.y[p], WIDTH, HEIGHT) == GetIndex(b.x, b.y, WIDTH, HEIGHT)
    && strike(Contact(b.x, b.y, poses.x[p], poses.y[p], poses.angle[p], poses.x[b.owner], poses.y[b.owner]))
  }

  /** Does the moved bullet strike any player? */
  predicate StrikesAny(b: Bullet, poses: Poses, strike: Contact -> bool)
    requires PosesOk(poses) && b.owner < NUM_PLAYERS
  {
    exists p: nat :: p < NUM_PLAYERS && Strikes(b, p, poses, strike)
  }

  /**
   * One frame for one bullet: it flies, stopping at walls, and if it is still in flight it
   * stops in any player it strikes. The player loop does not look at `inflight` again, so one
   * bullet may strike several players in the same frame.
   */
  function StepBullet(b: Bullet, passages: seq<Passage>, cos: real -> real, sin: real -> real,
                      poses: Poses, strike: Contact -> bool): (r: Bullet)
    requires PosesOk(poses) && b.owner < NUM_PLAYERS
    ensures r.owner == b.owner
  {
    var f := Fly(b, passages, cos, sin);
    if StrikesAny(f, poses, strike) then f.(inflight := false) else f
  }

  /** `StepBullet` applied to every bullet of a list, in order. */
  function StepAll(bs: seq<Bullet>, passages: seq<Passage>, cos: real -> real, sin: real -> real,
                   poses: Poses, strike: Contact -> bool): (r: seq<Bullet>)
    requires PosesOk(poses) && forall i :: 0 <= i < |bs| ==> bs[i].owner < NUM_PLAYERS
    ensures |r| == |bs| && forall i :: 0 <= i < |bs| ==> r[i] == StepBullet(bs[i], passages, cos, sin, poses, strike)
  {
    if bs == [] then []
    else
      StepAll(bs[..|bs| - 1], passages, cos, sin, poses, strike)
        + [StepBullet(bs[|bs| - 1], passages, cos, sin, poses, strike)]
  }

  /** How many bullets of the list strike player `p` in this frame. */
  function HitCount(bs: seq<Bullet>, p: nat, passages: seq<Passage>, cos: real -> real, sin: real -> real,
                    poses: Poses, strike: Contact -> bool): nat
    requires PosesOk(poses) && p < NUM_PLAYERS && forall i :: 0 <= i < |bs| ==> bs[i].owner < NUM_PLAYERS
  {
    if bs == [] then 0
    else
      HitCount(bs[..|bs| - 1], p, passages, cos, sin, poses, strike)
        + (if Strikes(Fly(bs[|bs| - 1], passages, cos, sin), p, poses, strike) then 1 else 0)
  }

  /** How many bullets of the list belong to player `p`. */
  function CountOwned(bs: seq<Bullet>, p: nat): nat
  {
    if bs == [] then 0 else CountOwned(bs[..|bs| - 1], p) + (if bs[|bs| - 1].owner == p then 1 else 0)
  }

  /** A bullet never strikes its owner. */
  lemma OwnerNeverStruck(b: Bullet, poses: Poses, strike: Contact -> bool)
    requires PosesOk(poses) && b.owner < NUM_PLAYERS
    ensures !Strikes(b, b.owner, poses, strike)
  {
  }

  /** A player loses at most one life per bullet of the other players, and none to their own bullets. */
  lemma {:induction false} HitsOnlyFromOthers(bs: seq<Bullet>, p: nat, passages: seq<Passage>, cos: real -> real,
                                              sin: real -> real, poses: Poses, strike: Contact -> bool)
    requires PosesOk(poses) && p < NUM_PLAYERS && forall i :: 0 <= i < |bs| ==> bs[i].owner < NUM_PLAYERS
    ensures HitCount(bs, p, passages, cos, sin, poses, strike) + CountOwned(bs, p) <= |bs|
  {
    if bs != [] {
      HitsOnlyFromOthers(bs[..|bs| - 1], p, passages, cos, sin, poses, strike);
    }
  }

  /** A stopped bullet… is one that hit a wall, left the maze, or struck a player. */
  lemma StepBulletStops(b: Bullet, passages: seq<Passage>, cos: real -> real, sin: real -> real,
                        poses: Poses, strike: Contact -> bool)
    requires PosesOk(poses) && b.owner < NUM_PLAYERS
    ensures var f := Fly(b, passages, cos, sin);
      StepBullet(b, passages, cos, sin, poses, strike).inflight <==>
        b.inflight && !MoveRejected(passages, b.x, b.y, f.x, f.y) && !StrikesAny(f, poses, strike)
  {
    FlyStopsAtWalls(b, passages, cos, sin);
  }

  /** Filtering a stepped list never adds bullets of a player. */
  lemma {:induction false} CountOwnedInFlight(bs: seq<Bullet>, p: nat)
    ensures CountOwned(InFlight(bs), p) <= CountOwned(bs, p)
  {
    if bs != [] {
      var init, last := bs[..|bs| - 1], bs[|bs| - 1];
      assert bs == init + [last];
      InFlightConcat(init, [last]);
      CountOwnedInFlight(init, p);
      CountOwnedConcat(InFlight(init), InFlight([last]), p);
      assert InFlight([last]) == if last.inflight then [last] else [] by {
        assert [last][1..] == [];
      }
    }
  }

  lemma {:induction false} CountOwnedConcat(a: seq<Bullet>, b: seq<Bullet>, p: nat)
    ensures CountOwned(a + b, p) == CountOwned(a, p) + CountOwned(b, p)
  {
    if b != [] {
      assert (a + b)[..|a + b| - 1] == a + b[..|b| - 1];
      CountOwnedConcat(a, b[..|b| - 1], p);
    } else {
      assert a + b == a;
    }
  }

  /** Stepping keeps every bullet's owner, so each player owns as many bullets as before. */
  lemma {:induction false} CountOwnedStepAll(bs: seq<Bullet>, p: nat, passages: seq<Passage>, cos: real -> real,
                                             sin: real -> real, poses: Poses, strike: Contact -> bool)
    requires PosesOk(poses) && forall i :: 0 <= i < |bs| ==> bs[i].owner < NUM_PLAYERS
    ensures CountOwned(StepAll(bs, passages, cos, sin, poses, strike), p) == CountOwned(bs, p)
  {
    if bs != [] {
      var r := StepAll(bs, passages, cos, sin, poses, strike);
      CountOwnedStepAll(bs[..|bs| - 1], p, passages, cos, sin, poses, strike);
      assert r[..|r| - 1] == StepAll(bs[..|bs| - 1], passages, cos, sin, poses, strike);
    }
  }

  /**
   * What the bullet list of a frame always satisfies: at most NUM_BULLETS bullets, each owned
   * by a player, in flight and strictly inside the maze.
   */
  predicate BulletsOk(bs: seq<Bullet>)
  {
    |bs| <= NUM_BULLETS
      && forall i :: 0 <= i < |bs| ==> bs[i].owner < NUM_PLAYERS && bs[i].inflight && InMaze(bs[i].x, bs[i].y)
  }

  /** A frame of flight followed by the filter keeps the bullet list well formed. */
  lemma SurvivorsOk(bs: seq<Bullet>, passages: seq<Passage>, cos: real -> real, sin: real -> real,
                    poses: Poses, strike: Contact -> bool)
    requires PosesOk(poses) && BulletsOk(bs)
    ensures BulletsOk(InFlight(StepAll(bs, passages, cos, sin, poses, strike)))
  {
    var stepped := StepAll(bs, passages, cos, sin, poses, strike);
    var r := InFlight(stepped);
    forall i | 0 <= i < |r| ensures r[i].owner < NUM_PLAYERS && r[i].inflight && InMaze(r[i].x, r[i].y) {
      assert r[i] in r;
      var j :| 0 <= j < |stepped| && stepped[j] == r[i];
      StepBulletStops(bs[j], passages, cos, sin, poses, strike);
      FlyStopsAtWalls(bs[j], passages, cos, sin);
      var f := Fly(bs[j], passages, cos, sin);
      AcceptedInGrid(passages, bs[j].x, bs[j].y, f.x, f.y);
    }
  }
}
