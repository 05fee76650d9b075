/**
 * The older single-player game state of src/state/mod.rs: one player's pose, a row of
 * NUM_BULLETS ammo slots updated in place, the bullets in flight and the passages. It follows
 * the same movement, fire and reload rules as the four-player state, with two buttons that
 * fire, a rollback that restores only the position, and no hit detection.
 */
module SinglePlayer {
  import opened Constants
  import opened Util
  import opened Maze
  import opened Carve
  import opened Arms
  import opened Rules
  import opened Hits

  /** The console messages of flown bullets: one "Bullet done" for each bullet whose move is rejected. */
  function Dones(bs: seq<Bullet>, passages: seq<Passage>, cos: real -> real, sin: real -> real): (r: seq<Signal>)
    ensures |r| <= |bs| && forall i :: 0 <= i < |r| ==> r[i] == BulletDone
  {
    if bs == [] then []
    else
      var b := bs[|bs| - 1];
      var f := Advance(b, cos, sin);
      Dones(bs[..|bs| - 1], passages, cos, sin) + (if MoveRejected(passages, b.x, b.y, f.x, f.y) then [BulletDone] else [])
  }

  /**
   * For bullets all in flight, every bullet either survives the frame or yields one
   * "Bullet done": the messages count exactly the bullets the filter removes.
   */
  lemma {:induction false} DonesCountRemoved(bs: seq<Bullet>, passages: seq<Passage>, cos: real -> real, sin: real -> real)
    requires forall i :: 0 <= i < |bs| ==> bs[i].inflight
    ensures |Dones(bs, passages, cos, sin)| + |InFlight(FlyAll(bs, passages, cos, sin))| == |bs|
  {
    if bs != [] {
      var n := |bs| - 1;
      var init, b := bs[..n], bs[n];
      var f := Fly(b, passages, cos, sin);
      DonesCountRemoved(init, passages, cos, sin);
      FlyAllStep(bs, n, passages, cos, sin);
      assert bs[..n + 1] == bs;
      InFlightConcat(FlyAll(init, passages, cos, sin), [f]);
      OneBullet(b, passages, cos, sin);
      assert |Dones(bs, passages, cos, sin)| == |Dones(init, passages, cos, sin)|
        + (if MoveRejected(passages, b.x, b.y, Advance(b, cos, sin).x, Advance(b, cos, sin).y) then 1 else 0);
    }
  }

  /** A bullet in flight either survives its frame or yields a "Bullet done". */
  lemma OneBullet(b: Bullet, passages: seq<Passage>, cos: real -> real, sin: real -> real)
    requires b.inflight
    ensures var f := Advance(b, cos, sin);
      |InFlight([Fly(b, passages, cos, sin)])| + (if MoveRejected(passages, b.x, b.y, f.x, f.y) then 1 else 0) == 1
  {
    var f := Fly(b, passages, cos, sin);
    assert [f][1..] == [];
    assert InFlight([f]) == if f.inflight then [f] else [];
  }

  class State {
    var playerX: real
    var playerY: real
    var playerAngle: real
    const playerAmmo: array<Ammo>
    var bullets: seq<Bullet>
    var passages: seq<Passage>

    /**
     * The state's invariant: NUM_BULLETS slots, the player strictly inside the maze, and a
     * well-formed bullet list whose bullets all belong to the one player.
     */
    ghost predicate Valid()
      reads this
    {
      && playerAmmo.Length == NUM_BULLETS
      && InMaze(playerX, playerY)
      && BulletsOk(bullets)
      && forall i :: 0 <= i < |bullets| ==> bullets[i].owner == 0
    }

    /** `State::new`: the player in the corner cell facing along the x axis, every slot Loaded, no bullets, no maze yet. */
    constructor ()
      ensures Valid() && fresh(playerAmmo)
      ensures playerX == 0.5 && playerY == 0.5 && playerAngle == 0.0
      ensures forall k :: 0 <= k < NUM_BULLETS ==> playerAmmo[k] == Loaded
      ensures bullets == [] && passages == []
    {
      playerX, playerY, playerAngle := 0.5, 0.5, 0.0;
      playerAmmo := new Ammo[NUM_BULLETS](_ => Loaded);
      bullets := [];
      passages := [];
    }

    /**
     * `generate_maze`: the same carving from cell 0, with the choices of the fixed-seed
     * generator supplied as `shuffle`. A second call panics in the source.
     */
    method GenerateMaze(shuffle: (nat, seq<nat>) -> seq<nat>)
      requires Valid() && passages == [] && IsPermuter(shuffle)
      modifies this`passages
      ensures Valid()
      ensures |passages| == NUM_CELLS - 1 && IsTree(passages, 0, WIDTH, HEIGHT)
      ensures forall c: nat :: 0 < c < NUM_CELLS ==> Entered(passages, c)
    {
      var ok;
      passages, ok := CarveMaze(WIDTH, HEIGHT, MAX_PASSAGES, shuffle);
    }

    /**
     * `update_player`: the pose is moved in place by the buttons; a rejected move then puts
     * back only the position, so the turn of the frame is kept either way.
     */
    method UpdatePlayer(up: bool, down: bool, left: bool, right: bool, cos: real -> real, sin: real -> real)
      requires Valid()
      modifies this`playerX, this`playerY, this`playerAngle
      ensures Valid()
      ensures var t := Tentative(old(playerX), old(playerY), old(playerAngle), up, down, left, right, STEP_SIZE, cos, sin);
        && playerAngle == t.2
        && if MoveRejected(passages, old(playerX), old(playerY), t.0, t.1)
           then playerX == old(playerX) && playerY == old(playerY)
           else playerX == t.0 && playerY == t.1
    {
      var t := Tentative(playerX, playerY, playerAngle, up, down, left, right, STEP_SIZE, cos, sin);
      var previousIndex := GetIndex(playerX, playerY, WIDTH, HEIGHT);
      var newIndex := GetIndex(t.0, t.1, WIDTH, HEIGHT);
      var rejected := (t.0 <= 0.0 || t.1 <= 0.0 || AsUsize(t.0) >= WIDTH || AsUsize(t.1) >= HEIGHT)
                      || (previousIndex != newIndex && ThereIsNoPassageHere(previousIndex, newIndex, passages));
      assert rejected == MoveRejected(passages, playerX, playerY, t.0, t.1);
      if !rejected {
        AcceptedInGrid(passages, playerX, playerY, t.0, t.1);
        playerX, playerY := t.0, t.1;
      }
      playerAngle := t.2;
    }

    /**
     * `update_ammo`: either fire button spends the first Loaded slot and pushes a bullet at
     * the player's pose (refused when NUM_BULLETS are in the air); then the reload step, which
     * sounds "Loaded!" exactly when it turns a slot from `Reloading(0)` into Loaded.
     */
    method UpdateAmmo(shoot: bool, spray: bool) returns (signals: seq<Signal>)
      requires Valid()
      modifies playerAmmo, this`bullets
      ensures Valid()
      ensures var (fired0, fired) := if shoot || spray then Fire(old(playerAmmo[..])) else (old(playerAmmo[..]), false);
        && playerAmmo[..] == Reload(fired0)
        && bullets == (if fired && |old(bullets)| < NUM_BULLETS
                       then old(bullets) + [Bullet(playerX, playerY, 0, playerAngle, true)]
                       else old(bullets))
        && signals == (if fired then [ShotFired] + (if |old(bullets)| < NUM_BULLETS then [] else [MaxBullets])
                       else if shoot || spray then [EmptyClick] else [])
                      + (if JustLoaded(fired0) then [LoadedSound] else [])
    {
      signals := [];
      if shoot || spray {
        match Find(playerAmmo[..], IsLoaded) {
          case Some(k) =>
            playerAmmo[k] := Reloading(RELOAD_TIME);
            signals := Launch();
          case None =>
            signals := [EmptyClick];
        }
      }
      ghost var row := playerAmmo[..];
      match Find(playerAmmo[..], IsSpent) {
        case Some(k) =>
          match playerAmmo[k] {
            case Reloading(t) =>
              if t > 0 {
                playerAmmo[k] := Reloading(t - 1);
              } else {
                playerAmmo[k] := Loaded;
                signals := signals + [LoadedSound];
              }
            case Loaded =>
          }
        case None =>
      }
      assert playerAmmo[..] == Reload(row);
    }

    /** The push of a bullet at the player's pose, refused with a console message when the list is full. */
    method Launch() returns (signals: seq<Signal>)
      requires Valid()
      modifies this`bullets
      ensures Valid()
      ensures bullets == (if |old(bullets)| < NUM_BULLETS then old(bullets) + [Bullet(playerX, playerY, 0, playerAngle, true)] else old(bullets))
      ensures signals == [ShotFired] + (if |old(bullets)| < NUM_BULLETS then [] else [MaxBullets])
    {
      if |bullets| < NUM_BULLETS {
        bullets := bullets + [Bullet(playerX, playerY, 0, playerAngle, true)];
        signals := [ShotFired];
      } else {
        signals := [ShotFired, MaxBullets];
      }
    }

    /**
     * `update_bullets`: every bullet flies one frame in place and stops, with a "Bullet done"
     * message, when its move leaves the maze or crosses a wall; then the stopped bullets are
     * dropped. There is no collision with the player.
     */
    method UpdateBullets(cos: real -> real, sin: real -> real) returns (signals: seq<Signal>)
      requires Valid()
      modifies this`bullets
      ensures Valid()
      ensures bullets == InFlight(FlyAll(old(bullets), passages, cos, sin))
      ensures signals == Dones(old(bullets), passages, cos, sin)
    {
      ghost var bs := bullets;
      signals := FlyEach(cos, sin);
      FlownOk(bs, passages, cos, sin);
      bullets := InFlight(bullets);
    }

    /** The `for_each` of `update_bullets`: every bullet flown one frame in place, in order. */
    method FlyEach(cos: real -> real, sin: real -> real) returns (signals: seq<Signal>)
      modifies this`bullets
      ensures bullets == FlyAll(old(bullets), passages, cos, sin)
      ensures signals == Dones(old(bullets), passages, cos, sin)
    {
      ghost var bs := bullets;
      signals := [];
      var i := 0;
      while i < |bullets|
        invariant 0 <= i <= |bs| == |bullets|
        invariant bullets[..i] == FlyAll(bs[..i], passages, cos, sin) && bullets[i..] == bs[i..]
        invariant signals == Dones(bs[..i], passages, cos, sin)
      {
        var b, done := FlyBullet(bullets[i], cos, sin);
        signals := signals + done;
        FlownPrefix(bs, bullets, i, passages, cos, sin);
        bullets := bullets[i := b];
        i := i + 1;
      }
      assert bs[..i] == bs && bullets[..i] == bullets;
    }

    /** The closure `update_bullets` applies to each bullet: one frame of flight, stopping at walls with a message. */
    method FlyBullet(b: Bullet, cos: real -> real, sin: real -> real) returns (r: Bullet, signals: seq<Signal>)
      ensures r == Fly(b, passages, cos, sin)
      ensures signals == if MoveRejected(passages, b.x, b.y, r.x, r.y) then [BulletDone] else []
    {
      r := b;
      var previousIndex := GetIndex(r.x, r.y, WIDTH, HEIGHT);
      r := r.(x := r.x + cos(r.angle) * BULLET_SPEED, y := r.y + -sin(r.angle) * BULLET_SPEED);
      var newIndex := GetIndex(r.x, r.y, WIDTH, HEIGHT);
      signals := [];
      if (r.x <= 0.0 || r.y <= 0.0 || AsUsize(r.x) >= WIDTH || AsUsize(r.y) >= HEIGHT)
         || (previousIndex != newIndex && ThereIsNoPassageHere(previousIndex, newIndex, passages))
      {
        r := r.(inflight := false);
        signals := [BulletDone];
      }
    }

    /** `update`: the move, then the fire and reload step, then the bullets. */
    method Update(up: bool, down: bool, left: bool, right: bool, shoot: bool, spray: bool,
                  cos: real -> real, sin: real -> real) returns (signals: seq<Signal>)
      requires Valid()
      modifies this`playerX, this`playerY, this`playerAngle, playerAmmo, this`bullets
      ensures Valid()
      ensures passages == old(passages)
    {
      UpdatePlayer(up, down, left, right, cos, sin);
      signals := UpdateAmmo(shoot, spray);
      var done := UpdateBullets(cos, sin);
      signals := signals + done;
    }
  }

  /** The map of `Fly` over a prefix grows by the prefix's next bullet. */
  lemma FlyAllStep(bs: seq<Bullet>, i: nat, passages: seq<Passage>, cos: real -> real, sin: real -> real)
    requires i < |bs|
    ensures FlyAll(bs[..i + 1], passages, cos, sin) == FlyAll(bs[..i], passages, cos, sin) + [Fly(bs[i], passages, cos, sin)]
  {
    var a, b := FlyAll(bs[..i + 1], passages, cos, sin), FlyAll(bs[..i], passages, cos, sin) + [Fly(bs[i], passages, cos, sin)];
    assert |a| == |b|;
    forall k | 0 <= k < |a| ensures a[k] == b[k] {
      if k < i {
        assert bs[..i + 1][k] == bs[..i][k];
      }
    }
  }

  /** One more bullet of the in-place loop: the flown prefix and the messages grow by that bullet. */
  lemma FlownPrefix(bs: seq<Bullet>, current: seq<Bullet>, i: nat, passages: seq<Passage>, cos: real -> real, sin: real -> real)
    requires i < |bs| == |current|
    requires current[..i] == FlyAll(bs[..i], passages, cos, sin) && current[i..] == bs[i..]
    ensures var next := current[i := Fly(bs[i], passages, cos, sin)];
      && next[..i + 1] == FlyAll(bs[..i + 1], passages, cos, sin) && next[i + 1..] == bs[i + 1..]
    ensures var f := Advance(bs[i], cos, sin);
      Dones(bs[..i + 1], passages, cos, sin)
        == Dones(bs[..i], passages, cos, sin) + (if MoveRejected(passages, bs[i].x, bs[i].y, f.x, f.y) then [BulletDone] else [])
  {
    assert bs[..i + 1][..i] == bs[..i];
    var next := current[i := Fly(bs[i], passages, cos, sin)];
    var flown := FlyAll(bs[..i + 1], passages, cos, sin);
    forall k | 0 <= k < i + 1 ensures next[..i + 1][k] == flown[k] {
      if k < i {
        assert next[k] == current[..i][k];
      }
    }
    assert next[..i + 1] == flown;
    assert next[i + 1..] == current[i + 1..];
  }

  /** The survivors of a frame of flight are still a well-formed list of the player's bullets. */
  lemma FlownOk(bs: seq<Bullet>, passages: seq<Passage>, cos: real -> real, sin: real -> real)
    requires BulletsOk(bs) && forall i :: 0 <= i < |bs| ==> bs[i].owner == 0
    ensures var r := InFlight(FlyAll(bs, passages, cos, sin));
      BulletsOk(r) && forall i :: 0 <= i < |r| ==> r[i].owner == 0
  {
    var flown := FlyAll(bs, passages, cos, sin);
    var r := InFlight(flown);
    forall i | 0 <= i < |r| ensures r[i].owner == 0 && r[i].inflight && InMaze(r[i].x, r[i].y) {
      assert r[i] in r;
      var j :| 0 <= j < |flown| && flown[j] == r[i];
      FlyStopsAtWalls(bs[j], passages, cos, sin);
      AcceptedInGrid(passages, bs[j].x, bs[j].y, flown[j].x, flown[j].y);
    }
  }
}
