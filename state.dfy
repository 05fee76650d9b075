/**
 * The four-player game state of src/state.rs: the players' poses, ammunition, lives and view
 * modes in fixed-size arrays, the bullets in flight and the maze's passages, and the per-frame
 * update that steers the three computer players, moves and arms every living player and flies
 * the bullets.
 */
module Game {
  import opened Wrappers
  import opened Constants
  import opened Util
  import opened Maze
  import opened Carve
  import opened Arms
  import opened Rules
  import opened Hits
  import opened Pathfinder
  import opened Enemy
  import opened Tree

  /** The two ways the game draws a player's screen. */
  datatype ViewMode = FirstPerson | TopDown

  /** The view after the toggle button: always the other mode. */
  function Toggled(v: ViewMode): (r: ViewMode)
    ensures r != v
  {
    match v
    case FirstPerson => TopDown
    case TopDown => FirstPerson
  }

  /** Toggling twice gives back the view one started with. */
  lemma ToggleTwice(v: ViewMode)
    ensures Toggled(Toggled(v)) == v
  {
  }

  /** Lives each player starts with. */
  const START_LIFE: int := 5

  /** The step of a frame: the computer players move at 0.65 of the first player's speed. */
  function StepFor(pidx: nat): (r: real)
    ensures 0.0 < r <= STEP_SIZE
    ensures pidx > 0 <==> r < STEP_SIZE
  {
    if pidx > 0 then STEP_SIZE * 0.65 else STEP_SIZE
  }

  /** Jitter added to a new bullet's heading from a sample in [0, 1). */
  function Jitter(sample: real): (r: real)
    ensures 0.0 <= sample < 1.0 ==> -0.05 <= r < 0.05
  {
    (sample - 0.5) / 10.0
  }

  /** The map and the hit count over a prefix both grow by the prefix's next bullet. */
  lemma BulletStep(bs: seq<Bullet>, i: nat, passages: seq<Passage>, cos: real -> real, sin: real -> real,
                   poses: Poses, strike: Contact -> bool)
    requires PosesOk(poses) && i < |bs| && forall j :: 0 <= j < |bs| ==> bs[j].owner < NUM_PLAYERS
    ensures StepAll(bs[..i + 1], passages, cos, sin, poses, strike)
      == StepAll(bs[..i], passages, cos, sin, poses, strike) + [StepBullet(bs[i], passages, cos, sin, poses, strike)]
    ensures forall p :: 0 <= p < NUM_PLAYERS ==>
      HitCount(bs[..i + 1], p, passages, cos, sin, poses, strike)
        == HitCount(bs[..i], p, passages, cos, sin, poses, strike)
           + (if Strikes(Fly(bs[i], passages, cos, sin), p, poses, strike) then 1 else 0)
  {
    assert bs[..i + 1][..i] == bs[..i];
  }

  /** One more bullet of the in-place loop: the stepped prefix grows by that bullet and the rest is untouched. */
  lemma SteppedPrefix(bs: seq<Bullet>, current: seq<Bullet>, i: nat, passages: seq<Passage>, cos: real -> real,
                      sin: real -> real, poses: Poses, strike: Contact -> bool)
    requires PosesOk(poses) && i < |bs| == |current| && forall j :: 0 <= j < |bs| ==> bs[j].owner < NUM_PLAYERS
    requires current[..i] == StepAll(bs[..i], passages, cos, sin, poses, strike) && current[i..] == bs[i..]
    ensures var next := current[i := StepBullet(bs[i], passages, cos, sin, poses, strike)];
      && next[..i + 1] == StepAll(bs[..i + 1], passages, cos, sin, poses, strike) && next[i + 1..] == bs[i + 1..]
  {
    BulletStep(bs, i, passages, cos, sin, poses, strike);
    var next := current[i := StepBullet(bs[i], passages, cos, sin, poses, strike)];
    assert next[..i + 1] == current[..i] + [next[i]];
    assert next[i + 1..] == current[i + 1..];
  }

  /** One player's entries of the state's arrays, as a value. */
  datatype Player = Player(x: real, y: real, angle: real, ammo: seq<Ammo>, view: ViewMode)

  /**
   * `update_player` on values: the tentative pose from the buttons at the player's step; the
   * new heading is always taken, and the player either stays where it was or makes a move
   * that is not rejected, so a player inside the maze stays inside. Ammo and view are kept.
   */
  function Move(pidx: nat, p: Player, up: bool, down: bool, left: bool, right: bool, passages: seq<Passage>,
                cos: real -> real, sin: real -> real): (r: Player)
    ensures r.angle == Tentative(p.x, p.y, p.angle, up, down, left, right, StepFor(pidx), cos, sin).2
    ensures (r.x == p.x && r.y == p.y) || !MoveRejected(passages, p.x, p.y, r.x, r.y)
    ensures InMaze(p.x, p.y) ==> InMaze(r.x, r.y)
    ensures r.ammo == p.ammo && r.view == p.view
  {
    var t := Tentative(p.x, p.y, p.angle, up, down, left, right, StepFor(pidx), cos, sin);
    if MoveRejected(passages, p.x, p.y, t.0, t.1) then p.(angle := t.2)
    else AcceptedInGrid(passages, p.x, p.y, t.0, t.1); p.(x := t.0, y := t.1, angle := t.2)
  }

  /**
   * A living player's turn on values, as `update_player`, `update_ammo` and `update_view` leave
   * it: the pose of `Move`, the ammo row of `UpdateAmmoRow`, which keeps its length, and a view
   * that changes exactly when the toggle button is pressed.
   */
  function TakeTurn(pidx: nat, p: Player, intent: Intent, passages: seq<Passage>,
                    cos: real -> real, sin: real -> real): (r: Player)
    ensures var m := Move(pidx, p, intent.up, intent.down, intent.left, intent.right, passages, cos, sin);
      r.x == m.x && r.y == m.y && r.angle == m.angle
    ensures |r.ammo| == |p.ammo|
    ensures r.view != p.view <==> intent.toggleView
  {
    var m := Move(pidx, p, intent.up, intent.down, intent.left, intent.right, passages, cos, sin);
    RowKept(p.ammo, pidx > 0, intent.shoot);
    m.(ammo := UpdateAmmoRow(p.ammo, pidx > 0, intent.shoot).0, view := if intent.toggleView then Toggled(p.view) else p.view)
  }

  /** `update_ammo` keeps the length of a row of slots. */
  lemma RowKept(row: seq<Ammo>, enemy: bool, shoot: bool)
    ensures |UpdateAmmoRow(row, enemy, shoot).0| == |row|
  {
    var r0 := if enemy then Kludge(row) else row;
    FireSpendsLowestLoaded(r0);
    ReloadTicksLowestSpent(if shoot then Fire(r0).0 else r0);
  }

  /**
   * `update_ammo` fires exactly when the trigger is held and a slot is Loaded; after the enemy
   * kludge only the first slot can be.
   */
  lemma FiresWhenLoaded(row: seq<Ammo>, enemy: bool, shoot: bool)
    ensures UpdateAmmoRow(row, enemy, shoot).1 <==> shoot && if enemy then |row| > 0 && row[0] == Loaded else Loaded in row
  {
    var r0 := if enemy then Kludge(row) else row;
    FireSpendsLowestLoaded(r0);
    if enemy && |row| > 0 {
      KludgeKeepsFirst(row);
    }
    assert Loaded in r0 <==> exists k :: 0 <= k < |r0| && r0[k] == Loaded;
  }

  /**
   * The bullet a living player's turn fires, if any, where `p` is the player before the turn and
   * `q` after it: there is one exactly when the trigger is held and a slot is Loaded (for a
   * computer player, after the kludge, only the first slot counts). It belongs to the player,
   * is in flight, and leaves from the position after the move with the new heading plus the
   * jitter of `sample`.
   */
  function Shot(pidx: nat, p: Player, shoot: bool, sample: real, q: Player): (r: Option<Bullet>)
    ensures r.Some? <==> shoot && if pidx > 0 then |p.ammo| > 0 && p.ammo[0] == Loaded else Loaded in p.ammo
    ensures r.Some? ==> r.value.owner == pidx && r.value.inflight && r.value.x == q.x && r.value.y == q.y
  {
    FiresWhenLoaded(p.ammo, pidx > 0, shoot);
    if UpdateAmmoRow(p.ammo, pidx > 0, shoot).1 then Some(Bullet(q.x, q.y, pidx, q.angle + Jitter(sample), true)) else None
  }

  /** The players as values, from the state's five per-player arrays. */
  function PlayersOf(xs: seq<real>, ys: seq<real>, angles: seq<real>, rows: seq<seq<Ammo>>, views: seq<ViewMode>): (r: seq<Player>)
    requires |xs| == |ys| == |angles| == |rows| == |views| == NUM_PLAYERS
    ensures |r| == NUM_PLAYERS
  {
    seq(NUM_PLAYERS, p requires 0 <= p < NUM_PLAYERS => Player(xs[p], ys[p], angles[p], rows[p], views[p]))
  }

  /**
   * `update_player`, `update_ammo` and `update_view` of player `pidx`, as they change the five
   * arrays and the bullet list, make up `TakeTurn` of that player, leave every other player as
   * it was, and push the turn's `Shot`.
   */
  lemma TurnOnArrays(pidx: nat, intent: Intent, sample: real, passages: seq<Passage>, cos: real -> real, sin: real -> real,
                     xs: seq<real>, ys: seq<real>, angles: seq<real>, rows: seq<seq<Ammo>>, views: seq<ViewMode>, bs: seq<Bullet>,
                     xs': seq<real>, ys': seq<real>, angles': seq<real>, rows': seq<seq<Ammo>>, views': seq<ViewMode>, bs': seq<Bullet>)
    requires pidx < NUM_PLAYERS && |xs| == |ys| == |angles| == |rows| == |views| == NUM_PLAYERS
    requires var t := Tentative(xs[pidx], ys[pidx], angles[pidx], intent.up, intent.down, intent.left, intent.right,
                                StepFor(pidx), cos, sin);
      && angles' == angles[pidx := t.2]
      && if MoveRejected(passages, xs[pidx], ys[pidx], t.0, t.1)
         then xs' == xs && ys' == ys
         else xs' == xs[pidx := t.0] && ys' == ys[pidx := t.1]
    requires rows' == rows[pidx := UpdateAmmoRow(rows[pidx], pidx > 0, intent.shoot).0]
    requires views' == views[pidx := if intent.toggleView then Toggled(views[pidx]) else views[pidx]]
    requires bs' == if UpdateAmmoRow(rows[pidx], pidx > 0, intent.shoot).1 && |bs| < NUM_BULLETS
                    then bs + [Bullet(xs'[pidx], ys'[pidx], pidx, angles'[pidx] + Jitter(sample), true)] else bs
    ensures var p := PlayersOf(xs, ys, angles, rows, views)[pidx];
      && PlayersOf(xs', ys', angles', rows', views')
           == PlayersOf(xs, ys, angles, rows, views)[pidx := TakeTurn(pidx, p, intent, passages, cos, sin)]
      && bs' == Push(bs, Shot(pidx, p, intent.shoot, sample, PlayersOf(xs', ys', angles', rows', views')[pidx]))
  {
  }

  /**
   * The push of `update_ammo` onto the bullet list, if there is a shot: a list already holding
   * NUM_BULLETS refuses it. The bullets already there stay, in order, and the bound is kept.
   */
  function Push(bs: seq<Bullet>, shot: Option<Bullet>): (r: seq<Bullet>)
    ensures |bs| <= |r| <= |bs| + 1 && r[..|bs|] == bs
    ensures |r| > |bs| <==> shot.Some? && |bs| < NUM_BULLETS
    ensures |r| > |bs| ==> r[|bs|] == shot.value
    ensures |bs| <= NUM_BULLETS ==> |r| <= NUM_BULLETS
  {
    if shot.Some? && |bs| < NUM_BULLETS then bs + [shot.value] else bs
  }

  /** The bullet list after the turns of one frame, each turn's shot pushed in player order. */
  function Launches(bs: seq<Bullet>, shots: seq<Option<Bullet>>): (r: seq<Bullet>)
    ensures |bs| <= |r| <= |bs| + |shots| && r[..|bs|] == bs
    ensures |bs| <= NUM_BULLETS ==> |r| <= NUM_BULLETS
    ensures (forall i :: 0 <= i < |bs| ==> bs[i].owner < NUM_PLAYERS)
            && (forall j :: 0 <= j < |shots| && shots[j].Some? ==> shots[j].value.owner < NUM_PLAYERS)
            ==> forall i :: 0 <= i < |r| ==> r[i].owner < NUM_PLAYERS
  {
    if shots == [] then bs else Push(Launches(bs, shots[..|shots| - 1]), shots[|shots| - 1])
  }

  /** A player after its guarded turn: a living player takes its turn, any other is frozen. */
  function Guarded(pidx: nat, p: Player, life: int, intent: Intent, passages: seq<Passage>,
                   cos: real -> real, sin: real -> real): Player
  {
    if life > 0 then TakeTurn(pidx, p, intent, passages, cos, sin) else p
  }

  /** The shot of a player's guarded turn, from `p` before it and `q` after it; a player not alive fires nothing. */
  function GuardedShot(pidx: nat, p: Player, q: Player, life: int, shoot: bool, sample: real): (r: Option<Bullet>)
    ensures r.Some? ==> life > 0 && r.value.owner == pidx
  {
    if life > 0 then Shot(pidx, p, shoot, sample, q) else None
  }

  /**
   * The four guarded turns of a frame on values, in player order. Each player's turn depends
   * only on its own entries, so the result is taken player by player; a player not alive at
   * the start of the frame is frozen.
   */
  function Round(players: seq<Player>, lives: seq<int>, intents: seq<Intent>, passages: seq<Passage>,
                 cos: real -> real, sin: real -> real): (r: seq<Player>)
    requires |players| == NUM_PLAYERS && |lives| == NUM_PLAYERS && |intents| == NUM_PLAYERS
    ensures |r| == NUM_PLAYERS
    ensures forall p :: 0 <= p < NUM_PLAYERS && lives[p] <= 0 ==> r[p] == players[p]
    ensures forall p :: 0 <= p < NUM_PLAYERS && lives[p] > 0 ==> r[p] == TakeTurn(p, players[p], intents[p], passages, cos, sin)
  {
    [Guarded(0, players[0], lives[0], intents[0], passages, cos, sin),
     Guarded(1, players[1], lives[1], intents[1], passages, cos, sin),
     Guarded(2, players[2], lives[2], intents[2], passages, cos, sin),
     Guarded(3, players[3], lives[3], intents[3], passages, cos, sin)]
  }

  /**
   * The shots of a frame's four guarded turns, in player order, from the players before and
   * after them; each belongs to its player, who is alive.
   */
  function Volley(players: seq<Player>, turned: seq<Player>, lives: seq<int>, intents: seq<Intent>, samples: seq<real>): (r: seq<Option<Bullet>>)
    requires |players| == |turned| == |lives| == |intents| == |samples| == NUM_PLAYERS
    ensures |r| == NUM_PLAYERS
    ensures forall p :: 0 <= p < NUM_PLAYERS && r[p].Some? ==> lives[p] > 0 && r[p].value.owner == p
  {
    [GuardedShot(0, players[0], turned[0], lives[0], intents[0].shoot, samples[0]),
     GuardedShot(1, players[1], turned[1], lives[1], intents[1].shoot, samples[1]),
     GuardedShot(2, players[2], turned[2], lives[2], intents[2].shoot, samples[2]),
     GuardedShot(3, players[3], turned[3], lives[3], intents[3].shoot, samples[3])]
  }

  /** Shots that other players fire leave the count of bullets that player `q` owns as it was. */
  lemma {:induction false} LaunchesForeign(bs: seq<Bullet>, shots: seq<Option<Bullet>>, q: nat)
    requires forall i :: 0 <= i < |shots| && shots[i].Some? ==> shots[i].value.owner != q
    ensures CountOwned(Launches(bs, shots), q) == CountOwned(bs, q)
  {
    if shots != [] {
      LaunchesForeign(bs, shots[..|shots| - 1], q);
      var before := Launches(bs, shots[..|shots| - 1]);
      var after := Launches(bs, shots);
      if |after| > |before| {
        assert after[..|after| - 1] == before;
      }
    }
  }

  /**
   * Four turns one after another, the k-th replacing player k's entry and pushing its shot
   * onto the list the previous turn left, end with every entry replaced and the shots
   * launched in player order.
   */
  lemma FourTurns(players: seq<Player>, turned: seq<Player>, shots: seq<Option<Bullet>>,
                  q1: seq<Player>, q2: seq<Player>, q3: seq<Player>, q4: seq<Player>,
                  b0: seq<Bullet>, b1: seq<Bullet>, b2: seq<Bullet>, b3: seq<Bullet>, b4: seq<Bullet>)
    requires |players| == |turned| == |shots| == NUM_PLAYERS
    requires q1 == players[0 := turned[0]] && q2 == q1[1 := turned[1]] && q3 == q2[2 := turned[2]] && q4 == q3[3 := turned[3]]
    requires b1 == Push(b0, shots[0]) && b2 == Push(b1, shots[1]) && b3 == Push(b2, shots[2]) && b4 == Push(b3, shots[3])
    ensures q4 == turned
    ensures b4 == Launches(b0, shots)
  {
    assert shots[..1][..0] == [] && shots[..2][..1] == shots[..1] && shots[..3][..2] == shots[..2] && shots[..3] == shots[..|shots| - 1];
    assert Launches(b0, shots[..1]) == b1 by {
      assert Launches(b0, shots[..1][..0]) == b0;
    }
    assert Launches(b0, shots[..2]) == b2;
    assert Launches(b0, shots[..3]) == b3;
  }

  /**
   * What one frame of `update` makes of the players, lives and bullets once the intents are
   * chosen: the players become `Round` of them; the shots of the `Volley` are pushed in player
   * order; that list flies one frame against the players' new `poses` and loses its stopped
   * bullets, and each player loses the lives its `HitCount` says.
   */
  predicate FrameOutcome(players: seq<Player>, lives: seq<int>, bs: seq<Bullet>, intents: seq<Intent>, samples: seq<real>,
                         passages: seq<Passage>, cos: real -> real, sin: real -> real, strike: Contact -> bool,
                         poses: Poses, players': seq<Player>, lives': seq<int>, bs': seq<Bullet>)
    requires |players| == |lives| == |intents| == |samples| == NUM_PLAYERS && PosesOk(poses)
    requires forall i :: 0 <= i < |bs| ==> bs[i].owner < NUM_PLAYERS
  {
    var turned := Round(players, lives, intents, passages, cos, sin);
    var launched := Launches(bs, Volley(players, turned, lives, intents, samples));
    && players' == turned
    && bs' == InFlight(StepAll(launched, passages, cos, sin, poses, strike))
    && |lives'| == NUM_PLAYERS
    && forall p :: 0 <= p < NUM_PLAYERS ==> lives'[p] == lives[p] - HitCount(launched, p, passages, cos, sin, poses, strike)
  }

  /**
   * In a frame lives never go up, and a player not alive at its start is frozen: its entries
   * stay, and since it fires nothing and stepping and filtering add no bullets, it owns no
   * more bullets than before.
   */
  lemma FrozenWhenDead(players: seq<Player>, lives: seq<int>, bs: seq<Bullet>, intents: seq<Intent>, samples: seq<real>,
                       passages: seq<Passage>, cos: real -> real, sin: real -> real, strike: Contact -> bool,
                       poses: Poses, players': seq<Player>, lives': seq<int>, bs': seq<Bullet>)
    requires |players| == |lives| == |intents| == |samples| == NUM_PLAYERS && PosesOk(poses)
    requires forall i :: 0 <= i < |bs| ==> bs[i].owner < NUM_PLAYERS
    requires FrameOutcome(players, lives, bs, intents, samples, passages, cos, sin, strike, poses, players', lives', bs')
    ensures |lives'| == NUM_PLAYERS && forall p :: 0 <= p < NUM_PLAYERS ==> lives'[p] <= lives[p]
    ensures forall p :: 0 <= p < NUM_PLAYERS && lives[p] <= 0 ==>
      players'[p] == players[p] && CountOwned(bs', p) <= CountOwned(bs, p)
  {
    var shots := Volley(players, Round(players, lives, intents, passages, cos, sin), lives, intents, samples);
    var launched := Launches(bs, shots);
    forall p | 0 <= p < NUM_PLAYERS && lives[p] <= 0
      ensures CountOwned(bs', p) <= CountOwned(bs, p)
    {
      LaunchesForeign(bs, shots, p);
      CountOwnedStepAll(launched, p, passages, cos, sin, poses, strike);
      CountOwnedInFlight(StepAll(launched, passages, cos, sin, poses, strike), p);
    }
  }

  /** A fresh per-player array of reals, one entry per player in order. */
  method PerPlayer(a: real, b: real, c: real, d: real) returns (r: array<real>)
    ensures fresh(r) && r[..] == [a, b, c, d]
  {
    r := new real[NUM_PLAYERS] [a, b, c, d];
  }

  class State {
    const playerX: array<real>
    const playerY: array<real>
    const playerAngle: array<real>
    /** Each entry is one player's row of BULLETS_PER_PLAYER slots (a Rust array, copied by value). */
    const playerAmmo: array<seq<Ammo>>
    const playerLife: array<int>
    const playerView: array<ViewMode>
    var bullets: seq<Bullet>
    var passages: seq<Passage>

    /**
     * The state's invariant: one entry per player in every array, three slots per ammo row,
     * every player strictly inside the maze, and a well-formed bullet list.
     */
    ghost predicate Valid()
      reads this, playerX, playerY, playerAmmo
    {
      && Shaped()
      && (forall p :: 0 <= p < NUM_PLAYERS ==> |playerAmmo[p]| == BULLETS_PER_PLAYER)
      && (forall p :: 0 <= p < NUM_PLAYERS ==> InMaze(playerX[p], playerY[p]))
      && BulletsOk(bullets)
    }

    /** One entry per player in every array, and three distinct arrays for the poses. */
    ghost predicate Shaped()
    {
      && playerX.Length == NUM_PLAYERS && playerY.Length == NUM_PLAYERS && playerAngle.Length == NUM_PLAYERS
      && playerAmmo.Length == NUM_PLAYERS && playerLife.Length == NUM_PLAYERS && playerView.Length == NUM_PLAYERS
      && playerX != playerY && playerX != playerAngle && playerY != playerAngle
    }

    /** The players' poses as values, as the bullet step sees them. */
    function Poses(): (r: Hits.Poses)
      reads playerX, playerY, playerAngle
      requires playerX.Length == NUM_PLAYERS && playerY.Length == NUM_PLAYERS && playerAngle.Length == NUM_PLAYERS
      ensures PosesOk(r)
    {
      Hits.Poses(playerX[..], playerY[..], playerAngle[..])
    }

    /** Every player's entries of the arrays, as values, in player order. */
    function Players(): (r: seq<Player>)
      reads playerX, playerY, playerAngle, playerAmmo, playerView
      requires Shaped()
      ensures |r| == NUM_PLAYERS
    {
      PlayersOf(playerX[..], playerY[..], playerAngle[..], playerAmmo[..], playerView[..])
    }

    /**
     * `State::new`: the four players in the four corner cells facing the maze, five lives,
     * every slot Loaded, first-person views, no bullets and no maze yet.
     */
    constructor ()
      ensures Valid()
      ensures fresh(playerX) && fresh(playerY) && fresh(playerAngle)
      ensures fresh(playerAmmo) && fresh(playerLife) && fresh(playerView)
      ensures playerX[..] == [0.5, 12.5, 0.5, 12.5] && playerY[..] == [0.5, 0.5, 12.5, 12.5]
      ensures playerAngle[..] == [0.75, 2.25, 3.75, 5.25]
      ensures forall p :: 0 <= p < NUM_PLAYERS ==>
        && playerLife[p] == START_LIFE && playerView[p] == FirstPerson
        && playerAmmo[p] == [Loaded, Loaded, Loaded]
      ensures bullets == [] && passages == []
    {
      var xs := PerPlayer(0.5, 12.5, 0.5, 12.5);
      var ys := PerPlayer(0.5, 0.5, 12.5, 12.5);
      var angles := PerPlayer(0.75, 2.25, 3.75, 5.25);
      playerX, playerY, playerAngle := xs, ys, angles;
      playerAmmo := new seq<Ammo>[NUM_PLAYERS](_ => [Loaded, Loaded, Loaded]);
      playerLife := new int[NUM_PLAYERS](_ => START_LIFE);
      playerView := new ViewMode[NUM_PLAYERS](_ => FirstPerson);
      bullets := [];
      passages := [];
      new;
      assert forall p :: 0 <= p < NUM_PLAYERS ==> InMaze(playerX[p], playerY[p]);
    }

    /**
     * `generate_maze`: carve the 13 x 13 maze from cell 0. The passages form a spanning tree:
     * NUM_CELLS - 1 of them, each entering a new cell from one entered before, so every cell
     * is reached. The source's fixed buffers make a second call panic, hence the precondition.
     */
    method GenerateMaze(shuffle: (nat, seq<nat>) -> seq<nat>)
      requires Valid() && passages == [] && IsPermuter(shuffle)
      modifies this`passages
      ensures Valid()
      ensures |passages| == NUM_CELLS - 1 && IsTree(passages, 0, WIDTH, HEIGHT)
      ensures forall c: nat :: 0 < c < NUM_CELLS ==> Entered(passages, c)
    {
      var ok;
      passages, ok := CarveMaze(WIDTH, HEIGHT, MAX_PASSAGES, shuffle);
    }

    /** `update_view`: the toggle button switches one player's view; nothing else changes. */
    method UpdateView(pidx: nat, toggleView: bool)
      requires Valid() && pidx < NUM_PLAYERS
      modifies playerView
      ensures playerView[..] == old(playerView[..])[pidx := if toggleView then Toggled(old(playerView[pidx])) else old(playerView[pidx])]
    {
      if toggleView {
        playerView[pidx] := Toggled(playerView[pidx]);
      }
    }

    /**
     * `update_player`: the tentative pose from the buttons, at the slower step for computer
     * players. The new heading is always kept; the new position only when the move is not
     * rejected, so every player stays inside the maze.
     */
    method UpdatePlayer(pidx: nat, up: bool, down: bool, left: bool, right: bool,
                        cos: real -> real, sin: real -> real)
      requires Valid() && pidx < NUM_PLAYERS
      modifies playerX, playerY, playerAngle
      ensures Valid()
      ensures var t := Tentative(old(playerX[pidx]), old(playerY[pidx]), old(playerAngle[pidx]),
                                 up, down, left, right, StepFor(pidx), cos, sin);
        && playerAngle[..] == old(playerAngle[..])[pidx := t.2]
        && if MoveRejected(passages, old(playerX[pidx]), old(playerY[pidx]), t.0, t.1)
           then playerX[..] == old(playerX[..]) && playerY[..] == old(playerY[..])
           else playerX[..] == old(playerX[..])[pidx := t.0] && playerY[..] == old(playerY[..])[pidx := t.1]
    {
      var previousIndex := GetIndex(playerX[pidx], playerY[pidx], WIDTH, HEIGHT);
      var step := if pidx > 0 then STEP_SIZE * 0.65 else STEP_SIZE;
      var (x, y, angle) := Tentative(playerX[pidx], playerY[pidx], playerAngle[pidx], up, down, left, right, step, cos, sin);
      var newIndex := GetIndex(x, y, WIDTH, HEIGHT);
      var rejected := (x <= 0.0 || y <= 0.0 || AsUsize(x) >= WIDTH || AsUsize(y) >= HEIGHT)
                      || (previousIndex != newIndex && ThereIsNoPassageHere(previousIndex, newIndex, passages));
      assert rejected == MoveRejected(passages, playerX[pidx], playerY[pidx], x, y);
      if rejected {
        playerAngle[pidx] := angle;
      } else {
        AcceptedInGrid(passages, playerX[pidx], playerY[pidx], x, y);
        Place(pidx, x, y, angle);
      }
    }

    /** Writes an accepted pose; the invariant survives because the point is inside the maze. */
    method Place(pidx: nat, x: real, y: real, angle: real)
      requires Valid() && pidx < NUM_PLAYERS && InMaze(x, y)
      modifies playerX, playerY, playerAngle
      ensures Valid()
      ensures playerX[..] == old(playerX[..])[pidx := x] && playerY[..] == old(playerY[..])[pidx := y]
      ensures playerAngle[..] == old(playerAngle[..])[pidx := angle]
    {
      playerX[pidx] := x;
      playerY[pidx] := y;
      playerAngle[pidx] := angle;
    }

    /**
     * `update_ammo`: for a computer player the kludge that leaves it one usable slot; then on
     * the trigger the first Loaded slot is spent and a bullet leaves from the player's position
     * with a jittered heading, unless NUM_BULLETS are already in the air; then the reload step.
     * The ammo row follows `UpdateAmmoRow`, the other rows and the other state do not change,
     * and the signals are the sounds and console messages of the frame.
     */
    method UpdateAmmo(pidx: nat, shoot: bool, sample: real) returns (signals: seq<Signal>)
      requires Valid() && pidx < NUM_PLAYERS
      modifies playerAmmo, this`bullets
      ensures Valid()
      ensures var (row, fired) := UpdateAmmoRow(old(playerAmmo[pidx]), pidx > 0, shoot);
        && playerAmmo[..] == old(playerAmmo[..])[pidx := row]
        && bullets == (if fired && |old(bullets)| < NUM_BULLETS
                       then old(bullets) + [Bullet(playerX[pidx], playerY[pidx], pidx, playerAngle[pidx] + Jitter(sample), true)]
                       else old(bullets))
        && signals == (if fired then [ShotFired] + (if |old(bullets)| < NUM_BULLETS then [] else [MaxBullets])
                       else if shoot then [EmptyClick] else [])
    {
      var row := playerAmmo[pidx];
      if pidx > 0 {
        var first := row[0];
        row := seq(BULLETS_PER_PLAYER, _ => Reloading(RELOAD_TIME))[0 := first];
        assert row == Kludge(old(playerAmmo[pidx]));
      }
      ghost var kludged := row;
      signals := [];
      if shoot {
        match Find(row, IsLoaded) {
          case Some(k) =>
            row := row[k := Reloading(RELOAD_TIME)];
            signals := Launch(pidx, sample);
          case None =>
            signals := [EmptyClick];
        }
      }
      ghost var fired := row;
      assert fired == (if shoot then Fire(kludged).0 else kludged);
      row := Reload(row);
      playerAmmo[pidx] := row;
    }

    /**
     * The push of a new bullet from the player's position with a jittered heading; a full
     * bullet list refuses it and the console reports that.
     */
    method Launch(pidx: nat, sample: real) returns (signals: seq<Signal>)
      requires Valid() && pidx < NUM_PLAYERS
      modifies this`bullets
      ensures Valid()
      ensures bullets == (if |old(bullets)| < NUM_BULLETS
                          then old(bullets) + [Bullet(playerX[pidx], playerY[pidx], pidx, playerAngle[pidx] + Jitter(sample), true)]
                          else old(bullets))
      ensures signals == [ShotFired] + (if |old(bullets)| < NUM_BULLETS then [] else [MaxBullets])
    {
      if |bullets| < NUM_BULLETS {
        bullets := bullets + [Bullet(playerX[pidx], playerY[pidx], pidx, playerAngle[pidx] + Jitter(sample), true)];
        signals := [ShotFired];
      } else {
        signals := [ShotFired, MaxBullets];
      }
    }

    /**
     * `update_bullets`: every bullet flies one frame and stops at walls; one still in flight
     * costs a life to every other player it strikes and then stops; finally the stopped
     * bullets are dropped. The list that results is `InFlight(StepAll(..))` of the old one,
     * and each player loses exactly the lives `HitCount` counts.
     */
    method UpdateBullets(cos: real -> real, sin: real -> real, strike: Contact -> bool)
      requires Valid()
      modifies this`bullets, playerLife
      ensures Valid()
      ensures bullets == InFlight(StepAll(old(bullets), passages, cos, sin, Poses(), strike))
      ensures forall p :: 0 <= p < NUM_PLAYERS ==>
        playerLife[p] == old(playerLife[p]) - HitCount(old(bullets), p, passages, cos, sin, Poses(), strike)
    {
      ghost var bs := bullets;
      StepEach(cos, sin, strike);
      SurvivorsOk(bs, passages, cos, sin, Poses(), strike);
      bullets := InFlight(bullets);
    }

    /** The `for_each` of `update_bullets`: every bullet flown and checked against the players, in place and in order. */
    method StepEach(cos: real -> real, sin: real -> real, strike: Contact -> bool)
      requires Shaped() && forall i :: 0 <= i < |bullets| ==> bullets[i].owner < NUM_PLAYERS
      modifies this`bullets, playerLife
      ensures bullets == StepAll(old(bullets), passages, cos, sin, Poses(), strike)
      ensures forall p :: 0 <= p < NUM_PLAYERS ==>
        playerLife[p] == old(playerLife[p]) - HitCount(old(bullets), p, passages, cos, sin, Poses(), strike)
    {
      ghost var bs := bullets;
      ghost var poses := Poses();
      var i := 0;
      while i < |bullets|
        invariant 0 <= i <= |bs| == |bullets|
        invariant bullets[..i] == StepAll(bs[..i], passages, cos, sin, poses, strike) && bullets[i..] == bs[i..]
        invariant forall p :: 0 <= p < NUM_PLAYERS ==>
          playerLife[p] == old(playerLife[p]) - HitCount(bs[..i], p, passages, cos, sin, poses, strike)
      {
        var b := Fly(bullets[i], passages, cos, sin);
        b := Hit(b, cos, sin, strike);
        BulletStep(bs, i, passages, cos, sin, poses, strike);
        SteppedPrefix(bs, bullets, i, passages, cos, sin, poses, strike);
        bullets := bullets[i := b];
        i := i + 1;
      }
      assert bs[..i] == bs && bullets[..i] == bullets;
      assert Poses() == poses;
    }

    /**
     * The player loop for one moved bullet: a bullet still in flight costs a life to each
     * other player in its cell that the collision window catches, and stops if it struck
     * anyone. The loop does not look at `inflight` again, so one bullet can strike several
     * players.
     */
    method Hit(b: Bullet, cos: real -> real, sin: real -> real, strike: Contact -> bool) returns (r: Bullet)
      requires Shaped() && b.owner < NUM_PLAYERS
      modifies playerLife
      ensures r == if StrikesAny(b, Poses(), strike) then b.(inflight := false) else b
      ensures forall p :: 0 <= p < NUM_PLAYERS ==>
        playerLife[p] == old(playerLife[p]) - (if Strikes(b, p, Poses(), strike) then 1 else 0)
    {
      ghost var poses := Poses();
      r := b;
      if b.inflight {
        var newIndex := GetIndex(b.x, b.y, WIDTH, HEIGHT);
        for pidx := 0 to NUM_PLAYERS
          invariant r == if exists q: nat :: q < pidx && Strikes(b, q, poses, strike) then b.(inflight := false) else b
          invariant forall p :: 0 <= p < NUM_PLAYERS ==>
            playerLife[p] == old(playerLife[p]) - (if p < pidx && Strikes(b, p, poses, strike) then 1 else 0)
        {
          assert Strikes(b, pidx, poses, strike) <==>
            && pidx != b.owner
            && GetIndex(playerX[pidx], playerY[pidx], WIDTH, HEIGHT) == newIndex
            && strike(Contact(b.x, b.y, playerX[pidx], playerY[pidx], playerAngle[pidx], playerX[b.owner], playerY[b.owner]));
          assert (exists q: nat :: q < pidx + 1 && Strikes(b, q, poses, strike)) <==>
            (exists q: nat :: q < pidx && Strikes(b, q, poses, strike)) || Strikes(b, pidx, poses, strike);
          if pidx != b.owner {
            var playerIndex := GetIndex(playerX[pidx], playerY[pidx], WIDTH, HEIGHT);
            if playerIndex == newIndex {
              if strike(Contact(b.x, b.y, playerX[pidx], playerY[pidx], playerAngle[pidx], playerX[b.owner], playerY[b.owner])) {
                playerLife[pidx] := playerLife[pidx] - 1;
                r := r.(inflight := false);
              }
            }
          }
        }
      }
    }

    /**
     * `update_enemy` for player `pid` (2, 3 or 4, so array entry pid - 1): the next cell on a
     * path from its cell toward the first player's, and the buttons that steer it toward that
     * cell's centre. `center` stands for `get_center_from_index`, and the search's random
     * choices come from `shuffle`. Nothing in the state changes.
     */
    method EnemyIntent(pid: nat, shuffle: (nat, seq<nat>) -> seq<nat>, center: nat -> (real, real),
                       atan2: (real, real) -> real, dist: (real, real) -> real)
      returns (intent: Intent, target: nat, ok: bool)
      requires Valid() && 2 <= pid <= NUM_PLAYERS && IsPermuter(shuffle)
      ensures ok ==> target < NUM_CELLS
      ensures ok ==> intent == Steer(playerX[pid - 1], playerY[pid - 1], playerAngle[pid - 1],
                                     center(target).0, center(target).1, playerX[0], playerY[0], atan2, dist)
      ensures Spanning(passages, WIDTH, HEIGHT) ==> ok
    {
      var idx := pid - 1;
      var enemyIndex := GetIndex(playerX[idx], playerY[idx], WIDTH, HEIGHT);
      var playerIndex := GetIndex(playerX[0], playerY[0], WIDTH, HEIGHT);
      GetIndexInGrid(playerX[idx], playerY[idx], WIDTH, HEIGHT);
      GetIndexInGrid(playerX[0], playerY[0], WIDTH, HEIGHT);
      var path;
      target, path, ok := EnemyTarget(enemyIndex, playerIndex, passages, shuffle);
      if !ok {
        return Intent(false, false, false, false, false, false), target, false;
      }
      var (tx, ty) := center(target);
      intent := Steer(playerX[idx], playerY[idx], playerAngle[idx], tx, ty, playerX[0], playerY[0], atan2, dist);
    }

    /**
     * One living player's part of the frame: `update_player`, `update_ammo`, `update_view`.
     * The player's entries become `TakeTurn` of what they were and every other player's stay;
     * the bullet list gets the turn's `Shot` pushed, a bullet of this player.
     */
    method PlayerTurn(pidx: nat, intent: Intent, sample: real, cos: real -> real, sin: real -> real)
      returns (signals: seq<Signal>)
      requires Valid() && pidx < NUM_PLAYERS
      modifies playerX, playerY, playerAngle, playerAmmo, playerView, this`bullets
      ensures Valid()
      ensures Players() == old(Players())[pidx := TakeTurn(pidx, old(Players())[pidx], intent, passages, cos, sin)]
      ensures bullets == Push(old(bullets), Shot(pidx, old(Players())[pidx], intent.shoot, sample, Players()[pidx]))
    {
      UpdatePlayer(pidx, intent.up, intent.down, intent.left, intent.right, cos, sin);
      signals := UpdateAmmo(pidx, intent.shoot, sample);
      UpdateView(pidx, intent.toggleView);
      TurnOnArrays(pidx, intent, sample, passages, cos, sin,
                   old(playerX[..]), old(playerY[..]), old(playerAngle[..]), old(playerAmmo[..]), old(playerView[..]), old(bullets),
                   playerX[..], playerY[..], playerAngle[..], playerAmmo[..], playerView[..], bullets);
    }

    /**
     * A player's turn, taken only while the player is alive: `Guarded` of its entries, every other
     * player's kept, and the turn's `GuardedShot` pushed.
     */
    method LivingTurn(pidx: nat, intent: Intent, sample: real, cos: real -> real, sin: real -> real)
      returns (signals: seq<Signal>)
      requires Valid() && pidx < NUM_PLAYERS
      modifies playerX, playerY, playerAngle, playerAmmo, playerView, this`bullets
      ensures Valid()
      ensures Players() == old(Players())[pidx := Guarded(pidx, old(Players())[pidx], playerLife[pidx], intent, passages, cos, sin)]
      ensures bullets == Push(old(bullets), GuardedShot(pidx, old(Players())[pidx], Players()[pidx], playerLife[pidx], intent.shoot, sample))
    {
      signals := [];
      if playerLife[pidx] > 0 {
        signals := PlayerTurn(pidx, intent, sample, cos, sin);
      } else {
        assert Players() == old(Players())[pidx := old(Players())[pidx]];
      }
    }

    /**
     * `update`: the three computer players choose their buttons from the state at the start
     * of the frame; then each living player, in order, moves, fires or reloads and toggles
     * its view; then the bullets fly. A player no longer alive is frozen: pose, ammo and view
     * stay, and the bullets it owns can only disappear. Lives never go up. A search that runs
     * out of buffer space (a panic in the source) leaves the whole state as it was; on the
     * carved maze no search does.
     */
    method Update(p1: Intent, cos: real -> real, sin: real -> real, atan2: (real, real) -> real,
                  dist: (real, real) -> real, center: nat -> (real, real),
                  shuffles: seq<(nat, seq<nat>) -> seq<nat>>, samples: seq<real>, strike: Contact -> bool)
      returns (signals: seq<Signal>, ok: bool, enemies: seq<Intent>, targets: seq<nat>)
      requires Valid() && |shuffles| == NUM_PLAYERS - 1 && |samples| == NUM_PLAYERS
      requires forall i :: 0 <= i < |shuffles| ==> IsPermuter(shuffles[i])
      modifies playerX, playerY, playerAngle, playerAmmo, playerView, playerLife, this`bullets
      ensures Valid()
      ensures Spanning(passages, WIDTH, HEIGHT) ==> ok
      ensures !ok ==> unchanged(playerX, playerY, playerAngle, playerAmmo, playerView, playerLife) && bullets == old(bullets)
      ensures |enemies| == |targets| == NUM_PLAYERS - 1
      ensures ok ==> forall e :: 0 <= e < NUM_PLAYERS - 1 ==>
        && targets[e] < NUM_CELLS
        && enemies[e] == Steer(old(playerX[e + 1]), old(playerY[e + 1]), old(playerAngle[e + 1]),
                               center(targets[e]).0, center(targets[e]).1, old(playerX[0]), old(playerY[0]), atan2, dist)
      ensures ok ==> FrameOutcome(old(Players()), old(playerLife[..]), old(bullets), [p1] + enemies, samples, passages, cos, sin, strike,
                                  Poses(), Players(), playerLife[..], bullets)
      ensures forall p :: 0 <= p < NUM_PLAYERS ==> playerLife[p] <= old(playerLife[p])
      ensures forall p :: 0 <= p < NUM_PLAYERS && old(playerLife[p]) <= 0 ==>
        Players()[p] == old(Players())[p] && CountOwned(bullets, p) <= CountOwned(old(bullets), p)
    {
      ghost var players, lives, bs := Players(), playerLife[..], bullets;
      enemies, targets, ok := Plan(shuffles, center, atan2, dist);
      assert Players() == players && playerLife[..] == lives && bullets == bs;
      if !ok {
        return [], false, enemies, targets;
      }
      signals := Frame([p1] + enemies, cos, sin, samples, strike);
    }

    /**
     * The first part of `update`: `update_enemy` for the three computer players, all from the
     * state at the start of the frame. Computer player e + 1 gets the buttons that steer it
     * toward the centre of its target cell; on a spanning maze every search succeeds.
     */
    method Plan(shuffles: seq<(nat, seq<nat>) -> seq<nat>>, center: nat -> (real, real),
                atan2: (real, real) -> real, dist: (real, real) -> real)
      returns (enemies: seq<Intent>, targets: seq<nat>, ok: bool)
      requires Valid() && |shuffles| == NUM_PLAYERS - 1
      requires forall i :: 0 <= i < |shuffles| ==> IsPermuter(shuffles[i])
      ensures Spanning(passages, WIDTH, HEIGHT) ==> ok
      ensures |enemies| == |targets| == NUM_PLAYERS - 1
      ensures ok ==> forall e :: 0 <= e < NUM_PLAYERS - 1 ==>
        && targets[e] < NUM_CELLS
        && enemies[e] == Steer(playerX[e + 1], playerY[e + 1], playerAngle[e + 1],
                               center(targets[e]).0, center(targets[e]).1, playerX[0], playerY[0], atan2, dist)
    {
      var e2, t2, ok2 := EnemyIntent(2, shuffles[0], center, atan2, dist);
      var e3, t3, ok3 := EnemyIntent(3, shuffles[1], center, atan2, dist);
      var e4, t4, ok4 := EnemyIntent(4, shuffles[2], center, atan2, dist);
      enemies, targets, ok := [e2, e3, e4], [t2, t3, t4], ok2 && ok3 && ok4;
    }

    /**
     * The four guarded turns of `update`, in player order, each on the state the previous one
     * left: the players end as `Round` of the players, lives and intents at the start, and the
     * bullet list has the `Volley` of those turns pushed in player order. Lives do not change.
     */
    method Turns(intents: seq<Intent>, cos: real -> real, sin: real -> real, samples: seq<real>)
      returns (signals: seq<Signal>)
      requires Valid() && |intents| == NUM_PLAYERS && |samples| == NUM_PLAYERS
      modifies playerX, playerY, playerAngle, playerAmmo, playerView, this`bullets
      ensures Valid()
      ensures Players() == Round(old(Players()), playerLife[..], intents, passages, cos, sin)
      ensures bullets == Launches(old(bullets), Volley(old(Players()), Players(), playerLife[..], intents, samples))
    {
      ghost var players, lives, start := Players(), playerLife[..], bullets;
      signals := LivingTurn(0, intents[0], samples[0], cos, sin);
      ghost var q1, b1 := Players(), bullets;
      var s2 := LivingTurn(1, intents[1], samples[1], cos, sin);
      ghost var q2, b2 := Players(), bullets;
      var s3 := LivingTurn(2, intents[2], samples[2], cos, sin);
      ghost var q3, b3 := Players(), bullets;
      var s4 := LivingTurn(3, intents[3], samples[3], cos, sin);
      signals := signals + s2 + s3 + s4;
      FourTurns(players, Round(players, lives, intents, passages, cos, sin), Volley(players, Players(), lives, intents, samples),
                q1, q2, q3, Players(), start, b1, b2, b3, bullets);
    }

    /**
     * The part of `update` after the computer players have chosen: the four guarded turns, then
     * the bullets, with the `FrameOutcome` of the intents on the state at the start of the frame.
     */
    method Frame(intents: seq<Intent>, cos: real -> real, sin: real -> real, samples: seq<real>, strike: Contact -> bool)
      returns (signals: seq<Signal>)
      requires Valid() && |intents| == NUM_PLAYERS && |samples| == NUM_PLAYERS
      modifies playerX, playerY, playerAngle, playerAmmo, playerView, playerLife, this`bullets
      ensures Valid()
      ensures FrameOutcome(old(Players()), old(playerLife[..]), old(bullets), intents, samples, passages, cos, sin, strike,
                           Poses(), Players(), playerLife[..], bullets)
      ensures forall p :: 0 <= p < NUM_PLAYERS ==> playerLife[p] <= old(playerLife[p])
      ensures forall p :: 0 <= p < NUM_PLAYERS && old(playerLife[p]) <= 0 ==>
        Players()[p] == old(Players())[p] && CountOwned(bullets, p) <= CountOwned(old(bullets), p)
    {
      signals := Turns(intents, cos, sin, samples);
      UpdateBullets(cos, sin, strike);
      FrozenWhenDead(old(Players()), old(playerLife[..]), old(bullets), intents, samples, passages, cos, sin, strike,
                     Poses(), Players(), playerLife[..], bullets);
    }
  }
}
