/**
 * Ammunition slots and bullets (src/arms.rs), and the per-frame fire and reload rules that
 * `update_ammo` applies to one player's row of slots (src/state.rs, src/state/mod.rs).
 */
module Arms {
  import opened Wrappers
  import opened Constants

  /** A Rust `u8`. */
  type U8 = x: int | 0 <= x < 256

  /** An ammo slot: ready to fire, or counting down the frames until it is. */
  datatype Ammo = Loaded | Reloading(timeToReload: U8)

  /** A bullet: position, the player who fired it, heading, and whether it is still flying. */
  datatype Bullet = Bullet(x: real, y: real, owner: nat, angle: real, inflight: bool)

  predicate IsLoaded(a: Ammo)
  {
    a == Loaded
  }

  predicate IsSpent(a: Ammo)
  {
    a != Loaded
  }

  /** `iter().find(p)`: the position of the first slot that satisfies `p`, if there is one. */
  function Find(row: seq<Ammo>, p: Ammo -> bool): (r: Option<nat>)
    ensures r.Some? ==> r.value < |row| && p(row[r.value]) && forall k :: 0 <= k < r.value ==> !p(row[k])
    ensures r.None? ==> forall k :: 0 <= k < |row| ==> !p(row[k])
  {
    if row == [] then None
    else if p(row[0]) then Some(0)
    else match Find(row[1..], p)
      case None => None
      case Some(k) => Some(k + 1)
  }

  /** `Find` is pinned down by its contract: the lowest match, or none when nothing matches. */
  lemma FindIsLowest(row: seq<Ammo>, p: Ammo -> bool, k: nat)
    requires k <= |row| && forall i :: 0 <= i < k ==> !p(row[i])
    ensures k < |row| && p(row[k]) ==> Find(row, p) == Some(k)
    ensures k == |row| ==> Find(row, p) == None
  {
  }

  /** What a player hears and what the console records: the `tone` and `trace` calls. */
  datatype Signal = ShotFired | MaxBullets | EmptyClick | LoadedSound | BulletDone

  /**
   * The fire step: the first Loaded slot becomes `Reloading(RELOAD_TIME)`, and a bullet leaves
   * exactly when there was one. Without a Loaded slot nothing changes.
   */
  function Fire(row: seq<Ammo>): (r: (seq<Ammo>, bool))
  {
    match Find(row, IsLoaded)
    case Some(k) => (row[k := Reloading(RELOAD_TIME)], true)
    case None => (row, false)
  }

  /**
   * The reload step: the first slot that is not Loaded counts down by one frame, or becomes
   * Loaded when its count is already 0. A row that is all Loaded is left as it is.
   */
  function Reload(row: seq<Ammo>): (r: seq<Ammo>)
  {
    match Find(row, IsSpent)
    case Some(k) => row[k := Tick(row[k])]
    case None => row
  }

  /** One frame of reloading for a single slot. */
  function Tick(a: Ammo): Ammo
  {
    match a
    case Reloading(t) => if t > 0 then Reloading(t - 1) else Loaded
    case Loaded => Loaded
  }

  /** The reload step finishes a slot: the "Loaded!" event of src/state/mod.rs. */
  function JustLoaded(row: seq<Ammo>): bool
  {
    match Find(row, IsSpent)
    case Some(k) => row[k] == Reloading(0)
    case None => false
  }

  /**
   * The enemy kludge of src/state.rs: keep the first slot and reset every other one to
   * `Reloading(RELOAD_TIME)`, so an enemy has at most one bullet.
   */
  function Kludge(row: seq<Ammo>): (r: seq<Ammo>)
  {
    seq(|row|, k requires 0 <= k < |row| => if k == 0 then row[0] else Reloading(RELOAD_TIME))
  }

  /**
   * What `update_ammo` does to a row of slots in one frame: the kludge for an enemy, the fire
   * step when the trigger is held, then the reload step. Also says whether a bullet was fired.
   */
  function UpdateAmmoRow(row: seq<Ammo>, enemy: bool, shoot: bool): (seq<Ammo>, bool)
  {
    var r0 := if enemy then Kludge(row) else row;
    var (r1, fired) := if shoot then Fire(r0) else (r0, false);
    (Reload(r1), fired)
  }

  /** Frames until a slot is usable: 0 when Loaded, t + 1 when `Reloading(t)`. */
  function Rank(a: Ammo): nat
  {
    match a
    case Loaded => 0
    case Reloading(t) => t + 1
  }

  function TotalRank(row: seq<Ammo>): nat
  {
    if row == [] then 0 else Rank(row[0]) + TotalRank(row[1..])
  }

  /** Replacing one slot changes the total by the difference of the two ranks. */
  lemma {:induction false} TotalRankUpdate(row: seq<Ammo>, k: nat, a: Ammo)
    requires k < |row|
    ensures TotalRank(row[k := a]) == TotalRank(row) - Rank(row[k]) + Rank(a)
  {
    if k > 0 {
      TotalRankUpdate(row[1..], k - 1, a);
      assert row[k := a][1..] == row[1..][k - 1 := a];
    } else {
      assert row[k := a][1..] == row[1..];
    }
  }

  /**
   * Firing with some slot Loaded changes only the lowest Loaded slot, which becomes
   * `Reloading(RELOAD_TIME)`; with no slot Loaded the row is unchanged and no bullet leaves.
   */
  lemma FireSpendsLowestLoaded(row: seq<Ammo>)
    ensures |Fire(row).0| == |row|
    ensures Fire(row).1 <==> exists k :: 0 <= k < |row| && row[k] == Loaded
    ensures forall k :: 0 <= k < |row| && row[k] == Loaded && (forall i :: 0 <= i < k ==> row[i] != Loaded) ==>
      Fire(row).0 == row[k := Reloading(RELOAD_TIME)]
    ensures (forall k :: 0 <= k < |row| ==> row[k] != Loaded) ==> Fire(row).0 == row
  {
    match Find(row, IsLoaded)
    case Some(j) =>
      forall k | 0 <= k < |row| && row[k] == Loaded && (forall i :: 0 <= i < k ==> row[i] != Loaded)
        ensures k == j
      {
      }
    case None =>
      assert forall k :: 0 <= k < |row| ==> !IsLoaded(row[k]);
  }

  /**
   * The reload step changes only the lowest slot that is not Loaded: `Reloading(t)` with t > 0
   * becomes `Reloading(t - 1)` and `Reloading(0)` becomes Loaded. Every other slot is kept.
   */
  lemma ReloadTicksLowestSpent(row: seq<Ammo>)
    ensures |Reload(row)| == |row|
    ensures (forall k :: 0 <= k < |row| ==> row[k] == Loaded) ==> Reload(row) == row
    ensures forall k :: 0 <= k < |row| && row[k] != Loaded && (forall i :: 0 <= i < k ==> row[i] == Loaded) ==>
      && Reload(row)[k] == (if row[k].timeToReload > 0 then Reloading(row[k].timeToReload - 1) else Loaded)
      && forall i :: 0 <= i < |row| && i != k ==> Reload(row)[i] == row[i]
  {
    match Find(row, IsSpent)
    case Some(j) =>
      forall k | 0 <= k < |row| && row[k] != Loaded && (forall i :: 0 <= i < k ==> row[i] == Loaded)
        ensures k == j
      {
      }
    case None =>
      assert forall k :: 0 <= k < |row| ==> !IsSpent(row[k]);
  }

  /**
   * No counter goes up in the reload step: every slot's rank stays or drops, and when some
   * slot is not Loaded the total drops by exactly one frame.
   */
  lemma ReloadNeverRaises(row: seq<Ammo>)
    ensures |Reload(row)| == |row|
    ensures forall k :: 0 <= k < |row| ==> Rank(Reload(row)[k]) <= Rank(row[k])
    ensures (exists k :: 0 <= k < |row| && row[k] != Loaded) ==> TotalRank(Reload(row)) + 1 == TotalRank(row)
    ensures (forall k :: 0 <= k < |row| ==> row[k] == Loaded) ==> TotalRank(Reload(row)) == TotalRank(row)
  {
    match Find(row, IsSpent)
    case Some(j) =>
      TotalRankUpdate(row, j, Tick(row[j]));
    case None =>
      assert forall k :: 0 <= k < |row| ==> !IsSpent(row[k]);
  }

  /**
   * Counters only move in two ways: the fire step sets the lowest Loaded slot to
   * `RELOAD_TIME`, and the reload step lowers one by one frame. Across a whole frame every
   * slot keeps its rank or loses exactly one frame, except the slot fired from, which is reset.
   */
  lemma CountersMoveByOneOrReset(row: seq<Ammo>, shoot: bool)
    ensures var r := UpdateAmmoRow(row, false, shoot).0;
      |r| == |row| &&
      forall k :: 0 <= k < |row| ==>
        Rank(r[k]) == Rank(row[k]) || Rank(r[k]) + 1 == Rank(row[k]) ||
        (&& shoot && row[k] == Loaded && (forall i :: 0 <= i < k ==> row[i] != Loaded)
         && (Rank(r[k]) == RELOAD_TIME + 1 || Rank(r[k]) == RELOAD_TIME))
  {
    var (r1, fired) := if shoot then Fire(row) else (row, false);
    FireSpendsLowestLoaded(row);
    assert |r1| == |row|;
    assert forall k :: 0 <= k < |row| ==>
      r1[k] == row[k] ||
      (shoot && row[k] == Loaded && (forall i :: 0 <= i < k ==> row[i] != Loaded) && r1[k] == Reloading(RELOAD_TIME))
    by {
      if shoot {
        match Find(row, IsLoaded)
        case Some(j) =>
          assert r1 == row[j := Reloading(RELOAD_TIME)];
        case None =>
          assert r1 == row;
      }
    }
    ReloadTicksLowestSpent(r1);
    forall k | 0 <= k < |row|
      ensures Rank(Reload(r1)[k]) == Rank(row[k]) || Rank(Reload(r1)[k]) + 1 == Rank(row[k]) ||
        (&& shoot && row[k] == Loaded && (forall i :: 0 <= i < k ==> row[i] != Loaded)
         && (Rank(Reload(r1)[k]) == RELOAD_TIME + 1 || Rank(Reload(r1)[k]) == RELOAD_TIME))
    {
      ReloadNeverRaises(r1);
      match Find(r1, IsSpent)
      case Some(j) =>
        if k != j {
          assert Reload(r1)[k] == r1[k];
        }
      case None =>
    }
  }

  /**
   * The enemy rule: after `update_ammo` on an enemy row, no slot but the first is Loaded, and
   * the first slot is fired from or reloaded as for any player.
   */
  lemma EnemyOneBullet(row: seq<Ammo>, shoot: bool)
    requires |row| > 0
    ensures var r := UpdateAmmoRow(row, true, shoot).0;
      |r| == |row| && forall k :: 1 <= k < |r| ==> r[k] != Loaded
  {
    var r0 := Kludge(row);
    var (r1, fired) := if shoot then Fire(r0) else (r0, false);
    FireSpendsLowestLoaded(r0);
    assert |r1| == |r0| && forall k :: 1 <= k < |r1| ==> r1[k] == Reloading(RELOAD_TIME);
    ReloadTicksLowestSpent(r1);
    forall k | 1 <= k < |r1| ensures Reload(r1)[k] != Loaded {
      match Find(r1, IsSpent)
      case Some(j) =>
        if k == j {
          assert Reload(r1)[k] == Reloading(RELOAD_TIME - 1);
        }
      case None =>
    }
  }

  /** The kludge keeps the first slot and resets all the others. */
  lemma KludgeKeepsFirst(row: seq<Ammo>)
    requires |row| > 0
    ensures |Kludge(row)| == |row| && Kludge(row)[0] == row[0]
    ensures forall k :: 1 <= k < |row| ==> Kludge(row)[k] == Reloading(RELOAD_TIME)
  {
  }

  /** The "Loaded!" event fires exactly when the reload step turns `Reloading(0)` into Loaded. */
  lemma JustLoadedExactly(row: seq<Ammo>)
    ensures JustLoaded(row) <==> exists k :: 0 <= k < |row| && row[k] == Reloading(0) && Reload(row)[k] == Loaded
  {
    ReloadTicksLowestSpent(row);
    match Find(row, IsSpent)
    case Some(j) =>
      if JustLoaded(row) {
        assert Reload(row)[j] == Loaded;
      }
    case None =>
  }
}
