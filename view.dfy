/**
 * What the screen shows that is not ray casting (src/view.rs): the ammo dashboard, and where a
 * bullet in flight appears across the 160 screen columns.
 */
module View {
  import opened Constants
  import opened Arms

  /** One dashboard oval: x, y, width, vertical correction (`i32`) and height (`u32`). */
  datatype Gauge = Gauge(x: int, y: int, width: nat, correction: int, status: nat)

  /** Height of the ammo oval: full when Loaded, growing in steps of 2 as the reload counts down. */
  function AmmoStatus(a: Ammo): (s: nat)
    ensures s <= 8 && s % 2 == 0
    ensures s == 8 <==> a == Loaded
  {
    match a
    case Loaded => 8
    case Reloading(t) =>
      if 201 <= t <= 255 then 0
      else if 151 <= t <= 200 then 2
      else if 50 <= t <= 150 then 4
      else 6
  }

  /** The oval for slot `index`: its fixed place on the dashboard and the height for its ammo. */
  function GaugeFor(index: nat, a: Ammo): Gauge
  {
    var status := AmmoStatus(a);
    Gauge(120 + 10 * index, 4, 8, (8 - status) / 2, status)
  }

  /**
   * `get_ammo_view`: starts from the three fixed ovals and, slot by slot, writes each oval's
   * correction and status from that slot's ammo.
   */
  method GetAmmoView(playerAmmo: seq<Ammo>) returns (dashboard: seq<Gauge>)
    requires |playerAmmo| == BULLETS_PER_PLAYER
    ensures |dashboard| == BULLETS_PER_PLAYER
    ensures forall i :: 0 <= i < BULLETS_PER_PLAYER ==> dashboard[i] == GaugeFor(i, playerAmmo[i])
  {
    var ovals := new Gauge[BULLETS_PER_PLAYER];
    ovals[0], ovals[1], ovals[2] := Gauge(120, 4, 8, 0, 0), Gauge(130, 4, 8, 0, 0), Gauge(140, 4, 8, 0, 0);
    var index := 0;
    while index < BULLETS_PER_PLAYER
      invariant 0 <= index <= BULLETS_PER_PLAYER
      invariant forall i :: 0 <= i < index ==> ovals[i] == GaugeFor(i, playerAmmo[i])
      invariant forall i :: index <= i < BULLETS_PER_PLAYER ==> ovals[i] == Gauge(120 + 10 * i, 4, 8, 0, 0)
    {
      var status := AmmoStatus(playerAmmo[index]);
      var correction := (8 - status) / 2;
      ovals[index] := ovals[index].(correction := correction, status := status);
      index := index + 1;
    }
    dashboard := ovals[..];
  }

  /**
   * Every oval is centred on the dashboard line (twice the correction plus the height is 8),
   * its height is one of 0, 2, 4, 6, 8, and its place and width are fixed by its slot alone.
   */
  lemma GaugeShape(index: nat, a: Ammo)
    ensures var g := GaugeFor(index, a);
      && 2 * g.correction + g.status == 8
      && g.status in {0, 2, 4, 6, 8}
      && g.x == 120 + 10 * index && g.y == 4 && g.width == 8
  {
  }

  /** The height only grows as a slot counts down from `RELOAD_TIME` through 0 to Loaded. */
  lemma StatusMonotone(a: Ammo, b: Ammo)
    requires Rank(a) <= Rank(b)
    ensures AmmoStatus(a) >= AmmoStatus(b)
  {
  }

  /** The height a slot shows for each stretch of its countdown. */
  lemma StatusBands(t: U8)
    ensures 201 <= t ==> AmmoStatus(Reloading(t)) == 0
    ensures 151 <= t <= 200 ==> AmmoStatus(Reloading(t)) == 2
    ensures 50 <= t <= 150 ==> AmmoStatus(Reloading(t)) == 4
    ensures t < 50 ==> AmmoStatus(Reloading(t)) == 6
  {
  }

  function Abs(x: real): real
  {
    if x < 0.0 then -x else x
  }

  /**
   * The bearing moved by whole turns to near the player's heading: first into
   * [facing, facing + 2 pi), then one turn down when that is closer.
   */
  function Unwrap(bearing: real, facing: real): real
  {
    var numWraps := ((bearing - facing) / (2.0 * PI)).Floor;
    var unwrapped := bearing - 2.0 * PI * numWraps as real;
    var extraUnwrapped := unwrapped - 2.0 * PI;
    if Abs(facing - unwrapped) > Abs(facing - extraUnwrapped) then extraUnwrapped else unwrapped
  }

  /** Over the reals, unwrapping moves the bearing by whole turns and leaves it within pi of the heading. */
  lemma UnwrapWithinHalfTurn(bearing: real, facing: real) returns (turns: int)
    ensures Unwrap(bearing, facing) == bearing - 2.0 * PI * turns as real
    ensures Abs(Unwrap(bearing, facing) - facing) <= PI
  {
    var q := (bearing - facing) / (2.0 * PI);
    var n := q.Floor;
    assert q * (2.0 * PI) == bearing - facing;
    var frac := q - n as real;
    assert 0.0 <= frac < 1.0;
    var unwrapped := bearing - 2.0 * PI * n as real;
    assert unwrapped - facing == 2.0 * PI * frac;
    if Abs(facing - unwrapped) > Abs(facing - (unwrapped - 2.0 * PI)) {
      turns := n + 1;
    } else {
      turns := n;
    }
  }

  /** Rust's `x as i32` on a finite float: truncation toward zero, saturating at the `i32` bounds. */
  function AsI32(x: real): int
  {
    var t := if x >= 0.0 then x.Floor else -((-x).Floor);
    if t > 0x7fff_ffff then 0x7fff_ffff else if t < -0x8000_0000 then -0x8000_0000 else t
  }

  /** The screen column of a bearing, counted from the upper edge of the view. */
  function HPosition(unwrapped: real, facing: real): int
  {
    var upper := facing + HALF_FOV;
    AsI32((upper - unwrapped) / ANGLE_STEP)
  }

  /** Is the unwrapped bearing between the first and the last screen column? */
  predicate InView(unwrapped: real, facing: real)
  {
    var upper := facing + HALF_FOV;
    var lower := upper - 159.0 * ANGLE_STEP;
    lower <= unwrapped <= upper
  }

  /** A bearing in view lands on one of the 160 screen columns. */
  lemma ColumnInScreen(unwrapped: real, facing: real)
    requires InView(unwrapped, facing)
    ensures 0 <= HPosition(unwrapped, facing) <= 159
  {
    var upper := facing + HALF_FOV;
    var d := (upper - unwrapped) / ANGLE_STEP;
    assert d * ANGLE_STEP == upper - unwrapped;
    assert 0.0 <= d <= 159.0;
  }

  /** An oval on screen: column, vertical position, size, and whether it is drawn. */
  datatype Oval = Oval(h: int, v: int, size: nat, visible: bool)

  /**
   * The oval for one bullet seen from (px, py) facing `facing`. `atan2` and `measure`, which
   * gives the vertical position and size for the bullet's offset, are supplied by the caller.
   */
  function OvalFor(b: Bullet, facing: real, px: real, py: real,
                   atan2: (real, real) -> real, measure: (real, real) -> (int, nat)): Oval
  {
    if !b.inflight then Oval(0, 0, 0, false)
    else
      var rise := b.y - py;
      var run := b.x - px;
      var unwrapped := Unwrap(-1.0 * atan2(rise, run), facing);
      if InView(unwrapped, facing) then
        var (v, size) := measure(rise, run);
        Oval(HPosition(unwrapped, facing), v, size, true)
      else Oval(0, 0, 0, false)
  }

  /**
   * A bullet is drawn exactly when it is in flight and its unwrapped bearing is in view, and
   * then in one of the 160 columns; an oval that is not drawn is all zero.
   */
  lemma OvalVisibility(b: Bullet, facing: real, px: real, py: real,
                       atan2: (real, real) -> real, measure: (real, real) -> (int, nat))
    ensures var o := OvalFor(b, facing, px, py, atan2, measure);
      && (o.visible <==> b.inflight && InView(Unwrap(-1.0 * atan2(b.y - py, b.x - px), facing), facing))
      && (o.visible ==> 0 <= o.h <= 159)
      && (!o.visible ==> o == Oval(0, 0, 0, false))
  {
    if b.inflight {
      var unwrapped := Unwrap(-1.0 * atan2(b.y - py, b.x - px), facing);
      if InView(unwrapped, facing) {
        ColumnInScreen(unwrapped, facing);
      }
    }
  }

  /**
   * `get_bullet_view`: one oval slot per possible bullet, all zero to start, then the slot of
   * each bullet in the list filled in from that bullet.
   */
  method GetBulletView(facing: real, px: real, py: real, bullets: seq<Bullet>,
                       atan2: (real, real) -> real, measure: (real, real) -> (int, nat))
    returns (view: seq<Oval>)
    requires |bullets| <= NUM_BULLETS
    ensures |view| == NUM_BULLETS
    ensures forall i :: 0 <= i < |bullets| ==> view[i] == OvalFor(bullets[i], facing, px, py, atan2, measure)
    ensures forall i :: |bullets| <= i < NUM_BULLETS ==> view[i] == Oval(0, 0, 0, false)
  {
    var ovals := new Oval[NUM_BULLETS](_ => Oval(0, 0, 0, false));
    var index := 0;
    while index < |bullets|
      invariant 0 <= index <= |bullets|
      invariant forall i :: 0 <= i < index ==> ovals[i] == OvalFor(bullets[i], facing, px, py, atan2, measure)
      invariant forall i :: index <= i < NUM_BULLETS ==> ovals[i] == Oval(0, 0, 0, false)
    {
      var bullet := bullets[index];
      ghost var oval := OvalFor(bullet, facing, px, py, atan2, measure);
      if bullet.inflight {
        var rise := bullet.y - py;
        var run := bullet.x - px;
        var unwrapped := Unwrap(-1.0 * atan2(rise, run), facing);
        if InView(unwrapped, facing) {
          var hPosition := HPosition(unwrapped, facing);
          var (vPosition, size) := measure(rise, run);
          ovals[index] := Oval(hPosition, vPosition, size, true);
        }
      }
      assert ovals[index] == oval;
      index := index + 1;
    }
    view := ovals[..];
  }
}
