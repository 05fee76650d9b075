/**
 * How a computer-controlled player steers (`update_enemy`, src/state.rs): once the next cell
 * on its path is known, it turns toward that cell's centre, and walks and fires only when it
 * already faces it.
 */
module Enemy {
  import opened Constants
  import opened View

  /** One frame of buttons for one player. */
  datatype Intent = Intent(up: bool, down: bool, left: bool, right: bool, shoot: bool, toggleView: bool)

  /** How close to the target bearing counts as facing it. */
  const AIM_TOLERANCE: real := 0.08

  /** Within this distance of the first player an enemy pulls the trigger. */
  const FIRING_RANGE: real := 3.0

  /** Within this distance of the target centre an enemy stands still. */
  const ARRIVAL_DISTANCE: real := 0.05

  /**
   * The turn still needed: the bearing from the enemy at (ex, ey) to the target point,
   * brought within half a turn of the enemy's heading, minus that heading.
   */
  function AngleDiff(ex: real, ey: real, heading: real, tx: real, ty: real,
                     atan2: (real, real) -> real): real
  {
    Unwrap(-1.0 * atan2(ty - ey, tx - ex), heading) - heading
  }

  /**
   * The buttons an enemy presses, given the centre (tx, ty) of the next cell on its path and
   * the first player's position (px, py). The square root of a sum of squares is supplied as
   * `dist`.
   */
  function Steer(ex: real, ey: real, heading: real, tx: real, ty: real, px: real, py: real,
                 atan2: (real, real) -> real, dist: (real, real) -> real): Intent
  {
    var diff := AngleDiff(ex, ey, heading, tx, ty, atan2);
    var fire := dist(py - ey, px - ex) <= FIRING_RANGE;
    if Abs(diff) <= AIM_TOLERANCE then
      if dist(ty - ey, tx - ex) < ARRIVAL_DISTANCE then Intent(false, false, false, false, fire, false)
      else Intent(true, false, false, false, fire, false)
    else if diff > AIM_TOLERANCE then Intent(false, false, true, false, false, false)
    else Intent(false, false, false, true, false, false)
  }

  /**
   * An enemy presses at most one of up, left and right, never down and never the view toggle;
   * it turns exactly when it does not face the target, left when the target is counter-clockwise,
   * walks only when facing it away from its centre, and fires only facing the target and within
   * range of the first player.
   */
  lemma SteerShape(ex: real, ey: real, heading: real, tx: real, ty: real, px: real, py: real,
                   atan2: (real, real) -> real, dist: (real, real) -> real)
    ensures var i := Steer(ex, ey, heading, tx, ty, px, py, atan2, dist);
      var diff := AngleDiff(ex, ey, heading, tx, ty, atan2);
      && !i.down && !i.toggleView
      && (i.left ==> !i.right && !i.up && !i.shoot)
      && (i.right ==> !i.up && !i.shoot)
      && (i.left <==> diff > AIM_TOLERANCE)
      && (i.right <==> diff < -AIM_TOLERANCE)
      && (i.up <==> Abs(diff) <= AIM_TOLERANCE && !(dist(ty - ey, tx - ex) < ARRIVAL_DISTANCE))
      && (i.shoot <==> Abs(diff) <= AIM_TOLERANCE && dist(py - ey, px - ex) <= FIRING_RANGE)
  {
  }

  /** The turn an enemy still has to make is never more than half a turn, so it turns the short way. */
  lemma TurnsTheShortWay(ex: real, ey: real, heading: real, tx: real, ty: real, atan2: (real, real) -> real)
    ensures Abs(AngleDiff(ex, ey, heading, tx, ty, atan2)) <= PI
  {
    var _ := UnwrapWithinHalfTurn(-1.0 * atan2(ty - ey, tx - ex), heading);
  }
}
