/** The integer and angle constants of the game (src/constants.rs). */
module Constants {
  /** Number of cells across and down the maze. */
  const WIDTH: nat := 13
  const HEIGHT: nat := 13
  const NUM_CELLS: nat := WIDTH * HEIGHT
  /** Storage reserved for the passage list and the path-finder buffers. */
  const MAX_PASSAGES: nat := NUM_CELLS

  const NUM_PLAYERS: nat := 4
  const BULLETS_PER_PLAYER: nat := 3
  const NUM_BULLETS: nat := NUM_PLAYERS * BULLETS_PER_PLAYER
  /** Frames a spent ammo slot takes to reload (a `u8`). */
  const RELOAD_TIME: nat := 255

  /** Distance a player and a bullet move in one frame. */
  const STEP_SIZE: real := 0.045
  const BULLET_SPEED: real := 0.01

  /** `core::f32::consts::PI`: the exact value of the nearest `f32` to pi. */
  const PI: real := 3.1415927410125732421875
  /** Field of view and the angle between two screen columns, as reals (160 columns). */
  const FOV: real := PI / 2.7
  const HALF_FOV: real := FOV * 0.5
  const ANGLE_STEP: real := FOV / 160.0
}

/** The usual optional value. */
module Wrappers {
  datatype Option<+T> = None | Some(value: T)
}
