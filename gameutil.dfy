/**
 * The game's enumerations and fixed numbers: those of gameutil.py, and the
 * window height and gravity that `Game.__init__` fixes and that the player and
 * the obstacles read from their game.
 */
module GameUtil {

  /** `GameState` */
  datatype GameState = Running | Over | Paused | NotStarted

  /** Length of one simulation tick, `SECONDS_PER_FRAME = 0.016`, in
      microseconds, so that the time accumulator is exact. */
  const TickMicros: nat := 16000

  /** The window height `Game.__init__` passes to `display.set_mode`. */
  const WindowHeight: nat := 640

  /** `Game.gravity` */
  const Gravity: nat := 8
}
