/**
 * The player (`Player` in game.py): a sprite that sinks under gravity, swims
 * up when told to, and is pushed back when its hitbox leaves the window.
 *
 * The vertical position moves in steps of `velocity_up / 2` (a whole number,
 * since the velocity is always even) and `gravity / 3 = 8/3`, so it is kept
 * exactly as a number of thirds: `y3 == 3 * y`.
 */
module Players {
  import opened Rects
  import opened GameUtil

  const StartX: int := 250
  const StartY: int := 200

  /** Size of the player's sprite. It comes from assets/player.png, which is
      not part of this model; 70 by 70 is assumed (the floor clamp puts the
      sprite at y = 570, which is 640 - 70). The bound of `StepBelowFloor` on
      how far the sprite's bottom edge can end below the window rests on this
      height. */
  const PlayerWidth: nat := 70
  const PlayerHeight: nat := 70

  /** What `swim` sets the upward velocity to. */
  const SwimImpulse: nat := 30

  /** Where the floor clamp puts the sprite's top edge. */
  const FloorY: int := 570

  /** The upward velocity only ever holds 0, 2, ..., 30: `swim` sets 30, each
      tick takes `gravity / 4 = 2` off while it is positive, and the ceiling
      clamp resets it to 0. In particular it is never negative. */
  type Velocity = v: int | 0 <= v <= SwimImpulse && v % 2 == 0

  /** What the player's fields hold: `x`, `y` (as `3 * y`) and `velocity_up`. */
  datatype PlayerState = PlayerState(x: int, y3: int, velocityUp: Velocity)

  function InitialPlayer(): PlayerState
  {
    PlayerState(StartX, 3 * StartY, 0)
  }

  /** `get_hitbox`: the sprite's rectangle at the truncated position. */
  function Hitbox(p: PlayerState): Rect
  {
    Rect(p.x, IntOfThirds(p.y3), PlayerWidth, PlayerHeight)
  }

  /** The hitbox sticks out below the window. */
  predicate BelowFloor(p: PlayerState)
  {
    Hitbox(p).Bottom() > WindowHeight
  }

  /** The hitbox sticks out above the window. */
  predicate AboveCeiling(p: PlayerState)
  {
    Hitbox(p).top < 0
  }

  /** `swim`: overwrite the upward velocity with the impulse. */
  function Swum(p: PlayerState): PlayerState
  {
    p.(velocityUp := SwimImpulse)
  }

  /** `update`, one tick: clamp against the hitbox of the previous position
      (floor first, ceiling only otherwise), rise by half the velocity, decay
      the velocity while it is positive, then sink by `gravity / 3`. */
  function Stepped(p: PlayerState): (r: PlayerState)
    ensures r.x == p.x
  {
    var y3 := if BelowFloor(p) then 3 * FloorY else if AboveCeiling(p) then 0 else p.y3;
    var v: Velocity := if !BelowFloor(p) && AboveCeiling(p) then 0 else p.velocityUp;
    var risen := y3 - 3 * (v / 2);
    var decayed: Velocity := if v > 0 then v - Gravity / 4 else v;
    PlayerState(p.x, risen + Gravity, decayed)
  }

  /** `k` ticks of `update` with no input in between. */
  function SteppedN(p: PlayerState, k: nat): PlayerState
  {
    if k == 0 then p else Stepped(SteppedN(p, k - 1))
  }

  /** Inside the window a tick moves the player by exactly `-v/2 + 8/3`, and
      the velocity loses 2 if it was positive. */
  lemma StepInsideWindow(p: PlayerState)
    requires !BelowFloor(p) && !AboveCeiling(p)
    ensures Stepped(p).y3 == p.y3 - 3 * (p.velocityUp / 2) + 8
    ensures Stepped(p).velocityUp == if p.velocityUp > 0 then p.velocityUp - 2 else 0
  {
  }

  /** From rest a tick only sinks the player by 8/3. */
  lemma StepFromRest(p: PlayerState)
    requires !BelowFloor(p) && !AboveCeiling(p) && p.velocityUp == 0
    ensures Stepped(p) == p.(y3 := p.y3 + 8)
  {
  }

  /** `swim` then `update` moves the player by `-15 + 8/3` and leaves the
      velocity at 28. */
  lemma SwimThenStep(p: PlayerState)
    requires !BelowFloor(p) && !AboveCeiling(p)
    ensures Stepped(Swum(p)).y3 == p.y3 - 45 + 8
    ensures Stepped(Swum(p)).velocityUp == 28
  {
  }

  /** Floor clamp: a hitbox below the window puts the player back at 570 before
      the tick's motion; the velocity is kept. The sprite's bottom edge ends at
      most two pixels below the window. */
  lemma StepBelowFloor(p: PlayerState)
    requires BelowFloor(p)
    ensures Stepped(p).y3 == 3 * FloorY - 3 * (p.velocityUp / 2) + 8
    ensures Stepped(p).velocityUp == if p.velocityUp > 0 then p.velocityUp - 2 else 0
    ensures Hitbox(Stepped(p)).Bottom() <= WindowHeight + 2
  {
  }

  /** Ceiling clamp: a hitbox above the window puts the player at 0 and stops
      it, so the tick ends at y = 8/3 with no velocity, inside the window. */
  lemma StepAboveCeiling(p: PlayerState)
    requires !BelowFloor(p) && AboveCeiling(p)
    ensures Stepped(p).y3 == 8 && Stepped(p).velocityUp == 0
    ensures Hitbox(Stepped(p)).top == 2
  {
  }

  /** Without further input the velocity falls by at least 2 per tick until it
      reaches 0. */
  lemma {:induction false} VelocityDecays(p: PlayerState, k: nat)
    ensures SteppedN(p, k).velocityUp <= if p.velocityUp >= 2 * k then p.velocityUp - 2 * k else 0
  {
    if k > 0 {
      VelocityDecays(p, k - 1);
    }
  }

  /** A swim impulse is used up after 15 ticks. */
  lemma ImpulseSpent(p: PlayerState)
    ensures SteppedN(Swum(p), 15).velocityUp == 0
  {
    VelocityDecays(Swum(p), 15);
  }

  /** `Player`: the sprite's position and upward velocity, updated in place. */
  class Player {
    var x: int
    var y3: int
    var velocityUp: Velocity

    function View(): PlayerState
      reads this
    {
      PlayerState(x, y3, velocityUp)
    }

    /** `get_hitbox` */
    function GetHitbox(): (r: Rect)
      reads this
      ensures r == Hitbox(View())
    {
      Rect(x, IntOfThirds(y3), PlayerWidth, PlayerHeight)
    }

    constructor ()
      ensures View() == InitialPlayer()
    {
      x, y3, velocityUp := StartX, 3 * StartY, 0;
    }

    method Swim()
      modifies this
      ensures View() == Swum(old(View()))
    {
      velocityUp := SwimImpulse;
    }

    method Update()
      modifies this
      ensures View() == Stepped(old(View()))
    {
      if GetHitbox().Bottom() > WindowHeight {
        y3 := 3 * FloorY;
      } else if GetHitbox().top < 0 {
        y3 := 0;
        velocityUp := 0;
      }
      y3 := y3 - 3 * (velocityUp / 2);
      if velocityUp > 0 {
        velocityUp := velocityUp - Gravity / 4;
      }
      // y += gravity / 3, counted in thirds
      y3 := y3 + Gravity;
    }
  }
}
