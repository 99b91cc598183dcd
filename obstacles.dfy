/**
 * An obstacle (`Obstacle` in game.py): two blocks, one hanging from the top of
 * the screen and one standing below it, with a 170-pixel gap between them whose
 * height is shifted by a random offset. The obstacle enters at x = 1200 and
 * moves 5 pixels to the left per tick.
 *
 * The offset is drawn by `randint(-100, 100)`; here it is an input of type
 * `Offset`.
 */
module Obstacles {
  import opened Rects
  import opened GameUtil
  import opened Players

  const ObstacleWidth: nat := 80
  const GapSize: nat := 170
  const Speed: nat := 5
  const SpawnX: int := 1200

  /** Height of the composite surface both blocks are drawn on. */
  const SurfaceHeight: nat := 1200

  /** An obstacle stays in the game while its right edge is beyond this x. */
  const LeftEdge: int := 9

  /** The range of `randint(-100, 100)`. */
  type Offset = i: int | -100 <= i <= 100

  /** What an obstacle's fields hold. `screen_height` is always the window
      height, so it is the constant `WindowHeight`. */
  datatype ObstacleState = ObstacleState(x: int, y: int, offset: Offset)

  /** A freshly constructed obstacle. */
  function NewObstacle(offset: Offset): ObstacleState
  {
    ObstacleState(SpawnX, 0, offset)
  }

  /** Height of the top block, `screen_height / 2 - gap_size / 2 + offset`
      (all halves are exact: 640 and 170 are even). Always positive. */
  function TopHeight(offset: Offset): (h: nat)
    ensures 135 <= h <= 335
  {
    WindowHeight / 2 - GapSize / 2 + offset
  }

  /** Height of the bottom block, `screen_height / 2 + 200`. */
  const BottomHeight: nat := WindowHeight / 2 + 200

  /** The first rectangle of `get_hitbox`. */
  function TopBlock(o: ObstacleState): Rect
  {
    Rect(o.x, o.y, ObstacleWidth, TopHeight(o.offset))
  }

  /** The second rectangle of `get_hitbox`: it starts exactly one gap below
      where the top block ends, in the same column. */
  function BottomBlock(o: ObstacleState): (r: Rect)
    ensures r.top == TopBlock(o).Bottom() + GapSize
    ensures r.left == TopBlock(o).left && r.width == TopBlock(o).width == ObstacleWidth
  {
    Rect(o.x, o.y + WindowHeight / 2 + GapSize / 2 + o.offset, ObstacleWidth, BottomHeight)
  }

  /** The composite surface the obstacle is drawn from, placed at its position. */
  function SurfaceRect(o: ObstacleState): Rect
  {
    Rect(o.x, o.y, ObstacleWidth, SurfaceHeight)
  }

  /** `update`: move left by the speed. */
  function Moved(o: ObstacleState): ObstacleState
  {
    o.(x := o.x - Speed)
  }

  /** `k` ticks of `update`. */
  function MovedN(o: ObstacleState, k: nat): ObstacleState
  {
    if k == 0 then o else Moved(MovedN(o, k - 1))
  }

  /** The on-screen test of `get_on_screen_obstacles`: the surface's right
      edge, `x + 80`, is still beyond x = 9. */
  predicate OnScreen(o: ObstacleState)
  {
    o.x + ObstacleWidth > LeftEdge
  }

  /** `detect_collision`: the given hitbox overlaps the top or the bottom block. */
  predicate CollidesWith(o: ObstacleState, hitbox: Rect)
  {
    Colliderect(TopBlock(o), hitbox) || Colliderect(BottomBlock(o), hitbox)
  }

  /** For every offset the two blocks are separated by the 170-pixel gap and so
      never share a pixel. */
  lemma BlocksNeverOverlap(o: ObstacleState)
    ensures TopBlock(o).Bottom() + GapSize == BottomBlock(o).top
    ensures !Colliderect(TopBlock(o), BottomBlock(o))
    ensures forall px, py :: !(TopBlock(o).Contains(px, py) && BottomBlock(o).Contains(px, py))
  {
  }

  /** Both blocks lie inside the 80 x 1200 surface drawn at the obstacle's
      position, so what is drawn and what collides agree. */
  lemma BlocksInsideSurface(o: ObstacleState)
    ensures forall px, py :: TopBlock(o).Contains(px, py) ==> SurfaceRect(o).Contains(px, py)
    ensures forall px, py :: BottomBlock(o).Contains(px, py) ==> SurfaceRect(o).Contains(px, py)
  {
  }

  /** A hitbox collides with the obstacle exactly when it shares a pixel with
      the top block or with the bottom block. */
  lemma CollidesIffSharedPixel(o: ObstacleState, hitbox: Rect)
    ensures CollidesWith(o, hitbox) <==>
      exists px, py :: hitbox.Contains(px, py) &&
        (TopBlock(o).Contains(px, py) || BottomBlock(o).Contains(px, py))
  {
    ColliderectIffSharedPixel(TopBlock(o), hitbox);
    ColliderectIffSharedPixel(BottomBlock(o), hitbox);
  }

  /** After `k` ticks an obstacle has moved exactly `5 * k` to the left and
      nothing else about it has changed. */
  lemma {:induction false} MovedNShifts(o: ObstacleState, k: nat)
    ensures MovedN(o, k) == o.(x := o.x - Speed * k)
  {
    if k > 0 {
      MovedNShifts(o, k - 1);
    }
  }

  /** A new obstacle is on screen for exactly 254 ticks and leaves on the 255th,
      when it reaches x = -75. */
  lemma Lifetime(offset: Offset, k: nat)
    ensures MovedN(NewObstacle(offset), k).x == SpawnX - Speed * k
    ensures OnScreen(MovedN(NewObstacle(offset), k)) <==> k <= 254
    ensures k == 255 ==> MovedN(NewObstacle(offset), k).x == -75
  {
    MovedNShifts(NewObstacle(offset), k);
  }

  /** `Obstacle`: its position changes in place; the offset and the top edge
      are fixed at construction. */
  class Obstacle {
    var x: int
    const y: int
    const offset: Offset

    function View(): ObstacleState
      reads this
    {
      ObstacleState(x, y, offset)
    }

    constructor (offset: Offset)
      ensures View() == NewObstacle(offset)
    {
      x, y, this.offset := SpawnX, 0, offset;
    }

    /** `update`: x decreases by exactly 5; nothing else changes. */
    method Update()
      modifies this
      ensures View() == Moved(old(View()))
    {
      x := x - Speed;
    }

    /** `get_hitbox`: the top and the bottom block at the current position. */
    function GetHitbox(): (r: (Rect, Rect))
      reads this
      ensures r == (TopBlock(View()), BottomBlock(View()))
    {
      var top := Rect(x, y, ObstacleWidth, TopHeight(offset));
      var botY := y + WindowHeight / 2 + GapSize / 2 + offset;
      (top, Rect(x, botY, ObstacleWidth, BottomHeight))
    }

    /** `detect_collision` against the player. */
    predicate DetectCollision(player: Player)
      reads this, player
      ensures DetectCollision(player) <==> CollidesWith(View(), player.GetHitbox())
    {
      var (top, bot) := GetHitbox();
      var playerHitbox := player.GetHitbox();
      Colliderect(top, playerHitbox) || Colliderect(bot, playerHitbox)
    }
  }
}
