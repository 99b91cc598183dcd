/**
 * The two pieces of pygame behaviour the game relies on without showing them:
 * building a `Rect` from float coordinates, and `Rect.colliderect`.
 *
 * Both are assumptions about the library, stated here as definitions:
 *  - a coordinate given as a float is converted to an integer by truncation
 *    toward zero (Python's `int()`);
 *  - `colliderect` is true exactly when both rectangles have a positive size
 *    and they overlap strictly on both axes (touching edges do not collide).
 */
module Rects {

  /** An axis-aligned rectangle with pygame's integer fields. Every rectangle in
      the game has a non-negative size, so sizes are `nat`. */
  datatype Rect = Rect(left: int, top: int, width: nat, height: nat)
  {
    function Right(): int { left + width }

    /** `Rect.bottom` */
    function Bottom(): int { top + height }

    /** `Rect.centerx` is `x + w / 2` in C integer arithmetic; with `w >= 0`
        C's truncating division agrees with Dafny's. */
    function CenterX(): int { left + width / 2 }

    /** `Rect.centery` */
    function CenterY(): int { top + height / 2 }

    /** The pixel at (px, py) belongs to the rectangle (half-open on the right
        and at the bottom, as pygame draws it). */
    predicate Contains(px: int, py: int)
    {
      left <= px < Right() && top <= py < Bottom()
    }
  }

  /** `a.colliderect(b)`: strict overlap on both axes of two rectangles of
      positive size. */
  predicate Colliderect(a: Rect, b: Rect)
  {
    a.width > 0 && a.height > 0 && b.width > 0 && b.height > 0 &&
    a.left < b.Right() && b.left < a.Right() &&
    a.top < b.Bottom() && b.top < a.Bottom()
  }

  /** Two rectangles collide exactly when some pixel lies in both of them. */
  lemma ColliderectIffSharedPixel(a: Rect, b: Rect)
    ensures Colliderect(a, b) <==> exists px, py :: a.Contains(px, py) && b.Contains(px, py)
  {
    if Colliderect(a, b) {
      var px := if a.left < b.left then b.left else a.left;
      var py := if a.top < b.top then b.top else a.top;
      assert a.Contains(px, py) && b.Contains(px, py);
    }
  }

  /** Collision does not depend on which rectangle asks. */
  lemma ColliderectSymmetric(a: Rect, b: Rect)
    ensures Colliderect(a, b) == Colliderect(b, a)
  {
  }

  /** Python's `int(t / 3)`: the integer part of a third, truncated toward zero.
      Positions that move in steps of 8/3 are kept as whole thirds, and a
      `Rect` built from such a position gets this integer. */
  function IntOfThirds(t: int): (r: int)
    ensures 0 <= t ==> 0 <= 3 * r <= t < 3 * r + 3
    ensures t < 0 ==> 3 * r - 3 < t <= 3 * r <= 0
  {
    if t >= 0 then t / 3 else -((-t) / 3)
  }
}
