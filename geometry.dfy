/**
 * Axis-aligned rectangles as every entity of the game sees them: a top-left
 * corner (x, y) and a width and height, all integers (snake parts sit on
 * integer cells and are 1 by 1).
 */
module Geometry {

  datatype Point = Point(x: int, y: int)

  datatype Rect = Rect(x: int, y: int, width: int, height: int)
  {
    function Right(): int { x + width }
    function Bottom(): int { y + height }
  }

  /** The 1-by-1 rectangle a snake part occupies. */
  function CellRect(p: Point): Rect
  {
    Rect(p.x, p.y, 1, 1)
  }

  /** `collidesWith`: strict overlap of the two rectangles (edges touching is not a collision). */
  predicate CollidesWith(a: Rect, b: Rect)
    ensures CollidesWith(a, b) ==> a.width + b.width > 0 && a.height + b.height > 0
  {
    var ax2 := a.x + a.width;
    var ay2 := a.y + a.height;
    var bx2 := b.x + b.width;
    var by2 := b.y + b.height;
    a.x < bx2 && ax2 > b.x && a.y < by2 && ay2 > b.y
  }

  /** `isInside`: `a` lies within `b`, including the redundant corner tests the source makes. */
  predicate IsInside(a: Rect, b: Rect)
    ensures IsInside(a, b) ==> a.width <= b.width && a.height <= b.height
  {
    var otherRightX := b.width + b.x;
    var otherBottomY := b.height + b.y;
    a.x <= otherRightX && a.y <= otherBottomY
    && a.x + a.width <= otherRightX && a.y + a.height <= otherBottomY
    && a.x >= b.x && a.y >= b.y
  }

  /** The real point (px, py) lies strictly inside `r`. */
  ghost predicate InInterior(r: Rect, px: real, py: real)
  {
    r.x as real < px < r.Right() as real && r.y as real < py < r.Bottom() as real
  }

  /** The two open rectangles share a point of the plane. */
  ghost predicate InteriorsMeet(a: Rect, b: Rect)
  {
    exists px: real, py: real :: InInterior(a, px, py) && InInterior(b, px, py)
  }

  /** The midpoint of the overlap of two open intervals that do overlap lies in both. */
  lemma OverlapMidpoint(lo1: int, hi1: int, lo2: int, hi2: int) returns (v: real)
    requires lo1 < hi2 && lo2 < hi1 && lo1 < hi1 && lo2 < hi2
    ensures lo1 as real < v < hi1 as real && lo2 as real < v < hi2 as real
  {
    var lo := if lo1 < lo2 then lo2 else lo1;
    var hi := if hi1 < hi2 then hi1 else hi2;
    v := (lo as real + hi as real) / 2.0;
  }

  /**
   * For rectangles of positive size, `collidesWith` holds exactly when the
   * open rectangles share a point; so rectangles that only share an edge or
   * a corner do not collide.
   */
  lemma CollidesWithIffInteriorsMeet(a: Rect, b: Rect)
    requires a.width > 0 && a.height > 0 && b.width > 0 && b.height > 0
    ensures CollidesWith(a, b) <==> InteriorsMeet(a, b)
  {
    if CollidesWith(a, b) {
      var px := OverlapMidpoint(a.x, a.Right(), b.x, b.Right());
      var py := OverlapMidpoint(a.y, a.Bottom(), b.y, b.Bottom());
      assert InInterior(a, px, py) && InInterior(b, px, py);
    }
  }

  /** Collision is symmetric for every pair of rectangles, whatever their sizes. */
  lemma CollidesWithSymmetric(a: Rect, b: Rect)
    ensures CollidesWith(a, b) <==> CollidesWith(b, a)
  {
  }

  /** Rectangles that only share an edge (one ends where the other starts) never collide. */
  lemma TouchingDoesNotCollide(a: Rect, b: Rect)
    requires a.Right() == b.x || b.Right() == a.x || a.Bottom() == b.y || b.Bottom() == a.y
    ensures !CollidesWith(a, b) && !CollidesWith(b, a)
  {
  }

  /** Two snake parts collide exactly when they occupy the same cell. */
  lemma CellsCollideIffSame(p: Point, q: Point)
    ensures CollidesWith(CellRect(p), CellRect(q)) <==> p == q
  {
  }

  /**
   * For sizes that are not negative, `isInside` is containment: left and top
   * edges at or beyond the other's, right and bottom edges at or before it.
   * For a negative size the source's extra tests `x <= otherRightX` and
   * `y <= otherBottomY` matter, which is why the predicate keeps them.
   */
  lemma IsInsideIffContained(a: Rect, b: Rect)
    requires a.width >= 0 && a.height >= 0
    ensures IsInside(a, b) <==>
      a.x >= b.x && a.y >= b.y && a.Right() <= b.Right() && a.Bottom() <= b.Bottom()
  {
  }

  /** Containment is a preorder: every rectangle of non-negative size lies in itself, and it chains. */
  lemma IsInsideReflexiveTransitive(a: Rect, b: Rect, c: Rect)
    requires a.width >= 0 && a.height >= 0
    ensures IsInside(a, a)
    ensures IsInside(a, b) && IsInside(b, c) ==> IsInside(a, c)
  {
  }

  /** A rectangle of positive size inside another always collides with it. */
  lemma InsideImpliesCollides(a: Rect, b: Rect)
    requires a.width > 0 && a.height > 0
    requires IsInside(a, b)
    ensures CollidesWith(a, b)
  {
  }
}
