/**
 * Axis-aligned rectangles and the overlap test used for every collision:
 * pygame's Rect.colliderect in main.py and rectOverlap in sketch.js.
 * Coordinates are half-pixels, so every rectangle is the source's scaled by 2.
 */
module Geometry {

  /** Left edge x, top edge y, width w, height h; the rectangle covers [x, x + w) x [y, y + h). */
  datatype Rect = Rect(x: int, y: int, w: int, h: int)

  predicate Contains(r: Rect, px: int, py: int) {
    r.x <= px < r.x + r.w && r.y <= py < r.y + r.h
  }

  predicate HasArea(r: Rect) { r.w > 0 && r.h > 0 }

  /** rectOverlap: not separated along either axis. */
  predicate Overlap(a: Rect, b: Rect) {
    !(a.x + a.w <= b.x ||
      a.x >= b.x + b.w ||
      a.y + a.h <= b.y ||
      a.y >= b.y + b.h)
  }

  lemma OverlapSymmetric(a: Rect, b: Rect)
    ensures Overlap(a, b) == Overlap(b, a)
  {
  }

  /**
   * For rectangles with area, the test holds exactly when the half-open
   * rectangles share a unit cell, so rectangles that only touch along an edge
   * do not collide.
   */
  lemma OverlapIffSharedCell(a: Rect, b: Rect)
    requires HasArea(a) && HasArea(b)
    ensures Overlap(a, b) <==> exists px, py :: Contains(a, px, py) && Contains(b, px, py)
  {
    if Overlap(a, b) {
      var px := if a.x < b.x then b.x else a.x;
      var py := if a.y < b.y then b.y else a.y;
      assert Contains(a, px, py) && Contains(b, px, py);
    }
  }

  /** Edge contact is no collision. */
  lemma TouchingIsNotOverlap(a: Rect, b: Rect)
    requires a.x + a.w == b.x || b.x + b.w == a.x || a.y + a.h == b.y || b.y + b.h == a.y
    ensures !Overlap(a, b)
  {
  }

  /** Python's int() of the pixel value of a half-pixel coordinate: truncation toward zero. */
  function PxTrunc(h: int): int {
    if h >= 0 then h / 2 else -((-h) / 2)
  }

  /**
   * main.py's `rect.center = (int(x), int(y))` for a square of side `size`
   * (half-pixels, an even number of pixels): the left edge is int(x) minus half the side.
   */
  function CentredRect(x: int, y: int, size: int): Rect {
    Rect(2 * PxTrunc(x) - size / 2, 2 * PxTrunc(y) - size / 2, size, size)
  }

  /** sketch.js's `rect.x = int(this.x - side / 2)`. */
  function JsCentredRect(x: int, y: int, size: int): Rect {
    Rect(2 * PxTrunc(x - size / 2), 2 * PxTrunc(y - size / 2), size, size)
  }

  /**
   * The two ports place a mover's rectangle identically when its pixel
   * position is a whole number or lies at least half a side from the origin.
   */
  lemma CentredRectsAgree(x: int, y: int, size: int)
    requires size >= 0 && size % 4 == 0
    requires x % 2 == 0 || x >= size / 2
    requires y % 2 == 0 || y >= size / 2
    ensures CentredRect(x, y, size) == JsCentredRect(x, y, size)
  {
  }

  /** The rectangle of a mover centred at (x, y) is centred there, to the half-pixel. */
  lemma CentredRectAround(x: int, y: int, size: int)
    requires x >= 0 && y >= 0 && size >= 0 && size % 4 == 0
    ensures var r := CentredRect(x, y, size);
      r.x + size / 2 <= x <= r.x + size / 2 + 1 && r.y + size / 2 <= y <= r.y + size / 2 + 1
  {
  }
}
