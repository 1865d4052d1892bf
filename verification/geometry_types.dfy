/**
 * The rectangle and padding value types (Sources/Dependencies/Includes/geometry_types.h),
 * for an integral coordinate type: a `Rectangle` is an origin and a size,
 * a `Padding` (also used as a `Margin`) four edge insets. Adding a padding
 * shrinks a rectangle inward, subtracting one grows it outward.
 *
 * Coordinates are unbounded integers here; the desktop (lines 12-210) and
 * browser (lines 212-410) variants define the same formulas.
 */
module GeometryTypes {

  /** `Padding<T>` (geometry_types.h:14-19); `Margin<T>` is the same type. */
  datatype Padding = Padding(left: int, top: int, right: int, bottom: int)

  /** `Rectangle<T>` (geometry_types.h:27-37). */
  datatype Rectangle = Rectangle(x: int, y: int, width: int, height: int)

  /** `right()` (geometry_types.h:119-121): one past the last column. */
  function Right(r: Rectangle): (v: int)
    ensures v - r.width == r.x
  {
    r.x + r.width
  }

  /** `bottom()` (geometry_types.h:123-125): one past the last row. */
  function Bottom(r: Rectangle): (v: int)
    ensures v - r.height == r.y
  {
    r.y + r.height
  }

  /** `operator+(Padding)` (geometry_types.h:85-92): every edge moves inward by its inset. */
  function Shrink(r: Rectangle, p: Padding): (s: Rectangle)
    ensures s.x == r.x + p.left && s.y == r.y + p.top
    ensures Right(s) == Right(r) - p.right && Bottom(s) == Bottom(r) - p.bottom
  {
    Rectangle(r.x + p.left, r.y + p.top, r.width - (p.left + p.right), r.height - (p.top + p.bottom))
  }

  /** `operator-(Padding)` (geometry_types.h:94-101): every edge moves outward by its inset. */
  function Grow(r: Rectangle, p: Padding): (g: Rectangle)
    ensures g.x == r.x - p.left && g.y == r.y - p.top
    ensures Right(g) == Right(r) + p.right && Bottom(g) == Bottom(r) + p.bottom
  {
    Rectangle(r.x - p.left, r.y - p.top, r.width + (p.left + p.right), r.height + (p.top + p.bottom))
  }

  /** Taking a padding off and putting it back, in either order, gives the rectangle back. */
  lemma ShrinkGrowInverse(r: Rectangle, p: Padding)
    ensures Grow(Shrink(r, p), p) == r
    ensures Shrink(Grow(r, p), p) == r
  {
  }

  /** `contains(px, py)` (geometry_types.h:105-108): the left and top edges are inside, the right and bottom edges are not. */
  predicate Contains(r: Rectangle, px: int, py: int)
  {
    px >= r.x && px < r.x + r.width && py >= r.y && py < r.y + r.height
  }

  /**
   * `contains` is half-open: a non-empty rectangle holds its origin but not
   * the points on its right or bottom edge, and an empty one holds nothing.
   */
  lemma ContainsHalfOpen(r: Rectangle, px: int, py: int)
    ensures r.width > 0 && r.height > 0 ==> Contains(r, r.x, r.y)
    ensures !Contains(r, Right(r), py) && !Contains(r, px, Bottom(r))
    ensures r.width <= 0 || r.height <= 0 ==> !Contains(r, px, py)
    ensures Contains(r, px, py) <==> r.x <= px < Right(r) && r.y <= py < Bottom(r)
  {
  }

  /** `intersects(other)` (geometry_types.h:112-117): the open interiors overlap. */
  predicate Intersects(r: Rectangle, other: Rectangle)
  {
    !(other.x >= r.x + r.width ||
      other.x + other.width <= r.x ||
      other.y >= r.y + r.height ||
      other.y + other.height <= r.y)
  }

  /** `intersects` does not depend on which rectangle asks. */
  lemma IntersectsSymmetric(a: Rectangle, b: Rectangle)
    ensures Intersects(a, b) <==> Intersects(b, a)
  {
  }

  /** Two rectangles with a common point intersect; intersecting rectangles of positive size share a point. */
  lemma IntersectsWitness(a: Rectangle, b: Rectangle)
    ensures (exists px, py :: Contains(a, px, py) && Contains(b, px, py)) ==> Intersects(a, b)
    ensures Intersects(a, b) && a.width > 0 && a.height > 0 && b.width > 0 && b.height > 0 ==>
      var px := if a.x < b.x then b.x else a.x;
      var py := if a.y < b.y then b.y else a.y;
      Contains(a, px, py) && Contains(b, px, py)
  {
  }

  /** Shrinking by a padding with no negative inset keeps every contained point inside the original. */
  lemma ShrinkInside(r: Rectangle, p: Padding, px: int, py: int)
    requires p.left >= 0 && p.top >= 0 && p.right >= 0 && p.bottom >= 0
    ensures Contains(Shrink(r, p), px, py) ==> Contains(r, px, py)
    ensures Contains(r, px, py) ==> Contains(Grow(r, p), px, py)
  {
  }

  /** `MarginRectangle` (geometry_types.h:130-151): a rectangle and the margin around it. */
  datatype MarginRectangle = MarginRectangle(rect: Rectangle, margin: Padding)

  /** `MarginRectangle::with_margin` (geometry_types.h:144-146): the rectangle grown by its margin. */
  function WithMargin(m: MarginRectangle): (r: Rectangle)
    ensures Shrink(r, m.margin) == m.rect
  {
    Grow(m.rect, m.margin)
  }

  /** `PaddedRectangle` (geometry_types.h:155-176): a rectangle and its inner padding. */
  datatype PaddedRectangle = PaddedRectangle(rect: Rectangle, padding: Padding)

  /** `PaddedRectangle::with_padding` (geometry_types.h:169-171): the content area inside the padding. */
  function WithPadding(p: PaddedRectangle): (r: Rectangle)
    ensures Grow(r, p.padding) == p.rect
  {
    Shrink(p.rect, p.padding)
  }

  /** `Box` (geometry_types.h:180-210): a rectangle with both a padding and a margin. */
  datatype Box = Box(rect: Rectangle, padding: Padding, margin: Padding)

  /** `Box::with_padding` (geometry_types.h:195-197). */
  function BoxWithPadding(b: Box): (r: Rectangle)
    ensures r == WithPadding(PaddedRectangle(b.rect, b.padding))
    ensures Grow(r, b.padding) == b.rect
  {
    Shrink(b.rect, b.padding)
  }

  /** `Box::with_margin` (geometry_types.h:203-205). */
  function BoxWithMargin(b: Box): (r: Rectangle)
    ensures r == WithMargin(MarginRectangle(b.rect, b.margin))
    ensures Shrink(r, b.margin) == b.rect
  {
    Grow(b.rect, b.margin)
  }
}
