/**
 * `Rect2d` of `rect_tree_draw_data.hpp` (the same struct is repeated in
 * `rect_tree_viewer_app.hpp` and `rect_tree_viewer_main.cpp`): an axis-aligned
 * rectangle given by its bottom-left corner and its size, the inclusive
 * point-in-rectangle test and the conversion to the painter's centred form.
 * Coordinates are exact reals instead of `float`.
 */
module Geometry {

  datatype Vec2 = Vec2(x: real, y: real)

  /** The painter's RGBA colour (`Vec4u8`). */
  datatype Color = Color(r: bv8, g: bv8, b: bv8, a: bv8)

  datatype Rect2d = Rect2d(bottomLeft: Vec2, size: Vec2)

  /** `klgl::Painter2d::Rect2d`: a rectangle given by its centre. */
  datatype PainterRect = PainterRect(center: Vec2, size: Vec2, color: Color, rotationDegrees: real)

  /** `Rect2d::Contains`: the offset of the point from the bottom-left corner
    * lies between 0 and the size on both axes, bounds included. */
  predicate Contains(rect: Rect2d, p: Vec2)
  {
    var dx, dy := p.x - rect.bottomLeft.x, p.y - rect.bottomLeft.y;
    dx >= 0.0 && dx <= rect.size.x && dy >= 0.0 && dy <= rect.size.y
  }

  /** `Rect2d::ToPainterRect`: the centre is half the size away from the
    * bottom-left corner, the size and colour are copied and there is no rotation. */
  function ToPainterRect(rect: Rect2d, color: Color): (r: PainterRect)
    ensures r.size == rect.size && r.color == color && r.rotationDegrees == 0.0
    ensures r.center.x - r.size.x / 2.0 == rect.bottomLeft.x
    ensures r.center.y - r.size.y / 2.0 == rect.bottomLeft.y
  {
    PainterRect(
      Vec2(rect.bottomLeft.x + rect.size.x / 2.0, rect.bottomLeft.y + rect.size.y / 2.0),
      rect.size, color, 0.0)
  }

  /** The area of a rectangle: width times height. */
  function Area(rect: Rect2d): real
  {
    rect.size.x * rect.size.y
  }

  /** Both extents are non-negative. */
  predicate NonNegative(rect: Rect2d)
  {
    rect.size.x >= 0.0 && rect.size.y >= 0.0
  }

  /** `inner` lies inside `outer` on both axes. */
  predicate Within(inner: Rect2d, outer: Rect2d)
  {
    && outer.bottomLeft.x <= inner.bottomLeft.x
    && inner.bottomLeft.x + inner.size.x <= outer.bottomLeft.x + outer.size.x
    && outer.bottomLeft.y <= inner.bottomLeft.y
    && inner.bottomLeft.y + inner.size.y <= outer.bottomLeft.y + outer.size.y
  }

  /** The interiors of `a` and `b` do not overlap: one of them ends, on some
    * axis, where the other one begins or before. */
  predicate Disjoint(a: Rect2d, b: Rect2d)
  {
    || a.bottomLeft.x + a.size.x <= b.bottomLeft.x
    || b.bottomLeft.x + b.size.x <= a.bottomLeft.x
    || a.bottomLeft.y + a.size.y <= b.bottomLeft.y
    || b.bottomLeft.y + b.size.y <= a.bottomLeft.y
  }

  /** The test is inclusive on all four edges: it holds exactly on the closed
    * box between the bottom-left and the top-right corner. */
  lemma {:induction false} ContainsIsClosedBox(rect: Rect2d, p: Vec2)
    ensures Contains(rect, p) <==>
      && rect.bottomLeft.x <= p.x <= rect.bottomLeft.x + rect.size.x
      && rect.bottomLeft.y <= p.y <= rect.bottomLeft.y + rect.size.y
  {
  }

  /** A rectangle with a negative extent contains no point. */
  lemma {:induction false} NegativeExtentContainsNothing(rect: Rect2d, p: Vec2)
    requires rect.size.x < 0.0 || rect.size.y < 0.0
    ensures !Contains(rect, p)
  {
  }

  /** A rectangle of size zero contains exactly its bottom-left corner. */
  lemma {:induction false} ZeroSizeContainsOnlyCorner(rect: Rect2d, p: Vec2)
    requires rect.size == Vec2(0.0, 0.0)
    ensures Contains(rect, p) <==> p == rect.bottomLeft
  {
  }

  /** The centre of the painter rectangle lies in the rectangle when its size is
    * non-negative, and so do the four corners. */
  lemma {:induction false} PainterCentreInside(rect: Rect2d, color: Color)
    requires NonNegative(rect)
    ensures Contains(rect, ToPainterRect(rect, color).center)
    ensures Contains(rect, rect.bottomLeft)
    ensures Contains(rect, Vec2(rect.bottomLeft.x + rect.size.x, rect.bottomLeft.y))
    ensures Contains(rect, Vec2(rect.bottomLeft.x, rect.bottomLeft.y + rect.size.y))
    ensures Contains(rect, Vec2(rect.bottomLeft.x + rect.size.x, rect.bottomLeft.y + rect.size.y))
  {
  }

  /** A point of a rectangle nested in another is a point of the other. */
  lemma {:induction false} WithinContains(inner: Rect2d, outer: Rect2d, p: Vec2)
    requires Within(inner, outer) && Contains(inner, p)
    ensures Contains(outer, p)
  {
  }

  lemma {:induction false} WithinTransitive(a: Rect2d, b: Rect2d, c: Rect2d)
    requires Within(a, b) && Within(b, c)
    ensures Within(a, c)
  {
  }

  /** Rectangles inside two interior-disjoint rectangles are interior-disjoint. */
  lemma {:induction false} DisjointWithin(a: Rect2d, b: Rect2d, outerA: Rect2d, outerB: Rect2d)
    requires Within(a, outerA) && Within(b, outerB) && Disjoint(outerA, outerB)
    ensures Disjoint(a, b)
  {
  }
}
