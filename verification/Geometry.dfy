/**
 * Points and bounds of crates/gpui/src/geometry.rs, with real coordinates.
 *
 * Sizes may be negative: nothing in the code forbids it, and the tree does not
 * need them to be positive.
 */
module Geometry {

  datatype Point = Point(x: real, y: real)
  {
    function Max(other: Point): Point {
      Point(if x > other.x then x else other.x, if y > other.y then y else other.y)
    }

    function Min(other: Point): Point {
      Point(if x <= other.x then x else other.x, if y <= other.y then y else other.y)
    }
  }

  datatype Size = Size(width: real, height: real)

  datatype Bounds = Bounds(origin: Point, size: Size)
  {
    function BottomRight(): Point {
      Point(origin.x + size.width, origin.y + size.height)
    }

    static function FromCorners(topLeft: Point, bottomRight: Point): Bounds {
      Bounds(topLeft, Size(bottomRight.x - topLeft.x, bottomRight.y - topLeft.y))
    }

    function Union(other: Bounds): Bounds {
      FromCorners(origin.Min(other.origin), BottomRight().Max(other.BottomRight()))
    }

    predicate Intersects(other: Bounds) {
      && origin.x < other.BottomRight().x
      && BottomRight().x > other.origin.x
      && origin.y < other.BottomRight().y
      && BottomRight().y > other.origin.y
    }

    function HalfPerimeter(): real {
      size.width + size.height
    }

    /** The corners of this box do not stick out of the corners of `outer`. */
    predicate Inside(outer: Bounds) {
      && outer.origin.x <= origin.x
      && outer.origin.y <= origin.y
      && BottomRight().x <= outer.BottomRight().x
      && BottomRight().y <= outer.BottomRight().y
    }

    /** The point lies in the interior of the box. */
    predicate Contains(p: Point) {
      origin.x < p.x < BottomRight().x && origin.y < p.y < BottomRight().y
    }
  }

  /** `Union` is the least box, in the `Inside` order, that holds both boxes. */
  lemma UnionIsLeast(a: Bounds, b: Bounds, c: Bounds)
    ensures a.Inside(a.Union(b)) && b.Inside(a.Union(b))
    ensures a.Inside(c) && b.Inside(c) <==> a.Union(b).Inside(c)
    ensures b.Inside(a) <==> a.Union(b) == a
  {}

  /** Boxes with an interior intersect exactly when their interiors share a point. */
  lemma IntersectsIffCommonPoint(a: Bounds, b: Bounds)
    requires a.size.width > 0.0 && a.size.height > 0.0
    requires b.size.width > 0.0 && b.size.height > 0.0
    ensures a.Intersects(b) <==> exists p :: a.Contains(p) && b.Contains(p)
  {
    if a.Intersects(b) {
      var lo := a.origin.Max(b.origin);
      var hi := a.BottomRight().Min(b.BottomRight());
      var p := Point((lo.x + hi.x) / 2.0, (lo.y + hi.y) / 2.0);
      assert a.Contains(p) && b.Contains(p);
    }
  }

  /** Boxes of any size, negative ones included: each begins before the other one ends, and more so does a larger box. */
  lemma IntersectsForAnySize(a: Bounds, b: Bounds, c: Bounds)
    ensures a.Intersects(b) <==>
              && a.origin.x < b.origin.x + b.size.width && b.origin.x < a.origin.x + a.size.width
              && a.origin.y < b.origin.y + b.size.height && b.origin.y < a.origin.y + a.size.height
    ensures a.Intersects(b) <==> b.Intersects(a)
    ensures a.Inside(c) && a.Intersects(b) ==> c.Intersects(b)
  {}

  /** What the choice of a child compares: the extent of the union along both axes. */
  lemma UnionHalfPerimeter(a: Bounds, b: Bounds)
    ensures var left, top := if a.origin.x < b.origin.x then a.origin.x else b.origin.x, if a.origin.y < b.origin.y then a.origin.y else b.origin.y;
            var ar, ab, br, bb := a.origin.x + a.size.width, a.origin.y + a.size.height, b.origin.x + b.size.width, b.origin.y + b.size.height;
            a.Union(b).HalfPerimeter() == (if ar > br then ar else br) - left + (if ab > bb then ab else bb) - top
  {}
}
