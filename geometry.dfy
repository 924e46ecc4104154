/**
  Geometry primitives of the packer: `Size` and `Point` (Sources/Alpacka/Wrappers).
  Dimensions are unbounded integers where the library uses `Double`.
  `Rect` is not a type of the library: it is the rectangle an item occupies,
  used to state containment and non-overlap.
 */
module Geometry {

  /** A width and a height; `Size(w, h)` is `init(w:h:)`, which stores `w` as
      `width` and `h` as `height`. */
  datatype Size = Size(width: int, height: int) {

    /** `area`: width times height. It is never negative for a non-negative
        size, and it is zero for a size without width or without height. */
    function Area(): (a: int)
      ensures NonNegative() ==> 0 <= a
      ensures width == 0 || height == 0 ==> a == 0
    {
      width * height
    }

    /** `fits(other)`: `other` is neither taller nor wider than this size. */
    predicate Fits(other: Size) {
      other.height <= height && other.width <= width
    }

    /** Sizes are non-negative by convention only; the model states it where it is needed. */
    predicate NonNegative() {
      0 <= width && 0 <= height
    }
  }

  /** An offset from the container's top-left corner. */
  datatype Point = Point(x: int, y: int)

  /** An axis-aligned rectangle: its top-left corner and its extent. */
  datatype Rect = Rect(corner: Point, extent: Size)

  /** The closed rectangle `inner` lies inside the closed rectangle `outer`. */
  predicate Within(inner: Rect, outer: Rect) {
    && outer.corner.x <= inner.corner.x
    && inner.corner.x + inner.extent.width <= outer.corner.x + outer.extent.width
    && outer.corner.y <= inner.corner.y
    && inner.corner.y + inner.extent.height <= outer.corner.y + outer.extent.height
  }

  /** The interiors of `a` and `b` intersect (touching edges do not overlap). */
  predicate Overlap(a: Rect, b: Rect) {
    && a.corner.x < b.corner.x + b.extent.width
    && b.corner.x < a.corner.x + a.extent.width
    && a.corner.y < b.corner.y + b.extent.height
    && b.corner.y < a.corner.y + a.extent.height
  }

  /** Every size fits itself. */
  lemma FitsReflexive(s: Size)
    ensures s.Fits(s)
  {
  }

  /** `fits` is transitive. */
  lemma FitsTransitive(a: Size, b: Size, c: Size)
    requires a.Fits(b) && b.Fits(c)
    ensures a.Fits(c)
  {
  }

  /** `a.Fits(b)` says exactly that a `b`-sized rectangle placed at the corner
      of an `a`-sized one lies inside it. */
  lemma FitsMeansWithin(a: Size, b: Size, corner: Point)
    ensures a.Fits(b) <==> Within(Rect(corner, b), Rect(corner, a))
  {
  }

  /** With non-negative dimensions, a size that fits in another has no larger area. */
  lemma FitsBoundsArea(a: Size, b: Size)
    requires b.NonNegative()
    requires a.Fits(b)
    ensures b.Area() <= a.Area()
  {
    assert b.width * b.height <= a.width * b.height by {
      assert (a.width - b.width) * b.height >= 0;
    }
    assert a.width * b.height <= a.width * a.height by {
      assert a.width * (a.height - b.height) >= 0;
    }
  }
}
