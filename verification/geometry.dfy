/**
 * Box overlap scoring: the intersection-over-union of two axis-aligned
 * `(x, y, w, h)` boxes, as `PeopleTimer.iou` computes it in both the
 * current detector (PeopleDetection.py) and its earlier copy (CreateGraph.py).
 *
 * Coordinates are integers and the ratio is a `real`, i.e. exact rational
 * arithmetic in place of the source's floating-point true division.
 */
module Geometry {

  /** A box given by its top-left corner and its width and height. */
  datatype Box = Box(x: int, y: int, w: int, h: int)

  /** A box whose width and height are not negative. */
  predicate WellFormed(b: Box) {
    b.w >= 0 && b.h >= 0
  }

  function Max(a: int, b: int): int { if a < b then b else a }

  function Min(a: int, b: int): int { if a < b then a else b }

  function Area(b: Box): int { b.w * b.h }

  /** Width of the overlap of the two boxes, clamped at zero. */
  function OverlapWidth(a: Box, b: Box): int {
    Max(0, Min(a.x + a.w, b.x + b.w) - Max(a.x, b.x))
  }

  /** Height of the overlap of the two boxes, clamped at zero. */
  function OverlapHeight(a: Box, b: Box): int {
    Max(0, Min(a.y + a.h, b.y + b.h) - Max(a.y, b.y))
  }

  function Intersection(a: Box, b: Box): int {
    OverlapWidth(a, b) * OverlapHeight(a, b)
  }

  /** The sum of the two areas less the shared part (not clamped: negative
    * widths or heights make it negative, as in the source). */
  function Union(a: Box, b: Box): int {
    Area(a) + Area(b) - Intersection(a, b)
  }

  /**
   * Intersection over union. A zero union (two empty boxes) yields 0
   * instead of a division by zero; otherwise the result is the ratio of
   * the shared area to the union.
   */
  function IoU(a: Box, b: Box): (r: real)
    ensures Union(a, b) == 0 ==> r == 0.0
    ensures Union(a, b) != 0 ==> r * Union(a, b) as real == Intersection(a, b) as real
  {
    var u := Union(a, b);
    if u != 0 then Intersection(a, b) as real / u as real else 0.0
  }

  /** The score does not depend on the order of its arguments. */
  lemma IoUSymmetric(a: Box, b: Box)
    ensures IoU(a, b) == IoU(b, a)
  {
    assert OverlapWidth(a, b) == OverlapWidth(b, a);
    assert OverlapHeight(a, b) == OverlapHeight(b, a);
  }

  /** A box with positive width and height overlaps itself completely. */
  lemma IoUSelf(a: Box)
    requires a.w > 0 && a.h > 0
    ensures IoU(a, a) == 1.0
  {
    assert OverlapWidth(a, a) == a.w;
    assert OverlapHeight(a, a) == a.h;
    assert Intersection(a, a) == Area(a);
    assert Union(a, a) == Area(a) > 0;
    RatioOfSelf(Area(a) as real);
  }

  /**
   * A box with a non-positive width or height shares no area with any box,
   * so its score is 0 and it can never exceed a non-negative threshold.
   */
  lemma IoUDegenerate(a: Box, b: Box)
    requires a.w <= 0 || a.h <= 0
    ensures IoU(a, b) == 0.0
  {
    assert OverlapWidth(a, b) == 0 || OverlapHeight(a, b) == 0;
    assert Intersection(a, b) == 0;
  }

  /** The overlap of two well-formed boxes lies within each box's extent. */
  lemma OverlapWithin(a: Box, b: Box)
    requires WellFormed(a) && WellFormed(b)
    ensures 0 <= Intersection(a, b) <= Area(a)
    ensures Intersection(a, b) <= Area(b)
  {
    var iw, ih := OverlapWidth(a, b), OverlapHeight(a, b);
    assert 0 <= iw <= a.w && iw <= b.w;
    assert 0 <= ih <= a.h && ih <= b.h;
    MulMonotone(iw, ih, a.w, a.h);
    MulMonotone(iw, ih, b.w, b.h);
  }

  lemma MulMonotone(x: int, y: int, bx: int, hy: int)
    requires 0 <= x <= bx && 0 <= y <= hy
    ensures 0 <= x * y <= bx * hy
  {
    assert x * y <= bx * y;
    assert bx * y <= bx * hy;
  }

  /**
   * The score always lies in [0, 1]: a box with a non-positive width or
   * height scores 0, and otherwise both boxes are well formed and the
   * shared area lies between 0 and the union.
   */
  lemma IoUBounds(a: Box, b: Box)
    ensures 0.0 <= IoU(a, b) <= 1.0
  {
    if a.w <= 0 || a.h <= 0 {
      IoUDegenerate(a, b);
    } else if b.w <= 0 || b.h <= 0 {
      IoUDegenerate(b, a);
      IoUSymmetric(a, b);
    } else {
      OverlapWithin(a, b);
      var i, u := Intersection(a, b), Union(a, b);
      assert 0 <= i <= u;
      if u != 0 {
        RatioWithinUnit(i as real, u as real);
      }
    }
  }

  lemma RatioOfSelf(u: real)
    requires u > 0.0
    ensures u / u == 1.0
  {
  }

  lemma RatioWithinUnit(i: real, u: real)
    requires 0.0 <= i <= u && u > 0.0
    ensures 0.0 <= i / u <= 1.0
  {
  }

  /**
   * With a positive union, the match test `IoU(a, b) > t` is the same as
   * comparing the shared area against `t` times the union, with no division.
   */
  lemma MatchByCrossMultiplication(a: Box, b: Box, t: real)
    requires Union(a, b) > 0
    ensures IoU(a, b) > t <==> Intersection(a, b) as real > t * Union(a, b) as real
  {
    CompareScaled(IoU(a, b), t, Union(a, b) as real, Intersection(a, b) as real);
  }

  lemma CompareScaled(r: real, t: real, u: real, p: real)
    requires u > 0.0 && r * u == p
    ensures r > t <==> p > t * u
  {
    if r > t {
      assert r * u > t * u;
    } else {
      assert r * u <= t * u;
    }
  }
}
