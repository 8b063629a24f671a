/**
  Axis-aligned rectangles and points, in a single coordinate space (rendered
  pixels or PDF points). A rectangle is stored as the PDF library stores it:
  the corners (x0, y0) and (x1, y1), with y growing downwards.

  Point membership is half-open, [x0, x1) × [y0, y1): a rectangle owns its
  top and left edges but not its bottom and right ones. With this convention
  the pieces produced by rectangle subtraction partition their base exactly.
*/
module Geometry {

  datatype Point = Point(x: real, y: real)

  datatype Rect = Rect(x0: real, y0: real, x1: real, y1: real)

  function Min(a: real, b: real): real { if a <= b then a else b }

  function Max(a: real, b: real): real { if a <= b then b else a }

  /** Corners in the library's order: top-left before bottom-right. */
  predicate IsNormal(r: Rect) { r.x0 <= r.x1 && r.y0 <= r.y1 }

  /** No positive area, hence (see EmptyHasNoPoint) no point. */
  predicate IsEmpty(r: Rect) { !(r.x0 < r.x1 && r.y0 < r.y1) }

  predicate Contains(r: Rect, p: Point) { r.x0 <= p.x < r.x1 && r.y0 <= p.y < r.y1 }

  /** The raw edge differences. PyMuPDF's `width` and `height` are these
      clamped at 0; the two agree on normalised rectangles, such as the page
      rectangles whose sides give the scale. */
  function Width(r: Rect): real { r.x1 - r.x0 }

  function Height(r: Rect): real { r.y1 - r.y0 }

  function Area(r: Rect): real { Width(r) * Height(r) }

  lemma EmptyHasNoPoint(r: Rect, p: Point)
    requires IsEmpty(r)
    ensures !Contains(r, p)
  {
  }

  /** The `&` operator of the library's rectangles: componentwise max of the
      top-left corners and min of the bottom-right ones. Its points are
      exactly the points the two rectangles share. */
  function Inter(a: Rect, b: Rect): (r: Rect)
    ensures forall p :: Contains(r, p) <==> Contains(a, p) && Contains(b, p)
  {
    Rect(Max(a.x0, b.x0), Max(a.y0, b.y0), Min(a.x1, b.x1), Min(a.y1, b.y1))
  }

  /** The library's `intersects`: the overlap has positive area. */
  predicate Intersects(a: Rect, b: Rect) { !IsEmpty(Inter(a, b)) }

  /** Under half-open membership, positive-area overlap and sharing a point
      are the same thing. */
  lemma IntersectsIffCommonPoint(a: Rect, b: Rect)
    ensures Intersects(a, b) <==> exists p :: Contains(a, p) && Contains(b, p)
  {
    var i := Inter(a, b);
    if Intersects(a, b) {
      assert Contains(i, Point(i.x0, i.y0));
    }
    if exists p :: Contains(a, p) && Contains(b, p) {
      var p :| Contains(a, p) && Contains(b, p);
      assert Contains(i, p);
    }
  }

  lemma IntersectsSymmetric(a: Rect, b: Rect)
    ensures Intersects(a, b) == Intersects(b, a)
  {
  }

  /** `inner` has no point outside `outer`, stated on the coordinates. */
  predicate Inside(inner: Rect, outer: Rect)
  {
    IsEmpty(inner) ||
    (outer.x0 <= inner.x0 && inner.x1 <= outer.x1 && outer.y0 <= inner.y0 && inner.y1 <= outer.y1)
  }

  lemma InsideMeansPointsInside(inner: Rect, outer: Rect, p: Point)
    requires Inside(inner, outer) && Contains(inner, p)
    ensures Contains(outer, p)
  {
  }

  lemma InsideTransitive(a: Rect, b: Rect, c: Rect)
    requires Inside(a, b) && Inside(b, c)
    ensures Inside(a, c)
  {
  }

  /** A rectangle inside one that misses `s` misses `s` too. */
  lemma InsideKeepsDisjoint(a: Rect, b: Rect, s: Rect)
    requires Inside(a, b) && !Intersects(b, s)
    ensures !Intersects(a, s)
  {
  }

  /** Midpoint of the box, as `center` in the counting scripts. */
  function Center(r: Rect): (c: Point)
    ensures c.x - r.x0 == r.x1 - c.x && c.y - r.y0 == r.y1 - c.y
  {
    Point((r.x0 + r.x1) / 2.0, (r.y0 + r.y1) / 2.0)
  }

  lemma CenterInside(r: Rect)
    requires !IsEmpty(r)
    ensures Contains(r, Center(r))
  {
  }

  /** The rectangle spanned by two corner points in either order: the min/max
      normalisation every script applies to a drag, a detection or a typed pair
      of points. */
  function RectFromPoints(p: Point, q: Point): (r: Rect)
    ensures IsNormal(r)
    ensures {r.x0, r.x1} == {p.x, q.x} && {r.y0, r.y1} == {p.y, q.y}
  {
    Rect(Min(p.x, q.x), Min(p.y, q.y), Max(p.x, q.x), Max(p.y, q.y))
  }

  /** A normal rectangle with the corner coordinates of `r`. */
  function Normalize(r: Rect): (n: Rect)
    ensures IsNormal(n)
    ensures {n.x0, n.x1} == {r.x0, r.x1} && {n.y0, n.y1} == {r.y0, r.y1}
    ensures IsNormal(r) ==> n == r
  {
    RectFromPoints(Point(r.x0, r.y0), Point(r.x1, r.y1))
  }

  /** The normal rectangle with given corner coordinates is unique, so the
      order in which the two points are given does not matter. */
  lemma {:induction false} RectFromPointsSymmetric(p: Point, q: Point)
    ensures RectFromPoints(p, q) == RectFromPoints(q, p)
  {
    var a, b := RectFromPoints(p, q), RectFromPoints(q, p);
    NormalUnique(a, b);
  }

  lemma NormalUnique(a: Rect, b: Rect)
    requires IsNormal(a) && IsNormal(b)
    requires {a.x0, a.x1} == {b.x0, b.x1} && {a.y0, a.y1} == {b.y0, b.y1}
    ensures a == b
  {
    assert a.x0 in {b.x0, b.x1} && a.x1 in {b.x0, b.x1};
    assert b.x0 in {a.x0, a.x1} && b.x1 in {a.x0, a.x1};
    assert a.y0 in {b.y0, b.y1} && a.y1 in {b.y0, b.y1};
    assert b.y0 in {a.y0, a.y1} && b.y1 in {a.y0, a.y1};
  }

  lemma NormalizeIdempotent(r: Rect)
    ensures Normalize(Normalize(r)) == Normalize(r)
  {
  }

  /** How many rectangles of `rs` hold `p`; 1 everywhere on a region means
      the rectangles tile it without overlap. */
  function CountContaining(rs: seq<Rect>, p: Point): nat
  {
    if |rs| == 0 then 0
    else (if Contains(rs[0], p) then 1 else 0) + CountContaining(rs[1..], p)
  }

  lemma {:induction false} CountConcat(a: seq<Rect>, b: seq<Rect>, p: Point)
    ensures CountContaining(a + b, p) == CountContaining(a, p) + CountContaining(b, p)
    decreases |a|
  {
    if |a| == 0 {
      assert a + b == b;
    } else {
      assert (a + b)[1..] == a[1..] + b;
      CountConcat(a[1..], b, p);
    }
  }

  /** A point counted at most once lies in no two of the rectangles. */
  lemma {:induction false} CountAtMostOneNoOverlap(rs: seq<Rect>, i: int, j: int, p: Point)
    requires 0 <= i < j < |rs|
    requires Contains(rs[i], p) && Contains(rs[j], p)
    ensures CountContaining(rs, p) >= 2
    decreases |rs|
  {
    if i == 0 {
      CountAtLeastOne(rs[1..], j - 1, p);
    } else {
      CountAtMostOneNoOverlap(rs[1..], i - 1, j - 1, p);
    }
  }

  lemma {:induction false} CountAtLeastOne(rs: seq<Rect>, i: int, p: Point)
    requires 0 <= i < |rs| && Contains(rs[i], p)
    ensures CountContaining(rs, p) >= 1
    decreases |rs|
  {
    if i > 0 {
      CountAtLeastOne(rs[1..], i - 1, p);
    }
  }

  lemma {:induction false} CountPositiveHasWitness(rs: seq<Rect>, p: Point)
    requires CountContaining(rs, p) >= 1
    ensures exists i :: 0 <= i < |rs| && Contains(rs[i], p)
    decreases |rs|
  {
    if !Contains(rs[0], p) {
      CountPositiveHasWitness(rs[1..], p);
      var i :| 0 <= i < |rs[1..]| && Contains(rs[1..][i], p);
      assert Contains(rs[i + 1], p);
    }
  }

  /** Summed area of a list of rectangles. */
  function SumArea(rs: seq<Rect>): real
  {
    if |rs| == 0 then 0.0 else Area(rs[0]) + SumArea(rs[1..])
  }
}
