/**
  From image pixels to PDF points. The scripts that take a region measured
  on a rendered image (Sprint4-1/CountingPRO.py, Sprint4-1/newPredict.py and
  both areaHighlight.py files) estimate the rendering scale from the image
  and page sizes, divide the pixel coordinates by it and put the corners in
  order. Sprint4-1/areaHighlight.py then whites out the page around the
  region with four mask rectangles.
*/
module Scale {
  import opened Wrappers
  import opened Geometry
  import opened Subtraction

  /** The largest difference between the two axis ratios that passes without
      a warning. */
  const ScaleTolerance: real := 0.001

  /** The one failure of the computation: a division by zero, which Python
      raises as ZeroDivisionError. */
  datatype ScaleError = ZeroPageSide | ZeroZoom

  /** The scale used, and whether the inconsistency warning is printed. */
  datatype Zoom = Zoom(value: real, warn: bool)

  function Abs(x: real): real { if x < 0.0 then -x else x }

  /** `zoom_x = img_w / pw`, `zoom_y = img_h / ph`; a warning when they
      differ by more than the tolerance; the scale is their mean. A page
      side of zero stops the script with a division error. The scale lies
      between the two ratios, at the same distance from both, and equals
      them when they agree; without the warning it is within half the
      tolerance of each. */
  function ComputeZoom(imgW: real, imgH: real, pageW: real, pageH: real): (r: Result<Zoom, ScaleError>)
    ensures r.Err? <==> pageW == 0.0 || pageH == 0.0
    ensures r.Err? ==> r.error == ZeroPageSide
    ensures r.Ok? ==>
      var zx, zy, z := imgW / pageW, imgH / pageH, r.value.value;
      Min(zx, zy) <= z <= Max(zx, zy)
      && z - Min(zx, zy) == Max(zx, zy) - z
      && (zx == zy ==> z == zx)
      && (r.value.warn <==> Abs(zx - zy) > ScaleTolerance)
      && (!r.value.warn ==> Abs(z - zx) <= ScaleTolerance / 2.0 && Abs(z - zy) <= ScaleTolerance / 2.0)
  {
    if pageW == 0.0 || pageH == 0.0 then Err(ZeroPageSide)
    else
      var zx := imgW / pageW;
      var zy := imgH / pageH;
      Ok(Zoom((zx + zy) / 2.0, Abs(zx - zy) > ScaleTolerance))
  }

  /** Every coordinate divided by the scale (`x_px / zoom`). */
  function ToPoints(px: Rect, zoom: real): (pt: Rect)
    requires zoom != 0.0
    ensures pt.x0 * zoom == px.x0 && pt.y0 * zoom == px.y0
    ensures pt.x1 * zoom == px.x1 && pt.y1 * zoom == px.y1
  {
    Rect(px.x0 / zoom, px.y0 / zoom, px.x1 / zoom, px.y1 / zoom)
  }

  /** Every coordinate multiplied by the scale, as the previews draw the
      kept boxes (`v * zoom`); for a non-zero scale it undoes `ToPoints`
      and `ToPoints` undoes it. */
  function ToPixels(pt: Rect, zoom: real): (px: Rect)
    ensures zoom != 0.0 ==> ToPoints(px, zoom) == pt
    ensures zoom != 0.0 ==> forall r: Rect {:trigger ToPoints(r, zoom)} :: ToPoints(r, zoom) == pt ==> px == r
  {
    Rect(pt.x0 * zoom, pt.y0 * zoom, pt.x1 * zoom, pt.y1 * zoom)
  }

  /** The region in points: the pixel corners divided by the scale, then
      put in order with min/max. */
  function RegionFromPixels(px: Rect, zoom: real): (region: Rect)
    requires zoom != 0.0
    ensures IsNormal(region)
    ensures {region.x0, region.x1} == {px.x0 / zoom, px.x1 / zoom}
    ensures {region.y0, region.y1} == {px.y0 / zoom, px.y1 / zoom}
  {
    Normalize(ToPoints(px, zoom))
  }

  /** Giving the two corners in the other order yields the same region. */
  lemma RegionCornerSwap(x1: real, y1: real, x2: real, y2: real, zoom: real)
    requires zoom != 0.0
    ensures RegionFromPixels(Rect(x1, y1, x2, y2), zoom) == RegionFromPixels(Rect(x2, y2, x1, y1), zoom)
    ensures RegionFromPixels(Rect(x1, y1, x2, y2), zoom) == RegionFromPixels(Rect(x1, y2, x2, y1), zoom)
  {
    var a := RegionFromPixels(Rect(x1, y1, x2, y2), zoom);
    NormalUnique(a, RegionFromPixels(Rect(x2, y2, x1, y1), zoom));
    NormalUnique(a, RegionFromPixels(Rect(x1, y2, x2, y1), zoom));
  }

  /** For a positive scale, converting then ordering is ordering then
      converting; and a point lies in the region exactly when the pixel
      it scales to lies in the ordered pixel rectangle. */
  lemma RegionMatchesPixels(px: Rect, zoom: real, p: Point)
    requires zoom > 0.0
    ensures RegionFromPixels(px, zoom) == ToPoints(Normalize(px), zoom)
    ensures Contains(RegionFromPixels(px, zoom), p) <==> Contains(Normalize(px), Point(p.x * zoom, p.y * zoom))
  {
    var n := Normalize(px);
    var s := ToPoints(n, zoom);
    assert RegionFromPixels(px, zoom) == s by {
      DivideKeepsOrder(n.x0, n.x1, zoom);
      DivideKeepsOrder(n.y0, n.y1, zoom);
      NormalUnique(RegionFromPixels(px, zoom), s);
    }
    ScaledContains(n, zoom, p);
  }

  /** A point lies in `ToPoints(n, zoom)` exactly when its scaled image
      lies in `n`. */
  lemma ScaledContains(n: Rect, zoom: real, p: Point)
    requires zoom > 0.0
    ensures Contains(ToPoints(n, zoom), p) <==> Contains(n, Point(p.x * zoom, p.y * zoom))
  {
    var s := ToPoints(n, zoom);
    assert s.x0 * zoom == n.x0 && s.x1 * zoom == n.x1 && s.y0 * zoom == n.y0 && s.y1 * zoom == n.y1;
    ScaleKeepsOrder(s.x0, p.x, zoom);
    ScaleKeepsOrder(p.x, s.x1, zoom);
    ScaleKeepsOrder(s.y0, p.y, zoom);
    ScaleKeepsOrder(p.y, s.y1, zoom);
  }

  lemma DivideKeepsOrder(a: real, b: real, zoom: real)
    requires zoom > 0.0 && a <= b
    ensures a / zoom <= b / zoom
  {
    ScaleKeepsOrder(a / zoom, b / zoom, zoom);
  }

  lemma ScaleKeepsOrder(a: real, b: real, zoom: real)
    requires zoom > 0.0
    ensures a <= b <==> a * zoom <= b * zoom
    ensures a < b <==> a * zoom < b * zoom
  {
    assert b * zoom - a * zoom == (b - a) * zoom;
    if a < b {
      assert (b - a) * zoom > 0.0;
    } else {
      assert (a - b) * zoom >= 0.0;
    }
  }

  /** The page of width `pw` and height `ph`, with its origin at the corner. */
  function Page(pw: real, ph: real): Rect { Rect(0.0, 0.0, pw, ph) }

  /** The four white masks drawn around the region: the full-width band
      above it, the full-width band below it, and the parts left and right
      of it between those bands. They are drawn whatever the region's size,
      so some may be empty. */
  function Masks(pw: real, ph: real, roi: Rect): (masks: seq<Rect>)
    ensures |masks| == 4
    ensures masks[0].y1 == roi.y0 && masks[1].y0 == roi.y1
    ensures masks[2].x1 == roi.x0 && masks[3].x0 == roi.x1
  {
    [ Rect(0.0, 0.0, pw, roi.y0),
      Rect(0.0, roi.y1, pw, ph),
      Rect(0.0, roi.y0, roi.x0, roi.y1),
      Rect(roi.x1, roi.y0, pw, roi.y1) ]
  }

  /** For an ordered region, no mask overlaps the region, and every point of
      the page lies in exactly one of the masks and the region: everything
      outside the region is filled, nothing inside it is. */
  lemma MasksCoverPage(pw: real, ph: real, roi: Rect, p: Point)
    requires IsNormal(roi)
    ensures forall i :: 0 <= i < 4 ==> !Intersects(Masks(pw, ph, roi)[i], roi)
    ensures Contains(Page(pw, ph), p) ==> CountContaining(Masks(pw, ph, roi) + [roi], p) == 1
  {
    var m := Masks(pw, ph, roi);
    CountConcat(m, [roi], p);
    assert m == [m[0]] + [m[1]] + [m[2]] + [m[3]];
    CountConcat([m[0]] + [m[1]] + [m[2]], [m[3]], p);
    CountConcat([m[0]] + [m[1]], [m[2]], p);
    CountConcat([m[0]], [m[1]], p);
  }

  /** When the region lies within the page, the masks and the region tile
      the page exactly: no point outside the page is painted either. */
  lemma MasksPartitionPage(pw: real, ph: real, roi: Rect, p: Point)
    requires 0.0 <= roi.x0 <= roi.x1 <= pw && 0.0 <= roi.y0 <= roi.y1 <= ph
    ensures CountContaining(Masks(pw, ph, roi) + [roi], p) == if Contains(Page(pw, ph), p) then 1 else 0
  {
    MasksCoverPage(pw, ph, roi, p);
    var m := Masks(pw, ph, roi);
    CountConcat(m, [roi], p);
    assert m == [m[0]] + [m[1]] + [m[2]] + [m[3]];
    CountConcat([m[0]] + [m[1]] + [m[2]], [m[3]], p);
    CountConcat([m[0]] + [m[1]], [m[2]], p);
    CountConcat([m[0]], [m[1]], p);
  }

  /** A region strictly inside the page gets the same four rectangles, in
      the same order, as subtracting it from the page with `subtract_rect`. */
  lemma MasksAreSubtraction(pw: real, ph: real, roi: Rect)
    requires 0.0 < roi.x0 < roi.x1 < pw && 0.0 < roi.y0 < roi.y1 < ph
    ensures Masks(pw, ph, roi) == SubtractRect(Page(pw, ph), roi)
  {
    var page := Page(pw, ph);
    assert Inter(page, roi) == roi;
    assert Intersects(page, roi);
  }
}
