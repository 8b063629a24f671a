/**
  Rectangle subtraction: `subtract_rect` and `subtract_rects`, identical in
  CoverAndCount/Counting.py, Sprint4-1/CountingPRO.py and Sprint4-1/newPredict.py.
  The result of subtracting the kept regions from the page is the list of
  areas the scripts white out.
*/
module Subtraction {
  import opened Geometry

  /** `base` minus `sub`: `[base]` when they do not overlap, otherwise up to
      four strips of `base` around the overlap, in the order top, bottom,
      left, right, each only when it has positive extent. */
  function SubtractRect(base: Rect, sub: Rect): (pieces: seq<Rect>)
    ensures |pieces| <= 4
    ensures !Intersects(base, sub) ==> pieces == [base]
    ensures forall i :: 0 <= i < |pieces| ==> Inside(pieces[i], base) && !Intersects(pieces[i], sub)
    ensures Intersects(base, sub) ==> forall i :: 0 <= i < |pieces| ==> !IsEmpty(pieces[i])
  {
    if !Intersects(base, sub) then [base]
    else
      var inter := Inter(base, sub);
      assert forall p :: Contains(inter, p) ==> Contains(sub, p);
      Strips(base, inter)
  }

  /** The strips of `base` around an overlap `inter` lying inside it. */
  function Strips(base: Rect, inter: Rect): (pieces: seq<Rect>)
    requires OverlapIn(inter, base)
    ensures |pieces| <= 4
    ensures forall i :: 0 <= i < |pieces| ==> Inside(pieces[i], base) && !IsEmpty(pieces[i]) && !Intersects(pieces[i], inter)
  {
    (if inter.y0 > base.y0 then [Rect(base.x0, base.y0, base.x1, inter.y0)] else [])
    + (if inter.y1 < base.y1 then [Rect(base.x0, inter.y1, base.x1, base.y1)] else [])
    + (if inter.x0 > base.x0 then [Rect(base.x0, inter.y0, inter.x0, inter.y1)] else [])
    + (if inter.x1 < base.x1 then [Rect(inter.x1, inter.y0, base.x1, inter.y1)] else [])
  }

  /** `inter` is a rectangle of positive area inside `base`, as the overlap
      of `base` with anything it intersects is. */
  predicate OverlapIn(inter: Rect, base: Rect)
  {
    base.x0 <= inter.x0 < inter.x1 <= base.x1 && base.y0 <= inter.y0 < inter.y1 <= base.y1
  }

  /** Every point of `base` outside `sub` lies in exactly one piece, and no
      other point lies in any piece. */
  lemma SubtractRectPartition(base: Rect, sub: Rect, p: Point)
    ensures CountContaining(SubtractRect(base, sub), p)
         == if Contains(base, p) && !Contains(sub, p) then 1 else 0
  {
    if Intersects(base, sub) {
      var inter := Inter(base, sub);
      StripsPartition(base, inter, p);
      assert Contains(inter, p) <==> Contains(base, p) && Contains(sub, p);
    } else {
      IntersectsIffCommonPoint(base, sub);
    }
  }

  lemma StripsPartition(base: Rect, inter: Rect, p: Point)
    requires OverlapIn(inter, base)
    ensures CountContaining(Strips(base, inter), p)
         == if Contains(base, p) && !Contains(inter, p) then 1 else 0
  {
    var top := if inter.y0 > base.y0 then [Rect(base.x0, base.y0, base.x1, inter.y0)] else [];
    var bottom := if inter.y1 < base.y1 then [Rect(base.x0, inter.y1, base.x1, base.y1)] else [];
    var left := if inter.x0 > base.x0 then [Rect(base.x0, inter.y0, inter.x0, inter.y1)] else [];
    var right := if inter.x1 < base.x1 then [Rect(inter.x1, inter.y0, base.x1, inter.y1)] else [];
    assert Strips(base, inter) == top + bottom + left + right;
    CountConcat(top + bottom + left, right, p);
    CountConcat(top + bottom, left, p);
    CountConcat(top, bottom, p);
  }

  /** Area conservation: the pieces and the overlap add up to the area of
      `base`. It needs the rectangles to intersect because `Area` is the raw
      product of the sides: for disjoint rectangles `Inter` is not normalised
      and its area can be positive (4.0 for (0,0,1,1) and (3,3,4,4)). That
      case is covered by SubtractRect's `[base]` clause. */
  lemma SubtractRectArea(base: Rect, sub: Rect)
    requires Intersects(base, sub)
    ensures SumArea(SubtractRect(base, sub)) + Area(Inter(base, sub)) == Area(base)
  {
    StripsArea(base, Inter(base, sub));
  }

  lemma StripsArea(base: Rect, i: Rect)
    requires OverlapIn(i, base)
    ensures SumArea(Strips(base, i)) + Area(i) == Area(base)
  {
    StripsSumArea(base, i);
    AreaIdentity(base, i);
  }

  /** The strips' summed area is that of the four strips whether or not each
      was emitted: one left out would have had no area. */
  lemma StripsSumArea(base: Rect, i: Rect)
    requires OverlapIn(i, base)
    ensures SumArea(Strips(base, i))
         == Area(Rect(base.x0, base.y0, base.x1, i.y0)) + Area(Rect(base.x0, i.y1, base.x1, base.y1))
          + Area(Rect(base.x0, i.y0, i.x0, i.y1)) + Area(Rect(i.x1, i.y0, base.x1, i.y1))
  {
    var rt := Rect(base.x0, base.y0, base.x1, i.y0);
    var rb := Rect(base.x0, i.y1, base.x1, base.y1);
    var rl := Rect(base.x0, i.y0, i.x0, i.y1);
    var rr := Rect(i.x1, i.y0, base.x1, i.y1);
    var top := if i.y0 > base.y0 then [rt] else [];
    var bottom := if i.y1 < base.y1 then [rb] else [];
    var left := if i.x0 > base.x0 then [rl] else [];
    var right := if i.x1 < base.x1 then [rr] else [];
    assert Strips(base, i) == top + bottom + left + right;
    SumAreaConcat(top + bottom + left, right);
    SumAreaConcat(top + bottom, left);
    SumAreaConcat(top, bottom);
    StripArea(i.y0 > base.y0, rt);
    StripArea(i.y1 < base.y1, rb);
    StripArea(i.x0 > base.x0, rl);
    StripArea(i.x1 < base.x1, rr);
  }

  /** A strip that is left out has no area, so leaving it out loses nothing. */
  lemma StripArea(keep: bool, r: Rect)
    requires !keep ==> Width(r) == 0.0 || Height(r) == 0.0
    ensures SumArea(if keep then [r] else []) == Area(r)
  {
    if !keep {
      assert Width(r) * Height(r) == 0.0;
    }
  }

  /** Top, bottom, left and right strips plus the overlap make up the area
      of the base. */
  lemma AreaIdentity(b: Rect, i: Rect)
    ensures Area(Rect(b.x0, b.y0, b.x1, i.y0)) + Area(Rect(b.x0, i.y1, b.x1, b.y1))
          + Area(Rect(b.x0, i.y0, i.x0, i.y1)) + Area(Rect(i.x1, i.y0, b.x1, i.y1)) + Area(i)
         == Area(b)
  {
    var w, h := b.x1 - b.x0, i.y1 - i.y0;
    assert (i.x0 - b.x0) * h + (b.x1 - i.x1) * h + (i.x1 - i.x0) * h == w * h;
    assert w * (i.y0 - b.y0) + w * (b.y1 - i.y1) + w * h == w * (b.y1 - b.y0);
  }

  lemma {:induction false} SumAreaConcat(a: seq<Rect>, b: seq<Rect>)
    ensures SumArea(a + b) == SumArea(a) + SumArea(b)
    decreases |a|
  {
    if |a| == 0 {
      assert a + b == b;
    } else {
      assert (a + b)[1..] == a[1..] + b;
      SumAreaConcat(a[1..], b);
    }
  }

  /** Subtracting a rectangle from itself leaves nothing. */
  lemma SubtractSelf(r: Rect)
    requires !IsEmpty(r)
    ensures SubtractRect(r, r) == []
  {
  }

  /** The inner loop of `subtract_rects`: every current cover replaced, in
      order, by its own pieces after subtracting `sub`. */
  function SubtractEach(covers: seq<Rect>, sub: Rect): (pieces: seq<Rect>)
    ensures |pieces| <= 4 * |covers|
    ensures forall j :: 0 <= j < |pieces| ==>
              !Intersects(pieces[j], sub) && exists i :: 0 <= i < |covers| && Inside(pieces[j], covers[i])
  {
    if |covers| == 0 then []
    else
      var head := SubtractRect(covers[0], sub);
      var rest := SubtractEach(covers[1..], sub);
      assert forall j :: |head| <= j < |head + rest| ==> (head + rest)[j] == rest[j - |head|];
      head + rest
  }

  /** `subtract_rects(full, subs)`: a left fold of SubtractEach over `subs`
      starting from `[full]`. Every piece lies inside `full` and misses every
      subtracted rectangle. */
  function SubtractRects(full: Rect, subs: seq<Rect>): (covers: seq<Rect>)
    ensures forall j :: 0 <= j < |covers| ==> Inside(covers[j], full)
    ensures forall j, k :: 0 <= j < |covers| && 0 <= k < |subs| ==> !Intersects(covers[j], subs[k])
    decreases |subs|
  {
    if |subs| == 0 then [full]
    else
      var prev := SubtractRects(full, subs[..|subs| - 1]);
      var last := subs[|subs| - 1];
      var covers := SubtractEach(prev, last);
      assert forall j :: 0 <= j < |covers| ==> Inside(covers[j], full) by {
        forall j | 0 <= j < |covers|
          ensures Inside(covers[j], full)
        {
          var i :| 0 <= i < |prev| && Inside(covers[j], prev[i]);
          InsideTransitive(covers[j], prev[i], full);
        }
      }
      assert forall j, k :: 0 <= j < |covers| && 0 <= k < |subs| ==> !Intersects(covers[j], subs[k]) by {
        forall j, k | 0 <= j < |covers| && 0 <= k < |subs|
          ensures !Intersects(covers[j], subs[k])
        {
          if k < |subs| - 1 {
            var i :| 0 <= i < |prev| && Inside(covers[j], prev[i]);
            assert subs[k] == subs[..|subs| - 1][k];
            InsideKeepsDisjoint(covers[j], prev[i], subs[k]);
          }
        }
      }
      covers
  }

  lemma {:induction false} SubtractEachCount(covers: seq<Rect>, sub: Rect, p: Point)
    ensures CountContaining(SubtractEach(covers, sub), p)
         == if Contains(sub, p) then 0 else CountContaining(covers, p)
    decreases |covers|
  {
    if |covers| > 0 {
      SubtractEachCount(covers[1..], sub, p);
      CountConcat(SubtractRect(covers[0], sub), SubtractEach(covers[1..], sub), p);
      SubtractRectPartition(covers[0], sub, p);
    }
  }

  /** No subtracted rectangle among `subs` holds `p`. */
  predicate InNoSub(subs: seq<Rect>, p: Point)
  {
    forall k :: 0 <= k < |subs| ==> !Contains(subs[k], p)
  }

  /** The covers tile exactly the points of `full` that lie in no
      subtracted rectangle: each such point is in exactly one cover. */
  lemma {:induction false} SubtractRectsPartition(full: Rect, subs: seq<Rect>, p: Point)
    ensures CountContaining(SubtractRects(full, subs), p)
         == if Contains(full, p) && InNoSub(subs, p) then 1 else 0
    decreases |subs|
  {
    if |subs| > 0 {
      var init := subs[..|subs| - 1];
      var last := subs[|subs| - 1];
      SubtractRectsPartition(full, init, p);
      SubtractEachCount(SubtractRects(full, init), last, p);
      assert InNoSub(subs, p) <==> InNoSub(init, p) && !Contains(last, p) by {
        assert forall k :: 0 <= k < |init| ==> init[k] == subs[k];
      }
    }
  }

  /** A point of `full` is whitened iff it lies in no kept region. */
  lemma SubtractRectsCovers(full: Rect, subs: seq<Rect>, p: Point)
    ensures (exists j :: 0 <= j < |SubtractRects(full, subs)| && Contains(SubtractRects(full, subs)[j], p))
        <==> Contains(full, p) && InNoSub(subs, p)
  {
    var covers := SubtractRects(full, subs);
    SubtractRectsPartition(full, subs, p);
    if exists j :: 0 <= j < |covers| && Contains(covers[j], p) {
      var j :| 0 <= j < |covers| && Contains(covers[j], p);
      CountAtLeastOne(covers, j, p);
    }
    if Contains(full, p) && InNoSub(subs, p) {
      CountPositiveHasWitness(covers, p);
    }
  }

  /** The covers never overlap one another. */
  lemma SubtractRectsDisjoint(full: Rect, subs: seq<Rect>, i: int, j: int)
    requires 0 <= i < j < |SubtractRects(full, subs)|
    ensures !Intersects(SubtractRects(full, subs)[i], SubtractRects(full, subs)[j])
  {
    var covers := SubtractRects(full, subs);
    IntersectsIffCommonPoint(covers[i], covers[j]);
    if Intersects(covers[i], covers[j]) {
      var p :| Contains(covers[i], p) && Contains(covers[j], p);
      CountAtMostOneNoOverlap(covers, i, j, p);
      SubtractRectsPartition(full, subs, p);
      assert false;
    }
  }

  lemma SubtractNothing(full: Rect)
    ensures SubtractRects(full, []) == [full]
  {
  }

  /** One kept region, as in Sprint4-1/CountingPRO.py and newPredict.py: at
      most four covers, none overlapping the region. */
  lemma SubtractOneRegion(page: Rect, region: Rect)
    ensures |SubtractRects(page, [region])| <= 4
    ensures forall j :: 0 <= j < |SubtractRects(page, [region])| ==> !Intersects(SubtractRects(page, [region])[j], region)
  {
    assert [region][..0] == [];
  }

  /** The worked example: a 600×800 page with the region (100,100)-(300,300)
      kept leaves 440000 square points to white out. */
  lemma ExamplePageMinusRegion()
    ensures SumArea(SubtractRects(Rect(0.0, 0.0, 600.0, 800.0), [Rect(100.0, 100.0, 300.0, 300.0)])) == 440000.0
  {
    var page, region := Rect(0.0, 0.0, 600.0, 800.0), Rect(100.0, 100.0, 300.0, 300.0);
    assert SubtractRects(page, [region]) == SubtractRect(page, region) by {
      assert [region][..0] == [];
      assert SubtractRects(page, [region]) == SubtractEach([page], region);
      assert SubtractEach([page], region) == SubtractRect(page, region) + SubtractEach([], region);
    }
    assert Inter(page, region) == region;
    assert Area(page) == 480000.0 && Area(region) == 40000.0;
    SubtractRectArea(page, region);
  }
}
