/**
  Proximity deduplication: `center` / `is_close` and the greedy "keep a box
  unless it is close to one already kept" step shared by the counting
  scripts.
*/
module Proximity {
  import opened Geometry

  /** `DEDUP_THRESHOLD`, in PDF points. */
  const DedupThreshold: real := 5.0

  function Dist2(a: Point, b: Point): real
  {
    (a.x - b.x) * (a.x - b.x) + (a.y - b.y) * (a.y - b.y)
  }

  /** `hypot(dx, dy) < t`, with `d2 = dx² + dy²`, without square roots. */
  predicate CloserThan(d2: real, t: real)
  {
    0.0 < t && d2 < t * t
  }

  /** CloserThan agrees with comparing the Euclidean length itself: for the
      non-negative `h` with `h² = d2`, `h < t` exactly when CloserThan holds. */
  lemma HypotAgreement(h: real, d2: real, t: real)
    requires 0.0 <= h && h * h == d2
    ensures h < t <==> CloserThan(d2, t)
  {
    if 0.0 < t {
      if h < t {
        calc {
          d2;
        ==
          h * h;
        <= { MulLeMono(h, h, t); }
          h * t;
        < { MulLtMono(t, h, t); }
          t * t;
        }
      } else {
        calc {
          t * t;
        <= { MulLeMono(t, t, h); }
          t * h;
        <= { MulLeMono(h, t, h); }
          h * h;
        }
      }
    }
  }

  lemma MulLeMono(c: real, a: real, b: real)
    requires 0.0 <= c && a <= b
    ensures c * a <= c * b
  {
  }

  lemma MulLtMono(c: real, a: real, b: real)
    requires 0.0 < c && a < b
    ensures a * c < b * c
  {
  }

  /** The centre of `box` is strictly within `t` of the centre of `other`. */
  predicate Near(box: Rect, other: Rect, t: real)
  {
    CloserThan(Dist2(Center(box), Center(other)), t)
  }

  lemma NearSymmetric(a: Rect, b: Rect, t: real)
    ensures Near(a, b, t) <==> Near(b, a, t)
  {
    var ca, cb := Center(a), Center(b);
    assert (ca.x - cb.x) * (ca.x - cb.x) == (cb.x - ca.x) * (cb.x - ca.x);
    assert (ca.y - cb.y) * (ca.y - cb.y) == (cb.y - ca.y) * (cb.y - ca.y);
  }

  /** `is_close` as a loop: scan the kept boxes in order, stop at the first
      whose centre is strictly within `t`. */
  function IsClose(box: Rect, existing: seq<Rect>, t: real): bool
  {
    if |existing| == 0 then false
    else if Near(box, existing[0], t) then true
    else IsClose(box, existing[1..], t)
  }

  /** `is_close` as Sprint4-1/newPredict.py writes it, with `any`. */
  predicate IsCloseAny(box: Rect, existing: seq<Rect>, t: real)
  {
    exists i :: 0 <= i < |existing| && Near(box, existing[i], t)
  }

  /** The loop and the `any` form agree on every input. */
  lemma {:induction false} IsCloseAgreesWithAny(box: Rect, existing: seq<Rect>, t: real)
    ensures IsClose(box, existing, t) <==> IsCloseAny(box, existing, t)
    decreases |existing|
  {
    if |existing| > 0 {
      IsCloseAgreesWithAny(box, existing[1..], t);
      if IsCloseAny(box, existing[1..], t) {
        var i :| 0 <= i < |existing[1..]| && Near(box, existing[1..][i], t);
        assert Near(box, existing[i + 1], t);
      }
      if IsCloseAny(box, existing, t) && !Near(box, existing[0], t) {
        var i :| 0 <= i < |existing| && Near(box, existing[i], t);
        assert existing[1..][i - 1] == existing[i];
      }
    }
  }

  lemma NothingIsCloseToNothing(box: Rect, t: real)
    ensures !IsClose(box, [], t)
  {
  }

  /** A box is close to itself for every positive threshold. */
  lemma CloseToItself(box: Rect, t: real)
    requires 0.0 < t
    ensures IsClose(box, [box], t)
  {
    assert Dist2(Center(box), Center(box)) == 0.0;
  }

  /** Closeness is strict: centres exactly `t` apart are not close, and
      centres any amount less than `t` apart are. */
  lemma ClosenessIsStrict(a: Rect, b: Rect, t: real, h: real)
    requires 0.0 < t && 0.0 <= h && h * h == Dist2(Center(a), Center(b))
    ensures h == t ==> !IsClose(a, [b], t)
    ensures h < t ==> IsClose(a, [b], t)
  {
    HypotAgreement(h, Dist2(Center(a), Center(b)), t);
  }

  /** One step of the dedup loop: `box` is appended unless it is close to a
      box already kept. */
  function Keep(kept: seq<Rect>, box: Rect, t: real): seq<Rect>
  {
    if IsClose(box, kept, t) then kept else kept + [box]
  }

  /** No two kept boxes have centres strictly closer than `t`, i.e. their
      centre distance is at least the threshold. */
  predicate Separated(boxes: seq<Rect>, t: real)
  {
    forall i, j :: 0 <= i < |boxes| && 0 <= j < |boxes| && i != j ==> !Near(boxes[i], boxes[j], t)
  }

  /** Every box of `boxes` is kept or has a kept box close to it. */
  predicate Covered(boxes: seq<Rect>, kept: seq<Rect>, t: real)
  {
    forall i :: 0 <= i < |boxes| ==> boxes[i] in kept || IsCloseAny(boxes[i], kept, t)
  }

  lemma KeepPreservesSeparated(kept: seq<Rect>, box: Rect, t: real)
    requires Separated(kept, t)
    ensures Separated(Keep(kept, box, t), t)
  {
    if !IsClose(box, kept, t) {
      IsCloseAgreesWithAny(box, kept, t);
      var r := kept + [box];
      forall i, j | 0 <= i < |r| && 0 <= j < |r| && i != j
        ensures !Near(r[i], r[j], t)
      {
        if i == |kept| {
          assert !Near(box, kept[j], t);
        } else if j == |kept| {
          assert !Near(box, kept[i], t);
          NearSymmetric(kept[i], box, t);
        }
      }
    }
  }

  /** Greedy dedup of a whole sequence, in order: the loop of the counting
      scripts restricted to one label. The kept boxes are taken from the
      input, in input order, and the first input box is always kept. */
  function GreedyDedup(boxes: seq<Rect>, t: real): (kept: seq<Rect>)
    ensures |kept| <= |boxes|
    ensures forall j :: 0 <= j < |kept| ==> kept[j] in boxes
    ensures |boxes| > 0 ==> |kept| > 0 && kept[0] == boxes[0]
    decreases |boxes|
  {
    if |boxes| == 0 then []
    else
      var prev := GreedyDedup(boxes[..|boxes| - 1], t);
      var box := boxes[|boxes| - 1];
      assert forall b :: b in prev ==> b in boxes by {
        forall b | b in prev ensures b in boxes {
          var j :| 0 <= j < |boxes[..|boxes| - 1]| && boxes[..|boxes| - 1][j] == b;
          assert boxes[j] == b;
        }
      }
      Keep(prev, box, t)
  }

  /** The greedy dedup keeps boxes pairwise at least `t` apart, and every
      input box is kept or has a kept box close to it. */
  lemma {:induction false} GreedyDedupSeparatedCovered(boxes: seq<Rect>, t: real)
    ensures Separated(GreedyDedup(boxes, t), t)
    ensures Covered(boxes, GreedyDedup(boxes, t), t)
    decreases |boxes|
  {
    if |boxes| > 0 {
      var prefix := boxes[..|boxes| - 1];
      var box := boxes[|boxes| - 1];
      GreedyDedupSeparatedCovered(prefix, t);
      KeepPreservesSeparated(GreedyDedup(prefix, t), box, t);
      KeepCovers(prefix, GreedyDedup(prefix, t), box, t);
      assert prefix + [box] == boxes;
    }
  }

  lemma KeepCovers(boxes: seq<Rect>, kept: seq<Rect>, box: Rect, t: real)
    requires Covered(boxes, kept, t)
    ensures Covered(boxes + [box], Keep(kept, box, t), t)
  {
    var r := Keep(kept, box, t);
    IsCloseAgreesWithAny(box, kept, t);
    forall i | 0 <= i < |boxes + [box]|
      ensures (boxes + [box])[i] in r || IsCloseAny((boxes + [box])[i], r, t)
    {
      if i < |boxes| {
        var b := boxes[i];
        if b !in kept {
          var k :| 0 <= k < |kept| && Near(b, kept[k], t);
          assert r[k] == kept[k];
        }
      }
    }
  }

  /** Appending one box to the input is one Keep step. */
  lemma GreedyDedupSnoc(boxes: seq<Rect>, box: Rect, t: real)
    ensures GreedyDedup(boxes + [box], t) == Keep(GreedyDedup(boxes, t), box, t)
  {
    assert (boxes + [box])[..|boxes|] == boxes;
  }

  /** The worked example: centres (10,10), (12,11) and (50,50) with
      threshold 5 give two distinct occurrences. */
  lemma ExampleThreeCentres()
    ensures |GreedyDedup([Rect(9.0, 9.0, 11.0, 11.0), Rect(11.0, 10.0, 13.0, 12.0), Rect(49.0, 49.0, 51.0, 51.0)], DedupThreshold)| == 2
  {
    var a, b, c := Rect(9.0, 9.0, 11.0, 11.0), Rect(11.0, 10.0, 13.0, 12.0), Rect(49.0, 49.0, 51.0, 51.0);
    assert Center(a) == Point(10.0, 10.0) && Center(b) == Point(12.0, 11.0) && Center(c) == Point(50.0, 50.0);
    GreedyDedupSnoc([], a, DedupThreshold);
    assert GreedyDedup([a], DedupThreshold) == [a];
    GreedyDedupSnoc([a], b, DedupThreshold);
    assert Near(b, a, DedupThreshold);
    assert GreedyDedup([a, b], DedupThreshold) == [a];
    GreedyDedupSnoc([a, b], c, DedupThreshold);
    assert !Near(c, a, DedupThreshold);
    assert !IsClose(c, [a], DedupThreshold) by {
      assert [a][1..] == [];
    }
    assert Keep([a], c, DedupThreshold) == [a, c];
    assert [a, b] + [c] == [a, b, c];
    assert GreedyDedup([a, b, c], DedupThreshold) == [a, c];
  }
}
