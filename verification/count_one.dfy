/**
  Counting one element ("bp1") on every page of a document, with proximity
  deduplication per page: `visualize_text_boxes` in
  ManualCover/CountOneElement.py.
*/
module CountOne {
  import opened Geometry
  import opened Proximity
  import opened Text

  /** A raw entry of the word list: the box, then whatever fields follow the
      four coordinates (the text first, when there is one). */
  datatype RawWord = RawWord(box: Rect, rest: seq<string>)

  /** `word[4] if len(word) >= 5 else ""`. */
  function TextOf(w: RawWord): string
  {
    if |w.rest| >= 1 then w.rest[0] else ""
  }

  /** The word's text is "bp1" in any capitalisation. */
  predicate IsTarget(w: RawWord)
  {
    var s := TextOf(w);
    |s| == 3 && (s[0] == 'b' || s[0] == 'B') && (s[1] == 'p' || s[1] == 'P') && s[2] == '1'
  }

  /** A word is a target exactly when its text, lower-cased, is "bp1":
      the four capitalisations of "bp1" and nothing else; a word without a
      text field never is. */
  lemma TargetSpellings(w: RawWord)
    ensures IsTarget(w) <==> LowerAscii(TextOf(w)) == "bp1"
    ensures IsTarget(w) <==> TextOf(w) in {"bp1", "bP1", "Bp1", "BP1"}
    ensures |w.rest| == 0 ==> !IsTarget(w)
  {
    var s := TextOf(w);
    var l := LowerAscii(s);
    if l == "bp1" {
      assert |s| == 3;
      assert l[0] == 'b' && l[1] == 'p' && l[2] == '1';
      assert LowerChar(s[0]) == 'b' && LowerChar(s[1]) == 'p' && LowerChar(s[2]) == '1';
    }
    if IsTarget(w) {
      assert |l| == 3 && l[0] == 'b' && l[1] == 'p' && l[2] == '1';
      assert l == "bp1";
      assert s == [s[0], s[1], s[2]];
    }
  }

  /** The boxes of the page's target words, in word order. */
  function TargetBoxes(words: seq<RawWord>): seq<Rect>
  {
    if |words| == 0 then []
    else
      TargetBoxes(words[..|words| - 1])
      + (if IsTarget(words[|words| - 1]) then [words[|words| - 1].box] else [])
  }

  /** One page: `seen_coords` starts empty, a target word is kept (and
      counted) unless it is close to one already kept. The count is the
      number of kept boxes, at most the number of target words, and the
      kept boxes are those of the greedy dedup of the page's targets. */
  method CountPage(words: seq<RawWord>, t: real) returns (seen: seq<Rect>, count: nat)
    ensures seen == GreedyDedup(TargetBoxes(words), t)
    ensures count == |seen|
    ensures count <= |TargetBoxes(words)|
    ensures Separated(seen, t)
  {
    seen := [];
    count := 0;
    var i := 0;
    while i < |words|
      invariant 0 <= i <= |words|
      invariant seen == GreedyDedup(TargetBoxes(words[..i]), t)
      invariant count == |seen|
    {
      var w := words[i];
      TargetStep(words, i, t);
      if IsTarget(w) {
        if !IsClose(w.box, seen, t) {
          seen := seen + [w.box];
          count := count + 1;
        }
      }
      i := i + 1;
    }
    assert words[..|words|] == words;
    GreedyDedupSeparatedCovered(TargetBoxes(words), t);
  }

  /** One more word extends the page's dedup by one Keep step exactly when
      it is a target. */
  lemma TargetStep(words: seq<RawWord>, i: int, t: real)
    requires 0 <= i < |words|
    ensures GreedyDedup(TargetBoxes(words[..i + 1]), t)
         == if IsTarget(words[i]) then Keep(GreedyDedup(TargetBoxes(words[..i]), t), words[i].box, t)
            else GreedyDedup(TargetBoxes(words[..i]), t)
  {
    var a := words[..i + 1];
    assert a[..|a| - 1] == words[..i] && a[|a| - 1] == words[i];
    var before := TargetBoxes(words[..i]);
    if IsTarget(words[i]) {
      assert TargetBoxes(a) == before + [words[i].box];
      GreedyDedupSnoc(before, words[i].box, t);
    } else {
      assert TargetBoxes(a) == before;
    }
  }

  function Sum(xs: seq<nat>): nat
  {
    if |xs| == 0 then 0 else Sum(xs[..|xs| - 1]) + xs[|xs| - 1]
  }

  /** The count of every page, in page order. */
  function PageCounts(pages: seq<seq<RawWord>>, t: real): (counts: seq<nat>)
    ensures |counts| == |pages|
  {
    if |pages| == 0 then []
    else PageCounts(pages[..|pages| - 1], t) + [|GreedyDedup(TargetBoxes(pages[|pages| - 1]), t)|]
  }

  /** Each page is counted on its own: deduplication never spans pages. */
  lemma {:induction false} PageCountsApart(pages: seq<seq<RawWord>>, t: real)
    ensures forall i :: 0 <= i < |pages| ==>
      PageCounts(pages, t)[i] == |GreedyDedup(TargetBoxes(pages[i]), t)|
  {
    if |pages| > 0 {
      var front := pages[..|pages| - 1];
      PageCountsApart(front, t);
      assert forall i :: 0 <= i < |front| ==> pages[i] == front[i];
    }
  }

  /** The whole document: the per-page counts and their sum. */
  method CountDocument(pages: seq<seq<RawWord>>, t: real) returns (perPage: seq<nat>, total: nat)
    ensures perPage == PageCounts(pages, t)
    ensures total == Sum(perPage)
  {
    perPage := [];
    total := 0;
    var n := 0;
    while n < |pages|
      invariant 0 <= n <= |pages|
      invariant perPage == PageCounts(pages[..n], t)
      invariant total == Sum(perPage)
    {
      var seen, count := CountPage(pages[n], t);
      var a := pages[..n + 1];
      assert a[..|a| - 1] == pages[..n] && a[|a| - 1] == pages[n];
      assert (perPage + [count])[..n] == perPage;
      perPage := perPage + [count];
      total := total + count;
      n := n + 1;
    }
    assert pages[..|pages|] == pages;
  }
}
