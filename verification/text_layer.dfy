/**
  The text layer of Sprint4-1/layerexport.py (`_save_text`): the lines of
  every text block are collected with the block's origin, duplicates drawn
  at the same (rounded) place are dropped, and what is left is sorted top
  to bottom, left to right, and written as one file per page.
*/
module TextLayer {
  import opened Wrappers
  import opened Text

  /** A text block as `page.get_text("blocks")` gives it; only its origin
      and its text are used. */
  datatype Block = Block(x0: real, y0: real, text: string)

  /** A collected line: the origin of its block and the stripped text. */
  datatype Line = Line(y: real, x: real, text: string)

  /** The de-duplication key `(round(y0, 1), round(x0, 1), stripped)`. */
  datatype Key = Key(y: real, x: real, text: string)

  /** `round(v, 1)` is a parameter: its floating-point behaviour is not
      part of this model. */
  function KeyOf(l: Line, round: real -> real): Key
  {
    Key(round(l.y), round(l.x), l.text)
  }

  /** A line as it can be written: not empty, no line break inside, no
      whitespace at its end. */
  predicate GoodLine(l: Line)
  {
    l.text != "" && NoBreak(l.text) && !IsSpace(l.text[|l.text| - 1])
  }

  /** The inner loop over `text.splitlines()`: every piece right-stripped,
      the empty ones skipped, the others placed at the block's origin. */
  function KeptLines(raw: seq<string>, b: Block): (ls: seq<Line>)
    requires forall i :: 0 <= i < |raw| ==> NoBreak(raw[i])
    ensures |ls| <= |raw|
    ensures forall l :: l in ls ==> GoodLine(l) && l.y == b.y0 && l.x == b.x0
  {
    if |raw| == 0 then []
    else
      var s := RStrip(raw[0]);
      assert NoBreak(s) by {
        assert NoBreak(raw[0]);
        assert forall k :: 0 <= k < |s| ==> s[k] == raw[0][k];
      }
      (if s == "" then [] else [Line(b.y0, b.x0, s)]) + KeptLines(raw[1..], b)
  }

  /** One block: skipped when its text is whitespace only. */
  function BlockLines(b: Block): (ls: seq<Line>)
    ensures IsBlank(b.text) ==> ls == []
    ensures forall l :: l in ls ==> GoodLine(l) && l.y == b.y0 && l.x == b.x0
  {
    StripEmptyIffBlank(b.text);
    if Strip(b.text) == "" then [] else KeptLines(SplitLines(b.text), b)
  }

  /** Every line of every block, in block order, before de-duplication. */
  function Candidates(blocks: seq<Block>): (cands: seq<Line>)
    ensures forall l :: l in cands ==> GoodLine(l)
  {
    if |blocks| == 0 then []
    else Candidates(blocks[..|blocks| - 1]) + BlockLines(blocks[|blocks| - 1])
  }

  /** The keys of some lines. */
  function KeySet(ls: seq<Line>, round: real -> real): set<Key>
  {
    if |ls| == 0 then {} else KeySet(ls[..|ls| - 1], round) + {KeyOf(ls[|ls| - 1], round)}
  }

  /** A key is in the set exactly when one of the lines has it. */
  lemma {:induction false} KeySetMembers(ls: seq<Line>, round: real -> real, k: Key)
    ensures k in KeySet(ls, round) <==> exists i :: 0 <= i < |ls| && KeyOf(ls[i], round) == k
  {
    if |ls| > 0 {
      var front := ls[..|ls| - 1];
      KeySetMembers(front, round, k);
      assert forall i :: 0 <= i < |front| ==> front[i] == ls[i];
    }
  }

  /** The `seen` filter: a line is kept when no earlier kept line has its
      key. */
  function FirstByKey(cands: seq<Line>, round: real -> real): (kept: seq<Line>)
    ensures |kept| <= |cands|
    ensures forall x :: x in kept ==> x in cands
  {
    if |cands| == 0 then []
    else
      var front := cands[..|cands| - 1];
      var prev := FirstByKey(front, round);
      var l := cands[|cands| - 1];
      assert forall x :: x in front ==> x in cands;
      if KeyOf(l, round) in KeySet(prev, round) then prev else prev + [l]
  }

  /** The loop of `_save_text` with its `seen` set: the lines it keeps are
      the ones `FirstByKey` describes. */
  method DedupLines(cands: seq<Line>, round: real -> real) returns (lines: seq<Line>)
    ensures lines == FirstByKey(cands, round)
  {
    var seen: set<Key> := {};
    lines := [];
    var i := 0;
    while i < |cands|
      invariant 0 <= i <= |cands|
      invariant lines == FirstByKey(cands[..i], round)
      invariant seen == KeySet(lines, round)
    {
      var h := KeyOf(cands[i], round);
      FirstByKeyPrefix(cands, i, round);
      if h in seen {
        i := i + 1;
        continue;
      }
      KeySetSnoc(lines, cands[i], round);
      seen := seen + {h};
      lines := lines + [cands[i]];
      i := i + 1;
    }
    assert cands[..|cands|] == cands;
  }

  /** One more candidate: kept exactly when its key is new. */
  lemma FirstByKeyPrefix(cands: seq<Line>, i: nat, round: real -> real)
    requires i < |cands|
    ensures FirstByKey(cands[..i + 1], round)
         == if KeyOf(cands[i], round) in KeySet(FirstByKey(cands[..i], round), round)
            then FirstByKey(cands[..i], round)
            else FirstByKey(cands[..i], round) + [cands[i]]
  {
    assert cands[..i + 1][..i] == cands[..i];
  }

  lemma KeySetSnoc(ls: seq<Line>, l: Line, round: real -> real)
    ensures KeySet(ls + [l], round) == KeySet(ls, round) + {KeyOf(l, round)}
  {
    assert (ls + [l])[..|ls|] == ls;
  }

  /** The candidate at `i` is the first one with its key. */
  predicate IsFirst(cands: seq<Line>, i: int, round: real -> real)
    requires 0 <= i < |cands|
  {
    forall i' :: 0 <= i' < i ==> KeyOf(cands[i'], round) != KeyOf(cands[i], round)
  }

  /** Reference definition: the candidates that are the first with their
      key, in their original order. */
  function FirstOccurrences(cands: seq<Line>, round: real -> real): seq<Line>
  {
    if |cands| == 0 then []
    else
      FirstOccurrences(cands[..|cands| - 1], round)
      + (if IsFirst(cands, |cands| - 1, round) then [cands[|cands| - 1]] else [])
  }

  /** The kept lines cover every key of the candidates, and nothing else. */
  lemma {:induction false} FirstByKeyKeys(cands: seq<Line>, round: real -> real)
    ensures KeySet(FirstByKey(cands, round), round) == KeySet(cands, round)
  {
    if |cands| > 0 {
      var front := cands[..|cands| - 1];
      FirstByKeyKeys(front, round);
      var prev := FirstByKey(front, round);
      var l := cands[|cands| - 1];
      if KeyOf(l, round) !in KeySet(prev, round) {
        assert (prev + [l])[..|prev|] == prev;
      }
    }
  }

  /** The seen-set filter keeps exactly the first occurrence of every key,
      in the original order. */
  lemma {:induction false} FirstByKeyIsFirstOccurrences(cands: seq<Line>, round: real -> real)
    ensures FirstByKey(cands, round) == FirstOccurrences(cands, round)
  {
    if |cands| > 0 {
      var n := |cands| - 1;
      var front := cands[..n];
      var prev := FirstByKey(front, round);
      FirstByKeyIsFirstOccurrences(front, round);
      LastIsFirstIffNewKey(cands, round);
      assert FirstOccurrences(cands, round)
          == prev + (if IsFirst(cands, n, round) then [cands[n]] else []);
      if IsFirst(cands, n, round) {
        assert FirstByKey(cands, round) == prev + [cands[n]];
      } else {
        assert FirstByKey(cands, round) == prev;
        assert prev + [] == prev;
      }
    }
  }

  /** The last candidate is the first with its key exactly when no kept
      line before it has that key. */
  lemma LastIsFirstIffNewKey(cands: seq<Line>, round: real -> real)
    requires |cands| > 0
    ensures KeyOf(cands[|cands| - 1], round) !in KeySet(FirstByKey(cands[..|cands| - 1], round), round)
        <==> IsFirst(cands, |cands| - 1, round)
  {
    var n := |cands| - 1;
    var front := cands[..n];
    FirstByKeyKeys(front, round);
    KeySetMembers(front, round, KeyOf(cands[n], round));
    assert forall i :: 0 <= i < n ==> front[i] == cands[i];
  }

  /** No two kept lines share a key; in particular no two have the same
      origin and text, so identical lines of one block collapse to one. */
  lemma {:induction false} FirstByKeyDistinct(cands: seq<Line>, round: real -> real)
    ensures DistinctKeys(FirstByKey(cands, round), round)
    ensures forall i, j :: 0 <= i < j < |FirstByKey(cands, round)| ==>
      FirstByKey(cands, round)[i] != FirstByKey(cands, round)[j]
  {
    if |cands| > 0 {
      var front := cands[..|cands| - 1];
      FirstByKeyDistinct(front, round);
      var prev := FirstByKey(front, round);
      var l := cands[|cands| - 1];
      if KeyOf(l, round) !in KeySet(prev, round) {
        KeySetMembers(prev, round, KeyOf(l, round));
        var kept := prev + [l];
        forall i, j | 0 <= i < j < |kept|
          ensures KeyOf(kept[i], round) != KeyOf(kept[j], round)
        {
          assert kept[i] == prev[i];
          if j < |prev| {
            assert kept[j] == prev[j];
          } else {
            assert kept[j] == l;
          }
        }
      }
    }
  }

  predicate DistinctKeys(ls: seq<Line>, round: real -> real)
  {
    forall i, j :: 0 <= i < j < |ls| ==> KeyOf(ls[i], round) != KeyOf(ls[j], round)
  }

  /** The sort order of `lines.sort(key=lambda t: (t[0], t[1]))`: by y, then
      by x. */
  predicate LessEq(a: Line, b: Line)
  {
    a.y < b.y || (a.y == b.y && a.x <= b.x)
  }

  predicate Sorted(ls: seq<Line>)
  {
    forall i, j :: 0 <= i < j < |ls| ==> LessEq(ls[i], ls[j])
  }

  /** `l` placed after the last line that does not sort after it. */
  function Insert(s: seq<Line>, l: Line): (r: seq<Line>)
    ensures multiset(r) == multiset(s) + multiset{l}
  {
    if |s| == 0 then [l]
    else if LessEq(s[|s| - 1], l) then s + [l]
    else
      var front := s[..|s| - 1];
      assert s == front + [s[|s| - 1]];
      Insert(front, l) + [s[|s| - 1]]
  }

  /** Python's (stable) sort, as an insertion sort. */
  function SortLines(ls: seq<Line>): (r: seq<Line>)
    ensures multiset(r) == multiset(ls)
  {
    if |ls| == 0 then []
    else
      var front := ls[..|ls| - 1];
      assert ls == front + [ls[|ls| - 1]];
      Insert(SortLines(front), ls[|ls| - 1])
  }

  lemma {:induction false} InsertSorted(s: seq<Line>, l: Line)
    requires Sorted(s)
    ensures Sorted(Insert(s, l))
  {
    if |s| > 0 && !LessEq(s[|s| - 1], l) {
      var front := s[..|s| - 1];
      var last := s[|s| - 1];
      InsertSorted(front, l);
      var r := Insert(front, l);
      forall x | x in r ensures LessEq(x, last) {
        assert x in multiset(r);
        if x != l {
          assert x in multiset(front);
          var i :| 0 <= i < |front| && front[i] == x;
          assert s[i] == x;
        }
      }
    }
  }

  /** The output is in (y, x) order. */
  lemma {:induction false} SortLinesSorted(ls: seq<Line>)
    ensures Sorted(SortLines(ls))
  {
    if |ls| > 0 {
      SortLinesSorted(ls[..|ls| - 1]);
      InsertSorted(SortLines(ls[..|ls| - 1]), ls[|ls| - 1]);
    }
  }

  /** The lines at one origin, in order. */
  function AtSpot(ls: seq<Line>, y: real, x: real): seq<Line>
  {
    if |ls| == 0 then []
    else
      AtSpot(ls[..|ls| - 1], y, x)
      + (if ls[|ls| - 1].y == y && ls[|ls| - 1].x == x then [ls[|ls| - 1]] else [])
  }

  lemma AtSpotSnoc(ls: seq<Line>, l: Line, y: real, x: real)
    ensures AtSpot(ls + [l], y, x) == AtSpot(ls, y, x) + (if l.y == y && l.x == x then [l] else [])
  {
    assert (ls + [l])[..|ls|] == ls;
  }

  lemma {:induction false} InsertAtSpot(s: seq<Line>, l: Line, y: real, x: real)
    ensures AtSpot(Insert(s, l), y, x) == AtSpot(s, y, x) + (if l.y == y && l.x == x then [l] else [])
  {
    if |s| == 0 {
      assert Insert(s, l) == [] + [l];
      AtSpotSnoc([], l, y, x);
    } else if LessEq(s[|s| - 1], l) {
      assert Insert(s, l) == s + [l];
      AtSpotSnoc(s, l, y, x);
    } else {
      var front, last := s[..|s| - 1], s[|s| - 1];
      InsertAtSpot(front, l, y, x);
      InsertBefore(s, l, y, x);
    }
  }

  /** The step of `InsertAtSpot` where `l` goes before the last line, which
      sorts strictly after it and so sits at another origin. */
  lemma InsertBefore(s: seq<Line>, l: Line, y: real, x: real)
    requires |s| > 0 && !LessEq(s[|s| - 1], l)
    requires AtSpot(Insert(s[..|s| - 1], l), y, x)
          == AtSpot(s[..|s| - 1], y, x) + (if l.y == y && l.x == x then [l] else [])
    ensures AtSpot(Insert(s, l), y, x) == AtSpot(s, y, x) + (if l.y == y && l.x == x then [l] else [])
  {
    var front, last := s[..|s| - 1], s[|s| - 1];
    assert Insert(s, l) == Insert(front, l) + [last];
    assert !(last.y == l.y && last.x == l.x);
    AtSpotSnoc(Insert(front, l), last, y, x);
    assert s == front + [last];
    AtSpotSnoc(front, last, y, x);
  }

  /** The sort is stable: lines at the same origin keep their discovery
      order. */
  lemma {:induction false} SortLinesStable(ls: seq<Line>, y: real, x: real)
    ensures AtSpot(SortLines(ls), y, x) == AtSpot(ls, y, x)
  {
    if |ls| > 0 {
      var front := ls[..|ls| - 1];
      SortLinesStable(front, y, x);
      InsertAtSpot(SortLines(front), ls[|ls| - 1], y, x);
    }
  }

  function Texts(ls: seq<Line>): (ts: seq<string>)
    ensures |ts| == |ls|
    ensures forall i :: 0 <= i < |ls| ==> ts[i] == ls[i].text
  {
    seq(|ls|, i requires 0 <= i < |ls| => ls[i].text)
  }

  /** `"\n".join(...)` of the line texts. */
  function PageText(ls: seq<Line>): string
  {
    Join("\n", Texts(ls))
  }

  /** The written file splits back into exactly the kept lines. */
  lemma PageTextSplits(ls: seq<Line>)
    requires forall i :: 0 <= i < |ls| ==> GoodLine(ls[i])
    ensures SplitLines(PageText(ls)) == Texts(ls)
  {
    if |ls| > 0 {
      SplitLinesOfJoin(Texts(ls));
    }
  }

  /** `f"page{page_index:04d}.txt"`. */
  function PageTextName(index: nat): (name: string)
    ensures |name| >= 12 && name[..4] == "page" && name[|name| - 4..] == ".txt"
    ensures index < 10000 ==> |name| == 12
  {
    var digits := ZeroPad(Decimal(index), 4);
    assert index < 10000 ==> |digits| == 4 by {
      if index < 10000 {
        ShortDecimal(index);
      }
    }
    NameShape(digits);
    "page" + digits + ".txt"
  }

  lemma NameShape(digits: string)
    ensures var name := "page" + digits + ".txt";
      |name| == |digits| + 8 && name[..4] == "page" && name[|name| - 4..] == ".txt" && name[4..|name| - 4] == digits
  {
  }

  /** A number below 10000 has at most four digits. */
  lemma ShortDecimal(n: nat)
    requires n < 10000
    ensures |Decimal(n)| <= 4
  {
    var s := Decimal(n);
    if |s| > 4 {
      DecimalLength(s);
      Power10AtLeast(|s| - 1);
    }
  }

  /** A decimal form without a leading zero is at least as large as its
      length says. */
  lemma {:induction false} DecimalLength(s: string)
    requires AllDigits(s) && |s| > 0 && (|s| > 1 ==> s[0] != '0')
    ensures DecimalValue(s) >= Power10(|s| - 1) || |s| == 1
    ensures |s| > 1 ==> DecimalValue(s) >= Power10(|s| - 1)
    decreases |s|
  {
    if |s| > 2 {
      var front := s[..|s| - 1];
      assert front[0] == s[0];
      DecimalLength(front);
    } else if |s| == 2 {
      var front := s[..1];
      assert DecimalValue(front) == s[0] as int - '0' as int;
    }
  }

  function Power10(n: nat): nat { if n == 0 then 1 else 10 * Power10(n - 1) }

  lemma {:induction false} Power10AtLeast(n: nat)
    requires n >= 4
    ensures Power10(n) >= 10000
  {
    if n > 4 {
      Power10AtLeast(n - 1);
    }
  }

  /** The page number can be read back from the name, so distinct pages get
      distinct files. */
  lemma PageTextNameRoundTrip(index: nat)
    ensures var name := PageTextName(index); ParseInt(name[4..|name| - 4]) == Some(index)
  {
    var d := Decimal(index);
    var digits := ZeroPad(d, 4);
    var name := PageTextName(index);
    assert name[4..|name| - 4] == digits;
    ZeroPadValue(d, 4);
    assert digits[0] != '+' && digits[0] != '-';
  }

  /** Sprint4-1/layerexport.py asks for the directory when `-o` is absent;
      a blank answer gives "export_layers". A given `-o` is used as is. */
  function OutputDir(option: Option<string>, answer: string): (dir: string)
    ensures option.Some? ==> dir == option.value
    ensures option.None? && IsBlank(answer) ==> dir == "export_layers"
    ensures option.None? && !IsBlank(answer) ==> dir == Strip(answer) && dir != ""
  {
    StripEmptyIffBlank(answer);
    if option.Some? then option.value
    else if Strip(answer) == "" then "export_layers"
    else Strip(answer)
  }

  /** The whole text layer of a page: the text written and the file name. */
  method SaveText(blocks: seq<Block>, index: nat, round: real -> real) returns (name: string, text: string, lines: seq<Line>)
    ensures name == PageTextName(index)
    ensures lines == SortLines(FirstByKey(Candidates(blocks), round))
    ensures Sorted(lines)
    ensures forall i :: 0 <= i < |lines| ==> GoodLine(lines[i])
    ensures text == Join("\n", Texts(lines))
    ensures SplitLines(text) == Texts(lines)
  {
    var cands := Candidates(blocks);
    var kept := DedupLines(cands, round);
    lines := SortLines(kept);
    SortLinesSorted(kept);
    forall i | 0 <= i < |lines| ensures GoodLine(lines[i]) {
      assert lines[i] in multiset(kept);
      assert lines[i] in kept;
    }
    text := PageText(lines);
    PageTextSplits(lines);
    name := PageTextName(index);
  }
}
