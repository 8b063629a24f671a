/**
  Counting labelled words inside selected regions with proximity
  deduplication: the word loops of CoverAndCount/Counting.py (several drawn
  regions) and of Sprint4-1/CountingPRO.py and Sprint4-1/newPredict.py (one
  detected region).
*/
module Counting {
  import opened Geometry
  import opened Proximity
  import opened Text

  /** An entry of the page's word list: its box and its text. */
  datatype Word = Word(box: Rect, text: string)

  /** Label to the boxes kept for it, in discovery order (`dedup_occurrences`). */
  type Occurrences = map<string, seq<Rect>>

  function KeptFor(d: Occurrences, key: string): seq<Rect>
  {
    if key in d then d[key] else []
  }

  /** `word_in_rect`: the centre of the word's box lies in `r`. */
  predicate WordInRect(w: Word, r: Rect)
  {
    Contains(r, Center(w.box))
  }

  /** Give `key` an entry if it has none, then keep `box` unless it is
      close to a box already kept for that label. */
  function Record(d: Occurrences, key: string, box: Rect, t: real): Occurrences
  {
    d[key := Keep(KeptFor(d, key), box, t)]
  }

  /** The loop over the drawn regions for one word: the first region holding
      the word's centre decides. An empty label goes on to the next region
      (`continue`); any other label is recorded and ends the loop (`break`). */
  function ScanRegions(d: Occurrences, w: Word, regions: seq<Rect>, t: real): Occurrences
    decreases |regions|
  {
    if |regions| == 0 then d
    else if WordInRect(w, regions[0]) then
      var key := Strip(w.text);
      if key == "" then ScanRegions(d, w, regions[1..], t)
      else Record(d, key, w.box, t)
    else ScanRegions(d, w, regions[1..], t)
  }

  predicate InSomeRegion(w: Word, regions: seq<Rect>)
  {
    exists i :: 0 <= i < |regions| && WordInRect(w, regions[i])
  }

  /** A word takes part in counting when its centre lies in some region and
      its stripped text is not empty. */
  predicate Considered(w: Word, regions: seq<Rect>)
  {
    InSomeRegion(w, regions) && Strip(w.text) != ""
  }

  /** Whatever region holds the word first, it is recorded at most once, and
      exactly when it is considered. */
  lemma {:induction false} ScanRegionsRecordsOnce(d: Occurrences, w: Word, regions: seq<Rect>, t: real)
    ensures ScanRegions(d, w, regions, t)
         == if Considered(w, regions) then Record(d, Strip(w.text), w.box, t) else d
    decreases |regions|
  {
    if |regions| > 0 {
      ScanRegionsRecordsOnce(d, w, regions[1..], t);
      if InSomeRegion(w, regions[1..]) {
        var i :| 0 <= i < |regions[1..]| && WordInRect(w, regions[1..][i]);
        assert WordInRect(w, regions[i + 1]);
      }
      if InSomeRegion(w, regions) && !WordInRect(w, regions[0]) {
        var i :| 0 <= i < |regions| && WordInRect(w, regions[i]);
        assert regions[1..][i - 1] == regions[i];
      }
    }
  }

  /** The loop over the page's words (Counting.py:153-165). */
  function CountWords(words: seq<Word>, regions: seq<Rect>, t: real): Occurrences
    decreases |words|
  {
    if |words| == 0 then map[]
    else ScanRegions(CountWords(words[..|words| - 1], regions, t), words[|words| - 1], regions, t)
  }

  /** The single-region loop body of CountingPRO.py and newPredict.py: an
      empty label is skipped, any other is recorded. */
  function RegionStep(d: Occurrences, w: Word, region: Rect, t: real): Occurrences
  {
    if WordInRect(w, region) then
      var key := Strip(w.text);
      if key == "" then d else Record(d, key, w.box, t)
    else d
  }

  function CountInRegion(words: seq<Word>, region: Rect, t: real): Occurrences
    decreases |words|
  {
    if |words| == 0 then map[]
    else RegionStep(CountInRegion(words[..|words| - 1], region, t), words[|words| - 1], region, t)
  }

  /** With one region, the single-region loop and the many-region loop agree. */
  lemma {:induction false} CountInRegionIsOneRegion(words: seq<Word>, region: Rect, t: real)
    ensures CountInRegion(words, region, t) == CountWords(words, [region], t)
    decreases |words|
  {
    if |words| > 0 {
      var prefix := words[..|words| - 1];
      var w := words[|words| - 1];
      CountInRegionIsOneRegion(prefix, region, t);
      RegionStepIsScan(CountInRegion(prefix, region, t), w, region, t);
    }
  }

  lemma RegionStepIsScan(d: Occurrences, w: Word, region: Rect, t: real)
    ensures RegionStep(d, w, region, t) == ScanRegions(d, w, [region], t)
  {
    assert [region][0] == region && [region][1..] == [];
  }

  /** Reference: the boxes, in word order, of the considered words whose
      stripped text is the label `key`. */
  function LabelBoxes(words: seq<Word>, regions: seq<Rect>, key: string): seq<Rect>
    decreases |words|
  {
    if |words| == 0 then []
    else
      var w := words[|words| - 1];
      LabelBoxes(words[..|words| - 1], regions, key)
      + (if Considered(w, regions) && Strip(w.text) == key then [w.box] else [])
  }

  /** `d` holds, for every label, exactly what the word loop owes it after
      `words`: an entry when some considered word carries the label, and
      then the greedy dedup of that label's boxes in word order. */
  ghost predicate Summarises(d: Occurrences, words: seq<Word>, regions: seq<Rect>, t: real)
  {
    forall key :: (key in d <==> |LabelBoxes(words, regions, key)| > 0)
               && (key in d ==> d[key] == GreedyDedup(LabelBoxes(words, regions, key), t))
  }

  /** What the word loop computes: labels never interfere, and each label
      gets the greedy dedup of its own boxes. */
  lemma {:induction false} CountWordsPerLabel(words: seq<Word>, regions: seq<Rect>, t: real)
    ensures Summarises(CountWords(words, regions, t), words, regions, t)
    decreases |words|
  {
    if |words| > 0 {
      var prefix := words[..|words| - 1];
      var w := words[|words| - 1];
      assert prefix + [w] == words;
      CountWordsPerLabel(prefix, regions, t);
      StepSummarises(CountWords(prefix, regions, t), prefix, w, regions, t);
    }
  }

  lemma StepSummarises(d: Occurrences, prefix: seq<Word>, w: Word, regions: seq<Rect>, t: real)
    requires Summarises(d, prefix, regions, t)
    ensures Summarises(ScanRegions(d, w, regions, t), prefix + [w], regions, t)
  {
    ScanRegionsRecordsOnce(d, w, regions, t);
    forall key
      ensures var d' := ScanRegions(d, w, regions, t);
              (key in d' <==> |LabelBoxes(prefix + [w], regions, key)| > 0)
              && (key in d' ==> d'[key] == GreedyDedup(LabelBoxes(prefix + [w], regions, key), t))
    {
      StepOneLabel(d, prefix, w, regions, t, key);
    }
  }

  lemma StepOneLabel(d: Occurrences, prefix: seq<Word>, w: Word, regions: seq<Rect>, t: real, key: string)
    requires key in d <==> |LabelBoxes(prefix, regions, key)| > 0
    requires key in d ==> d[key] == GreedyDedup(LabelBoxes(prefix, regions, key), t)
    requires ScanRegions(d, w, regions, t)
          == if Considered(w, regions) then Record(d, Strip(w.text), w.box, t) else d
    ensures var d' := ScanRegions(d, w, regions, t);
            (key in d' <==> |LabelBoxes(prefix + [w], regions, key)| > 0)
            && (key in d' ==> d'[key] == GreedyDedup(LabelBoxes(prefix + [w], regions, key), t))
  {
    var words := prefix + [w];
    assert words[..|words| - 1] == prefix;
    var before := LabelBoxes(prefix, regions, key);
    if Considered(w, regions) && Strip(w.text) == key {
      assert LabelBoxes(words, regions, key) == before + [w.box];
      assert KeptFor(d, key) == GreedyDedup(before, t);
      GreedyDedupSnoc(before, w.box, t);
    } else {
      assert LabelBoxes(words, regions, key) == before;
    }
  }

  /** `{label: len(coords) ...}`: the count of a label is the number of its kept boxes. */
  function Counts(d: Occurrences): (counts: map<string, nat>)
    ensures counts.Keys == d.Keys
  {
    map k | k in d :: |d[k]|
  }

  /** The properties the counting scripts rely on: no empty label is ever
      counted, every counted label has count at least 1 and at most the
      number of its considered words, that count is the number of boxes the
      greedy filter keeps from them, and the boxes kept for a label have
      pairwise centre distance at least the threshold. */
  lemma CountWordsProperties(words: seq<Word>, regions: seq<Rect>, t: real)
    ensures "" !in CountWords(words, regions, t)
    ensures forall key :: key in Counts(CountWords(words, regions, t)) ==>
              1 <= Counts(CountWords(words, regions, t))[key] <= |LabelBoxes(words, regions, key)|
    ensures forall key :: key in CountWords(words, regions, t) ==>
              Counts(CountWords(words, regions, t))[key] == |GreedyDedup(LabelBoxes(words, regions, key), t)|
    ensures forall key :: key in CountWords(words, regions, t) ==> Separated(CountWords(words, regions, t)[key], t)
  {
    CountWordsPerLabel(words, regions, t);
    EmptyLabelHasNoBoxes(words, regions);
    forall key | key in CountWords(words, regions, t)
      ensures Separated(CountWords(words, regions, t)[key], t)
    {
      GreedyDedupSeparatedCovered(LabelBoxes(words, regions, key), t);
    }
  }

  lemma {:induction false} EmptyLabelHasNoBoxes(words: seq<Word>, regions: seq<Rect>)
    ensures LabelBoxes(words, regions, "") == []
    decreases |words|
  {
    if |words| > 0 {
      EmptyLabelHasNoBoxes(words[..|words| - 1], regions);
    }
  }

  /** Every considered word is represented: its box was kept for its label,
      or a box kept for that label is close to it. */
  lemma CountWordsCoversEveryWord(words: seq<Word>, regions: seq<Rect>, t: real, i: int)
    requires 0 <= i < |words| && Considered(words[i], regions)
    ensures Strip(words[i].text) in CountWords(words, regions, t)
    ensures var kept := CountWords(words, regions, t)[Strip(words[i].text)];
            words[i].box in kept || IsCloseAny(words[i].box, kept, t)
  {
    var key := Strip(words[i].text);
    LabelBoxesHasWord(words, regions, i);
    CountWordsPerLabel(words, regions, t);
    var boxes := LabelBoxes(words, regions, key);
    var j :| 0 <= j < |boxes| && boxes[j] == words[i].box;
    GreedyDedupSeparatedCovered(boxes, t);
    assert Covered(boxes, GreedyDedup(boxes, t), t);
  }

  lemma {:induction false} LabelBoxesHasWord(words: seq<Word>, regions: seq<Rect>, i: int)
    requires 0 <= i < |words| && Considered(words[i], regions)
    ensures words[i].box in LabelBoxes(words, regions, Strip(words[i].text))
    decreases |words|
  {
    if i < |words| - 1 {
      LabelBoxesHasWord(words[..|words| - 1], regions, i);
    }
  }
}
