/**
  Reading a detector's box. Sprint4-1/CountingPRO.py takes the YOLO output
  line as typed text and pulls every decimal number out of it with the
  pattern `[-+]?\d*\.\d+(?:[eE][-+]?\d+)?`; Sprint4-1/newPredict.py gets the
  four numbers directly. Both receive them in (y1, x1, y2, x2) order and
  swap them into (x1, y1, x2, y2).
*/
module CoordLine {
  import opened Wrappers
  import opened Geometry
  import opened Text

  predicate IsSign(c: char) { c == '+' || c == '-' }

  /** The end of the run of digits starting at `i`. */
  function DigitRun(s: string, i: nat): (e: nat)
    requires i <= |s|
    ensures i <= e <= |s|
    ensures forall k :: i <= k < e ==> IsDigit(s[k])
    ensures e < |s| ==> !IsDigit(s[e])
    decreases |s| - i
  {
    if i < |s| && IsDigit(s[i]) then DigitRun(s, i + 1) else i
  }

  /** The end of the optional exponent `[eE][-+]?\d+` after position `i`:
      `i` itself when there is none. */
  function ExponentEnd(s: string, i: nat): (e: nat)
    requires i <= |s|
    ensures i <= e <= |s|
  {
    if i < |s| && (s[i] == 'e' || s[i] == 'E') then
      var j := if i + 1 < |s| && IsSign(s[i + 1]) then i + 2 else i + 1;
      var k := DigitRun(s, j);
      if k > j then k else i
    else i
  }

  /** The end of the match of the pattern starting exactly at `i`, if any.
      The pattern's greedy quantifiers never need to give anything back:
      the integer digits must be followed by the point and the fraction
      digits by an exponent letter or the end of the match. */
  function MatchAt(s: string, i: nat): (m: Option<nat>)
    requires i <= |s|
    ensures m.Some? ==> i < m.value <= |s|
  {
    var a := if i < |s| && IsSign(s[i]) then i + 1 else i;
    var b := DigitRun(s, a);
    if b < |s| && s[b] == '.' then
      var c := DigitRun(s, b + 1);
      if c > b + 1 then Some(ExponentEnd(s, c)) else None
    else None
  }

  /** `re.findall`: matches tried at every position from the left; after a
      match the search resumes at its end, after a failure one character
      further on. */
  function FindAll(s: string, i: nat): (tokens: seq<string>)
    requires i <= |s|
    decreases |s| - i
  {
    if i == |s| then []
    else
      match MatchAt(s, i)
      case Some(e) => [s[i..e]] + FindAll(s, e)
      case None => FindAll(s, i + 1)
  }

  predicate AllDigitsNonEmpty(s: string) { |s| > 0 && AllDigits(s) }

  /** A decimal literal in the pattern's sense, described by how it splits:
      an optional sign, integer digits, the point, at least one fraction
      digit, and an optional exponent with at least one digit. */
  ghost predicate IsFloatLiteral(t: string)
  {
    exists sign: string, whole: string, frac: string, exp: string ::
      t == sign + whole + "." + frac + exp
      && (sign == "" || (|sign| == 1 && IsSign(sign[0])))
      && AllDigits(whole)
      && AllDigitsNonEmpty(frac)
      && (exp == "" || IsExponent(exp))
  }

  /** An exponent: the letter, an optional sign, at least one digit. */
  predicate IsExponent(e: string)
  {
    |e| >= 2 && (e[0] == 'e' || e[0] == 'E')
    && AllDigitsNonEmpty(if IsSign(e[1]) then e[2..] else e[1..])
  }

  lemma LiteralFromParts(sign: string, whole: string, frac: string, exp: string)
    requires sign == "" || (|sign| == 1 && IsSign(sign[0]))
    requires AllDigits(whole) && AllDigitsNonEmpty(frac) && (exp == "" || IsExponent(exp))
    ensures IsFloatLiteral(sign + whole + "." + frac + exp)
  {
  }

  lemma DigitSlice(s: string, a: nat, b: nat)
    requires a <= b <= |s|
    requires forall k :: a <= k < b ==> IsDigit(s[k])
    ensures AllDigits(s[a..b])
  {
    assert forall k :: 0 <= k < b - a ==> s[a..b][k] == s[a + k];
  }

  /** What `ExponentEnd` skips is an exponent. */
  lemma ExponentSlice(s: string, c: nat)
    requires c <= |s|
    ensures ExponentEnd(s, c) == c || IsExponent(s[c..ExponentEnd(s, c)])
  {
    var e := ExponentEnd(s, c);
    if e > c {
      var j := if c + 1 < |s| && IsSign(s[c + 1]) then c + 2 else c + 1;
      DigitSlice(s, j, e);
      var x := s[c..e];
      assert x[j - c..] == s[j..e];
    }
  }

  /** What a successful match covers is a decimal literal. */
  lemma MatchIsLiteral(s: string, i: nat)
    requires i <= |s| && MatchAt(s, i).Some?
    ensures IsFloatLiteral(s[i..MatchAt(s, i).value])
  {
    var a := if i < |s| && IsSign(s[i]) then i + 1 else i;
    var b := DigitRun(s, a);
    var c := DigitRun(s, b + 1);
    var e := ExponentEnd(s, c);
    assert e == MatchAt(s, i).value;
    DigitSlice(s, a, b);
    DigitSlice(s, b + 1, c);
    ExponentSlice(s, c);
    SplitAt(s, i, a, b, c, e);
    LiteralFromParts(s[i..a], s[a..b], s[b + 1..c], s[c..e]);
  }

  lemma SplitAt(s: string, i: nat, a: nat, b: nat, c: nat, e: nat)
    requires i <= a <= b < c <= e <= |s| && s[b] == '.'
    ensures s[i..e] == s[i..a] + s[a..b] + "." + s[b + 1..c] + s[c..e]
  {
    assert s[b..b + 1] == ".";
    assert s[i..b] == s[i..a] + s[a..b];
    assert s[i..b + 1] == s[i..b] + s[b..b + 1];
    assert s[i..c] == s[i..b + 1] + s[b + 1..c];
    assert s[i..e] == s[i..c] + s[c..e];
  }

  /** Every token found is a decimal literal and contains a point. */
  lemma {:induction false} TokensAreLiterals(s: string, i: nat)
    requires i <= |s|
    ensures forall t :: t in FindAll(s, i) ==> IsFloatLiteral(t) && '.' in t
    decreases |s| - i
  {
    if i < |s| {
      match MatchAt(s, i)
      case Some(e) =>
        TokensAreLiterals(s, e);
        MatchIsLiteral(s, i);
        var b := DigitRun(s, if IsSign(s[i]) then i + 1 else i);
        assert s[i..e][b - i] == '.';
      case None =>
        TokensAreLiterals(s, i + 1);
    }
  }

  /** Without a decimal point in the text, nothing is found: a bare integer
      such as "100" is ignored. */
  lemma {:induction false} NoPointNoTokens(s: string, i: nat)
    requires i <= |s|
    requires forall k :: i <= k < |s| ==> s[k] != '.'
    ensures FindAll(s, i) == []
    decreases |s| - i
  {
    if i < |s| {
      var a := if IsSign(s[i]) then i + 1 else i;
      var b := DigitRun(s, a);
      assert MatchAt(s, i).None?;
      NoPointNoTokens(s, i + 1);
    }
  }

  /** A literal on its own is found whole, as one token. */
  lemma LiteralFoundWhole(sign: string, whole: string, frac: string, exp: string)
    requires sign == "" || (|sign| == 1 && IsSign(sign[0]))
    requires AllDigits(whole) && AllDigitsNonEmpty(frac) && (exp == "" || IsExponent(exp))
    ensures var t := sign + whole + "." + frac + exp; FindAll(t, 0) == [t]
  {
    var t := sign + whole + "." + frac + exp;
    var a := |sign|;
    var b := a + |whole|;
    var c := b + 1 + |frac|;
    assert t[b] == '.';
    assert a == 1 ==> IsSign(t[0]) by {
      if a == 1 { assert t[0] == sign[0]; }
    }
    assert a == 0 ==> !IsSign(t[0]) by {
      if a == 0 { assert t[0] == if b > 0 then whole[0] else '.'; }
    }
    assert DigitRun(t, a) == b by {
      assert t[a..b] == whole;
      DigitsThen(t, a, b, whole);
    }
    assert DigitRun(t, b + 1) == c by {
      assert t[b + 1..c] == frac;
      DigitsThen(t, b + 1, c, frac);
    }
    assert ExponentEnd(t, c) == |t| by {
      assert t[c..] == exp;
      if exp != "" { ExponentWhole(t, c); }
    }
    ScanWhole(t, a, b, c);
  }

  /** A text the pattern matches from its first to its last character is
      one token. */
  lemma ScanWhole(t: string, a: nat, b: nat, c: nat)
    requires a <= b < c <= |t| && c > b + 1
    requires a == 1 ==> IsSign(t[0])
    requires a == 0 ==> !IsSign(t[0])
    requires a <= 1
    requires DigitRun(t, a) == b && t[b] == '.' && DigitRun(t, b + 1) == c && ExponentEnd(t, c) == |t|
    ensures FindAll(t, 0) == [t]
  {
    assert MatchAt(t, 0) == Some(|t|);
    assert t[0..|t|] == t;
  }

  /** A digit string placed at `i`, followed by a non-digit or the end. */
  lemma DigitsThen(t: string, i: nat, j: nat, d: string)
    requires i <= j <= |t| && t[i..j] == d && AllDigits(d)
    requires j < |t| ==> !IsDigit(t[j])
    ensures DigitRun(t, i) == j
  {
    assert forall k :: i <= k < j ==> t[k] == d[k - i];
    RunAcross(t, i, j);
  }

  /** An exponent running to the end of the text is skipped whole. */
  lemma ExponentWhole(t: string, c: nat)
    requires c <= |t| && IsExponent(t[c..])
    ensures ExponentEnd(t, c) == |t|
  {
    var x := t[c..];
    assert t[c] == x[0] && t[c + 1] == x[1];
    var j := if IsSign(x[1]) then c + 2 else c + 1;
    DigitsThen(t, j, |t|, x[j - c..]);
  }

  /** Digits from `i` up to `j`, and no digit at `j`: the run ends at `j`. */
  lemma {:induction false} RunAcross(s: string, i: nat, j: nat)
    requires i <= j <= |s|
    requires forall k :: i <= k < j ==> IsDigit(s[k])
    requires j < |s| ==> !IsDigit(s[j])
    ensures DigitRun(s, i) == j
    decreases j - i
  {
    if i < j {
      RunAcross(s, i + 1, j);
    }
  }

  /** Why reading the line failed: the script raises one fixed `ValueError`
      whatever the number of numbers found. */
  datatype CoordError = NotFourNumbers

  /** Four numbers in (y1, x1, y2, x2) order as the corners (x1, y1, x2, y2). */
  function FromYX(q: seq<real>): (r: Rect)
    requires |q| == 4
  {
    Rect(q[1], q[0], q[3], q[2])
  }

  /** The order the numbers arrive in. */
  function ToYX(r: Rect): (q: seq<real>)
    ensures |q| == 4
  {
    [r.y0, r.x0, r.y1, r.x1]
  }

  /** The swap is a bijection between the detector's order and the corners. */
  lemma SwapRoundTrip(q: seq<real>, r: Rect)
    requires |q| == 4
    ensures ToYX(FromYX(q)) == q
    ensures FromYX(ToYX(r)) == r
  {
    assert ToYX(FromYX(q)) == [q[0], q[1], q[2], q[3]];
  }

  /** `parse_coord_line`: the numbers found in the line (their values given
      by `value`, standing for Python's `float`), refused unless there are
      exactly four, then put in (x1, y1, x2, y2) order. */
  function ParseCoordLine(s: string, value: string -> real): (r: Result<Rect, CoordError>)
    ensures r.Err? <==> |FindAll(s, 0)| != 4
    ensures r.Ok? ==> ToYX(r.value) == Map(value, FindAll(s, 0))
  {
    var tokens := FindAll(s, 0);
    if |tokens| != 4 then Err(NotFourNumbers)
    else
      var nums := Map(value, tokens);
      SwapRoundTrip(nums, Rect(0.0, 0.0, 0.0, 0.0));
      Ok(FromYX(nums))
  }

  function Map(f: string -> real, xs: seq<string>): (ys: seq<real>)
    ensures |ys| == |xs|
    ensures forall k :: 0 <= k < |xs| ==> ys[k] == f(xs[k])
  {
    seq(|xs|, k requires 0 <= k < |xs| => f(xs[k]))
  }

  /** A line with no decimal point is always refused: no number is found in it. */
  lemma IntegerLineRefused(s: string, value: string -> real)
    requires forall k :: 0 <= k < |s| ==> s[k] != '.'
    ensures FindAll(s, 0) == []
    ensures ParseCoordLine(s, value) == Err(NotFourNumbers)
  {
    NoPointNoTokens(s, 0);
  }

  /** The detector gives nothing, or not four numbers: "No detection." */
  datatype DetectionError = NoDetection

  /** The detection in Sprint4-1/newPredict.py: rejected when missing or not
      of length four, otherwise swapped into (x1, y1, x2, y2). */
  function DetectionToPixels(raw: Option<seq<real>>): (r: Result<Rect, DetectionError>)
    ensures r.Ok? <==> raw.Some? && |raw.value| == 4
    ensures r.Ok? ==> ToYX(r.value) == raw.value
  {
    if raw.None? || |raw.value| != 4 then Err(NoDetection)
    else
      SwapRoundTrip(raw.value, Rect(0.0, 0.0, 0.0, 0.0));
      Ok(FromYX(raw.value))
  }
}
