/**
  Removing circles from an SVG: the recursive `traverse` of
  `_remove_circles_etree` in Sprint4-1/circle.py, over an element tree, and
  the choice of where the cleaned SVG goes in its `cli`.
*/
module CircleFilter {
  import opened Wrappers
  import opened Text
  import opened Paths

  /** An XML element: its (namespace-qualified) tag, everything else it
      carries (attributes, text, tail) as one opaque value, and its
      children in document order. */
  datatype Element = Element(tag: string, content: string, children: seq<Element>)

  /** The tag ElementTree gives an SVG circle: the SVG namespace in braces,
      then the local name. */
  const CircleTag: string := "{http://www.w3.org/2000/svg}circle"

  predicate IsCircle(e: Element) { e.tag == CircleTag }

  /** `traverse(e)`: every child that is a circle is removed, every other
      child is cleaned in turn. The element itself, its tag and its content
      stay as they are. */
  function Clean(e: Element): (r: Element)
    ensures r.tag == e.tag && r.content == e.content
    ensures |r.children| <= |e.children|
    decreases e, 1
  {
    Element(e.tag, e.content, CleanChildren(e.children))
  }

  /** The loop over `list(parent)`, as a recursion on the remaining
      children. */
  function CleanChildren(cs: seq<Element>): (r: seq<Element>)
    ensures |r| <= |cs|
    ensures forall i :: 0 <= i < |r| ==> !IsCircle(r[i])
    decreases cs, 0
  {
    if |cs| == 0 then []
    else
      (if IsCircle(cs[0]) then [] else [Clean(cs[0])]) + CleanChildren(cs[1..])
  }

  /** No element anywhere in `cs` or below is a circle. */
  predicate CircleFree(cs: seq<Element>)
    decreases cs
  {
    forall i :: 0 <= i < |cs| ==> !IsCircle(cs[i]) && CircleFree(cs[i].children)
  }

  /** After cleaning, no element strictly below the root is a circle. The
      root is kept whatever its tag, even a circle. */
  lemma {:induction false} NoCircleBelow(e: Element)
    ensures CircleFree(Clean(e).children)
    ensures Clean(e).tag == e.tag
    decreases e, 1
  {
    NoCircleAmong(e.children);
  }

  lemma {:induction false} NoCircleAmong(cs: seq<Element>)
    ensures CircleFree(CleanChildren(cs))
    decreases cs, 0
  {
    if |cs| > 0 {
      NoCircleAmong(cs[1..]);
      var rest := CleanChildren(cs[1..]);
      if !IsCircle(cs[0]) {
        NoCircleBelow(cs[0]);
        var r := [Clean(cs[0])] + rest;
        assert forall i :: 1 <= i < |r| ==> r[i] == rest[i - 1];
      } else {
        assert CleanChildren(cs) == rest;
      }
    }
  }

  /** The children that are not circles, in their original order. */
  function NonCircles(cs: seq<Element>): (kept: seq<Element>)
    ensures forall x :: x in kept <==> x in cs && !IsCircle(x)
  {
    if |cs| == 0 then []
    else (if IsCircle(cs[0]) then [] else [cs[0]]) + NonCircles(cs[1..])
  }

  /** The cleaned children are exactly the non-circle children, in order,
      each cleaned: one per kept child, at the same position. */
  lemma {:induction false} CleanKeepsOrder(cs: seq<Element>)
    ensures |CleanChildren(cs)| == |NonCircles(cs)|
    ensures forall i :: 0 <= i < |NonCircles(cs)| ==> CleanChildren(cs)[i] == Clean(NonCircles(cs)[i])
  {
    if |cs| > 0 {
      CleanKeepsOrder(cs[1..]);
    }
  }

  /** Cleaning leaves a circle-free tree unchanged. */
  lemma {:induction false} CleanCircleFree(e: Element)
    requires CircleFree(e.children)
    ensures Clean(e) == e
    decreases e, 1
  {
    CleanFreeChildren(e.children);
  }

  lemma {:induction false} CleanFreeChildren(cs: seq<Element>)
    requires CircleFree(cs)
    ensures CleanChildren(cs) == cs
    decreases cs, 0
  {
    if |cs| > 0 {
      CleanCircleFree(cs[0]);
      assert CircleFree(cs[1..]) by {
        forall i | 0 <= i < |cs[1..]| ensures !IsCircle(cs[1..][i]) && CircleFree(cs[1..][i].children) {
          assert cs[1..][i] == cs[i + 1];
        }
      }
      CleanFreeChildren(cs[1..]);
      assert cs == [cs[0]] + cs[1..];
    }
  }

  /** Cleaning twice gives the same tree as cleaning once. */
  lemma CleanIdempotent(e: Element)
    ensures Clean(Clean(e)) == Clean(e)
  {
    NoCircleBelow(e);
    CleanCircleFree(Clean(e));
  }

  /** Matching is on the exact namespaced tag: a `circle` without the SVG
      namespace is not a circle here and survives, cleaned. */
  lemma PlainCircleSurvives(root: Element, content: string, children: seq<Element>)
    requires root.children == [Element("circle", content, children)]
    ensures Clean(root).children == [Clean(Element("circle", content, children))]
  {
    var c := Element("circle", content, children);
    assert c.tag != CircleTag by {
      assert |c.tag| == 6 != |CircleTag|;
    }
    assert root.children[1..] == [];
  }

  /** A suffix spelled ".svg" in any capitalisation. */
  predicate IsSvgSuffix(s: string)
  {
    |s| == 4 && s[0] == '.' && (s[1] == 's' || s[1] == 'S')
    && (s[2] == 'v' || s[2] == 'V') && (s[3] == 'g' || s[3] == 'G')
  }

  /** `svg_path.suffix.lower() != ".svg"` holds exactly for suffixes that
      are not a capitalisation of ".svg". */
  lemma SvgSuffixSpellings(s: string)
    ensures LowerAscii(s) == ".svg" <==> IsSvgSuffix(s)
  {
    var l := LowerAscii(s);
    if l == ".svg" {
      assert |s| == 4;
      assert LowerChar(s[0]) == '.' && LowerChar(s[1]) == 's' && LowerChar(s[2]) == 'v' && LowerChar(s[3]) == 'g';
    }
    if IsSvgSuffix(s) {
      assert |l| == 4 && l[0] == '.' && l[1] == 's' && l[2] == 'v' && l[3] == 'g';
      assert l == ".svg";
    }
  }

  /** Where the cleaned SVG goes. */
  datatype Destination = Stdout | InPlace(source: FilePath) | OutputPath(path: string) | BesideSource(file: FilePath)

  /** The two flags and the optional `-o` value of the command line. */
  datatype Options = Options(toStdout: bool, inplace: bool, output: Option<string>)

  /** What `cli` does once the input exists: whether it warns about the
      suffix, and the destination (None when pathlib cannot derive a name). */
  datatype Plan = Plan(warn: bool, dest: Option<Destination>)

  /** `--print` wins and writes nothing; then `--inplace` overwrites the
      source (and ignores `-o`); then a non-empty `-o`; otherwise the source
      name with "_nocircle" added to its stem. The suffix check only warns:
      it never changes the destination and never stops the run. */
  function CirclePlan(opts: Options, svg: FilePath): (r: Plan)
    ensures r.warn <==> !IsSvgSuffix(Suffix(svg.name))
    ensures opts.toStdout ==> r.dest == Some(Stdout)
    ensures !opts.toStdout && opts.inplace ==> r.dest == Some(InPlace(svg))
    ensures !opts.toStdout && !opts.inplace && opts.output.Some? && opts.output.value != ""
            ==> r.dest == Some(OutputPath(opts.output.value))
    ensures !opts.toStdout && !opts.inplace && (opts.output.None? || opts.output.value == "")
            ==> r.dest == (if svg.name == "" then None else Some(BesideSource(Tagged(svg, "_nocircle").value)))
    ensures r.dest.None? <==> !opts.toStdout && !opts.inplace && (opts.output.None? || opts.output.value == "") && svg.name == ""
  {
    SvgSuffixSpellings(Suffix(svg.name));
    var warn := LowerAscii(Suffix(svg.name)) != ".svg";
    var dest :=
      if opts.toStdout then Some(Stdout)
      else if opts.inplace then Some(InPlace(svg))
      else if opts.output.Some? && opts.output.value != "" then Some(OutputPath(opts.output.value))
      else match Tagged(svg, "_nocircle")
           case Some(f) => Some(BesideSource(f))
           case None => None;
    Plan(warn, dest)
  }

  /** A file named "drawing.svg" gets no warning and, by default, goes to
      "drawing_nocircle.svg" next to it. */
  lemma ExampleDefaultName(dir: string)
    ensures CirclePlan(Options(false, false, None), FilePath(dir, "drawing.svg"))
         == Plan(false, Some(BesideSource(FilePath(dir, "drawing_nocircle.svg"))))
  {
    var name := "drawing.svg";
    assert RFind(name, '.') == 7 by {
      RFindLast(name, '.', 7);
    }
    assert SuffixStart(name) == 7;
    assert Suffix(name) == ".svg" && Stem(name) == "drawing";
    assert Tagged(FilePath(dir, name), "_nocircle") == Some(FilePath(dir, "drawing" + "_nocircle" + ".svg"));
    assert "drawing" + "_nocircle" + ".svg" == "drawing_nocircle.svg";
    assert IsSvgSuffix(".svg");
  }
}
