/**
  The file-name rules of Python's pathlib that the scripts use to name
  their outputs: a name's suffix and stem, and `with_stem`, which derives
  `report_marked.pdf` from `report.pdf`.
*/
module Paths {
  import opened Wrappers

  /** A path as its directory part and its final component, `Path.name`
      (empty for a path such as "/"). */
  datatype FilePath = FilePath(dir: string, name: string)

  /** The position of the last `c` in `s`, or -1 (`str.rfind`). */
  function RFind(s: string, c: char): (i: int)
    ensures -1 <= i < |s|
    ensures 0 <= i ==> s[i] == c
    ensures forall k :: i < k < |s| ==> s[k] != c
  {
    if |s| == 0 then -1
    else if s[|s| - 1] == c then |s| - 1
    else RFind(s[..|s| - 1], c)
  }

  /** Where the suffix starts: the last dot, when it is neither the first
      nor the last character of the name (so ".bashrc" and "notes." have
      no suffix). */
  function SuffixStart(name: string): (i: int)
  {
    var i := RFind(name, '.');
    if 0 < i < |name| - 1 then i else |name|
  }

  /** `Path.suffix`. */
  function Suffix(name: string): (suffix: string)
    ensures suffix == "" || (|suffix| >= 2 && suffix[0] == '.' && '.' !in suffix[1..])
  {
    var i := SuffixStart(name);
    var suffix := name[i..];
    assert suffix != "" ==> forall k :: 1 <= k < |suffix| ==> suffix[k] == name[i + k];
    suffix
  }

  /** `Path.stem`. */
  function Stem(name: string): (stem: string)
    ensures stem + Suffix(name) == name
    ensures |name| > 0 ==> |stem| > 0
  {
    var i := SuffixStart(name);
    assert name[..i] + name[i..] == name;
    name[..i]
  }

  /** `Path.with_stem(stem)`: the name replaced by the new stem followed by
      the old suffix, in the same directory. pathlib refuses (ValueError) a
      path with an empty name, and a resulting name that is empty or ".". */
  function WithStem(p: FilePath, stem: string): (r: Option<FilePath>)
    ensures r.None? <==> p.name == "" || stem + Suffix(p.name) in {"", "."}
    ensures r.Some? ==> r.value.dir == p.dir && r.value.name == stem + Suffix(p.name)
  {
    var name := stem + Suffix(p.name);
    if p.name == "" || name == "" || name == "." then None
    else Some(FilePath(p.dir, name))
  }

  /** `p.with_stem(p.stem + tag)`: the output named after the input. */
  function Tagged(p: FilePath, tag: string): (r: Option<FilePath>)
    ensures r.Some? <==> p.name != "" && (tag == "" ==> p.name != ".")
  {
    WithStem(p, Stem(p.name) + tag)
  }

  /** For a name with a suffix, the derived name keeps the directory and
      the suffix, and its stem is the old stem with the tag appended:
      "report.pdf" becomes "report_marked.pdf". */
  lemma TaggedKeepsSuffix(p: FilePath, tag: string)
    requires Suffix(p.name) != ""
    ensures Tagged(p, tag).Some?
    ensures Tagged(p, tag).value.dir == p.dir
    ensures Suffix(Tagged(p, tag).value.name) == Suffix(p.name)
    ensures Stem(Tagged(p, tag).value.name) == Stem(p.name) + tag
  {
    var stem, suffix := Stem(p.name), Suffix(p.name);
    SuffixAfter(stem + tag, suffix);
    assert stem + tag + suffix == (stem + tag) + suffix;
  }

  /** A non-empty front followed by a suffix-shaped tail splits back into
      the two. */
  lemma SuffixAfter(front: string, suffix: string)
    requires |front| > 0 && |suffix| >= 2 && suffix[0] == '.' && '.' !in suffix[1..]
    ensures Suffix(front + suffix) == suffix && Stem(front + suffix) == front
  {
    var name := front + suffix;
    var i := |front|;
    assert name[i] == '.';
    assert forall k :: i < k < |name| ==> name[k] == suffix[1..][k - i - 1];
    assert RFind(name, '.') == i by {
      RFindLast(name, '.', i);
    }
    assert name[i..] == suffix;
    assert name[..i] == front;
  }

  /** `rfind` finds the given occurrence when none follows it. */
  lemma RFindLast(s: string, c: char, i: nat)
    requires i < |s| && s[i] == c
    requires forall k :: i < k < |s| ==> s[k] != c
    ensures RFind(s, c) == i
  {
  }

  /** A name without any dot gets the tag at its end. */
  lemma TaggedWithoutDot(p: FilePath, tag: string)
    requires p.name != "" && '.' !in p.name
    ensures Tagged(p, tag) == Some(FilePath(p.dir, p.name + tag))
  {
    assert RFind(p.name, '.') == -1;
    assert p.name[..|p.name|] == p.name;
    assert Suffix(p.name) == "" && Stem(p.name) == p.name;
    var name := Stem(p.name) + tag + Suffix(p.name);
    assert name == p.name + tag;
    assert name[0] == p.name[0] && p.name[0] != '.';
    assert WithStem(p, Stem(p.name) + tag) == Some(FilePath(p.dir, name));
  }

  /** `Path(output_path or pdf_path.with_stem(pdf_path.stem + "_marked"))`
      in both areaHighlight.py files: a given non-empty path wins (an empty
      string is false in Python), otherwise the input name tagged with
      "_marked". */
  datatype Target = Given(path: string) | Derived(file: FilePath)

  function MarkedOutput(outputPath: Option<string>, pdf: FilePath): (r: Option<Target>)
    ensures outputPath.Some? && outputPath.value != "" ==> r == Some(Given(outputPath.value))
    ensures (outputPath.None? || outputPath.value == "") ==>
      (r.Some? <==> pdf.name != "") && (r.Some? ==> r.value == Derived(Tagged(pdf, "_marked").value))
  {
    if outputPath.Some? && outputPath.value != "" then Some(Given(outputPath.value))
    else
      match Tagged(pdf, "_marked")
      case Some(f) => Some(Derived(f))
      case None => None
  }
}
