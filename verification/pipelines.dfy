/**
  The scripts' flows, from their inputs (selections, a detector line, the
  page and image sizes, the page's words) to the rectangles they hand to
  PyMuPDF and the counts they report. Reading files, rendering, drawing and
  saving happen around these functions and are not modelled.
*/
module Pipelines {
  import opened Wrappers
  import opened Geometry
  import opened Subtraction
  import opened Proximity
  import opened Counting
  import opened Scale
  import opened CoordLine
  import opened Text
  import opened Paths

  /** The preview scale of CoverAndCount/Counting.py: selections are drawn
      on the page rendered at twice its size. */
  const PreviewZoom: real := 2.0

  /** A drag on the preview: where the button went down and where it came
      up, in preview pixels. */
  datatype Selection = Selection(press: Point, release: Point)

  /** What CoverAndCount/Counting.py computes: the regions in PDF points,
      the kept boxes per label, their counts, and the rectangles whited
      out. */
  datatype CoverResult = CoverResult(regions: seq<Rect>, occurrences: Occurrences, counts: map<string, nat>, covers: seq<Rect>)

  /** `onselect` followed by the conversion loop: the corners put in order,
      then every coordinate divided by the preview scale. */
  function SelectionRegion(s: Selection): (region: Rect)
    ensures IsNormal(region)
    ensures forall p :: Contains(region, p) <==> Contains(RectFromPoints(s.press, s.release), Point(p.x * PreviewZoom, p.y * PreviewZoom))
  {
    var px := RectFromPoints(s.press, s.release);
    var region := ToPoints(px, PreviewZoom);
    forall p ensures Contains(region, p) <==> Contains(px, Point(p.x * PreviewZoom, p.y * PreviewZoom)) {
      RegionMatchesPixels(px, PreviewZoom, p);
    }
    RegionMatchesPixels(px, PreviewZoom, Point(0.0, 0.0));
    region
  }

  /** The body of CoverAndCount/Counting.py after the selection window
      closes: nothing when no region was drawn (the script exits), otherwise
      the word counts over all regions and the complement of the regions in
      the page. */
  function CoverAndCount(selections: seq<Selection>, words: seq<Word>, page: Rect): (r: Option<CoverResult>)
    ensures r.None? <==> |selections| == 0
    ensures r.Some? ==> |r.value.regions| == |selections|
    ensures r.Some? ==> forall i :: 0 <= i < |selections| ==>
              r.value.regions[i] == SelectionRegion(selections[i]) && IsNormal(r.value.regions[i])
    ensures r.Some? ==> r.value.occurrences == CountWords(words, r.value.regions, DedupThreshold)
    ensures r.Some? ==> r.value.counts.Keys == r.value.occurrences.Keys
    ensures r.Some? ==> forall key :: key in r.value.counts ==>
              r.value.counts[key] == |GreedyDedup(LabelBoxes(words, r.value.regions, key), DedupThreshold)|
    ensures r.Some? ==> forall i :: 0 <= i < |r.value.covers| ==>
              Inside(r.value.covers[i], page) && InNoRegion(r.value.covers[i], r.value.regions)
  {
    if |selections| == 0 then None
    else
      var regions := seq(|selections|, i requires 0 <= i < |selections| => SelectionRegion(selections[i]));
      var occurrences := CountWords(words, regions, DedupThreshold);
      var covers := SubtractRects(page, regions);
      CountWordsProperties(words, regions, DedupThreshold);
      Some(CoverResult(regions, occurrences, Counts(occurrences), covers))
  }

  /** A rectangle overlapping none of the regions. */
  predicate InNoRegion(r: Rect, regions: seq<Rect>)
  {
    forall j :: 0 <= j < |regions| ==> !Intersects(r, regions[j])
  }

  /** What CoverAndCount/Counting.py reports: the occurrences are the
      per-label loop over the words and the drawn regions, every label
      counted is non-empty with count at least one, each count is the number
      of boxes the greedy filter keeps from the label's words, the kept boxes of a label are at
      least the threshold apart, and the whited-out area is exactly the part
      of the page outside every region. */
  lemma CoverAndCountProperties(selections: seq<Selection>, words: seq<Word>, page: Rect, p: Point)
    requires |selections| > 0
    ensures var r := CoverAndCount(selections, words, page).value;
      r.occurrences == CountWords(words, r.regions, DedupThreshold)
      && "" !in r.counts
      && (forall key :: key in r.counts ==> r.counts[key] >= 1)
      && (forall key :: key in r.counts ==> r.counts[key] == |GreedyDedup(LabelBoxes(words, r.regions, key), DedupThreshold)|)
      && (forall key :: key in r.occurrences ==> Separated(r.occurrences[key], DedupThreshold))
      && CountContaining(r.covers, p) == if Contains(page, p) && InNoSub(r.regions, p) then 1 else 0
  {
    var r := CoverAndCount(selections, words, page).value;
    CountWordsProperties(words, r.regions, DedupThreshold);
    SubtractRectsPartition(page, r.regions, p);
  }

  /** The one-region flow of Sprint4-1/CountingPRO.py (`main`) and
      Sprint4-1/newPredict.py (`pdf_postprocess`). */
  datatype PostResult = PostResult(zoom: Zoom, region: Rect, occurrences: Occurrences, counts: map<string, nat>, covers: seq<Rect>)

  /** From the detected box in image pixels: the scale, the region in
      points, the counts inside it and the whited-out rest of the page. A
      page side of zero, or a scale of zero, stops the script with a
      division error. */
  function PostProcess(px: Rect, imgW: real, imgH: real, page: Rect, words: seq<Word>): (r: Result<PostResult, ScaleError>)
    ensures r.Err? <==> Width(page) == 0.0 || Height(page) == 0.0
                        || ComputeZoom(imgW, imgH, Width(page), Height(page)).value.value == 0.0
    ensures r.Ok? ==> r.value.zoom == ComputeZoom(imgW, imgH, Width(page), Height(page)).value
    ensures r.Ok? ==> r.value.zoom.value != 0.0 && r.value.region == RegionFromPixels(px, r.value.zoom.value)
    ensures r.Ok? ==> IsNormal(r.value.region)
    ensures r.Ok? ==> r.value.counts.Keys == r.value.occurrences.Keys
    ensures r.Ok? ==> |r.value.covers| <= 4
    ensures r.Ok? ==> forall i :: 0 <= i < |r.value.covers| ==> !Intersects(r.value.covers[i], r.value.region)
    ensures r.Ok? ==> forall p :: CountContaining(r.value.covers, p) == if Contains(page, p) && !Contains(r.value.region, p) then 1 else 0
  {
    match ComputeZoom(imgW, imgH, Width(page), Height(page))
    case Err(e) => Err(e)
    case Ok(zoom) =>
      if zoom.value == 0.0 then Err(ZeroZoom)
      else
        var region := RegionFromPixels(px, zoom.value);
        var occurrences := CountInRegion(words, region, DedupThreshold);
        var covers := SubtractRects(page, [region]);
        SubtractOneRegion(page, region);
        forall p ensures CountContaining(covers, p) == if Contains(page, p) && !Contains(region, p) then 1 else 0 {
          SubtractRectsPartition(page, [region], p);
          assert InNoSub([region], p) <==> !Contains(region, p);
        }
        Ok(PostResult(zoom, region, occurrences, Counts(occurrences), covers))
  }

  /** In the one-region flow a word is counted exactly as in the
      multi-region loop given that single region: only words whose centre
      lies in the region and whose label is not blank count, every count is
      at least one and is the number of boxes the greedy filter keeps from
      the label's words, and kept boxes are at least the threshold apart. */
  lemma PostProcessCounts(px: Rect, imgW: real, imgH: real, page: Rect, words: seq<Word>)
    requires PostProcess(px, imgW, imgH, page, words).Ok?
    ensures var r := PostProcess(px, imgW, imgH, page, words).value;
      r.occurrences == CountWords(words, [r.region], DedupThreshold)
      && "" !in r.counts
      && (forall key :: key in r.counts ==> 1 <= r.counts[key] <= |LabelBoxes(words, [r.region], key)|)
      && (forall key :: key in r.occurrences ==> r.counts[key] == |GreedyDedup(LabelBoxes(words, [r.region], key), DedupThreshold)|)
      && (forall key :: key in r.occurrences ==> Separated(r.occurrences[key], DedupThreshold))
  {
    var r := PostProcess(px, imgW, imgH, page, words).value;
    CountInRegionIsOneRegion(words, r.region, DedupThreshold);
    CountWordsProperties(words, [r.region], DedupThreshold);
  }

  /** Why a flow stopped. */
  datatype FlowError = BadLine(coord: CoordError) | MissingFile | NoDetected | Division(scale: ScaleError)

  /** Sprint4-1/CountingPRO.py `main` from the pasted line onwards: the line
      must hold exactly four decimal numbers (checked first, so a bad line
      stops the run even when a file is missing); then the run ends quietly
      unless both the PDF and the image exist (`filesExist`, standing for the
      two `exists()` calls); then the box is post-processed. */
  function CountingPro(line: string, value: string -> real, filesExist: bool, imgW: real, imgH: real, page: Rect, words: seq<Word>): (r: Result<PostResult, FlowError>)
    ensures |FindAll(line, 0)| != 4 ==> r == Err(BadLine(NotFourNumbers))
    ensures |FindAll(line, 0)| == 4 && !filesExist ==> r == Err(MissingFile)
    ensures |FindAll(line, 0)| == 4 && filesExist ==>
              (r.Ok? <==> PostProcess(ParseCoordLine(line, value).value, imgW, imgH, page, words).Ok?)
    ensures r.Ok? ==> filesExist && ParseCoordLine(line, value).Ok?
                      && PostProcess(ParseCoordLine(line, value).value, imgW, imgH, page, words).Ok?
                      && r == Ok(PostProcess(ParseCoordLine(line, value).value, imgW, imgH, page, words).value)
  {
    match ParseCoordLine(line, value)
    case Err(e) => Err(BadLine(e))
    case Ok(px) =>
      if !filesExist then Err(MissingFile)
      else
        match PostProcess(px, imgW, imgH, page, words)
        case Err(e) => Err(Division(e))
        case Ok(res) => Ok(res)
  }

  /** Sprint4-1/newPredict.py's main block: a missing PDF (`pdfExists`,
      standing for `exists()`) stops the run before the detector is asked;
      a missing or malformed detection stops with "No detection."; otherwise
      the swapped box is post-processed (whose failures the script catches
      and reports). */
  function NewPredict(pdfExists: bool, raw: Option<seq<real>>, imgW: real, imgH: real, page: Rect, words: seq<Word>): (r: Result<PostResult, FlowError>)
    ensures !pdfExists ==> r == Err(MissingFile)
    ensures pdfExists && (raw.None? || |raw.value| != 4) ==> r == Err(NoDetected)
    ensures pdfExists && raw.Some? && |raw.value| == 4 ==>
              (r.Ok? <==> PostProcess(DetectionToPixels(raw).value, imgW, imgH, page, words).Ok?)
    ensures r.Ok? ==> pdfExists && raw.Some? && |raw.value| == 4
                      && ToYX(DetectionToPixels(raw).value) == raw.value
                      && PostProcess(DetectionToPixels(raw).value, imgW, imgH, page, words).Ok?
                      && r == Ok(PostProcess(DetectionToPixels(raw).value, imgW, imgH, page, words).value)
  {
    if !pdfExists then Err(MissingFile)
    else
      match DetectionToPixels(raw)
      case Err(_) => Err(NoDetected)
      case Ok(px) =>
        match PostProcess(px, imgW, imgH, page, words)
        case Err(e) => Err(Division(e))
        case Ok(res) => Ok(res)
  }

  /** Why `mark_region_auto` stopped: pathlib could not derive the output
      name, or a division by zero. */
  datatype MarkError = NoOutputName | MarkDivision(scale: ScaleError)

  /** Sprint4-1/areaHighlight.py: the output target, the region of
      interest, and the four white masks drawn around it. */
  datatype Marked = Marked(output: Target, zoom: Zoom, roi: Rect, masks: seq<Rect>)

  function MarkRegionMasked(pdf: FilePath, outputPath: Option<string>, px: Rect, imgW: real, imgH: real, pw: real, ph: real): (r: Result<Marked, MarkError>)
    ensures MarkedOutput(outputPath, pdf).None? ==> r == Err(NoOutputName)
    ensures r.Ok? <==> MarkedOutput(outputPath, pdf).Some? && ComputeZoom(imgW, imgH, pw, ph).Ok?
                       && ComputeZoom(imgW, imgH, pw, ph).value.value != 0.0
    ensures r.Ok? ==> Some(r.value.output) == MarkedOutput(outputPath, pdf)
    ensures r.Ok? ==> IsNormal(r.value.roi) && |r.value.masks| == 4
    ensures r.Ok? ==> r.value.masks == Masks(pw, ph, r.value.roi)
    ensures r.Ok? ==> forall i :: 0 <= i < 4 ==> !Intersects(r.value.masks[i], r.value.roi)
    ensures r.Ok? ==> ComputeZoom(imgW, imgH, pw, ph) == Ok(r.value.zoom) && r.value.zoom.value != 0.0
                      && r.value.roi == RegionFromPixels(px, r.value.zoom.value)
  {
    match MarkedOutput(outputPath, pdf)
    case None => Err(NoOutputName)
    case Some(output) =>
      match ComputeZoom(imgW, imgH, pw, ph)
      case Err(e) => Err(MarkDivision(e))
      case Ok(zoom) =>
        if zoom.value == 0.0 then Err(MarkDivision(ZeroZoom))
        else
          var roi := RegionFromPixels(px, zoom.value);
          MasksCoverPage(pw, ph, roi, Point(0.0, 0.0));
          Ok(Marked(output, zoom, roi, Masks(pw, ph, roi)))
  }

  /** Everything on the page outside the region of interest is painted
      white, and nothing inside it; when the region lies within the page,
      nothing outside the page is painted either. */
  lemma MarkRegionMaskedFills(pdf: FilePath, outputPath: Option<string>, px: Rect, imgW: real, imgH: real, pw: real, ph: real, p: Point)
    requires MarkRegionMasked(pdf, outputPath, px, imgW, imgH, pw, ph).Ok?
    ensures var m := MarkRegionMasked(pdf, outputPath, px, imgW, imgH, pw, ph).value;
      Contains(Page(pw, ph), p) ==> (CountContaining(m.masks, p) == 1 <==> !Contains(m.roi, p))
    ensures var m := MarkRegionMasked(pdf, outputPath, px, imgW, imgH, pw, ph).value;
      WithinPage(m.roi, pw, ph) ==> !Contains(Page(pw, ph), p) ==> CountContaining(m.masks, p) == 0
  {
    var m := MarkRegionMasked(pdf, outputPath, px, imgW, imgH, pw, ph).value;
    MasksCoverPage(pw, ph, m.roi, p);
    CountConcat(m.masks, [m.roi], p);
    if WithinPage(m.roi, pw, ph) {
      MasksPartitionPage(pw, ph, m.roi, p);
    }
  }

  /** The region's corners lie on the page. */
  predicate WithinPage(roi: Rect, pw: real, ph: real)
  {
    0.0 <= roi.x0 && roi.x1 <= pw && 0.0 <= roi.y0 && roi.y1 <= ph
  }

  /** areaHighlight.py: the output target and the outline rectangle. */
  datatype Outlined = Outlined(output: Target, zoom: Zoom, rect: Rect)

  function MarkRegion(pdf: FilePath, outputPath: Option<string>, px: Rect, imgW: real, imgH: real, pw: real, ph: real): (r: Result<Outlined, MarkError>)
    ensures MarkedOutput(outputPath, pdf).None? ==> r == Err(NoOutputName)
    ensures r.Ok? <==> MarkedOutput(outputPath, pdf).Some? && ComputeZoom(imgW, imgH, pw, ph).Ok?
                       && ComputeZoom(imgW, imgH, pw, ph).value.value != 0.0
    ensures r.Ok? ==> Some(r.value.output) == MarkedOutput(outputPath, pdf)
    ensures r.Ok? ==> ComputeZoom(imgW, imgH, pw, ph) == Ok(r.value.zoom)
    ensures r.Ok? ==> IsNormal(r.value.rect) && r.value.zoom.value != 0.0
    ensures r.Ok? ==> {r.value.rect.x0, r.value.rect.x1} == {px.x0 / r.value.zoom.value, px.x1 / r.value.zoom.value}
    ensures r.Ok? ==> {r.value.rect.y0, r.value.rect.y1} == {px.y0 / r.value.zoom.value, px.y1 / r.value.zoom.value}
  {
    match MarkedOutput(outputPath, pdf)
    case None => Err(NoOutputName)
    case Some(output) =>
      match ComputeZoom(imgW, imgH, pw, ph)
      case Err(e) => Err(MarkDivision(e))
      case Ok(zoom) =>
        if zoom.value == 0.0 then Err(MarkDivision(ZeroZoom))
        else Ok(Outlined(output, zoom, RegionFromPixels(px, zoom.value)))
  }

  /** Why Manual/Index.py stopped: the page answer is not an integer (an
      uncaught ValueError), or the page does not exist (the script prints
      the page count and returns without annotating or saving). */
  datatype IndexError = NotAnInteger | PageOutOfRange(pageCount: nat)

  /** `int(page_input) - 1 if page_input else 0` on the stripped answer. */
  function PageNumber(answer: string): (r: Result<int, IndexError>)
    ensures IsBlank(answer) ==> r == Ok(0)
    ensures !IsBlank(answer) ==> (r.Ok? <==> ParseInt(Strip(answer)).Some?)
    ensures !IsBlank(answer) && r.Ok? ==> r.value == ParseInt(Strip(answer)).value - 1
  {
    StripEmptyIffBlank(answer);
    var s := Strip(answer);
    if s == "" then Ok(0)
    else
      match ParseInt(s)
      case Some(n) => Ok(n - 1)
      case None => Err(NotAnInteger)
  }

  /** Page numbers are typed from 1: typing n selects index n - 1, and
      typing 1 is the same as typing nothing. */
  lemma PageNumberFromOne(n: nat)
    ensures PageNumber(Decimal(n)) == Ok(n - 1)
    ensures PageNumber("1") == PageNumber("")
  {
    ParseIntRoundTrip(n);
    StripOfDigits(Decimal(n));
    assert Decimal(1) == "1";
    ParseIntRoundTrip(1);
    StripOfDigits("1");
    assert IsBlank("");
  }

  /** Digits carry no whitespace, so stripping keeps them. */
  lemma StripOfDigits(s: string)
    requires |s| > 0 && AllDigits(s)
    ensures Strip(s) == s && !IsBlank(s)
  {
    assert IsDigit(s[|s| - 1]) && IsDigit(s[0]);
    assert !IsSpace(s[|s| - 1]) && !IsSpace(s[0]);
    assert RStrip(s) == s;
    assert LStrip(s) == s;
  }

  /** `mark_rectangle_in_pdf`: the page is looked up first (which pages
      exist, including how negative numbers are resolved, is PyMuPDF's rule
      and a parameter here); on success the rectangle spanned by the two
      points is annotated. */
  function MarkRectangle(pageCount: nat, pageExists: int -> bool, pageNumber: int, p1: Point, p2: Point): (r: Result<Rect, IndexError>)
    ensures r.Err? <==> !pageExists(pageNumber)
    ensures r.Err? ==> r.error == PageOutOfRange(pageCount)
    ensures r.Ok? ==> IsNormal(r.value)
    ensures r.Ok? ==> r.value.x0 == Min(p1.x, p2.x) && r.value.x1 == Max(p1.x, p2.x)
    ensures r.Ok? ==> r.value.y0 == Min(p1.y, p2.y) && r.value.y1 == Max(p1.y, p2.y)
  {
    if !pageExists(pageNumber) then Err(PageOutOfRange(pageCount))
    else Ok(RectFromPoints(p1, p2))
  }

  /** The annotated rectangle does not depend on the order of the two
      points. */
  lemma MarkRectangleSymmetric(pageCount: nat, pageExists: int -> bool, pageNumber: int, p1: Point, p2: Point)
    ensures MarkRectangle(pageCount, pageExists, pageNumber, p1, p2) == MarkRectangle(pageCount, pageExists, pageNumber, p2, p1)
  {
    RectFromPointsSymmetric(p1, p2);
  }

  /** Manual/Index.py's main block: the page answer, then the marking. The
      three cases below decide the result completely. */
  function IndexMain(answer: string, pageCount: nat, pageExists: int -> bool, p1: Point, p2: Point): (r: Result<(int, Rect), IndexError>)
    ensures PageNumber(answer).Err? ==> r == Err(NotAnInteger)
    ensures PageNumber(answer).Ok? && !pageExists(PageNumber(answer).value) ==> r == Err(PageOutOfRange(pageCount))
    ensures PageNumber(answer).Ok? && pageExists(PageNumber(answer).value) ==>
              r == Ok((PageNumber(answer).value, RectFromPoints(p1, p2)))
  {
    match PageNumber(answer)
    case Err(e) => Err(e)
    case Ok(n) =>
      match MarkRectangle(pageCount, pageExists, n, p1, p2)
      case Err(e) => Err(e)
      case Ok(rect) => Ok((n, rect))
  }
}
