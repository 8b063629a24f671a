# PDFIT2 geometry and filtering, in Dafny

PDFIT2 is a set of Python scripts around PyMuPDF for working with
engineering drawings. They count labelled elements inside regions of a
page, white out everything outside those regions, outline or mask a
detected region, export a page's de-duplicated text, and strip circles from
SVG files. This project models the logic those scripts compute. It covers
the rectangles they hand to PyMuPDF, the counts they report and the names
they write to. It proves properties of that logic; nothing here opens a
PDF.

The modules follow the scripts' shared helpers:

- `Geometry`: `fitz.Rect` as `Rect(x0, y0, x1, y1)` over reals.
  - A point lies in a rectangle on the half-open box `[x0, x1) × [y0, y1)`.
  - `&` is the componentwise max/min (`Inter`).
  - `intersects` means the intersection has positive area. Under half-open membership that is the same as sharing a point (proved).
  - Also here: centres, corner normalisation, and counting how many rectangles of a list hold a point.
- `Subtraction`: `subtract_rect` and `subtract_rects`. They are identical in CoverAndCount/Counting.py, Sprint4-1/CountingPRO.py and Sprint4-1/newPredict.py.
- `Proximity`: `center`, `is_close` (loop form and `any` form) and the greedy per-label filter.
  - `hypot(dx, dy) < t` is stated as `dx² + dy² < t²` with `t > 0`. `HypotAgreement` proves the two agree.
- `Counting`: the per-label dedup loops over words and regions, with the `continue`/`break` of Counting.py, and `label_counts`.
- `CountOne`: the per-page "bp1" counting of ManualCover/CountOneElement.py.
- `Scale`: the image-to-page scale, pixel→point conversion, ROI normalisation and the four masks.
- `CoordLine`: `parse_coord_line`. This includes the exact token scanner for `[-+]?\d*\.\d+(?:[eE][-+]?\d+)?` and the y/x swap. It also covers the detector swap of newPredict.py.
- `Text`: Python's `strip`/`rstrip` (the full `str.isspace` set), `splitlines` (its full set of line boundaries), `"\n".join`, ASCII `lower`, `str(n)`, zero padding and `int()`.
- `Paths`: pathlib's `name`, `suffix`, `stem` and `with_stem`, including the `ValueError` cases.
- `CircleFilter`: `traverse` of Sprint4-1/circle.py over an abstract element tree, and its `cli` destination rule.
- `TextLayer`: `_save_text` of Sprint4-1/layerexport.py, and the output-directory default.
- `Pipelines`: the scripts' flows, from their inputs to the rectangles, counts and file targets they produce.

Conventions:

- Division by zero, and other exceptions the scripts do not catch, become `Err` values of a `Result`.
- Several values are parameters:
  - Python's `round(x, 1)`;
  - `float()` of a matched token;
  - PyMuPDF's rule for which page indices exist.

## Model

| member | source | states |
|---|---|---|
| Geometry.Inter | CoverAndCount/Counting.py:49 | a point lies in `base & sub` exactly when it lies in both |
| Geometry.IntersectsIffCommonPoint | CoverAndCount/Counting.py:47 | two rectangles intersect (positive-area overlap) exactly when some point lies in both |
| Geometry.IntersectsSymmetric | CoverAndCount/Counting.py:47 | `intersects` does not depend on argument order |
| Geometry.Center | CoverAndCount/Counting.py:16-19 | the centre is equidistant from the two x edges and from the two y edges, i.e. the midpoint |
| Geometry.CenterInside | CoverAndCount/Counting.py:33-38 | a box with positive area contains its own centre |
| Geometry.RectFromPoints | CoverAndCount/Counting.py:98-103 | the selection rectangle is normalised and its x edges are the two x values, its y edges the two y values |
| Geometry.RectFromPointsSymmetric | Manual/Index.py:15-20 | swapping the two points gives the same rectangle |
| Geometry.Normalize | Sprint4-1/CountingPRO.py:89-90 | the min/max rectangle is normalised, keeps the same pairs of edges, and leaves a normalised rectangle unchanged |
| Geometry.NormalizeIdempotent | Sprint4-1/CountingPRO.py:89-90 | normalising twice is normalising once |
| Geometry.CountConcat | CoverAndCount/Counting.py:72 | how many rectangles of a concatenation hold a point is the sum over the two parts |
| Subtraction.SubtractRect | CoverAndCount/Counting.py:40-62 | at most 4 pieces; exactly `[base]` when base and sub do not intersect; every piece lies inside base and does not intersect sub; when they do intersect, no piece is empty |
| Subtraction.SubtractRectPartition | CoverAndCount/Counting.py:40-62 | every point of base outside sub lies in exactly one piece, and no other point lies in any piece |
| Subtraction.SubtractRectArea | CoverAndCount/Counting.py:49-61 | the pieces' areas plus the area of `base & sub` add up to the area of base |
| Subtraction.SubtractSelf | CoverAndCount/Counting.py:51-61 | subtracting a non-empty rectangle from itself leaves nothing |
| Subtraction.SubtractEach | CoverAndCount/Counting.py:70-72 | one pass over the covers yields at most 4 pieces per cover, each inside some cover and disjoint from sub |
| Subtraction.SubtractEachCount | CoverAndCount/Counting.py:70-73 | after one pass, a point inside sub is covered nowhere and any other point is covered as often as before |
| Subtraction.SubtractRects | CoverAndCount/Counting.py:64-74 | every cover lies inside the full rectangle and intersects none of the subtracted rectangles |
| Subtraction.SubtractRectsPartition | CoverAndCount/Counting.py:64-74 | a point of the full rectangle that lies in no sub is covered exactly once; every other point is not covered |
| Subtraction.SubtractRectsCovers | Sprint4-1/newPredict.py:44-50 | a point lies in some cover exactly when it lies in the full rectangle and in no sub |
| Subtraction.SubtractRectsDisjoint | CoverAndCount/Counting.py:64-74 | no two covers intersect |
| Subtraction.SubtractNothing | CoverAndCount/Counting.py:68 | subtracting nothing returns `[full]` |
| Subtraction.SubtractOneRegion | Sprint4-1/CountingPRO.py:137 | subtracting one region from the page gives at most 4 covers, none intersecting the region |
| Subtraction.ExamplePageMinusRegion | Sprint4-1/newPredict.py:112 | a 600×800 page minus a 200×200 region leaves covers of total area 440000 |
| Proximity.HypotAgreement | CoverAndCount/Counting.py:29 | for the non-negative root `h` of the squared distance, `h < t` holds exactly when the squared-distance test holds |
| Proximity.NearSymmetric | CoverAndCount/Counting.py:26-30 | closeness of two boxes does not depend on their order |
| Proximity.IsCloseAgreesWithAny | Sprint4-1/newPredict.py:31-33 | the early-return loop and the `any(...)` form give the same answer for all inputs |
| Proximity.NothingIsCloseToNothing | CoverAndCount/Counting.py:21-31 | no box is close to an empty list |
| Proximity.CloseToItself | CoverAndCount/Counting.py:21-31 | every box is close to a list holding itself, for every positive threshold |
| Proximity.ClosenessIsStrict | CoverAndCount/Counting.py:29 | centres exactly the threshold apart are not close; strictly nearer ones are |
| Proximity.KeepPreservesSeparated | CoverAndCount/Counting.py:162-163 | appending a box only when it is not close keeps the kept boxes pairwise not close |
| Proximity.GreedyDedup | ManualCover/CountOneElement.py:43-59 | the kept boxes are at most as many as the input, each taken from it, and the first input box is always kept |
| Proximity.GreedyDedupSeparatedCovered | ManualCover/CountOneElement.py:56-58 | no two kept boxes are close, and every input box is kept or close to a kept box |
| Proximity.KeepCovers | ManualCover/CountOneElement.py:56-58 | one step of the filter keeps every box seen so far kept or covered |
| Proximity.GreedyDedupSnoc | ManualCover/CountOneElement.py:47-59 | the filter over a list with one more box is one more step of the loop |
| Proximity.ExampleThreeCentres | CoverAndCount/Counting.py:13 | with threshold 5, centres (10,10), (12,11) and (50,50) keep two boxes |
| Counting.ScanRegionsRecordsOnce | CoverAndCount/Counting.py:153-165 | the region loop for one word records it once, under its stripped label, when its centre is in some region and the label is not blank, and otherwise changes nothing |
| Counting.CountWordsPerLabel | CoverAndCount/Counting.py:151-165 | each label present maps to the greedy filter of that label's boxes in word order, and a label is present exactly when it has a box |
| Counting.Counts | CoverAndCount/Counting.py:167 | the counts have exactly the labels of the occurrences (the value of each count is stated by CountWordsProperties) |
| Counting.CountWordsProperties | CoverAndCount/Counting.py:151-167 | the blank label is never a key; every count is at least 1 and at most the label's matching words; each count is the number of boxes the greedy filter keeps from the label's matching words; the kept boxes of a label are pairwise not close |
| Counting.EmptyLabelHasNoBoxes | CoverAndCount/Counting.py:156-158 | words whose stripped text is empty contribute no box |
| Counting.CountWordsCoversEveryWord | CoverAndCount/Counting.py:153-165 | every considered word's label is a key, and its box is kept or close to a kept box of that label |
| Counting.LabelBoxesHasWord | CoverAndCount/Counting.py:153-161 | a considered word's box is among its label's candidate boxes |
| Counting.CountInRegionIsOneRegion | Sprint4-1/CountingPRO.py:97-107 | the single-region loop computes what the multi-region loop computes for that one region |
| Counting.RegionStepIsScan | Sprint4-1/newPredict.py:79-87 | one word of the single-region loop is one word of the multi-region loop |
| CountOne.TargetSpellings | ManualCover/CountOneElement.py:49-51 | a word is a target exactly when its lower-cased text is "bp1", i.e. one of its four spellings; a word without a text field never is |
| CountOne.CountPage | ManualCover/CountOneElement.py:43-59 | the page's kept boxes are the greedy filter of its matching boxes; the count equals their number, is at most the number of matches, and the kept boxes are pairwise not close |
| CountOne.TargetStep | ManualCover/CountOneElement.py:47-59 | one word of the loop keeps the filter state unless it matches, and then takes one filter step |
| CountOne.PageCounts | ManualCover/CountOneElement.py:34-61 | one count per page |
| CountOne.PageCountsApart | ManualCover/CountOneElement.py:43 | each page's count is the filter over that page's matches alone, so de-duplication never spans pages |
| CountOne.CountDocument | ManualCover/CountOneElement.py:26-61 | the per-page counts are those of each page alone, and the total is their sum |
| Scale.ComputeZoom | Sprint4-1/CountingPRO.py:79-83 | a zero page side is an error; otherwise the scale is the midpoint of the two axis ratios, equals them when they agree, and the warning is raised exactly when they differ by more than 0.001 |
| Scale.ToPoints | CoverAndCount/Counting.py:137-143 | every coordinate in points times the scale gives back its pixel coordinate |
| Scale.ToPixels | CoverAndCount/Counting.py:189-193 | for a non-zero scale, multiplying by the scale is the unique inverse of dividing by it |
| Scale.RegionFromPixels | Sprint4-1/CountingPRO.py:86-90 | the region is normalised, and its edges are the pixel coordinates divided by the scale |
| Scale.RegionCornerSwap | Sprint4-1/newPredict.py:67-71 | swapping the corners, or the two y values, gives the same region |
| Scale.RegionMatchesPixels | Sprint4-1/newPredict.py:67-71 | for a positive scale, dividing then ordering equals ordering then dividing, and a point is in the region exactly when its scaled image is in the ordered pixel box |
| Scale.Masks | Sprint4-1/areaHighlight.py:56-59 | there are always four masks, and their inner edges are the region's top, bottom, left and right edges |
| Scale.MasksCoverPage | Sprint4-1/areaHighlight.py:56-59 | no mask intersects a normalised region, and every point of the page is in exactly one of the masks and the region |
| Scale.MasksPartitionPage | Sprint4-1/areaHighlight.py:56-59 | for a region on the page, the masks and the region cover the page exactly once and nothing outside it |
| Scale.MasksAreSubtraction | Sprint4-1/areaHighlight.py:56-59 | for a region strictly inside the page, the four masks are exactly the pieces of subtracting the region from the page |
| CoordLine.MatchIsLiteral | Sprint4-1/CountingPRO.py:17 | every match is an optional sign, digits, a point, at least one digit, and an optional exponent |
| CoordLine.TokensAreLiterals | Sprint4-1/CountingPRO.py:17 | every token found is such a literal and contains a point |
| CoordLine.NoPointNoTokens | Sprint4-1/CountingPRO.py:17 | text without a point yields no tokens |
| CoordLine.LiteralFoundWhole | Sprint4-1/CountingPRO.py:17 | each such literal on its own is found as exactly one token, itself |
| CoordLine.SwapRoundTrip | Sprint4-1/CountingPRO.py:20-21 | the (y1,x1,y2,x2)→(x1,y1,x2,y2) reordering and its reverse undo each other |
| CoordLine.ParseCoordLine | Sprint4-1/CountingPRO.py:15-21 | the one fixed error exactly when the pattern does not match four times; otherwise the box read back in y/x order is the four values in order |
| CoordLine.IntegerLineRefused | Sprint4-1/CountingPRO.py:17-19 | a line of integers such as "100 200 300 400" is refused, and no number is found in it |
| CoordLine.DetectionToPixels | Sprint4-1/newPredict.py:146-148 | a missing detection or one not of length 4 is refused; otherwise the box read back in y/x order is the detection |
| Text.RStrip | Sprint4-1/layerexport.py:93 | the result is a prefix, everything cut is whitespace, and it does not end in whitespace |
| Text.LStrip | CoverAndCount/Counting.py:156 | the result is a suffix, everything cut is whitespace, and it does not start with whitespace |
| Text.StripEmptyIffBlank | Sprint4-1/layerexport.py:90-91 | `strip()` gives "" exactly when the text is all whitespace |
| Text.StripIdempotent | Sprint4-1/CountingPRO.py:101 | stripping a stripped label changes nothing |
| Text.SplitLines | Sprint4-1/layerexport.py:92 | no piece contains a line boundary |
| Text.SplitLinesOfJoin | Sprint4-1/layerexport.py:105 | joining break-free lines with "\n", the last non-empty, and splitting again gives the lines back |
| Text.LowerAscii | ManualCover/CountOneElement.py:51 | lower-casing keeps the length and lowers each character |
| Text.Decimal | Sprint4-1/layerexport.py:106 | `str(n)` is a non-empty digit string with value n and no leading zero |
| Text.ZeroPad | Sprint4-1/layerexport.py:106 | padding gives at least the width, ends with the digits, and is zeros before them |
| Text.ZeroPadValue | Sprint4-1/layerexport.py:106 | padding with zeros keeps the decimal value |
| Text.ParseIntRoundTrip | Manual/Index.py:35 | `int(str(n))` is n, and with a leading minus it is −n |
| Paths.Suffix | Sprint4-1/circle.py:88 | a suffix is empty or a dot followed by at least one character and no other dot |
| Paths.Stem | Sprint4-1/circle.py:101 | the stem followed by the suffix is the name, and a non-empty name has a non-empty stem |
| Paths.WithStem | Sprint4-1/circle.py:101 | refused exactly for an empty name or a resulting name that is "" or "."; otherwise the new stem plus the old suffix in the same directory |
| Paths.Tagged | areaHighlight.py:26 | appending a tag to the stem succeeds exactly when the name is non-empty, and is not "." when the tag is empty |
| Paths.TaggedKeepsSuffix | Sprint4-1/areaHighlight.py:30 | for a name with a suffix, the tagged name keeps directory and suffix, and its stem is the old stem plus the tag |
| Paths.TaggedWithoutDot | areaHighlight.py:26 | a name without a dot gets the tag at its end |
| Paths.MarkedOutput | areaHighlight.py:26 | a non-empty given path wins; otherwise the PDF name tagged "_marked", refused only for an empty name |
| CircleFilter.Clean | Sprint4-1/circle.py:59-65 | the element keeps its tag and content, and loses at most some children |
| CircleFilter.CleanChildren | Sprint4-1/circle.py:60-64 | at most as many children remain, and none of them is a circle |
| CircleFilter.NoCircleBelow | Sprint4-1/circle.py:57-65 | after cleaning, no element strictly below the root is a circle, and the root keeps its tag |
| CircleFilter.NonCircles | Sprint4-1/circle.py:60-62 | the kept children are exactly the non-circle ones |
| CircleFilter.CleanKeepsOrder | Sprint4-1/circle.py:60-64 | the cleaned children are the non-circle children, in their order, each cleaned |
| CircleFilter.CleanCircleFree | Sprint4-1/circle.py:59-64 | a tree with no circle below its root is left unchanged |
| CircleFilter.CleanIdempotent | Sprint4-1/circle.py:59-65 | cleaning twice gives the same tree as cleaning once |
| CircleFilter.PlainCircleSurvives | Sprint4-1/circle.py:58-61 | an un-namespaced `circle` child is kept, cleaned |
| CircleFilter.SvgSuffixSpellings | Sprint4-1/circle.py:88 | the lowered suffix is ".svg" exactly for the capitalisations of ".svg" |
| CircleFilter.CirclePlan | Sprint4-1/circle.py:88-101 | the warning exactly for a non-".svg" suffix, without changing the destination; `--print` wins; then `--inplace`; then a non-empty `-o`; otherwise the stem plus "_nocircle"; no destination only when the name is empty |
| CircleFilter.ExampleDefaultName | Sprint4-1/circle.py:13-14 | "drawing.svg" gets no warning and goes to "drawing_nocircle.svg" |
| TextLayer.KeptLines | Sprint4-1/layerexport.py:92-101 | at most one line per piece; every line is non-empty, break-free, right-stripped and at the block's origin |
| TextLayer.BlockLines | Sprint4-1/layerexport.py:88-95 | a whitespace-only block gives no lines; all lines are good and at the block's origin |
| TextLayer.Candidates | Sprint4-1/layerexport.py:88-101 | every candidate line is non-empty, break-free and right-stripped |
| TextLayer.FirstByKey | Sprint4-1/layerexport.py:97-101 | at most as many lines are kept as candidates, each a candidate |
| TextLayer.DedupLines | Sprint4-1/layerexport.py:85-101 | the loop with its `seen` set keeps exactly what the filter describes |
| TextLayer.FirstByKeyKeys | Sprint4-1/layerexport.py:97-101 | the kept lines have exactly the keys of the candidates |
| TextLayer.FirstByKeyIsFirstOccurrences | Sprint4-1/layerexport.py:97-101 | the kept lines are exactly the candidates that are first with their key, in order |
| TextLayer.FirstByKeyDistinct | Sprint4-1/layerexport.py:89-101 | no two kept lines share a key, so identical lines at one origin collapse to one |
| TextLayer.Insert | Sprint4-1/layerexport.py:104 | insertion adds exactly one copy of the line |
| TextLayer.SortLines | Sprint4-1/layerexport.py:104 | the sort is a permutation |
| TextLayer.SortLinesSorted | Sprint4-1/layerexport.py:104 | the output is ordered by y, then x |
| TextLayer.SortLinesStable | Sprint4-1/layerexport.py:104 | lines at the same origin keep their discovery order |
| TextLayer.PageTextSplits | Sprint4-1/layerexport.py:105 | the written text splits back into the kept lines' texts |
| TextLayer.PageTextName | Sprint4-1/layerexport.py:106 | the name is "page", digits, ".txt", 12 characters for indices below 10000 |
| TextLayer.PageTextNameRoundTrip | Sprint4-1/layerexport.py:106 | the index reads back from the name, so distinct pages get distinct files |
| TextLayer.OutputDir | Sprint4-1/layerexport.py:161-165 | a given `-o` is used as is; a blank answer gives "export_layers"; otherwise the stripped answer |
| TextLayer.SaveText | Sprint4-1/layerexport.py:78-106 | the lines are the sorted first occurrences, ordered, all good; the text is those lines joined with "\n" and splits back into them; the name is the page's |
| Pipelines.SelectionRegion | CoverAndCount/Counting.py:137-143 | the region is normalised, and a point is in it exactly when the point scaled by 2 is in the dragged rectangle |
| Pipelines.CoverAndCount | CoverAndCount/Counting.py:130-205 | nothing when no region was drawn; otherwise one normalised region per selection, the occurrences of the per-label loop over the words and those regions, each count the number of boxes the greedy filter keeps for its label, and covers inside the page overlapping no region |
| Pipelines.CoverAndCountProperties | CoverAndCount/Counting.py:151-205 | the occurrences are the per-label loop over the words and regions, no blank label, every count at least 1 and equal to the number of the label's kept boxes, kept boxes pairwise not close, and the covers hold exactly the page points outside every region, each once |
| Pipelines.PostProcess | Sprint4-1/newPredict.py:60-117 | an error exactly for a zero page side or a zero scale; otherwise the computed scale, the detected box divided by it and put in min/max order as the region, counts for exactly the labels found, and at most 4 covers holding exactly the page points outside the region, each once |
| Pipelines.PostProcessCounts | Sprint4-1/CountingPRO.py:95-108 | the one-region counts equal the multi-region counts for that region: no blank label, counts between 1 and the label's matches, each count the number of boxes the greedy filter keeps from the label's matches, kept boxes pairwise not close |
| Pipelines.CountingPro | Sprint4-1/CountingPRO.py:64-90 | a line without exactly four numbers stops the run with the fixed error; after a good line, a missing PDF or image ends the run; with a good line and both files present the run succeeds exactly when post-processing the parsed box does, and its result is that post-processing |
| Pipelines.NewPredict | Sprint4-1/newPredict.py:135-159 | a missing PDF stops the run first; a missing or wrong-sized detection stops with "No detection."; otherwise the run succeeds exactly when post-processing the swapped box does, and its result is that post-processing |
| Pipelines.MarkRegionMasked | Sprint4-1/areaHighlight.py:28-59 | succeeds exactly when the output name can be derived and the scale is computed and non-zero; then the output target, that scale, the region from the pixels, and the four masks around it, none overlapping it |
| Pipelines.MarkRegionMaskedFills | Sprint4-1/areaHighlight.py:17-18 | a page point is masked exactly when it is outside the region; for a region on the page nothing outside the page is masked |
| Pipelines.MarkRegion | areaHighlight.py:24-54 | succeeds exactly when the output name can be derived and the scale is computed and non-zero; then the output target, that scale, and a normalised rectangle whose edges are the pixel coordinates divided by it |
| Pipelines.PageNumber | Manual/Index.py:34-35 | a blank answer is page 0; otherwise an integer answer minus 1, and a non-integer is an error |
| Pipelines.PageNumberFromOne | Manual/Index.py:34-35 | typing n selects index n−1, and typing "1" is the same as typing nothing |
| Pipelines.MarkRectangle | Manual/Index.py:7-20 | a missing page is an error carrying the page count; otherwise the min/max rectangle of the two points |
| Pipelines.MarkRectangleSymmetric | Manual/Index.py:15-20 | the result does not depend on the order of the two points |
| Pipelines.IndexMain | Manual/Index.py:33-48 | a non-integer page stops the run; a missing page stops it with the page count; it succeeds exactly when the page parses and exists, with the page index and the min/max rectangle of the two points |

## Left out

- Opening, rendering and saving PDFs, redaction annotations, `draw_rect`, `add_rect_annot`: these are PyMuPDF calls. The model yields only the rectangles handed to them.
- The matplotlib selection window and its callbacks. Selections are a plain input list, and the `minspanx`/`minspany` limits of `RectangleSelector` are not modelled.
- The YOLO detector, PIL drawing, colours and fonts, and the pandas Excel output.
- Counting.Counts: Python dicts keep insertion order, and the Dafny `map` does not. That order only sets the preview colours (`enumerate(dedup.items())`) and the Excel row order, which are left out above.
- Pipelines.CountingPro, Pipelines.NewPredict: whether the input files exist is a boolean parameter each (`filesExist`, `pdfExists`), standing for the `exists()` calls.
- The preview, marked-PDF and Excel names of Sprint4-1/CountingPRO.py and Sprint4-1/newPredict.py (`with_suffix`, `out_dir / ...`), and the output names of CoverAndCount/Counting.py and Manual/Index.py. These are fixed strings or pathlib joins and are not modelled.
- Sprint4-1/CountingPRO.py lines 155-310 are a merge-conflict copy of lines 1-154 and are not modelled separately.
- BeautifulSoup cleaning in Sprint4-1/circle.py and Sprint4-1/layerexport.py, and ElementTree parsing and serialisation. The tree filter works on an abstract `Element` datatype whose attributes, text and tail are one opaque value.
- `_save_images`, `_save_vectors`, `export_layers` and the PDF-path handling of Sprint4-1/layerexport.py. Also `expanduser`, `resolve` and file-existence checks, and the `clean_svg` reading of bytes. These are library calls.
- Floating point: divisions, `hypot` and the mean are exact real arithmetic. Python's `round(x, 1)` and `float()` of a matched token are parameters.
- The de-duplication key rounds through the parameter `round`, so two origins that round together are identified only as far as that function says.
- `int()` is modelled for an optional sign and ASCII digits. Underscores, surrounding whitespace inside the stripped text and non-ASCII digits are not modelled.
- `str.lower()` is modelled on ASCII only. That is exact for the comparisons with "bp1" and ".svg", since no non-ASCII character lowers to one of their letters.
- The regex `\d` is modelled as ASCII digits. Python's `\d` also matches other Unicode decimal digits.
- Pipelines.MarkRectangle: which page indices exist, including how PyMuPDF resolves a negative index, is a parameter `pageExists`. That rule is not visible in the scripts.
- Parsing the two points of Manual/Index.py (`map(float, split(","))`) is left out. The points are inputs.
- Pathlib is modelled as in Python 3.12 and earlier. Python 3.13 also refuses `with_stem("")` on a name with a suffix; the scripts never pass an empty stem.
- Path names are a directory plus a final component. Path separators inside a name, and `Path("")`, are not modelled.
- ManualCover/CountOneElement.py draws and saves one image per page. Only the counts are modelled.
