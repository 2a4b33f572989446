# Depth-annotated object detection: the fusion step

This project models `process` from the object-distance application. The
detector and the depth network have already produced their outputs: a table
of detections (class name, confidence, float box corners) and a 2-D depth
map. From these, `process` builds the list of annotated objects the window
shows:

1. It counts the detections per class and ranks the classes by descending
   count. Ties keep the order in which the classes were first seen.
2. It gives the ranked classes the palette's colours, in order, and stops
   when either runs out.
3. For every detection in input order, it rounds the box to pixels, trims
   30% of the box's width and height from every side, and takes the mean
   depth over what remains.
4. It asks the window's filter (`check_func`) whether that depth is
   accepted.
5. Each accepted detection gets the label `name k`, where `k` is a per-class
   counter. The counter starts at the class count and goes down by one per
   accepted detection.
6. Finally it sorts the records by label as strings.

The filter and the threshold dialog's parse fallback are modelled too.

Modules:

- `Rounding`: Python's `round` on a real number, which rounds to the
  nearest integer with ties to even.
- `DepthRegion`: the depth map, numpy slice bounds, the 30% trim, and the
  mean over the trimmed region.
- `DepthFilter`: `check_func`, and the threshold set from dialog text.
- `ClassCounts`: `Counter`, with its first-seen key order.
- `ColorRanking`: the stable descending-count sort, and
  `dict(zip(names, palette))`.
- `Ordinals`: the per-class countdown labels, as a declarative definition.
- `Text`: `str` of a natural number, the label `name + " " + str(k)`, and
  Python's string order.
- `NameSort`: the stable sort of records by label.
- `Fusion`: the pipeline. It has a declarative definition (`Emitted`,
  `Assemble`, `Fuse`) and the loop as written, with a mutable counter map
  (`Annotate`, `Process`). The loop is proved equal to the definition.

Inputs and partial results:

- The detector output is a sequence of `Detection`.
- The depth map is a `DepthMap`, a rectangular array of reals.
- The palette is a parameter.
- The filter is a parameter of type `Option<real> -> bool`. `Checker` builds
  the window's `check_func` from a threshold and the "over" flag.
- The mean of an empty region (numpy's NaN) is `None`.
- A passing detection whose class got no colour raises `KeyError` in the
  source. Here it is the `Failure(MissingColor(name))` result.

## Model

| member | source | states |
|---|---|---|
| Rounding.RoundHalfEven | Application/Project/model_utils.py:34-37 | the result is within one half of the argument, and even when the argument lies exactly halfway (Python's `round`) |
| Rounding.RoundHalfEvenUnique | Application/Project/model_utils.py:34-37 | any integer within one half of x, even at a tie, is `round(x)`: the characterisation determines the function |
| Rounding.RoundMonotone | Application/Project/model_utils.py:34-37 | rounding preserves `<=` |
| Rounding.RoundOfInteger | Application/Project/model_utils.py:34-37 | rounding an integer returns it unchanged |
| DepthRegion.SliceBound | Application/Project/model_utils.py:43 | a slice bound lands in `[0, len]`; an in-range bound is kept; a negative bound counts from the end; a bound above `len` clamps to `len` and one below `-len` clamps to 0 |
| DepthRegion.TrimLow | Application/Project/model_utils.py:43 | no contract of its own; the start of the trimmed range, `round(lo + 0.3·extent)`, characterised by `TrimmedInside` and `TrimmedEmptyIff` |
| DepthRegion.TrimHigh | Application/Project/model_utils.py:43 | no contract of its own; the end of the trimmed range, `round(hi - 0.3·extent)`, characterised by `TrimmedInside` and `TrimmedEmptyIff` |
| DepthRegion.TrimmedInside | Application/Project/model_utils.py:38-43 | for an ordered box side, the trimmed range `round(lo + 0.3e) .. round(hi - 0.3e)` is ordered and lies inside `[lo, hi]` |
| DepthRegion.TrimmedEmptyIff | Application/Project/model_utils.py:38-43 | the trimmed range is empty exactly when the extent is 0 or 2 pixels |
| DepthRegion.Cells | Application/Project/model_utils.py:43 | the sliced region is empty exactly when a row or column range is empty |
| DepthRegion.CellsLength | Application/Project/model_utils.py:43 | the sliced region has rows × columns entries, or none when a range is empty |
| DepthRegion.CellsPrefix | Application/Project/model_utils.py:43 | the slice of the first rows is a prefix of the slice of more rows |
| DepthRegion.CellAt | Application/Project/model_utils.py:43 | cell `(y, x)` of the ranges sits after all the rows above it, at column offset `x - c0` |
| DepthRegion.CellAtOffset | Application/Project/model_utils.py:43 | cell `(y, x)` is the entry at row-major offset `(y - r0)·(c1 - c0) + (x - c0)`; with `CellsLength` this fixes every entry, so each cell is averaged exactly once |
| DepthRegion.CellsSpec | Application/Project/model_utils.py:43 | every entry of the sliced region is the value of a cell inside the ranges, and every such cell's value is among the entries |
| DepthRegion.Mean | Application/Project/model_utils.py:43 | the mean is undefined (NaN) exactly for an empty region; otherwise mean × size = sum |
| DepthRegion.SumBounds | Application/Project/model_utils.py:43 | values bounded by `[lo, hi]` have a sum between `n·lo` and `n·hi` |
| DepthRegion.MeanWithin | Application/Project/model_utils.py:43 | the mean of values in `[lo, hi]` lies in `[lo, hi]` |
| DepthRegion.MeanBetweenValues | Application/Project/model_utils.py:43 | a defined mean lies between the smallest and the largest value averaged |
| DepthRegion.RegionDepth | Application/Project/model_utils.py:43 | no contract of its own; `d = np.mean(depths[...])`, the mean over the trimmed box, characterised by `RegionDepthWithinBox` and `RegionDepthDefinedIff` |
| DepthRegion.RegionDepthWithinBox | Application/Project/model_utils.py:34-43 | if every depth inside the box lies in `[lo, hi]`, the region depth does too |
| DepthRegion.RegionDepthDefinedIff | Application/Project/model_utils.py:34-43 | for a box inside the map, the depth is defined exactly when neither its width nor its height is 0 or 2 pixels |
| DepthFilter.CheckDepth | Application/Project/Graphic.py:223-229 | threshold 0 accepts everything, including an undefined depth; otherwise an undefined depth is rejected, and so is a depth equal to the threshold |
| DepthFilter.ThresholdDirection | Application/Project/Graphic.py:226-229 | with a nonzero threshold, "over" accepts exactly the depths above it, and "under" exactly those below it |
| DepthFilter.OverMonotone | Application/Project/Graphic.py:226-227 | in "over" mode, a depth deeper than an accepted one is accepted |
| DepthFilter.UnderMonotone | Application/Project/Graphic.py:228-229 | in "under" mode, a depth shallower than an accepted one is accepted |
| DepthFilter.SetThreshold | Application/Project/Graphic.py:193-199 | a cancelled dialog keeps the threshold; parsed text becomes the threshold; unparsable text sets it to 0 |
| DepthFilter.ParseFailureDisablesFilter | Application/Project/Graphic.py:196-199 | after unparsable threshold text, the filter accepts every depth |
| ClassCounts.Count | Application/Project/model_utils.py:24 | a count is at most the length, and positive exactly for names that occur |
| ClassCounts.CountPrefixStep | Application/Project/model_utils.py:24 | extending a prefix by one name adds one to that name's count and nothing to the others |
| ClassCounts.CountPrefixBounded | Application/Project/model_utils.py:24 | a prefix never counts more occurrences than the whole |
| ClassCounts.Counts | Application/Project/model_utils.py:24 | the counter's keys are exactly the names that occur, each mapped to its number of occurrences |
| ClassCounts.FirstIndex | Application/Project/model_utils.py:24-25 | the index of a name's first occurrence |
| ClassCounts.FirstSeen | Application/Project/model_utils.py:24-25 | the counter's key order holds each occurring name exactly once |
| ClassCounts.FirstIndexAppend | Application/Project/model_utils.py:24-25 | appending a name leaves first occurrences unchanged, and a new name's first occurrence is the end |
| ClassCounts.FirstSeenOrder | Application/Project/model_utils.py:24-25 | the counter's keys are in order of first occurrence |
| ColorRanking.InsertByCount | Application/Project/model_utils.py:25 | insertion into the ranked list is a permutation of the list plus the new key |
| ColorRanking.SortByCountDesc | Application/Project/model_utils.py:25 | the ranking sort is a permutation of the keys |
| ColorRanking.InsertKeepsRanked | Application/Project/model_utils.py:25 | inserting a key seen later than all keys in the list keeps it ranked: higher count first, ties by first occurrence |
| ColorRanking.HeadRanksFirst | Application/Project/model_utils.py:25 | when the insertion passes the head, the head still ranks before every element of the new tail |
| ColorRanking.SortRanked | Application/Project/model_utils.py:25 | sorting keys given in first-occurrence order yields a ranked list, so the sort is stable |
| ColorRanking.Rank | Application/Project/model_utils.py:25 | no contract of its own; `names`, the classes sorted by descending count, characterised by `RankSpec` |
| ColorRanking.RankSpec | Application/Project/model_utils.py:24-25 | `names` holds each class once, in descending count, with ties in first-seen order |
| ColorRanking.DictZip | Application/Project/model_utils.py:26 | `dict(zip(ks, vs))` has the first `min(len)` keys, and with distinct keys maps the i-th key to the i-th value |
| ColorRanking.ColorMap | Application/Project/model_utils.py:26 | no contract of its own; `colors`, the palette zipped onto the ranked classes, characterised by `ColorMapSpec`, `ColorsDistinct`, `PaletteExhausted` and `PaletteSuffices` |
| ColorRanking.ColorMapSpec | Application/Project/model_utils.py:24-26 | the i-th ranked class gets the i-th colour; only the first `min(#classes, #colours)` ranked classes get one |
| ColorRanking.ColorsDistinct | Application/Project/model_utils.py:26 | with a palette of distinct colours, different classes get different colours |
| ColorRanking.PaletteExhausted | Application/Project/model_utils.py:26 | with more classes than colours, some class that occurs has no colour |
| ColorRanking.PaletteSuffices | Application/Project/model_utils.py:26 | with enough colours, every class that occurs has a colour |
| Ordinals.PassedBefore | Application/Project/model_utils.py:44-55 | the accepted detections of a class before position i number at most its occurrences there |
| Ordinals.OrdinalAt | Application/Project/model_utils.py:49-55 | the counter read at detection i lies between 1 and the class count |
| Ordinals.PassedBeforeMonotone | Application/Project/model_utils.py:55 | the number of decrements never decreases along the input |
| Ordinals.OrdinalsDecrease | Application/Project/model_utils.py:54-55 | a later detection of the same class is labelled with a smaller number than an accepted earlier one |
| Ordinals.OrdinalsDistinct | Application/Project/model_utils.py:54-55 | two accepted detections of one class get different numbers |
| Ordinals.FilteredKeepsOrdinal | Application/Project/model_utils.py:44-55 | rejected detections do not move the counter |
| Ordinals.SameClassBefore | Application/Project/model_utils.py:55 | detections of other classes, or rejected ones, do not change a class's decrement count |
| Ordinals.AllPassedBefore | Application/Project/model_utils.py:55 | when every detection of class n passes, whatever happens to other classes, n's decrements equal its occurrences so far |
| Ordinals.PrefixCountsReached | Application/Project/model_utils.py:55 | every count below a prefix's occurrences is reached at some occurrence of the class |
| Ordinals.AllPassOrdinalsExact | Application/Project/model_utils.py:49-55 | when every detection of class n passes, whatever happens to other classes, the numbers of n's c detections are exactly 1 .. c |
| Text.NatToString | Application/Project/model_utils.py:54 | `str(k)` is a non-empty digit string without a leading zero, and its decimal value is k |
| Text.DisplayName | Application/Project/model_utils.py:54 | no contract of its own; the label `n + ' ' + str(counts[n])`, characterised by `DisplayNameRoundTrip` and `DisplayNameInjective` |
| Text.DisplayNameRoundTrip | Application/Project/model_utils.py:54 | the label `n + ' ' + str(k)` splits back into n and k at its last space |
| Text.DisplayNameInjective | Application/Project/model_utils.py:54 | equal labels have equal class names and equal numbers |
| Text.LexIrreflexive | Application/Project/model_utils.py:57 | Python's string `<` is irreflexive |
| Text.LexTransitive | Application/Project/model_utils.py:57 | Python's string `<` is transitive |
| Text.LexTrichotomy | Application/Project/model_utils.py:57 | of two different strings exactly one is smaller |
| Text.TenthBeforeSecond | Application/Project/model_utils.py:54-57 | "cat 10" sorts before "cat 2": labels sort as strings, not by number |
| NameSort.InsertBy | Application/Project/model_utils.py:57 | inserting into the sorted list is a permutation of the list plus the new element |
| NameSort.SortBy | Application/Project/model_utils.py:57 | `sorted(objects, key=name)` is a permutation of its input |
| NameSort.InsertSorted | Application/Project/model_utils.py:57 | insertion keeps a list sorted by key |
| NameSort.SortBySorted | Application/Project/model_utils.py:57 | the result is sorted by label |
| NameSort.InsertStrict | Application/Project/model_utils.py:57 | inserting an element with a new key keeps a strictly sorted list strictly sorted |
| NameSort.SortByStrict | Application/Project/model_utils.py:57 | elements with distinct keys come out strictly ascending |
| Fusion.BoxOf | Application/Project/model_utils.py:34-37 | no contract of its own; the four rounded corners, characterised by `BoxOfOrdered` |
| Fusion.BoxOfOrdered | Application/Project/model_utils.py:34-37 | rounding corners keeps an ordered box ordered and non-negative corners non-negative |
| Fusion.Emitted | Application/Project/model_utils.py:44-55 | no contract of its own; the loop's outcome after the first i detections, characterised by `EmittedNext`, `EmittedOutcome`, `EmittedLength`, `EmittedSound`, `EmittedComplete` and `EmittedDistinct` |
| Fusion.Assemble | Application/Project/model_utils.py:24-57 | no contract of its own; counting, colouring, the loop and the final sort over precomputed depths, characterised by `AssembleSucceedsIff`, `AssembleFailure` and `AssembleOutput` |
| Fusion.Fuse | Application/Project/model_utils.py:24-57 | no contract of its own; `Assemble` over the trimmed-box depths of the detections, characterised by `FuseRecordDepths`, and equal to `Process` |
| Fusion.Process | Application/Project/model_utils.py:17-59 | `process`, with the detector and depth model already run, returns the declarative result `Fuse` |
| Fusion.Annotate | Application/Project/model_utils.py:31-55 | the loop with a mutable counter per class produces the declarative record list, or the KeyError of the first passing detection that has no colour |
| Fusion.CountersStart | Application/Project/model_utils.py:24 | before the loop each counter holds its class's count |
| Fusion.CountersAdvance | Application/Project/model_utils.py:49-55 | the counter read at detection i is its declared number, and decrementing after an accepted detection keeps the counter invariant |
| Fusion.EmittedNext | Application/Project/model_utils.py:44-55 | one loop step: skip a rejected detection, raise on an accepted one without colour, else append its record |
| Fusion.EmittedFailureSticks | Application/Project/model_utils.py:48 | once the KeyError is raised, later detections do not change the outcome |
| Fusion.LabelsDistinct | Application/Project/model_utils.py:54-55 | two different accepted detections get different labels |
| Fusion.EmittedOutcome | Application/Project/model_utils.py:44-48 | the loop fails exactly when some accepted detection has no colour, and the error names the first such detection's class |
| Fusion.EmittedLength | Application/Project/model_utils.py:44-54 | a successful loop emits one record per accepted detection |
| Fusion.EmittedSound | Application/Project/model_utils.py:44-54 | every emitted record is the record of an accepted detection |
| Fusion.EmittedComplete | Application/Project/model_utils.py:44-54 | every accepted detection has a colour and its record is emitted |
| Fusion.EmittedDistinct | Application/Project/model_utils.py:54-55 | emitted records carry pairwise distinct labels |
| Fusion.AssembleSucceedsIff | Application/Project/model_utils.py:26-48 | the call succeeds exactly when every accepted detection's class received a colour |
| Fusion.AssembleFailure | Application/Project/model_utils.py:44-48 | on failure, the error names the class of the first accepted detection without a colour |
| Fusion.SortedRecords | Application/Project/model_utils.py:54-57 | sorting the emitted records keeps exactly the accepted detections' records and orders them strictly by label |
| Fusion.AssembleOutput | Application/Project/model_utils.py:24-57 | a successful result holds exactly one record per accepted detection, strictly ascending by label |
| Fusion.FuseRecordDepths | Application/Project/model_utils.py:43-54 | each returned record carries the confidence of a detection and the trimmed-box depth of that detection, which the filter accepted |
| Fusion.AllPassCount | Application/Project/model_utils.py:44-45 | when the filter accepts everything, every detection is counted as accepted |
| Fusion.LabelOfRecord | Application/Project/model_utils.py:49-54 | a record labelled `n k` belongs to class n, and k lies between 1 and n's count |
| Fusion.RecordOfLabel | Application/Project/model_utils.py:54-55 | when every detection of class n passes, every `n k` with k from 1 to n's count is some detection's label |
| Fusion.LabelsOfRecords | Application/Project/model_utils.py:54-55 | with nothing filtered, the records' labels are exactly `n 1 .. n c` for each class n with c detections |
| Fusion.AllPassLabels | Application/Project/model_utils.py:54-57 | with nothing filtered, the sorted list has one record per detection, labelled `n 1 .. n c` per class |
| Fusion.UnfilteredSucceedsIff | Application/Project/model_utils.py:26-48 | with threshold 0, the call succeeds exactly when the palette has at least as many colours as there are classes |
| Fusion.UnfilteredLabels | Application/Project/model_utils.py:54-57 | with threshold 0, a successful call returns one record per detection, and a class with c detections is labelled 1 .. c |

## Left out

- The detector call and the depth network (`yolo(image)`, `depth_predict`,
  `load_models`) are outside the model. Their outputs, the detection table
  and the depth map, are inputs.
- The drawing on the image is left out: PIL rectangles, label text, font
  metrics and the `uint8` conversion, together with the failures they can
  raise (a missing `arial.ttf` font, Pillow versions without
  `font.getsize`). The colour lookup at line 48 is modelled, because its
  `KeyError` is the only failure that depends on the detections.
- The Qt window is left out: dialogs, labels, table, image display, saving
  results, and the "over" and "indoor" check-box handlers. The threshold
  and the "over" flag are parameters of `Checker`.
- The choice of depth model by `is_indoor`, and its depth scale (10 or 80),
  only select which map is passed in. They are not modelled.
- The concrete palette (matplotlib's `TABLEAU_COLORS`) is a parameter. Its
  truncation to `len(names)` is not modelled, because `zip` truncates to
  the shorter input anyway.
- Floating point is not modelled. Depths, corners and the factor 0.3 are
  exact reals, and the model rounds the exact trim bounds `lo + h * 0.3`
  and `hi - h * 0.3`. For integer extents `h` below 10^7, binary64 computes
  the products that land exactly on a half without error, so for realistic
  box sizes (a few thousand pixels) the trimmed bounds agree with the IEEE
  computation.
- An infinite or NaN depth from the depth network is not modelled, and
  neither is threshold text such as "nan" or "inf". The only NaN modelled
  is the mean of an empty region, as `None`.
- `float(text)` is a parameter of `SetThreshold`: the parsed value, or
  `None` when parsing fails. Python's float syntax is not modelled.
- `Annotate` reads each detection's depth from the list `Depths` computed
  beforehand. The source computes it inside the loop. The two are the same
  because the depth computation is pure.
- The depth map is a rectangular array of reals. A map smaller than the
  image is handled by the slice clamping, as numpy does.
- DepthRegion.RegionDepthWithinBox: stated only for boxes with
  non-negative, ordered corners. A negative corner counts from the far end
  of the map, as in numpy, so the region is then no longer the box.
- DepthRegion.RegionDepthDefinedIff: stated only for boxes inside the map.
  Outside it, clamping can empty a region of any size.
- An empty trimmed region gives numpy's NaN, modelled as `None`; numpy's
  "Mean of empty slice" `RuntimeWarning` is not modelled. Every
  nonzero threshold rejects it, and threshold 0 keeps the record with no
  depth. `RegionDepthDefinedIff` states when this happens.
- Having more classes than colours is not an error by itself: `zip` only
  truncates the colour map. The call fails with `KeyError` only when a
  class without a colour has an accepted detection (`AssembleSucceedsIff`,
  `UnfilteredSucceedsIff`).
