/** The detection-depth fusion of `process`: count and rank the classes,
    colour them, measure each detection's depth, keep the ones the filter
    accepts, label them with per-class ordinals and sort the records by
    label. The detector output and the depth map are inputs. */
module Fusion {
  import opened Results
  import opened Rounding
  import opened Text
  import opened DepthRegion
  import opened DepthFilter
  import opened ClassCounts
  import opened ColorRanking
  import opened Ordinals
  import opened NameSort

  type Color = string

  /** One detector row: class name, confidence and float box corners. */
  datatype Detection = Detection(name: string, confidence: real, xmin: real, ymin: real, xmax: real, ymax: real)

  /** One entry of the returned list. */
  datatype FusedObject = FusedObject(name: string, color: Color, confidence: real, depth: Option<real>)

  /** The KeyError raised when a passing detection's class has no colour. */
  datatype FuseError = MissingColor(className: string)

  /** The corners rounded to pixels. */
  function BoxOf(d: Detection): Box {
    Box(RoundHalfEven(d.xmin), RoundHalfEven(d.ymin), RoundHalfEven(d.xmax), RoundHalfEven(d.ymax))
  }

  /** Rounding keeps a well-formed box well formed and keeps non-negative
      corners non-negative. */
  lemma BoxOfOrdered(d: Detection)
    ensures d.xmin <= d.xmax ==> BoxOf(d).x0 <= BoxOf(d).x1
    ensures d.ymin <= d.ymax ==> BoxOf(d).y0 <= BoxOf(d).y1
    ensures 0.0 <= d.xmin ==> 0 <= BoxOf(d).x0
    ensures 0.0 <= d.ymin ==> 0 <= BoxOf(d).y0
  {
    if d.xmin <= d.xmax { RoundMonotone(d.xmin, d.xmax); }
    if d.ymin <= d.ymax { RoundMonotone(d.ymin, d.ymax); }
    RoundOfInteger(0);
    if 0.0 <= d.xmin { RoundMonotone(0.0, d.xmin); }
    if 0.0 <= d.ymin { RoundMonotone(0.0, d.ymin); }
  }

  /** The depth of a detection: mean over its trimmed box. */
  function DepthOf(dm: DepthMap, d: Detection): Option<real>
    requires dm.Valid()
  {
    RegionDepth(dm, BoxOf(d))
  }

  /** The depth stage: one depth per detection, in input order. */
  function Depths(dm: DepthMap, ds: seq<Detection>): (depths: seq<Option<real>>)
    requires dm.Valid()
    ensures |depths| == |ds| && forall i :: 0 <= i < |ds| ==> depths[i] == DepthOf(dm, ds[i])
  {
    seq(|ds|, i requires 0 <= i < |ds| => DepthOf(dm, ds[i]))
  }

  function ClassNames(ds: seq<Detection>): (ns: seq<string>)
    ensures |ns| == |ds| && forall i :: 0 <= i < |ds| ==> ns[i] == ds[i].name
  {
    seq(|ds|, i requires 0 <= i < |ds| => ds[i].name)
  }

  function PassFlags(depths: seq<Option<real>>, check: Option<real> -> bool): (ps: seq<bool>)
    ensures |ps| == |depths| && forall i :: 0 <= i < |depths| ==> ps[i] == check(depths[i])
  {
    seq(|depths|, i requires 0 <= i < |depths| => check(depths[i]))
  }

  /** The sort key of the result list. */
  function NameOf(o: FusedObject): string {
    o.name
  }

  /** The ordinal detection `i` is labelled with. */
  function Ordinal(ds: seq<Detection>, depths: seq<Option<real>>, check: Option<real> -> bool, i: nat): nat
    requires |depths| == |ds| && i < |ds|
  {
    OrdinalAt(ClassNames(ds), PassFlags(depths, check), i)
  }

  /** The record built for detection `i` when it passes. */
  function ObjectAt(ds: seq<Detection>, depths: seq<Option<real>>, colors: map<string, Color>,
                    check: Option<real> -> bool, i: nat): FusedObject
    requires |depths| == |ds| && i < |ds| && ds[i].name in colors
  {
    var d := ds[i];
    FusedObject(DisplayName(d.name, Ordinal(ds, depths, check, i)), colors[d.name], d.confidence, depths[i])
  }

  /** The unsorted record list after the first `i` detections, or the error
      of the first passing detection whose class has no colour. */
  function Emitted(ds: seq<Detection>, depths: seq<Option<real>>, colors: map<string, Color>,
                   check: Option<real> -> bool, i: nat): Result<seq<FusedObject>, FuseError>
    requires |depths| == |ds| && i <= |ds|
  {
    if i == 0 then Success([])
    else match Emitted(ds, depths, colors, check, i - 1)
      case Failure(e) => Failure(e)
      case Success(objs) =>
        if !check(depths[i - 1]) then Success(objs)
        else if ds[i - 1].name !in colors then Failure(MissingColor(ds[i - 1].name))
        else Success(objs + [ObjectAt(ds, depths, colors, check, i - 1)])
  }

  /** The labelling stage, for any depths: colours from all detections,
      records from the passing ones, sorted by label. */
  function Assemble(ds: seq<Detection>, depths: seq<Option<real>>, palette: seq<Color>,
                    check: Option<real> -> bool): Result<seq<FusedObject>, FuseError>
    requires |depths| == |ds|
  {
    match Emitted(ds, depths, ColorMap(ClassNames(ds), palette), check, |ds|)
    case Failure(e) => Failure(e)
    case Success(objs) => Success(SortBy(objs, NameOf))
  }

  /** The whole pipeline on a depth map. */
  function Fuse(ds: seq<Detection>, dm: DepthMap, palette: seq<Color>,
                check: Option<real> -> bool): Result<seq<FusedObject>, FuseError>
    requires dm.Valid()
  {
    Assemble(ds, Depths(dm, ds), palette, check)
  }

  /** `process` with the detector and depth model already run: colours,
      the labelling loop, then the sort by label. */
  method Process(ds: seq<Detection>, dm: DepthMap, palette: seq<Color>,
                 check: Option<real> -> bool) returns (r: Result<seq<FusedObject>, FuseError>)
    requires dm.Valid()
    ensures r == Fuse(ds, dm, palette, check)
  {
    var names := ClassNames(ds);
    var colors := ColorMap(names, palette);
    var depths := Depths(dm, ds);
    var objects := Annotate(ds, depths, colors, check);
    match objects
    case Failure(e) => r := Failure(e);
    case Success(objs) => r := Success(SortBy(objs, NameOf));
  }

  /** The loop of `process`: a counter per class, read into the label and
      decremented after each accepted detection. */
  method Annotate(ds: seq<Detection>, depths: seq<Option<real>>, colors: map<string, Color>,
                  check: Option<real> -> bool) returns (r: Result<seq<FusedObject>, FuseError>)
    requires |depths| == |ds|
    ensures r == Emitted(ds, depths, colors, check, |ds|)
  {
    var names := ClassNames(ds);
    var counts: map<string, int> := Counts(names);
    ghost var passed := PassFlags(depths, check);
    var objects: seq<FusedObject> := [];
    var i := 0;
    CountersStart(names, passed);
    while i < |ds|
      invariant 0 <= i <= |ds|
      invariant Emitted(ds, depths, colors, check, i) == Success(objects)
      invariant CountersAt(names, passed, i, counts)
    {
      var d := ds[i];
      var depth := depths[i];
      assert d.name == names[i] && check(depth) == passed[i];
      CountersAdvance(names, passed, i, counts);
      EmittedNext(ds, depths, colors, check, i, objects);
      if check(depth) {
        if d.name !in colors {
          r := Failure(MissingColor(d.name));
          EmittedFailureSticks(ds, depths, colors, check, i + 1, |ds|);
          return;
        }
        var k := counts[d.name];
        var o := FusedObject(DisplayName(d.name, k), colors[d.name], d.confidence, depth);
        assert o == ObjectAt(ds, depths, colors, check, i);
        objects := objects + [o];
        counts := counts[d.name := k - 1];
      }
      i := i + 1;
    }
    r := Success(objects);
  }

  /** The counter of every class holds its count less the passing detections
      of the class before position `i`. */
  ghost predicate CountersAt(names: seq<string>, passed: seq<bool>, i: nat, counts: map<string, int>)
    requires |passed| == |names| && i <= |names|
  {
    && (forall n :: n in counts <==> n in names)
    && (forall n :: n in counts ==> counts[n] == Count(names, n) - PassedBefore(names, passed, i, n))
  }

  /** Before the loop every counter holds the class's count. */
  lemma CountersStart(names: seq<string>, passed: seq<bool>)
    requires |passed| == |names|
    ensures CountersAt(names, passed, 0, Counts(names))
  {
  }

  /** One loop step: the current counter is the declared ordinal, and
      decrementing it after a pass re-establishes CountersAt. */
  lemma CountersAdvance(names: seq<string>, passed: seq<bool>, i: nat, counts: map<string, int>)
    requires |passed| == |names| && i < |names|
    requires CountersAt(names, passed, i, counts)
    ensures names[i] in counts && counts[names[i]] == OrdinalAt(names, passed, i)
    ensures passed[i] ==> CountersAt(names, passed, i + 1, counts[names[i] := counts[names[i]] - 1])
    ensures !passed[i] ==> CountersAt(names, passed, i + 1, counts)
  {
  }

  /** One step of Emitted from a successful prefix. */
  lemma EmittedNext(ds: seq<Detection>, depths: seq<Option<real>>, colors: map<string, Color>,
                    check: Option<real> -> bool, i: nat, objs: seq<FusedObject>)
    requires |depths| == |ds| && i < |ds|
    requires Emitted(ds, depths, colors, check, i) == Success(objs)
    ensures !check(depths[i]) ==> Emitted(ds, depths, colors, check, i + 1) == Success(objs)
    ensures check(depths[i]) && ds[i].name !in colors ==>
              Emitted(ds, depths, colors, check, i + 1) == Failure(MissingColor(ds[i].name))
    ensures check(depths[i]) && ds[i].name in colors ==>
              Emitted(ds, depths, colors, check, i + 1) == Success(objs + [ObjectAt(ds, depths, colors, check, i)])
  {
  }

  /** Once a detection has raised, the pipeline stays failed with that error. */
  lemma {:induction false} EmittedFailureSticks(ds: seq<Detection>, depths: seq<Option<real>>,
                                                colors: map<string, Color>, check: Option<real> -> bool,
                                                i: nat, j: nat)
    requires |depths| == |ds| && i <= j <= |ds|
    requires Emitted(ds, depths, colors, check, i).Failure?
    ensures Emitted(ds, depths, colors, check, j) == Emitted(ds, depths, colors, check, i)
    decreases j - i
  {
    if i < j {
      EmittedFailureSticks(ds, depths, colors, check, i, j - 1);
    }
  }

  /** Every passing detection among the first `i` has a coloured class. */
  predicate Coloured(ds: seq<Detection>, depths: seq<Option<real>>, colors: map<string, Color>,
                     check: Option<real> -> bool, i: nat)
    requires |depths| == |ds| && i <= |ds|
  {
    forall j :: 0 <= j < i && check(depths[j]) ==> ds[j].name in colors
  }

  /** Number of passing detections among the first `i`. */
  function PassCount(depths: seq<Option<real>>, check: Option<real> -> bool, i: nat): nat
    requires i <= |depths|
  {
    if i == 0 then 0
    else PassCount(depths, check, i - 1) + (if check(depths[i - 1]) then 1 else 0)
  }

  /** `o` is the record of some passing detection among the first `i`. */
  ghost predicate RecordOf(ds: seq<Detection>, depths: seq<Option<real>>, colors: map<string, Color>,
                           check: Option<real> -> bool, i: nat, o: FusedObject)
    requires |depths| == |ds| && i <= |ds|
  {
    exists j :: 0 <= j < i && check(depths[j]) && ds[j].name in colors
                && o == ObjectAt(ds, depths, colors, check, j)
  }

  /** Two different passing detections get different labels. */
  lemma LabelsDistinct(ds: seq<Detection>, depths: seq<Option<real>>, colors: map<string, Color>,
                       check: Option<real> -> bool, i: nat, j: nat)
    requires |depths| == |ds| && i < |ds| && j < |ds| && i != j
    requires check(depths[i]) && check(depths[j])
    requires ds[i].name in colors && ds[j].name in colors
    ensures ObjectAt(ds, depths, colors, check, i).name != ObjectAt(ds, depths, colors, check, j).name
  {
    if ObjectAt(ds, depths, colors, check, i).name == ObjectAt(ds, depths, colors, check, j).name {
      DisplayNameInjective(ds[i].name, Ordinal(ds, depths, check, i), ds[j].name, Ordinal(ds, depths, check, j));
      OrdinalsDistinct(ClassNames(ds), PassFlags(depths, check), i, j);
    }
  }

  /** The loop fails within the first `i` detections exactly when some
      passing detection among them lacks a colour, and the error names the
      class of the first such detection. */
  lemma {:induction false} EmittedOutcome(ds: seq<Detection>, depths: seq<Option<real>>, colors: map<string, Color>,
                                          check: Option<real> -> bool, i: nat)
    requires |depths| == |ds| && i <= |ds|
    ensures Emitted(ds, depths, colors, check, i).Success? <==> Coloured(ds, depths, colors, check, i)
    ensures Emitted(ds, depths, colors, check, i).Failure? ==>
              exists j :: 0 <= j < i && check(depths[j]) && ds[j].name !in colors
                          && Coloured(ds, depths, colors, check, j)
                          && Emitted(ds, depths, colors, check, i).error == MissingColor(ds[j].name)
  {
    if i > 0 {
      EmittedOutcome(ds, depths, colors, check, i - 1);
      var prev := Emitted(ds, depths, colors, check, i - 1);
      if prev.Failure? {
        var j :| 0 <= j < i - 1 && check(depths[j]) && ds[j].name !in colors
                 && Coloured(ds, depths, colors, check, j) && prev.error == MissingColor(ds[j].name);
        assert !Coloured(ds, depths, colors, check, i);
      } else {
        EmittedNext(ds, depths, colors, check, i - 1, prev.value);
      }
    }
  }

  /** A successful loop over `i` detections holds one record per passing
      detection. */
  lemma {:induction false} EmittedLength(ds: seq<Detection>, depths: seq<Option<real>>, colors: map<string, Color>,
                                         check: Option<real> -> bool, i: nat)
    requires |depths| == |ds| && i <= |ds|
    requires Emitted(ds, depths, colors, check, i).Success?
    ensures |Emitted(ds, depths, colors, check, i).value| == PassCount(depths, check, i)
  {
    if i > 0 {
      var prev := Emitted(ds, depths, colors, check, i - 1);
      assert prev.Success?;
      EmittedLength(ds, depths, colors, check, i - 1);
      EmittedNext(ds, depths, colors, check, i - 1, prev.value);
    }
  }

  /** Each entry of a successful loop is the record of a passing detection. */
  lemma {:induction false} EmittedSound(ds: seq<Detection>, depths: seq<Option<real>>, colors: map<string, Color>,
                                        check: Option<real> -> bool, i: nat)
    requires |depths| == |ds| && i <= |ds|
    requires Emitted(ds, depths, colors, check, i).Success?
    ensures forall k :: 0 <= k < |Emitted(ds, depths, colors, check, i).value| ==>
              RecordOf(ds, depths, colors, check, i, Emitted(ds, depths, colors, check, i).value[k])
  {
    if i > 0 {
      var prev := Emitted(ds, depths, colors, check, i - 1);
      assert prev.Success?;
      EmittedSound(ds, depths, colors, check, i - 1);
      var objs := prev.value;
      EmittedNext(ds, depths, colors, check, i - 1, objs);
      var objs' := Emitted(ds, depths, colors, check, i).value;
      forall k | 0 <= k < |objs'|
        ensures RecordOf(ds, depths, colors, check, i, objs'[k])
      {
        if k < |objs| {
          assert RecordOf(ds, depths, colors, check, i - 1, objs[k]);
          var j :| 0 <= j < i - 1 && check(depths[j]) && ds[j].name in colors
                   && objs[k] == ObjectAt(ds, depths, colors, check, j);
          assert objs'[k] == ObjectAt(ds, depths, colors, check, j);
        } else {
          assert objs'[k] == ObjectAt(ds, depths, colors, check, i - 1);
        }
      }
    }
  }

  /** The record of every passing detection appears in a successful loop. */
  lemma {:induction false} EmittedComplete(ds: seq<Detection>, depths: seq<Option<real>>, colors: map<string, Color>,
                                           check: Option<real> -> bool, i: nat)
    requires |depths| == |ds| && i <= |ds|
    requires Emitted(ds, depths, colors, check, i).Success?
    ensures forall j :: 0 <= j < i && check(depths[j]) ==>
              ds[j].name in colors && ObjectAt(ds, depths, colors, check, j) in Emitted(ds, depths, colors, check, i).value
  {
    if i > 0 {
      var prev := Emitted(ds, depths, colors, check, i - 1);
      assert prev.Success?;
      EmittedComplete(ds, depths, colors, check, i - 1);
      var objs := prev.value;
      EmittedNext(ds, depths, colors, check, i - 1, objs);
      var objs' := Emitted(ds, depths, colors, check, i).value;
      forall j | 0 <= j < i && check(depths[j])
        ensures ds[j].name in colors && ObjectAt(ds, depths, colors, check, j) in objs'
      {
        if j < i - 1 {
          assert ObjectAt(ds, depths, colors, check, j) in objs;
        } else {
          assert objs'[|objs|] == ObjectAt(ds, depths, colors, check, j);
        }
      }
    }
  }

  /** The records of a successful loop carry pairwise distinct labels. */
  lemma {:induction false} EmittedDistinct(ds: seq<Detection>, depths: seq<Option<real>>, colors: map<string, Color>,
                                           check: Option<real> -> bool, i: nat)
    requires |depths| == |ds| && i <= |ds|
    requires Emitted(ds, depths, colors, check, i).Success?
    ensures DistinctKeys(Emitted(ds, depths, colors, check, i).value, NameOf)
  {
    if i > 0 {
      var prev := Emitted(ds, depths, colors, check, i - 1);
      assert prev.Success?;
      EmittedDistinct(ds, depths, colors, check, i - 1);
      var objs := prev.value;
      EmittedNext(ds, depths, colors, check, i - 1, objs);
      if check(depths[i - 1]) {
        EmittedSound(ds, depths, colors, check, i - 1);
        var objs' := Emitted(ds, depths, colors, check, i).value;
        forall a, b | 0 <= a < b < |objs'|
          ensures NameOf(objs'[a]) != NameOf(objs'[b])
        {
          if b == |objs| {
            assert RecordOf(ds, depths, colors, check, i - 1, objs[a]);
            var j :| 0 <= j < i - 1 && check(depths[j]) && ds[j].name in colors
                     && objs[a] == ObjectAt(ds, depths, colors, check, j);
            LabelsDistinct(ds, depths, colors, check, j, i - 1);
          } else {
            assert objs'[a] == objs[a] && objs'[b] == objs[b];
          }
        }
      }
    }
  }

  /** The labelling succeeds exactly when every detection that passes the
      filter belongs to a class that received a colour. */
  lemma AssembleSucceedsIff(ds: seq<Detection>, depths: seq<Option<real>>, palette: seq<Color>,
                            check: Option<real> -> bool)
    requires |depths| == |ds|
    ensures Assemble(ds, depths, palette, check).Success? <==>
              forall j :: 0 <= j < |ds| && check(depths[j]) ==> ds[j].name in ColorMap(ClassNames(ds), palette)
  {
    EmittedOutcome(ds, depths, ColorMap(ClassNames(ds), palette), check, |ds|);
  }

  /** On failure the error names the class of the first passing detection
      whose class has no colour. */
  lemma AssembleFailure(ds: seq<Detection>, depths: seq<Option<real>>, palette: seq<Color>,
                        check: Option<real> -> bool)
    requires |depths| == |ds|
    requires Assemble(ds, depths, palette, check).Failure?
    ensures var colors := ColorMap(ClassNames(ds), palette);
            exists j :: 0 <= j < |ds| && check(depths[j]) && ds[j].name !in colors
                        && (forall k :: 0 <= k < j && check(depths[k]) ==> ds[k].name in colors)
                        && Assemble(ds, depths, palette, check).error == MissingColor(ds[j].name)
  {
    EmittedOutcome(ds, depths, ColorMap(ClassNames(ds), palette), check, |ds|);
  }

  /** Sorting a successful loop's records by label keeps exactly those
      records and orders them strictly by label. */
  lemma SortedRecords(ds: seq<Detection>, depths: seq<Option<real>>, colors: map<string, Color>,
                      check: Option<real> -> bool)
    requires |depths| == |ds|
    requires Emitted(ds, depths, colors, check, |ds|).Success?
    ensures var r := SortBy(Emitted(ds, depths, colors, check, |ds|).value, NameOf);
            && |r| == PassCount(depths, check, |ds|)
            && (forall k :: 0 <= k < |r| ==> RecordOf(ds, depths, colors, check, |ds|, r[k]))
            && (forall j :: 0 <= j < |ds| && check(depths[j]) ==>
                  ds[j].name in colors && ObjectAt(ds, depths, colors, check, j) in r)
            && StrictlySortedBy(r, NameOf)
  {
    EmittedLength(ds, depths, colors, check, |ds|);
    EmittedSound(ds, depths, colors, check, |ds|);
    EmittedComplete(ds, depths, colors, check, |ds|);
    EmittedDistinct(ds, depths, colors, check, |ds|);
    var objs := Emitted(ds, depths, colors, check, |ds|).value;
    var r := SortBy(objs, NameOf);
    assert |r| == |multiset(r)| == |multiset(objs)| == |objs|;
    forall k | 0 <= k < |r|
      ensures RecordOf(ds, depths, colors, check, |ds|, r[k])
    {
      assert r[k] in objs;
      var m :| 0 <= m < |objs| && objs[m] == r[k];
    }
    SortByStrict(objs, NameOf);
  }

  /** On success the result holds exactly the records of the passing
      detections, one each, sorted strictly ascending by label. */
  lemma AssembleOutput(ds: seq<Detection>, depths: seq<Option<real>>, palette: seq<Color>,
                       check: Option<real> -> bool)
    requires |depths| == |ds|
    requires Assemble(ds, depths, palette, check).Success?
    ensures var colors := ColorMap(ClassNames(ds), palette);
            var r := Assemble(ds, depths, palette, check).value;
            && |r| == PassCount(depths, check, |ds|)
            && (forall k :: 0 <= k < |r| ==> RecordOf(ds, depths, colors, check, |ds|, r[k]))
            && (forall j :: 0 <= j < |ds| && check(depths[j]) ==>
                  ds[j].name in colors && ObjectAt(ds, depths, colors, check, j) in r)
            && StrictlySortedBy(r, NameOf)
  {
    SortedRecords(ds, depths, ColorMap(ClassNames(ds), palette), check);
  }

  /** Each record of a successful run carries the depth of its own
      detection's trimmed box, and its detection passed the filter on it. */
  lemma FuseRecordDepths(ds: seq<Detection>, dm: DepthMap, palette: seq<Color>, check: Option<real> -> bool)
    requires dm.Valid()
    requires Fuse(ds, dm, palette, check).Success?
    ensures forall o :: o in Fuse(ds, dm, palette, check).value ==>
              exists j :: 0 <= j < |ds| && o.confidence == ds[j].confidence
                          && o.depth == DepthOf(dm, ds[j]) && check(DepthOf(dm, ds[j]))
  {
    var depths := Depths(dm, ds);
    var colors := ColorMap(ClassNames(ds), palette);
    AssembleOutput(ds, depths, palette, check);
    var r := Fuse(ds, dm, palette, check).value;
    forall o | o in r
      ensures exists j :: 0 <= j < |ds| && o.confidence == ds[j].confidence
                          && o.depth == DepthOf(dm, ds[j]) && check(DepthOf(dm, ds[j]))
    {
      var m :| 0 <= m < |r| && r[m] == o;
      assert RecordOf(ds, depths, colors, check, |ds|, r[m]);
      var j :| 0 <= j < |ds| && check(depths[j]) && ds[j].name in colors
               && o == ObjectAt(ds, depths, colors, check, j);
      assert o.depth == depths[j];
    }
  }

  /** The filter the window applies: `check_func` over the current threshold
      and direction. */
  function Checker(threshold: real, over: bool): (check: Option<real> -> bool)
    ensures forall d :: check(d) == CheckDepth(threshold, over, d)
  {
    d => CheckDepth(threshold, over, d)
  }

  /** With every detection passing, PassCount counts them all. */
  lemma {:induction false} AllPassCount(depths: seq<Option<real>>, check: Option<real> -> bool, i: nat)
    requires i <= |depths|
    requires forall j :: 0 <= j < |depths| ==> check(depths[j])
    ensures PassCount(depths, check, i) == i
  {
    if i > 0 {
      AllPassCount(depths, check, i - 1);
    }
  }

  /** A record labelled `n k` belongs to class `n`, and `k` lies between 1
      and the class's count. */
  lemma LabelOfRecord(ds: seq<Detection>, depths: seq<Option<real>>, colors: map<string, Color>,
                      check: Option<real> -> bool, o: FusedObject, n: string, k: nat)
    requires |depths| == |ds|
    requires RecordOf(ds, depths, colors, check, |ds|, o) && o.name == DisplayName(n, k)
    ensures n in ClassNames(ds) && 1 <= k <= Count(ClassNames(ds), n)
  {
    var j :| 0 <= j < |ds| && check(depths[j]) && ds[j].name in colors
             && o == ObjectAt(ds, depths, colors, check, j);
    DisplayNameInjective(n, k, ds[j].name, Ordinal(ds, depths, check, j));
    assert ClassNames(ds)[j] == n;
  }

  /** When every detection of class `n` passes, each label `n k` with
      `1 <= k <=` the count of `n` is the label of some detection of `n`. */
  lemma RecordOfLabel(ds: seq<Detection>, depths: seq<Option<real>>, colors: map<string, Color>,
                      check: Option<real> -> bool, n: string, k: nat)
    requires |depths| == |ds|
    requires forall j :: 0 <= j < |ds| && ds[j].name == n ==> check(depths[j])
    requires n in ClassNames(ds) && 1 <= k <= Count(ClassNames(ds), n) && n in colors
    ensures exists j :: 0 <= j < |ds| && ds[j].name == n && ObjectAt(ds, depths, colors, check, j).name == DisplayName(n, k)
  {
    var names := ClassNames(ds);
    var passed := PassFlags(depths, check);
    AllPassOrdinalsExact(names, passed, n);
    assert k in ClassOrdinals(names, passed, n);
    var j :| 0 <= j < |names| && names[j] == n && passed[j] && OrdinalAt(names, passed, j) == k;
    assert ObjectAt(ds, depths, colors, check, j).name == DisplayName(n, k);
  }

  /** A list holding exactly the records of the detections, when all pass,
      labels a class with k detections exactly `1 .. k`. */
  lemma LabelsOfRecords(ds: seq<Detection>, depths: seq<Option<real>>, colors: map<string, Color>,
                        check: Option<real> -> bool, r: seq<FusedObject>)
    requires |depths| == |ds|
    requires forall j :: 0 <= j < |ds| ==> check(depths[j])
    requires forall k :: 0 <= k < |r| ==> RecordOf(ds, depths, colors, check, |ds|, r[k])
    requires forall j :: 0 <= j < |ds| && check(depths[j]) ==>
               ds[j].name in colors && ObjectAt(ds, depths, colors, check, j) in r
    ensures forall n: string, k: nat :: (exists o :: o in r && o.name == DisplayName(n, k)) <==>
                                          (n in ClassNames(ds) && 1 <= k <= Count(ClassNames(ds), n))
  {
    var names := ClassNames(ds);
    forall n: string, k: nat
      ensures (exists o :: o in r && o.name == DisplayName(n, k)) <==>
              (n in names && 1 <= k <= Count(names, n))
    {
      if exists o :: o in r && o.name == DisplayName(n, k) {
        var o :| o in r && o.name == DisplayName(n, k);
        var m :| 0 <= m < |r| && r[m] == o;
        LabelOfRecord(ds, depths, colors, check, o, n, k);
      }
      if n in names && 1 <= k <= Count(names, n) {
        var i :| 0 <= i < |names| && names[i] == n;
        assert n in colors;
        RecordOfLabel(ds, depths, colors, check, n, k);
        var j :| 0 <= j < |ds| && ds[j].name == n && ObjectAt(ds, depths, colors, check, j).name == DisplayName(n, k);
        assert ObjectAt(ds, depths, colors, check, j) in r;
      }
    }
  }

  /** When every detection passes, a successful loop labels a class with k
      detections exactly `1 .. k`, one record per detection. */
  lemma AllPassLabels(ds: seq<Detection>, depths: seq<Option<real>>, colors: map<string, Color>,
                      check: Option<real> -> bool)
    requires |depths| == |ds|
    requires forall j :: 0 <= j < |ds| ==> check(depths[j])
    requires Emitted(ds, depths, colors, check, |ds|).Success?
    ensures var r := SortBy(Emitted(ds, depths, colors, check, |ds|).value, NameOf);
            && |r| == |ds|
            && forall n: string, k: nat :: (exists o :: o in r && o.name == DisplayName(n, k)) <==>
                                             (n in ClassNames(ds) && 1 <= k <= Count(ClassNames(ds), n))
  {
    SortedRecords(ds, depths, colors, check);
    AllPassCount(depths, check, |ds|);
    LabelsOfRecords(ds, depths, colors, check, SortBy(Emitted(ds, depths, colors, check, |ds|).value, NameOf));
  }

  /** With threshold 0 nothing is filtered: the call succeeds exactly when the
      palette has a colour for every class. */
  lemma UnfilteredSucceedsIff(ds: seq<Detection>, depths: seq<Option<real>>, palette: seq<Color>, over: bool)
    requires |depths| == |ds|
    ensures Assemble(ds, depths, palette, Checker(0.0, over)).Success? <==> |FirstSeen(ClassNames(ds))| <= |palette|
  {
    var check := Checker(0.0, over);
    var names := ClassNames(ds);
    var colors := ColorMap(names, palette);
    AssembleSucceedsIff(ds, depths, palette, check);
    if |FirstSeen(names)| <= |palette| {
      PaletteSuffices(names, palette);
    } else {
      PaletteExhausted(names, palette);
      var n :| n in names && n !in colors;
      var j :| 0 <= j < |names| && names[j] == n;
      assert check(depths[j]);
    }
  }

  /** With threshold 0 a successful call returns one record per detection,
      and a class with k detections is labelled `1 .. k`. */
  lemma UnfilteredLabels(ds: seq<Detection>, depths: seq<Option<real>>, palette: seq<Color>, over: bool)
    requires |depths| == |ds|
    requires Assemble(ds, depths, palette, Checker(0.0, over)).Success?
    ensures var r := Assemble(ds, depths, palette, Checker(0.0, over)).value;
            && |r| == |ds|
            && forall n: string, k: nat :: (exists o :: o in r && o.name == DisplayName(n, k)) <==>
                                             (n in ClassNames(ds) && 1 <= k <= Count(ClassNames(ds), n))
  {
    var check := Checker(0.0, over);
    assert forall j :: 0 <= j < |ds| ==> check(depths[j]);
    AllPassLabels(ds, depths, ColorMap(ClassNames(ds), palette), check);
  }
}
