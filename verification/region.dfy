/** Region depth estimation: the mean of the depth map over a bounding box
    trimmed by 30% of its height and width on every side. */
module DepthRegion {
  import opened Results
  import opened Rounding

  /** A 2-D depth array, indexed `rows[y][x]`; every row is `width` wide. */
  datatype DepthMap = DepthMap(width: nat, rows: seq<seq<real>>) {
    predicate Valid() {
      forall y :: 0 <= y < |rows| ==> |rows[y]| == width
    }
  }

  /** Pixel corners of a detection after rounding its float coordinates. */
  datatype Box = Box(x0: int, y0: int, x1: int, y1: int)

  /** Where a bound `i` of a step-1 slice lands on an axis of length `len`:
      a negative bound counts from the end, and the result is clamped. */
  function SliceBound(i: int, len: nat): (b: nat)
    ensures b <= len
    ensures 0 <= i <= len ==> b == i
    ensures i < 0 && -i <= len ==> b == len + i
    ensures i > len ==> b == len
    ensures i + len < 0 ==> b == 0
  {
    if i < 0 then (if i + len < 0 then 0 else i + len)
    else if i > len then len
    else i
  }

  /** Start of the trimmed range: `round(lo + extent * 0.3)`. */
  function TrimLow(lo: int, extent: int): int {
    RoundHalfEven(lo as real + extent as real * 0.3)
  }

  /** End of the trimmed range: `round(hi - extent * 0.3)`. */
  function TrimHigh(hi: int, extent: int): int {
    RoundHalfEven(hi as real - extent as real * 0.3)
  }

  /** The trimmed range lies inside the original one. */
  lemma TrimmedInside(lo: int, hi: int)
    requires lo <= hi
    ensures lo <= TrimLow(lo, hi - lo) <= TrimHigh(hi, hi - lo) <= hi
  {
    var e := (hi - lo) as real;
    RoundOfInteger(lo);
    RoundOfInteger(hi);
    RoundMonotone(lo as real, lo as real + e * 0.3);
    RoundMonotone(lo as real + e * 0.3, hi as real - e * 0.3);
    RoundMonotone(hi as real - e * 0.3, hi as real);
  }

  /** The trimmed range is empty exactly for extents 0 and 2; an extent of 1
      keeps one pixel and every extent from 3 on keeps at least one. */
  lemma TrimmedEmptyIff(lo: int, hi: int)
    requires lo <= hi
    ensures TrimLow(lo, hi - lo) >= TrimHigh(hi, hi - lo) <==> (hi - lo == 0 || hi - lo == 2)
  {
    var e := hi - lo;
    var a, b := TrimLow(lo, e), TrimHigh(hi, e);
    TrimmedInside(lo, hi);
    if e == 1 {
      RoundHalfEvenUnique(lo as real + 0.3, lo);
      RoundHalfEvenUnique(hi as real - 0.3, hi);
    } else if e == 2 {
      RoundHalfEvenUnique(lo as real + 0.6, lo + 1);
      RoundHalfEvenUnique(hi as real - 0.6, lo + 1);
    } else if e >= 3 {
      assert b as real - a as real >= (e as real * 0.4) - 1.0;
    }
  }

  /** The cells of rows `r0 .. r1-1` restricted to columns `c0 .. c1-1`, row
      after row: what `depths[r0:r1, c0:c1]` holds once its bounds are
      normalised. */
  function Cells(dm: DepthMap, r0: nat, r1: nat, c0: nat, c1: nat): (v: seq<real>)
    requires dm.Valid() && r1 <= |dm.rows| && c1 <= dm.width
    ensures |v| > 0 <==> r0 < r1 && c0 < c1
    decreases r1
  {
    if r1 <= r0 then []
    else
      var above := Cells(dm, r0, r1 - 1, c0, c1);
      var row := if c0 < c1 then dm.rows[r1 - 1][c0..c1] else [];
      above + row
  }

  /** The sliced region has one entry per cell: rows × columns. */
  lemma {:induction false} CellsLength(dm: DepthMap, r0: nat, r1: nat, c0: nat, c1: nat)
    requires dm.Valid() && r1 <= |dm.rows| && c1 <= dm.width
    ensures |Cells(dm, r0, r1, c0, c1)| == if r0 < r1 && c0 < c1 then (r1 - r0) * (c1 - c0) else 0
    decreases r1
  {
    if r0 < r1 {
      CellsLength(dm, r0, r1 - 1, c0, c1);
      if c0 < c1 {
        assert (r1 - r0) * (c1 - c0) == (r1 - 1 - r0) * (c1 - c0) + (c1 - c0);
      }
    }
  }

  /** The cells of the first rows of a range are a prefix of the cells of
      the whole range. */
  lemma {:induction false} CellsPrefix(dm: DepthMap, r0: nat, y: nat, r1: nat, c0: nat, c1: nat)
    requires dm.Valid() && y <= r1 <= |dm.rows| && c1 <= dm.width
    ensures Cells(dm, r0, y, c0, c1) <= Cells(dm, r0, r1, c0, c1)
    decreases r1 - y
  {
    if y < r1 && r0 < r1 {
      CellsPrefix(dm, r0, y, r1 - 1, c0, c1);
      var v := Cells(dm, r0, r1, c0, c1);
      var above := Cells(dm, r0, r1 - 1, c0, c1);
      assert v == above + (if c0 < c1 then dm.rows[r1 - 1][c0..c1] else []);
      assert above <= v;
    }
  }

  /** The layout of the sliced region, row after row and each row's columns
      in order: cell `(y, x)` of the range sits right after the cells of the
      rows above it, at column offset `x - c0`. */
  lemma {:induction false} CellAt(dm: DepthMap, r0: nat, r1: nat, c0: nat, c1: nat, y: nat, x: nat)
    requires dm.Valid() && r1 <= |dm.rows| && c1 <= dm.width
    requires r0 <= y < r1 && c0 <= x < c1
    ensures |Cells(dm, r0, y, c0, c1)| + (x - c0) < |Cells(dm, r0, r1, c0, c1)|
    ensures Cells(dm, r0, r1, c0, c1)[|Cells(dm, r0, y, c0, c1)| + (x - c0)] == dm.rows[y][x]
  {
    var upto := Cells(dm, r0, y + 1, c0, c1);
    var above := Cells(dm, r0, y, c0, c1);
    assert upto == above + dm.rows[y][c0..c1];
    CellsPrefix(dm, r0, y + 1, r1, c0, c1);
    assert upto[|above| + (x - c0)] == dm.rows[y][x];
  }

  /** Cell `(y, x)` of the range is entry `(y - r0) * (c1 - c0) + (x - c0)`
      of the sliced region: numpy's row-major order. With CellsLength this
      fixes every entry of the region, and so the values its mean is taken
      over, each cell counted once. */
  lemma {:induction false} CellAtOffset(dm: DepthMap, r0: nat, r1: nat, c0: nat, c1: nat, y: nat, x: nat)
    requires dm.Valid() && r1 <= |dm.rows| && c1 <= dm.width
    requires r0 <= y < r1 && c0 <= x < c1
    ensures 0 <= (y - r0) * (c1 - c0) + (x - c0) < |Cells(dm, r0, r1, c0, c1)|
    ensures Cells(dm, r0, r1, c0, c1)[(y - r0) * (c1 - c0) + (x - c0)] == dm.rows[y][x]
  {
    CellAt(dm, r0, r1, c0, c1, y, x);
    CellsLength(dm, r0, y, c0, c1);
    RowMajorIndex(Cells(dm, r0, r1, c0, c1), |Cells(dm, r0, y, c0, c1)|, y - r0, c1 - c0, x - c0, dm.rows[y][x]);
  }

  /** An entry found after `m` full rows of width `w` sits at `m * w + k`. */
  lemma RowMajorIndex(v: seq<real>, above: nat, m: nat, w: nat, k: nat, val: real)
    requires above == m * w && above + k < |v| && v[above + k] == val
    ensures 0 <= m * w + k < |v|
    ensures v[m * w + k] == val
  {
  }

  /** `val` is the value of some cell in rows `[r0, r1)` and columns `[c0, c1)`. */
  ghost predicate InCells(dm: DepthMap, r0: nat, r1: nat, c0: nat, c1: nat, val: real)
    requires dm.Valid() && r1 <= |dm.rows| && c1 <= dm.width
  {
    exists y, x :: r0 <= y < r1 && c0 <= x < c1 && val == dm.rows[y][x]
  }

  /** Cells holds exactly the values of the cells in the range: each of its
      entries is one of them, and each of them is among its entries. */
  lemma {:induction false} CellsSpec(dm: DepthMap, r0: nat, r1: nat, c0: nat, c1: nat)
    requires dm.Valid() && r1 <= |dm.rows| && c1 <= dm.width
    ensures forall k :: 0 <= k < |Cells(dm, r0, r1, c0, c1)| ==> InCells(dm, r0, r1, c0, c1, Cells(dm, r0, r1, c0, c1)[k])
    ensures forall y, x :: r0 <= y < r1 && c0 <= x < c1 ==> dm.rows[y][x] in Cells(dm, r0, r1, c0, c1)
    decreases r1
  {
    if r0 < r1 {
      CellsSpec(dm, r0, r1 - 1, c0, c1);
      var above := Cells(dm, r0, r1 - 1, c0, c1);
      var row := if c0 < c1 then dm.rows[r1 - 1][c0..c1] else [];
      var v := Cells(dm, r0, r1, c0, c1);
      assert v == above + row;
      forall k | 0 <= k < |v|
        ensures InCells(dm, r0, r1, c0, c1, v[k])
      {
        if k < |above| {
          assert InCells(dm, r0, r1 - 1, c0, c1, above[k]);
          var y, x :| r0 <= y < r1 - 1 && c0 <= x < c1 && above[k] == dm.rows[y][x];
          assert v[k] == dm.rows[y][x];
        } else {
          var x := c0 + k - |above|;
          assert v[k] == dm.rows[r1 - 1][x];
        }
      }
      forall y, x | r0 <= y < r1 && c0 <= x < c1
        ensures dm.rows[y][x] in v
      {
        if y == r1 - 1 {
          assert v[|above| + x - c0] == dm.rows[y][x];
        } else {
          assert dm.rows[y][x] in above;
        }
      }
    }
  }

  function Sum(vs: seq<real>): real {
    if |vs| == 0 then 0.0 else Sum(vs[..|vs| - 1]) + vs[|vs| - 1]
  }

  /** `np.mean`: the arithmetic mean, and NaN (here `None`) for no values. */
  function Mean(vs: seq<real>): (m: Option<real>)
    ensures m.None? <==> |vs| == 0
    ensures m.Some? ==> m.value * |vs| as real == Sum(vs)
  {
    if |vs| == 0 then None else Some(Sum(vs) / |vs| as real)
  }

  lemma {:induction false} SumBounds(vs: seq<real>, lo: real, hi: real)
    requires forall i :: 0 <= i < |vs| ==> lo <= vs[i] <= hi
    ensures |vs| as real * lo <= Sum(vs) <= |vs| as real * hi
  {
    if |vs| > 0 {
      SumBounds(vs[..|vs| - 1], lo, hi);
    }
  }

  /** A mean never leaves any interval that holds all of its values. */
  lemma MeanWithin(vs: seq<real>, lo: real, hi: real)
    requires forall i :: 0 <= i < |vs| ==> lo <= vs[i] <= hi
    ensures Mean(vs).Some? ==> lo <= Mean(vs).value <= hi
  {
    if |vs| > 0 {
      SumBounds(vs, lo, hi);
      var n := |vs| as real;
      var m := Mean(vs).value;
      assert m * n <= hi * n;
      assert lo * n <= m * n;
    }
  }

  /** The mean of a non-empty sequence lies between two of its values. */
  lemma MeanBetweenValues(vs: seq<real>)
    requires |vs| > 0
    ensures exists i, j :: 0 <= i < |vs| && 0 <= j < |vs| && vs[i] <= Mean(vs).value <= vs[j]
  {
    var i := MinIndex(vs);
    var j := MaxIndex(vs);
    MeanWithin(vs, vs[i], vs[j]);
  }

  function MinIndex(vs: seq<real>): (i: nat)
    requires |vs| > 0
    ensures i < |vs| && forall k :: 0 <= k < |vs| ==> vs[i] <= vs[k]
  {
    if |vs| == 1 then 0
    else
      var i := MinIndex(vs[..|vs| - 1]);
      if vs[i] <= vs[|vs| - 1] then i else |vs| - 1
  }

  function MaxIndex(vs: seq<real>): (i: nat)
    requires |vs| > 0
    ensures i < |vs| && forall k :: 0 <= k < |vs| ==> vs[k] <= vs[i]
  {
    if |vs| == 1 then 0
    else
      var i := MaxIndex(vs[..|vs| - 1]);
      if vs[|vs| - 1] <= vs[i] then i else |vs| - 1
  }

  /** Normalised row range `[r0, r1)` of the trimmed region of `box`. */
  function RowRange(dm: DepthMap, box: Box): (nat, nat) {
    var h := box.y1 - box.y0;
    (SliceBound(TrimLow(box.y0, h), |dm.rows|), SliceBound(TrimHigh(box.y1, h), |dm.rows|))
  }

  /** Normalised column range `[c0, c1)` of the trimmed region of `box`. */
  function ColRange(dm: DepthMap, box: Box): (nat, nat) {
    var w := box.x1 - box.x0;
    (SliceBound(TrimLow(box.x0, w), dm.width), SliceBound(TrimHigh(box.x1, w), dm.width))
  }

  /** The depth values of the trimmed region of `box`. */
  function RegionValues(dm: DepthMap, box: Box): seq<real>
    requires dm.Valid()
  {
    var (r0, r1) := RowRange(dm, box);
    var (c0, c1) := ColRange(dm, box);
    Cells(dm, r0, r1, c0, c1)
  }

  /** The depth the pipeline attaches to a detection. */
  function RegionDepth(dm: DepthMap, box: Box): Option<real>
    requires dm.Valid()
  {
    Mean(RegionValues(dm, box))
  }

  /** For a box with non-negative corners every value averaged comes from a
      cell inside the box, so the depth lies within any bounds that hold for
      all depth-map cells of the box. */
  lemma RegionDepthWithinBox(dm: DepthMap, box: Box, lo: real, hi: real)
    requires dm.Valid()
    requires 0 <= box.x0 <= box.x1 && 0 <= box.y0 <= box.y1
    requires forall y, x :: box.y0 <= y < box.y1 && y < |dm.rows| && box.x0 <= x < box.x1 && x < dm.width
               ==> lo <= dm.rows[y][x] <= hi
    ensures RegionDepth(dm, box).Some? ==> lo <= RegionDepth(dm, box).value <= hi
  {
    TrimmedInside(box.y0, box.y1);
    TrimmedInside(box.x0, box.x1);
    var vs := RegionValues(dm, box);
    var (r0, r1) := RowRange(dm, box);
    var (c0, c1) := ColRange(dm, box);
    CellsSpec(dm, r0, r1, c0, c1);
    forall k | 0 <= k < |vs|
      ensures lo <= vs[k] <= hi
    {
      assert InCells(dm, r0, r1, c0, c1, vs[k]);
      var y, x :| r0 <= y < r1 && c0 <= x < c1 && vs[k] == dm.rows[y][x];
    }
    MeanWithin(vs, lo, hi);
  }

  /** For a box inside the depth map the depth is defined (not NaN) exactly
      when neither its height nor its width is 0 or 2. */
  lemma RegionDepthDefinedIff(dm: DepthMap, box: Box)
    requires dm.Valid()
    requires 0 <= box.x0 <= box.x1 <= dm.width && 0 <= box.y0 <= box.y1 <= |dm.rows|
    ensures RegionDepth(dm, box).Some? <==>
              (box.y1 - box.y0 != 0 && box.y1 - box.y0 != 2 && box.x1 - box.x0 != 0 && box.x1 - box.x0 != 2)
  {
    TrimmedInside(box.y0, box.y1);
    TrimmedInside(box.x0, box.x1);
    TrimmedEmptyIff(box.y0, box.y1);
    TrimmedEmptyIff(box.x0, box.x1);
  }
}
