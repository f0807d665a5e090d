/** Per-cell slope of the 100 m grid from the spot heights clipped into each
    cell, and the two selections made from it: every cell at or above the
    median slope (extraction), and the first half of the descending slope
    order (visualisation). Clipping is geometry and is taken as input: each
    cell comes with the heights that fall inside it. The arc tangent in
    degrees is a parameter `atanDeg` with the properties the proofs use, and
    the cell diagonal a parameter `diag` with diag * diag == 100² + 100². */
module Slope {
  import opened Tables
  import opened Ranking
  import opened Text

  /** numpy's degrees(arctan(x)) as far as the slope rule relies on it: 0 at
      0, strictly increasing on x >= 0, and below 90 degrees there. */
  ghost predicate IsAtanDegrees(atanDeg: real -> real) {
    atanDeg(0.0) == 0.0
    && (forall x, y :: 0.0 <= x < y ==> atanDeg(x) < atanDeg(y))
    && (forall x :: 0.0 <= x ==> 0.0 <= atanDeg(x) < 90.0)
  }

  /** cell_diag = sqrt(100**2 + 100**2). */
  ghost predicate IsCellDiagonal(diag: real) {
    diag > 0.0 && diag * diag == 20000.0
  }

  /** The spread of a cell's heights, max - min; 0 for a cell without any. */
  function HeightRange(heights: seq<real>): (r: real)
    ensures r >= 0.0
    ensures |heights| > 0 ==> r == MaxOf(heights) - MinOf(heights)
  {
    if |heights| == 0 then 0.0 else MaxOf(heights) - MinOf(heights)
  }

  /** The slope of one cell: 0 when no height falls inside it, otherwise
      degrees(arctan((max - min) / cell_diag)). */
  function CellSlope(heights: seq<real>, atanDeg: real -> real, diag: real): real
    requires diag > 0.0
  {
    if |heights| == 0 then 0.0 else atanDeg(HeightRange(heights) / diag)
  }

  /** Every slope lies in [0, 90). */
  lemma SlopeRange(heights: seq<real>, atanDeg: real -> real, diag: real)
    requires IsAtanDegrees(atanDeg) && IsCellDiagonal(diag)
    ensures 0.0 <= CellSlope(heights, atanDeg, diag) < 90.0
  {
    if |heights| > 0 {
      assert HeightRange(heights) / diag >= 0.0;
    }
  }

  /** A slope is 0 exactly when all the heights in the cell are equal (or
      there are none). */
  lemma SlopeZeroIff(heights: seq<real>, atanDeg: real -> real, diag: real)
    requires IsAtanDegrees(atanDeg) && IsCellDiagonal(diag)
    ensures CellSlope(heights, atanDeg, diag) == 0.0
            <==> forall i, j :: 0 <= i < |heights| && 0 <= j < |heights| ==> heights[i] == heights[j]
  {
    if |heights| > 0 {
      var lo, hi := MinOf(heights), MaxOf(heights);
      var x := HeightRange(heights) / diag;
      if hi == lo {
        assert x == 0.0;
      } else {
        assert x > 0.0;
        assert atanDeg(0.0) < atanDeg(x);
        var a :| 0 <= a < |heights| && heights[a] == lo;
        var b :| 0 <= b < |heights| && heights[b] == hi;
        assert heights[a] != heights[b];
      }
    }
  }

  /** A cell whose heights spread more never has a smaller slope. */
  lemma SlopeMonotone(h1: seq<real>, h2: seq<real>, atanDeg: real -> real, diag: real)
    requires IsAtanDegrees(atanDeg) && IsCellDiagonal(diag)
    requires HeightRange(h1) <= HeightRange(h2)
    ensures CellSlope(h1, atanDeg, diag) <= CellSlope(h2, atanDeg, diag)
  {
    var x1, x2 := HeightRange(h1) / diag, HeightRange(h2) / diag;
    DivMonotone(HeightRange(h1), HeightRange(h2), diag);
    if |h1| > 0 && x1 < x2 {
      assert atanDeg(x1) < atanDeg(x2);
    }
    if |h1| == 0 && |h2| > 0 && 0.0 < x2 {
      assert atanDeg(0.0) < atanDeg(x2);
    }
  }

  lemma DivMonotone(a: real, b: real, d: real)
    requires 0.0 <= a <= b && d > 0.0
    ensures 0.0 <= a / d <= b / d
  {
    assert b / d - a / d == (b - a) / d;
  }

  /** The slope column: one value per cell, in cell order. */
  function Slopes(cells: seq<seq<real>>, atanDeg: real -> real, diag: real): (r: seq<real>)
    requires diag > 0.0
    ensures |r| == |cells|
    ensures forall i :: 0 <= i < |cells| ==> r[i] == CellSlope(cells[i], atanDeg, diag)
  {
    seq(|cells|, i requires 0 <= i < |cells| => CellSlope(cells[i], atanDeg, diag))
  }

  /** A row of the clipped grid: its position label (the frame index), its
      text properties (GID or gid among them when the file has that column)
      and the heights clipped into it. */
  datatype GridRow = GridRow(index: int, props: map<string, string>, heights: seq<real>)

  /** The clipped grid and the `slope_deg` column the loop assigns to it. */
  class SlopeGrid {
    var rows: seq<GridRow>
    var columns: set<string>
    var slopeDeg: Option<seq<real>>

    constructor (rows: seq<GridRow>, columns: set<string>)
      ensures this.rows == rows && this.columns == columns && slopeDeg.None?
    {
      this.rows := rows;
      this.columns := columns;
      slopeDeg := None;
    }

    /** The slope loop: one value appended per cell in iteration order, then
        stored as the `slope_deg` column. */
    method AddSlopeColumn(atanDeg: real -> real, diag: real)
      requires diag > 0.0
      modifies this
      ensures rows == old(rows) && columns == old(columns) + {"slope_deg"}
      ensures slopeDeg == Some(Slopes(HeightsOf(rows), atanDeg, diag))
    {
      var slopeList: seq<real> := [];
      var i := 0;
      while i < |rows|
        invariant 0 <= i <= |rows| && |slopeList| == i
        invariant forall k :: 0 <= k < i ==> slopeList[k] == CellSlope(rows[k].heights, atanDeg, diag)
      {
        var heights := rows[i].heights;
        if |heights| == 0 {
          slopeList := slopeList + [0.0];
        } else {
          var lo, hi := MinOf(heights), MaxOf(heights);
          slopeList := slopeList + [atanDeg((hi - lo) / diag)];
        }
        i := i + 1;
      }
      assert slopeList == Slopes(HeightsOf(rows), atanDeg, diag);
      slopeDeg := Some(slopeList);
      columns := columns + {"slope_deg"};
    }
  }

  function HeightsOf(rows: seq<GridRow>): (r: seq<seq<real>>)
    ensures |r| == |rows| && forall i :: 0 <= i < |rows| ==> r[i] == rows[i].heights
  {
    seq(|rows|, i requires 0 <= i < |rows| => rows[i].heights)
  }

  /** The id column chosen by the extraction script: "GID" when the grid has
      it, else "gid", else none (the index is used). */
  function GidField(columns: set<string>): (f: Option<string>)
    ensures f == Some("GID") <==> "GID" in columns
    ensures f == Some("gid") <==> "GID" !in columns && "gid" in columns
    ensures f.None? <==> "GID" !in columns && "gid" !in columns
  {
    if "GID" in columns then Some("GID")
    else if "gid" in columns then Some("gid")
    else None
  }

  /** The GID text of a kept row: the chosen field's value as text ("None",
      the text of a null object value, when the row has none), or the index
      written as a string. */
  function GidText(row: GridRow, field: Option<string>): (s: string)
    ensures field.Some? && field.value in row.props ==> s == row.props[field.value]
    ensures field.Some? && field.value !in row.props ==> s == "None"
    ensures field.None? ==> s == IntToString(row.index)
  {
    match field
    case Some(f) => if f in row.props then row.props[f] else "None"
    case None => IntToString(row.index)
  }

  /** A grid row with its slope. */
  datatype SlopeCell = SlopeCell(row: GridRow, slope: real)

  function SlopeKey(c: SlopeCell): Option<real> {
    Some(c.slope)
  }

  function Zip(rows: seq<GridRow>, slopes: seq<real>): (r: seq<SlopeCell>)
    requires |rows| == |slopes|
    ensures |r| == |rows| && forall i :: 0 <= i < |r| ==> r[i] == SlopeCell(rows[i], slopes[i])
  {
    seq(|rows|, i requires 0 <= i < |rows| => SlopeCell(rows[i], slopes[i]))
  }

  function SlopeValues(cells: seq<SlopeCell>): (r: seq<real>)
    ensures |r| == |cells| && forall i :: 0 <= i < |r| ==> r[i] == cells[i].slope
  {
    seq(|cells|, i requires 0 <= i < |cells| => cells[i].slope)
  }

  /** `grid_plot[grid_plot["slope_deg"] >= median_slope]`: the cells at or
      above the median slope, in grid order; nothing when there are no cells
      (the median is NaN and every comparison false). Ties with the median
      are all kept, so at least half the cells (rounded up) are, and every
      kept cell is steeper than every dropped one. */
  function MedianSelect(cells: seq<SlopeCell>): (r: seq<SlopeCell>)
    ensures Subseq(r, cells)
    ensures |cells| == 0 ==> r == []
    ensures |cells| > 0 ==> forall c :: c in r <==> c in cells && c.slope >= Median(SlopeValues(cells)).value
    ensures |r| >= |cells| - |cells| / 2
    ensures forall x, y :: x in r && y in cells && y !in r ==> y.slope < x.slope
  {
    var m := Median(SlopeValues(cells));
    if m.None? then []
    else
      var keep := (c: SlopeCell) => c.slope >= m.value;
      var r := Filter(cells, keep);
      MedianBound(SlopeValues(cells));
      CountIfPointwise(cells, keep, SlopeValues(cells), GeReal(m.value));
      CountIfFilter(cells, keep);
      r
  }

  /** The extraction's result column GID: the chosen field as text, or the
      index as text, for each kept cell in order. */
  function ExtractGids(cells: seq<SlopeCell>, columns: set<string>): (r: seq<string>)
    ensures |r| == |MedianSelect(cells)|
    ensures forall k :: 0 <= k < |r| ==> r[k] == GidText(MedianSelect(cells)[k].row, GidField(columns))
  {
    var kept := MedianSelect(cells);
    seq(|kept|, k requires 0 <= k < |kept| => GidText(kept[k].row, GidField(columns)))
  }

  /** The visualisation's id: the GID column's value, or the position in the
      descending order after `reset_index(drop=True)`. */
  datatype CellLabel = Named(gid: string) | Missing | Rank(position: nat)

  /** `sort_values("slope_deg", ascending=False).reset_index(drop=True)
      .head(int(n * 0.5))`: the first n // 2 cells of the descending order,
      each at least as steep as every cell left out (ties at the cut are
      split by position, not all kept). */
  function HalfSelect(cells: seq<SlopeCell>): (r: (seq<SlopeCell>, seq<SlopeCell>))
    ensures |r.0| == |cells| / 2
    ensures multiset(r.0) + multiset(r.1) == multiset(cells)
    ensures SortedBy(r.0, SlopeKey, false)
    ensures forall x, y :: x in r.0 && y in r.1 ==> y.slope <= x.slope
  {
    var sorted := Sort(cells, SlopeKey, false);
    var half := Trunc(|sorted| as real * 0.5);
    TruncHalf(|sorted|);
    SortedSplit(sorted, SlopeKey, false, half);
    (sorted[..half], sorted[half..])
  }

  /** The GID column of the visualisation's kept cells: the cell's own GID
      (missing when it has none) when the grid has that column, otherwise its
      0-based rank in the descending order. */
  function HalfLabels(cells: seq<SlopeCell>, columns: set<string>): (r: seq<CellLabel>)
    ensures |r| == |cells| / 2
    ensures "GID" !in columns ==> forall k :: 0 <= k < |r| ==> r[k] == Rank(k)
    ensures "GID" in columns ==> forall k :: 0 <= k < |r| ==>
      var props := HalfSelect(cells).0[k].row.props;
      r[k] == if "GID" in props then Named(props["GID"]) else Missing
  {
    var top := HalfSelect(cells).0;
    seq(|top|, k requires 0 <= k < |top| =>
      if "GID" !in columns then Rank(k)
      else if "GID" in top[k].row.props then Named(top[k].row.props["GID"])
      else Missing)
  }

  /** The half rule may leave out a cell exactly as steep as one it keeps:
      of two equally steep cells it yields one. */
  lemma HalfSplitsTies(a: SlopeCell, b: SlopeCell)
    requires a.slope == b.slope
    ensures var r := HalfSelect([a, b]);
      |r.0| == 1 && |r.1| == 1 && r.0[0].slope == r.1[0].slope
  {
    var r := HalfSelect([a, b]);
    assert r.0[0] in multiset(r.0) + multiset(r.1);
    assert r.1[0] in multiset(r.0) + multiset(r.1);
  }

  /** The median rule keeps every tie: of two equally steep cells it yields
      both. */
  lemma MedianKeepsTies(a: SlopeCell, b: SlopeCell)
    requires a.slope == b.slope
    ensures a in MedianSelect([a, b]) && b in MedianSelect([a, b])
  {
    var vals := SlopeValues([a, b]);
    assert vals[0] == a.slope && vals[1] == a.slope;
    assert Median(vals).value == a.slope;
  }
}
