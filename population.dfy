/** The floating-population layer: monthly files of (GID, A60) rows are
    concatenated and averaged per GID, the averages are left-joined onto the
    grid by gid, and the cells with the largest averages are coloured
    (visualisation) or exported with their 500 m parent id (extraction). */
module Population {
  import opened Tables
  import opened Ranking
  import opened Text

  /** One row of a monthly file: the GID and A60 columns, either possibly missing. */
  datatype PopRow = PopRow(gid: Option<string>, a60: Option<real>)

  /** One row of the averaged table: `gid` and `total_count`. */
  datatype PopMean = PopMean(gid: string, totalCount: Option<real>)

  /** A cell geometry, carried along unchanged. */
  datatype Shape = Shape(wkt: string)

  /** A grid cell of the 100 m shapefile: its gid, its 500 m parent and its shape. */
  datatype GridCell = GridCell(gid: string, gid500: string, shape: Shape)

  /** A grid cell after the merge: `total_count` is missing when no average
      has the cell's gid. */
  datatype PopCell = PopCell(cell: GridCell, totalCount: Option<real>)

  /** `pd.concat` of the monthly tables: every row of every file, none
      merged or dropped, file after file. */
  function Concat<T>(files: seq<seq<T>>): (r: seq<T>)
    ensures forall f, x :: f in files && x in f ==> x in r
    ensures forall x :: x in r ==> exists f :: f in files && x in f
    ensures |r| == TotalRows(files)
  {
    if |files| == 0 then []
    else
      var init := files[..|files| - 1];
      var r := Concat(init) + files[|files| - 1];
      assert forall f :: f in init ==> f in files;
      assert forall f :: f in files ==> f in init || f == files[|files| - 1];
      r
  }

  /** The number of rows over all files. */
  function TotalRows<T>(files: seq<seq<T>>): nat {
    if |files| == 0 then 0 else TotalRows(files[..|files| - 1]) + |files[|files| - 1]|
  }

  /** Concatenating one more file appends its rows, in order, after those
      of the earlier files. */
  lemma ConcatAppend<T>(files: seq<seq<T>>, f: seq<T>)
    ensures Concat(files + [f]) == Concat(files) + f
  {
    assert (files + [f])[..|files|] == files;
  }

  /** The GIDs of the rows that have one, in row order. */
  function PresentGids(rows: seq<PopRow>): (r: seq<string>)
    ensures forall g :: g in r <==> exists k :: 0 <= k < |rows| && rows[k].gid == Some(g)
  {
    if |rows| == 0 then []
    else
      var init := PresentGids(rows[..|rows| - 1]);
      var last := rows[|rows| - 1];
      assert forall k :: 0 <= k < |rows| - 1 ==> rows[..|rows| - 1][k] == rows[k];
      match last.gid
      case None => init
      case Some(g) => init + [g]
  }

  /** The A60 values of the rows of one GID, NaN left out, in row order:
      one value per such row. */
  function GroupValues(rows: seq<PopRow>, g: string): (r: seq<real>)
    ensures forall v :: v in r <==> PopRow(Some(g), Some(v)) in rows
    ensures |r| <= |rows|
    ensures |r| == CountIf(rows, InGroup(g))
  {
    if |rows| == 0 then []
    else
      var init := GroupValues(rows[..|rows| - 1], g);
      var last := rows[|rows| - 1];
      assert rows == rows[..|rows| - 1] + [last];
      if last.gid == Some(g) && last.a60.Some? then init + [last.a60.value] else init
  }

  /** A row of GID g with an A60 value. */
  function InGroup(g: string): PopRow -> bool {
    (row: PopRow) => row.gid == Some(g) && row.a60.Some?
  }

  function A60Value(row: PopRow): real {
    if row.a60.Some? then row.a60.value else 0.0
  }

  /** The group's values are the A60 column of the rows `df[df.GID == g]`
      with a value, in row order, each row's value once. */
  lemma {:induction false} GroupValuesFiltered(rows: seq<PopRow>, g: string)
    ensures GroupValues(rows, g) == Column(Filter(rows, InGroup(g)), A60Value)
  {
    if |rows| > 0 {
      var init := rows[..|rows| - 1];
      var last := rows[|rows| - 1];
      GroupValuesFiltered(init, g);
      if InGroup(g)(last) {
        assert Filter(rows, InGroup(g)) == Filter(init, InGroup(g)) + [last];
        assert Column(Filter(init, InGroup(g)) + [last], A60Value) == Column(Filter(init, InGroup(g)), A60Value) + [A60Value(last)];
      } else {
        assert Filter(rows, InGroup(g)) == Filter(init, InGroup(g));
      }
    }
  }

  function Sum(xs: seq<real>): real {
    if |xs| == 0 then 0.0 else Sum(xs[..|xs| - 1]) + xs[|xs| - 1]
  }

  /** pandas `mean()` of a column whose NaNs were dropped: NaN when nothing is left. */
  function Mean(xs: seq<real>): (m: Option<real>)
    ensures m.None? <==> |xs| == 0
  {
    if |xs| == 0 then None else Some(Sum(xs) / |xs| as real)
  }

  lemma {:induction false} SumBounds(xs: seq<real>, lo: real, hi: real)
    requires forall i :: 0 <= i < |xs| ==> lo <= xs[i] <= hi
    ensures |xs| as real * lo <= Sum(xs) <= |xs| as real * hi
  {
    if |xs| > 0 {
      SumBounds(xs[..|xs| - 1], lo, hi);
    }
  }

  /** A mean lies within any bounds of its values. */
  lemma MeanWithin(xs: seq<real>, lo: real, hi: real)
    requires |xs| > 0 && forall i :: 0 <= i < |xs| ==> lo <= xs[i] <= hi
    ensures lo <= Mean(xs).value <= hi
  {
    SumBounds(xs, lo, hi);
    var n := |xs| as real;
    assert Mean(xs).value * n == Sum(xs);
  }

  /** The GIDs of the averaged table: each present GID once, ascending, as
      `groupby` orders its keys. */
  function GroupKeys(rows: seq<PopRow>): (keys: seq<string>)
    ensures forall i, j :: 0 <= i < j < |keys| ==> StrLess(keys[i], keys[j])
    ensures forall g :: g in keys <==> g in PresentGids(rows)
  {
    var d := Distinct(PresentGids(rows));
    var keys := StrSort(d);
    assert forall g :: g in keys <==> g in multiset(d);
    UniqueKeysPerm(d, keys, (k: string) => k);
    forall i, j | 0 <= i < j < |keys| ensures StrLess(keys[i], keys[j]) {
      StrLessTotal(keys[i], keys[j]);
    }
    keys
  }

  /** `load_population_data`: one row per GID present in any file, ascending
      by GID, whose `total_count` is the mean of that GID's A60 values over
      all files (missing when it has none). */
  function LoadPopulationData(files: seq<seq<PopRow>>): (r: seq<PopMean>)
    ensures forall i, j :: 0 <= i < j < |r| ==> StrLess(r[i].gid, r[j].gid)
    ensures forall g :: (exists i :: 0 <= i < |r| && r[i].gid == g) <==> g in PresentGids(Concat(files))
    ensures forall i :: 0 <= i < |r| ==> r[i].totalCount == Mean(GroupValues(Concat(files), r[i].gid))
  {
    var rows := Concat(files);
    var keys := GroupKeys(rows);
    var r := Averages(rows, keys);
    forall g | g in keys ensures exists i :: 0 <= i < |r| && r[i].gid == g {
      var i :| 0 <= i < |keys| && keys[i] == g;
      assert r[i].gid == g;
    }
    r
  }

  /** One averaged row per key, in key order. */
  function Averages(rows: seq<PopRow>, keys: seq<string>): (r: seq<PopMean>)
    ensures |r| == |keys|
    ensures forall i :: 0 <= i < |r| ==> r[i].gid == keys[i] && r[i].totalCount == Mean(GroupValues(rows, keys[i]))
  {
    seq(|keys|, i requires 0 <= i < |keys| => PopMean(keys[i], Mean(GroupValues(rows, keys[i]))))
  }

  function MeanGid(p: PopMean): string {
    p.gid
  }

  /** A GID's mean exists exactly when one of its rows has an A60 value, and
      it lies between the smallest and the largest of those values. */
  lemma GroupMean(rows: seq<PopRow>, g: string)
    ensures var m := Mean(GroupValues(rows, g));
      (m.Some? <==> exists v :: PopRow(Some(g), Some(v)) in rows)
      && (m.Some? ==> exists lo, hi ::
            PopRow(Some(g), Some(lo)) in rows && PopRow(Some(g), Some(hi)) in rows && lo <= m.value <= hi)
  {
    var vals := GroupValues(rows, g);
    if |vals| > 0 {
      var lo, hi := MinOf(vals), MaxOf(vals);
      MeanWithin(vals, lo, hi);
    } else {
      forall v ensures PopRow(Some(g), Some(v)) !in rows {
        assert v !in vals;
      }
    }
  }

  /** Each row of the averaged table has a total exactly when one of its GID's
      rows has an A60 value, and the total lies between the smallest and
      largest of them. */
  lemma LoadedTotal(files: seq<seq<PopRow>>, i: int)
    requires 0 <= i < |LoadPopulationData(files)|
    ensures var p := LoadPopulationData(files)[i];
      (p.totalCount.Some? <==> exists v :: PopRow(Some(p.gid), Some(v)) in Concat(files))
      && (p.totalCount.Some? ==> exists lo, hi ::
            PopRow(Some(p.gid), Some(lo)) in Concat(files) && PopRow(Some(p.gid), Some(hi)) in Concat(files)
            && lo <= p.totalCount.value <= hi)
  {
    var rows := Concat(files);
    var p := LoadPopulationData(files)[i];
    assert p.totalCount == Mean(GroupValues(rows, p.gid));
    GroupMean(rows, p.gid);
  }

  /** The averaged table has one row per GID. */
  lemma LoadedUnique(files: seq<seq<PopRow>>)
    ensures UniqueKeys(LoadPopulationData(files), MeanGid)
  {
    var r := LoadPopulationData(files);
    forall i, j | 0 <= i < j < |r| ensures MeanGid(r[i]) != MeanGid(r[j]) {
      StrLessIrreflexive(r[i].gid);
    }
  }

  function CellGid(c: GridCell): string {
    c.gid
  }

  function TotalOf(c: PopCell): Option<real> {
    c.totalCount
  }

  function Merged(p: (GridCell, Option<PopMean>)): PopCell {
    PopCell(p.0, if p.1.Some? then p.1.value.totalCount else None)
  }

  /** `merge_population_with_gdf`: the grid left-joined with the averages on
      gid; each output cell is a grid cell carrying the total of an average
      with its gid, or no total when none has it. */
  function MergePopulationWithGdf(grid: seq<GridCell>, pops: seq<PopMean>): (r: seq<PopCell>)
    ensures forall c :: c in r ==> c.cell in grid
    ensures forall c :: c in r && c.totalCount.Some? ==> exists p :: p in pops && p.gid == c.cell.gid && p.totalCount == c.totalCount
    ensures forall x :: x in grid ==> exists c :: c in r && c.cell == x
  {
    var joined := LeftJoin(grid, CellGid, pops, MeanGid);
    LeftJoinRows(grid, CellGid, pops, MeanGid);
    LeftJoinKeeps(grid, CellGid, pops, MeanGid);
    var r := seq(|joined|, k requires 0 <= k < |joined| => Merged(joined[k]));
    forall c | c in r ensures c.cell in grid {
      var k :| 0 <= k < |r| && r[k] == c;
      assert joined[k] in joined;
    }
    forall c | c in r && c.totalCount.Some? ensures exists p :: p in pops && p.gid == c.cell.gid && p.totalCount == c.totalCount {
      var k :| 0 <= k < |r| && r[k] == c;
      assert joined[k] in joined;
    }
    forall x | x in grid ensures exists c :: c in r && c.cell == x {
      var o :| o in joined && o.0 == x;
      var k :| 0 <= k < |joined| && joined[k] == o;
      assert r[k] in r;
    }
    r
  }

  /** With the averages of `load_population_data` the merge keeps the grid
      one cell for one, in order, each with its own GID's total. */
  lemma MergeOneForOne(grid: seq<GridCell>, files: seq<seq<PopRow>>)
    ensures var r := MergePopulationWithGdf(grid, LoadPopulationData(files));
      |r| == |grid|
      && forall i :: 0 <= i < |grid| ==>
           (r[i].cell == grid[i]
            && r[i].totalCount == (if grid[i].gid in PresentGids(Concat(files))
                                   then Mean(GroupValues(Concat(files), grid[i].gid)) else None))
  {
    var pops := LoadPopulationData(files);
    LoadedUnique(files);
    LeftJoinUnique(grid, CellGid, pops, MeanGid);
    var joined := LeftJoin(grid, CellGid, pops, MeanGid);
    forall i | 0 <= i < |grid| ensures
      Merged(joined[i]).totalCount == (if grid[i].gid in PresentGids(Concat(files))
                                       then Mean(GroupValues(Concat(files), grid[i].gid)) else None)
    {
      LookupAverage(files, grid[i].gid);
    }
  }

  /** The total the merge finds for a gid: its group's mean when the gid has
      a row, none otherwise. */
  lemma LookupAverage(files: seq<seq<PopRow>>, g: string)
    ensures var l := Lookup(LoadPopulationData(files), MeanGid, g);
      (if l.Some? then l.value.totalCount else None)
      == (if g in PresentGids(Concat(files)) then Mean(GroupValues(Concat(files), g)) else None)
  {
    var pops := LoadPopulationData(files);
    var l := Lookup(pops, MeanGid, g);
    if g in PresentGids(Concat(files)) {
      var k :| 0 <= k < |pops| && pops[k].gid == g;
      assert pops[k] in pops;
    }
    if l.Some? {
      var k :| 0 <= k < |pops| && pops[k] == l.value;
      assert pops[k].gid == g;
    }
  }

  const TopColor := "#EFB0C9"
  const OtherColor := "#D3D3D3"

  /** top_n = int(len(gdf) * top_percent). */
  function TopN(n: nat, topPercent: real): int {
    Trunc(n as real * topPercent)
  }

  function PopGid(c: PopCell): string {
    c.cell.gid
  }

  /** The `plot_color` column of `visualize_population`: pink for the cells
      whose gid is among the gids of `nlargest(top_n, 'total_count')`. */
  function PlotColors(cells: seq<PopCell>, topPercent: real): seq<string> {
    ColorTop(cells, TopN(|cells|, topPercent), TotalOf, PopGid, TopColor, OtherColor)
  }

  /** On a merged grid with distinct gids, a pink cell has a total, fewer than
      top_n cells have a larger one, and every grey cell with a total has one
      no larger; pink and grey are the only colours. */
  lemma HighlightedAreLargest(cells: seq<PopCell>, topPercent: real, i: int, j: int)
    requires UniqueKeys(cells, PopGid)
    requires 0 <= i < |cells| && 0 <= j < |cells|
    requires PlotColors(cells, topPercent)[i] == TopColor
    ensures cells[i].totalCount.Some?
    ensures CountIf(cells, Above(TotalOf, cells[i].totalCount.value)) < TopN(|cells|, topPercent)
    ensures PlotColors(cells, topPercent)[j] in {TopColor, OtherColor}
    ensures PlotColors(cells, topPercent)[j] == OtherColor && cells[j].totalCount.Some?
            ==> cells[j].totalCount.value <= cells[i].totalCount.value
  {
    UniqueFixesKey(cells, PopGid, TotalOf);
    ColoredTopAreLargest(cells, TopN(|cells|, topPercent), TotalOf, PopGid, TopColor, OtherColor, i, j);
  }

  /** `extract_top50_gid500`: the (gid_500, geometry) of the
      `nlargest(int(len * 0.5), 'total_count')` cells, largest first. Every
      exported row comes from a cell with a total that fewer than half the
      cells exceed, and as many rows are exported as half the cells (rounded
      down) or the cells with a total, whichever is fewer. The rows are those
      of the kept part of NLargestSplit, whose contract makes it the largest
      totals, largest first, with the rest of the present cells left behind. */
  function ExtractTop50Gid500(cells: seq<PopCell>): (r: seq<(string, Shape)>)
    ensures r == Exports(NLargestSplit(cells, |cells| / 2, TotalOf).0)
    ensures |r| == if |cells| / 2 <= |PresentRows(cells, TotalOf)| then |cells| / 2 else |PresentRows(cells, TotalOf)|
    ensures forall k :: 0 <= k < |r| ==> exists c :: (c in cells && c.totalCount.Some?
      && (c.cell.gid500, c.cell.shape) == r[k]
      && CountIf(cells, Above(TotalOf, c.totalCount.value)) < |cells| / 2)
  {
    var n := Trunc(|cells| as real * 0.5);
    TruncHalf(|cells|);
    assert n == |cells| / 2;
    var top := NLargestSplit(cells, n, TotalOf).0;
    var r := Exports(top);
    TopHalfAbove(cells, r);
    r
  }

  /** The gid500 and geometry columns of the given cells, in order. */
  function Exports(top: seq<PopCell>): (r: seq<(string, Shape)>)
    ensures |r| == |top| && forall k :: 0 <= k < |r| ==> r[k] == (top[k].cell.gid500, top[k].cell.shape)
  {
    seq(|top|, k requires 0 <= k < |top| => (top[k].cell.gid500, top[k].cell.shape))
  }

  /** Every exported cell is one of the half of the cells with the largest totals. */
  lemma TopHalfAbove(cells: seq<PopCell>, r: seq<(string, Shape)>)
    requires var top := NLargestSplit(cells, |cells| / 2, TotalOf).0;
      |r| == |top| && forall k :: 0 <= k < |r| ==> r[k] == (top[k].cell.gid500, top[k].cell.shape)
    ensures |r| == if |cells| / 2 <= |PresentRows(cells, TotalOf)| then |cells| / 2 else |PresentRows(cells, TotalOf)|
    ensures forall k :: 0 <= k < |r| ==> exists c :: (c in cells && c.totalCount.Some?
      && (c.cell.gid500, c.cell.shape) == r[k]
      && CountIf(cells, Above(TotalOf, c.totalCount.value)) < |cells| / 2)
  {
    var top := NLargestSplit(cells, |cells| / 2, TotalOf).0;
    forall k | 0 <= k < |r| ensures exists c :: (c in cells && c.totalCount.Some?
      && (c.cell.gid500, c.cell.shape) == r[k]
      && CountIf(cells, Above(TotalOf, c.totalCount.value)) < |cells| / 2)
    {
      assert top[k] in top;
      NLargestAbove(cells, |cells| / 2, TotalOf, top[k]);
    }
  }
}
