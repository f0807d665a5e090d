/** The A60 region selection: a descending head(795) of one month's
    floating-population ranking and an ascending tail(795) of the per-GID
    totals, each inner-merged with the 100 m grid read feature by feature,
    with each cell labelled by the integer part of its A60 value. */
module RegionSelection {
  import opened Tables
  import opened Ranking
  import opened Text

  /** A population row after `rename(columns={"GID": "gid"})`. */
  datatype PopRank = PopRank(gid: string, a60: Option<real>)

  /** A cell geometry, carried along unchanged. */
  datatype Shape = Shape(wkt: string)

  /** A property value of a shapefile feature: text, or the geometry stored
      under the "geometry" key by the reading loop. */
  datatype Prop = Text(s: string) | Geom(g: Shape)

  datatype Feature = Feature(properties: map<string, Prop>, geometry: Shape)

  /** A grid cell built from a feature's properties; its gid is missing (a
      NaN in the frame) when the feature has no text gid. */
  datatype GridCell = GridCell(gid: Option<string>, shape: Shape)

  const SelectionSize := 795
  const GeometryKey := "geometry"

  function A60Of(r: PopRank): Option<real> {
    r.a60
  }

  function RankGid(r: PopRank): string {
    r.gid
  }

  function HasGid(c: GridCell): bool {
    c.gid.Some?
  }

  /** The join key of a cell with a gid. */
  function CellGid(c: GridCell): string {
    if c.gid.Some? then c.gid.value else ""
  }

  /** `rename(columns={from: to})` on a header: every `from` becomes `to`,
      nothing else changes. */
  function RenameColumn(header: seq<string>, from: string, to: string): (r: seq<string>)
    ensures |r| == |header|
    ensures to in r <==> to in header || from in header
    ensures from != to ==> from !in r
    ensures forall k :: 0 <= k < |r| && header[k] != from ==> r[k] == header[k]
  {
    var r := seq(|header|, k requires 0 <= k < |header| => if header[k] == from then to else header[k]);
    assert from in header ==> to in r by {
      if from in header {
        var k :| 0 <= k < |header| && header[k] == from;
        assert r[k] == to;
      }
    }
    assert to in header ==> to in r by {
      if to in header {
        var k :| 0 <= k < |header| && header[k] == to;
        assert r[k] == to;
      }
    }
    r
  }

  /** `sort_values("A60", ascending=False).head(795)`, with the rows left
      behind: the first min(795, n) rows in descending A60 order (NaN last),
      each at or above every row left behind. */
  function Top795(rows: seq<PopRank>): (r: (seq<PopRank>, seq<PopRank>))
    ensures |r.0| == if |rows| <= SelectionSize then |rows| else SelectionSize
    ensures multiset(r.0) + multiset(r.1) == multiset(rows)
    ensures SortedBy(r.0, A60Of, false)
    ensures forall x, y :: x in r.0 && y in r.1 ==> Le(x.a60, y.a60, false)
  {
    var sorted := Sort(rows, A60Of, false);
    var k := if |sorted| <= SelectionSize then |sorted| else SelectionSize;
    SortedSplit(sorted, A60Of, false, k);
    (sorted[..k], sorted[k..])
  }

  /** `sort_values("A60").tail(795)` as written, with the rows left behind
      first: the last min(795, n) rows of the ascending order. */
  function Tail795AsWritten(rows: seq<PopRank>): (r: (seq<PopRank>, seq<PopRank>))
    ensures |r.1| == if |rows| <= SelectionSize then |rows| else SelectionSize
    ensures multiset(r.0) + multiset(r.1) == multiset(rows)
    ensures SortedBy(r.1, A60Of, true)
    ensures forall x, y :: x in r.0 && y in r.1 ==> Le(x.a60, y.a60, true)
  {
    var sorted := Sort(rows, A60Of, true);
    var k := if |sorted| <= SelectionSize then 0 else |sorted| - SelectionSize;
    SortedSplit(sorted, A60Of, true, k);
    (sorted[..k], sorted[k..])
  }

  /** The tail as written keeps the largest values, not the smallest: with
      more than 795 rows whose A60 values are present and not all equal, some
      kept row has a strictly larger value than some row left out. */
  lemma TailKeepsLargest(rows: seq<PopRank>, i: int, j: int)
    requires |rows| > SelectionSize
    requires forall k :: 0 <= k < |rows| ==> rows[k].a60.Some?
    requires 0 <= i < |rows| && 0 <= j < |rows| && rows[i].a60.value < rows[j].a60.value
    ensures exists x, y :: x in Tail795AsWritten(rows).0 && y in Tail795AsWritten(rows).1
                        && x.a60.Some? && y.a60.Some? && x.a60.value < y.a60.value
  {
    var sorted := Sort(rows, A60Of, true);
    var k := |sorted| - SelectionSize;
    var r := Tail795AsWritten(rows);
    assert r.0 == sorted[..k] && r.1 == sorted[k..];
    EndsDiffer(rows, sorted, i, j);
    var lo, hi := sorted[0], sorted[|sorted| - 1];
    assert sorted[..k][0] == lo && sorted[k..][|sorted| - 1 - k] == hi;
    assert lo in r.0 && hi in r.1;
  }

  /** When two of the rows differ in A60, the first row of their ascending
      order is strictly below the last. */
  lemma EndsDiffer(rows: seq<PopRank>, sorted: seq<PopRank>, i: int, j: int)
    requires forall k :: 0 <= k < |rows| ==> rows[k].a60.Some?
    requires 0 <= i < |rows| && 0 <= j < |rows| && rows[i].a60.value < rows[j].a60.value
    requires SortedBy(sorted, A60Of, true) && multiset(sorted) == multiset(rows)
    ensures |sorted| > 0
    ensures sorted[0].a60.Some? && sorted[|sorted| - 1].a60.Some?
    ensures sorted[0].a60.value < sorted[|sorted| - 1].a60.value
  {
    assert rows[i] in multiset(sorted) && rows[j] in multiset(sorted);
    SortedEnds(sorted, A60Of, true, rows[i]);
    SortedEnds(sorted, A60Of, true, rows[j]);
    var hi := sorted[|sorted| - 1];
    assert hi in multiset(rows);
    var t :| 0 <= t < |rows| && rows[t] == hi;
  }

  /** The bottom 795 the comment and the title describe:
      `sort_values("A60").head(795)`, each kept row at or below every row
      left behind. */
  function Bottom795(rows: seq<PopRank>): (r: (seq<PopRank>, seq<PopRank>))
    ensures |r.0| == if |rows| <= SelectionSize then |rows| else SelectionSize
    ensures multiset(r.0) + multiset(r.1) == multiset(rows)
    ensures SortedBy(r.0, A60Of, true)
    ensures forall x, y :: x in r.0 && y in r.1 ==> Le(x.a60, y.a60, true)
  {
    var sorted := Sort(rows, A60Of, true);
    var k := if |sorted| <= SelectionSize then |sorted| else SelectionSize;
    SortedSplit(sorted, A60Of, true, k);
    (sorted[..k], sorted[k..])
  }

  /** On rows with present values the corrected selection holds a smallest
      value: no row left behind is below any kept row. */
  lemma BottomKeepsSmallest(rows: seq<PopRank>, x: PopRank, y: PopRank)
    requires forall k :: 0 <= k < |rows| ==> rows[k].a60.Some?
    requires x in Bottom795(rows).0 && y in Bottom795(rows).1
    ensures x.a60.Some? && y.a60.Some? && x.a60.value <= y.a60.value
  {
    var r := Bottom795(rows);
    assert x in multiset(rows) && y in multiset(rows);
  }

  /** The reading loop: each feature's properties, with its geometry stored
      under "geometry", appended in file order. */
  method ReadGridProps(features: seq<Feature>) returns (propsList: seq<map<string, Prop>>)
    ensures |propsList| == |features|
    ensures forall i :: 0 <= i < |features| ==>
      GeometryKey in propsList[i] && propsList[i][GeometryKey] == Geom(features[i].geometry)
      && (forall k :: k != GeometryKey ==>
            (k in propsList[i] <==> k in features[i].properties)
            && (k in propsList[i] ==> propsList[i][k] == features[i].properties[k]))
  {
    propsList := [];
    var n := 0;
    while n < |features|
      invariant 0 <= n <= |features| && |propsList| == n
      invariant forall i :: 0 <= i < n ==> propsList[i] == features[i].properties[GeometryKey := Geom(features[i].geometry)]
    {
      var props := features[n].properties;
      props := props[GeometryKey := Geom(features[n].geometry)];
      propsList := propsList + [props];
      n := n + 1;
    }
  }

  /** The gid of one feature's properties: its text, or missing. */
  function GidOf(props: map<string, Prop>): (g: Option<string>)
    ensures g.Some? <==> "gid" in props && props["gid"].Text?
    ensures g.Some? ==> g.value == props["gid"].s
  {
    if "gid" in props && props["gid"].Text? then Some(props["gid"].s) else None
  }

  /** The grid frame built from the properties list: the "gid" column exists
      when at least one feature has it, and the merge on it is a KeyError
      otherwise; each feature becomes one cell, in order, with a missing gid
      where the feature has none. */
  function GridOf(propsList: seq<map<string, Prop>>): (r: Result<seq<GridCell>>)
    ensures r.Err? <==> forall i :: 0 <= i < |propsList| ==> "gid" !in propsList[i]
    ensures r.Ok? ==> |r.value| == |propsList| && forall i :: 0 <= i < |propsList| ==>
      r.value[i].gid == GidOf(propsList[i])
      && (GeometryKey in propsList[i] && propsList[i][GeometryKey].Geom? ==> r.value[i].shape == propsList[i][GeometryKey].g)
  {
    if forall i :: 0 <= i < |propsList| ==> "gid" !in propsList[i] then Err("KeyError: 'gid'")
    else
      Ok(seq(|propsList|, i requires 0 <= i < |propsList| =>
        var props := propsList[i];
        GridCell(GidOf(props), if GeometryKey in props && props[GeometryKey].Geom? then props[GeometryKey].g else Shape(""))))
  }

  /** `gdf_grid.merge(sel, on="gid", how="inner")`: the cells with a gid,
      each paired with every selected row of that gid. Every pair matches,
      every match is present, a missing gid matches nothing, and with unique
      selected gids the merge holds, in grid order, each cell that has a
      selected row exactly once, with that row. */
  function MergeGrid(grid: seq<GridCell>, sel: seq<PopRank>): (r: seq<(GridCell, PopRank)>)
    ensures forall p :: p in r ==> p.0 in grid && p.1 in sel && p.0.gid == Some(p.1.gid)
    ensures forall x, y :: x in grid && y in sel && x.gid == Some(y.gid) ==> (x, y) in r
    ensures UniqueKeys(sel, RankGid) ==> r == MatchedPairs(WithLookup(Filter(grid, HasGid), CellGid, sel, RankGid))
  {
    InnerJoinUnique(Filter(grid, HasGid), CellGid, sel, RankGid);
    InnerJoin(Filter(grid, HasGid), CellGid, sel, RankGid)
  }

  /** The first map: the grid merged with the top 795; each merged value is
      at or above every unselected row's. */
  function MergeTop(grid: seq<GridCell>, rows: seq<PopRank>): (r: seq<(GridCell, PopRank)>)
    ensures forall p :: p in r ==> p.0 in grid && p.1 in Top795(rows).0 && p.0.gid == Some(p.1.gid)
    ensures forall x, y :: x in grid && y in Top795(rows).0 && x.gid == Some(y.gid) ==> (x, y) in r
    ensures UniqueKeys(Top795(rows).0, RankGid) ==>
      r == MatchedPairs(WithLookup(Filter(grid, HasGid), CellGid, Top795(rows).0, RankGid))
    ensures forall p, y :: p in r && y in Top795(rows).1 ==> Le(p.1.a60, y.a60, false)
  {
    MergeGrid(grid, Top795(rows).0)
  }

  /** The second map as written: the grid merged with `tail(795)` of the
      ascending order; each merged value is at or above every row left behind. */
  function MergeBottomAsWritten(grid: seq<GridCell>, rows: seq<PopRank>): (r: seq<(GridCell, PopRank)>)
    ensures forall p :: p in r ==> p.0 in grid && p.1 in Tail795AsWritten(rows).1 && p.0.gid == Some(p.1.gid)
    ensures forall x, y :: x in grid && y in Tail795AsWritten(rows).1 && x.gid == Some(y.gid) ==> (x, y) in r
    ensures UniqueKeys(Tail795AsWritten(rows).1, RankGid) ==>
      r == MatchedPairs(WithLookup(Filter(grid, HasGid), CellGid, Tail795AsWritten(rows).1, RankGid))
    ensures forall p, y :: p in r && y in Tail795AsWritten(rows).0 ==> Le(y.a60, p.1.a60, true)
  {
    MergeGrid(grid, Tail795AsWritten(rows).1)
  }

  /** The second map on the corrected selection, the bottom 795: each merged
      value is at or below every unselected row's. */
  function MergeBottom(grid: seq<GridCell>, rows: seq<PopRank>): (r: seq<(GridCell, PopRank)>)
    ensures forall p :: p in r ==> p.0 in grid && p.1 in Bottom795(rows).0 && p.0.gid == Some(p.1.gid)
    ensures forall x, y :: x in grid && y in Bottom795(rows).0 && x.gid == Some(y.gid) ==> (x, y) in r
    ensures UniqueKeys(Bottom795(rows).0, RankGid) ==>
      r == MatchedPairs(WithLookup(Filter(grid, HasGid), CellGid, Bottom795(rows).0, RankGid))
    ensures forall p, y :: p in r && y in Bottom795(rows).1 ==> Le(p.1.a60, y.a60, true)
  {
    MergeGrid(grid, Bottom795(rows).0)
  }

  /** `str(int(row["A60"]))`: the value truncated toward zero, in decimal; a
      ValueError for NaN. */
  function Label(a60: Option<real>): (r: Result<string>)
    ensures r.Ok? <==> a60.Some?
    ensures r.Ok? ==> |r.value| >= 1 && (r.value[0] == '-' <==> a60.value <= -1.0)
  {
    match a60
    case None => Err("ValueError: cannot convert float NaN to integer")
    case Some(v) => Ok(IntToString(Trunc(v)))
  }

  /** A non-negative value's label reads back as its integer part. */
  lemma LabelValue(v: real)
    requires v >= 0.0
    ensures Label(Some(v)).Ok? && DigitsValue(Label(Some(v)).value) == v.Floor
  {
    NatToStringValue(v.Floor);
  }
}
