/** The protected-area score: every filtered 100 m cell starts at 0 and the
    cells that hold at least one of the listed address points are set to 1;
    the highlighted cells are those scoring 1. Whether a point lies within a
    cell is geometry, taken as a predicate `within`. */
module ProtectedArea {
  import opened Tables

  /** A cell geometry, carried along unchanged. */
  datatype Shape = Shape(wkt: string)

  /** A cell of the filtered grid (`overlap_final.shp`). */
  datatype GridCell = GridCell(gid: string, geometry: Shape)

  /** An address point (projected). */
  datatype AddressPoint = AddressPoint(x: real, y: real)

  /** Some address point lies within the cell. */
  predicate HasAddress(points: seq<AddressPoint>, cell: GridCell, within: (AddressPoint, GridCell) -> bool) {
    exists p :: p in points && within(p, cell)
  }

  /** `sjoin(addr_gdf, filtered_gdf, predicate="within").index_right`: for
      each point in order, the positions of the cells holding it. */
  function JoinedCellIndices(points: seq<AddressPoint>, cells: seq<GridCell>, within: (AddressPoint, GridCell) -> bool): (r: seq<nat>)
    ensures forall i: nat :: i in r <==> i < |cells| && HasAddress(points, cells[i], within)
  {
    if |points| == 0 then []
    else
      var init := JoinedCellIndices(points[..|points| - 1], cells, within);
      var p := points[|points| - 1];
      assert points == points[..|points| - 1] + [p];
      init + CellsHolding(p, cells, within, |cells|)
  }

  /** The positions among the first n cells that hold point p, in order. */
  function CellsHolding(p: AddressPoint, cells: seq<GridCell>, within: (AddressPoint, GridCell) -> bool, n: nat): (r: seq<nat>)
    requires n <= |cells|
    ensures forall i: nat :: i in r <==> i < n && within(p, cells[i])
  {
    if n == 0 then []
    else CellsHolding(p, cells, within, n - 1) + (if within(p, cells[n - 1]) then [n - 1] else [])
  }

  /** The filtered grid with its `score` column. */
  class ScoredGrid {
    var cells: seq<GridCell>
    var score: seq<int>

    /** `filtered_gdf["score"] = 0`. */
    constructor (cells: seq<GridCell>)
      ensures this.cells == cells && |score| == |cells|
      ensures forall i :: 0 <= i < |score| ==> score[i] == 0
    {
      this.cells := cells;
      score := seq(|cells|, i => 0);
    }

    /** `filtered_gdf.loc[idx_with_score, "score"] = 1` with the distinct
        joined cell positions: exactly the cells holding an address point are
        set to 1, every other score is left as it was. */
    method FlagAddressCells(points: seq<AddressPoint>, within: (AddressPoint, GridCell) -> bool)
      requires |score| == |cells|
      modifies this
      ensures cells == old(cells) && |score| == |cells|
      ensures forall i :: 0 <= i < |score| ==>
        score[i] == if HasAddress(points, cells[i], within) then 1 else old(score)[i]
    {
      var idxWithScore := Distinct(JoinedCellIndices(points, cells, within));
      var before := score;
      score := seq(|before|, i requires 0 <= i < |before| => if i in idxWithScore then 1 else before[i]);
    }
  }

  /** The scores the two steps leave: 1 exactly for the cells holding an
      address point, 0 otherwise. */
  function ScoresOf(cells: seq<GridCell>, points: seq<AddressPoint>, within: (AddressPoint, GridCell) -> bool): (r: seq<int>)
    ensures |r| == |cells|
    ensures forall i :: 0 <= i < |r| ==> (r[i] == 1 <==> HasAddress(points, cells[i], within))
    ensures forall i :: 0 <= i < |r| ==> r[i] == 0 || r[i] == 1
  {
    seq(|cells|, i requires 0 <= i < |cells| => if HasAddress(points, cells[i], within) then 1 else 0)
  }

  /** Initialising and then flagging: the scores are exactly `ScoresOf`,
      whatever the number of points in a cell. */
  method ScoreCells(cells: seq<GridCell>, points: seq<AddressPoint>, within: (AddressPoint, GridCell) -> bool)
    returns (grid: ScoredGrid)
    ensures fresh(grid) && grid.cells == cells && grid.score == ScoresOf(cells, points, within)
  {
    grid := new ScoredGrid(cells);
    grid.FlagAddressCells(points, within);
  }

  /** `filtered_gdf[filtered_gdf["score"] == 1]`: the cells scoring 1, in grid
      order. */
  function Highlighted(cells: seq<GridCell>, score: seq<int>): (r: seq<GridCell>)
    requires |score| == |cells|
    ensures |r| <= |cells|
    ensures forall c :: c in r <==> exists i :: 0 <= i < |cells| && cells[i] == c && score[i] == 1
  {
    if |cells| == 0 then []
    else
      var n := |cells| - 1;
      var init := Highlighted(cells[..n], score[..n]);
      assert forall i :: 0 <= i < n ==> cells[..n][i] == cells[i] && score[..n][i] == score[i];
      if score[n] == 1 then init + [cells[n]] else init
  }

  /** The positions whose score is 1, ascending. */
  function OnesAt(score: seq<int>): (idx: seq<int>)
    ensures forall k :: 0 <= k < |idx| ==> 0 <= idx[k] < |score| && score[idx[k]] == 1
    ensures forall k, l :: 0 <= k < l < |idx| ==> idx[k] < idx[l]
    ensures forall i :: 0 <= i < |score| && score[i] == 1 ==> i in idx
  {
    if |score| == 0 then []
    else
      var n := |score| - 1;
      var init := OnesAt(score[..n]);
      assert forall i :: 0 <= i < n ==> score[..n][i] == score[i];
      if score[n] == 1 then init + [n] else init
  }

  /** Highlighted lists the cells at exactly the positions scoring 1, in grid
      order. */
  lemma {:induction false} HighlightedInOrder(cells: seq<GridCell>, score: seq<int>)
    requires |score| == |cells|
    ensures AtPositions(Highlighted(cells, score), cells, OnesAt(score))
  {
    if |cells| > 0 {
      var n := |cells| - 1;
      HighlightedInOrder(cells[..n], score[..n]);
      var init, idx := Highlighted(cells[..n], score[..n]), OnesAt(score[..n]);
      AtPositionsWiden(init, cells, idx, n);
      if score[n] == 1 {
        AtPositionsSnoc(init, cells, idx, n);
      }
    }
  }

  /** r[k] is the cell at position idx[k], for every k. */
  predicate AtPositions(r: seq<GridCell>, cells: seq<GridCell>, idx: seq<int>) {
    |r| == |idx| && forall k :: 0 <= k < |idx| ==> 0 <= idx[k] < |cells| && r[k] == cells[idx[k]]
  }

  lemma AtPositionsWiden(r: seq<GridCell>, cells: seq<GridCell>, idx: seq<int>, n: int)
    requires 0 <= n <= |cells| && AtPositions(r, cells[..n], idx)
    ensures AtPositions(r, cells, idx)
  {
  }

  lemma AtPositionsSnoc(r: seq<GridCell>, cells: seq<GridCell>, idx: seq<int>, n: int)
    requires 0 <= n < |cells| && AtPositions(r, cells, idx)
    ensures AtPositions(r + [cells[n]], cells, idx + [n])
  {
  }

  /** The highlighted cells are exactly the cells holding an address point
      (a cell listed twice in the grid counts once per position). */
  lemma {:induction false} HighlightedAreAddressed(cells: seq<GridCell>, points: seq<AddressPoint>, within: (AddressPoint, GridCell) -> bool)
    ensures forall c :: c in Highlighted(cells, ScoresOf(cells, points, within))
                    <==> c in cells && HasAddress(points, c, within)
  {
    var score := ScoresOf(cells, points, within);
    forall c | c in cells && HasAddress(points, c, within)
      ensures c in Highlighted(cells, score)
    {
      var i :| 0 <= i < |cells| && cells[i] == c;
      assert score[i] == 1;
    }
  }
}
