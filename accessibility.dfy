/** The emergency-facility accessibility layer: a grid of cells with a
    district code and an accessibility value, the coordinate-system override
    applied on loading, the district filter, and the "bottom percent" flag,
    which marks the cells at ascending positions from int(n * p) on. */
module Accessibility {
  import opened Tables
  import opened Ranking

  datatype Cell = Cell(gid: string, sggCd: string, value: Option<real>)

  function ValueOf(c: Cell): Option<real> {
    c.value
  }

  function GidOf(c: Cell): string {
    c.gid
  }

  /** A loaded layer whose coordinate reference system is overwritten (not
      reprojected) when it is missing or names another system. */
  class Layer {
    var crs: Option<string>
    var cells: seq<Cell>

    constructor (crs: Option<string>, cells: seq<Cell>)
      ensures this.crs == crs && this.cells == cells
    {
      this.crs := crs;
      this.cells := cells;
    }

    method SetCrsIfDiffers(target: string) returns (overridden: bool)
      modifies this
      ensures crs == Some(target) && cells == old(cells)
      ensures overridden <==> old(crs) != Some(target)
    {
      overridden := crs.None? || crs.value != target;
      if overridden {
        crs := Some(target);
      }
    }
  }

  /** A second override changes nothing. */
  method OverrideTwice(layer: Layer, target: string) returns (second: bool)
    modifies layer
    ensures layer.crs == Some(target) && layer.cells == old(layer.cells) && !second
  {
    var first := layer.SetCrsIfDiffers(target);
    second := layer.SetCrsIfDiffers(target);
  }

  /** `filter_region_by_code`: the cells of one district, in their order. */
  function FilterRegionByCode(cells: seq<Cell>, sggCd: string): (r: seq<Cell>)
    ensures forall c :: c in r <==> c in cells && c.sggCd == sggCd
    ensures Subseq(r, cells)
  {
    Filter(cells, InRegion(sggCd))
  }

  /** The filter keeps as many cells as have the district code. */
  lemma FilterRegionCount(cells: seq<Cell>, sggCd: string)
    ensures |FilterRegionByCode(cells, sggCd)| == CountIf(cells, InRegion(sggCd))
  {
    CountIfFilter(cells, InRegion(sggCd));
  }

  function InRegion(sggCd: string): Cell -> bool {
    (c: Cell) => c.sggCd == sggCd
  }

  /** A district filter keeps every cell of that district and no other:
      applying it again changes nothing. */
  lemma FilterRegionIdempotent(cells: seq<Cell>, sggCd: string)
    ensures FilterRegionByCode(FilterRegionByCode(cells, sggCd), sggCd) == FilterRegionByCode(cells, sggCd)
  {
    var r := FilterRegionByCode(cells, sggCd);
    FilterAll(r, InRegion(sggCd));
  }

  lemma {:induction false} FilterAll<T(!new)>(s: seq<T>, p: T -> bool)
    requires forall x :: x in s ==> p(x)
    ensures Filter(s, p) == s
  {
    if |s| > 0 {
      FilterAll(s[..|s| - 1], p);
      assert s == s[..|s| - 1] + [s[|s| - 1]];
    }
  }

  /** Where the flagged part of the ascending order starts: `iloc[count:]`
      with count = int(n * p). */
  function BottomStart(n: nat, p: real): (k: nat)
    ensures k <= n
  {
    SliceStart(Trunc(n as real * p), n)
  }

  /** The cells at ascending positions from BottomStart on. */
  function BottomCells(cells: seq<Cell>, p: real): (r: seq<Cell>)
    ensures |r| == |cells| - BottomStart(|cells|, p)
  {
    var sorted := Sort(cells, ValueOf, true);
    sorted[BottomStart(|cells|, p)..]
  }

  /** The `is_bottom` column: a cell is flagged when its gid is among the
      gids of BottomCells. */
  function BottomFlags(cells: seq<Cell>, p: real): (flags: seq<bool>)
    ensures |flags| == |cells|
  {
    var gids := Column(BottomCells(cells, p), GidOf);
    seq(|cells|, i requires 0 <= i < |cells| => cells[i].gid in gids)
  }

  /** The frame `get_bottom_percent` works on: the column is added to the
      frame it is given, which is then returned. */
  class Region {
    var cells: seq<Cell>
    var isBottom: Option<seq<bool>>

    constructor (cells: seq<Cell>)
      ensures this.cells == cells && isBottom.None?
    {
      this.cells := cells;
      isBottom := None;
    }

    /** `get_bottom_percent`: rows are neither removed nor reordered; only the
        flag column is set. */
    method GetBottomPercent(p: real)
      modifies this
      ensures cells == old(cells)
      ensures isBottom == Some(BottomFlags(cells, p))
    {
      isBottom := Some(BottomFlags(cells, p));
    }
  }

  /** With unique gids, a cell is flagged exactly when it is one of the cells
      from ascending position BottomStart on. */
  lemma BottomFlagIff(cells: seq<Cell>, p: real, i: int)
    requires UniqueKeys(cells, GidOf) && 0 <= i < |cells|
    ensures BottomFlags(cells, p)[i] <==> cells[i] in BottomCells(cells, p)
  {
    var kept := BottomCells(cells, p);
    var gids := Column(kept, GidOf);
    assert BottomFlags(cells, p)[i] == (cells[i].gid in gids);
    if cells[i].gid in gids {
      BottomCellsFrom(cells, p);
      GidMatch(cells, kept, i);
    }
    if cells[i] in kept {
      var j :| 0 <= j < |kept| && kept[j] == cells[i];
      assert gids[j] == cells[i].gid;
    }
  }

  /** Every cell of BottomCells is a cell of the input. */
  lemma BottomCellsFrom(cells: seq<Cell>, p: real)
    ensures forall x :: x in BottomCells(cells, p) ==> x in cells
  {
    var sorted := Sort(cells, ValueOf, true);
    var k := BottomStart(|cells|, p);
    forall x | x in sorted[k..] ensures x in cells {
      assert x in multiset(sorted);
    }
  }

  /** With unique gids, a cell whose gid some cell of `kept` carries is in
      `kept`, when `kept` holds only cells of the input. */
  lemma GidMatch(cells: seq<Cell>, kept: seq<Cell>, i: int)
    requires UniqueKeys(cells, GidOf) && 0 <= i < |cells|
    requires forall x :: x in kept ==> x in cells
    requires cells[i].gid in Column(kept, GidOf)
    ensures cells[i] in kept
  {
    var gids := Column(kept, GidOf);
    var j :| 0 <= j < |gids| && gids[j] == cells[i].gid;
    assert kept[j] in kept;
    var m :| 0 <= m < |cells| && cells[m] == kept[j];
    assert GidOf(cells[m]) == GidOf(cells[i]);
  }

  /** Every flagged cell's value comes no earlier in the ascending order
      (missing values last) than every unflagged cell's value. */
  lemma BottomFlagsHigh(cells: seq<Cell>, p: real, i: int, j: int)
    requires UniqueKeys(cells, GidOf) && 0 <= i < |cells| && 0 <= j < |cells|
    requires BottomFlags(cells, p)[i] && !BottomFlags(cells, p)[j]
    ensures Le(cells[j].value, cells[i].value, true)
  {
    var sorted := Sort(cells, ValueOf, true);
    var k := BottomStart(|cells|, p);
    BottomFlagIff(cells, p, i);
    BottomFlagIff(cells, p, j);
    UnkeptBeforeStart(cells, p, cells[j]);
    SortedCut(sorted, ValueOf, true, k);
  }

  /** A cell of the input outside BottomCells sits before BottomStart in the
      ascending order. */
  lemma UnkeptBeforeStart(cells: seq<Cell>, p: real, c: Cell)
    requires c in cells && c !in BottomCells(cells, p)
    ensures c in Sort(cells, ValueOf, true)[..BottomStart(|cells|, p)]
  {
    var sorted := Sort(cells, ValueOf, true);
    var k := BottomStart(|cells|, p);
    assert BottomCells(cells, p) == sorted[k..];
    assert c in multiset(cells);
    assert c in sorted;
    var m :| 0 <= m < |sorted| && sorted[m] == c;
    assert m < k;
    assert sorted[..k][m] == c;
  }

  /** With unique gids exactly n - BottomStart cells are flagged. */
  lemma BottomFlagCount(cells: seq<Cell>, p: real)
    requires UniqueKeys(cells, GidOf)
    ensures CountIf(BottomFlags(cells, p), b => b) == |cells| - BottomStart(|cells|, p)
  {
    var sorted := Sort(cells, ValueOf, true);
    var k := BottomStart(|cells|, p);
    var inKept := (c: Cell) => c in sorted[k..];
    FlagsCount(cells, BottomFlags(cells, p), inKept, p);
    CountIfPerm(cells, sorted, inKept);
    UniqueKeysPerm(cells, sorted, GidOf);
    SuffixMembers(sorted, k, inKept);
    SuffixCount(sorted, k, inKept);
  }

  /** When exactly the positions from k on satisfy p, p counts |s| - k. */
  lemma SuffixCount<T>(s: seq<T>, k: int, p: T -> bool)
    requires 0 <= k <= |s|
    requires forall t :: 0 <= t < k ==> !p(s[t])
    requires forall t :: k <= t < |s| ==> p(s[t])
    ensures CountIf(s, p) == |s| - k
  {
    var pre, suf := s[..k], s[k..];
    assert s == pre + suf;
    CountIfConcat(pre, suf, p);
    assert forall t :: 0 <= t < |pre| ==> pre[t] == s[t];
    CountIfNone(pre, p);
    assert forall t :: 0 <= t < |suf| ==> suf[t] == s[k + t];
    CountIfAll(suf, p);
  }

  /** In a sequence of distinct-keyed cells, a cell before position k is not
      among the cells from k on, and a cell from k on is. */
  lemma SuffixMembers(s: seq<Cell>, k: int, inSuffix: Cell -> bool)
    requires UniqueKeys(s, GidOf) && 0 <= k <= |s|
    requires forall c :: inSuffix(c) <==> c in s[k..]
    ensures forall t :: 0 <= t < k ==> !inSuffix(s[t])
    ensures forall t :: k <= t < |s| ==> inSuffix(s[t])
  {
    forall t | 0 <= t < k ensures !inSuffix(s[t]) {
      PrefixNotInSuffix(s, k, t);
    }
    forall t | k <= t < |s| ensures inSuffix(s[t]) {
      assert s[k..][t - k] == s[t];
    }
  }

  lemma PrefixNotInSuffix(s: seq<Cell>, k: int, t: int)
    requires UniqueKeys(s, GidOf) && 0 <= t < k <= |s|
    ensures s[t] !in s[k..]
  {
    forall u | 0 <= u < |s| - k ensures s[k..][u] != s[t] {
      assert GidOf(s[t]) != GidOf(s[k + u]);
    }
  }

  lemma {:induction false} FlagsCount(cells: seq<Cell>, flags: seq<bool>, inKept: Cell -> bool, p: real)
    requires UniqueKeys(cells, GidOf) && flags == BottomFlags(cells, p)
    requires forall c :: inKept(c) <==> c in BottomCells(cells, p)
    ensures CountIf(flags, b => b) == CountIf(cells, inKept)
  {
    forall i | 0 <= i < |cells| ensures flags[i] == inKept(cells[i]) {
      BottomFlagIff(cells, p, i);
    }
    CountIfPointwise(flags, b => b, cells, inKept);
  }

  /** bottom_percent = 0 flags every cell, bottom_percent = 1 flags none. */
  lemma BottomExtremes(cells: seq<Cell>)
    ensures forall i :: 0 <= i < |cells| ==> BottomFlags(cells, 0.0)[i]
    ensures forall i :: 0 <= i < |cells| ==> !BottomFlags(cells, 1.0)[i]
  {
    var sorted := Sort(cells, ValueOf, true);
    assert BottomStart(|cells|, 0.0) == 0;
    assert BottomStart(|cells|, 1.0) == |cells|;
    assert BottomCells(cells, 0.0) == sorted;
    forall i | 0 <= i < |cells| ensures BottomFlags(cells, 0.0)[i] {
      assert cells[i] in multiset(sorted);
      var j :| 0 <= j < |sorted| && sorted[j] == cells[i];
      assert Column(sorted, GidOf)[j] == cells[i].gid;
    }
  }

  const Flagged := "#D62828"
  const Unflagged := "#D3D3D3"

  /** The `plot_color` column: red for a flagged cell, grey otherwise. */
  function PlotColors(flags: seq<bool>): (colors: seq<string>)
    ensures |colors| == |flags|
    ensures forall i :: 0 <= i < |flags| ==> (colors[i] == Flagged <==> flags[i]) && (colors[i] == Unflagged <==> !flags[i])
  {
    seq(|flags|, i requires 0 <= i < |flags| => if flags[i] then Flagged else Unflagged)
  }
}
