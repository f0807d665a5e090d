/** The medical-access preprocessing script: force the layer's coordinate
    system to EPSG:5179, keep the Gwangjin-gu cells (district code 11215),
    sort them by ascending accessibility value and keep the rows from
    position int(n * 0.5) on, the half the script calls least accessible. */
module Medical {
  import opened Tables
  import opened Ranking
  import opened Accessibility

  const TargetCrs := "EPSG:5179"
  const GwangjinCode := "11215"

  /** The script's selection, as the rows dropped and the rows kept: the
      kept rows are the last n - n/2 of the ascending order of the district's
      cells, so they hold the highest values (missing values last). */
  function SelectBottomHalf(cells: seq<Cell>): (r: (seq<Cell>, seq<Cell>))
    ensures var region := FilterRegionByCode(cells, GwangjinCode);
      |r.1| == |region| - |region| / 2 && |r.0| == |region| / 2
      && multiset(r.0) + multiset(r.1) == multiset(region)
      && SortedBy(r.1, ValueOf, true)
      && (forall x, y :: x in r.0 && y in r.1 ==> Le(x.value, y.value, true))
      && (forall y :: y in r.1 ==> y.sggCd == GwangjinCode)
  {
    var region := FilterRegionByCode(cells, GwangjinCode);
    var sorted := Sort(region, ValueOf, true);
    var half := Trunc(|sorted| as real * 0.5);
    TruncHalf(|sorted|);
    SortedSplit(sorted, ValueOf, true, half);
    forall y | y in sorted[half..] ensures y.sggCd == GwangjinCode {
      assert y in multiset(sorted);
      assert y in region;
    }
    (sorted[..half], sorted[half..])
  }

  /** The script run on a loaded layer: override the coordinate system and
      select; the layer's cells are not changed. */
  method Preprocess(layer: Layer) returns (kept: seq<Cell>)
    modifies layer
    ensures layer.crs == Some(TargetCrs) && layer.cells == old(layer.cells)
    ensures kept == SelectBottomHalf(layer.cells).1
  {
    var _ := layer.SetCrsIfDiffers(TargetCrs);
    kept := SelectBottomHalf(layer.cells).1;
  }
}
