/** The road-freezing layer: the weather grid points are reduced to one row
    per gid, each 500 m cell centroid is given the gid of its nearest point
    (a spatial join, taken here as input), the freezing counts are left-joined
    on gid, and the cells with the largest counts are coloured. */
module Freezing {
  import opened Tables
  import opened Ranking

  /** A row of the weather table, reduced to the columns kept: gid, lon, lat. */
  datatype WeatherPoint = WeatherPoint(gid: string, lon: real, lat: real)

  /** A row of the freezing-count table. */
  datatype FreezeCount = FreezeCount(gid: string, totalCount: Option<real>)

  /** A centroid after the nearest-point join: the gid it was given. */
  datatype Centroid = Centroid(gid: string)

  /** A centroid row after the merge. */
  datatype Enriched = Enriched(gid: string, totalCount: Option<real>)

  function PointGid(p: WeatherPoint): string {
    p.gid
  }

  /** `extract_unique_gid_coords`: `drop_duplicates(subset='gid')` keeps the
      first row of each gid, in input order. */
  function ExtractUniqueGidCoords(rows: seq<WeatherPoint>): (r: seq<WeatherPoint>)
    ensures forall i, j :: 0 <= i < j < |r| ==> r[i].gid != r[j].gid
    ensures forall x :: x in rows ==> exists y :: y in r && y.gid == x.gid
    ensures forall y :: y in r ==> FirstOfKey(rows, PointGid, y)
    ensures InAppearanceOrder(r, rows)
  {
    var r := DistinctBy(rows, PointGid);
    forall x | x in rows ensures exists y :: y in r && y.gid == x.gid {
      HasKeyIff(r, PointGid, x.gid);
    }
    r
  }

  function CentroidGid(c: Centroid): string {
    c.gid
  }

  function CountGid(f: FreezeCount): string {
    f.gid
  }

  function EnrichedOf(p: (Centroid, Option<FreezeCount>)): Enriched {
    Enriched(p.0.gid, if p.1.Some? then p.1.value.totalCount else None)
  }

  /** `merge_freezing_counts`: a left join on gid. Every centroid is kept, and
      each output row carries the count of a freezing row with its gid, or no
      count when there is none. */
  function MergeFreezingCounts(centroids: seq<Centroid>, counts: seq<FreezeCount>): (r: seq<Enriched>)
    ensures forall k :: 0 <= k < |r| ==> Centroid(r[k].gid) in centroids
    ensures forall k :: 0 <= k < |r| && r[k].totalCount.Some? ==> FreezeCount(r[k].gid, r[k].totalCount) in counts
    ensures forall k :: 0 <= k < |r| && r[k].totalCount.None? ==> FreezeCount(r[k].gid, None) in counts || forall f :: f in counts ==> f.gid != r[k].gid
    ensures forall c :: c in centroids ==> exists k :: 0 <= k < |r| && r[k].gid == c.gid
  {
    var joined := LeftJoin(centroids, CentroidGid, counts, CountGid);
    LeftJoinRows(centroids, CentroidGid, counts, CountGid);
    LeftJoinKeeps(centroids, CentroidGid, counts, CountGid);
    var r := seq(|joined|, k requires 0 <= k < |joined| => EnrichedOf(joined[k]));
    forall k | 0 <= k < |r| ensures Centroid(r[k].gid) in centroids {
      assert joined[k] in joined;
      assert joined[k].0 == Centroid(r[k].gid);
    }
    forall k | 0 <= k < |r| && r[k].totalCount.Some? ensures FreezeCount(r[k].gid, r[k].totalCount) in counts {
      assert joined[k] in joined;
    }
    forall k | 0 <= k < |r| && r[k].totalCount.None?
      ensures FreezeCount(r[k].gid, None) in counts || forall f :: f in counts ==> f.gid != r[k].gid
    {
      assert joined[k] in joined;
    }
    forall c | c in centroids ensures exists k :: 0 <= k < |r| && r[k].gid == c.gid {
      var o :| o in joined && o.0 == c;
      var k :| 0 <= k < |joined| && joined[k] == o;
      assert r[k].gid == c.gid;
    }
    r
  }

  /** With one count row per gid the merge keeps the centroids one for one,
      in order, so the positional copy in `visualize_result` lines up. */
  lemma MergeOneForOne(centroids: seq<Centroid>, counts: seq<FreezeCount>)
    requires UniqueKeys(counts, CountGid)
    ensures var r := MergeFreezingCounts(centroids, counts);
      |r| == |centroids|
      && forall i :: 0 <= i < |r| ==>
           (r[i].gid == centroids[i].gid
            && r[i].totalCount == (var l := Lookup(counts, CountGid, centroids[i].gid); if l.Some? then l.value.totalCount else None))
  {
    LeftJoinUnique(centroids, CentroidGid, counts, CountGid);
  }

  /** With one count row per gid, merged rows that share a gid (several
      centroids given one nearest point) share its count. */
  lemma MergeFixesCount(centroids: seq<Centroid>, counts: seq<FreezeCount>)
    requires UniqueKeys(counts, CountGid)
    ensures IdFixesKey(MergeFreezingCounts(centroids, counts), EnrichedGid, EnrichedTotal)
  {
    var r := MergeFreezingCounts(centroids, counts);
    MergeOneForOne(centroids, counts);
    forall a, b | a in r && b in r && EnrichedGid(a) == EnrichedGid(b) ensures EnrichedTotal(a) == EnrichedTotal(b) {
      var p :| 0 <= p < |r| && r[p] == a;
      var q :| 0 <= q < |r| && r[q] == b;
      assert centroids[p].gid == centroids[q].gid;
    }
  }

  /** Two count rows of one gid that a centroid has duplicate that centroid,
      so the positional copy fails. */
  lemma DuplicateCountGrows(c: Centroid, a: FreezeCount, b: FreezeCount)
    requires a.gid == c.gid && b.gid == c.gid
    ensures |MergeFreezingCounts([c], [a, b])| == 2
  {
    MatchesAll([a, b], CountGid, c.gid);
    var joined := LeftJoin([c], CentroidGid, [a, b], CountGid);
    assert [c][1..] == [];
    assert LeftJoin([], CentroidGid, [a, b], CountGid) == [];
    assert MatchesOf([a, b], CountGid, CentroidGid([c][0])) == [a, b];
    assert |joined| == 2;
    assert |MergeFreezingCounts([c], [a, b])| == |joined|;
  }

  const TopColor := "#003B8E"
  const OtherColor := "#D3D3D3"

  function EnrichedGid(e: Enriched): string {
    e.gid
  }

  function EnrichedTotal(e: Enriched): Option<real> {
    e.totalCount
  }

  /** The colour column: blue for the cells whose gid is among the gids of
      `nlargest(int(n * top_percent), 'total_count')`, grey otherwise. */
  function FreezeColors(rows: seq<Enriched>, topPercent: real): seq<string> {
    ColorTop(rows, Trunc(|rows| as real * topPercent), EnrichedTotal, EnrichedGid, TopColor, OtherColor)
  }

  /** When cells sharing a gid share its count (the nearest-point join gives
      several cells one gid, and the merge copies that gid's count to each), a
      blue cell has a count, fewer than top_n cells have a larger one, and
      every grey cell with a count has one no larger. */
  lemma BlueAreLargest(rows: seq<Enriched>, topPercent: real, i: int, j: int)
    requires IdFixesKey(rows, EnrichedGid, EnrichedTotal)
    requires 0 <= i < |rows| && 0 <= j < |rows|
    requires FreezeColors(rows, topPercent)[i] == TopColor
    ensures rows[i].totalCount.Some?
    ensures CountIf(rows, Above(EnrichedTotal, rows[i].totalCount.value)) < Trunc(|rows| as real * topPercent)
    ensures FreezeColors(rows, topPercent)[j] == OtherColor && rows[j].totalCount.Some?
            ==> rows[j].totalCount.value <= rows[i].totalCount.value
  {
    ColoredTopAreLargest(rows, Trunc(|rows| as real * topPercent), EnrichedTotal, EnrichedGid, TopColor, OtherColor, i, j);
  }

  /** The 500 m grid frame `visualize_result` draws: one geometry per cell and
      the columns it assigns. */
  class FreezeMap {
    var cellCount: nat
    var gid: Option<seq<string>>
    var totalCount: Option<seq<Option<real>>>
    var plotColor: Option<seq<string>>

    constructor (cellCount: nat)
      ensures this.cellCount == cellCount && gid.None? && totalCount.None? && plotColor.None?
    {
      this.cellCount := cellCount;
      gid := None;
      totalCount := None;
      plotColor := None;
    }

    /** `visualize_result`: gid and total_count are copied from the enriched
        rows by position, which pandas refuses (a ValueError, nothing
        changed) when the lengths differ; then the colour column is set. */
    method VisualizeResult(enriched: seq<Enriched>, topPercent: real) returns (err: Option<string>)
      modifies this
      ensures cellCount == old(cellCount)
      ensures |enriched| != cellCount ==>
        err == Some("ValueError: Length of values does not match length of index")
        && gid == old(gid) && totalCount == old(totalCount) && plotColor == old(plotColor)
      ensures |enriched| == cellCount ==>
        err.None? && gid == Some(Column(enriched, EnrichedGid)) && totalCount == Some(Column(enriched, EnrichedTotal))
        && plotColor == Some(FreezeColors(enriched, topPercent))
    {
      if |enriched| != cellCount {
        return Some("ValueError: Length of values does not match length of index");
      }
      gid := Some(Column(enriched, EnrichedGid));
      totalCount := Some(Column(enriched, EnrichedTotal));
      plotColor := Some(FreezeColors(enriched, topPercent));
      err := None;
    }
  }
}
