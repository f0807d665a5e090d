/** The road layers drawn over the protected cells: the edges lying in the
    cells (an overlay, which is geometry and taken as input) whose normalised
    name holds one of a list of road names — a fixed list of 13 for the
    protected roads, the 도로명 column of a table for bus routes and road
    widths — and the two-column export of those edges. */
module RoadLayers {
  import opened Tables
  import opened Text
  import opened RoadNames

  /** The protected road names the protected-road maps look for. */
  const SafeRoadNames: seq<string> := [
    "긴고랑로36길", "아차산로70길", "광장로1길", "영화사로", "뚝섬로64길",
    "용마산로22길", "천호대로113길", "광장로7길", "긴고랑로13길", "자양로44길",
    "능동로4길", "자양로50길", "워커힐로"
  ]

  /** `safe_edges` of the protected-road maps: the overlaid edges whose name
      is text holding one of the 13 names, in order. */
  function ProtectedRoads(overlaid: seq<RoadEdge>): (r: seq<RoadEdge>)
    ensures Subseq(r, overlaid)
    ensures forall e :: e in r <==>
      e in overlaid && e.roadName.Str? && exists k :: 0 <= k < |SafeRoadNames| && Contains(e.roadName.s, SafeRoadNames[k])
    ensures |r| == CountIf(overlaid, EdgeMatches(SafeRoadNames))
  {
    var r := KeepMatching(overlaid, SafeRoadNames);
    forall e | e in overlaid && e.roadName.Str? && (exists k :: 0 <= k < |SafeRoadNames| && Contains(e.roadName.s, SafeRoadNames[k]))
      ensures e in r
    {
      var k :| 0 <= k < |SafeRoadNames| && Contains(e.roadName.s, SafeRoadNames[k]);
      assert SafeRoadNames[k] in SafeRoadNames;
    }
    r
  }

  /** The 13 names are distinct, so none is listed twice. */
  lemma SafeRoadNamesDistinct()
    ensures |SafeRoadNames| == 13 && NoDups(SafeRoadNames)
  {
  }

  /** `safe_edges` of the bus-route and road-width maps: the overlaid edges
      whose name is text holding some present 도로명 value of the table, in
      order. */
  function ListedRoads(column: seq<Option<string>>, overlaid: seq<RoadEdge>): (r: seq<RoadEdge>)
    ensures Subseq(r, overlaid)
    ensures forall e :: e in r <==>
      e in overlaid && e.roadName.Str? && exists v :: Some(v) in column && Contains(e.roadName.s, v)
    ensures |r| == CountIf(overlaid, EdgeMatches(DistinctNames(column)))
  {
    var names := DistinctNames(column);
    var r := KeepMatching(overlaid, names);
    forall e | e in overlaid && e.roadName.Str? && (exists v :: Some(v) in column && Contains(e.roadName.s, v))
      ensures e in r
    {
      var v :| Some(v) in column && Contains(e.roadName.s, v);
      assert v in names;
    }
    r
  }

  /** The whole chain of the protected-road maps from the raw osmnx names:
      an overlaid edge with a list name is kept when one of its parts holds a
      protected name. */
  lemma ListNameKept(raw: seq<RoadEdge>, i: int, k: int, j: int)
    requires 0 <= i < |raw| && raw[i].roadName.List?
    requires 0 <= k < |raw[i].roadName.parts| && 0 <= j < |SafeRoadNames|
    requires Contains(raw[i].roadName.parts[k], SafeRoadNames[j])
    ensures WithRoadNames(raw)[i] in ProtectedRoads(WithRoadNames(raw))
  {
    var named := WithRoadNames(raw);
    JoinedMatchesPart(raw[i].roadName.parts, SafeRoadNames, k, SafeRoadNames[j]);
    assert named[i] in named;
  }
}
