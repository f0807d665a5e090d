/** Road-name handling shared by the road scripts: OSM edge names that are
    lists are joined with ", ", an edge is kept when its name is text holding
    one of the listed names, and name lists are the distinct non-null values
    of a 도로명 column. */
module RoadNames {
  import opened Tables
  import opened Text

  /** An edge's `name` as osmnx gives it: text, a list of texts, or missing
      (NaN). */
  datatype RawName = Str(s: string) | List(parts: seq<string>) | Missing

  /** An edge geometry, carried along unchanged. */
  datatype Shape = Shape(wkt: string)

  /** An edge after `edges["road_name"] = ...`, reduced to the two columns the
      scripts use. */
  datatype RoadEdge = RoadEdge(roadName: RawName, geometry: Shape)

  const Separator := ", "

  /** `", ".join(x) if isinstance(x, list) else x`. */
  function Normalise(x: RawName): (r: RawName)
    ensures x.List? ==> r == Str(JoinWith(x.parts, Separator))
    ensures !x.List? ==> r == x
    ensures !r.List?
  {
    if x.List? then Str(JoinWith(x.parts, Separator)) else x
  }

  /** The `road_name` column: every edge's name normalised, order and
      geometry kept. */
  function WithRoadNames(edges: seq<RoadEdge>): (r: seq<RoadEdge>)
    ensures |r| == |edges|
    ensures forall k :: 0 <= k < |r| ==> r[k] == RoadEdge(Normalise(edges[k].roadName), edges[k].geometry)
  {
    seq(|edges|, k requires 0 <= k < |edges| => RoadEdge(Normalise(edges[k].roadName), edges[k].geometry))
  }

  /** Normalising twice changes nothing more. */
  lemma NormaliseIdempotent(x: RawName)
    ensures Normalise(Normalise(x)) == Normalise(x)
  {
  }

  /** Every listed part lies inside the joined text. */
  lemma {:induction false} PartInJoin(parts: seq<string>, sep: string, k: int)
    requires 0 <= k < |parts|
    ensures Contains(JoinWith(parts, sep), parts[k])
  {
    var j := JoinWith(parts, sep);
    if |parts| == 1 {
      SliceContained(j, 0, |j|);
      assert j[0..|j|] == j;
    } else if k == 0 {
      assert j == parts[0] + (sep + JoinWith(parts[1..], sep));
      assert j[..|parts[0]|] == parts[0];
      SliceContained(j, 0, |parts[0]|);
    } else {
      var rest := JoinWith(parts[1..], sep);
      assert j == (parts[0] + sep) + rest;
      PartInJoin(parts[1..], sep, k - 1);
      assert j[|parts[0] + sep|..|j|] == rest;
      SliceContained(j, |parts[0] + sep|, |j|);
      ContainsTrans(j, rest, parts[k]);
    }
  }

  /** `any(rd in name for rd in names) if isinstance(name, str) else False`. */
  predicate Matches(name: RawName, names: seq<string>) {
    name.Str? && exists rd :: rd in names && Contains(name.s, rd)
  }

  /** A name that is not text never matches. */
  lemma NonTextNeverMatches(name: RawName, names: seq<string>)
    requires !name.Str?
    ensures !Matches(name, names)
  {
  }

  /** A joined list name matches when any one of its parts contains a listed
      name. */
  lemma JoinedMatchesPart(parts: seq<string>, names: seq<string>, k: int, rd: string)
    requires 0 <= k < |parts| && rd in names && Contains(parts[k], rd)
    ensures Matches(Normalise(List(parts)), names)
  {
    PartInJoin(parts, Separator, k);
    ContainsTrans(JoinWith(parts, Separator), parts[k], rd);
  }

  function EdgeMatches(names: seq<string>): RoadEdge -> bool {
    (e: RoadEdge) => Matches(e.roadName, names)
  }

  /** The boolean filter on `road_name`: the matching edges, in order. */
  function KeepMatching(edges: seq<RoadEdge>, names: seq<string>): (r: seq<RoadEdge>)
    ensures Subseq(r, edges)
    ensures forall e :: e in r <==> e in edges && Matches(e.roadName, names)
    ensures forall e :: e in r ==> e.roadName.Str?
    ensures |r| == CountIf(edges, EdgeMatches(names))
  {
    CountIfFilter(edges, EdgeMatches(names));
    Filter(edges, EdgeMatches(names))
  }

  /** `df["도로명"].dropna().unique().tolist()`: each present value once, in
      order of first appearance. */
  function DistinctNames(column: seq<Option<string>>): (r: seq<string>)
    ensures NoDups(r)
    ensures forall x :: x in r <==> Some(x) in column
    ensures forall i, j :: 0 <= i < j < |r| ==> IndexOf(column, Some(r[i])) < IndexOf(column, Some(r[j]))
  {
    var present := Present(column);
    var r := Distinct(present);
    forall i, j | 0 <= i < j < |r| ensures IndexOf(column, Some(r[i])) < IndexOf(column, Some(r[j])) {
      PresentOrder(column, r[i], r[j]);
    }
    r
  }

  /** `dropna()`: the present values, in order. */
  function Present(column: seq<Option<string>>): (r: seq<string>)
    ensures forall x :: x in r <==> Some(x) in column
  {
    if |column| == 0 then []
    else
      var init := Present(column[..|column| - 1]);
      assert column == column[..|column| - 1] + [column[|column| - 1]];
      match column[|column| - 1]
      case None => init
      case Some(x) => init + [x]
  }

  /** Dropping the missing values keeps the order of first appearances. */
  lemma {:induction false} PresentOrder(column: seq<Option<string>>, a: string, b: string)
    requires a in Present(column) && b in Present(column)
    requires IndexOf(Present(column), a) < IndexOf(Present(column), b)
    ensures IndexOf(column, Some(a)) < IndexOf(column, Some(b))
  {
    var n := |column| - 1;
    var init := column[..n];
    assert column == init + [column[n]];
    var pi := Present(init);
    if Some(b) in init {
      IndexOfPrefix(column, n, Some(b));
      IndexOfPrefix(column, n, Some(a));
      if column[n].Some? {
        IndexOfPrefix(pi + [column[n].value], |pi|, a);
        IndexOfPrefix(pi + [column[n].value], |pi|, b);
        assert (pi + [column[n].value])[..|pi|] == pi;
      }
      PresentOrder(init, a, b);
    } else {
      assert column[n] == Some(b);
      assert IndexOf(column, Some(b)) == n;
      assert a != b;
      assert Some(a) in init;
      IndexOfPrefix(column, n, Some(a));
    }
  }

  /** The two-column export `safe_edges[["road_name", "geometry"]]` without an
      index: one line per kept edge, in order. */
  datatype ExportRow = ExportRow(roadName: string, geometry: Shape)

  function ExportRows(kept: seq<RoadEdge>): (r: seq<ExportRow>)
    requires forall e :: e in kept ==> e.roadName.Str?
    ensures |r| == |kept|
    ensures forall k :: 0 <= k < |r| ==> r[k] == ExportRow(kept[k].roadName.s, kept[k].geometry)
  {
    seq(|kept|, k requires 0 <= k < |kept| => assert kept[k] in kept; ExportRow(kept[k].roadName.s, kept[k].geometry))
  }
}
