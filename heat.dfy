/** The heated-road scripts: the protected-area edges whose name holds one of
    the heated road names are narrowed to one target road, single segments
    are appended to an output file that gets its header once, and the
    validation script summarises the matched edges by road name. */
module HeatRoads {
  import opened Tables
  import opened Text
  import opened RoadNames
  import opened RoadLayers

  function TargetFilter(target: string): RoadEdge -> bool {
    (e: RoadEdge) => e.roadName.Str? && Contains(e.roadName.s, target)
  }

  const RoadNameColumn := "도로명"

  /** `df[name]` on a table read from CSV: the cells under the first header
      equal to `name` (cells past a short row read as missing); a KeyError
      when no header is `name`. */
  function ColumnOf(header: seq<string>, rows: seq<seq<Option<string>>>, name: string): (r: Result<seq<Option<string>>>)
    ensures r.Ok? <==> name in header
    ensures r.Ok? ==> |r.value| == |rows| && forall i :: 0 <= i < |rows| ==>
      var c := IndexOf(header, name);
      r.value[i] == if c < |rows[i]| then rows[i][c] else None
  {
    if name !in header then Err("KeyError: '" + name + "'")
    else
      var c := IndexOf(header, name);
      Ok(seq(|rows|, i requires 0 <= i < |rows| => if c < |rows[i]| then rows[i][c] else None))
  }

  /** `load_filtered_edges`: the heated road table's 도로명 column, looked up
      under its header as read (no strip), then stage 1 keeps the overlaid
      edges whose name holds a heated road name and stage 2 those whose name
      holds the target (`str.contains(target, na=False)`, the target taken
      as plain text). */
  function LoadFilteredEdges(header: seq<string>, rows: seq<seq<Option<string>>>, overlaid: seq<RoadEdge>, target: string): (r: Result<seq<RoadEdge>>)
    ensures r.Err? <==> RoadNameColumn !in header
    ensures r.Ok? ==> Subseq(r.value, ListedRoads(ColumnOf(header, rows, RoadNameColumn).value, overlaid))
    ensures r.Ok? ==> forall e :: e in r.value <==>
      e in overlaid && e.roadName.Str? && Contains(e.roadName.s, target)
      && exists v :: Some(v) in ColumnOf(header, rows, RoadNameColumn).value && Contains(e.roadName.s, v)
    ensures r.Ok? ==> |r.value| == CountIf(ListedRoads(ColumnOf(header, rows, RoadNameColumn).value, overlaid), TargetFilter(target))
  {
    var column := ColumnOf(header, rows, RoadNameColumn);
    if column.Err? then Err(column.error)
    else
      CountIfFilter(ListedRoads(column.value, overlaid), TargetFilter(target));
      Ok(Filter(ListedRoads(column.value, overlaid), TargetFilter(target)))
  }

  /** Unlike the validation script, the loader does not strip its header: a
      padded 도로명 header is a KeyError there. */
  lemma PaddedHeaderMissedByLoader(overlaid: seq<RoadEdge>, target: string)
    ensures LoadFilteredEdges([" 도로명"], [], overlaid, target).Err?
    ensures HeatColumn([" 도로명"], []).Ok?
  {
    assert " 도로명"[1..] == RoadNameColumn;
    PaddedHeaderFound([" 도로명"], 0);
  }

  /** A line of the segment CSV: the header, or one road_name/geometry row. */
  datatype CsvLine = Header | Row(roadName: RawName, geometry: Shape)

  /** The file after one save: a header and the row when the file does not
      exist yet, the row appended otherwise. */
  function AfterSave(file: Option<seq<CsvLine>>, e: RoadEdge): (r: seq<CsvLine>)
    ensures file.None? ==> r == [Header, Row(e.roadName, e.geometry)]
    ensures file.Some? ==> r == file.value + [Row(e.roadName, e.geometry)]
  {
    if file.None? then [Header, Row(e.roadName, e.geometry)] else file.value + [Row(e.roadName, e.geometry)]
  }

  /** The file after saving the given segments one after the other. */
  function SaveAll(file: Option<seq<CsvLine>>, segments: seq<RoadEdge>): Option<seq<CsvLine>>
    decreases |segments|
  {
    if |segments| == 0 then file
    else SaveAll(Some(AfterSave(file, segments[0])), segments[1..])
  }

  function RowLines(segments: seq<RoadEdge>): (r: seq<CsvLine>)
    ensures |r| == |segments| && forall k :: 0 <= k < |r| ==> r[k] == Row(segments[k].roadName, segments[k].geometry)
  {
    if |segments| == 0 then []
    else [Row(segments[0].roadName, segments[0].geometry)] + RowLines(segments[1..])
  }

  /** Saving to an existing file appends one row per segment. */
  lemma {:induction false} SaveAllExisting(lines: seq<CsvLine>, segments: seq<RoadEdge>)
    ensures SaveAll(Some(lines), segments) == Some(lines + RowLines(segments))
    decreases |segments|
  {
    if |segments| == 0 {
      assert lines + RowLines(segments) == lines;
    } else {
      var row := Row(segments[0].roadName, segments[0].geometry);
      SaveAllExisting(lines + [row], segments[1..]);
      assert (lines + [row]) + RowLines(segments[1..]) == lines + ([row] + RowLines(segments[1..]));
    }
  }

  /** k saves to a fresh path leave one header followed by the k rows, in
      order. */
  lemma FreshSaves(segments: seq<RoadEdge>)
    requires |segments| > 0
    ensures SaveAll(None, segments) == Some([Header] + RowLines(segments))
  {
    var row := Row(segments[0].roadName, segments[0].geometry);
    var rest := RowLines(segments[1..]);
    assert SaveAll(None, segments) == SaveAll(Some([Header, row]), segments[1..]);
    SaveAllExisting([Header, row], segments[1..]);
    assert RowLines(segments) == [row] + rest;
    assert [Header, row] == [Header] + [row];
    AppendAssoc([Header], [row], rest);
  }

  /** So the file holds exactly one header, at the top, and k rows. */
  lemma OneHeader(segments: seq<RoadEdge>)
    requires |segments| > 0
    ensures SaveAll(None, segments).Some?
    ensures var lines := SaveAll(None, segments).value;
      |lines| == |segments| + 1 && lines[0] == Header && forall k :: 1 <= k < |lines| ==> lines[k].Row?
  {
    FreshSaves(segments);
    var lines := [Header] + RowLines(segments);
    assert forall k :: 1 <= k < |lines| ==> lines[k] == RowLines(segments)[k - 1];
  }

  /** Python's index into a sequence of length n: negative indices count from
      the end. */
  function PyIndex(index: int, n: nat): (r: Option<nat>)
    ensures r.Some? <==> -(n as int) <= index < n
    ensures r.Some? ==> r.value < n && (r.value == index || r.value == index + n)
  {
    if 0 <= index < n then Some(index)
    else if -(n as int) <= index < 0 then Some(index + n)
    else None
  }

  /** The output path of `save_segment_by_index`: absent, or its lines. */
  class SegmentFile {
    var content: Option<seq<CsvLine>>

    constructor ()
      ensures content.None?
    {
      content := None;
    }

    /** `save_segment_by_index`: the row at the (Python) position, restricted
        to road_name and geometry, written with a header when the file does
        not exist and appended without one when it does; an IndexError and no
        write when the position is out of range. */
    method SaveSegmentByIndex(gdf: seq<RoadEdge>, index: int) returns (err: Option<string>)
      modifies this
      ensures PyIndex(index, |gdf|).None? ==>
        err == Some("IndexError: positional indexers are out-of-bounds") && content == old(content)
      ensures PyIndex(index, |gdf|).Some? ==>
        err.None? && content == Some(AfterSave(old(content), gdf[PyIndex(index, |gdf|).value]))
    {
      var position := PyIndex(index, |gdf|);
      if position.None? {
        return Some("IndexError: positional indexers are out-of-bounds");
      }
      var segment := gdf[position.value];
      if content.Some? {
        content := Some(content.value + [Row(segment.roadName, segment.geometry)]);
      } else {
        content := Some([Header, Row(segment.roadName, segment.geometry)]);
      }
      err := None;
    }
  }

  // The validation script.

  /** `df_heat.columns.str.strip()`: every header name stripped. */
  function StripHeader(columns: seq<string>): (r: seq<string>)
    ensures |r| == |columns|
    ensures forall k :: 0 <= k < |r| ==> r[k] == Strip(columns[k])
  {
    seq(|columns|, k requires 0 <= k < |columns| => Strip(columns[k]))
  }

  /** Stripping the header a second time changes nothing. */
  lemma StripHeaderIdempotent(columns: seq<string>)
    ensures StripHeader(StripHeader(columns)) == StripHeader(columns)
  {
    forall k | 0 <= k < |columns| ensures Strip(Strip(columns[k])) == Strip(columns[k]) {
      StripIdempotent(columns[k]);
    }
  }

  /** `df_heat["도로명"]` after the strip: the column under the first header
      that strips to 도로명 (cells past a short row read as missing); a
      KeyError when there is none. */
  function HeatColumn(header: seq<string>, rows: seq<seq<Option<string>>>): (r: Result<seq<Option<string>>>)
    ensures r.Ok? <==> RoadNameColumn in StripHeader(header)
    ensures r.Ok? ==> |r.value| == |rows| && forall i :: 0 <= i < |rows| ==>
      var c := IndexOf(StripHeader(header), RoadNameColumn);
      r.value[i] == if c < |rows[i]| then rows[i][c] else None
  {
    ColumnOf(StripHeader(header), rows, RoadNameColumn)
  }

  /** A header with surrounding spaces is still found. */
  lemma PaddedHeaderFound(header: seq<string>, k: int)
    requires 0 <= k < |header| && Strip(header[k]) == RoadNameColumn
    ensures HeatColumn(header, []).Ok?
  {
    assert StripHeader(header)[k] == RoadNameColumn;
  }

  /** The OSM edges frame the validation script reads: its column names and
      its rows (`name` kept as osmnx gives it). */
  datatype EdgeFrame = EdgeFrame(columns: set<string>, edges: seq<RoadEdge>)

  /** The columns of the edges `graph_to_gdfs` returns that matter here: the
      name is under `name`; nothing in the script adds `road_name`. */
  function OsmEdges(edges: seq<RoadEdge>): EdgeFrame {
    EdgeFrame({"name", "geometry"}, edges)
  }

  /** The match as written: it reads `edges["road_name"]`, a KeyError unless
      the frame already has that column. */
  function MatchedAsWritten(frame: EdgeFrame, heatNames: seq<string>): (r: Result<seq<RoadEdge>>)
    ensures "road_name" !in frame.columns ==> r == Err("KeyError: 'road_name'")
    ensures "road_name" in frame.columns ==> r == Ok(KeepMatching(frame.edges, heatNames))
  {
    if "road_name" !in frame.columns then Err("KeyError: 'road_name'")
    else Ok(KeepMatching(frame.edges, heatNames))
  }

  /** On the frame the script actually builds the match always fails. */
  lemma MatchFailsOnOsmEdges(edges: seq<RoadEdge>, heatNames: seq<string>)
    ensures MatchedAsWritten(OsmEdges(edges), heatNames).Err?
  {
  }

  /** The match as the other heated-road script does it: the names are first
      normalised into road_name, then matched. A list name is matched through
      its parts. */
  function Matched(edges: seq<RoadEdge>, heatNames: seq<string>): (r: seq<RoadEdge>)
    ensures Subseq(r, WithRoadNames(edges))
    ensures forall e :: e in r <==> e in WithRoadNames(edges) && Matches(e.roadName, heatNames)
    ensures forall e :: e in r ==> e.roadName.Str?
    ensures |r| == CountIf(WithRoadNames(edges), EdgeMatches(heatNames))
  {
    KeepMatching(WithRoadNames(edges), heatNames)
  }

  /** The corrected match keeps every edge whose own text name holds a heated
      name, and a list-named edge when one of its parts does. */
  lemma MatchedKeeps(edges: seq<RoadEdge>, heatNames: seq<string>, i: int, k: int, rd: string)
    requires 0 <= i < |edges| && rd in heatNames
    requires edges[i].roadName.Str? ==> Contains(edges[i].roadName.s, rd)
    requires edges[i].roadName.List? ==> 0 <= k < |edges[i].roadName.parts| && Contains(edges[i].roadName.parts[k], rd)
    requires !edges[i].roadName.Missing?
    ensures WithRoadNames(edges)[i] in Matched(edges, heatNames)
  {
    var named := WithRoadNames(edges);
    if edges[i].roadName.List? {
      JoinedMatchesPart(edges[i].roadName.parts, heatNames, k, rd);
    }
    assert named[i] in named;
  }

  /** A row of `matched_summary`: a road name and its segment count. */
  datatype SummaryRow = SummaryRow(roadName: string, segments: nat)

  /** How often x occurs in s. */
  function Occurrences(s: seq<string>, x: string): nat {
    if |s| == 0 then 0
    else Occurrences(s[..|s| - 1], x) + (if s[|s| - 1] == x then 1 else 0)
  }

  lemma {:induction false} OccurrencesPositive(s: seq<string>, x: string)
    requires x in s
    ensures Occurrences(s, x) >= 1
  {
    var n := |s| - 1;
    if s[n] != x {
      assert s == s[..n] + [s[n]];
      OccurrencesPositive(s[..n], x);
    }
  }

  /** The sum of the counts of the given keys. */
  function SumOccurrences(keys: seq<string>, names: seq<string>): nat {
    if |keys| == 0 then 0
    else SumOccurrences(keys[..|keys| - 1], names) + Occurrences(names, keys[|keys| - 1])
  }

  function SumSegments(rows: seq<SummaryRow>): nat {
    if |rows| == 0 then 0 else SumSegments(rows[..|rows| - 1]) + rows[|rows| - 1].segments
  }

  lemma {:induction false} SumOccurrencesAppend(keys: seq<string>, names: seq<string>, x: string)
    ensures SumOccurrences(keys, names + [x]) == SumOccurrences(keys, names) + Occurrences(keys, x)
  {
    if |keys| > 0 {
      var n := |keys| - 1;
      SumOccurrencesAppend(keys[..n], names, x);
      assert (names + [x])[..|names|] == names;
    }
  }

  lemma {:induction false} OccurrencesOnce(keys: seq<string>, x: string)
    requires NoDups(keys) && x in keys
    ensures Occurrences(keys, x) == 1
  {
    var n := |keys| - 1;
    if keys[n] == x {
      OccurrencesNone(keys[..n], x);
    } else {
      assert keys == keys[..n] + [keys[n]];
      OccurrencesOnce(keys[..n], x);
    }
  }

  lemma {:induction false} OccurrencesNone(s: seq<string>, x: string)
    requires x !in s
    ensures Occurrences(s, x) == 0
  {
    if |s| > 0 {
      var n := |s| - 1;
      assert s == s[..n] + [s[n]];
      OccurrencesNone(s[..n], x);
    }
  }

  /** Counting every distinct key of the names counts every name once. */
  lemma {:induction false} SumOccurrencesAll(keys: seq<string>, names: seq<string>)
    requires NoDups(keys) && forall x :: x in names ==> x in keys
    ensures SumOccurrences(keys, names) == |names|
  {
    if |names| == 0 {
      SumOccurrencesEmpty(keys, names);
    } else {
      var n := |names| - 1;
      assert names == names[..n] + [names[n]];
      SumOccurrencesAll(keys, names[..n]);
      SumOccurrencesAppend(keys, names[..n], names[n]);
      OccurrencesOnce(keys, names[n]);
    }
  }

  lemma {:induction false} SumOccurrencesEmpty(keys: seq<string>, names: seq<string>)
    requires |names| == 0
    ensures SumOccurrences(keys, names) == 0
  {
    if |keys| > 0 {
      SumOccurrencesEmpty(keys[..|keys| - 1], names);
    }
  }

  /** A permutation of a list without repeats has no repeats. */
  lemma PermutationNoDups(a: seq<string>, b: seq<string>)
    requires NoDups(a) && multiset(a) == multiset(b)
    ensures NoDups(b)
  {
    forall i, j | 0 <= i < j < |b| ensures b[i] != b[j] {
      if b[i] == b[j] {
        assert b == b[..i] + [b[i]] + b[i + 1..j] + [b[j]] + b[j + 1..];
        assert multiset(b)[b[i]] >= 2;
        NoDupsOnce(a, b[i]);
      }
    }
  }

  lemma {:induction false} NoDupsOnce(a: seq<string>, x: string)
    requires NoDups(a)
    ensures multiset(a)[x] <= 1
  {
    if |a| > 0 {
      var n := |a| - 1;
      assert a == a[..n] + [a[n]];
      NoDupsOnce(a[..n], x);
      if a[n] == x {
        assert x !in a[..n];
      }
    }
  }

  function NamesOf(matched: seq<RoadEdge>): (r: seq<string>)
    requires forall e :: e in matched ==> e.roadName.Str?
    ensures |r| == |matched| && forall i :: 0 <= i < |r| ==> r[i] == matched[i].roadName.s
  {
    seq(|matched|, i requires 0 <= i < |matched| => assert matched[i] in matched; matched[i].roadName.s)
  }

  function SummaryRows(keys: seq<string>, names: seq<string>): (r: seq<SummaryRow>)
    ensures |r| == |keys| && forall k :: 0 <= k < |r| ==> r[k] == SummaryRow(keys[k], Occurrences(names, keys[k]))
    ensures SumSegments(r) == SumOccurrences(keys, names)
  {
    if |keys| == 0 then []
    else
      var init := SummaryRows(keys[..|keys| - 1], names);
      init + [SummaryRow(keys[|keys| - 1], Occurrences(names, keys[|keys| - 1]))]
  }

  /** The distinct names in ascending order: no repeats, strictly
      increasing, and exactly the names present. */
  function SortedKeys(names: seq<string>): (keys: seq<string>)
    ensures NoDups(keys)
    ensures forall x :: x in keys <==> x in names
    ensures forall i, j :: 0 <= i < j < |keys| ==> StrLess(keys[i], keys[j])
  {
    var distinct := Distinct(names);
    var keys := StrSort(distinct);
    PermutationNoDups(distinct, keys);
    forall x | x in names ensures x in keys {
      assert x in multiset(distinct);
    }
    forall x | x in keys ensures x in names {
      assert x in multiset(distinct);
    }
    forall i, j | 0 <= i < j < |keys| ensures StrLess(keys[i], keys[j]) {
      StrLessTotal(keys[i], keys[j]);
    }
    keys
  }

  /** `value_counts()` of the matched road names, then `sort_values("도로명")`:
      one row per distinct matched name, strictly ascending by name (so the
      order does not depend on how value_counts ordered ties), each with its
      number of segments, the counts summing to the number of matched edges. */
  function Summary(names: seq<string>): (r: seq<SummaryRow>)
    ensures forall k :: 0 <= k < |r| ==> r[k].segments == Occurrences(names, r[k].roadName) && r[k].segments >= 1
    ensures forall x :: (exists k :: 0 <= k < |r| && r[k].roadName == x) <==> x in names
    ensures forall i, j :: 0 <= i < j < |r| ==> StrLess(r[i].roadName, r[j].roadName)
    ensures SumSegments(r) == |names|
  {
    var keys := SortedKeys(names);
    SumOccurrencesAll(keys, names);
    var r := SummaryRows(keys, names);
    SummaryRowsPositive(keys, names, r);
    SummaryRowsCover(keys, names, r);
    SummaryRowsSorted(keys, names, r);
    r
  }

  /** A row for a name that occurs counts at least one segment. */
  lemma SummaryRowsPositive(keys: seq<string>, names: seq<string>, r: seq<SummaryRow>)
    requires forall x :: x in keys ==> x in names
    requires r == SummaryRows(keys, names)
    ensures forall k :: 0 <= k < |r| ==> r[k].segments >= 1
  {
    forall k | 0 <= k < |r| ensures r[k].segments >= 1 {
      assert keys[k] in keys;
      OccurrencesPositive(names, keys[k]);
    }
  }

  /** Rows built from strictly ascending names are strictly ascending. */
  lemma SummaryRowsSorted(keys: seq<string>, names: seq<string>, r: seq<SummaryRow>)
    requires forall i, j :: 0 <= i < j < |keys| ==> StrLess(keys[i], keys[j])
    requires r == SummaryRows(keys, names)
    ensures forall i, j :: 0 <= i < j < |r| ==> StrLess(r[i].roadName, r[j].roadName)
  {
    forall i, j | 0 <= i < j < |r| ensures StrLess(r[i].roadName, r[j].roadName) {
      assert r[i].roadName == keys[i] && r[j].roadName == keys[j];
    }
  }

  /** The rows name exactly the names present. */
  lemma SummaryRowsCover(keys: seq<string>, names: seq<string>, r: seq<SummaryRow>)
    requires forall x :: x in keys <==> x in names
    requires r == SummaryRows(keys, names)
    ensures forall x :: (exists k :: 0 <= k < |r| && r[k].roadName == x) <==> x in names
  {
    forall x | x in names ensures exists k :: 0 <= k < |r| && r[k].roadName == x {
      var k :| 0 <= k < |keys| && keys[k] == x;
      assert r[k].roadName == x;
    }
    forall k | 0 <= k < |r| ensures r[k].roadName in names {
      assert keys[k] in keys;
    }
  }

  /** The summary of the matched edges' road names: Summary's rows for the
      names, each counting the edges of its name. */
  function MatchedSummary(matched: seq<RoadEdge>): (r: seq<SummaryRow>)
    requires forall e :: e in matched ==> e.roadName.Str?
    ensures r == Summary(NamesOf(matched))
    ensures forall k :: 0 <= k < |r| ==> r[k].segments == Occurrences(NamesOf(matched), r[k].roadName)
    ensures SumSegments(r) == |matched|
    ensures forall e :: e in matched ==> exists k :: 0 <= k < |r| && r[k].roadName == e.roadName.s
  {
    var names := NamesOf(matched);
    forall e | e in matched ensures e.roadName.s in names {
      var i :| 0 <= i < |matched| && matched[i] == e;
      assert names[i] == e.roadName.s;
    }
    Summary(names)
  }
}
