/** The text handling of the weather collector: the YYYYMMDD date range it
    requests, the retry loop over one coordinate's attempts with its
    success/insufficient classification, the extraction of the payload
    between the "#START7777" and "#7777END" markers, and the comma-split
    rows written to the combined CSV. The HTTP call is a parameter: attempt
    k's outcome is `respond(k)`. */
module Weather {
  import opened Text
  import opened Tables
  import opened Dates

  const StartMarker := "#START7777"
  const EndMarker := "#7777END"

  // ---------------------------------------------------------------- dates

  /** `generate_date_range`: every day from `start` to `end` inclusive, as
      YYYYMMDD strings; an error when either text is not a date. */
  function GenerateDateRange(start: string, end: string): (r: Result<seq<string>>)
    ensures r.Ok? <==> Parse(start).Ok? && Parse(end).Ok?
    ensures r.Ok? ==> |r.value| == Max0(Ordinal(Parse(end).value) - Ordinal(Parse(start).value) + 1)
    ensures r.Ok? ==> forall i :: 0 <= i < |r.value| ==>
      Parse(r.value[i]).Ok? && Ordinal(Parse(r.value[i]).value) == Ordinal(Parse(start).value) + i
  {
    if Parse(start).Ok? && Parse(end).Ok? then
      var s, e := Parse(start).value, Parse(end).value;
      OrdinalAtMost(s);
      OrdinalAtMost(e);
      Ok(DayStrings(s, Max0(Ordinal(e) - Ordinal(s) + 1)))
    else Err("ValueError: time data does not match format '%Y%m%d'")
  }

  /** `count` consecutive days from `start`, as YYYYMMDD strings. */
  function DayStrings(start: Date, count: nat): (r: seq<string>)
    requires Valid(start) && Ordinal(start) + count - 1 <= Ordinal(MaxDate)
    ensures |r| == count
    ensures forall i :: 0 <= i < |r| ==> Parse(r[i]).Ok? && Ordinal(Parse(r[i]).value) == Ordinal(start) + i
  {
    var days := Days(start, count);
    var r := FormatAll(days);
    assert forall i :: 0 <= i < |r| ==> Parse(r[i]) == Ok(days[i]) && Ordinal(days[i]) == Ordinal(start) + i;
    r
  }

  /** Each date written as YYYYMMDD. */
  function FormatAll(days: seq<Date>): (out: seq<string>)
    requires forall i :: 0 <= i < |days| ==> Valid(days[i])
    ensures |out| == |days| && forall i :: 0 <= i < |out| ==> Parse(out[i]) == Ok(days[i])
  {
    if |days| == 0 then []
    else
      ParseFormat(days[0]);
      [Format(days[0])] + FormatAll(days[1..])
  }

  function Max0(x: int): nat {
    if x < 0 then 0 else x
  }

  /** The range is empty exactly when `end` comes before `start`; a
      non-empty range starts with `start` and ends with `end`. */
  lemma DateRangeEnds(start: string, end: string)
    requires GenerateDateRange(start, end).Ok?
    ensures var r := GenerateDateRange(start, end).value;
      (|r| == 0 <==> Ordinal(Parse(end).value) < Ordinal(Parse(start).value))
      && (|r| > 0 ==> r[0] == start && r[|r| - 1] == end)
  {
    var r := GenerateDateRange(start, end).value;
    if |r| > 0 {
      var s, e := Parse(start).value, Parse(end).value;
      OrdinalInjective(Parse(r[0]).value, s);
      OrdinalInjective(Parse(r[|r| - 1]).value, e);
      FormatParse(r[0]);
      FormatParse(r[|r| - 1]);
      FormatParse(start);
      FormatParse(end);
    }
  }

  /** Each entry of the range is followed by the next calendar day. */
  lemma DateRangeSteps(start: string, end: string)
    requires GenerateDateRange(start, end).Ok?
    ensures var r := GenerateDateRange(start, end).value;
      forall i :: 0 <= i < |r| - 1 ==>
        Parse(r[i]).value != MaxDate && Parse(r[i + 1]).value == NextDay(Parse(r[i]).value)
  {
    var r := GenerateDateRange(start, end).value;
    forall i | 0 <= i < |r| - 1
      ensures Parse(r[i]).value != MaxDate && Parse(r[i + 1]).value == NextDay(Parse(r[i]).value)
    {
      DayAfter(Parse(r[i]).value, Parse(r[i + 1]).value);
    }
  }

  lemma DayAfter(a: Date, b: Date)
    requires Valid(a) && Valid(b) && Ordinal(b) == Ordinal(a) + 1
    ensures a != MaxDate && b == NextDay(a)
  {
    OrdinalAtMost(b);
    OrdinalInjective(b, NextDay(a));
  }

  /** The collector's own range, "20230101" to "20230131": the 31 days of
      January 2023. */
  lemma JanuaryRange()
    ensures GenerateDateRange("20230101", "20230131").Ok?
    ensures var r := GenerateDateRange("20230101", "20230131").value;
      |r| == 31 && r[0] == "20230101" && r[30] == "20230131"
  {
    assert Format(Date(2023, 1, 1)) == "20230101";
    assert Format(Date(2023, 1, 31)) == "20230131";
    JanuaryOf(2023);
  }

  /** The range from January 1 to January 31 of any year has 31 days. */
  lemma JanuaryOf(y: int)
    requires 1 <= y <= 9999
    ensures var start, end := Format(Date(y, 1, 1)), Format(Date(y, 1, 31));
      GenerateDateRange(start, end).Ok?
      && var r := GenerateDateRange(start, end).value;
      |r| == 31 && r[0] == start && r[30] == end
  {
    var s, e := Date(y, 1, 1), Date(y, 1, 31);
    ParseFormat(s);
    ParseFormat(e);
    DateRangeEnds(Format(s), Format(e));
  }

  // ---------------------------------------------------------------- payload

  /** The text between the end of the first `open` and the first `close`
      ("" when `close` comes first) when both occur; otherwise the whole
      text. */
  function Between(text: string, open: string, close: string): (r: string)
  {
    if Contains(text, open) && Contains(text, close) then
      FindMissing(text, open);
      FindMissing(text, close);
      var startIdx := Find(text, open) + |open|;
      var endIdx := Find(text, close);
      if startIdx <= endIdx then text[startIdx..endIdx] else ""
    else
      text
  }

  /** `parse_api_response`: the text between the two markers, stripped. */
  function ParseApiResponse(text: string): (r: string)
    ensures !(Contains(text, StartMarker) && Contains(text, EndMarker)) ==> r == Strip(text)
    ensures r == [] || (!IsSpace(r[0]) && !IsSpace(r[|r| - 1]))
  {
    Strip(Between(text, StartMarker, EndMarker))
  }

  /** The first occurrence found by Find is the one the caller knows is first. */
  lemma FindFirst(hay: string, needle: string, k: int)
    requires OccursAt(hay, needle, k)
    requires forall i :: 0 <= i < k ==> !OccursAt(hay, needle, i)
    ensures Find(hay, needle) == k
  {
  }

  /** A response framed as prefix, start marker, payload, end marker and rest,
      with no marker earlier than those, parses to the stripped payload. */
  lemma ParseFramed(prefix: string, payload: string, rest: string)
    requires forall i :: 0 <= i < |prefix| ==>
      !OccursAt(prefix + StartMarker + payload + EndMarker + rest, StartMarker, i)
    requires forall i :: 0 <= i < |prefix| + |StartMarker| + |payload| ==>
      !OccursAt(prefix + StartMarker + payload + EndMarker + rest, EndMarker, i)
    ensures ParseApiResponse(prefix + StartMarker + payload + EndMarker + rest) == Strip(payload)
  {
    BetweenFramed(prefix, StartMarker, payload, EndMarker, rest);
  }

  /** The generic form of ParseFramed, for any pair of markers. */
  lemma BetweenFramed(prefix: string, open: string, payload: string, close: string, rest: string)
    requires forall i :: 0 <= i < |prefix| ==> !OccursAt(prefix + open + payload + close + rest, open, i)
    requires forall i :: 0 <= i < |prefix| + |open| + |payload| ==> !OccursAt(prefix + open + payload + close + rest, close, i)
    ensures Between(prefix + open + payload + close + rest, open, close) == payload
  {
    var text := prefix + open + payload + close + rest;
    Framed(prefix, open, payload, close, rest);
    BetweenAt(text, open, close, |prefix|, |prefix| + |open| + |payload|);
  }

  /** With both markers found, the payload is the text between them. */
  lemma BetweenAt(text: string, open: string, close: string, a: int, b: int)
    requires Contains(text, open) && Contains(text, close)
    requires Find(text, open) == a && Find(text, close) == b && a + |open| <= b
    ensures 0 <= a + |open| <= b <= |text|
    ensures Between(text, open, close) == text[a + |open|..b]
  {
    FindMissing(text, open);
    FindMissing(text, close);
  }

  /** Where the markers of a framed text are found. */
  lemma Framed(prefix: string, start: string, payload: string, end: string, rest: string)
    requires forall i :: 0 <= i < |prefix| ==> !OccursAt(prefix + start + payload + end + rest, start, i)
    requires forall i :: 0 <= i < |prefix| + |start| + |payload| ==> !OccursAt(prefix + start + payload + end + rest, end, i)
    ensures var text := prefix + start + payload + end + rest;
      && Contains(text, start) && Contains(text, end)
      && Find(text, start) == |prefix| && Find(text, end) == |prefix| + |start| + |payload|
      && text[|prefix| + |start|..|prefix| + |start| + |payload|] == payload
  {
    var text := prefix + start + payload + end + rest;
    FramedSlices(prefix, start, payload, end, rest);
    FoundFirst(text, start, |prefix|);
    FoundFirst(text, end, |prefix| + |start| + |payload|);
  }

  /** The pieces of a framed text sit at their offsets. */
  lemma FramedSlices(prefix: string, start: string, payload: string, end: string, rest: string)
    ensures var text := prefix + start + payload + end + rest;
      var a, b := |prefix|, |prefix| + |start| + |payload|;
      && text[a..a + |start|] == start
      && text[a + |start|..b] == payload
      && text[b..b + |end|] == end
  {
    var u := prefix + start;
    var v := u + payload;
    var w := v + end;
    var text := w + rest;
    PieceAt(prefix, start);
    PieceAt(u, payload);
    PieceAt(v, end);
    Within(text, w);
    Within(w, v);
    Within(v, u);
  }

  /** y sits right after x in x + y. */
  lemma PieceAt(x: string, y: string)
    ensures (x + y)[|x|..|x| + |y|] == y
  {
  }

  /** Slices inside a prefix are the prefix's slices. */
  lemma Within(s: string, p: string)
    requires |p| <= |s| && s[..|p|] == p
    ensures forall i, j :: 0 <= i <= j <= |p| ==> s[i..j] == p[i..j]
  {
    forall i, j | 0 <= i <= j <= |p|
      ensures s[i..j] == p[i..j]
    {
      assert forall k :: i <= k < j ==> s[k] == s[..|p|][k];
    }
  }

  /** An occurrence with no earlier one is what Find and `in` report. */
  lemma FoundFirst(text: string, needle: string, k: int)
    requires OccursAt(text, needle, k)
    requires forall i :: 0 <= i < k ==> !OccursAt(text, needle, i)
    ensures Contains(text, needle) && Find(text, needle) == k
  {
    ContainsIff(text, needle);
    FindFirst(text, needle, k);
  }

  /** When the end marker's first occurrence starts before the start
      marker's first occurrence ends, the payload is empty. */
  lemma ParseOverlapped(text: string)
    requires Contains(text, StartMarker) && Contains(text, EndMarker)
    requires Find(text, StartMarker) + |StartMarker| > Find(text, EndMarker)
    ensures ParseApiResponse(text) == ""
  {
    assert Strip("") == "" by {
      assert LeadingSpaces("") == 0;
    }
  }

  // ---------------------------------------------------------------- attempts

  /** What one attempt of the request gives: a response, a timeout, or some
      other exception with its message. */
  datatype Attempt = Response(status: int, text: string) | TimedOut | Raised(message: string)

  /** A 200 body is enough when it has both markers or more than one line
      once stripped. */
  predicate Sufficient(text: string) {
    (Contains(text, StartMarker) && Contains(text, EndMarker)) || |Split(Strip(text), '\n')| > 1
  }

  lemma SufficientIff(text: string)
    ensures Sufficient(text) <==> (Contains(text, StartMarker) && Contains(text, EndMarker)) || '\n' in Strip(text)
  {
    SplitMany(Strip(text), '\n');
  }

  predicate Succeeds(a: Attempt) {
    a.Response? && a.status == 200 && Sufficient(a.text)
  }

  /** Python's `s[:n]` for n >= 0. */
  function Prefix(s: string, n: nat): (r: string)
    ensures |r| == if n <= |s| then n else |s|
    ensures r == s[..|r|]
  {
    if n <= |s| then s[..n] else s
  }

  /** The message an unsuccessful attempt leaves in `result`. */
  function AttemptMessage(a: Attempt, attempt: int, maxRetries: int): (msg: string)
    requires !Succeeds(a)
  {
    match a
    case Response(status, text) =>
      if status == 200 then "Insufficient data: " + Prefix(text, 50) + "..."
      else "Error: " + IntToString(status)
    case TimedOut => "Timeout (attempt " + IntToString(attempt) + "/" + IntToString(maxRetries) + ")"
    case Raised(m) => "Exception: " + m
  }

  datatype FetchResult = FetchResult(lon: string, lat: string, date: string, response: string, status: string)

  /** The outcome of attempts k..maxRetries, given the message the previous
      failed attempt left (None before the first attempt). Running out of
      attempts before any was made leaves `result` unbound, which Python
      reports as an UnboundLocalError. */
  function FetchFrom(lon: string, lat: string, date: string, k: int, maxRetries: int,
                     respond: int -> Attempt, last: Option<string>): Result<FetchResult>
    decreases maxRetries - k + 1
  {
    if k > maxRetries then
      if last.None? then Err("UnboundLocalError: local variable 'result' referenced before assignment")
      else Ok(FetchResult(lon, lat, date, last.value, "failed"))
    else if Succeeds(respond(k)) then Ok(FetchResult(lon, lat, date, respond(k).text, "success"))
    else FetchFrom(lon, lat, date, k + 1, maxRetries, respond, Some(AttemptMessage(respond(k), k, maxRetries)))
  }

  /** `fetch_api_data_by_coord`: attempts 1..maxRetries in order, returning
      the first success; after the last failure, "failed" with that attempt's
      message. */
  method FetchApiDataByCoord(lon: string, lat: string, date: string, maxRetries: int, respond: int -> Attempt)
    returns (r: Result<FetchResult>)
    ensures r == FetchFrom(lon, lat, date, 1, maxRetries, respond, None)
  {
    var attempt := 1;
    var result: Option<string> := None;
    while attempt <= maxRetries
      invariant attempt >= 1 && (attempt > 1 ==> attempt <= maxRetries + 1)
      invariant FetchFrom(lon, lat, date, 1, maxRetries, respond, None)
             == FetchFrom(lon, lat, date, attempt, maxRetries, respond, result)
      invariant attempt > 1 <==> result.Some?
      decreases maxRetries - attempt + 1
    {
      var a := respond(attempt);
      if a.Response? && a.status == 200 && Sufficient(a.text) {
        return Ok(FetchResult(lon, lat, date, a.text, "success"));
      }
      result := Some(AttemptMessage(a, attempt, maxRetries));
      attempt := attempt + 1;
    }
    if result.None? {
      return Err("UnboundLocalError: local variable 'result' referenced before assignment");
    }
    return Ok(FetchResult(lon, lat, date, result.value, "failed"));
  }

  /** Fewer than one attempt allowed: the function fails before returning. */
  lemma FetchNoAttempts(lon: string, lat: string, date: string, maxRetries: int, respond: int -> Attempt)
    requires maxRetries < 1
    ensures FetchFrom(lon, lat, date, 1, maxRetries, respond, None).Err?
  {
  }

  /** From attempt k on, the result is a success exactly when some attempt in
      k..maxRetries succeeds; a success carries the first such attempt's body;
      otherwise the status is "failed" with the last attempt's message. The
      coordinates and date are echoed unchanged. */
  lemma {:induction false} FetchFromOutcome(lon: string, lat: string, date: string, k: int, maxRetries: int,
                                            respond: int -> Attempt, last: Option<string>)
    requires k >= 1 && (k <= maxRetries || last.Some?)
    ensures var r := FetchFrom(lon, lat, date, k, maxRetries, respond, last);
      r.Ok? && r.value.lon == lon && r.value.lat == lat && r.value.date == date
      && (r.value.status == "success" <==> exists j :: k <= j <= maxRetries && Succeeds(respond(j)))
      && (r.value.status == "success" ==>
            exists j :: (k <= j <= maxRetries && Succeeds(respond(j)) && r.value.response == respond(j).text
                         && forall i :: k <= i < j ==> !Succeeds(respond(i))))
      && (r.value.status != "success" ==>
            (r.value.status == "failed"
             && r.value.response == if k <= maxRetries then AttemptMessage(respond(maxRetries), maxRetries, maxRetries) else last.value))
    decreases maxRetries - k + 1
  {
    if k <= maxRetries && !Succeeds(respond(k)) {
      FetchFromOutcome(lon, lat, date, k + 1, maxRetries, respond, Some(AttemptMessage(respond(k), k, maxRetries)));
      var r := FetchFrom(lon, lat, date, k, maxRetries, respond, last);
      if r.value.status == "success" {
        var j :| k + 1 <= j <= maxRetries && Succeeds(respond(j)) && r.value.response == respond(j).text
          && forall i :: k + 1 <= i < j ==> !Succeeds(respond(i));
        assert forall i :: k <= i < j ==> !Succeeds(respond(i));
      }
    }
  }

  /** The whole retry loop: success iff one of the maxRetries attempts
      succeeds, and then with the first successful body; "failed" with the
      last attempt's message otherwise. */
  lemma FetchOutcome(lon: string, lat: string, date: string, maxRetries: int, respond: int -> Attempt)
    requires maxRetries >= 1
    ensures var r := FetchFrom(lon, lat, date, 1, maxRetries, respond, None);
      r.Ok? && r.value.lon == lon && r.value.lat == lat && r.value.date == date
      && (r.value.status == "success" <==> exists j :: 1 <= j <= maxRetries && Succeeds(respond(j)))
      && (r.value.status == "success" ==>
            exists j :: (1 <= j <= maxRetries && Succeeds(respond(j)) && r.value.response == respond(j).text
                         && forall i :: 1 <= i < j ==> !Succeeds(respond(i))))
      && (r.value.status != "success" ==>
            (r.value.status == "failed" && r.value.response == AttemptMessage(respond(maxRetries), maxRetries, maxRetries)))
  {
    FetchFromOutcome(lon, lat, date, 1, maxRetries, respond, None);
  }

  /** At most maxRetries attempts are made: outcomes of attempts outside
      1..maxRetries never matter. */
  lemma {:induction false} FetchOnlyConsults(lon: string, lat: string, date: string, k: int, maxRetries: int,
                                             respond: int -> Attempt, other: int -> Attempt, last: Option<string>)
    requires forall j :: k <= j <= maxRetries ==> respond(j) == other(j)
    ensures FetchFrom(lon, lat, date, k, maxRetries, respond, last) == FetchFrom(lon, lat, date, k, maxRetries, other, last)
    decreases maxRetries - k + 1
  {
    if k <= maxRetries {
      assert respond(k) == other(k);
      if !Succeeds(respond(k)) {
        var next := Some(AttemptMessage(respond(k), k, maxRetries));
        assert next == Some(AttemptMessage(other(k), k, maxRetries));
        FetchOnlyConsults(lon, lat, date, k + 1, maxRetries, respond, other, next);
        assert FetchFrom(lon, lat, date, k, maxRetries, respond, last) == FetchFrom(lon, lat, date, k + 1, maxRetries, respond, next);
        assert FetchFrom(lon, lat, date, k, maxRetries, other, last) == FetchFrom(lon, lat, date, k + 1, maxRetries, other, next);
      }
    }
  }

  // ---------------------------------------------------------------- rows

  datatype WeatherRow = WeatherRow(lon: string, lat: string, date: string, timestamp: string,
                                   ta: string, hm: string, td: string, ws10m: string, rn60m: string, sd3hr: string)

  /** The stripped comma-separated fields of one stripped line. */
  function LineFields(line: string): (parts: seq<string>)
    ensures |parts| == |Split(Strip(line), ',')|
    ensures forall i :: 0 <= i < |parts| ==> parts[i] == Strip(Split(Strip(line), ',')[i])
  {
    var raw := Split(Strip(line), ',');
    seq(|raw|, i requires 0 <= i < |raw| => Strip(raw[i]))
  }

  /** The row one line of a successful result yields: present exactly when
      the line has at least seven fields, which fill timestamp, ta, hm, td,
      ws_10m, rn_60m and sd_3hr in that order; further fields are dropped. */
  function RowOf(res: FetchResult, line: string): (row: Option<WeatherRow>)
    ensures row.Some? <==> |LineFields(line)| >= 7
    ensures row.Some? ==> var p := LineFields(line);
      row.value == WeatherRow(res.lon, res.lat, res.date, p[0], p[1], p[2], p[3], p[4], p[5], p[6])
  {
    var p := LineFields(line);
    if |p| >= 7 then Some(WeatherRow(res.lon, res.lat, res.date, p[0], p[1], p[2], p[3], p[4], p[5], p[6]))
    else None
  }

  /** The rows of the lines of `lines`, in order. */
  function RowsOfLines(res: FetchResult, lines: seq<string>): (rows: seq<WeatherRow>)
    ensures |rows| <= |lines|
    ensures forall w :: w in rows ==> w.lon == res.lon && w.lat == res.lat && w.date == res.date
  {
    if |lines| == 0 then []
    else
      var row := RowOf(res, lines[|lines| - 1]);
      RowsOfLines(res, lines[..|lines| - 1]) + (if row.Some? then [row.value] else [])
  }

  /** One more line adds that line's row, if any. */
  lemma RowsOfLinesStep(res: FetchResult, lines: seq<string>, j: nat)
    requires j < |lines|
    ensures var row := RowOf(res, lines[j]);
      RowsOfLines(res, lines[..j + 1]) == RowsOfLines(res, lines[..j]) + (if row.Some? then [row.value] else [])
  {
    assert lines[..j + 1][..j] == lines[..j];
  }

  /** The rows written for all results: none for a result that is not a
      success, otherwise one per qualifying line of its parsed payload. */
  function ParsedRows(results: seq<FetchResult>): seq<WeatherRow> {
    if |results| == 0 then []
    else
      var res := results[|results| - 1];
      ParsedRows(results[..|results| - 1])
        + (if res.status == "success" then RowsOfLines(res, Split(ParseApiResponse(res.response), '\n')) else [])
  }

  /** The inner loop of `main` over one successful result: one row per
      qualifying line of its parsed payload. */
  method RowsOfResult(res: FetchResult, lines: seq<string>) returns (added: seq<WeatherRow>)
    ensures added == RowsOfLines(res, lines)
  {
    var j := 0;
    added := [];
    while j < |lines|
      invariant 0 <= j <= |lines|
      invariant added == RowsOfLines(res, lines[..j])
    {
      var row := RowOf(res, lines[j]);
      RowsOfLinesStep(res, lines, j);
      if row.Some? {
        added := added + [row.value];
      }
      j := j + 1;
    }
    assert lines[..j] == lines;
  }

  /** The writing loop of `main`: skip results that are not a success and
      write the rows of the others, in order. */
  method WriteParsedRows(results: seq<FetchResult>) returns (rows: seq<WeatherRow>)
    ensures rows == ParsedRows(results)
  {
    rows := [];
    var k := 0;
    while k < |results|
      invariant 0 <= k <= |results|
      invariant rows == ParsedRows(results[..k])
    {
      var res := results[k];
      assert results[..k + 1][..k] == results[..k];
      if res.status == "success" {
        var added := RowsOfResult(res, Split(ParseApiResponse(res.response), '\n'));
        rows := rows + added;
      }
      k := k + 1;
    }
    assert results[..k] == results;
  }

  predicate IsSuccess(r: FetchResult) {
    r.status == "success"
  }

  /** Only successful results produce rows: dropping the others changes
      nothing, and every row carries a successful result's coordinates. */
  lemma {:induction false} OnlySuccessRows(results: seq<FetchResult>)
    ensures ParsedRows(results) == ParsedRows(Filter(results, IsSuccess))
    ensures forall w :: w in ParsedRows(results) ==>
      exists r :: r in results && r.status == "success" && w.lon == r.lon && w.lat == r.lat && w.date == r.date
  {
    if |results| > 0 {
      var init, res := results[..|results| - 1], results[|results| - 1];
      assert results == init + [res];
      OnlySuccessRows(init);
      FilterSnoc(init, res, IsSuccess);
      var f := Filter(init, IsSuccess);
      if res.status == "success" {
        assert (f + [res])[..|f + [res]| - 1] == f;
      }
    }
  }

  lemma FilterSnoc<T(!new)>(s: seq<T>, x: T, p: T -> bool)
    ensures Filter(s + [x], p) == Filter(s, p) + (if p(x) then [x] else [])
  {
    assert (s + [x])[..|s + [x]| - 1] == s;
  }
}
