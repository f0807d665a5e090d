/** The address-master extraction: each line of the pipe-delimited bus-stop
    address file is split into the 16 named text columns, the records of the
    district 광진구 are kept in order, and their number is reported. */
module AddressMaster {
  import opened Tables
  import opened Text

  const Columns: seq<string> := [
    "OBJECT_ID", "X", "Y", "법정코드", "시도", "시군구", "읍면동",
    "도로명코드", "도로명", "지하여부", "건물본번", "건물부번",
    "법정동코드", "도로명주소여부", "비고1", "비고2"
  ]

  const ColumnCount := 16
  const Delimiter := '|'
  const DistrictColumn := 5
  const District := "광진구"

  /** The texts pandas reads as missing by default, even with dtype=str. */
  const NaTokens: set<string> := {
    "", "#N/A", "#N/A N/A", "#NA", "-1.#IND", "-1.#QNAN", "-NaN", "-nan",
    "1.#IND", "1.#QNAN", "<NA>", "N/A", "NA", "NULL", "NaN", "None", "n/a",
    "nan", "null"
  }

  /** A record: one cell per named column, a cell missing when the line was
      short or the text is a missing-value token. */
  type Record = seq<Option<string>>

  function Cell(text: string): (r: Option<string>)
    ensures r.None? <==> text in NaTokens
    ensures r.Some? ==> r.value == text
  {
    if text in NaTokens then None else Some(text)
  }

  /** One line read with `sep="|"` and the 16 names: a short line is padded
      with missing cells, a line with more than 16 fields is a parser error. */
  function ParseLine(line: string): (r: Result<Record>)
    ensures r.Ok? <==> |Split(line, Delimiter)| <= ColumnCount
    ensures r.Ok? ==> |r.value| == ColumnCount
    ensures r.Ok? ==> forall k :: 0 <= k < ColumnCount ==>
      r.value[k] == if k < |Split(line, Delimiter)| then Cell(Split(line, Delimiter)[k]) else None
  {
    var fields := Split(line, Delimiter);
    if |fields| > ColumnCount then
      Err("ParserError: Expected " + IntToString(ColumnCount) + " fields, saw " + IntToString(|fields|))
    else
      Ok(seq(ColumnCount, k requires 0 <= k < ColumnCount => if k < |fields| then Cell(fields[k]) else None))
  }

  /** Splitting a text without the separator gives the text itself. */
  lemma {:induction false} SplitNoSeparator(a: string, sep: char)
    requires sep !in a
    ensures Split(a, sep) == [a]
  {
    if |a| > 0 {
      SplitNoSeparator(a[1..], sep);
      assert [a[0]] + a[1..] == a;
    }
  }

  /** A separator after a separator-free first piece cuts exactly there. */
  lemma {:induction false} SplitAfterPiece(a: string, rest: string, sep: char)
    requires sep !in a
    ensures Split(a + [sep] + rest, sep) == [a] + Split(rest, sep)
  {
    if |a| == 0 {
      assert a + [sep] + rest == [sep] + rest;
      assert ([sep] + rest)[1..] == rest;
    } else {
      var s := a + [sep] + rest;
      assert s[1..] == a[1..] + [sep] + rest;
      SplitAfterPiece(a[1..], rest, sep);
      assert [a[0]] + a[1..] == a;
    }
  }

  /** Joining separator-free fields with the separator and splitting again
      gives back the fields. */
  lemma {:induction false} SplitJoined(parts: seq<string>, sep: char)
    requires |parts| >= 1 && forall k :: 0 <= k < |parts| ==> sep !in parts[k]
    ensures Split(JoinWith(parts, [sep]), sep) == parts
  {
    if |parts| == 1 {
      SplitNoSeparator(parts[0], sep);
    } else {
      SplitJoined(parts[1..], sep);
      assert JoinWith(parts, [sep]) == parts[0] + [sep] + JoinWith(parts[1..], [sep]);
      SplitAfterPiece(parts[0], JoinWith(parts[1..], [sep]), sep);
      assert [parts[0]] + parts[1..] == parts;
    }
  }

  /** A line written from 16 present, pipe-free texts reads back as those 16
      texts. */
  lemma ParseWrittenLine(texts: seq<string>)
    requires |texts| == ColumnCount
    requires forall k :: 0 <= k < |texts| ==> Delimiter !in texts[k] && texts[k] !in NaTokens
    ensures ParseLine(JoinWith(texts, [Delimiter])).Ok?
    ensures forall k :: 0 <= k < ColumnCount ==> ParseLine(JoinWith(texts, [Delimiter])).value[k] == Some(texts[k])
  {
    SplitJoined(texts, Delimiter);
  }

  /** A line with 17 fields is refused. */
  lemma LongLineRefused(texts: seq<string>)
    requires |texts| == ColumnCount + 1 && forall k :: 0 <= k < |texts| ==> Delimiter !in texts[k]
    ensures ParseLine(JoinWith(texts, [Delimiter])).Err?
  {
    SplitJoined(texts, Delimiter);
  }

  /** The whole file: blank lines are skipped and the first bad line stops
      the read; ReadRecordsContents and ReadRecordsFirstError say what the
      records and the error are. */
  function ReadRecords(lines: seq<string>): (r: Result<seq<Record>>)
    ensures r.Ok? <==> forall i :: 0 <= i < |lines| ==> lines[i] == "" || ParseLine(lines[i]).Ok?
    ensures r.Ok? ==> forall x :: x in r.value ==> |x| == ColumnCount
    ensures r.Ok? ==> |r.value| <= |lines|
  {
    if |lines| == 0 then Ok([])
    else
      var init := ReadRecords(lines[..|lines| - 1]);
      var line := lines[|lines| - 1];
      assert forall i :: 0 <= i < |lines| - 1 ==> lines[..|lines| - 1][i] == lines[i];
      if init.Err? then init
      else if line == "" then init
      else
        var p := ParseLine(line);
        if p.Err? then Err(p.error)
        else
          assert forall x :: x in init.value + [p.value] ==> x in init.value || x == p.value;
          Ok(init.value + [p.value])
  }

  /** A successful read holds exactly the parsed non-blank lines, in order. */
  lemma {:induction false} ReadRecordsContents(lines: seq<string>)
    ensures ReadRecords(lines).Ok? ==> ParsedFrom(ReadRecords(lines).value, NonBlank(lines))
  {
    if |lines| > 0 {
      var pre := lines[..|lines| - 1];
      var line := lines[|lines| - 1];
      ReadRecordsContents(pre);
      var init := ReadRecords(pre);
      if init.Ok? && line != "" && ParseLine(line).Ok? {
        ParsedFromSnoc(init.value, NonBlank(pre), ParseLine(line).value, line);
      }
    }
  }

  /** `recs` are the records of `lines`, one for one. */
  predicate ParsedFrom(recs: seq<Record>, lines: seq<string>) {
    |recs| == |lines| && forall k :: 0 <= k < |recs| ==> ParseLine(lines[k]) == Ok(recs[k])
  }

  lemma ParsedFromSnoc(recs: seq<Record>, lines: seq<string>, rec: Record, line: string)
    requires ParsedFrom(recs, lines) && ParseLine(line) == Ok(rec)
    ensures ParsedFrom(recs + [rec], lines + [line])
  {
    assert forall k :: 0 <= k < |recs| ==> (recs + [rec])[k] == recs[k] && (lines + [line])[k] == lines[k];
  }

  /** A failed read reports the error of the first non-blank line that does
      not parse. */
  lemma {:induction false} ReadRecordsFirstError(lines: seq<string>)
    ensures var r := ReadRecords(lines);
      r.Err? ==> exists i :: 0 <= i < |lines| && lines[i] != "" && ParseLine(lines[i]) == Err(r.error) && ReadableBefore(lines, i)
  {
    if |lines| > 0 {
      var pre := lines[..|lines| - 1];
      var line := lines[|lines| - 1];
      ReadRecordsFirstError(pre);
      var init := ReadRecords(pre);
      if init.Err? {
        var i :| 0 <= i < |pre| && pre[i] != "" && ParseLine(pre[i]) == Err(init.error) && ReadableBefore(pre, i);
        assert lines[i] == pre[i];
        assert ReadableBefore(lines, i) by {
          forall j | 0 <= j < i ensures lines[j] == "" || ParseLine(lines[j]).Ok? {
            assert lines[j] == pre[j];
          }
        }
      } else if line != "" && ParseLine(line).Err? {
        assert ReadableBefore(lines, |pre|) by {
          forall j | 0 <= j < |pre| ensures lines[j] == "" || ParseLine(lines[j]).Ok? {
            assert lines[j] == pre[j];
          }
        }
      }
    }
  }

  /** Every line before position i is blank or parses. */
  predicate ReadableBefore(lines: seq<string>, i: int)
    requires 0 <= i <= |lines|
  {
    forall j :: 0 <= j < i ==> lines[j] == "" || ParseLine(lines[j]).Ok?
  }

  /** The lines `read_csv` turns into records: the non-blank ones, in order. */
  function NonBlank(lines: seq<string>): seq<string> {
    if |lines| == 0 then []
    else NonBlank(lines[..|lines| - 1]) + (if lines[|lines| - 1] == "" then [] else [lines[|lines| - 1]])
  }

  function InDistrict(x: Record): bool {
    |x| > DistrictColumn && x[DistrictColumn] == Some(District)
  }

  /** `df[df["시군구"] == "광진구"]`: the records of the district, in order. */
  function FilterDistrict(records: seq<Record>): (r: seq<Record>)
    ensures Subseq(r, records)
    ensures forall x :: x in r <==> x in records && InDistrict(x)
    ensures |r| == CountIf(records, InDistrict)
  {
    CountIfFilter(records, InDistrict);
    Filter(records, InDistrict)
  }

  /** A cell as `to_csv` writes it: missing as empty, a text holding a
      comma, a quote or a line break quoted with its quotes doubled. */
  function CsvField(cell: Option<string>): (r: string)
    ensures cell.None? ==> r == ""
    ensures cell.Some? && !NeedsQuoting(cell.value) ==> r == cell.value
    ensures cell.Some? && NeedsQuoting(cell.value) ==> |r| >= 2 && r[0] == '"' && r[|r| - 1] == '"'
  {
    if cell.None? then ""
    else if NeedsQuoting(cell.value) then "\"" + DoubleQuotes(cell.value) + "\""
    else cell.value
  }

  predicate NeedsQuoting(text: string) {
    ',' in text || '"' in text || '\n' in text || '\r' in text
  }

  function DoubleQuotes(text: string): (r: string)
    ensures |r| >= |text|
  {
    if |text| == 0 then ""
    else (if text[0] == '"' then "\"\"" else [text[0]]) + DoubleQuotes(text[1..])
  }

  /** `df_gwangjin.to_csv(..., index=False)`: the header line of the frame's
      column names (the 16 names of `Columns` here), then one line per kept
      record, with no index column. */
  function WrittenLines(columns: seq<string>, kept: seq<Record>): (r: seq<string>)
    ensures |r| == |kept| + 1 && r[0] == HeaderLine(columns)
    ensures forall i :: 0 <= i < |kept| ==> r[i + 1] == JoinWith(RecordFields(kept[i]), ",")
  {
    var rows := seq(|kept|, i requires 0 <= i < |kept| => JoinWith(RecordFields(kept[i]), ","));
    var r := [HeaderLine(columns)] + rows;
    assert forall i :: 0 <= i < |kept| ==> r[i + 1] == rows[i];
    r
  }

  /** The header line: the column names, comma-separated. */
  function HeaderLine(names: seq<string>): string {
    JoinWith(names, ",")
  }

  /** The header line splits back into the 16 names, so the file has no
      index column. */
  lemma HeaderFields()
    ensures Split(HeaderLine(Columns), ',') == Columns
  {
    assert forall k :: 0 <= k < |Columns| ==> ',' !in Columns[k];
    SplitJoined(Columns, ',');
  }

  function RecordFields(x: Record): (r: seq<string>)
    ensures |r| == |x| && forall k :: 0 <= k < |x| ==> r[k] == CsvField(x[k])
  {
    seq(|x|, k requires 0 <= k < |x| => CsvField(x[k]))
  }

  /** Each written line holds exactly the 16 columns: a record of
      comma-free present texts reads back field for field from its line. */
  lemma WrittenLineFields(columns: seq<string>, kept: seq<Record>, i: int)
    requires 0 <= i < |kept| && |kept[i]| == ColumnCount
    requires forall k :: 0 <= k < ColumnCount ==> kept[i][k].Some? && !NeedsQuoting(kept[i][k].value)
    ensures Split(WrittenLines(columns, kept)[i + 1], ',') == RecordFields(kept[i])
    ensures |Split(WrittenLines(columns, kept)[i + 1], ',')| == ColumnCount
  {
    var fields := RecordFields(kept[i]);
    assert forall k :: 0 <= k < |fields| ==> fields[k] == kept[i][k].value;
    SplitJoined(fields, ',');
  }

  /** The message printed after saving: it carries the number of kept
      records. */
  function Report(kept: seq<Record>): (msg: string)
    ensures exists i :: 0 <= i && OccursAt(msg, IntToString(|kept|), i)
  {
    var count := IntToString(|kept|);
    var prefix := "✅ 필터링 완료! 총 ";
    var msg := prefix + count + "건의 광진구 도로명 데이터가 저장되었습니다.";
    assert msg[|prefix|..|prefix| + |count|] == count;
    assert OccursAt(msg, count, |prefix|);
    msg
  }

  /** The printed number reads back as the count of kept records. */
  lemma ReportedCount(kept: seq<Record>)
    ensures DigitsValue(IntToString(|kept|)) == |kept|
  {
    NatToStringValue(|kept|);
  }
}
