/**
  Reading the inventory feed: the manual CSV fallback (`parseCSVManually`),
  which splits on newlines and commas by position with no quoting, and the
  choice between the CSV library's rows and that fallback (`parseData`).
*/
module Csv {
  import opened Wrappers
  import opened Strings
  import opened Seqs

  /** A parsed row: column name to cell text. */
  type RawRow = map<string, string>

  /** A column as the storefront reads it: a missing column reads as "" (both are falsy). */
  function Field(row: RawRow, name: string): string {
    if name in row then row[name] else ""
  }

  /**
    Assigning to `obj["__proto__"]` on a plain object sets its prototype, and a
    string value is ignored, so a header with this name never becomes a column.
  */
  const ProtoKey: string := "__proto__"

  /** `line => line.trim()` used as a filter: the line is not blank. */
  predicate NonBlank(line: string) {
    Trim(line) != ""
  }

  /** `values[i] ? values[i].trim() : ''`. */
  function Cell(values: seq<string>, i: nat): string {
    if i < |values| && values[i] != "" then Trim(values[i]) else ""
  }

  /** `parts.map(h => h.trim())`. */
  function TrimAll(parts: seq<string>): (r: seq<string>)
    ensures |r| == |parts|
    ensures forall i :: 0 <= i < |parts| ==> r[i] == Trim(parts[i])
  {
    if parts == [] then [] else [Trim(parts[0])] + TrimAll(parts[1..])
  }

  /**
    `headers.reduce((obj, header, i) => …, {})`: one column per header; a later
    header of the same name overwrites an earlier one.
  */
  function BuildRow(headers: seq<string>, values: seq<string>): (row: RawRow)
    ensures row.Keys == set h | h in headers && h != ProtoKey
    ensures forall i :: 0 <= i < |headers| && headers[i] != ProtoKey && headers[i] !in headers[i + 1..] ==>
      row[headers[i]] == Cell(values, i)
    decreases |headers|
  {
    if headers == [] then map[]
    else
      var n := |headers| - 1;
      var obj := BuildRow(headers[..n], values);
      BuildRowStep(headers, values, obj);
      if headers[n] == ProtoKey then obj else obj[headers[n] := Cell(values, n)]
  }

  lemma BuildRowStep(headers: seq<string>, values: seq<string>, obj: RawRow)
    requires |headers| >= 1
    requires var init := headers[..|headers| - 1];
      && obj.Keys == (set h | h in init && h != ProtoKey)
      && forall i :: 0 <= i < |init| && init[i] != ProtoKey && init[i] !in init[i + 1..] ==> obj[init[i]] == Cell(values, i)
    ensures var n := |headers| - 1;
      var row := if headers[n] == ProtoKey then obj else obj[headers[n] := Cell(values, n)];
      && row.Keys == (set h | h in headers && h != ProtoKey)
      && forall i :: 0 <= i < |headers| && headers[i] != ProtoKey && headers[i] !in headers[i + 1..] ==> row[headers[i]] == Cell(values, i)
  {
    BuildRowKeys(headers, obj);
    BuildRowValues(headers, values, obj);
  }

  lemma BuildRowKeys(headers: seq<string>, obj: RawRow)
    requires |headers| >= 1
    requires var init := headers[..|headers| - 1];
      obj.Keys == (set h | h in init && h != ProtoKey)
    ensures var n := |headers| - 1;
      var row := if headers[n] == ProtoKey then obj else obj[headers[n] := Cell([], n)];
      row.Keys == (set h | h in headers && h != ProtoKey)
  {
    var n := |headers| - 1;
    assert headers == headers[..n] + [headers[n]];
  }

  lemma BuildRowValues(headers: seq<string>, values: seq<string>, obj: RawRow)
    requires |headers| >= 1
    requires var init := headers[..|headers| - 1];
      && obj.Keys == (set h | h in init && h != ProtoKey)
      && forall i :: 0 <= i < |init| && init[i] != ProtoKey && init[i] !in init[i + 1..] ==> obj[init[i]] == Cell(values, i)
    ensures var n := |headers| - 1;
      var row := if headers[n] == ProtoKey then obj else obj[headers[n] := Cell(values, n)];
      forall i :: 0 <= i < |headers| && headers[i] != ProtoKey && headers[i] !in headers[i + 1..] ==> headers[i] in row && row[headers[i]] == Cell(values, i)
  {
    var n := |headers| - 1;
    var init := headers[..n];
    var row := if headers[n] == ProtoKey then obj else obj[headers[n] := Cell(values, n)];
    forall i | 0 <= i < |headers| && headers[i] != ProtoKey && headers[i] !in headers[i + 1..]
      ensures headers[i] in row && row[headers[i]] == Cell(values, i)
    {
      if i < n {
        assert headers[n] in headers[i + 1..];
        assert init[i + 1..] == headers[i + 1..n];
        assert init[i] !in init[i + 1..];
        assert init[i] in obj;
        assert obj[init[i]] == Cell(values, i);
      }
    }
  }

  /** `csvData.split('\n').filter(line => line.trim())`. */
  function NonBlankLines(csv: string): seq<string> {
    Filter(Split(csv, '\n'), NonBlank)
  }

  /** The trimmed header names of the first non-blank line. */
  function Headers(csv: string): seq<string>
    requires |NonBlankLines(csv)| >= 1
  {
    TrimAll(Split(NonBlankLines(csv)[0], ','))
  }

  /**
    `parseCSVManually(csvData)`: nothing unless there is a header line and at
    least one data line; then one row per data line, with a column per header.
  */
  function ParseManually(csv: string): (rows: seq<RawRow>)
    ensures |NonBlankLines(csv)| < 2 ==> rows == []
    ensures |NonBlankLines(csv)| >= 2 ==> |rows| == |NonBlankLines(csv)| - 1
  {
    var lines := NonBlankLines(csv);
    if |lines| < 2 then [] else DataRows(Headers(csv), lines[1..])
  }

  /** `lines.map(line => …)`: one row per data line, its values split on commas. */
  function DataRows(headers: seq<string>, lines: seq<string>): (rows: seq<RawRow>)
    ensures |rows| == |lines|
    ensures forall k :: 0 <= k < |lines| ==> rows[k] == BuildRow(headers, Split(lines[k], ','))
  {
    if lines == [] then [] else [BuildRow(headers, Split(lines[0], ','))] + DataRows(headers, lines[1..])
  }

  /** The row built for the `k`-th data line. */
  lemma ParseManuallyRow(csv: string, k: nat)
    requires |NonBlankLines(csv)| >= 2 && k < |NonBlankLines(csv)| - 1
    ensures ParseManually(csv)[k] == BuildRow(Headers(csv), Split(NonBlankLines(csv)[k + 1], ','))
  {
    var lines := NonBlankLines(csv);
    var rows := DataRows(Headers(csv), lines[1..]);
    assert ParseManually(csv) == rows;
    assert lines[1..][k] == lines[k + 1];
    assert rows[k] == BuildRow(Headers(csv), Split(lines[1..][k], ','));
  }

  /** Every row has exactly one column per header name (other than "__proto__"). */
  lemma ParseManuallyColumns(csv: string, k: nat)
    requires |NonBlankLines(csv)| >= 2 && k < |NonBlankLines(csv)| - 1
    ensures ParseManually(csv)[k].Keys == set h | h in Headers(csv) && h != ProtoKey
  {
    ParseManuallyRow(csv, k);
  }

  /** A header with no value at its position on a data line reads as "". */
  lemma ParseManuallyMissingValue(csv: string, k: nat, i: nat)
    requires |NonBlankLines(csv)| >= 2 && k < |NonBlankLines(csv)| - 1
    requires var headers := Headers(csv);
      i < |headers| && headers[i] != ProtoKey && headers[i] !in headers[i + 1..]
    requires i >= |Split(NonBlankLines(csv)[k + 1], ',')|
    ensures ParseManually(csv)[k][Headers(csv)[i]] == ""
  {
    ParseManuallyRow(csv, k);
  }

  /**
    `parseData(csvData)`: the CSV library's rows when it returns some (`papa`
    is None when it throws), otherwise the manual parse.
  */
  function ParseData(csv: string, papa: Option<seq<RawRow>>): (rows: seq<RawRow>)
    ensures papa.Some? && |papa.value| > 0 ==> rows == papa.value
    ensures papa.None? || |papa.value| == 0 ==> rows == ParseManually(csv)
  {
    if papa.Some? && |papa.value| > 0 then papa.value else ParseManually(csv)
  }

  // ---------------------------------------------------------------------------
  // Writing a table as CSV and reading it back

  /** A cell the fallback parser can carry: no separator, no newline, no whitespace at its ends. */
  predicate PlainCell(c: string) {
    ',' !in c && '\n' !in c && (c == [] || (!IsWhitespace(c[0]) && !IsWhitespace(c[|c| - 1])))
  }

  /** A record whose first cell is non-empty, so that its line is not blank. */
  predicate PlainRecord(cells: seq<string>) {
    |cells| >= 1 && cells[0] != [] && forall i :: 0 <= i < |cells| ==> PlainCell(cells[i])
  }

  /** One comma-separated line per record. */
  function RecordLines(records: seq<seq<string>>): (lines: seq<string>)
    ensures |lines| == |records|
    ensures forall k :: 0 <= k < |records| ==> lines[k] == Join(records[k], ',')
  {
    if records == [] then [] else [Join(records[0], ',')] + RecordLines(records[1..])
  }

  /** The text of a header line followed by one line per record. */
  function CsvText(headers: seq<string>, records: seq<seq<string>>): string {
    Join([Join(headers, ',')] + RecordLines(records), '\n')
  }

  lemma {:induction false} JoinWithout(parts: seq<string>, d: char, c: char)
    requires |parts| >= 1 && c != d
    requires forall i :: 0 <= i < |parts| ==> c !in parts[i]
    ensures c !in Join(parts, d)
  {
    if |parts| > 1 {
      JoinWithout(parts[1..], d, c);
    }
  }

  lemma {:induction false} JoinStartsWith(parts: seq<string>, d: char)
    requires |parts| >= 1 && parts[0] != []
    ensures |Join(parts, d)| >= 1 && Join(parts, d)[0] == parts[0][0]
  {
  }

  /** A line built from plain cells splits back into those cells and is not blank. */
  lemma PlainLine(cells: seq<string>)
    requires PlainRecord(cells)
    ensures Split(Join(cells, ','), ',') == cells
    ensures '\n' !in Join(cells, ',')
    ensures NonBlank(Join(cells, ','))
  {
    SplitJoin(cells, ',');
    JoinWithout(cells, ',', '\n');
    var line := Join(cells, ',');
    JoinStartsWith(cells, ',');
    assert !IsWhitespace(line[0]);
  }

  lemma {:induction false} TrimAllPlain(cells: seq<string>)
    requires forall i :: 0 <= i < |cells| ==> PlainCell(cells[i])
    ensures TrimAll(cells) == cells
  {
    if cells != [] {
      TrimAllPlain(cells[1..]);
      TrimPlain(cells[0]);
      assert [cells[0]] + cells[1..] == cells;
    }
  }

  lemma TrimPlain(c: string)
    requires PlainCell(c)
    ensures Trim(c) == c
  {
    TrimNoop(c);
  }

  /** The lines of a written table are all kept, in order. */
  lemma CsvTextLines(headers: seq<string>, records: seq<seq<string>>)
    requires PlainRecord(headers)
    requires forall k :: 0 <= k < |records| ==> PlainRecord(records[k])
    ensures NonBlankLines(CsvText(headers, records)) == [Join(headers, ',')] + RecordLines(records)
  {
    var lines := [Join(headers, ',')] + RecordLines(records);
    forall i | 0 <= i < |lines|
      ensures '\n' !in lines[i] && NonBlank(lines[i])
    {
      if i == 0 {
        PlainLine(headers);
      } else {
        assert lines[i] == RecordLines(records)[i - 1] == Join(records[i - 1], ',');
        PlainLine(records[i - 1]);
      }
    }
    SplitJoin(lines, '\n');
    FilterAll(lines, NonBlank);
  }

  /** A record written and read back under distinct plain headers. */
  lemma RecordRoundTrip(headers: seq<string>, cells: seq<string>, i: nat)
    requires PlainHeaders(headers)
    requires PlainRecord(cells) && i < |headers|
    ensures var row := BuildRow(headers, Split(Join(cells, ','), ','));
      headers[i] in row && row[headers[i]] == if i < |cells| then cells[i] else ""
  {
    PlainLine(cells);
    assert headers[i] !in headers[i + 1..];
    if i < |cells| && cells[i] != "" {
      TrimNoop(cells[i]);
    }
  }

  /** The row read back for the `k`-th record of a written table. */
  lemma WrittenRow(headers: seq<string>, records: seq<seq<string>>, k: nat)
    requires PlainRecord(headers) && k < |records|
    requires forall k :: 0 <= k < |records| ==> PlainRecord(records[k])
    ensures var csv := CsvText(headers, records);
      && |NonBlankLines(csv)| == |records| + 1
      && Headers(csv) == headers
      && ParseManually(csv)[k] == BuildRow(headers, Split(Join(records[k], ','), ','))
  {
    var csv := CsvText(headers, records);
    CsvTextLines(headers, records);
    var lines := NonBlankLines(csv);
    PlainLine(headers);
    TrimAllPlain(headers);
    assert lines[k + 1] == RecordLines(records)[k];
    ParseManuallyRow(csv, k);
  }

  /** Row `k` of the parsed text holds record `k`'s cells under its headers. */
  predicate HoldsRecord(row: RawRow, headers: seq<string>, cells: seq<string>) {
    forall i :: 0 <= i < |headers| ==>
      headers[i] in row && row[headers[i]] == if i < |cells| then cells[i] else ""
  }

  /** A header list the fallback parser reads back as written. */
  predicate PlainHeaders(headers: seq<string>) {
    && PlainRecord(headers)
    && (forall i, j :: 0 <= i < j < |headers| ==> headers[i] != headers[j])
    && (forall i :: 0 <= i < |headers| ==> headers[i] != ProtoKey)
  }

  lemma RecordRow(headers: seq<string>, records: seq<seq<string>>, k: nat)
    requires PlainHeaders(headers) && k < |records|
    requires forall k :: 0 <= k < |records| ==> PlainRecord(records[k])
    ensures |ParseManually(CsvText(headers, records))| == |records|
    ensures HoldsRecord(ParseManually(CsvText(headers, records))[k], headers, records[k])
  {
    var cells := records[k];
    assert PlainRecord(cells);
    WrittenRow(headers, records, k);
    var row := BuildRow(headers, Split(Join(cells, ','), ','));
    assert ParseManually(CsvText(headers, records))[k] == row;
    forall i | 0 <= i < |headers|
      ensures headers[i] in row && row[headers[i]] == if i < |cells| then cells[i] else ""
    {
      RecordRoundTrip(headers, cells, i);
    }
    assert HoldsRecord(row, headers, cells);
  }

  /**
    Reading back a table written as CSV: with distinct plain headers and plain
    records, every record becomes one row holding each of its cells under its
    header, and "" under a header the record is too short to reach.
  */
  lemma ParseManuallyRoundTrip(headers: seq<string>, records: seq<seq<string>>)
    requires PlainHeaders(headers) && |records| >= 1
    requires forall k :: 0 <= k < |records| ==> PlainRecord(records[k])
    ensures var rows := ParseManually(CsvText(headers, records));
      && |rows| == |records|
      && forall k :: 0 <= k < |records| ==> HoldsRecord(rows[k], headers, records[k])
  {
    RecordRow(headers, records, 0);
    forall k | 0 <= k < |records|
      ensures HoldsRecord(ParseManually(CsvText(headers, records))[k], headers, records[k])
    {
      RecordRow(headers, records, k);
    }
  }

  /**
    When the CSV library throws or returns no rows, a written table still
    reads back through the fallback, one row per record.
  */
  lemma ParseDataFallback(headers: seq<string>, records: seq<seq<string>>, papa: Option<seq<RawRow>>)
    requires papa.None? || papa.value == []
    requires PlainHeaders(headers) && |records| >= 1
    requires forall k :: 0 <= k < |records| ==> PlainRecord(records[k])
    ensures var rows := ParseData(CsvText(headers, records), papa);
      && |rows| == |records|
      && forall k :: 0 <= k < |records| ==> HoldsRecord(rows[k], headers, records[k])
  {
    ParseManuallyRoundTrip(headers, records);
  }
}
