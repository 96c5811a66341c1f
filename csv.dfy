/**
 * `parseCSV`, the parser each of the four dashboard scripts carries a copy of.
 * The text is trimmed and split on line feeds; the first line names the
 * columns; every later line is split on commas, each piece trimmed, and the
 * pieces are paired with the column names by position. There is no quoting:
 * a comma or line feed inside a cell always ends it, unlike section 2 of
 * RFC 4180, and the model keeps that behaviour.
 */
module Csv {
  import opened Prelude
  import opened Text

  /** Column names of the task sheet that the scripts read. */
  const MainTeamColumn := "메인팀"
  const WorkTeamColumn := "작업팀"
  const MainTaskColumn := "메인업무"
  const DetailTaskColumn := "상세업무"
  const StatusColumn := "상태"
  const DateColumn := "날짜"
  const MemoColumn := "메모"

  /** The property the detailed view adds to each row after its cells. */
  const RowIndexKey := "rowIndex"

  /**
   * One parsed task. `cells` holds the row object's string properties;
   * `rowIndex` is the 1-based sheet line that the detailed view stamps on
   * the row (`None` in the other three views).
   */
  datatype Row = Row(cells: map<string, string>, rowIndex: Option<int>)

  /**
   * `row[column]` for a string cell: the cell, or `undefined` when no header
   * names the column. The number the detailed view stamps as `rowIndex` is
   * held in `Row.rowIndex`, not among the cells.
   */
  function Get(row: Row, column: string): Option<string> {
    if column in row.cells then Some(row.cells[column]) else None
  }

  /** `values[i] || ''`: a position past the end of the line reads as empty. */
  function Cell(values: seq<string>, i: nat): string {
    if i < |values| then values[i] else ""
  }

  /** `line.split(',').map(v => v.trim())`, also used for the header line. */
  function Cells(line: string): seq<string> {
    var parts := Split(line, ',');
    seq(|parts|, i requires 0 <= i < |parts| => Trim(parts[i]))
  }

  /**
   * The row object that `headers.forEach((header, i) => row[header] = values[i] || '')`
   * leaves behind, defined directly: every header is a property, and a
   * header named twice keeps the value of its last column.
   */
  function Fields(headers: seq<string>, values: seq<string>): (row: map<string, string>)
    ensures row.Keys == set h | h in headers
  {
    map h | h in headers :: Cell(values, LastIndexOf(headers, h))
  }

  /** Lines of the trimmed text; the first is the header line. */
  function Lines(text: string): (lines: seq<string>)
    ensures |lines| >= 1
  {
    Split(Trim(text), '\n')
  }

  function Headers(text: string): seq<string> {
    Cells(Lines(text)[0])
  }

  /** The row built from the `k`-th data line (0-based). */
  function RecordOf(headers: seq<string>, line: string, k: nat, withRowIndex: bool): Row {
    var fields := Fields(headers, Cells(line));
    if withRowIndex then Row(fields - {RowIndexKey}, Some(k + 2)) else Row(fields, None)
  }

  /**
   * `parseCSV(text)`. With `withRowIndex` it is the copy in
   * detailed_process_script.js, which also sets `row.rowIndex = index + 2`
   * (overwriting a cell of a column that happens to be called `rowIndex`).
   * There is one row per line feed of the trimmed text.
   */
  function Parse(text: string, withRowIndex: bool): (rows: seq<Row>)
    ensures |rows| == multiset(Trim(text))['\n']
  {
    var lines := Lines(text);
    SplitCount(Trim(text), '\n');
    seq(|lines| - 1, k requires 0 <= k < |lines| - 1 =>
      RecordOf(Headers(text), lines[k + 1], k, withRowIndex))
  }

  lemma FieldsSnoc(headers: seq<string>, h: string, values: seq<string>)
    ensures Fields(headers + [h], values) == Fields(headers, values)[h := Cell(values, |headers|)]
  {
    var hs := headers + [h];
    assert hs[..|hs| - 1] == headers;
    forall x | x in headers && x != h
      ensures LastIndexOf(hs, x) == LastIndexOf(headers, x)
    {
    }
  }

  /** The `forEach` loop that fills a fresh row object, column by column. */
  method BuildRow(headers: seq<string>, values: seq<string>) returns (row: map<string, string>)
    ensures row == Fields(headers, values)
  {
    row := map[];
    var i := 0;
    while i < |headers|
      invariant 0 <= i <= |headers|
      invariant row == Fields(headers[..i], values)
    {
      FieldsSnoc(headers[..i], headers[i], values);
      assert headers[..i + 1] == headers[..i] + [headers[i]];
      row := row[headers[i] := Cell(values, i)];
      i := i + 1;
    }
    assert headers[..i] == headers;
  }

  /** The callback of `lines.slice(1).map(...)`: a fresh row object, stamped in the detailed view. */
  method BuildRecord(headers: seq<string>, line: string, k: nat, withRowIndex: bool) returns (row: Row)
    ensures row == RecordOf(headers, line, k, withRowIndex)
  {
    var fields := BuildRow(headers, Cells(line));
    if withRowIndex {
      row := Row(fields - {RowIndexKey}, Some(k + 2));
    } else {
      row := Row(fields, None);
    }
  }

  /** `lines.slice(1).map(...)`: the record of each data line, numbered from 0. */
  method MapRecords(headers: seq<string>, dataLines: seq<string>, withRowIndex: bool) returns (rows: seq<Row>)
    ensures |rows| == |dataLines|
    ensures forall k :: 0 <= k < |rows| ==> rows[k] == RecordOf(headers, dataLines[k], k, withRowIndex)
  {
    rows := [];
    var k := 0;
    while k < |dataLines|
      invariant 0 <= k <= |dataLines| && |rows| == k
      invariant forall i :: 0 <= i < k ==> rows[i] == RecordOf(headers, dataLines[i], i, withRowIndex)
    {
      var row := BuildRecord(headers, dataLines[k], k, withRowIndex);
      rows := rows + [row];
      k := k + 1;
    }
  }

  /** `parseCSV` as the scripts run it: the data lines mapped to rows in order. */
  method ParseCsv(text: string, withRowIndex: bool) returns (rows: seq<Row>)
    ensures rows == Parse(text, withRowIndex)
  {
    var lines := Split(Trim(text), '\n');
    var headers := Cells(lines[0]);
    rows := MapRecords(headers, lines[1..], withRowIndex);
    ParseIsRecords(text, withRowIndex, rows);
  }

  /** A list holding the record of each data line, in order, is the parse. */
  lemma ParseIsRecords(text: string, withRowIndex: bool, rows: seq<Row>)
    requires |rows| == |Lines(text)[1..]|
    requires forall i :: 0 <= i < |rows| ==> rows[i] == RecordOf(Headers(text), Lines(text)[1..][i], i, withRowIndex)
    ensures rows == Parse(text, withRowIndex)
  {
    var lines := Lines(text);
    forall i | 0 <= i < |rows|
      ensures rows[i] == Parse(text, withRowIndex)[i]
    {
      assert lines[1..][i] == lines[i + 1];
    }
  }

  /** What naive splitting guarantees of every cell and header name. */
  predicate IsClean(v: string) {
    Trim(v) == v && ',' !in v && '\n' !in v
  }

  /** A line of the text holds no line feed, so none of its cells holds a comma or a line feed. */
  lemma CellsAreClean(line: string)
    requires '\n' !in line
    ensures |Cells(line)| == multiset(line)[','] + 1
    ensures forall i :: 0 <= i < |Cells(line)| ==> IsClean(Cells(line)[i])
  {
    SplitCount(line, ',');
    forall i | 0 <= i < |Cells(line)|
      ensures IsClean(Cells(line)[i])
    {
      PieceIsClean(line, i);
    }
  }

  /** One trimmed piece of a line: trimmed, and free of commas and line feeds. */
  lemma PieceIsClean(line: string, i: nat)
    requires '\n' !in line && i < |Split(line, ',')|
    ensures IsClean(Trim(Split(line, ',')[i]))
  {
    var parts := Split(line, ',');
    JoinSplit(line, ',');
    TrimIdempotent(parts[i]);
    PieceWithinJoin(parts, i, ',');
    TrimWithin(parts[i]);
  }

  /** Every character of a piece occurs in the joined text. */
  lemma {:induction false} PieceWithinJoin(parts: seq<string>, i: nat, sep: char)
    requires i < |parts|
    ensures forall c :: c in parts[i] ==> c in Join(parts, sep)
  {
    if |parts| > 1 {
      var rest := Join(parts[1..], sep);
      assert Join(parts, sep) == parts[0] + ([sep] + rest);
      if i > 0 {
        PieceWithinJoin(parts[1..], i - 1, sep);
        assert forall c :: c in rest ==> c in [sep] + rest;
      }
    }
  }

  /**
   * The value of a column is the trimmed cell at that position of the line,
   * or '' when the line is shorter; a repeated header takes its last column.
   */
  lemma FieldsLastColumnWins(headers: seq<string>, values: seq<string>, i: nat)
    requires i < |headers|
    requires forall j :: i < j < |headers| ==> headers[j] != headers[i]
    ensures headers[i] in Fields(headers, values)
    ensures Fields(headers, values)[headers[i]] == if i < |values| then values[i] else ""
  {
    var r := LastIndexOf(headers, headers[i]);
    assert forall j :: r < j < |headers| ==> headers[r + 1..][j - r - 1] == headers[j];
  }

  /** Cells beyond the last header are dropped: cutting them off changes nothing. */
  lemma FieldsDropExtraCells(headers: seq<string>, values: seq<string>)
    requires |values| > |headers|
    ensures Fields(headers, values) == Fields(headers, values[..|headers|])
  {
  }

  /** A blank or whitespace-only text has no data rows. */
  lemma ParseBlank(text: string, withRowIndex: bool)
    requires AllWhitespace(text)
    ensures Parse(text, withRowIndex) == []
  {
    TrimEmptyIff(text);
  }

  /**
   * The k-th data row is addressed as sheet line k + 2 in the detailed view,
   * so the addresses start at 2 and strictly increase; the other views add
   * no address.
   */
  lemma ParseRowIndex(text: string, withRowIndex: bool)
    ensures var rows := Parse(text, withRowIndex);
      forall k :: 0 <= k < |rows| ==>
        rows[k].rowIndex == if withRowIndex then Some(k + 2) else None
    ensures var rows := Parse(text, withRowIndex);
      withRowIndex ==> forall i, j :: 0 <= i < j < |rows| ==>
        rows[i].rowIndex.Some? && rows[j].rowIndex.Some? && rows[i].rowIndex.value < rows[j].rowIndex.value
  {
    var rows := Parse(text, withRowIndex);
    var lines := Lines(text);
    forall k | 0 <= k < |rows|
      ensures rows[k].rowIndex == if withRowIndex then Some(k + 2) else None
    {
      assert rows[k] == RecordOf(Headers(text), lines[k + 1], k, withRowIndex);
    }
  }

  /**
   * `values[i] || ''` reads the same for a position past the end of the line
   * and for an empty cell; any other read is a cell of the line.
   */
  lemma CellOrEmpty(values: seq<string>, i: nat)
    ensures Cell(values, i) == "" <==> i >= |values| || values[i] == ""
    ensures Cell(values, i) != "" ==> Cell(values, i) in values
  {
  }

  /**
   * The detailed view's row and the other views' row of the same line agree
   * on every column except `rowIndex`, which the stamp replaces by the line
   * number.
   */
  lemma RecordViewsAgree(headers: seq<string>, line: string, k: nat, column: string)
    ensures var stamped, plain := RecordOf(headers, line, k, true), RecordOf(headers, line, k, false);
      && stamped.rowIndex == Some(k + 2) && plain.rowIndex == None
      && Get(stamped, column) == if column == RowIndexKey then None else Get(plain, column)
  {
  }

  /**
   * `task[column]` on a parsed row. A string cell exists exactly when a
   * header names the column, except that in the detailed view a `rowIndex`
   * column is replaced by the number `k + 2`, held in `Row.rowIndex`. A cell
   * is the header's last cell on the line, or `''`.
   */
  lemma GetOfParsed(text: string, withRowIndex: bool, k: nat, column: string)
    requires k < |Parse(text, withRowIndex)|
    ensures withRowIndex ==> Parse(text, withRowIndex)[k].rowIndex == Some(k + 2)
    ensures var v := Get(Parse(text, withRowIndex)[k], column);
      v.Some? <==> column in Headers(text) && !(withRowIndex && column == RowIndexKey)
    ensures var v := Get(Parse(text, withRowIndex)[k], column);
      v.Some? ==> v.value == Cell(Cells(Lines(text)[k + 1]), LastIndexOf(Headers(text), column)) && IsClean(v.value)
  {
    var headers, line := Headers(text), Lines(text)[k + 1];
    assert Parse(text, withRowIndex)[k] == RecordOf(headers, line, k, withRowIndex);
    GetOfRecord(headers, line, k, withRowIndex, column);
    ParseRowShape(text, withRowIndex, k);
  }

  /** `row[column]` on the record of one data line. */
  lemma GetOfRecord(headers: seq<string>, line: string, k: nat, withRowIndex: bool, column: string)
    ensures var v := Get(RecordOf(headers, line, k, withRowIndex), column);
      && (v.Some? <==> column in headers && !(withRowIndex && column == RowIndexKey))
      && (v.Some? ==> v.value == Cell(Cells(line), LastIndexOf(headers, column)))
  {
  }

  lemma EmptyIsClean()
    ensures IsClean("")
  {
    assert TrimStart("") == "";
  }

  /** Every header name is a property of the row built from any line, and every value is clean. */
  lemma FieldsAreClean(headers: seq<string>, values: seq<string>)
    requires forall i :: 0 <= i < |headers| ==> IsClean(headers[i])
    requires forall i :: 0 <= i < |values| ==> IsClean(values[i])
    ensures forall h :: h in Fields(headers, values) ==> IsClean(h) && IsClean(Fields(headers, values)[h])
  {
    forall h | h in Fields(headers, values)
      ensures IsClean(h) && IsClean(Fields(headers, values)[h])
    {
      FieldIsClean(headers, values, h);
    }
  }

  /** One property of the row: its name is a header, its value a cell of the line or `''`. */
  lemma FieldIsClean(headers: seq<string>, values: seq<string>, h: string)
    requires forall i :: 0 <= i < |headers| ==> IsClean(headers[i])
    requires forall i :: 0 <= i < |values| ==> IsClean(values[i])
    requires h in Fields(headers, values)
    ensures IsClean(h) && IsClean(Fields(headers, values)[h])
  {
    var r := LastIndexOf(headers, h);
    assert IsClean(h) by {
      assert headers[r] == h;
    }
    assert Fields(headers, values)[h] == Cell(values, r);
    CellIsClean(values, r);
  }

  /** A cell read by position is clean: a cell of the line, or the `''` default. */
  lemma CellIsClean(values: seq<string>, i: nat)
    requires forall k :: 0 <= k < |values| ==> IsClean(values[k])
    ensures IsClean(Cell(values, i))
  {
    if i >= |values| {
      EmptyIsClean();
    }
  }

  /**
   * Every row has exactly the header names as properties (minus `rowIndex`
   * in the detailed view), and every header name and cell is trimmed and
   * holds neither a comma nor a line feed.
   */
  lemma ParseRowShape(text: string, withRowIndex: bool, k: nat)
    requires k < |Parse(text, withRowIndex)|
    ensures var row := Parse(text, withRowIndex)[k];
      row.cells.Keys == (set h | h in Headers(text)) - (if withRowIndex then {RowIndexKey} else {})
    ensures var row := Parse(text, withRowIndex)[k];
      forall h :: h in row.cells ==> IsClean(h) && IsClean(row.cells[h])
  {
    var lines := Lines(text);
    var headers, values := Headers(text), Cells(lines[k + 1]);
    CellsAreClean(lines[0]);
    CellsAreClean(lines[k + 1]);
    FieldsAreClean(headers, values);
    assert Parse(text, withRowIndex)[k] == RecordOf(headers, lines[k + 1], k, withRowIndex);
  }
}
