/**
 * The CSV files the trace table is saved to and loaded from, at the level of rows:
 * a file is the sequence of its lines, a line the sequence of its fields. Saving
 * replaces a file (writing a header of column names first) or appends to it (optionally
 * after an empty separator line); loading takes the first line as the header and
 * pairs every later line's fields with it.
 */
module Csv {
  import opened Strings
  import opened Rows
  import opened Seqs

  /** The fields of one CSV line. */
  type Line = seq<string>

  /** The text of a file: each line's fields joined by commas and ended by a newline. */
  function FileText(content: seq<Line>): string
  {
    if content == [] then "" else Join(content[0], ",") + "\n" + FileText(content[1..])
  }

  /** empty(trim(file_get_contents($path))): a missing file reads as "". */
  predicate Blank(content: seq<Line>) {
    !Truthy(Trim(FileText(content)))
  }

  /** Lines are written to an existing file only when appending was asked for and the file is not blank. */
  predicate AppendMode(before: seq<Line>, append: bool) {
    append && !Blank(before)
  }

  /** The lines fputcsv() writes for the rows, one per row. */
  function Lines(rows: seq<Row>): (lines: seq<Line>)
    ensures |lines| == |rows| && forall i {:trigger lines[i]} :: 0 <= i < |rows| ==> lines[i] == CsvLine(rows[i])
  {
    seq(|rows|, i requires 0 <= i < |rows| => CsvLine(rows[i]))
  }

  /**
   * What one save writes after opening the file: in replace mode a header line holding the
   * first row's keys, in append mode an empty line when asked for, both only when there is
   * a first row; then one line per row.
   */
  function Written(rows: seq<Row>, appendMode: bool, attachEmptyRow: bool): seq<Line>
  {
    if rows == [] then [] else Opening(rows[0], appendMode, attachEmptyRow) + Lines(rows)
  }

  /** The lines written before the first row: its keys when replacing, an empty line when appending with a separator. */
  function Opening(first: Row, appendMode: bool, attachEmptyRow: bool): seq<Line>
  {
    if !appendMode then [Keys(first)] else if attachEmptyRow then [[]] else []
  }

  /** The file after a save: the old lines are kept only in append mode. */
  function SavedContent(before: seq<Line>, rows: seq<Row>, append: bool, attachEmptyRow: bool): seq<Line>
  {
    (if AppendMode(before, append) then before else []) + Written(rows, AppendMode(before, append), attachEmptyRow)
  }

  /** fgetcsv() reads an empty line as a single null field. */
  function ReadFields(line: Line): Line {
    if line == [] then [""] else line
  }

  /** The key a field at `i` gets: the header's i-th name, or null ("") past the header's end. */
  function HeaderName(header: Line, i: nat): string {
    if i < |header| then header[i] else ""
  }

  /** array_combine() of the header names and the fields: a repeated name keeps its first place and its last value. */
  function Combine(header: Line, fields: Line): Row
  {
    if fields == [] then []
    else Put(Combine(header, fields[..|fields| - 1]), HeaderName(header, |fields| - 1), Text(fields[|fields| - 1]))
  }

  /** The lines skipped when empty rows are ignored: those whose fields, run together and trimmed, are falsy. */
  predicate Skipped(fields: Line, ignoreEmptyRows: bool) {
    ignoreEmptyRows && !Truthy(Trim(Join(fields, "")))
  }

  /** The rows one line after the header loads as: none when it is skipped, else one. */
  function LoadLine(header: Line, line: Line, ignoreEmptyRows: bool): seq<Row>
  {
    var fields := ReadFields(line);
    if Skipped(fields, ignoreEmptyRows) then [] else [Combine(header, fields)]
  }

  /** The rows the lines after the header load as. */
  function LoadLines(header: Line, lines: seq<Line>, ignoreEmptyRows: bool): seq<Row>
  {
    if lines == [] then []
    else LoadLines(header, lines[..|lines| - 1], ignoreEmptyRows) + LoadLine(header, lines[|lines| - 1], ignoreEmptyRows)
  }

  /** The rows a file loads as; an empty or missing file loads as no rows. */
  function Loaded(content: seq<Line>, ignoreEmptyRows: bool): seq<Row>
  {
    if content == [] then [] else LoadLines(ReadFields(content[0]), content[1..], ignoreEmptyRows)
  }

  /** Every row as it reads back: its values as strings. */
  function AllAsText(rows: seq<Row>): (r: seq<Row>)
    ensures |r| == |rows| && forall i {:trigger r[i]} :: 0 <= i < |rows| ==> r[i] == AsText(rows[i])
  {
    seq(|rows|, i requires 0 <= i < |rows| => AsText(rows[i]))
  }

  /** The lines of the file at `path`; a missing file has none. */
  function FileLines(files: map<string, seq<Line>>, path: string): seq<Line>
  {
    if path in files then files[path] else []
  }

  /** The files after a save of `rows` to `path`; every other file is left as it was. */
  function SavedFiles(files: map<string, seq<Line>>, path: string, rows: seq<Row>, append: bool, attachEmptyRow: bool): map<string, seq<Line>>
  {
    files[path := SavedContent(FileLines(files, path), rows, append, attachEmptyRow)]
  }

  /** The files, by path. */
  class CsvStore {
    var files: map<string, seq<Line>>

    constructor()
      ensures files == map[]
    {
      files := map[];
    }

    /** saveMultidimensionalArrayToCSV: opens the file for appending or replacing, then writes line by line. */
    method Save(rows: seq<Row>, path: string, append: bool, attachEmptyRow: bool)
      modifies this
      ensures files == SavedFiles(old(files), path, rows, append, attachEmptyRow)
    {
      var before := FileLines(files, path);
      var appendMode := AppendMode(before, append);
      var start := if appendMode then before else [];
      var content := WriteRows(start, rows, appendMode, attachEmptyRow);
      files := files[path := content];
    }

    /** CSVToMultidimensionalArray: reads the file's lines into rows. */
    method Load(path: string, ignoreEmptyRows: bool) returns (table: seq<Row>)
      ensures table == Loaded(FileLines(files, path), ignoreEmptyRows)
    {
      table := ReadTable(FileLines(files, path), ignoreEmptyRows);
    }
  }

  /**
   * The writing loop of saveMultidimensionalArrayToCSV: before the first row, its keys as a
   * header (replace mode) or an empty line (append mode, when asked for); then each row's values.
   */
  method WriteRows(start: seq<Line>, rows: seq<Row>, appendMode: bool, attachEmptyRow: bool) returns (content: seq<Line>)
    ensures content == start + Written(rows, appendMode, attachEmptyRow)
  {
    content := start;
    assert rows[..0] == [] && start + [] == start;
    for i := 0 to |rows|
      invariant content == start + Written(rows[..i], appendMode, attachEmptyRow)
    {
      var out: seq<Line> := [];
      if !appendMode && i == 0 {
        out := out + [Keys(rows[i])];
      }
      if appendMode && i == 0 && attachEmptyRow {
        out := out + [[]];
      }
      out := out + [CsvLine(rows[i])];
      assert out == (if i == 0 then Opening(rows[0], appendMode, attachEmptyRow) else []) + [CsvLine(rows[i])];
      WrittenStep(rows, i, appendMode, attachEmptyRow);
      Assoc(start, Written(rows[..i], appendMode, attachEmptyRow), out);
      content := content + out;
    }
    assert rows[..|rows|] == rows;
  }

  /** The reading loop of CSVToMultidimensionalArray: the header line, then every further line into a row. */
  method ReadTable(content: seq<Line>, ignoreEmptyRows: bool) returns (table: seq<Row>)
    ensures table == Loaded(content, ignoreEmptyRows)
  {
    table := [];
    if content == [] {
      return;
    }
    var header := ReadFields(content[0]);
    for i := 1 to |content|
      invariant table == LoadLines(header, content[1..i], ignoreEmptyRows)
    {
      var fields := ReadFields(content[i]);
      LoadStep(header, content, i, ignoreEmptyRows);
      ghost var previous := table;
      if !Skipped(fields, ignoreEmptyRows) {
        table := table + [Combine(header, fields)];
      }
      assert table == previous + LoadLine(header, content[i], ignoreEmptyRows);
    }
    assert content[1..|content|] == content[1..];
  }

  lemma LoadStep(header: Line, content: seq<Line>, i: nat, ignoreEmptyRows: bool)
    requires 1 <= i < |content|
    ensures LoadLines(header, content[1..i + 1], ignoreEmptyRows) ==
      LoadLines(header, content[1..i], ignoreEmptyRows) + LoadLine(header, content[i], ignoreEmptyRows)
  {
    var lines := content[1..i + 1];
    SliceDropLast(content, 1, i + 1);
    assert lines[..|lines| - 1] == content[1..i] && lines[|lines| - 1] == content[i];
    LoadLinesLast(header, lines, ignoreEmptyRows);
  }

  lemma LinesDropLast(rows: seq<Row>)
    requires rows != []
    ensures Lines(rows) == Lines(rows[..|rows| - 1]) + [CsvLine(rows[|rows| - 1])]
  {
  }

  lemma AllAsTextDropLast(rows: seq<Row>)
    requires rows != []
    ensures AllAsText(rows) == AllAsText(rows[..|rows| - 1]) + [AsText(rows[|rows| - 1])]
  {
  }

  lemma AsTextDropLast(row: Row, k: nat)
    requires 0 < k <= |row|
    ensures AsText(row[..k]) == AsText(row[..k - 1]) + [(row[k - 1].0, Text(CellText(row[k - 1].1)))]
  {
  }

  /** Each iteration of the save loop adds the opening lines (first row only) and the row's line. */
  lemma WrittenStep(rows: seq<Row>, i: nat, appendMode: bool, attachEmptyRow: bool)
    requires i < |rows|
    ensures Written(rows[..i + 1], appendMode, attachEmptyRow) ==
      Written(rows[..i], appendMode, attachEmptyRow) + ((if i == 0 then Opening(rows[0], appendMode, attachEmptyRow) else []) + [CsvLine(rows[i])])
  {
    var o := Opening(rows[0], appendMode, attachEmptyRow);
    LinesDropLast(rows[..i + 1]);
    assert rows[..i + 1][..i] == rows[..i];
    if i > 0 {
      Assoc(o, Lines(rows[..i]), [CsvLine(rows[i])]);
    } else {
      assert Lines(rows[..0]) == [];
    }
  }

  lemma CombineLast(header: Line, fields: Line)
    requires fields != []
    ensures Combine(header, fields) ==
      Put(Combine(header, fields[..|fields| - 1]), HeaderName(header, |fields| - 1), Text(fields[|fields| - 1]))
  {
  }

  /** A row's own keys, paired with its written line, give the row back with its values as strings. */
  lemma {:induction false} CombineRoundTrip(row: Row, k: nat)
    requires DistinctKeys(row) && k <= |row|
    ensures Combine(Keys(row), CsvLine(row)[..k]) == AsText(row[..k])
  {
    if k > 0 {
      var line := CsvLine(row)[..k];
      var before := AsText(row[..k - 1]);
      var key := row[k - 1].0;
      var value := Text(CellText(row[k - 1].1));
      CombineRoundTrip(row, k - 1);
      CombineLast(Keys(row), line);
      LinePrefix(row, k);
      FreshKey(row, k);
      PutNewKey(before, key, value);
      AsTextDropLast(row, k);
    }
  }

  /** The first k values of a row's line: the first k-1 of them, then the k-th under the k-th key. */
  lemma LinePrefix(row: Row, k: nat)
    requires 0 < k <= |row|
    ensures CsvLine(row)[..k][..k - 1] == CsvLine(row)[..k - 1]
    ensures CsvLine(row)[..k][k - 1] == CellText(row[k - 1].1)
    ensures HeaderName(Keys(row), k - 1) == row[k - 1].0
  {
  }

  /** In a row without repeated keys, the k-th key is not among the keys before it. */
  lemma FreshKey(row: Row, k: nat)
    requires DistinctKeys(row) && 0 < k <= |row|
    ensures row[k - 1].0 !in Keys(AsText(row[..k - 1]))
  {
    var ks := Keys(AsText(row[..k - 1]));
    forall i | 0 <= i < k - 1 ensures ks[i] != row[k - 1].0 {
      assert ks[i] == row[i].0;
    }
  }

  lemma LoadLinesLast(header: Line, lines: seq<Line>, ignoreEmptyRows: bool)
    requires lines != []
    ensures LoadLines(header, lines, ignoreEmptyRows) ==
      LoadLines(header, lines[..|lines| - 1], ignoreEmptyRows) + LoadLine(header, lines[|lines| - 1], ignoreEmptyRows)
  {
  }

  /** Loading is line by line: the rows of two runs of lines are the rows of each, one after the other. */
  lemma {:induction false} LoadLinesAppend(header: Line, a: seq<Line>, b: seq<Line>, ignoreEmptyRows: bool)
    ensures LoadLines(header, a + b, ignoreEmptyRows) == LoadLines(header, a, ignoreEmptyRows) + LoadLines(header, b, ignoreEmptyRows)
  {
    if b == [] {
      assert a + b == a;
    } else {
      var init, last := b[..|b| - 1], b[|b| - 1];
      AppendDropLast(a, b);
      LoadLinesLast(header, a + b, ignoreEmptyRows);
      LoadLinesLast(header, b, ignoreEmptyRows);
      LoadLinesAppend(header, a, init, ignoreEmptyRows);
      Assoc(LoadLines(header, a, ignoreEmptyRows), LoadLines(header, init, ignoreEmptyRows), LoadLine(header, last, ignoreEmptyRows));
    }
  }

  /** Rows with the header's keys, none of them blank, load back as themselves with string values. */
  predicate Reloadable(rows: seq<Row>, header: Line) {
    forall i :: 0 <= i < |rows| ==> Reloads(rows[i], header)
  }

  predicate Reloads(row: Row, header: Line) {
    Keys(row) == header && DistinctKeys(row) && Truthy(Trim(Join(CsvLine(row), "")))
  }

  /** A line with no fields is blank. */
  lemma EmptyLineIsBlank()
    ensures !Truthy(Trim(Join([], "")))
  {
    assert Join([], "") == "";
    assert Trim("") == "";
  }

  /** A line read as a single null field is blank. */
  lemma NullFieldIsBlank()
    ensures !Truthy(Trim(Join([""], "")))
  {
    assert Join([""], "") == "";
    assert Trim("") == "";
  }

  /** A row that reloads is read back as one row: itself with string values. */
  lemma LoadLineOfRow(row: Row, header: Line)
    requires Reloads(row, header)
    ensures LoadLine(header, CsvLine(row), true) == [AsText(row)]
  {
    EmptyLineIsBlank();
    assert ReadFields(CsvLine(row)) == CsvLine(row);
    CombineRoundTrip(row, |row|);
    assert CsvLine(row)[..|row|] == CsvLine(row) && row[..|row|] == row;
  }

  lemma {:induction false} LinesLoadAsText(rows: seq<Row>, header: Line)
    requires Reloadable(rows, header)
    ensures LoadLines(header, Lines(rows), true) == AllAsText(rows)
  {
    if rows != [] {
      var n := |rows|;
      var init, last := rows[..n - 1], rows[n - 1];
      assert Reloadable(init, header) by {
        forall i | 0 <= i < |init| ensures Reloads(init[i], header) {
          assert init[i] == rows[i];
        }
      }
      LinesLoadAsText(init, header);
      LinesDropLast(rows);
      LoadLinesLast(header, Lines(rows), true);
      assert Lines(rows)[..n - 1] == Lines(init) && Lines(rows)[n - 1] == CsvLine(last);
      assert Reloads(last, header);
      LoadLineOfRow(last, header);
      AllAsTextDropLast(rows);
    }
  }

  /**
   * Replacing a file with rows that share one set of keys and loading it, skipping empty
   * rows, gives the rows back with their values as strings.
   */
  lemma ReplaceThenLoad(before: seq<Line>, rows: seq<Row>, attachEmptyRow: bool)
    requires rows != [] ==> Reloadable(rows, Keys(rows[0]))
    ensures Loaded(SavedContent(before, rows, false, attachEmptyRow), true) == AllAsText(rows)
  {
    if rows != [] {
      var content := SavedContent(before, rows, false, attachEmptyRow);
      var header := Keys(rows[0]);
      assert content == [header] + Lines(rows);
      assert Reloads(rows[0], header);
      EmptyLineIsBlank();
      assert |CsvLine(rows[0])| == |header|;
      assert ReadFields(content[0]) == header;
      assert content[1..] == Lines(rows);
      LinesLoadAsText(rows, header);
    }
  }

  /**
   * Appending rows to a file that is not blank and whose header names the rows' keys, then
   * loading it, gives the rows it loaded as before followed by the new rows; the empty
   * separator line is skipped.
   */
  lemma AppendThenLoad(before: seq<Line>, rows: seq<Row>, attachEmptyRow: bool)
    requires !Blank(before)
    requires before != [] && Reloadable(rows, ReadFields(before[0]))
    ensures Loaded(SavedContent(before, rows, true, attachEmptyRow), true) == Loaded(before, true) + AllAsText(rows)
  {
    var header := ReadFields(before[0]);
    var extra := Written(rows, true, attachEmptyRow);
    var content := SavedContent(before, rows, true, attachEmptyRow);
    assert content == before + extra;
    AppendDropFirst(before, extra);
    LoadLinesAppend(header, before[1..], extra, true);
    assert Loaded(content, true) == LoadLines(header, before[1..] + extra, true);
    assert LoadLines(header, extra, true) == AllAsText(rows) by {
      if rows == [] {
        assert extra == [];
      } else {
        var sep := Opening(rows[0], true, attachEmptyRow);
        assert extra == sep + Lines(rows);
        LoadLinesAppend(header, sep, Lines(rows), true);
        assert LoadLines(header, sep, true) == [] by {
          if attachEmptyRow {
            NullFieldIsBlank();
            LoadLinesLast(header, sep, true);
            assert sep[..0] == [] && sep[0] == [];
          }
        }
        LinesLoadAsText(rows, header);
      }
    }
  }

  /** A missing or empty file is blank. */
  lemma EmptyFileIsBlank()
    ensures Blank([])
  {
    assert FileText([]) == "";
    assert Trim("") == "";
  }

  /**
   * Appending to a file whose text trims to nothing is a replace: the old lines are
   * dropped and the header is written before the rows.
   */
  lemma AppendToBlankReplaces(before: seq<Line>, rows: seq<Row>, attachEmptyRow: bool)
    requires Blank(before)
    ensures SavedContent(before, rows, true, attachEmptyRow) == Written(rows, false, attachEmptyRow)
    ensures SavedContent(before, rows, true, attachEmptyRow) == SavedContent(before, rows, false, attachEmptyRow)
  {
  }
}
