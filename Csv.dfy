/**
 * The request log file as the `csv` module sees it: a list of lines, each
 * a list of cells. Quoting is the `csv` module's business and is not
 * modelled; a cell comes back exactly as it was written.
 */
module Csv {
  import opened Wrappers
  import opened Dicts

  type Line = seq<string>
  type CsvLines = seq<Line>

  /**
   * `DictWriter.writerow(row)`: the row's values in header order; a key the
   * row lacks is written as the empty string (the writer's default).
   */
  function Cells(header: seq<string>, row: Dict): Line
  {
    seq(|header|, i requires 0 <= i < |header| => Get(row, header[i], ""))
  }

  /** Every key of `row` is a column of `header`; otherwise `writerow` raises `ValueError`. */
  predicate Covered(header: seq<string>, row: Dict)
  {
    forall k :: k in Keys(row) ==> k in header
  }

  /**
   * `writeheader()` then `writerows(rows)` on a file opened for writing.
   * On success the file holds the header and one line per row. When a row
   * has a key outside the header, `ValueError` stops the writing and the
   * file keeps what was written before it: that partial content is the error.
   */
  function WriteAll(header: seq<string>, rows: seq<Dict>): (r: Result<CsvLines, CsvLines>)
    ensures r.Ok? <==> forall i :: 0 <= i < |rows| ==> Covered(header, rows[i])
    ensures r.Ok? ==> |r.value| == |rows| + 1 && r.value[0] == header
    ensures r.Ok? ==> forall i :: 0 <= i < |rows| ==> r.value[1..][i] == Cells(header, rows[i])
    ensures r.Err? ==> exists k :: FailsAt(header, rows, k) && |r.error| == k + 1 && r.error[0] == header
                                   && forall j :: 0 <= j < k ==> r.error[1..][j] == Cells(header, rows[j])
  {
    match FirstUncovered(header, rows)
    case None => Ok([header] + Lines(header, rows))
    case Some(k) => Err([header] + Lines(header, rows[..k]))
  }

  /** The lines `writerows` writes for rows that raise nothing. */
  function Lines(header: seq<string>, rows: seq<Dict>): CsvLines
  {
    seq(|rows|, i requires 0 <= i < |rows| => Cells(header, rows[i]))
  }

  /** The first row whose keys are not all header columns, if any. */
  function FirstUncovered(header: seq<string>, rows: seq<Dict>): (r: Option<nat>)
    ensures r.None? <==> forall i :: 0 <= i < |rows| ==> Covered(header, rows[i])
    ensures r.Some? ==> FailsAt(header, rows, r.value)
  {
    if rows == [] then None
    else if !Covered(header, rows[0]) then Some(0)
    else
      var rest := rows[1..];
      assert forall j :: 0 <= j < |rest| ==> rest[j] == rows[j + 1];
      match FirstUncovered(header, rest)
      case None => None
      case Some(k) =>
        assert forall j :: 1 <= j < k + 1 ==> rows[j] == rest[j - 1];
        Some(k + 1)
  }

  /** Row `k` is the first whose keys are not all header columns. */
  predicate FailsAt(header: seq<string>, rows: seq<Dict>, k: int)
  {
    0 <= k < |rows| && !Covered(header, rows[k]) && forall j :: 0 <= j < k ==> Covered(header, rows[j])
  }

  /** The cell in column `i`, or the empty string for a line that is too short. */
  function CellAt(cells: Line, i: nat): string
  {
    if i < |cells| then cells[i] else ""
  }

  /**
   * `DictReader`'s `dict(zip(fieldnames, line))`: one key per header column
   * in header order; a repeated column name keeps its first position and its
   * last value.
   */
  function ZipRow(header: seq<string>, cells: Line): Dict
    decreases |header|
  {
    if header == [] then []
    else
      var n := |header| - 1;
      Set(ZipRow(header[..n], cells), header[n], CellAt(cells, n))
  }

  /** `list(csv.DictReader(f))`: the first line names the fields; blank lines are skipped. */
  function ReadRows(lines: CsvLines): seq<Dict>
  {
    if lines == [] then [] else DataRows(lines[0], lines[1..])
  }

  function DataRows(header: seq<string>, lines: CsvLines): (rows: seq<Dict>)
    ensures |rows| <= |lines|
    ensures (forall i :: 0 <= i < |lines| ==> lines[i] != []) ==> |rows| == |lines|
    ensures (forall i :: 0 <= i < |lines| ==> lines[i] != [])
        ==> forall i :: 0 <= i < |lines| ==> rows[i] == ZipRow(header, lines[i])
  {
    if lines == [] then []
    else
      var rest := DataRows(header, lines[1..]);
      if lines[0] == [] then rest else [ZipRow(header, lines[0])] + rest
  }

  /** A read row has the same keys whatever its cells, and no key twice. */
  lemma {:induction false} ZipRowKeys(header: seq<string>, c1: Line, c2: Line)
    ensures Keys(ZipRow(header, c1)) == Keys(ZipRow(header, c2))
    ensures UniqueKeys(ZipRow(header, c1))
    decreases |header|
  {
    if header != [] {
      var n := |header| - 1;
      ZipRowKeys(header[..n], c1, c2);
      SetKeepsUnique(ZipRow(header[..n], c1), header[n], CellAt(c1, n));
    }
  }

  /** Under a header without repeats, a read row's keys are the header itself, in order. */
  lemma {:induction false} ZipRowKeysAre(header: seq<string>, cells: Line)
    requires NoDuplicates(header)
    ensures Keys(ZipRow(header, cells)) == header
    decreases |header|
  {
    if header != [] {
      var n := |header| - 1;
      NoDuplicatesPrefix(header, n);
      ZipRowKeysAre(header[..n], cells);
      assert header[n] !in header[..n];
      assert header[..n] + [header[n]] == header;
    }
  }

  /** Reading a column back gives the cell written in that column. */
  lemma {:induction false} ZipRowLookup(header: seq<string>, cells: Line, i: nat)
    requires NoDuplicates(header) && i < |header|
    ensures Lookup(ZipRow(header, cells), header[i]) == Some(CellAt(cells, i))
    decreases |header|
  {
    var n := |header| - 1;
    var init := header[..n];
    ZipRowLast(header, cells, header[i]);
    if i < n {
      assert init[i] == header[i] && header[i] != header[n];
      NoDuplicatesPrefix(header, n);
      ZipRowLookup(init, cells, i);
    }
  }

  /** A lookup in a read row: the last column's cell, or a lookup under the shorter header. */
  lemma ZipRowLast(header: seq<string>, cells: Line, k: string)
    requires header != []
    ensures Lookup(ZipRow(header, cells), k)
         == if k == header[|header| - 1] then Some(CellAt(cells, |header| - 1))
            else Lookup(ZipRow(header[..|header| - 1], cells), k)
  {
  }

  /**
   * A record written by `writerow` and read back under the same header
   * (without repeats) gives the row's value in every column, or empty where
   * the row lacks the column.
   */
  lemma CellsReadBack(header: seq<string>, row: Dict, i: nat)
    requires NoDuplicates(header) && i < |header|
    ensures Lookup(ZipRow(header, Cells(header, row)), header[i]) == Some(Get(row, header[i], ""))
  {
    ZipRowLookup(header, Cells(header, row), i);
  }

  lemma NoDuplicatesPrefix(s: seq<string>, n: nat)
    requires NoDuplicates(s) && n <= |s|
    ensures NoDuplicates(s[..n])
  {
    var init := s[..n];
    forall a, b | 0 <= a < b < |init| ensures init[a] != init[b] {
      assert init[a] == s[a] && init[b] == s[b];
    }
  }

  /** A column the header does not name is absent from every read row. */
  lemma {:induction false} ZipRowAbsent(header: seq<string>, cells: Line, k: string)
    requires k !in header
    ensures Lookup(ZipRow(header, cells), k) == None
    decreases |header|
  {
    if header != [] {
      var n := |header| - 1;
      var init := header[..n];
      assert ZipRow(header, cells) == Set(ZipRow(init, cells), header[n], CellAt(cells, n));
      assert k !in init by {
        assert forall a :: 0 <= a < |init| ==> init[a] == header[a];
      }
      assert k != header[n];
      ZipRowAbsent(init, cells, k);
    }
  }

  /** Appending one non-blank line to a log appends one row when it is read. */
  lemma {:induction false} ReadAppended(lines: CsvLines, line: Line)
    requires lines != [] && line != []
    ensures ReadRows(lines + [line]) == ReadRows(lines) + [ZipRow(lines[0], line)]
  {
    assert (lines + [line])[0] == lines[0];
    assert (lines + [line])[1..] == lines[1..] + [line];
    DataRowsAppend(lines[0], lines[1..], line);
  }

  lemma {:induction false} DataRowsAppend(header: seq<string>, lines: CsvLines, line: Line)
    requires line != []
    ensures DataRows(header, lines + [line]) == DataRows(header, lines) + [ZipRow(header, line)]
    decreases |lines|
  {
    if lines == [] {
      assert DataRows(header, []) == [];
    } else {
      assert (lines + [line])[1..] == lines[1..] + [line];
      DataRowsAppend(header, lines[1..], line);
    }
  }

  /** A blank line gives no row: appending one leaves the rows read unchanged. */
  lemma {:induction false} DataRowsBlank(header: seq<string>, lines: CsvLines)
    ensures DataRows(header, lines + [[]]) == DataRows(header, lines)
    decreases |lines|
  {
    if lines == [] {
      assert DataRows(header, [[]]) == DataRows(header, []);
    } else {
      assert (lines + [[]])[1..] == lines[1..] + [[]];
      DataRowsBlank(header, lines[1..]);
    }
  }

  /**
   * Writing rows under a header without repeats and reading them back
   * gives, row for row, the value written for every header column.
   */
  lemma WriteThenRead(header: seq<string>, rows: seq<Dict>, i: nat, k: string)
    requires |header| > 0 && NoDuplicates(header)
    requires WriteAll(header, rows).Ok?
    requires i < |rows| && k in header
    ensures |ReadRows(WriteAll(header, rows).value)| == |rows|
    ensures Lookup(ReadRows(WriteAll(header, rows).value)[i], k) == Some(Get(rows[i], k, ""))
  {
    ReadWritten(header, rows);
    var c :| 0 <= c < |header| && header[c] == k;
    CellsReadBack(header, rows[i], c);
  }

  /** A written file reads back as one row per row written, each its record read under the header. */
  lemma ReadWritten(header: seq<string>, rows: seq<Dict>)
    requires |header| > 0 && WriteAll(header, rows).Ok?
    ensures |ReadRows(WriteAll(header, rows).value)| == |rows|
    ensures forall j :: 0 <= j < |rows| ==>
      ReadRows(WriteAll(header, rows).value)[j] == ZipRow(header, Cells(header, rows[j]))
  {
    var lines := WriteAll(header, rows).value;
    assert forall j :: 0 <= j < |lines[1..]| ==> lines[1..][j] == Cells(header, rows[j]);
    assert forall j :: 0 <= j < |lines[1..]| ==> lines[1..][j] != [];
  }
}
