/**
 * The log stage of the report handler (`save_pdf`): find the request's
 * row, record the interviewee on it, copy out the fields the report needs
 * and rewrite the log under a header that has `narasumber` and `topik`.
 */
module Report {
  import opened Wrappers
  import opened Dicts
  import opened Csv
  import opened Requests
  import opened Ledger

  /** The request fields the report shows. */
  datatype ReportFields = ReportFields(pewawancara: string, waktu: string, instansi: string,
                                       jenis: string, topik: string)

  /** The placeholder for a field the log does not supply. */
  const Unknown := "-"

  const NoFields := ReportFields(Unknown, Unknown, Unknown, Unknown, Unknown)

  /** The fields copied out of a matching row, `-` where the row lacks the column. */
  function FieldsOf(row: Dict): ReportFields
  {
    ReportFields(Get(row, "nama", Unknown), Get(row, "waktu", Unknown), Get(row, "perusahaan", Unknown),
                 Get(row, "jenis", Unknown), Get(row, "topik", Unknown))
  }

  /** The fields `save_pdf` ends its scan with: those of the first matching row, or all `-`. */
  function FieldsFor(rows: seq<Dict>, token: string): (f: ReportFields)
    ensures (forall j :: 0 <= j < |rows| ==> !HasToken(rows[j], token)) ==> f == NoFields
    ensures forall i :: IsFirstMatch(rows, token, i) ==> f == FieldsOf(rows[i])
  {
    match FirstMatch(rows, token)
    case None => NoFields
    case Some(i) => assert forall k :: IsFirstMatch(rows, token, k) ==> k == i; FieldsOf(rows[i])
  }

  /** The rows after the scan: the first matching row gets `narasumber`, no other row changes. */
  function MarkNarrator(rows: seq<Dict>, token: string, narasumber: string): (r: seq<Dict>)
    ensures |r| == |rows|
    ensures forall i :: IsFirstMatch(rows, token, i) ==> r[i] == Set(rows[i], "narasumber", narasumber)
    ensures forall i :: 0 <= i < |rows| && !IsFirstMatch(rows, token, i) ==> r[i] == rows[i]
  {
    match FirstMatch(rows, token)
    case None => rows
    case Some(i) =>
      assert forall k :: IsFirstMatch(rows, token, k) ==> k == i;
      rows[i := Set(rows[i], "narasumber", narasumber)]
  }

  /**
   * The scan of `save_pdf` over the rows it read, in place: the first row
   * whose token matches gets the interviewee and the loop stops there; the
   * fields start as `-` and are copied from that row.
   */
  method RecordNarrator(logs: array<Dict>, token: string, narasumber: string) returns (fields: ReportFields)
    modifies logs
    ensures logs[..] == MarkNarrator(old(logs[..]), token, narasumber)
    ensures fields == FieldsFor(old(logs[..]), token)
  {
    fields := NoFields;
    var i := 0;
    while i < logs.Length
      invariant 0 <= i <= logs.Length
      invariant logs[..] == old(logs[..])
      invariant forall j :: 0 <= j < i ==> !HasToken(logs[j], token)
    {
      if Lookup(logs[i], "token") == Some(token) {
        assert IsFirstMatch(logs[..], token, i);
        fields := FieldsOf(logs[i]);
        logs[i] := Set(logs[i], "narasumber", narasumber);
        return;
      }
      i := i + 1;
    }
  }

  /** Marking touches no token, so the first match stays where it was. */
  lemma MarkNarratorKeepsMatch(rows: seq<Dict>, token: string, narasumber: string, t: string)
    ensures forall i :: 0 <= i < |rows| ==>
      (HasToken(MarkNarrator(rows, token, narasumber)[i], t) <==> HasToken(rows[i], t))
    ensures FirstMatch(MarkNarrator(rows, token, narasumber), t) == FirstMatch(rows, t)
  {
    var r := MarkNarrator(rows, token, narasumber);
    assert forall i :: 0 <= i < |rows| ==> Lookup(r[i], "token") == Lookup(rows[i], "token");
    match FirstMatch(rows, t)
    case None =>
    case Some(i) => FirstMatchAt(r, t, i);
  }

  /**
   * Saving a report twice for the same token leaves the log as one save
   * with the second interviewee would: the last write wins.
   */
  lemma MarkNarratorTwice(rows: seq<Dict>, token: string, n1: string, n2: string)
    ensures MarkNarrator(MarkNarrator(rows, token, n1), token, n2) == MarkNarrator(rows, token, n2)
  {
    var once := MarkNarrator(rows, token, n1);
    var twice := MarkNarrator(once, token, n2);
    var direct := MarkNarrator(rows, token, n2);
    MarkNarratorKeepsMatch(rows, token, n1, token);
    forall i | 0 <= i < |rows| ensures twice[i] == direct[i] {
      if IsFirstMatch(rows, token, i) {
        assert IsFirstMatch(once, token, i);
        SetTwice(rows[i], "narasumber", n1, n2);
      } else {
        assert !IsFirstMatch(once, token, i);
      }
    }
  }

  /**
   * `fieldnames`: the keys of the first row, then `narasumber` and `topik`,
   * each added only when missing; an empty log has no first row
   * (`IndexError`).
   */
  function Header(rows: seq<Dict>): (h: Option<seq<string>>)
    ensures h.None? <==> rows == []
    ensures h.Some? ==> Keys(rows[0]) <= h.value
    ensures h.Some? ==> "narasumber" in h.value && "topik" in h.value
    ensures h.Some? ==> forall i :: |rows[0]| <= i < |h.value| ==> h.value[i] == "narasumber" || h.value[i] == "topik"
    ensures h.Some? ==> |h.value| == |rows[0]| + (if "narasumber" in Keys(rows[0]) then 0 else 1)
                                                + (if "topik" in Keys(rows[0]) then 0 else 1)
    ensures h.Some? && "narasumber" !in Keys(rows[0]) ==> h.value[|rows[0]|] == "narasumber"
    ensures h.Some? && "topik" !in Keys(rows[0]) ==> h.value[|h.value| - 1] == "topik"
    ensures h.Some? && UniqueKeys(rows[0]) ==> NoDuplicates(h.value)
  {
    if rows == [] then None
    else
      var keys := Keys(rows[0]);
      var withNarrator := if "narasumber" in keys then keys else keys + ["narasumber"];
      var withTopic := if "topik" in withNarrator then withNarrator else withNarrator + ["topik"];
      UniqueKeysNoDuplicates(rows[0]);
      Some(withTopic)
  }

  /** Why the log stage of `save_pdf` fails. */
  datatype LogFailure =
    | EmptyLog                        // the log holds a header and no row: `logs[0]` raises
    | UnknownField(partial: CsvLines) // a row has a column the header lacks: the writer raises

  /**
   * The log stage on the rows that were read: mark the row, compute the
   * header from the marked first row, rewrite the whole log.
   */
  function RewriteLog(rows: seq<Dict>, token: string, narasumber: string): (r: Result<CsvLines, LogFailure>)
    ensures r == Err(EmptyLog) <==> rows == []
  {
    var marked := MarkNarrator(rows, token, narasumber);
    match Header(marked)
    case None => Err(EmptyLog)
    case Some(h) =>
      match WriteAll(h, marked)
      case Ok(lines) => Ok(lines)
      case Err(partial) => Err(UnknownField(partial))
  }

  /** Every row read from one file has the keys of an empty line read under its header. */
  lemma {:induction false} ReadRowsKeys(lines: CsvLines)
    requires lines != []
    ensures forall i :: 0 <= i < |ReadRows(lines)| ==>
      Keys(ReadRows(lines)[i]) == Keys(ZipRow(lines[0], [])) && UniqueKeys(ReadRows(lines)[i])
  {
    DataRowsKeys(lines[0], lines[1..]);
  }

  lemma {:induction false} DataRowsKeys(header: seq<string>, lines: CsvLines)
    ensures forall i :: 0 <= i < |DataRows(header, lines)| ==> ReadShape(header, DataRows(header, lines)[i])
    decreases |lines|
  {
    if lines != [] {
      var rest := DataRows(header, lines[1..]);
      DataRowsKeys(header, lines[1..]);
      if lines[0] != [] {
        var rows := DataRows(header, lines);
        ZipRowKeys(header, lines[0], []);
        assert ReadShape(header, rows[0]);
        assert rows == [ZipRow(header, lines[0])] + rest;
        forall i | 1 <= i < |rows| ensures ReadShape(header, rows[i]) {
          assert ReadShape(header, rest[i - 1]);
        }
      }
    }
  }

  /** A row as read under `header`: the header's columns as keys, none twice. */
  predicate ReadShape(header: seq<string>, row: Dict)
  {
    Keys(row) == Keys(ZipRow(header, [])) && UniqueKeys(row)
  }

  /**
   * On a log read from a file that has at least one row, the rewrite never
   * raises: every row's columns are in the new header. This rests on
   * `ReadRows` truncating a line longer than the header; `DictReader` keeps
   * the extra cells under `None`, and the rewrite raises when such a line
   * is not the first data row.
   */
  lemma RewriteSucceeds(lines: CsvLines, token: string, narasumber: string)
    requires lines != [] && ReadRows(lines) != []
    ensures RewriteLog(ReadRows(lines), token, narasumber).Ok?
  {
    var rows := ReadRows(lines);
    ReadRowsKeys(lines);
    var keys := Keys(rows[0]);
    var marked := MarkNarrator(rows, token, narasumber);
    var h := Header(marked).value;
    forall i | 0 <= i < |marked| ensures Covered(h, marked[i]) {
      assert Keys(rows[i]) == keys;
      if IsFirstMatch(rows, token, i) {
        assert Keys(marked[i]) == if "narasumber" in keys then keys else keys + ["narasumber"];
      }
      assert Keys(marked[0]) == keys || Keys(marked[0]) == keys + ["narasumber"];
    }
  }

  /**
   * The rewrite keeps a handler-written header one: the eight request
   * columns stay first (`narasumber` may follow) and no column is repeated,
   * so requests logged afterwards can still be looked up.
   */
  lemma RewriteKeepsLogHeader(lines: CsvLines, token: string, narasumber: string)
    requires |lines| > 0 && LogHeader(lines[0]) && ReadRows(lines) != []
    ensures RewriteLog(ReadRows(lines), token, narasumber).Ok?
    ensures LogHeader(RewriteLog(ReadRows(lines), token, narasumber).value[0])
  {
    var rows := ReadRows(lines);
    RewriteSucceeds(lines, token, narasumber);
    ReadRowsKeys(lines);
    ZipRowKeysAre(lines[0], []);
    assert Keys(rows[0]) == lines[0] && UniqueKeys(rows[0]);
    HeaderOfMarked(rows, token, narasumber);
    RewrittenHeader(rows, token, narasumber);
  }

  /** The header computed after marking starts with the first row's keys and repeats none. */
  lemma HeaderOfMarked(rows: seq<Dict>, token: string, narasumber: string)
    requires rows != [] && UniqueKeys(rows[0])
    ensures Header(MarkNarrator(rows, token, narasumber)).Some?
    ensures Keys(rows[0]) <= Header(MarkNarrator(rows, token, narasumber)).value
    ensures NoDuplicates(Header(MarkNarrator(rows, token, narasumber)).value)
  {
    var marked := MarkNarrator(rows, token, narasumber);
    MarkedFirstRow(rows, token, narasumber);
    assert Keys(rows[0]) <= Keys(marked[0]) <= Header(marked).value;
  }

  /** The marked first row keeps the first row's keys in front and repeats none. */
  lemma MarkedFirstRow(rows: seq<Dict>, token: string, narasumber: string)
    requires rows != [] && UniqueKeys(rows[0])
    ensures Keys(rows[0]) <= Keys(MarkNarrator(rows, token, narasumber)[0])
    ensures UniqueKeys(MarkNarrator(rows, token, narasumber)[0])
  {
    if IsFirstMatch(rows, token, 0) {
      SetKeepsUnique(rows[0], "narasumber", narasumber);
    }
  }

  /** A rewritten log starts with the header computed from the marked rows. */
  lemma RewrittenHeader(rows: seq<Dict>, token: string, narasumber: string)
    requires RewriteLog(rows, token, narasumber).Ok?
    ensures rows != []
    ensures RewriteLog(rows, token, narasumber).value[0] == Header(MarkNarrator(rows, token, narasumber)).value
  {
    var marked := MarkNarrator(rows, token, narasumber);
    assert RewriteLog(rows, token, narasumber).value == WriteAll(Header(marked).value, marked).value;
  }

  /**
   * After the rewrite, reading the log back gives as many rows as before;
   * the first row with the token shows the new interviewee, and every
   * column of every row reads as it was before.
   */
  lemma RewriteReadsBack(rows: seq<Dict>, token: string, narasumber: string, k: string, i: nat)
    requires RewriteLog(rows, token, narasumber).Ok?
    requires UniqueKeys(MarkNarrator(rows, token, narasumber)[0])
    requires i < |rows| && k in Header(MarkNarrator(rows, token, narasumber)).value
    ensures |ReadRows(RewriteLog(rows, token, narasumber).value)| == |rows|
    ensures var back := ReadRows(RewriteLog(rows, token, narasumber).value);
      && (IsFirstMatch(rows, token, i) ==> Lookup(back[i], "narasumber") == Some(narasumber))
      && (k != "narasumber" || !IsFirstMatch(rows, token, i) ==> Lookup(back[i], k) == Some(Get(rows[i], k, "")))
  {
    var marked := MarkNarrator(rows, token, narasumber);
    var h := Header(marked).value;
    assert RewriteLog(rows, token, narasumber).value == WriteAll(h, marked).value;
    assert |h| > 0;
    WriteThenRead(h, marked, i, k);
    WriteThenRead(h, marked, i, "narasumber");
    MarkedCell(rows, token, narasumber, i, k);
    MarkedCell(rows, token, narasumber, i, "narasumber");
  }

  /** A cell of a marked row: the interviewee on the first match, otherwise as before. */
  lemma MarkedCell(rows: seq<Dict>, token: string, narasumber: string, i: nat, k: string)
    requires i < |rows|
    ensures Get(MarkNarrator(rows, token, narasumber)[i], k, "")
         == if IsFirstMatch(rows, token, i) && k == "narasumber" then narasumber else Get(rows[i], k, "")
  {
  }
}
