/**
 * The history page (`historis`): every logged request, with `-` for a
 * missing interviewee and a link to the report PDF whose file name carries
 * the request's token.
 */
module History {
  import opened Wrappers
  import opened Text
  import opened Dicts
  import opened Csv
  import opened Requests
  import opened Ledger
  import opened Report
  import opened SaveReport

  /** A report file: `wawancara_…` ending in `.pdf`. */
  predicate IsReportPdf(name: string)
  {
    StartsWith(name, "wawancara_") && EndsWith(name, ".pdf")
  }

  /** The report files of a directory listing, in listing order. */
  function ReportPdfs(listing: seq<string>): (pdfs: seq<string>)
    ensures |pdfs| <= |listing|
    ensures forall x :: x in pdfs <==> x in listing && IsReportPdf(x)
  {
    if listing == [] then []
    else (if IsReportPdf(listing[0]) then [listing[0]] else []) + ReportPdfs(listing[1..])
  }

  /**
   * The token a report file name carries: drop every `.pdf`, split at the
   * underscores and, when there are at least four pieces, join the second
   * and third.
   */
  function ParseToken(name: string): Option<string>
  {
    var parts := Split(ReplaceAll(name, ".pdf", ""), '_');
    if |parts| >= 4 then Some(parts[1] + "_" + parts[2]) else None
  }

  /** `token_to_pdf`: each parsed token maps to its file's link; a later file wins. */
  function PdfIndex(pdfs: seq<string>): map<string, string>
    decreases |pdfs|
  {
    if pdfs == [] then map[]
    else
      var n := |pdfs| - 1;
      var index := PdfIndex(pdfs[..n]);
      match ParseToken(pdfs[n])
      case None => index
      case Some(t) => index[t := "pdf/" + pdfs[n]]
  }

  /** A token is indexed exactly when some file parses to it, and its link is such a file's. */
  lemma {:induction false} PdfIndexLinks(pdfs: seq<string>)
    ensures forall t :: LinksFor(pdfs, t)
    decreases |pdfs|
  {
    if pdfs != [] {
      PdfIndexLinks(pdfs[..|pdfs| - 1]);
      forall t ensures LinksFor(pdfs, t) {
        LinkStep(pdfs, t);
      }
    }
  }

  /**
   * The index of `pdfs` and token `t`: `t` is indexed exactly when some
   * file parses to it, and then its link is such a file's.
   */
  predicate LinksFor(pdfs: seq<string>, t: string)
  {
    && (t in PdfIndex(pdfs) <==> exists i :: 0 <= i < |pdfs| && ParseToken(pdfs[i]) == Some(t))
    && (t in PdfIndex(pdfs) ==>
          exists i :: 0 <= i < |pdfs| && ParseToken(pdfs[i]) == Some(t) && PdfIndex(pdfs)[t] == "pdf/" + pdfs[i])
  }

  /** One more file: the links for `t` follow from those of the files before it. */
  lemma LinkStep(pdfs: seq<string>, t: string)
    requires pdfs != [] && LinksFor(pdfs[..|pdfs| - 1], t)
    ensures LinksFor(pdfs, t)
  {
    var n := |pdfs| - 1;
    var init := pdfs[..n];
    if ParseToken(pdfs[n]) == Some(t) {
      assert PdfIndex(pdfs) == PdfIndex(init)[t := "pdf/" + pdfs[n]];
    } else {
      assert t in PdfIndex(pdfs) <==> t in PdfIndex(init);
      assert t in PdfIndex(init) ==> PdfIndex(pdfs)[t] == PdfIndex(init)[t];
      if t in PdfIndex(init) {
        var i :| 0 <= i < n && ParseToken(init[i]) == Some(t) && PdfIndex(init)[t] == "pdf/" + init[i];
        assert pdfs[i] == init[i];
      } else {
        forall i | 0 <= i < |pdfs| ensures ParseToken(pdfs[i]) != Some(t) {
          if i < n { assert pdfs[i] == init[i]; }
        }
      }
    }
  }

  /** The link for a token is the last file in the listing that carries it. */
  lemma {:induction false} PdfIndexLatest(pdfs: seq<string>, t: string, i: nat)
    requires i < |pdfs| && ParseToken(pdfs[i]) == Some(t)
    requires forall j :: i < j < |pdfs| ==> ParseToken(pdfs[j]) != Some(t)
    ensures t in PdfIndex(pdfs) && PdfIndex(pdfs)[t] == "pdf/" + pdfs[i]
    decreases |pdfs|
  {
    var n := |pdfs| - 1;
    var init := pdfs[..n];
    if i < n {
      assert init[i] == pdfs[i];
      assert forall j :: i < j < n ==> init[j] == pdfs[j];
      PdfIndexLatest(init, t, i);
      match ParseToken(pdfs[n]) {
        case None => assert PdfIndex(pdfs) == PdfIndex(init);
        case Some(u) => assert u != t && PdfIndex(pdfs) == PdfIndex(init)[u := "pdf/" + pdfs[n]];
      }
    } else {
      assert PdfIndex(pdfs) == PdfIndex(init)[t := "pdf/" + pdfs[n]];
    }
  }

  /** Filtering a listing keeps its order: the report files of two halves, joined. */
  lemma {:induction false} ReportPdfsAppend(a: seq<string>, b: seq<string>)
    ensures ReportPdfs(a + b) == ReportPdfs(a) + ReportPdfs(b)
    decreases |a|
  {
    if a == [] {
      assert a + b == b;
    } else {
      var head := if IsReportPdf(a[0]) then [a[0]] else [];
      assert (a + b)[0] == a[0] && (a + b)[1..] == a[1..] + b;
      ReportPdfsAppend(a[1..], b);
      assert head + (ReportPdfs(a[1..]) + ReportPdfs(b)) == (head + ReportPdfs(a[1..])) + ReportPdfs(b);
    }
  }

  /**
   * Over the directory listing itself: a report file for token `t` that no
   * later report file in the listing shares is the page's link for `t`.
   */
  lemma ListingLatest(before: seq<string>, pdf: string, after: seq<string>, t: string)
    requires IsReportPdf(pdf) && ParseToken(pdf) == Some(t)
    requires forall y :: y in after && IsReportPdf(y) ==> ParseToken(y) != Some(t)
    ensures t in PdfIndex(ReportPdfs(before + [pdf] + after))
    ensures PdfIndex(ReportPdfs(before + [pdf] + after))[t] == "pdf/" + pdf
  {
    ReportPdfsAround(before, pdf, after);
    IndexLatestAround(ReportPdfs(before), pdf, ReportPdfs(after), t);
  }

  /** The report files of a listing around one report file. */
  lemma ReportPdfsAround(before: seq<string>, pdf: string, after: seq<string>)
    requires IsReportPdf(pdf)
    ensures ReportPdfs(before + [pdf] + after) == ReportPdfs(before) + [pdf] + ReportPdfs(after)
  {
    ReportPdfsAppend(before + [pdf], after);
    ReportPdfsAppend(before, [pdf]);
    assert ReportPdfs([pdf]) == [pdf];
  }

  /** A file that no later file shares its token with is the link for that token. */
  lemma IndexLatestAround(before: seq<string>, pdf: string, after: seq<string>, t: string)
    requires ParseToken(pdf) == Some(t)
    requires forall y :: y in after ==> ParseToken(y) != Some(t)
    ensures t in PdfIndex(before + [pdf] + after)
    ensures PdfIndex(before + [pdf] + after)[t] == "pdf/" + pdf
  {
    var pdfs := before + [pdf] + after;
    var i := |before|;
    forall j | i < j < |pdfs| ensures ParseToken(pdfs[j]) != Some(t) {
      assert pdfs[j] == after[j - i - 1];
    }
    PdfIndexLatest(pdfs, t, i);
  }

  /** The loop that builds `token_to_pdf` from the report files of a listing. */
  method BuildPdfIndex(listing: seq<string>) returns (index: map<string, string>)
    ensures index == PdfIndex(ReportPdfs(listing))
  {
    var pdfs := ReportPdfs(listing);
    index := map[];
    for k := 0 to |pdfs|
      invariant index == PdfIndex(pdfs[..k])
    {
      var pdf := pdfs[k];
      var parts := Split(ReplaceAll(pdf, ".pdf", ""), '_');
      if |parts| >= 4 {
        index := index[parts[1] + "_" + parts[2] := "pdf/" + pdf];
      }
      assert pdfs[..k + 1][..k] == pdfs[..k];
    }
    assert pdfs[..|pdfs|] == pdfs;
  }

  /** A row read for the page: `-` as interviewee when the log has no such column. */
  function WithNarrator(row: Dict): Dict
  {
    if "narasumber" in Keys(row) then row else Set(row, "narasumber", "-")
  }

  /** The row with its report link: the index entry for its token, or empty. */
  function Annotate(row: Dict, index: map<string, string>): Dict
  {
    var token := Get(row, "token", "");
    Set(row, "pdf_file", if token in index then index[token] else "")
  }

  /** The rows of a log file that is absent (`None`) or holds `lines`. */
  function LogRows(file: Option<CsvLines>): seq<Dict>
  {
    if file.None? then [] else ReadRows(file.value)
  }

  /** What the page shows, for a log file and a listing of the report directory. */
  function HistoryRows(file: Option<CsvLines>, listing: seq<string>): (rows: seq<Dict>)
    ensures |rows| == |LogRows(file)|
  {
    var logs := LogRows(file);
    var index := PdfIndex(ReportPdfs(listing));
    seq(|logs|, i requires 0 <= i < |logs| => Annotate(WithNarrator(logs[i]), index))
  }

  /** The reading loop: each row, with `-` as interviewee when it has none. */
  method FillNarrators(rows: seq<Dict>) returns (logs: seq<Dict>)
    ensures |logs| == |rows|
    ensures forall j :: 0 <= j < |rows| ==> logs[j] == WithNarrator(rows[j])
  {
    logs := [];
    for i := 0 to |rows|
      invariant |logs| == i
      invariant forall j :: 0 <= j < i ==> logs[j] == WithNarrator(rows[j])
    {
      var row := rows[i];
      if "narasumber" !in Keys(row) {
        row := Set(row, "narasumber", "-");
      }
      NarratedStep(rows, logs, row);
      logs := logs + [row];
    }
  }

  /** One more row of `FillNarrators`: the prefix stays narrated. */
  lemma NarratedStep(rows: seq<Dict>, logs: seq<Dict>, row: Dict)
    requires |logs| < |rows|
    requires forall j :: 0 <= j < |logs| ==> logs[j] == WithNarrator(rows[j])
    requires row == (if "narasumber" !in Keys(rows[|logs|]) then Set(rows[|logs|], "narasumber", "-") else rows[|logs|])
    ensures forall j :: 0 <= j <= |logs| ==> (logs + [row])[j] == WithNarrator(rows[j])
  {
  }

  /** The linking loop: each row gets the index entry for its token, or empty. */
  method LinkReports(rows: seq<Dict>, index: map<string, string>) returns (logs: seq<Dict>)
    ensures |logs| == |rows|
    ensures forall j :: 0 <= j < |rows| ==> logs[j] == Annotate(rows[j], index)
  {
    logs := rows;
    for i := 0 to |logs|
      invariant |logs| == |rows|
      invariant forall j :: 0 <= j < i ==> logs[j] == Annotate(rows[j], index)
      invariant forall j :: i <= j < |rows| ==> logs[j] == rows[j]
    {
      var token := Get(logs[i], "token", "");
      logs := logs[i := Set(logs[i], "pdf_file", if token in index then index[token] else "")];
    }
  }

  /** `historis`: read the rows, build the index, link the rows. */
  method Historis(file: Option<CsvLines>, listing: seq<string>) returns (logs: seq<Dict>)
    ensures logs == HistoryRows(file, listing)
  {
    var rows := LogRows(file);
    var read := FillNarrators(rows);
    var index := BuildPdfIndex(listing);
    logs := LinkReports(read, index);
  }

  /**
   * Each row on the page: the interviewee is the logged one or `-`, the link
   * is the index entry for the row's token or empty, and every other column
   * is as logged.
   */
  lemma HistoryRowShape(file: Option<CsvLines>, listing: seq<string>, i: nat)
    requires i < |LogRows(file)|
    ensures var row := LogRows(file)[i];
      var shown := HistoryRows(file, listing)[i];
      var index := PdfIndex(ReportPdfs(listing));
      var token := Get(row, "token", "");
      && Lookup(shown, "narasumber") == Some(if "narasumber" in Keys(row) then Get(row, "narasumber", "") else "-")
      && Lookup(shown, "pdf_file") == Some(if token in index then index[token] else "")
      && forall k :: k != "narasumber" && k != "pdf_file" ==> Lookup(shown, k) == Lookup(row, k)
  {
    var row := LogRows(file)[i];
    var index := PdfIndex(ReportPdfs(listing));
    var read := WithNarrator(row);
    assert HistoryRows(file, listing)[i] == Annotate(read, index);
    WithNarratorShape(row);
    AnnotateShape(read, index);
  }

  lemma WithNarratorShape(row: Dict)
    ensures Lookup(WithNarrator(row), "narasumber")
         == Some(if "narasumber" in Keys(row) then Get(row, "narasumber", "") else "-")
    ensures forall k :: k != "narasumber" ==> Lookup(WithNarrator(row), k) == Lookup(row, k)
  {
  }

  lemma AnnotateShape(row: Dict, index: map<string, string>)
    ensures var token := Get(row, "token", "");
      Lookup(Annotate(row, index), "pdf_file") == Some(if token in index then index[token] else "")
    ensures forall k :: k != "pdf_file" ==> Lookup(Annotate(row, index), k) == Lookup(row, k)
  {
  }

  /**
   * A file name built by the report handler reads back as the first two
   * underscore-separated pieces of its token, whatever the interviewee is
   * called, provided the token holds `.pdf` nowhere.
   */
  lemma ParsePdfName(token: string, narasumber: string)
    requires !Contains(token, ".pdf") && |Split(token, '_')| >= 2
    ensures IsReportPdf(PdfName(token, narasumber))
    ensures ParseToken(PdfName(token, narasumber)) == Some(Split(token, '_')[0] + "_" + Split(token, '_')[1])
  {
    ReportNameIsListed(token, narasumber);
    var parts := PdfNamePieces(token, narasumber);
    assert Split(ReplaceAll(PdfName(token, narasumber), ".pdf", ""), '_') == parts;
  }

  /** A report's file name passes the listing filter. */
  lemma ReportNameIsListed(token: string, narasumber: string)
    ensures IsReportPdf(PdfName(token, narasumber))
  {
    var name := PdfName(token, narasumber);
    assert name == "wawancara_" + (token + "_" + SafeName(narasumber)) + ".pdf";
    assert name[..|"wawancara_"|] == "wawancara_";
    assert name[|name| - 4..] == ".pdf";
  }

  /** Splitting `prefix_token_rest` for a prefix without underscores. */
  lemma SplitThree(prefix: string, token: string, rest: string)
    requires '_' !in prefix
    ensures Split(prefix + ['_'] + (token + ['_'] + rest), '_') == [prefix] + Split(token, '_') + Split(rest, '_')
  {
    SplitConcat(prefix, '_', token + ['_'] + rest);
    SplitConcat(token, '_', rest);
    SplitWithout(prefix, '_');
  }

  /** The pieces of a report name: `wawancara`, the token's pieces, then at least one more. */
  lemma PdfNamePieces(token: string, narasumber: string) returns (parts: seq<string>)
    requires !Contains(token, ".pdf")
    ensures parts == Split(ReplaceAll(PdfName(token, narasumber), ".pdf", ""), '_')
    ensures |parts| >= |Split(token, '_')| + 2 && parts[0] == "wawancara"
    ensures forall i :: 0 <= i < |Split(token, '_')| ==> parts[i + 1] == Split(token, '_')[i]
  {
    var tail := SafeName(narasumber) + ".pdf";
    NameParts(token, SafeName(narasumber), ".pdf");
    var y := ReplaceAll(tail, ".pdf", "");
    ReplaceAfter(token, '_', tail, ".pdf", "");
    FirstCharAbsent("wawancara", ".pdf");
    ReplaceAfter("wawancara", '_', token + ['_'] + tail, ".pdf", "");
    SplitThree("wawancara", token, y);
    parts := ["wawancara"] + Split(token, '_') + Split(y, '_');
    PiecesIndex(["wawancara"], Split(token, '_'), Split(y, '_'));
  }

  /** Indexing into three joined lists of pieces. */
  lemma PiecesIndex(a: seq<string>, b: seq<string>, c: seq<string>)
    requires |a| == 1
    ensures forall i :: 0 <= i < |b| ==> (a + b + c)[i + 1] == b[i]
  {
  }

  /** A token with exactly one underscore and no `.pdf` is found again from the report's file name. */
  lemma TokenRoundTrip(token: string, narasumber: string)
    requires !Contains(token, ".pdf") && |Split(token, '_')| == 2
    ensures ParseToken(PdfName(token, narasumber)) == Some(token)
  {
    ParsePdfName(token, narasumber);
    JoinSplit(token, '_');
  }

  /**
   * A token with a second underscore (a company name that holds one) is not:
   * the report is filed under a shorter token and no row links to it.
   */
  lemma UnderscoreLosesLink(token: string, narasumber: string)
    requires !Contains(token, ".pdf") && |Split(token, '_')| >= 3
    ensures ParseToken(PdfName(token, narasumber)) != Some(token)
  {
    ParsePdfName(token, narasumber);
    var parts := Split(token, '_');
    JoinSplit(token, '_');
    assert Join(parts, '_') == parts[0] + ['_'] + (parts[1] + ['_'] + Join(parts[2..], '_')) by {
      assert parts[1..][1..] == parts[2..];
    }
    assert |token| > |parts[0] + "_" + parts[1]|;
  }

  /**
   * The token of a request whose company name and schedule hold no
   * underscore is found again from its report's file name.
   */
  lemma RequestTokenRoundTrip(perusahaan: string, waktu: string, narasumber: string)
    requires '_' !in perusahaan && '_' !in waktu
    requires !Contains(DeriveToken(perusahaan, waktu), ".pdf")
    ensures ParseToken(PdfName(DeriveToken(perusahaan, waktu), narasumber)) == Some(DeriveToken(perusahaan, waktu))
  {
    TokenParts(perusahaan, waktu);
    TokenRoundTrip(DeriveToken(perusahaan, waktu), narasumber);
  }

  /** A row that has a column before the log stage still has it after the rewrite. */
  lemma ColumnsSurviveRewrite(lines: CsvLines, token: string, narasumber: string, i: nat, k: string)
    requires lines != [] && i < |ReadRows(lines)| && k in Keys(ReadRows(lines)[i])
    ensures var marked := MarkNarrator(ReadRows(lines), token, narasumber);
      Header(marked).Some? && k in Header(marked).value && UniqueKeys(marked[0])
  {
    var rows := ReadRows(lines);
    ReadRowsKeys(lines);
    assert k in Keys(rows[0]) && UniqueKeys(rows[0]) by {
      assert Keys(rows[i]) == Keys(rows[0]);
    }
    FirstRowKeeps(rows, token, narasumber, k);
    var marked := MarkNarrator(rows, token, narasumber);
    PrefixHolds(Keys(marked[0]), Header(marked).value, k);
  }

  /** Marking keeps the first row's columns, and keeps them unique. */
  lemma FirstRowKeeps(rows: seq<Dict>, token: string, narasumber: string, k: string)
    requires rows != [] && k in Keys(rows[0]) && UniqueKeys(rows[0])
    ensures var marked := MarkNarrator(rows, token, narasumber);
      k in Keys(marked[0]) && UniqueKeys(marked[0])
  {
    if IsFirstMatch(rows, token, 0) {
      SetKeepsUnique(rows[0], "narasumber", narasumber);
    }
  }

  lemma PrefixHolds(a: seq<string>, b: seq<string>, x: string)
    requires a <= b && x in a
    ensures x in b
  {
    var j :| 0 <= j < |a| && a[j] == x;
    assert b[j] == x;
  }

  /** `name` is the one report file in the listing filed under `token`. */
  predicate OnlyReportFor(listing: seq<string>, token: string, name: string)
  {
    forall x :: x in listing && IsReportPdf(x) && ParseToken(x) == Some(token) ==> x == name
  }

  /** The rewritten log, read back, has the request's row with its token and the new interviewee. */
  lemma RewrittenRowReads(lines: CsvLines, token: string, narasumber: string, i: nat)
    requires lines != [] && IsFirstMatch(ReadRows(lines), token, i)
    ensures RewriteLog(ReadRows(lines), token, narasumber).Ok?
    ensures var back := ReadRows(RewriteLog(ReadRows(lines), token, narasumber).value);
      && i < |back|
      && Lookup(back[i], "narasumber") == Some(narasumber)
      && Get(back[i], "token", "") == token
  {
    var rows := ReadRows(lines);
    RewriteSucceeds(lines, token, narasumber);
    ColumnsSurviveRewrite(lines, token, narasumber, i, "token");
    RewriteReadsBack(rows, token, narasumber, "token", i);
  }

  /** The only report filed under a round-tripping token is the index's link for it. */
  lemma IndexLinksReport(listing: seq<string>, token: string, narasumber: string)
    requires !Contains(token, ".pdf") && |Split(token, '_')| == 2
    requires PdfName(token, narasumber) in listing
    requires OnlyReportFor(listing, token, PdfName(token, narasumber))
    ensures var index := PdfIndex(ReportPdfs(listing));
      token in index && index[token] == "pdf/" + PdfName(token, narasumber)
  {
    var name := PdfName(token, narasumber);
    var pdfs := ReportPdfs(listing);
    ReportNameIsListed(token, narasumber);
    TokenRoundTrip(token, narasumber);
    assert name in pdfs;
    var k :| 0 <= k < |pdfs| && pdfs[k] == name;
    assert ParseToken(pdfs[k]) == Some(token);
    var index := PdfIndex(pdfs);
    PdfIndexLinks(pdfs);
    assert LinksFor(pdfs, token);
    assert token in index;
    var j :| 0 <= j < |pdfs| && ParseToken(pdfs[j]) == Some(token) && index[token] == "pdf/" + pdfs[j];
    assert pdfs[j] in listing && IsReportPdf(pdfs[j]);
  }

  /**
   * After a report is saved for the first row carrying a request's token,
   * and its PDF is the only report in the listing filed under that token,
   * the history page shows that row with the interviewee and the link to
   * that PDF.
   */
  lemma SavedReportIsLinked(lines: CsvLines, form: Form, template: seq<Template.Paragraph>,
                            listing: seq<string>, i: nat)
    requires "token" in form && "narasumber" in form && "transkripsi" in form
    requires lines != [] && IsFirstMatch(ReadRows(lines), form["token"], i)
    requires !Contains(form["token"], ".pdf") && |Split(form["token"], '_')| == 2
    requires PdfName(form["token"], form["narasumber"]) in listing
    requires OnlyReportFor(listing, form["token"], PdfName(form["token"], form["narasumber"]))
    ensures var s := SavePdfSpec(Some(lines), form, template);
      && s.response.Ok?
      && i < |HistoryRows(s.log, listing)|
      && Lookup(HistoryRows(s.log, listing)[i], "narasumber") == Some(form["narasumber"])
      && Lookup(HistoryRows(s.log, listing)[i], "pdf_file")
         == Some("pdf/" + PdfName(form["token"], form["narasumber"]))
  {
    var token, narasumber := form["token"], form["narasumber"];
    PageAfterRewrite(lines, token, narasumber, listing, i);
    SavedLog(lines, form, template);
  }

  /** The page for the rewritten log shows the row with the interviewee and the link. */
  lemma PageAfterRewrite(lines: CsvLines, token: string, narasumber: string, listing: seq<string>, i: nat)
    requires lines != [] && IsFirstMatch(ReadRows(lines), token, i)
    requires !Contains(token, ".pdf") && |Split(token, '_')| == 2
    requires PdfName(token, narasumber) in listing
    requires OnlyReportFor(listing, token, PdfName(token, narasumber))
    ensures RewriteLog(ReadRows(lines), token, narasumber).Ok?
    ensures var page := HistoryRows(Some(RewriteLog(ReadRows(lines), token, narasumber).value), listing);
      && i < |page|
      && Lookup(page[i], "narasumber") == Some(narasumber)
      && Lookup(page[i], "pdf_file") == Some("pdf/" + PdfName(token, narasumber))
  {
    RewrittenRowReads(lines, token, narasumber, i);
    var file := Some(RewriteLog(ReadRows(lines), token, narasumber).value);
    HistoryRowShape(file, listing, i);
    IndexLinksReport(listing, token, narasumber);
  }
}
