/**
 * The report handler (`save_pdf`) end to end: read the form, run the log
 * stage, fill the template, save the document and answer with the path of
 * the PDF.
 */
module SaveReport {
  import opened Wrappers
  import opened Text
  import opened Dicts
  import opened Csv
  import opened Requests
  import opened Report
  import opened Template

  /** Where reports are saved, and the path prefix `os.path.join` gives them. */
  const PdfFolder := "static/pdf"

  /** `os.path.join(PDF_FOLDER, name)`. */
  function PdfPath(name: string): string
  {
    PdfFolder + "/" + name
  }

  /**
   * The path the handler answers with names the same file as the link the
   * history page gives it (`pdf/<name>`), seen from the `static` folder.
   */
  lemma PdfPathIsStaticLink(name: string)
    ensures PdfPath(name) == "static/" + ("pdf/" + name)
  {
  }

  /** `narasumber.replace(" ", "_")`. */
  function SafeName(narasumber: string): string
  {
    ReplaceAll(narasumber, " ", "_")
  }

  /** The interviewee's name keeps its length, with each space turned into an underscore. */
  lemma {:induction false} SafeNameShape(narasumber: string)
    ensures |SafeName(narasumber)| == |narasumber|
    ensures forall i :: 0 <= i < |narasumber| ==>
      SafeName(narasumber)[i] == if narasumber[i] == ' ' then '_' else narasumber[i]
    ensures ' ' !in SafeName(narasumber)
    decreases |narasumber|
  {
    if narasumber != [] {
      SafeNameShape(narasumber[1..]);
      assert narasumber[..1] == [narasumber[0]];
    }
  }

  /** The saved document: `wawancara_<token>_<name>.docx`. */
  function DocxName(token: string, narasumber: string): string
  {
    "wawancara_" + token + "_" + SafeName(narasumber) + ".docx"
  }

  /**
   * The PDF the converter writes next to it: the document's name with its
   * final extension changed to `.pdf`.
   */
  function PdfName(token: string, narasumber: string): string
  {
    "wawancara_" + token + "_" + SafeName(narasumber) + ".pdf"
  }

  /** The name the handler answers with: every `.docx` in the document's name replaced. */
  function PdfNameAsWritten(token: string, narasumber: string): string
  {
    ReplaceAll(DocxName(token, narasumber), ".docx", ".pdf")
  }

  /** `.docx` has no border, so one standing at the end of a name is always the one replaced. */
  lemma DocxBorderFree()
    ensures BorderFree(".docx")
  {
    var ext := ".docx";
    forall k | 0 < k < |ext| ensures ext[..k] != ext[|ext| - k..] {
      assert ext[..k][0] == '.' != ext[|ext| - k..][0];
    }
  }

  /** The answered name rewrites the `.docx` pieces inside the interviewee's part too. */
  lemma PdfNameAsWrittenShape(token: string, narasumber: string)
    requires !Contains(token, ".docx")
    ensures PdfNameAsWritten(token, narasumber)
         == "wawancara_" + token + "_" + ReplaceAll(SafeName(narasumber), ".docx", ".pdf") + ".pdf"
  {
    var safe := SafeName(narasumber);
    DocxNameParts(token, safe);
    FirstCharAbsent("wawancara", ".docx");
    ReplaceInName("wawancara", token, safe);
    NameParts(token, ReplaceAll(safe, ".docx", ".pdf"), ".pdf");
  }

  /** The document's name as three pieces joined by underscores. */
  lemma DocxNameParts(token: string, safe: string)
    ensures "wawancara_" + token + "_" + safe + ".docx" == "wawancara" + ['_'] + (token + ['_'] + (safe + ".docx"))
  {
    NameParts(token, safe, ".docx");
  }

  /** Regrouping the pieces of `wawancara_<token>_<stem><ext>`. */
  lemma NameParts(token: string, stem: string, ext: string)
    ensures "wawancara" + ['_'] + (token + ['_'] + (stem + ext)) == "wawancara_" + token + "_" + stem + ext
  {
    assert "wawancara" + ['_'] == "wawancara_";
  }

  /** `prefix_token_safe.docx` with every `.docx` replaced, when only `safe` may hold one. */
  lemma ReplaceInName(prefix: string, token: string, safe: string)
    requires !Contains(prefix, ".docx") && !Contains(token, ".docx")
    ensures ReplaceAll(prefix + ['_'] + (token + ['_'] + (safe + ".docx")), ".docx", ".pdf")
         == prefix + ['_'] + (token + ['_'] + (ReplaceAll(safe, ".docx", ".pdf") + ".pdf"))
  {
    DocxBorderFree();
    ReplaceAtEnd(safe, ".docx", ".pdf");
    ReplaceAfter(token, '_', safe + ".docx", ".docx", ".pdf");
    ReplaceAfter(prefix, '_', token + ['_'] + (safe + ".docx"), ".docx", ".pdf");
  }

  /** When neither the token nor the name holds `.docx`, the answer names the PDF the converter writes. */
  lemma PdfNameAgrees(token: string, narasumber: string)
    requires !Contains(token, ".docx") && !Contains(narasumber, ".docx")
    ensures PdfNameAsWritten(token, narasumber) == PdfName(token, narasumber)
  {
    PdfNameAsWrittenShape(token, narasumber);
    SafeNameShape(narasumber);
    assert !Contains(SafeName(narasumber), ".docx") by {
      if Contains(SafeName(narasumber), ".docx") {
        var p :| 0 <= p <= |SafeName(narasumber)| && OccursAt(SafeName(narasumber), ".docx", p);
        var safe := SafeName(narasumber);
        assert p + 5 <= |narasumber| && safe[p..p + 5] == ".docx";
        forall k | p <= k < p + 5 ensures safe[k] == narasumber[k] {
          assert safe[k] == ".docx"[k - p];
        }
        assert safe[p..p + 5] == narasumber[p..p + 5];
        assert OccursAt(narasumber, ".docx", p);
      }
    }
    ReplaceAbsent(SafeName(narasumber), ".docx", ".pdf");
  }

  /** An interviewee named `a.docx`: the answer names `…_a.pdf.pdf`, the converter writes `…_a.docx.pdf`. */
  lemma DocxInNameMisnamesPdf(token: string)
    requires !Contains(token, ".docx")
    ensures PdfNameAsWritten(token, "a.docx") == "wawancara_" + token + "_a.pdf.pdf"
    ensures PdfName(token, "a.docx") == "wawancara_" + token + "_a.docx.pdf"
    ensures PdfNameAsWritten(token, "a.docx") != PdfName(token, "a.docx")
  {
    FirstCharAbsent("a.docx", " ");
    ReplaceAbsent("a.docx", " ", "_");
    PdfNameAsWrittenShape(token, "a.docx");
    DocxStemReplaced();
    TailRegroup(token, "a.pdf", ".pdf");
    TailRegroup(token, "a.docx", ".pdf");
    TailLiterals();
  }

  /** The interviewee's part of the name when it is `a.docx`. */
  lemma DocxStemReplaced()
    ensures ReplaceAll("a.docx", ".docx", ".pdf") == "a.pdf"
  {
    assert "a.docx" == "a" + ".docx";
    DocxBorderFree();
    ReplaceAtEnd("a", ".docx", ".pdf");
    FirstCharAbsent("a", ".docx");
    ReplaceAbsent("a", ".docx", ".pdf");
  }

  /** Regrouping the tail of `wawancara_<token>_<stem><ext>`. */
  lemma TailRegroup(token: string, stem: string, ext: string)
    ensures "wawancara_" + token + "_" + stem + ext == ("wawancara_" + token) + ("_" + stem + ext)
  {
  }

  /** The two tails the interviewee `a.docx` leads to. */
  lemma TailLiterals()
    ensures "_" + "a.pdf" + ".pdf" == "_a.pdf.pdf"
    ensures "_" + "a.docx" + ".pdf" == "_a.docx.pdf"
    ensures |"_a.pdf.pdf"| != |"_a.docx.pdf"|
  {
  }

  /** A saved Word document: its file name and its filled paragraphs. */
  datatype Docx = Docx(name: string, paragraphs: seq<Paragraph>)

  /** Why `save_pdf` fails. */
  datatype SaveFailure =
    | MissingField(field: string)  // `data[...]` on a field the form lacks: the request is refused
    | LogFailed(failure: LogFailure)
    | ConversionUnavailable        // the converter is never reached (see `SavePdfAsWritten`)

  /**
   * What a call leaves behind: the new content of the log file (`None`:
   * not rewritten), the saved document (`None`: none saved) and the answer.
   */
  datatype Saved = Saved(log: Option<CsvLines>, docx: Option<Docx>, response: Result<string, SaveFailure>)

  /** The form fields `save_pdf` reads with `data[...]`, in that order. */
  const RequiredFields: seq<string> := ["token", "narasumber", "transkripsi"]

  /**
   * The filled document for the fields found in the log (or all `-`), the
   * interviewee and the transcript.
   */
  function ReportDocx(fields: ReportFields, token: string, narasumber: string, teks: string,
                      template: seq<Paragraph>): (d: Docx)
    ensures d.name == DocxName(token, narasumber) && |d.paragraphs| == |template|
  {
    Docx(DocxName(token, narasumber), FillDocument(template, ReportReplacements(fields, narasumber, teks)))
  }

  /**
   * `save_pdf` on a log file that is absent (`None`) or holds `lines`, a
   * form and the template's paragraphs, with the conversion to PDF working:
   * the first missing form field refuses the request before anything is
   * written; an absent log is left alone and the report shows `-`; a present
   * log goes through the log stage, whose failure stops the handler before
   * the document is saved.
   */
  function SavePdfSpec(file: Option<CsvLines>, form: Form, template: seq<Paragraph>): (s: Saved)
    ensures (exists f :: f in RequiredFields && f !in form) <==> s.response.Err? && s.response.error.MissingField?
    ensures s.response.Err? && s.response.error.MissingField? ==> s.log.None? && s.docx.None?
    ensures s.response.Ok? <==> s.docx.Some?
    ensures s.response.Ok? ==>
      s.response.value == PdfPath(PdfName(form["token"], form["narasumber"]))
      && s.docx.value.name == DocxName(form["token"], form["narasumber"])
    ensures file.None? ==> s.log.None?
    ensures file.Some? && s.response.Ok? ==>
      var rewritten := RewriteLog(ReadRows(file.value), form["token"], form["narasumber"]);
      rewritten.Ok? && s.log == Some(rewritten.value)
  {
    if "token" !in form then Saved(None, None, Err(MissingField("token")))
    else if "narasumber" !in form then Saved(None, None, Err(MissingField("narasumber")))
    else if "transkripsi" !in form then Saved(None, None, Err(MissingField("transkripsi")))
    else
      var token, narasumber, teks := form["token"], form["narasumber"], form["transkripsi"];
      var answer := Ok(PdfPath(PdfName(token, narasumber)));
      match file
      case None => Saved(None, Some(ReportDocx(NoFields, token, narasumber, teks, template)), answer)
      case Some(lines) =>
        var rows := ReadRows(lines);
        match RewriteLog(rows, token, narasumber)
        case Err(EmptyLog) => Saved(None, None, Err(LogFailed(EmptyLog)))
        case Err(UnknownField(partial)) => Saved(Some(partial), None, Err(LogFailed(UnknownField(partial))))
        case Ok(newLines) =>
          Saved(Some(newLines), Some(ReportDocx(FieldsFor(rows, token), token, narasumber, teks, template)), answer)
  }

  /**
   * The log stage with its loop: the rows read from the file are worked on
   * in place, then written back under the new header.
   */
  method UpdateLog(lines: CsvLines, token: string, narasumber: string)
    returns (fields: ReportFields, rewritten: Result<CsvLines, LogFailure>)
    ensures fields == FieldsFor(ReadRows(lines), token)
    ensures rewritten == RewriteLog(ReadRows(lines), token, narasumber)
  {
    var rows := ReadRows(lines);
    var logs := new Dict[|rows|](i requires 0 <= i < |rows| => rows[i]);
    assert logs[..] == rows;
    fields := RecordNarrator(logs, token, narasumber);
    var marked := logs[..];
    match Header(marked) {
      case None =>
        rewritten := Err(EmptyLog);
      case Some(header) =>
        match WriteAll(header, marked) {
          case Err(partial) => rewritten := Err(UnknownField(partial));
          case Ok(written) => rewritten := Ok(written);
        }
    }
  }

  /** The template fill with its loops, on a fresh copy of the template's paragraphs. */
  method FillReport(fields: ReportFields, token: string, narasumber: string, teks: string,
                    template: seq<Paragraph>) returns (d: Docx)
    ensures d == ReportDocx(fields, token, narasumber, teks, template)
  {
    var doc := new Paragraph[|template|](i requires 0 <= i < |template| => template[i]);
    assert doc[..] == template;
    FillTemplate(doc, ReportReplacements(fields, narasumber, teks));
    d := Docx(DocxName(token, narasumber), doc[..]);
  }

  /** The handler with its loops. */
  method SavePdf(file: Option<CsvLines>, form: Form, template: seq<Paragraph>) returns (s: Saved)
    ensures s == SavePdfSpec(file, form, template)
  {
    if "token" !in form { return Saved(None, None, Err(MissingField("token"))); }
    if "narasumber" !in form { return Saved(None, None, Err(MissingField("narasumber"))); }
    if "transkripsi" !in form { return Saved(None, None, Err(MissingField("transkripsi"))); }
    var token, narasumber, teks := form["token"], form["narasumber"], form["transkripsi"];
    var fields := NoFields;
    var newLog: Option<CsvLines> := None;
    if file.Some? {
      var rewritten;
      fields, rewritten := UpdateLog(file.value, token, narasumber);
      match rewritten {
        case Err(EmptyLog) => return Saved(None, None, Err(LogFailed(EmptyLog)));
        case Err(UnknownField(partial)) => return Saved(Some(partial), None, Err(LogFailed(UnknownField(partial))));
        case Ok(written) => newLog := Some(written);
      }
    }
    var d := FillReport(fields, token, narasumber, teks, template);
    s := Saved(newLog, Some(d), Ok(PdfPath(PdfName(token, narasumber))));
  }

  /**
   * The handler as written: the conversion step calls a module that is never
   * imported, so every call that gets as far as saving the document fails
   * there, after the log has been rewritten and the document saved.
   */
  function SavePdfAsWritten(file: Option<CsvLines>, form: Form, template: seq<Paragraph>): (s: Saved)
    ensures s.response.Err?
    ensures s.log == SavePdfSpec(file, form, template).log && s.docx == SavePdfSpec(file, form, template).docx
  {
    var s := SavePdfSpec(file, form, template);
    if s.response.Ok? then s.(response := Err(ConversionUnavailable)) else s
  }

  /** A complete form and a log with at least one row: the handler saves the report. */
  lemma SaveSucceeds(lines: CsvLines, form: Form, template: seq<Paragraph>)
    requires forall f :: f in RequiredFields ==> f in form
    requires lines != [] && ReadRows(lines) != []
    ensures SavePdfSpec(Some(lines), form, template).response.Ok?
  {
    assert RequiredFields[0] in form && RequiredFields[1] in form && RequiredFields[2] in form;
    RewriteSucceeds(lines, form["token"], form["narasumber"]);
  }

  /**
   * With no log file, a complete form is still answered: no log is written,
   * and the report is the template filled with `-` for every log field.
   */
  lemma SavedWithoutLog(form: Form, template: seq<Paragraph>)
    requires forall f :: f in RequiredFields ==> f in form
    ensures SavePdfSpec(None, form, template)
         == Saved(None, Some(ReportDocx(NoFields, form["token"], form["narasumber"], form["transkripsi"], template)),
                  Ok(PdfPath(PdfName(form["token"], form["narasumber"]))))
  {
    assert RequiredFields[0] in form && RequiredFields[1] in form && RequiredFields[2] in form;
  }

  /** When the log stage succeeds, the handler leaves the rewritten log and the filled report. */
  lemma SavedLog(lines: CsvLines, form: Form, template: seq<Paragraph>)
    requires "token" in form && "narasumber" in form && "transkripsi" in form
    requires RewriteLog(ReadRows(lines), form["token"], form["narasumber"]).Ok?
    ensures var token, narasumber := form["token"], form["narasumber"];
      SavePdfSpec(Some(lines), form, template)
      == Saved(Some(RewriteLog(ReadRows(lines), token, narasumber).value),
               Some(ReportDocx(FieldsFor(ReadRows(lines), token), token, narasumber, form["transkripsi"], template)),
               Ok(PdfPath(PdfName(token, narasumber))))
  {
  }
}
