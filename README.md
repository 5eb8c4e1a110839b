# bmkg-media: interview requests, reports and history, in Dafny

This project models the Flask application `app.py` of the BMKG media portal.
Journalists file interview requests there, and an operator writes the
interview report for a request. The modelled parts are the ones that carry
the data:

- **Request log** (`log_permohonan`): the handler derives a token
  `<company>_<schedule>` from the form. It appends one eight-column record
  to the CSV request log and writes the header only when the file is new.
- **Lookups**: the topic lookup behind `/get_topik/<token>` and the token
  list of the recorder page.
- **Report** (`save_pdf`):
  - it scans the log for the first row with the token, records the
    interviewee on that row and copies out the request's fields (`-` when
    no row matches);
  - it rewrites the log under a header extended with `narasumber` and
    `topik`;
  - it fills the `{{…}}` placeholders of the Word template run by run;
  - it saves `wawancara_<token>_<name>.docx`, and would then answer with
    the path of the PDF (see Findings: as written it never does).
- **History page** (`historis`): it lists every logged request, with `-`
  for a missing interviewee and a link to the report PDF whose file name
  carries the request's token.
- **Home page**: which images make up the slideshow, and which press
  release is offered.

The model is organised as follows:

- Python strings, dictionaries and the `csv` module are modelled on values:
  - `Text`: `str.replace`, `split`, `strip`, `lower`;
  - `Dicts`: insertion-ordered dictionaries as association lists;
  - `Csv`: `DictWriter` and `DictReader` over a list of lines.
- The handlers work on the log file and the directory listings passed in
  as parameters: `Requests`, `Ledger`, `Report`, `Template`, `SaveReport`,
  `History` and `Home`.
- The loops that change things in place are methods with loop invariants,
  proved equal to the specification functions that the lemmas are about.
  - The `save_pdf` scan is `Report.RecordNarrator`, over an array of rows.
  - The template fill is `Template.FillTemplate`, over an array of
    paragraphs.
  - The history loops are `History.FillNarrators`, `History.BuildPdfIndex`
    and `History.LinkReports`.

`app.py` keeps the requests in a CSV file and derives each token from the
company name and the schedule. It has no status column and sends no
notifications.

## Model

| member | source | states |
|---|---|---|
| Requests.DeriveToken | app.py:270-272 | The token the form handler builds. `Requests.TokenShape` and `Requests.TokenParts` characterise it. |
| Requests.FormGet | app.py:270-271 | `data.get(k, default)` on the submitted form: the field when it was sent, the default otherwise. `Requests.EntryCells` and `Requests.TokenShape` characterise its uses. |
| Requests.FormToken | app.py:270-272 | The token derived from the submitted company and schedule, an absent field counting as empty. `Requests.TokenShape` and `Requests.LogRequest` characterise it. |
| Requests.TokenShape | app.py:270-272 | The token is the stripped company name with every space deleted and lower-cased, then `_`, then the schedule with every `:`, `-` and space deleted. The company part has no space and no upper-case letter; the schedule part has no `:`, `-` or space. |
| Requests.TokenParts | app.py:270-272 | When neither the company name nor the schedule holds `_`, splitting the token at `_` gives back exactly the company part and the schedule part. |
| Requests.NewEntry | app.py:277-286 | The `new_entry` dict literal. `Requests.EntryCells` characterises it. |
| Requests.EntryCells | app.py:275-286 | The new record has exactly the eight log columns, in order. Written under them, its cells are the timestamp, the submitted fields with an absent one empty, the token, and the topic. |
| Dicts.FromPairs | app.py:277-286 | A dict literal has one entry per key written; `Dicts.FromPairsLookup` characterises it. |
| Dicts.FromPairsLookup | app.py:277-286 | A dict literal with distinct keys lists exactly those keys in order, and each key looks up the value written beside it. |
| Requests.LogRequest | app.py:288-295 | The returned token is the one derived from the form. An absent file becomes the header plus one line. A present file keeps every line and gains exactly one, the new record's cells. |
| Ledger.FirstMatch | app.py:200-201 | The index returned carries the token and no earlier row does; `None` exactly when no row carries it. |
| Ledger.HasToken | app.py:177 | `row.get('token') == token`: a row without a token column matches nothing. `Ledger.FirstMatch` characterises it. |
| Ledger.GetTopik | app.py:171-179 | With no log file, or no row carrying the token, the topic is empty. Otherwise it is the `topik` of the first row carrying the token, empty if that row has none. |
| Ledger.TopicIn | app.py:176-178 | The scan returns the first matching row's `topik`, or empty when no row matches. |
| Ledger.RecorderTokens | app.py:113 | The list has at most one token per log row. |
| Ledger.Offered | app.py:113 | `row.get('token')` is truthy. `Ledger.RecorderTokensListed` characterises it. |
| Ledger.RecorderTokensListed | app.py:113 | A token is listed exactly when some row has it as a non-empty token. The empty token is never listed. |
| Ledger.RecorderTokensAppend | app.py:113 | The token list of a log is the lists of its two halves joined: it keeps the log's order. |
| Ledger.SubmittedTopicIsFound | app.py:171-179 | After a request is logged, the topic lookup with the returned token gives the submitted topic. This holds for a new file, and for a file with no row with that token yet whose header starts with the eight request columns and repeats none. That includes a log the report handler has rewritten (see `Report.RewriteKeepsLogHeader`). |
| Ledger.AppendedRow | app.py:289-293 | Under a header that starts with the eight request columns and repeats none, the appended line reads back as one extra row at the end, carrying the token and the submitted topic. |
| Report.FieldsFor | app.py:192-206 | The report fields are all `-` when no row carries the token. Otherwise they are the first matching row's `nama`, `waktu`, `perusahaan`, `jenis` and `topik`, `-` for a missing column. |
| Report.MarkNarrator | app.py:200-208 | The log keeps its length. The first row carrying the token has `narasumber` set to the interviewee, and every other row is unchanged. |
| Report.RecordNarrator | app.py:200-208 | The in-place scan leaves the array equal to the marked log and returns the fields of the first matching row (all `-` when none), stopping at the first match. |
| Report.MarkNarratorKeepsMatch | app.py:207 | Recording an interviewee changes no row's token, so the first row with any token stays where it was. |
| Report.MarkNarratorTwice | app.py:207 | Two saves for the same token leave the log as the second save alone would: the last interviewee wins. |
| Report.Header | app.py:210-214 | There is no header for an empty log. Otherwise the header holds the first row's keys in order, then `narasumber` if missing, then `topik` if missing, and nothing else. Its length is the first row's plus one per missing column. It repeats no column when the row repeats no key. |
| Report.RewriteLog | app.py:216-219 | The log stage fails with the empty-log error exactly when no row was read. |
| Report.ReadRowsKeys | app.py:196-198 | Every row read from one file has the same columns, those of the file's header, and none twice. |
| Report.RewriteSucceeds | app.py:210-219 | On a log file with at least one row, the rewrite does not raise: every row's columns are in the new header. This rests on long lines being read as truncated (see Left out). |
| Report.RewriteKeepsLogHeader | app.py:210-219 | On a log with at least one row, whose header starts with the eight request columns and repeats none, the rewrite succeeds. The rewritten header keeps that shape, so requests logged afterwards are found again. |
| Report.HeaderOfMarked | app.py:210-214 | The header computed after marking starts with the first row's keys and repeats none. |
| Report.RewrittenHeader | app.py:216-218 | A rewritten log starts with the header computed from the marked rows. |
| Report.FieldsOf | app.py:202-206 | The five report fields of a row, `-` for a missing column. `Report.FieldsFor` and `Report.RecordNarrator` state which row they are taken from. |
| Report.RewriteReadsBack | app.py:216-219 | Reading the rewritten log back gives as many rows as before. The first matching row shows the new interviewee, and every header column of every other row reads as before. |
| Csv.Cells | app.py:290-293 | The record `writerow` writes. `Csv.CellsReadBack` characterises it. |
| Csv.CellsReadBack | app.py:290-293 | A written record read back under the same header, without repeats, gives the row's value in every column, or empty where the row lacks the column. |
| Csv.WriteAll | app.py:216-219 | Writing succeeds exactly when every row's keys are header columns. It then gives the header plus one line per row. On failure, the file holds the header and the lines of exactly the rows before the first offending one. |
| Csv.ZipRowLookup | app.py:197-198 | Under a header without repeats, a column of a read row holds the cell in that column, or empty for a short line. |
| Csv.ReadAppended | app.py:289-293 | Appending a non-blank line to a log adds exactly one read row at the end. |
| Csv.ReadWritten | app.py:216-219 | Reading back written rows gives one row per written row, each the written cells under the header. |
| Csv.WriteThenRead | app.py:216-219 | Rows written under a header without repeats read back row for row, with each row's value (or empty) in every column. |
| Csv.Lines | app.py:219 | The lines `writerows` writes. `Csv.WriteAll` places them after the header, and `Csv.WriteThenRead` reads them back row for row. |
| Csv.FirstUncovered | app.py:219 | There is no offending row exactly when every row's keys are header columns. Otherwise the index returned is the first row with a key outside the header. |
| Csv.ReadRows | app.py:111-112 | `list(csv.DictReader(f))`: the first line names the columns, and every other non-blank line is a row. `Csv.ReadAppended`, `Csv.WriteThenRead` and `Report.ReadRowsKeys` characterise it. |
| Csv.ZipRow | app.py:196-198 | One line read under the header. `Csv.ZipRowLookup`, `Csv.ZipRowAbsent` and `Csv.ZipRowKeysAre` characterise it. |
| Csv.ZipRowKeysAre | app.py:196-198 | Under a header without repeats, the keys of a read row are the header's columns, in header order. |
| Csv.DataRowsBlank | app.py:197-198 | A blank line gives no row: a file with a blank line appended reads as the same rows. |
| Csv.DataRows | app.py:197-198 | Reading gives at most one row per line. When no line is blank, it gives exactly one row per line, each that line read under the header. |
| Csv.DataRowsAppend | app.py:289-293 | Reading the lines with one more line gives the rows read before, then that line's row. |
| Dicts.Lookup | app.py:177 | A key has no value exactly when it is not among the dictionary's keys. |
| Dicts.Keys | app.py:210 | `list(d.keys())`: one key per entry, in insertion order. |
| Dicts.Get | app.py:202-206 | `row.get(k, default)`. `Dicts.GetStoredOrDefault` characterises it. |
| Dicts.GetStoredOrDefault | app.py:202-206 | `row.get(k, default)` gives the stored value when the key is present, and the default otherwise. |
| Report.MarkedCell | app.py:207 | A cell of a marked row is the interviewee on the first match's `narasumber` column, and otherwise the cell as before. |
| Text.ReplaceAll | app.py:242 | `str.replace`: left to right, occurrences that do not overlap. The `Text.Replace…` lemmas characterise it. |
| Text.Contains | app.py:237 | Python's `pat in s`. `Template.RunInText` characterises its use on a paragraph. |
| Text.ReplaceAbsent | app.py:242 | `replace` leaves a text that holds no occurrence of the pattern unchanged. |
| Text.ReplaceWhole | app.py:239 | Replacing a pattern inside the pattern itself gives the replacement. |
| Text.ReplaceCharIsWithout | app.py:270-271 | Replacing one character by nothing deletes every occurrence of it. |
| Text.Without | app.py:270-271 | The result holds exactly the input's characters other than the deleted one, and is no longer than the input. |
| Text.ReplaceAround | app.py:256 | Around a character the pattern lacks, `replace` acts on each side separately, since no occurrence straddles it. |
| Text.ReplaceAfter | app.py:139 | Past a separator that the pattern lacks, with no occurrence before it, only the text after the separator changes. |
| Text.ReplaceAtEnd | app.py:256 | When a pattern with no border ends the text, that final occurrence is always replaced. |
| Text.LeadingSpacesShape | app.py:270 | The leading run `strip` removes is all whitespace, and the character after it is not whitespace. |
| Text.TrailingSpacesShape | app.py:270 | The trailing run `strip` removes is all whitespace, and the character before it is not whitespace. |
| Text.Strip | app.py:270 | The input is blank text, then the result, then blank text; the result neither starts nor ends with whitespace. |
| Text.StripKeeps | app.py:270 | Stripping adds no character the input lacks. |
| Text.Lower | app.py:270 | The result has the input's length. Each upper-case letter becomes its lower-case letter and every other character is kept, so no upper-case letter remains. |
| Text.LowerKeeps | app.py:270 | Lower-casing adds no character, other than a lower-case letter, that the input lacks. |
| Text.Split | app.py:140 | `split('_')` gives at least one piece, and no piece holds the separator. |
| Text.JoinSplit | app.py:140 | Joining the pieces with the separator gives back the string that was split. |
| Text.SplitConcat | app.py:140 | Splitting `a_b` gives the pieces of `a`, then those of `b`. |
| Dicts.Set | app.py:207 | After `row[k] = v`, `k` maps to `v` and every other key is unchanged. An existing key keeps its position; a new one is appended last. |
| Dicts.SetTwice | app.py:207 | Setting a key twice is setting it once to the second value. |
| Template.FillTemplate | app.py:235-239 | The in-place fill leaves every paragraph equal to the reference fill of the original paragraph under the replacement table. |
| Template.ApplyKey | app.py:237-239 | One table pair on one paragraph keeps the number of runs. `Template.RunHeldReplaced` (a run holds the key: every run is rewritten) and `Template.SpanningPlaceholderKept` (no run holds it: nothing changes) characterise it. |
| Template.FullText | app.py:237 | `p.text`, the runs joined: no run is longer than the paragraph's text. `Template.RunInText` characterises it. |
| Template.RunInText | app.py:237 | A key held by one run is in the paragraph's text, so the `key in p.text` test passes. |
| Template.RunHeldReplaced | app.py:237-239 | When some run of a paragraph with any number of runs holds the key whole, every run has the key replaced. |
| Template.LabelledPlaceholderExample | app.py:237-239 | The runs `Topik: ` and `{{topik}}` become `Topik: ` and the value. |
| Template.FillParagraph | app.py:236-239 | The whole table on one paragraph, pair after pair in table order, keeps the number of runs. `Template.NoPlaceholderUnchanged` and `Template.SingleRunSubstitutes` characterise it. |
| Template.FillDocument | app.py:235-239 | The fill keeps the number of paragraphs and the number of runs in each. |
| Template.NoPlaceholderUnchanged | app.py:237 | A paragraph whose text holds none of the placeholders comes out unchanged. |
| Template.SpanningPlaceholderKept | app.py:237-239 | A placeholder that no single run holds leaves the paragraph unchanged, even when the paragraph's text holds it. |
| Template.SplitPlaceholderExample | app.py:237-239 | The paragraph of runs `{{to` and `pik}}` holds `{{topik}}` in its text, yet the fill leaves it as it is. |
| Template.SingleRunSubstitutes | app.py:235-239 | On a one-run paragraph, the fill equals plain `str.replace` with every pair in table order (the reference reading). |
| Template.ReportReplacements | app.py:225-233 | The report table has seven pairs with non-empty keys, in the order waktu, jenis, pewawancara, instansi, narasumber, transkripsi, topik. |
| Template.ReportKeys | app.py:225-233 | Every key of the report table is a `{{name}}` placeholder, and no key appears twice. |
| Template.PlaceholderInside | app.py:225-233 | One placeholder occurs inside another only when the two are equal, so no report key rewrites part of another. |
| Template.SubstituteKey | app.py:236-239 | A text that is exactly key `i` becomes value `i`, provided no earlier key occurs in it and no later key occurs in the value. |
| Template.ReportPlaceholderFilled | app.py:225-239 | A one-run paragraph that is exactly a report placeholder comes out as that placeholder's value, when no value holds `{{`. |
| SaveReport.SafeName | app.py:242 | The file-name form of the interviewee's name. `SaveReport.SafeNameShape` characterises it. |
| SaveReport.DocxName | app.py:243 | `wawancara_<token>_<safe name>.docx`. `SaveReport.ReportDocx` shows it is the saved document's name. |
| SaveReport.PdfName | app.py:248-257 | The PDF the converter writes: the document name with its final extension changed to `.pdf`. `SaveReport.PdfNameAgrees` and `History.TokenRoundTrip` characterise it. |
| SaveReport.PdfPath | app.py:257 | `os.path.join(PDF_FOLDER, name)`. `SaveReport.PdfPathIsStaticLink` characterises it. |
| SaveReport.PdfPathIsStaticLink | app.py:257 | The answered path, `static/pdf/<name>`, is the link `pdf/<name>` that the history page gives the same file (app.py:143), under `static/`. |
| SaveReport.PdfNameAsWritten | app.py:256 | The answered PDF name as written. `SaveReport.PdfNameAsWrittenShape`, `SaveReport.PdfNameAgrees` and `SaveReport.DocxInNameMisnamesPdf` characterise it. |
| SaveReport.SafeNameShape | app.py:242 | The file-name form of the interviewee's name keeps its length, changes each space into `_` and nothing else, and holds no space. |
| SaveReport.PdfNameAsWrittenShape | app.py:256 | When the token holds no `.docx`, the answered name is the document name with its extension changed, and with every `.docx` inside the interviewee's part changed too. |
| SaveReport.PdfNameAgrees | app.py:256 | When neither the token nor the name holds `.docx`, the answered name is that of the PDF the converter writes. |
| SaveReport.DocxInNameMisnamesPdf | app.py:256 | For an interviewee named `a.docx`, the answer names `…_a.pdf.pdf`, while the converter writes `…_a.docx.pdf`. |
| SaveReport.ReportDocx | app.py:243-245 | The saved document is named `wawancara_<token>_<safe name>.docx` and has one filled paragraph per template paragraph. |
| SaveReport.SavePdfSpec | app.py:185-259 | A missing `token`, `narasumber` or `transkripsi` refuses the request, and nothing is written. An answer comes exactly when a document is saved; it is `static/pdf/` plus the PDF name. An absent log is not written. Whenever the handler answers, a present log has been replaced by the rewritten one. `SaveReport.SavedWithoutLog` (no log file) and `SaveReport.SaveSucceeds` with `SaveReport.SavedLog` (a log holding rows) characterise the answered cases. |
| SaveReport.UpdateLog | app.py:195-219 | The log stage, with the in-place scan, returns the first match's fields and the rewrite of the rows read. |
| SaveReport.FillReport | app.py:221-245 | The template fill, on a fresh array of the template's paragraphs, gives the filled document. |
| SaveReport.SavePdf | app.py:185-259 | The handler with its loops leaves exactly what the specification function describes: log, document and answer. |
| SaveReport.SavePdfAsWritten | app.py:248-254 | As written, the handler never answers with a path. It leaves the same log and document behind as the corrected handler. |
| SaveReport.SaveSucceeds | app.py:186-259 | With a complete form and a log holding at least one row, the handler answers. |
| SaveReport.SavedWithoutLog | app.py:192-195 | With no log file, a complete form is answered with the PDF path, no log is written, and the report is the template filled with `-` for every log field. |
| SaveReport.SavedLog | app.py:195-259 | When the log stage succeeds, the handler leaves the rewritten log, the document filled with the first match's fields, and the PDF path. |
| History.ReportPdfs | app.py:132-135 | A file is kept exactly when it is in the listing, starts with `wawancara_` and ends with `.pdf`. |
| History.IsReportPdf | app.py:134 | A name starting with `wawancara_` and ending with `.pdf`. `History.ReportPdfs` characterises it. |
| History.ReportPdfsAppend | app.py:132-135 | The filter keeps listing order: on two joined listings, it gives the report files of the first, then those of the second. |
| History.ParseToken | app.py:139-142 | The token a report file name carries. `History.ParsePdfName`, `History.TokenRoundTrip` and `History.UnderscoreLosesLink` characterise it. |
| History.PdfIndex | app.py:137-143 | The `token_to_pdf` dict built over the report files. `History.PdfIndexLinks` and `History.PdfIndexLatest` characterise it. |
| History.PdfIndexLinks | app.py:137-143 | For every token: it is indexed exactly when some report file parses to it, and its link is `pdf/` plus such a file's name. |
| History.PdfIndexLatest | app.py:143 | When several report files parse to the same token, the last of them is the link. |
| History.ListingLatest | app.py:131-143 | Over the directory listing itself, a report file for a token is that token's link when no later report file in the listing parses to the same token. |
| History.BuildPdfIndex | app.py:131-143 | The loop over the listing builds the index of its report files. |
| History.FillNarrators | app.py:126-129 | Each row is read as it is, or with `narasumber` set to `-` when the log has no such column. |
| History.LinkReports | app.py:145-147 | Each row gets `pdf_file`: the index entry for its token, or empty. |
| History.WithNarrator | app.py:127-128 | A row as the page reads it. `History.WithNarratorShape` characterises it. |
| History.WithNarratorShape | app.py:127-128 | `narasumber` is present: the logged value, or `-` when the row has no such column. Every other column is unchanged. |
| History.Annotate | app.py:146-147 | A row with its report link. `History.AnnotateShape` characterises it. |
| History.AnnotateShape | app.py:146-147 | `pdf_file` is the index entry for the row's token, or empty. Every other column is unchanged. |
| History.HistoryRows | app.py:119-149 | The page has one row per logged request. |
| History.LogRows | app.py:123-129 | The rows read from the log, none when the file is absent. `History.HistoryRows` and `History.Historis` characterise it. |
| History.Historis | app.py:119-149 | The handler's three loops give exactly the page rows. |
| History.HistoryRowShape | app.py:127-147 | A page row shows the logged interviewee or `-`, and the link for its token or empty. Every other column is as logged. |
| History.ReportNameIsListed | app.py:133-134 | A report name built by the handler passes the listing filter. |
| History.PdfNamePieces | app.py:139-140 | A report name, without `.pdf` and split at `_`, gives `wawancara`, then the token's pieces, then at least one more piece. |
| History.ParsePdfName | app.py:139-142 | When the token holds no `.pdf` and at least one `_`, the index files a report under the token's first two `_`-pieces, whatever the interviewee is called. |
| History.TokenRoundTrip | app.py:139-143 | A token with exactly one `_` and no `.pdf` is found again from its report's file name. |
| History.UnderscoreLosesLink | app.py:140-142 | A token with two or more `_`, as from a company name holding one, is not found again. Its report is filed under a shorter token. |
| History.RequestTokenRoundTrip | app.py:272 | The token of a request whose company name and schedule hold no `_` (and no `.pdf`) is found again from its report's file name. |
| History.ColumnsSurviveRewrite | app.py:210-214 | A column a read row has is still a column after the log stage, and the marked first row repeats no key. |
| History.RewrittenRowReads | app.py:216-219 | After the rewrite, the request's row reads back with its token and the new interviewee. |
| History.IndexLinksReport | app.py:137-143 | When a report is the only one filed under a round-tripping token, the index links that token to it. |
| History.PageAfterRewrite | app.py:145-147 | The page for the rewritten log shows the request's row with the new interviewee and the link to its report. |
| History.SavedReportIsLinked | app.py:145-147 | End to end: the report is saved for the first row with a one-underscore token, and its PDF is the only report filed under that token. The history page then shows that row with the interviewee and the link to that PDF. |
| Home.SlideImages | app.py:53-56 | An image is in the slideshow exactly when it is in the listing, its lower-cased name ends in `.jpg`, `.jpeg`, `.png` or `.gif`, and it is not `headerbmkg.jpg`. |
| Home.IsSlide | app.py:55 | A name whose lower-cased form ends in an accepted image extension and which is not the header picture. `Home.SlideIgnoresCase` characterises it. |
| Home.SlideIgnoresCase | app.py:55 | A name ending in `.JPG` is a slide, and the header picture is not. `HEADERBMKG.JPG` is a slide, because the header test is case-sensitive. |
| Home.PressFile | app.py:65-66 | There is no press file exactly when no listed name ends in `.pdf`. Otherwise it is the first listed name that does. |

## Left out

- Flask itself is not modelled: routing, templates rendered to HTML,
  `session`, `flash` and `redirect`, the login check and its credentials,
  and the `permohonan`, `download` and `upload_audio` routes. They only
  serve or store files and do not touch the log.
- The recorder page's login guard (app.py:101-103) is left out. The model
  starts after the session is accepted.
- File I/O is not modelled. The log file is a parameter, `None` when it
  does not exist, otherwise its lines of cells. Directory listings are
  sequences of names. `os.makedirs` is left out, and so is the
  `os.listdir` failure for a missing `static/pdf` folder on the history
  page.
- Home.SlideImages: does not model the sort by modification time
  (app.py:57-60), because the file clock is not part of the model. The
  slides keep listing order.
- `datetime.now()` is not modelled: the formatted timestamp is a parameter
  of `Requests.LogRequest`.
- CSV quoting, line endings and encoding are not modelled. A cell reads
  back exactly as it was written.
- A missing form field is modelled as the empty string. `data.get` gives
  `None`, but the writer writes `None` as an empty cell, so the file is the
  same.
- Csv.ZipRow: reads a line shorter than the header as padded with empty
  strings, where `DictReader` pads with `None`. This happens in ordinary
  use. Once `save_pdf` has added `narasumber` to the header, every request
  logged afterwards is an eight-cell line under a nine-column header.
  - For such a row the source's `historis` keeps `narasumber` as `None`:
    the key is present, so app.py:127-128 does not set it to `-`.
    `History.HistoryRowShape` gives `""` there instead.
  - Likewise, for a line too short to hold `topik`, `Ledger.GetTopik`
    gives `""` where the source answers `None`.
- Csv.ZipRow: reads a line longer than the header as truncated.
  `DictReader` keeps the extra cells, as a list, under the key `None`.
  What the `save_pdf` rewrite then does depends on where the long line is.
  - If the first data row is long, `None` is among the keys that
    app.py:210 takes as the new header. Every row is covered, `DictWriter`
    writes an empty header cell for `None` and the list's text under it,
    and the rewrite goes through.
  - If the first data row is not long but a later one is, that row's
    `None` key is outside the header, and `DictWriter` raises `ValueError`.
- Report.RewriteSucceeds: holds under the truncating reading of long lines
  only. In the source the rewrite raises when a long line is not the first
  data row.
- Ledger.RecorderTokens: gives the token strings. The source wraps each in
  a one-key dictionary `{'token': …}` for the page.
- The Word document is modelled only as a list of paragraphs, each a list
  of run texts, with `p.text` as the runs joined.
  - Tables, headers and footers are left out (`doc.paragraphs` does not
    visit them either).
  - Loading the template is left out: its paragraphs are a parameter.
  - Saving the document is left out: it is the `Docx` value in the result.
- The LibreOffice conversion is not modelled. `SaveReport.SavePdfSpec`
  takes it to write the PDF named by `SaveReport.PdfName`. As written,
  the conversion is never reached (see Findings).
- Text: only ASCII is modelled for `strip`, `lower` and upper-case tests.
  Python's Unicode whitespace and case mapping are beyond ASCII.
- Concurrency is not modelled: two requests appending to or rewriting the
  log at the same time.
- The commented-out earlier version of the home page (app.py:19-47) is not
  modelled.

## Findings

| source | as written | input that shows it | evidently intended | confidence | as-written member | corrected member |
|---|---|---|---|---|---|---|
| app.py:256 | `docx_filename.replace('.docx', '.pdf')` rewrites every `.docx` in the document name, including one inside the interviewee's name | interviewee `a.docx` with any token without `.docx`: the answer names `wawancara_<token>_a.pdf.pdf`, while LibreOffice writes `wawancara_<token>_a.docx.pdf` | the name of the PDF the converter writes: the document name with only its final extension changed | not executed; medium (needs an unusual name) | SaveReport.PdfNameAsWritten, shown by SaveReport.DocxInNameMisnamesPdf | SaveReport.PdfName, which agrees with the answer in the ordinary case (SaveReport.PdfNameAgrees) and is the name used by SaveReport.SavePdfSpec and History.TokenRoundTrip |
| app.py:248 | `subprocess.run(...)` is called, but `subprocess` is never imported (app.py:1-6) | any form with `token`, `narasumber` and `transkripsi`, with no log or a log holding a row: `NameError` after the log is rewritten and the document saved, so no path is answered | convert the document to PDF and answer with its path | not executed; high | SaveReport.SavePdfAsWritten | SaveReport.SavePdfSpec, which answers on every complete form with no log (SaveReport.SavedWithoutLog) or with a non-empty log (SaveReport.SaveSucceeds) |
