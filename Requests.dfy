/**
 * The interview-request form handler (`log_permohonan`): it derives the
 * request token from the company name and the schedule, and appends one
 * record to the CSV request log.
 */
module Requests {
  import opened Wrappers
  import opened Text
  import opened Dicts
  import opened Csv

  /** The submitted form fields. */
  type Form = map<string, string>

  /** `data.get(k, default)`. */
  function FormGet(form: Form, k: string, default: string): string
  {
    if k in form then form[k] else default
  }

  /** The columns of the request log, in file order. */
  const LogFields: seq<string> :=
    ["timestamp", "nama", "perusahaan", "waktu", "jenis", "link", "token", "topik"]

  /** Column positions in `LogFields`. */
  const TokenColumn := 6
  const TopicColumn := 7

  /** The company part of a token: `perusahaan.strip().replace(' ', '').lower()`. */
  function CompanyKey(perusahaan: string): string
  {
    Lower(ReplaceAll(Strip(perusahaan), " ", ""))
  }

  /** The schedule part of a token: `waktu` with every `:`, `-` and space removed. */
  function ScheduleKey(waktu: string): string
  {
    ReplaceAll(ReplaceAll(ReplaceAll(waktu, ":", ""), "-", ""), " ", "")
  }

  /** The request token: company part, an underscore, schedule part. */
  function DeriveToken(perusahaan: string, waktu: string): string
  {
    CompanyKey(perusahaan) + "_" + ScheduleKey(waktu)
  }

  /** The token the handler derives from a form; absent fields count as empty. */
  function FormToken(form: Form): string
  {
    DeriveToken(FormGet(form, "perusahaan", ""), FormGet(form, "waktu", ""))
  }

  /**
   * The token's shape: the company part is the stripped name with every
   * space deleted and no upper-case letter left; the schedule part is the
   * schedule with every `:`, `-` and space deleted.
   */
  lemma TokenShape(perusahaan: string, waktu: string)
    ensures DeriveToken(perusahaan, waktu)
         == Lower(Without(Strip(perusahaan), ' ')) + "_"
          + Without(Without(Without(waktu, ':'), '-'), ' ')
    ensures ' ' !in CompanyKey(perusahaan)
    ensures forall i :: 0 <= i < |CompanyKey(perusahaan)| ==> !IsUpper(CompanyKey(perusahaan)[i])
    ensures ':' !in ScheduleKey(waktu) && '-' !in ScheduleKey(waktu) && ' ' !in ScheduleKey(waktu)
  {
    ReplaceCharIsWithout(Strip(perusahaan), ' ');
    ReplaceCharIsWithout(waktu, ':');
    ReplaceCharIsWithout(Without(waktu, ':'), '-');
    ReplaceCharIsWithout(Without(Without(waktu, ':'), '-'), ' ');
    LowerKeeps(Without(Strip(perusahaan), ' '), ' ');
  }

  /**
   * When neither input holds an underscore, the token holds exactly one, and
   * splitting it there gives back the company part and the schedule part.
   */
  lemma TokenParts(perusahaan: string, waktu: string)
    requires '_' !in perusahaan && '_' !in waktu
    ensures Split(DeriveToken(perusahaan, waktu), '_') == [CompanyKey(perusahaan), ScheduleKey(waktu)]
  {
    var strip := Strip(perusahaan);
    StripKeeps(perusahaan, '_');
    ReplaceCharIsWithout(strip, ' ');
    LowerKeeps(Without(strip, ' '), '_');
    ReplaceCharIsWithout(waktu, ':');
    ReplaceCharIsWithout(Without(waktu, ':'), '-');
    ReplaceCharIsWithout(Without(Without(waktu, ':'), '-'), ' ');
    assert '_' !in CompanyKey(perusahaan) && '_' !in ScheduleKey(waktu);
    SplitAfter(CompanyKey(perusahaan), '_', ScheduleKey(waktu));
    SplitWithout(ScheduleKey(waktu), '_');
  }

  /** The values of the new record, in column order. */
  function EntryValues(form: Form, now: string, token: string): seq<string>
  {
    [now, FormGet(form, "nama", ""), FormGet(form, "perusahaan", ""), FormGet(form, "waktu", ""),
     FormGet(form, "jenis", ""), FormGet(form, "link", ""), token, FormGet(form, "topik", "")]
  }

  /**
   * The record the handler writes: the timestamp it is given, the form's
   * fields as submitted (an absent field is written empty, as the CSV
   * writer writes `None`), and the derived token, keyed by the log's columns.
   */
  function NewEntry(form: Form, now: string, token: string): Dict
  {
    FromPairs(LogFields, EntryValues(form, now, token))
  }

  lemma LogFieldsDistinct()
    ensures NoDuplicates(LogFields)
  {
  }

  /** The new record, written under the log's own columns, is its values in order. */
  lemma EntryCells(form: Form, now: string, token: string)
    ensures Keys(NewEntry(form, now, token)) == LogFields
    ensures Cells(LogFields, NewEntry(form, now, token)) == EntryValues(form, now, token)
  {
    LogFieldsDistinct();
    FromPairsLookup(LogFields, EntryValues(form, now, token));
  }

  /** What the handler returns and leaves on disk. */
  datatype Logged = Logged(lines: CsvLines, token: string)

  /**
   * `log_permohonan` on a log file that is absent (`None`) or holds `lines`:
   * the header is written first only when the file did not exist; then the
   * new record is appended as one line of eight cells.
   */
  function LogRequest(file: Option<CsvLines>, form: Form, now: string): (r: Logged)
    ensures r.token == FormToken(form)
    ensures file.None? ==> |r.lines| == 2 && r.lines[0] == LogFields
    ensures file.Some? ==> |r.lines| == |file.value| + 1 && r.lines[..|file.value|] == file.value
    ensures |r.lines| > 0 && r.lines[|r.lines| - 1] == EntryValues(form, now, r.token)
  {
    var token := FormToken(form);
    var line := Cells(LogFields, NewEntry(form, now, token));
    EntryCells(form, now, token);
    assert line == EntryValues(form, now, token);
    var lines := if file.None? then [LogFields, line] else file.value + [line];
    Logged(lines, token)
  }
}
