/**
 * Lookups over the rows of the request log: the first row carrying a
 * token (used by `save_pdf`), the topic lookup behind `/get_topik/<token>`
 * and the token list the recorder page offers.
 */
module Ledger {
  import opened Wrappers
  import opened Dicts
  import opened Csv
  import opened Requests

  /** `row.get('token') == token`: a row without a token column matches nothing. */
  predicate HasToken(row: Dict, token: string)
  {
    Lookup(row, "token") == Some(token)
  }

  /** Row `i` carries `token` and no row before it does. */
  predicate IsFirstMatch(rows: seq<Dict>, token: string, i: int)
  {
    0 <= i < |rows| && HasToken(rows[i], token) && forall j :: 0 <= j < i ==> !HasToken(rows[j], token)
  }

  /** The index of the first row carrying `token`. */
  function FirstMatch(rows: seq<Dict>, token: string): (r: Option<nat>)
    ensures r.Some? ==> r.value < |rows| && HasToken(rows[r.value], token)
    ensures r.Some? ==> forall j :: 0 <= j < r.value ==> !HasToken(rows[j], token)
    ensures r.None? <==> forall j :: 0 <= j < |rows| ==> !HasToken(rows[j], token)
  {
    if rows == [] then None
    else if HasToken(rows[0], token) then Some(0)
    else
      MatchInTail(rows, token);
      match FirstMatch(rows[1..], token)
      case None => None
      case Some(i) => Some(i + 1)
  }

  /** Past a first row without the token, the matches are those of the remaining rows, one place on. */
  lemma MatchInTail(rows: seq<Dict>, token: string)
    requires rows != [] && !HasToken(rows[0], token)
    ensures forall j :: 0 <= j < |rows| - 1 ==> rows[1..][j] == rows[j + 1]
    ensures forall i :: IsFirstMatch(rows, token, i) ==> IsFirstMatch(rows[1..], token, i - 1)
    ensures forall i :: IsFirstMatch(rows[1..], token, i) ==> IsFirstMatch(rows, token, i + 1)
  {
    var rest := rows[1..];
    assert forall j :: 0 <= j < |rows| - 1 ==> rest[j] == rows[j + 1];
    forall i | IsFirstMatch(rows, token, i) ensures IsFirstMatch(rest, token, i - 1) {
      assert i != 0;
    }
    forall i | IsFirstMatch(rest, token, i) ensures IsFirstMatch(rows, token, i + 1) {
      assert forall j :: 1 <= j < i + 1 ==> rows[j] == rest[j - 1];
    }
  }

  /** A row carrying the token with none before it is the first match. */
  lemma FirstMatchAt(rows: seq<Dict>, token: string, i: nat)
    requires i < |rows| && HasToken(rows[i], token)
    requires forall j :: 0 <= j < i ==> !HasToken(rows[j], token)
    ensures FirstMatch(rows, token) == Some(i)
  {
  }

  /**
   * `get_topik(token)` on a log that is absent (`None`) or holds `rows`: the
   * `topik` of the first row carrying the token (empty if that row has no
   * such column), and the empty string when no row carries it.
   */
  function GetTopik(log: Option<seq<Dict>>, token: string): (topik: string)
    ensures log.None? ==> topik == ""
    ensures log.Some? && (forall j :: 0 <= j < |log.value| ==> !HasToken(log.value[j], token))
        ==> topik == ""
    ensures log.Some? ==>
      forall i :: IsFirstMatch(log.value, token, i) ==> topik == Get(log.value[i], "topik", "")
  {
    match log
    case None => ""
    case Some(rows) => TopicIn(rows, token)
  }

  /** The scan of `get_topik`: return at the first row whose token matches. */
  function TopicIn(rows: seq<Dict>, token: string): (topik: string)
    ensures (forall j :: 0 <= j < |rows| ==> !HasToken(rows[j], token)) ==> topik == ""
    ensures forall i :: IsFirstMatch(rows, token, i) ==> topik == Get(rows[i], "topik", "")
  {
    if rows == [] then ""
    else if HasToken(rows[0], token) then
      assert forall i :: IsFirstMatch(rows, token, i) ==> i == 0;
      Get(rows[0], "topik", "")
    else
      MatchInTail(rows, token);
      TopicIn(rows[1..], token)
  }

  /** `row.get('token')` is truthy: the row has a non-empty token. */
  predicate Offered(row: Dict)
  {
    Get(row, "token", "") != ""
  }

  /**
   * The recorder page's token list: the tokens of the rows that have a
   * non-empty one, in log order.
   */
  function RecorderTokens(rows: seq<Dict>): (tokens: seq<string>)
    ensures |tokens| <= |rows|
  {
    if rows == [] then []
    else (if Offered(rows[0]) then [Get(rows[0], "token", "")] else []) + RecorderTokens(rows[1..])
  }

  /**
   * A token is listed exactly when some row has it as its non-empty token;
   * the empty token is never listed.
   */
  lemma {:induction false} RecorderTokensListed(rows: seq<Dict>)
    ensures forall t :: t in RecorderTokens(rows) <==>
      exists i :: 0 <= i < |rows| && Offered(rows[i]) && Get(rows[i], "token", "") == t
    ensures "" !in RecorderTokens(rows)
  {
    if rows != [] {
      RecorderTokensListed(rows[1..]);
      assert forall i :: 1 <= i < |rows| ==> rows[i] == rows[1..][i - 1];
      assert forall i :: 0 <= i < |rows[1..]| ==> rows[1..][i] == rows[i + 1];
    }
  }

  /** The token list keeps the log's order: it is computed piece by piece. */
  lemma {:induction false} RecorderTokensAppend(a: seq<Dict>, b: seq<Dict>)
    ensures RecorderTokens(a + b) == RecorderTokens(a) + RecorderTokens(b)
    decreases |a|
  {
    if a == [] {
      assert a + b == b;
    } else {
      var head := if Offered(a[0]) then [Get(a[0], "token", "")] else [];
      assert (a + b)[0] == a[0] && (a + b)[1..] == a[1..] + b;
      RecorderTokensAppend(a[1..], b);
      assert head + (RecorderTokens(a[1..]) + RecorderTokens(b)) == (head + RecorderTokens(a[1..])) + RecorderTokens(b);
    }
  }

  /**
   * The header of a log the handlers wrote: the form handler's eight
   * columns first (the report handler may add columns after them), none
   * twice.
   */
  predicate LogHeader(header: seq<string>)
  {
    LogFields <= header && NoDuplicates(header)
  }

  /**
   * A submitted request can be looked up by the token the form handler
   * returned: after the request is appended to a log that did not exist, or
   * to one with a handler-written header and no row with that token yet,
   * reading the log back and asking for the topic gives the submitted one.
   */
  lemma SubmittedTopicIsFound(file: Option<CsvLines>, form: Form, now: string)
    requires file.Some? ==> |file.value| > 0 && LogHeader(file.value[0])
    requires file.Some? ==>
      forall j :: 0 <= j < |ReadRows(file.value)| ==> !HasToken(ReadRows(file.value)[j], FormToken(form))
    ensures GetTopik(Some(ReadRows(LogRequest(file, form, now).lines)), LogRequest(file, form, now).token)
         == FormGet(form, "topik", "")
  {
    match file
    case None => TopicInNewLog(form, now);
    case Some(lines) => TopicInLog(lines, form, now);
  }

  lemma TopicInNewLog(form: Form, now: string)
    ensures GetTopik(Some(ReadRows(LogRequest(None, form, now).lines)), LogRequest(None, form, now).token)
         == FormGet(form, "topik", "")
  {
    var r := LogRequest(None, form, now);
    assert r.lines[..1] == [LogFields];
    assert ReadRows([LogFields]) == [];
    LogFieldsDistinct();
    TopicAfterAppend([LogFields], form, now, r);
  }

  lemma TopicInLog(lines: CsvLines, form: Form, now: string)
    requires |lines| > 0 && LogHeader(lines[0])
    requires forall j :: 0 <= j < |ReadRows(lines)| ==> !HasToken(ReadRows(lines)[j], FormToken(form))
    ensures GetTopik(Some(ReadRows(LogRequest(Some(lines), form, now).lines)), LogRequest(Some(lines), form, now).token)
         == FormGet(form, "topik", "")
  {
    var r := LogRequest(Some(lines), form, now);
    TopicAfterAppend(lines, form, now, r);
  }

  /** The topic lookup on a log with one more line, the new record, after lines without its token. */
  lemma TopicAfterAppend(before: CsvLines, form: Form, now: string, r: Logged)
    requires |before| > 0 && LogHeader(before[0])
    requires |r.lines| > 0 && r.lines[..|r.lines| - 1] == before
    requires r.lines[|r.lines| - 1] == EntryValues(form, now, r.token)
    requires forall j :: 0 <= j < |ReadRows(before)| ==> !HasToken(ReadRows(before)[j], r.token)
    ensures GetTopik(Some(ReadRows(r.lines)), r.token) == FormGet(form, "topik", "")
  {
    var entry := AppendedRow(before, form, now, r);
    LastIsFirstMatch(ReadRows(before), entry, r.token);
  }

  /** A row appended after rows that lack the token is its first match. */
  lemma LastIsFirstMatch(earlier: seq<Dict>, entry: Dict, token: string)
    requires forall j :: 0 <= j < |earlier| ==> !HasToken(earlier[j], token)
    requires HasToken(entry, token)
    ensures IsFirstMatch(earlier + [entry], token, |earlier|)
    ensures (earlier + [entry])[|earlier|] == entry
  {
    assert forall j :: 0 <= j < |earlier| ==> (earlier + [entry])[j] == earlier[j];
  }

  /** The appended line reads back as one more row, carrying the token and the topic. */
  lemma AppendedRow(before: CsvLines, form: Form, now: string, r: Logged) returns (entry: Dict)
    requires |before| > 0 && LogHeader(before[0])
    requires |r.lines| > 0 && r.lines[..|r.lines| - 1] == before
    requires r.lines[|r.lines| - 1] == EntryValues(form, now, r.token)
    ensures ReadRows(r.lines) == ReadRows(before) + [entry]
    ensures HasToken(entry, r.token)
    ensures Get(entry, "topik", "") == FormGet(form, "topik", "")
  {
    var line := r.lines[|r.lines| - 1];
    assert r.lines == before + [line];
    ReadAppended(before, line);
    var header := before[0];
    entry := ZipRow(header, line);
    assert header[TokenColumn] == "token" && header[TopicColumn] == "topik";
    ZipRowLookup(header, line, TokenColumn);
    ZipRowLookup(header, line, TopicColumn);
  }
}
