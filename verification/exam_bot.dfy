/** The single-page bot (`pol_exam_bot.py`): one page, a four-phrase
    case-sensitive classifier, and a state file holding `{"status": ...}`.
    It shares the state file's name with the multi-source checker, so each
    can find the other's file. */
module ExamBot {
  import opened Types
  import opened Text
  import opened Classifier
  import opened Store

  /** The phrases that mean registration is open, in test order. */
  const ExamOpenPhrases: seq<string> := ["Zapisy otwarte", "Rejestracja otwarta"]

  /** The phrases that mean registration is closed, in test order. */
  const ExamClosedPhrases: seq<string> := ["Brak miejsc", "Zamknięta"]

  /** `response.raise_for_status()` raises for client and server error codes,
      that is for 400 up to 599; any other code passes. */
  predicate RaisesForStatus(code: int) {
    400 <= code < 600
  }

  /** `get_exam_status()` given what the fetch produced and the text
      BeautifulSoup extracts from a body (passed in; nothing is assumed about
      it). The reading is `error` exactly for an exception or an error code;
      otherwise the page text is searched, case-sensitively, for an open phrase
      and then for a closed phrase. */
  function GetExamStatus(outcome: FetchOutcome, soupText: string -> string): (r: Status)
    ensures r == Error <==> !outcome.Response? || RaisesForStatus(outcome.code)
    ensures r == Open <==>
              (outcome.Response? && !RaisesForStatus(outcome.code) &&
               AnyOccurs(ExamOpenPhrases, soupText(outcome.body)))
    ensures r == Closed <==>
              (outcome.Response? && !RaisesForStatus(outcome.code) &&
               !AnyOccurs(ExamOpenPhrases, soupText(outcome.body)) &&
               AnyOccurs(ExamClosedPhrases, soupText(outcome.body)))
  {
    match outcome
    case Response(code, body) =>
      if RaisesForStatus(code) then Error
      else
        var text := soupText(body);
        if Contains(text, "Zapisy otwarte") || Contains(text, "Rejestracja otwarta") then Open
        else if Contains(text, "Brak miejsc") || Contains(text, "Zamknięta") then Closed
        else Unknown
    case _ => Error
  }

  /** The bot's phrase tests as one ordered rule list. */
  function ExamRules(): (rules: seq<Rule>)
    ensures |rules| == |ExamOpenPhrases| + |ExamClosedPhrases|
  {
    Tier(ExamOpenPhrases, Open) + Tier(ExamClosedPhrases, Closed)
  }

  /** For a page that loaded, the bot's reading is a first-match scan of its
      rule list with the open rules first. */
  lemma ExamIsRuleScan(code: int, body: string, soupText: string -> string)
    requires !RaisesForStatus(code)
    ensures GetExamStatus(Response(code, body), soupText) == RuleScan(ExamRules(), soupText(body))
  {
    TwoTierScan(ExamOpenPhrases, Open, ExamClosedPhrases, Closed, soupText(body));
  }

  /** `load_status()`: the parsed file, or `{"status": "unknown"}` when there
      is none. A file that is not JSON aborts the check. */
  function LoadStatus(file: StoredFile): (r: Result<Json, StoreError>)
    ensures file.NoFile? ==> r == Success(JObj(map["status" := JStr(Name(Unknown))]))
    ensures file.Parsed? ==> r == Success(file.value)
    ensures file.Unparsable? ==> r.Failure?
  {
    match file
    case NoFile => Success(JObj(map["status" := JStr("unknown")]))
    case Unparsable => Failure(MalformedJson)
    case Parsed(j) => Success(j)
  }

  /** `load_status().get("status")`: the stored status, None when the object
      has no such entry; a value that is not an object aborts the check. */
  function PreviousStatus(file: StoredFile): (r: Result<Option<Json>, StoreError>)
    ensures r.Success? <==> LoadStatus(file).Success? && LoadStatus(file).value.JObj?
    ensures r.Success? && "status" in LoadStatus(file).value.fields ==>
              r.value == Some(LoadStatus(file).value.fields["status"])
    ensures r.Success? && "status" !in LoadStatus(file).value.fields ==> r.value == None
  {
    match LoadStatus(file)
    case Failure(e) => Failure(e)
    case Success(JObj(fields)) => Success(if "status" in fields then Some(fields["status"]) else None)
    case Success(_) => Failure(NotAnObject)
  }

  /** `save_status(status)`: the file then holds exactly `{"status": status}`. */
  function SaveStatus(s: Status): (j: Json)
    ensures j.JObj? && j.fields.Keys == {"status"}
  {
    JObj(map["status" := JStr(Name(s))])
  }

  /** The notification text, exactly as formatted by the source. */
  function ExamMessage(s: Status, url: string): (m: string)
    ensures Contains(m, UpperName(s))
    ensures Contains(m, url)
  {
    var head := "📢 Изменение статуса экзамена!\n\nНовый статус: **";
    var mid := "**\nСсылка: ";
    FilledContains2(head, UpperName(s), mid, url);
    head + UpperName(s) + mid + url
  }

  /** What one check produced: the reading, the file written (if any) and the
      message handed to the bot (if any). */
  datatype CheckOutcome = CheckOutcome(reading: Status, saved: Option<Json>, message: Option<string>)

  /** The reading differs from the stored status and is not `error`. */
  predicate Changed(previous: Option<Json>, reading: Status) {
    reading != Error && previous != Some(JStr(Name(reading)))
  }

  /** `check_updates()` with the page URL, the fetch outcome, the state file
      and the page-text extraction made explicit. The file is written, and
      then the message built, exactly when the reading changed and is not
      `error`; what is written is `{"status": reading}`. Sending is not
      modelled, so a failed send cannot undo the save. */
  function CheckUpdates(url: string, outcome: FetchOutcome, soupText: string -> string,
                        file: StoredFile): (r: Result<CheckOutcome, StoreError>)
    ensures r.Failure? <==> PreviousStatus(file).Failure?
    ensures r.Success? ==> r.value.reading == GetExamStatus(outcome, soupText)
    ensures r.Success? ==> (r.value.saved.Some? <==> Changed(PreviousStatus(file).value, r.value.reading))
    ensures r.Success? ==> (r.value.message.Some? <==> r.value.saved.Some?)
    ensures r.Success? && r.value.saved.Some? ==>
              r.value.saved.value == SaveStatus(r.value.reading) &&
              r.value.message.value == ExamMessage(r.value.reading, url)
  {
    var current := GetExamStatus(outcome, soupText);
    match PreviousStatus(file)
    case Failure(e) => Failure(e)
    case Success(previous) =>
      if current != Error && Some(JStr(Name(current))) != previous then
        Success(CheckOutcome(current, Some(SaveStatus(current)), Some(ExamMessage(current, url))))
      else
        Success(CheckOutcome(current, None, None))
  }

  /** An `error` reading never writes the file nor sends anything. */
  lemma ErrorKeepsFile(url: string, outcome: FetchOutcome, soupText: string -> string, file: StoredFile)
    requires GetExamStatus(outcome, soupText) == Error
    requires CheckUpdates(url, outcome, soupText, file).Success?
    ensures CheckUpdates(url, outcome, soupText, file).value.saved.None?
    ensures CheckUpdates(url, outcome, soupText, file).value.message.None?
  {
  }

  /** After a check saved status `s`, a following check that reads `s` again
      neither saves nor notifies. */
  lemma CheckIdempotent(url: string, o1: FetchOutcome, o2: FetchOutcome, soupText: string -> string,
                        file: StoredFile)
    requires CheckUpdates(url, o1, soupText, file).Success?
    requires CheckUpdates(url, o1, soupText, file).value.saved.Some?
    requires GetExamStatus(o2, soupText) == GetExamStatus(o1, soupText)
    ensures var again := CheckUpdates(url, o2, soupText,
                                      Parsed(CheckUpdates(url, o1, soupText, file).value.saved.value));
            again.Success? && again.value.saved.None? && again.value.message.None?
  {
  }

  /** With no file yet the bot starts from `unknown`: it notifies for `open`
      and `closed` but not for `unknown`. */
  lemma FirstCheck(url: string, outcome: FetchOutcome, soupText: string -> string)
    ensures var r := CheckUpdates(url, outcome, soupText, NoFile);
            r.Success? && (r.value.saved.Some? <==> r.value.reading in {Open, Closed})
  {
  }

  /** A file written by the multi-source checker has no `"status"` entry, so
      the bot treats the previous status as missing and notifies for any
      reading that is not `error`, `unknown` included. */
  lemma CheckerFileReadsAsMissing(url: string, outcome: FetchOutcome, soupText: string -> string,
                                  statuses: map<string, Status>)
    ensures var r := CheckUpdates(url, outcome, soupText, Parsed(Save(statuses)));
            r.Success? && (r.value.saved.Some? <==> r.value.reading != Error)
  {
  }

  /** A file written by this bot is a legacy file for the multi-source checker:
      it reads it as one entry, the saved status filed under the first
      configured page. */
  lemma BotFileIsLegacy(s: Status, urls: seq<string>)
    ensures LoadPrev(Parsed(SaveStatus(s)), urls) == Success(map[LegacyKey(urls) := JStr(Name(s))])
  {
  }
}
