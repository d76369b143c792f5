/** BugReportController: the public submission endpoint (domain check, record assembly, screenshot
    outcome, save) and the best-effort append to the `bug_reports.csv` log. */
module IntakeController {
  import opened Nullable
  import opened Text
  import opened CsvFormat
  import opened Model
  import opened Repository
  import AdminController

  /** The only mail domain whose users may submit. */
  const Domain: string := "@iworkscorp.com"

  /** The domain rule: the lower-cased address ends with the company domain. */
  predicate DomainAccepted(email: string): (accepted: bool)
    ensures accepted ==> |email| >= |Domain| && email[|email| - |Domain|] == '@'
  {
    EndsWith(Lower(email), Domain)
  }

  /** The rule compares the last fifteen characters, each lowered, with the domain. */
  lemma DomainAcceptedMeans(email: string)
    ensures DomainAccepted(email) <==>
              |email| >= |Domain| &&
              forall i :: 0 <= i < |Domain| ==> LowerChar(email[|email| - |Domain| + i]) == Domain[i]
  {
    var lowered := Lower(email);
    assert DomainAccepted(email) <==>
             |Domain| <= |lowered| && forall i :: 0 <= i < |Domain| ==> lowered[|lowered| - |Domain| + i] == Domain[i];
  }

  /** The address's case does not matter. */
  lemma DomainAcceptedIgnoresCase(email: string)
    ensures DomainAccepted(email) == DomainAccepted(Lower(email))
  {
    LowerIdempotent(email);
  }

  /** Any local part followed by the domain, written in any case, is accepted. */
  lemma DomainAcceptedAnyLocalPart(local: string, domain: string)
    requires Lower(domain) == Domain
    ensures DomainAccepted(local + domain)
  {
    LowerConcat(local, domain);
    assert Lower(local + domain)[|local + domain| - |Domain|..] == Lower(domain);
  }

  /** The default locale `toLowerCase()` consults: the root rules, or the Turkish ones, under
      which a dotless capital I lowers to a dotless small i (U+0131). */
  datatype Locale = RootLocale | TurkishLocale

  /** `Character.toLowerCase` under a locale, on ASCII letters. */
  function LocaleLowerChar(locale: Locale, c: char): char {
    if locale == TurkishLocale && c == 'I' then '\U{0131}' else LowerChar(c)
  }

  /** `String.toLowerCase()` under the default locale. */
  function LocaleLower(locale: Locale, s: string): (r: string)
    ensures |r| == |s|
    ensures forall i :: 0 <= i < |s| ==> r[i] == LocaleLowerChar(locale, s[i])
  {
    if s == [] then [] else [LocaleLowerChar(locale, s[0])] + LocaleLower(locale, s[1..])
  }

  /** The check as written: `email.toLowerCase()` lowers under the server's default locale. */
  predicate DomainAcceptedIn(locale: Locale, email: string) {
    EndsWith(LocaleLower(locale, email), Domain)
  }

  /** Under the root locale the check is the domain rule; under the Turkish locale it agrees
      with the rule on every address without a capital I, and refuses every address whose
      domain is written with one. */
  lemma DomainAcceptedInLocale(locale: Locale, email: string)
    ensures locale == RootLocale ==> (DomainAcceptedIn(locale, email) <==> DomainAccepted(email))
    ensures (forall i :: 0 <= i < |email| ==> email[i] != 'I') ==>
              (DomainAcceptedIn(locale, email) <==> DomainAccepted(email))
    ensures locale == TurkishLocale && |email| >= |Domain| && email[|email| - |Domain| + 1] == 'I' ==>
              !DomainAcceptedIn(locale, email)
  {
    if (locale == RootLocale || forall i :: 0 <= i < |email| ==> email[i] != 'I') {
      assert LocaleLower(locale, email) == Lower(email);
    }
    if locale == TurkishLocale && |email| >= |Domain| && email[|email| - |Domain| + 1] == 'I' {
      var n := |email| - |Domain|;
      assert LocaleLower(locale, email)[n..][1] == '\U{0131}' != Domain[1];
    }
  }

  /** The company domain with its I in capitals. */
  const CapitalIDomain: string := "@I" + "workscorp.com"

  /** It lowers to the domain under the root rules. */
  lemma CapitalIDomainLowers(rest: string)
    requires rest == "workscorp.com"
    ensures Lower("@I" + rest) == Domain
  {
    LowerConcat("@I", rest);
    NoCapitals(rest);
    CapitalILowers();
    DomainSplits(rest);
  }

  /** The rest of the domain has no capital to lower. */
  lemma NoCapitals(rest: string)
    requires rest == "workscorp.com"
    ensures Lower(rest) == rest
  {
    LowerOfLowercase(rest);
  }

  /** The capital I lowers under the root rules. */
  lemma CapitalILowers()
    ensures Lower("@I") == "@i"
  {
  }

  /** The domain is its first two characters and the rest. */
  lemma DomainSplits(rest: string)
    requires rest == "workscorp.com"
    ensures "@i" + rest == Domain
  {
  }

  /** On a server whose default locale is Turkish, an address whose domain is written with a
      capital I is refused, while the rule accepts it. */
  lemma TurkishLocaleRefusesUpperCaseDomain(local: string)
    ensures DomainAccepted(local + CapitalIDomain)
    ensures !DomainAcceptedIn(TurkishLocale, local + CapitalIDomain)
  {
    CapitalIDomainLowers("workscorp.com");
    DomainAcceptedAnyLocalPart(local, CapitalIDomain);
    var email := local + CapitalIDomain;
    assert email[|email| - |Domain| + 1] == CapitalIDomain[1] == 'I';
    DomainAcceptedInLocale(TurkishLocale, email);
  }

  /** An address shorter than the domain is always refused. */
  lemma ShortAddressRefused(email: string)
    requires |email| < |Domain|
    ensures !DomainAccepted(email)
  {
  }

  /** A look-alike domain that merely contains the company domain is refused. */
  lemma LookAlikeDomainRefused(local: string)
    ensures !DomainAccepted(local + Domain + ".evil.net")
  {
    var email := local + Domain + ".evil.net";
    var last := |email| - 1;
    assert email[last] == 't';
    assert Lower(email)[last] == 't';
  }

  /** The form fields; Spring refuses the request before the handler when a required one is
      missing, so only `datetime` may be absent. */
  datatype Submission = Submission(
    name: string,
    email: string,
    role: string,
    browser: string,
    datetime: Option<string>,
    issueType: string,
    description: string)

  /** The `@NotBlank @Size` constraints the handler declares on its parameters. */
  predicate WithinBounds(form: Submission) {
    && NotBlankAtMost(Some(form.name), 100)
    && NotBlankAtMost(Some(form.email), 150)
    && NotBlankAtMost(Some(form.role), 100)
    && NotBlankAtMost(Some(form.browser), 50)
    && NotBlankAtMost(Some(form.issueType), 50)
    && NotBlankAtMost(Some(form.description), 255)
  }

  /** The multipart screenshot: none, an empty part, or a file whose copy into the upload
      directory gave the target path or failed with an `IOException` (None). */
  datatype Screenshot = NoFile | File(empty: bool, storedPath: Option<string>)

  /** Copying a non-empty screenshot failed. */
  predicate ScreenshotFails(s: Screenshot) {
    s.File? && !s.empty && s.storedPath.None?
  }

  /** The screenshot path the report records. */
  function StoredPath(s: Screenshot): Option<string> {
    if s.File? && !s.empty then s.storedPath else None
  }

  /** The event time: `parse` (`LocalDateTime.parse`, None when it throws) of a present,
      non-blank `datetime`; otherwise unset. */
  function EventTimeOf(datetime: Option<string>, parse: string -> Option<Timestamp>): (t: Option<Timestamp>)
    ensures t.Some? ==> datetime.Some? && !IsBlank(datetime.value) && t == parse(datetime.value)
  {
    if datetime.Some? && !IsBlank(datetime.value) then parse(datetime.value) else None
  }

  /** The record the handler assembles from a fresh bean before saving it. */
  function Submitted(form: Submission, now: Timestamp, parse: string -> Option<Timestamp>,
                     path: Option<string>): (r: BugReport)
    ensures r.id.None? && !r.resolved && r.resolvedBy.None? && r.resolutionDescription.None?
    ensures r.resolvedAt.None? && r.deleted.None? && r.deletedAt.None?
    ensures r.email == Some(form.email) && r.screenshotPath == path
  {
    Fresh.(name := Some(form.name), email := Some(form.email), role := Some(form.role),
           browser := Some(form.browser), issueType := Some(form.issueType),
           description := Some(form.description), eventTime := EventTimeOf(form.datetime, parse),
           createdAt := Some(now), screenshotPath := path)
  }

  /** The assembled record meets the entity's constraints exactly when the form meets the
      handler's declared bounds and the screenshot path fits its column. */
  lemma SubmittedValid(form: Submission, now: Timestamp, parse: string -> Option<Timestamp>, path: Option<string>)
    ensures Valid(Submitted(form, now, parse, path)) <==> WithinBounds(form) && AtMost(path, 500)
  {
  }

  /** The event time is unset unless a non-blank `datetime` parses, and is then what it parses to;
      the creation time is the server's clock whatever the form says. */
  lemma SubmittedTimes(form: Submission, now: Timestamp, parse: string -> Option<Timestamp>, path: Option<string>)
    ensures var r := Submitted(form, now, parse, path);
      && r.createdAt == Some(now)
      && (r.eventTime.Some? <==>
            form.datetime.Some? && !IsBlank(form.datetime.value) && parse(form.datetime.value).Some?)
      && (r.eventTime.Some? ==> r.eventTime == parse(form.datetime.value))
  {
  }

  /** A new report is open and not deleted, so the admin's unresolved view with deleted rows
      hidden lists it exactly when its creation time lies within the requested bounds. */
  lemma SubmittedIsOpen(form: Submission, now: Timestamp, parse: string -> Option<Timestamp>,
                        path: Option<string>, from: Timestamp, to: Timestamp)
    ensures var r := Submitted(form, now, parse, path);
      && !r.resolved && r.resolvedBy.None? && r.resolvedAt.None? && !DeletedFlag(r)
      && (Matches(AdminQuery(None, Some(false), Some(from), Some(to), false), r) <==> from <= now <= to)
  {
  }

  /** The intake `csv`: null gives two quotes; otherwise the value, quotes doubled, between
      quotes, with no guard against formulas. */
  function LogCsv(value: Option<string>): (cell: string)
    ensures value.None? ==> cell == "\"\""
    ensures cell == Quote(value.GetOr(""))
  {
    if value.None? then "\"\"" else Quote(value.value)
  }

  /** A log cell reads back as its value, null reading back as the empty text. */
  lemma LogCsvRoundTrip(value: Option<string>)
    ensures var cell := LogCsv(value);
      |cell| >= 2 && cell[0] == '"' && cell[|cell| - 1] == '"' &&
      ParseLine(cell) == Some([value.GetOr("")])
  {
    QuoteRoundTrip(value.GetOr(""));
  }

  /** Where no formula is at stake the log and the export write the same cell. */
  lemma LogCsvAgreesWithExport(value: Option<string>)
    requires value.None? || !AdminController.FormulaStart(value.value)
    ensures LogCsv(value) == AdminController.Csv(value)
  {
  }

  /** A value that would start a formula reaches the log unchanged, while the export defuses it. */
  lemma LogKeepsFormulas(v: string)
    requires AdminController.FormulaStart(v)
    ensures ParseLine(LogCsv(Some(v))) == Some([v])
    ensures ParseLine(AdminController.Csv(Some(v))) == Some(["'" + v])
  {
    LogCsvRoundTrip(Some(v));
    AdminController.CsvRoundTrip(Some(v));
  }

  /** The ten columns of the log, in order. */
  datatype LogColumn =
    | Id | Name | Email | Role | Browser | Type | Description | EventTime | CreatedAt | ScreenshotPath

  const LogColumns: seq<LogColumn> :=
    [Id, Name, Email, Role, Browser, Type, Description, EventTime, CreatedAt, ScreenshotPath]

  /** A column's name in the log header. */
  function LogColumnName(c: LogColumn): string {
    match c
    case Id => "id"
    case Name => "name"
    case Email => "email"
    case Role => "role"
    case Browser => "browser"
    case Type => "type"
    case Description => "description"
    case EventTime => "event_time"
    case CreatedAt => "created_at"
    case ScreenshotPath => "screenshot_path"
  }

  /** The names the header literal lists. */
  const LogNames: seq<string> :=
    ["id", "name", "email", "role", "browser", "type", "description", "event_time", "created_at",
     "screenshot_path"]

  /** The header line of the log: those names separated by commas. */
  const LogHeader: string := Join(LogNames)

  /** The header names the ten columns, in the order the rows fill them. */
  lemma LogHeaderNamesColumns()
    ensures |LogNames| == |LogColumns| == 10
    ensures forall i :: 0 <= i < |LogColumns| ==> LogNames[i] == LogColumnName(LogColumns[i])
  {
    forall i | 0 <= i < |LogColumns| ensures LogNames[i] == LogColumnName(LogColumns[i]) {
      if i < 5 {
        if i == 0 { assert LogColumns[i] == Id; }
        else if i == 1 { assert LogColumns[i] == Name; }
        else if i == 2 { assert LogColumns[i] == Email; }
        else if i == 3 { assert LogColumns[i] == Role; }
        else { assert LogColumns[i] == Browser; }
      } else {
        if i == 5 { assert LogColumns[i] == Type; }
        else if i == 6 { assert LogColumns[i] == Description; }
        else if i == 7 { assert LogColumns[i] == EventTime; }
        else if i == 8 { assert LogColumns[i] == CreatedAt; }
        else { assert LogColumns[i] == ScreenshotPath; }
      }
    }
  }

  /** A time as the log writes it: `format` (`ISO_LOCAL_DATE_TIME`) of a set time, the empty
      text for an unset one. */
  function LogTime(t: Option<Timestamp>, format: Timestamp -> string): string {
    if t.Some? then format(t.value) else ""
  }

  /** The value `csv` receives for a column. */
  function LogColumnText(b: BugReport, c: LogColumn, format: Timestamp -> string): Option<string> {
    match c
    case Id => if b.id.Some? then Some(LongText(b.id.value)) else None
    case Name => b.name
    case Email => b.email
    case Role => b.role
    case Browser => b.browser
    case Type => b.issueType
    case Description => b.description
    case EventTime => Some(LogTime(b.eventTime, format))
    case CreatedAt => Some(LogTime(b.createdAt, format))
    case ScreenshotPath => b.screenshotPath
  }

  /** One line of the log: the `csv` of each column, joined with commas. */
  function LogRow(b: BugReport, format: Timestamp -> string): string {
    Join(seq(|LogColumns|, i requires 0 <= i < |LogColumns| => LogCsv(LogColumnText(b, LogColumns[i], format))))
  }

  /** A log row reads back as exactly ten fields, field `i` being the text of the column the
      header names at position `i`. */
  lemma LogRowRoundTrip(b: BugReport, format: Timestamp -> string)
    ensures ParseLine(LogRow(b, format)) ==
            Some(seq(|LogColumns|, i requires 0 <= i < |LogColumns| => LogColumnText(b, LogColumns[i], format).GetOr("")))
  {
    var texts := seq(|LogColumns|, i requires 0 <= i < |LogColumns| => LogColumnText(b, LogColumns[i], format).GetOr(""));
    var cells := seq(|LogColumns|, i requires 0 <= i < |LogColumns| => LogCsv(LogColumnText(b, LogColumns[i], format)));
    assert cells == seq(|texts|, i requires 0 <= i < |texts| => Quote(texts[i]));
    JoinQuotedRoundTrip(texts);
  }

  /** A joined line starts with the first part's first character. */
  lemma JoinStart(parts: seq<string>)
    requires parts != [] && parts[0] != []
    ensures Join(parts) != [] && Join(parts)[0] == parts[0][0]
  {
  }

  /** No row can be mistaken for the header: rows start with a quote, the header with a letter. */
  lemma LogRowIsNotHeader(b: BugReport, format: Timestamp -> string)
    ensures LogRow(b, format) != LogHeader
  {
    var cells := seq(|LogColumns|, i requires 0 <= i < |LogColumns| => LogCsv(LogColumnText(b, LogColumns[i], format)));
    LogCsvRoundTrip(LogColumnText(b, LogColumns[0], format));
    JoinStart(cells);
    JoinStart(LogNames);
  }

  /** The log file's records: the header first and nowhere else, every other record a row that
      reads back as ten fields. Each element is one written record; a record spans several
      physical lines when one of its values holds a line break. */
  predicate WellFormedLog(lines: seq<string>) {
    && lines != [] && lines[0] == LogHeader
    && forall i :: 1 <= i < |lines| ==>
         lines[i] != LogHeader && ParseLine(lines[i]).Some? && |ParseLine(lines[i]).value| == 10
  }

  /** The file as `appendToCsv` leaves it: the header first if the file did not exist, then the
      existing lines, then the new row. */
  function Appended(log: Option<seq<string>>, b: BugReport, format: Timestamp -> string): (lines: seq<string>)
    ensures lines != [] && lines[|lines| - 1] == LogRow(b, format)
    ensures log.None? ==> lines == [LogHeader, LogRow(b, format)]
    ensures log.Some? ==> |lines| == |log.value| + 1 && lines[..|log.value|] == log.value
  {
    (if log.None? then [LogHeader] else log.value) + [LogRow(b, format)]
  }

  /** Appending keeps a well-formed log well formed and makes a missing one well formed: the
      header is written exactly once. */
  lemma AppendedWellFormed(log: Option<seq<string>>, b: BugReport, format: Timestamp -> string)
    requires log.None? || WellFormedLog(log.value)
    ensures WellFormedLog(Appended(log, b, format))
    ensures log.Some? ==> Appended(log, b, format)[..|log.value|] == log.value
  {
    LogRowIsNotHeader(b, format);
    LogRowRoundTrip(b, format);
    var lines := Appended(log, b, format);
    assert lines[|lines| - 1] == LogRow(b, format);
  }

  /** The submission endpoint over its repository and the log file (None while it does not exist). */
  class BugReportController {
    const repository: ReportTable
    var log: Option<seq<string>>

    constructor (repository: ReportTable, log: Option<seq<string>>)
      ensures this.repository == repository && this.log == log
    {
      this.repository := repository;
      this.log := log;
    }

    /** `appendToCsv`: header only when the file did not exist, then the row; a failing write
        (`fails`) leaves the file as it was. */
    method AppendToCsv(report: BugReport, fails: bool, format: Timestamp -> string)
      modifies this`log
      ensures fails ==> log == old(log)
      ensures !fails ==> log == Some(Appended(old(log), report, format))
      ensures old(log).None? || WellFormedLog(old(log).value) ==> log.None? || WellFormedLog(log.value)
    {
      if fails {
        return;
      }
      var fileExists := log.Some?;
      var lines: seq<string>;
      if fileExists {
        lines := log.value;
      } else {
        lines := [LogHeader];
      }
      lines := lines + [LogRow(report, format)];
      log := Some(lines);
      if old(log).None? || WellFormedLog(old(log).value) {
        AppendedWellFormed(old(log), report, format);
      }
    }

    /** The bean `handleBugReport` fills before looking at the screenshot: the form fields, the
        event time when it parses, and the server's creation time. */
    method NewReport(form: Submission, now: Timestamp, parse: string -> Option<Timestamp>)
      returns (report: BugReportEntity)
      ensures fresh(report)
      ensures report.Snapshot() == Submitted(form, now, parse, None)
    {
      report := new BugReportEntity();
      report.SetName(Some(form.name));
      report.SetEmail(Some(form.email));
      report.SetRole(Some(form.role));
      report.SetBrowser(Some(form.browser));
      report.SetType(Some(form.issueType));
      report.SetDescription(Some(form.description));
      if form.datetime.Some? && !IsBlank(form.datetime.value) {
        var parsed := parse(form.datetime.value);
        if parsed.Some? {
          report.SetEventTime(parsed);
        }
      }
      report.SetCreatedAt(Some(now));
    }

    /** `handleBugReport`: 400 without saving for a foreign domain; 500 without saving when a
        non-empty screenshot cannot be stored; otherwise the assembled record is inserted under a
        new id and the answer is 200 whether or not the log append fails. */
    method HandleBugReport(form: Submission, now: Timestamp, parse: string -> Option<Timestamp>,
                           screenshot: Screenshot, logFails: bool, format: Timestamp -> string)
      returns (status: Status, saved: Option<BugReport>)
      requires repository.Valid()
      modifies repository, this`log
      ensures repository.Valid()
      ensures status == BadRequest <==> !DomainAccepted(form.email)
      ensures status == InternalServerError <==> DomainAccepted(form.email) && ScreenshotFails(screenshot)
      ensures status == Ok <==> DomainAccepted(form.email) && !ScreenshotFails(screenshot)
      ensures status != Ok ==>
                saved.None? && log == old(log) &&
                repository.rows == old(repository.rows) && repository.nextId == old(repository.nextId)
      ensures status == Ok ==>
                saved == Some(Submitted(form, now, parse, StoredPath(screenshot)).(id := Some(old(repository.nextId)))) &&
                old(repository.nextId) !in old(repository.rows) &&
                repository.rows == old(repository.rows)[old(repository.nextId) := saved.value] &&
                repository.nextId == old(repository.nextId) + 1
      ensures status == Ok ==> log == if logFails then old(log) else Some(Appended(old(log), saved.value, format))
    {
      if !DomainAccepted(form.email) {
        return BadRequest, None;
      }
      var report := NewReport(form, now, parse);
      if screenshot.File? && !screenshot.empty {
        if screenshot.storedPath.None? {
          return InternalServerError, None;
        }
        report.SetScreenshotPath(screenshot.storedPath);
      }
      assert report.Snapshot() == Submitted(form, now, parse, StoredPath(screenshot));
      var stored := repository.Save(report.Snapshot());
      assert stored == Submitted(form, now, parse, StoredPath(screenshot)).(id := Some(old(repository.nextId)));
      AppendToCsv(stored, logFails, format);
      status, saved := Ok, Some(stored);
    }
  }
}
