/** AdminReportController: the request-parameter parsing, the CSV export with its formula
    guard, and the bulk-update endpoint's guards. */
module AdminController {
  import opened Nullable
  import opened Text
  import opened CsvFormat
  import opened Model
  import opened Repository
  import opened Service

  /** `parseResolvedFilter`: "true"/"resolved" and "false"/"unresolved" in any case and with any
      surrounding whitespace select a state; null, empty, "all" and every other value select none. */
  function ParseResolvedFilter(value: Option<string>): (r: Option<bool>)
    ensures r == Some(true) <==>
              value.Some? && (Lower(Trim(value.value)) == "true" || Lower(Trim(value.value)) == "resolved")
    ensures r == Some(false) <==>
              value.Some? && (Lower(Trim(value.value)) == "false" || Lower(Trim(value.value)) == "unresolved")
  {
    if value.None? then None
    else
      var v := Lower(Trim(value.value));
      if v == [] || v == "all" then None
      else if v == "true" || v == "resolved" then Some(true)
      else if v == "false" || v == "unresolved" then Some(false)
      else None
  }

  /** The parameter's case does not matter. */
  lemma ParseResolvedFilterIgnoresCase(s: string)
    ensures ParseResolvedFilter(Some(s)) == ParseResolvedFilter(Some(Lower(s)))
  {
    TrimLowerCommute(s);
    LowerIdempotent(Trim(s));
  }

  /** Whitespace around the parameter does not matter. */
  lemma ParseResolvedFilterIgnoresPadding(before: string, s: string, after: string)
    requires forall k :: 0 <= k < |before| ==> Trimmable(before[k])
    requires forall k :: 0 <= k < |after| ==> Trimmable(after[k])
    ensures ParseResolvedFilter(Some(before + s + after)) == ParseResolvedFilter(Some(s))
  {
    TrimIgnoresPadding(before, s, after);
  }

  /** "all", the empty value and an unknown word select no state. */
  lemma ParseResolvedFilterSelectsNothing()
    ensures ParseResolvedFilter(None) == None
    ensures ParseResolvedFilter(Some("")) == None
    ensures ParseResolvedFilter(Some("all")) == None
    ensures ParseResolvedFilter(Some("yes")) == None
  {
    assert Trim("") == "";
    PlainWord("all");
    PlainWord("yes");
  }

  /** "true" and "resolved" select the resolved issues. */
  lemma ParseResolvedFilterSelectsResolved()
    ensures ParseResolvedFilter(Some("true")) == Some(true)
    ensures ParseResolvedFilter(Some("resolved")) == Some(true)
  {
    PlainWord("true");
    PlainWord("resolved");
  }

  /** "false" and "unresolved" select the open issues. */
  lemma ParseResolvedFilterSelectsUnresolved()
    ensures ParseResolvedFilter(Some("false")) == Some(false)
    ensures ParseResolvedFilter(Some("unresolved")) == Some(false)
  {
    PlainWord("false");
    PlainWord("unresolved");
  }

  /** A lower-case word is its own trim and its own lower case. */
  lemma PlainWord(s: string)
    requires s != []
    requires forall i :: 0 <= i < |s| ==> 'a' <= s[i] <= 'z'
    ensures Lower(Trim(s)) == s
  {
    TrimOfPlainWord(s);
    LowerOfLowercase(s);
  }

  /** A word with no trimmable character at either end is its own trim. */
  lemma TrimOfPlainWord(s: string)
    requires s != [] && !Trimmable(s[0]) && !Trimmable(s[|s| - 1])
    ensures Trim(s) == s
  {
    assert TrimStart(s) == s;
    assert TrimEnd(s) == s;
  }

  /** A spreadsheet reads a cell starting with one of these as a formula. */
  predicate FormulaStart(s: string) {
    s != [] && (s[0] == '=' || s[0] == '+' || s[0] == '-' || s[0] == '@')
  }

  /** The guard: a leading single quote before a value that would start a formula. */
  function Neutralize(s: string): (t: string)
    ensures !FormulaStart(t)
    ensures FormulaStart(s) ==> t == "'" + s
    ensures !FormulaStart(s) ==> t == s
  {
    if FormulaStart(s) then "'" + s else s
  }

  /** The text a cell of the export stands for: the guarded value, or nothing for null. */
  function CellText(value: Option<string>): string {
    if value.Some? then Neutralize(value.value) else ""
  }

  /** `csv` of the export: null gives two quotes; otherwise the guarded value, quotes doubled,
      between quotes. */
  function Csv(value: Option<string>): (cell: string)
    ensures value.None? ==> cell == "\"\""
    ensures cell == Quote(CellText(value))
  {
    if value.None? then "\"\""
    else Quote(Neutralize(value.value))
  }

  /** An export cell starts and ends with a quote and reads back as the guarded value, which
      never starts a formula. */
  lemma CsvRoundTrip(value: Option<string>)
    ensures var cell := Csv(value);
      |cell| >= 2 && cell[0] == '"' && cell[|cell| - 1] == '"' &&
      ParseLine(cell) == Some([CellText(value)]) && !FormulaStart(CellText(value))
  {
    QuoteRoundTrip(CellText(value));
  }

  /** The fifteen columns of the export, in order. */
  datatype Column =
    | Id | Type | Name | Email | Role | Browser | Description | EventTime | CreatedAt
    | Resolved | ResolvedBy | ResolutionDescription | ResolvedAt | Deleted | DeletedAt

  const Columns: seq<Column> :=
    [Id, Type, Name, Email, Role, Browser, Description, EventTime, CreatedAt,
     Resolved, ResolvedBy, ResolutionDescription, ResolvedAt, Deleted, DeletedAt]

  /** A column's name in the header. */
  function ColumnName(c: Column): string {
    match c
    case Id => "id"
    case Type => "type"
    case Name => "name"
    case Email => "email"
    case Role => "role"
    case Browser => "browser"
    case Description => "description"
    case EventTime => "event_time"
    case CreatedAt => "created_at"
    case Resolved => "resolved"
    case ResolvedBy => "resolved_by"
    case ResolutionDescription => "resolution_description"
    case ResolvedAt => "resolved_at"
    case Deleted => "deleted"
    case DeletedAt => "deleted_at"
  }

  /** `String.valueOf` of a nullable timestamp, `render` being `LocalDateTime.toString`. */
  function TimeText(t: Option<Timestamp>, render: Timestamp -> string): Option<string> {
    if t.Some? then Some(render(t.value)) else None
  }

  /** `String.valueOf` of a column's getter; a null stays null. */
  function ColumnText(b: BugReport, c: Column, render: Timestamp -> string): Option<string> {
    match c
    case Id => if b.id.Some? then Some(LongText(b.id.value)) else None
    case Type => b.issueType
    case Name => b.name
    case Email => b.email
    case Role => b.role
    case Browser => b.browser
    case Description => b.description
    case EventTime => TimeText(b.eventTime, render)
    case CreatedAt => TimeText(b.createdAt, render)
    case Resolved => Some(BoolText(b.resolved))
    case ResolvedBy => b.resolvedBy
    case ResolutionDescription => b.resolutionDescription
    case ResolvedAt => TimeText(b.resolvedAt, render)
    case Deleted => if b.deleted.Some? then Some(BoolText(b.deleted.value)) else None
    case DeletedAt => TimeText(b.deletedAt, render)
  }

  /** The names the header line lists, in the order of its two string literals. */
  const HeaderNames: seq<string> :=
    ["id", "type", "name", "email", "role", "browser", "description", "event_time", "created_at",
     "resolved", "resolved_by", "resolution_description", "resolved_at", "deleted", "deleted_at"]

  /** The header line of the export: those names separated by commas. */
  const Header: string := Join(HeaderNames)

  /** The header names the fifteen columns, in the order the rows fill them. */
  lemma HeaderNamesColumns()
    ensures |HeaderNames| == |Columns| == 15
    ensures forall i :: 0 <= i < |Columns| ==> HeaderNames[i] == ColumnName(Columns[i])
  {
    forall i | 0 <= i < |Columns| ensures HeaderNames[i] == ColumnName(Columns[i]) {
      if i < 5 {
        if i == 0 { assert Columns[i] == Id; }
        else if i == 1 { assert Columns[i] == Type; }
        else if i == 2 { assert Columns[i] == Name; }
        else if i == 3 { assert Columns[i] == Email; }
        else { assert Columns[i] == Role; }
      } else if i < 10 {
        if i == 5 { assert Columns[i] == Browser; }
        else if i == 6 { assert Columns[i] == Description; }
        else if i == 7 { assert Columns[i] == EventTime; }
        else if i == 8 { assert Columns[i] == CreatedAt; }
        else { assert Columns[i] == Resolved; }
      } else {
        if i == 10 { assert Columns[i] == ResolvedBy; }
        else if i == 11 { assert Columns[i] == ResolutionDescription; }
        else if i == 12 { assert Columns[i] == ResolvedAt; }
        else if i == 13 { assert Columns[i] == Deleted; }
        else { assert Columns[i] == DeletedAt; }
      }
    }
  }

  /** The cells of one exported row: the `csv` of each column's getter, in column order. */
  function RowCells(b: BugReport, render: Timestamp -> string): (cells: seq<string>)
    ensures |cells| == |Columns|
  {
    seq(|Columns|, i requires 0 <= i < |Columns| => Csv(ColumnText(b, Columns[i], render)))
  }

  /** One line of the export: the cells joined with commas. */
  function RowLine(b: BugReport, render: Timestamp -> string): string {
    Join(RowCells(b, render))
  }

  /** An exported row reads back as exactly fifteen fields, field `i` being the guarded text of
      the column the header names at position `i`. */
  lemma RowLineRoundTrip(b: BugReport, render: Timestamp -> string)
    ensures ParseLine(RowLine(b, render)) ==
            Some(seq(|Columns|, i requires 0 <= i < |Columns| => CellText(ColumnText(b, Columns[i], render))))
  {
    var texts := seq(|Columns|, i requires 0 <= i < |Columns| => CellText(ColumnText(b, Columns[i], render)));
    var cells := RowCells(b, render);
    assert cells == seq(|texts|, i requires 0 <= i < |texts| => Quote(texts[i]));
    JoinQuotedRoundTrip(texts);
  }

  /** The row lines of a sequence of issues, in its order. */
  function RowLines(issues: seq<BugReport>, render: Timestamp -> string): (lines: seq<string>)
    ensures |lines| == |issues|
  {
    if issues == [] then []
    else RowLines(issues[..|issues| - 1], render) + [RowLine(issues[|issues| - 1], render)]
  }

  /** Line `i` of the rows is the line of issue `i`: one line per issue, in the same order. */
  lemma {:induction false} RowLinesInOrder(issues: seq<BugReport>, render: Timestamp -> string)
    ensures |RowLines(issues, render)| == |issues|
    ensures forall i :: 0 <= i < |issues| ==> RowLines(issues, render)[i] == RowLine(issues[i], render)
  {
    if issues != [] {
      var init := issues[..|issues| - 1];
      RowLinesInOrder(init, render);
      assert forall i :: 0 <= i < |init| ==> init[i] == issues[i];
    }
  }

  /** The writing loop of `exportIssuesAsCsv`: the header line, then one line per issue. */
  method WriteCsv(header: string, issues: seq<BugReport>, render: Timestamp -> string) returns (lines: seq<string>)
    ensures lines != [] && lines[0] == header && lines[1..] == RowLines(issues, render)
  {
    var rowLines: seq<string> := [];
    for i := 0 to |issues|
      invariant rowLines == RowLines(issues[..i], render)
    {
      assert issues[..i + 1][..i] == issues[..i];
      rowLines := rowLines + [RowLine(issues[i], render)];
    }
    assert issues[..|issues|] == issues;
    lines := [header] + rowLines;
    assert lines[1..] == rowLines;
  }

  /** `exportIssuesAsCsv`: the header, then one line per exported issue, in the export's order. */
  method ExportIssuesAsCsv(rows: seq<BugReport>, typeParam: Option<string>, resolvedParam: Option<string>,
                           fromDate: Option<Date>, toDate: Option<Date>, viewDeleted: bool,
                           render: Timestamp -> string)
    returns (lines: seq<string>)
    ensures lines != [] && lines[0] == Header
    ensures lines[1..] ==
      RowLines(ExportIssues(rows, typeParam, ParseResolvedFilter(resolvedParam), fromDate, toDate, viewDeleted), render)
  {
    var resolvedFilter := ParseResolvedFilter(resolvedParam);
    var issues := ExportIssues(rows, typeParam, resolvedFilter, fromDate, toDate, viewDeleted);
    lines := WriteCsv(Header, issues, render);
  }

  /** `getIssues`: the search with the parsed resolved filter; `result` is what this run of the
      paged query returns. The count is the size of the export for the same parameters, and
      without ties the page is the matching slice of that export. */
  function GetIssues(rows: seq<BugReport>, typeParam: Option<string>, resolvedParam: Option<string>,
                     fromDate: Option<Date>, toDate: Option<Date>, viewDeleted: bool,
                     page: int, size: int, result: seq<BugReport>): (r: Option<Page>)
    requires Arranges(result, rows, AdminQueryFor(typeParam, ParseResolvedFilter(resolvedParam), fromDate, toDate, viewDeleted))
    ensures r.None? <==> page < 0 || size < 1
    ensures r.Some? ==> var all := ExportIssues(rows, typeParam, ParseResolvedFilter(resolvedParam), fromDate, toDate, viewDeleted);
              r.value.totalElements == |all| &&
              (TieFree(rows, AdminQueryFor(typeParam, ParseResolvedFilter(resolvedParam), fromDate, toDate, viewDeleted)) ==>
                 r.value.content == Slice(all, page, size))
    ensures r.Some? ==> |r.value.content| <= size
    ensures r.Some? ==> forall x :: x in r.value.content ==>
              x in rows && Selected(typeParam, ParseResolvedFilter(resolvedParam), fromDate, toDate, viewDeleted, x)
  {
    SearchIssues(rows, typeParam, ParseResolvedFilter(resolvedParam), fromDate, toDate, viewDeleted, page, size, result)
  }

  /** With `resolved=unresolved` and deleted rows hidden, the export holds no resolved and no
      deleted issue. */
  lemma UnresolvedViewHidesResolvedAndDeleted(rows: seq<BugReport>, typeParam: Option<string>,
                                              fromDate: Option<Date>, toDate: Option<Date>)
    ensures forall x :: x in ExportIssues(rows, typeParam, ParseResolvedFilter(Some("unresolved")), fromDate, toDate, false) ==>
              !x.resolved && x.deleted != Some(true)
  {
    ParseResolvedFilterSelectsUnresolved();
    var out := ExportIssues(rows, typeParam, Some(false), fromDate, toDate, false);
    forall x | x in out ensures !x.resolved && x.deleted != Some(true) {
      assert multiset(out)[x] > 0;
    }
  }

  /** The admin endpoints over the service they are wired to. */
  class AdminReportController {
    const service: BugReportService

    constructor (service: BugReportService)
      ensures this.service == service
    {
      this.service := service;
    }

    /** `bulkUpdateIssues`: a null or empty list is rejected before the service is called.
        Otherwise the batch is applied and the answer is 200, unless the service throws: a null
        entry makes it throw a NullPointerException, the transaction rolls back, the catch (for
        IllegalStateException only) lets it pass and the framework answers 500. */
    method BulkUpdateIssues(updates: Option<seq<Option<BulkUpdateRequest>>>, now: Timestamp) returns (status: Status)
      requires service.repository.Valid()
      modifies service.repository
      ensures service.repository.Valid()
      ensures service.repository.nextId == old(service.repository.nextId)
      ensures status == BadRequest <==> updates.None? || updates.value == []
      ensures status == InternalServerError <==> updates.Some? && updates.value != [] && None in updates.value
      ensures status == Ok <==> updates.Some? && updates.value != [] && None !in updates.value
      ensures status != Ok ==> service.repository.rows == old(service.repository.rows)
      ensures status == Ok ==>
                service.repository.rows == ApplyAll(old(service.repository.rows), Requests(updates.value), now)
    {
      if updates.None? || updates.value == [] {
        return BadRequest;
      }
      var thrown := service.ApplyBulkResolutionChanges(updates.value, now);
      if thrown {
        return InternalServerError;
      }
      status := Ok;
    }
  }
}
