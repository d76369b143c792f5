# Bug tracker core, modelled in Dafny

This project models the core of a Spring bug-report backend. End users submit reports through a
form endpoint. Administrators filter, page, bulk-resolve and export those reports as CSV. The
model covers:

- the `BugReport` entity, its validation bounds, and the bean whose setters each change one field;
- the repository's admin query: its `where` clause as a predicate, its `order by` as a sort, and
  paging as contiguous slices of what one run of the query returns. Each page request runs the
  query anew, and rows that tie on both sort keys may come back in either order on each run;
- the service: type normalisation, day bounds, the criteria specification, search and export,
  and the bulk resolve/unresolve loop, which writes through the entity bean into the table;
- the admin controller: resolved-filter parsing, the guarded CSV cell, the 15-column export
  layout, and the bulk-update guards;
- the intake controller: the domain check, record assembly, the screenshot outcome, save, and the
  best-effort append to the `bug_reports.csv` log with its header-once rule.

Dafny modules follow the source files:

- `Nullable`: `Option` and the HTTP status outcomes.
- `Text`: the `java.lang.String` operations used.
- `CsvFormat`: quoting and joining shared by both CSV writers, plus a reader used to state round
  trips.
- `Model`, `Repository`, `Service`, `AdminController`, `IntakeController`.

Conventions:

- A `LocalDateTime` is an integer count of nanoseconds; a `LocalDate` is an integer day number.
- The end of day `d` is `(d + 1) * 86400000000000 - 1`, as `plusDays(1).atStartOfDay().minusNanos(1)`
  computes it.
- `LocalDateTime.now()`, `LocalDateTime.parse`, `LocalDateTime.toString` and the ISO formatter are
  parameters.
- The database table is a class holding a map from id to row and the next identity value.

The source disagrees with itself in two places: the controller and the service are out of step,
and so are the entity and the code that reads it. The model follows the code that uses the fields:

- The admin controller passes `viewDeleted` to the service, but the service's signatures lack it.
  The model takes the deleted-row rule from the repository query's `includeDeleted` clause.
  `Service.QueryIsSpecificationAndVisibility` proves this is the service's four-clause
  specification conjoined with that clause.
- `BugReport.java` has no resolution or deletion fields, while the service and the export use
  them. The model's record has them.

## Model

| member | source | states |
|---|---|---|
| Model.RequiredAndOptionalFields | src/main/java/com/iworks/bugtracker/model/BugReport.java:18-52 | name, email, role, browser, type, description and createdAt are required (clearing one breaks validity); eventTime, screenshotPath and the resolution/deletion fields are optional |
| Model.FreshIsInvalid | src/main/java/com/iworks/bugtracker/model/BugReport.java:18-52 | a blank entity does not satisfy the constraints |
| Model.Valid | src/main/java/com/iworks/bugtracker/model/BugReport.java:18-52 | a valid record has every required field present, and name, email and description within 100, 150 and 255 characters |
| Model.NotBlankAtMostMeaning | src/main/java/com/iworks/bugtracker/model/BugReport.java:18-46 | `@NotBlank` refuses a value that is blank or made only of characters up to U+0020, and accepts one with any other character; `@Size` counts UTF-16 code units, so a value of `max` characters passes exactly when none lies beyond U+FFFF, and a longer one never passes |
| Model.BugReportEntity.constructor | src/main/java/com/iworks/bugtracker/model/BugReport.java:14-52 | a new bean has every reference field null and `resolved` false |
| Model.BugReportEntity.Load | src/main/java/com/iworks/bugtracker/service/BugReportService.java:127-132 | the bean loaded by `findById` holds exactly the stored row |
| Model.BugReportEntity.SetId | src/main/java/com/iworks/bugtracker/model/BugReport.java:60-62 | writes only `id`; the record changes in that field alone |
| Model.BugReportEntity.SetName | src/main/java/com/iworks/bugtracker/model/BugReport.java:68-70 | writes only `name` |
| Model.BugReportEntity.SetEmail | src/main/java/com/iworks/bugtracker/model/BugReport.java:76-78 | writes only `email` |
| Model.BugReportEntity.SetRole | src/main/java/com/iworks/bugtracker/model/BugReport.java:84-86 | writes only `role` |
| Model.BugReportEntity.SetBrowser | src/main/java/com/iworks/bugtracker/model/BugReport.java:92-94 | writes only `browser` |
| Model.BugReportEntity.SetEventTime | src/main/java/com/iworks/bugtracker/model/BugReport.java:100-102 | writes only `eventTime` |
| Model.BugReportEntity.SetType | src/main/java/com/iworks/bugtracker/model/BugReport.java:108-110 | writes only `type` |
| Model.BugReportEntity.SetDescription | src/main/java/com/iworks/bugtracker/model/BugReport.java:116-118 | writes only `description` |
| Model.BugReportEntity.SetScreenshotPath | src/main/java/com/iworks/bugtracker/model/BugReport.java:124-126 | writes only `screenshotPath` |
| Model.BugReportEntity.SetCreatedAt | src/main/java/com/iworks/bugtracker/model/BugReport.java:132-134 | writes only `createdAt` |
| Model.BugReportEntity.SetResolved | src/main/java/com/iworks/bugtracker/service/BugReportService.java:138 | writes only `resolved` |
| Model.BugReportEntity.SetResolvedBy | src/main/java/com/iworks/bugtracker/service/BugReportService.java:139 | writes only `resolvedBy` |
| Model.BugReportEntity.SetResolutionDescription | src/main/java/com/iworks/bugtracker/service/BugReportService.java:140 | writes only `resolutionDescription` |
| Model.BugReportEntity.SetResolvedAt | src/main/java/com/iworks/bugtracker/service/BugReportService.java:144 | writes only `resolvedAt` |
| Repository.ReportTable.Save | src/main/java/com/iworks/bugtracker/service/BugReportService.java:154 | a row with a stored id replaces that row; any other row is inserted under the next identity value, which no row had; every row keeps its own key as id |
| Repository.ReportTable.FindById | src/main/java/com/iworks/bugtracker/service/BugReportService.java:127-132 | finds a row exactly when its key is stored, and the row found carries that key as its id |
| Repository.ReportTable.Rollback | src/main/java/com/iworks/bugtracker/service/BugReportService.java:118-119 | a rolled-back transaction leaves the table holding exactly the rows it held before, still valid |
| Repository.Filter | src/main/java/com/iworks/bugtracker/repository/BugReportRepository.java:34-41 | keeps each row exactly as often as it occurs in the table when the `where` clause admits it, and never otherwise |
| Repository.FilterKeepsAll | src/main/java/com/iworks/bugtracker/repository/BugReportRepository.java:37-41 | when the `where` clause admits every row, the filter keeps the rows as they are |
| Repository.MatchesMeaning | src/main/java/com/iworks/bugtracker/repository/BugReportRepository.java:37-41 | a query whose start lies after its end matches no row; with deleted rows hidden, no row flagged deleted matches |
| Repository.OpenBeforeResolved | src/main/java/com/iworks/bugtracker/repository/BugReportRepository.java:42-45 | an open issue comes strictly before a resolved one, whatever their creation times |
| Repository.PrecedesTotal | src/main/java/com/iworks/bugtracker/repository/BugReportRepository.java:42-46 | the `order by` compares any two rows |
| Repository.PrecedesTransitive | src/main/java/com/iworks/bugtracker/repository/BugReportRepository.java:42-46 | the `order by` is transitive |
| Repository.Insert | src/main/java/com/iworks/bugtracker/repository/BugReportRepository.java:42-46 | inserting into an ordered sequence keeps it ordered and adds exactly that row |
| Repository.ConsOrdered | src/main/java/com/iworks/bugtracker/repository/BugReportRepository.java:42-46 | a row preceding every row of an ordered sequence may go in front of it |
| Repository.Sort | src/main/java/com/iworks/bugtracker/repository/BugReportRepository.java:42-46 | the result is in query order (unresolved first, then newest first, null times last) and is a permutation of its input |
| Repository.ExportForAdmin | src/main/java/com/iworks/bugtracker/repository/BugReportRepository.java:61-81 | ordered; holds each row admitted by the `where` clause as often as the table does, and nothing else |
| Repository.ArrangedRows | src/main/java/com/iworks/bugtracker/repository/BugReportRepository.java:34-47 | every row a run of the query returns is a table row the `where` clause admits |
| Repository.ExportArranges | src/main/java/com/iworks/bugtracker/repository/BugReportRepository.java:61-74 | the export is one of the sequences a run of the query may return |
| Repository.SameArrangement | src/main/java/com/iworks/bugtracker/repository/BugReportRepository.java:42-46 | two sequences with the same elements, both ordered by a relation that ties no two distinct elements, are equal |
| Repository.TieFreeResultIsTheExport | src/main/java/com/iworks/bugtracker/repository/BugReportRepository.java:42-46 | when no two kept rows tie on both sort keys, every sequence a run of the query may return is the export |
| Repository.Slice | src/main/java/com/iworks/bugtracker/repository/BugReportRepository.java:48-55 | a page has at most `size` rows, all from the result, still in order |
| Repository.SearchForAdmin | src/main/java/com/iworks/bugtracker/repository/BugReportRepository.java:34-55 | the total is the size of the export; the page is the slice of what this run of the query returned: at most `size` matching table rows, in query order; without ties it is the slice of the export |
| Repository.SlicesTile | src/main/java/com/iworks/bugtracker/repository/BugReportRepository.java:48-55 | the first `k` pages, one after another, are the first `k * size` rows of the result |
| Repository.SlicesCover | src/main/java/com/iworks/bugtracker/repository/BugReportRepository.java:48-55 | enough pages cover the whole result |
| Repository.PagesConcatenateToExport | src/main/java/com/iworks/bugtracker/repository/BugReportRepository.java:42-60 | without ties, the first `k` pages, each read from its own run of the query, concatenated, are the first `k` slices of the export |
| Repository.AllPagesAreTheExport | src/main/java/com/iworks/bugtracker/repository/BugReportRepository.java:42-60 | without ties, fetching enough pages, each from its own run of the query, yields exactly the export: same rows, same order |
| Repository.TiedRowsCanRepeatAcrossPages | src/main/java/com/iworks/bugtracker/repository/BugReportRepository.java:42-46 | two distinct tied rows with one row per page: runs returning them in opposite orders are both allowed, and pages 0 and 1 then list the first row twice and never the second, which the export holds |
| Repository.TiedPairArranges | src/main/java/com/iworks/bugtracker/repository/BugReportRepository.java:42-46 | two tied rows the query keeps may come back in either order |
| Repository.TiebrokenPagesAreTheExport | src/main/java/com/iworks/bugtracker/repository/BugReportRepository.java:42-46 | with the id as last sort key and ids unique, all runs return the same sequence, so enough pages list every kept row exactly as often as the table holds it, in one order |
| Service.DayBounds | src/main/java/com/iworks/bugtracker/service/BugReportService.java:48-52 | `createdAt >= fromDate.atStartOfDay()` iff its day is on or after `fromDate`; `createdAt <=` end of `toDate` iff its day is on or before `toDate` |
| Service.StartOfDay | src/main/java/com/iworks/bugtracker/service/BugReportService.java:48 | `atStartOfDay` lies on that day and the instant before it on the previous day |
| Service.EndOfDay | src/main/java/com/iworks/bugtracker/service/BugReportService.java:50-52 | the inclusive end lies on that day and the instant after it on the next day |
| Service.NormalizeType | src/main/java/com/iworks/bugtracker/service/BugReportService.java:197-209 | null stays null; a result is the trimmed input, non-empty and not "all" in any case; an input is dropped only when blank after trimming or "all" in some case |
| Service.NormalizeTypeIdempotent | src/main/java/com/iworks/bugtracker/service/BugReportService.java:197-209 | normalising twice is normalising once |
| Service.NormalizeTypeIgnoresPadding | src/main/java/com/iworks/bugtracker/service/BugReportService.java:201 | surrounding whitespace never changes the filter |
| Service.NormalizeTypeAllAnyCase | src/main/java/com/iworks/bugtracker/service/BugReportService.java:205-207 | "all" in any case means no type filter |
| Service.And | src/main/java/com/iworks/bugtracker/service/BugReportService.java:170-186 | `spec.and(c)` admits a row iff `spec` does and `c` holds |
| Service.BuildAdminSpecification | src/main/java/com/iworks/bugtracker/service/BugReportService.java:161-190 | at most four clauses; the specification admits a row exactly when the repository's `where` clause does, with deleted rows included |
| Service.SortMatchesQueryOrder | src/main/java/com/iworks/bugtracker/service/BugReportService.java:55-58 | `resolved asc, createdAt desc` is the repository's `order by` |
| Service.QueryMeansSelected | src/main/java/com/iworks/bugtracker/service/BugReportService.java:45-52 | the query built from the filters admits a row iff the filters, read by calendar day, select it |
| Service.AdminQueryFor | src/main/java/com/iworks/bugtracker/service/BugReportService.java:45-52 | the resolved filter and the deleted-row flag pass through; a date bound is present exactly when its date is, the start being the first and the end the last instant of its day |
| Service.QueryIsSpecificationAndVisibility | src/main/java/com/iworks/bugtracker/service/BugReportService.java:62-67 | the query is the service's specification plus the deleted-row visibility clause |
| Service.ExportIssues | src/main/java/com/iworks/bugtracker/service/BugReportService.java:75-102 | in query order; each selected row as often as in the table, no other row |
| Service.SearchIssues | src/main/java/com/iworks/bugtracker/service/BugReportService.java:37-70 | `PageRequest.of` fails iff page < 0 or size < 1; the total is the export's size; the page is the slice of what this run returned, holds only selected table rows, and without ties is the slice of the export |
| Service.Resolve | src/main/java/com/iworks/bugtracker/service/BugReportService.java:133-152 | resolving copies resolver and note and stamps `resolvedAt` only on the unresolved-to-resolved transition; unresolving clears all three; nothing else changes |
| Service.ResolveIdempotent | src/main/java/com/iworks/bugtracker/service/BugReportService.java:136-152 | applying the same update again, even later, changes nothing |
| Service.ResolvePreservesInvariants | src/main/java/com/iworks/bugtracker/service/BugReportService.java:133-152 | keeps "resolved iff resolvedAt set", keeps entity validity, keeps the id |
| Service.ApplyUpdate | src/main/java/com/iworks/bugtracker/service/BugReportService.java:122-155 | a null or unknown id changes nothing; otherwise only that row changes, to its resolved form |
| Service.Requests | src/main/java/com/iworks/bugtracker/service/BugReportService.java:122-123 | a list without null entries gives its requests one for one, in order |
| Service.ApplyAllFrame | src/main/java/com/iworks/bugtracker/service/BugReportService.java:122-155 | the batch keeps the set of ids and leaves rows no update names untouched |
| Service.ApplyAllOnlyResolution | src/main/java/com/iworks/bugtracker/service/BugReportService.java:136-152 | the batch changes only resolution fields |
| Service.ApplyAllPreservesConsistency | src/main/java/com/iworks/bugtracker/service/BugReportService.java:136-152 | "resolved iff resolvedAt set" holds after the batch if it held before |
| Service.ApplyAllSequential | src/main/java/com/iworks/bugtracker/service/BugReportService.java:122 | a batch is its parts applied in list order |
| Service.LastEntryDecides | src/main/java/com/iworks/bugtracker/service/BugReportService.java:122-155 | the last entry for an id decides its resolved state, resolver and note |
| Service.ReResolvingKeepsResolvedAt | src/main/java/com/iworks/bugtracker/service/BugReportService.java:142-145 | re-resolving an already resolved issue keeps its original `resolvedAt` |
| Service.UnresolveThenResolveRestamps | src/main/java/com/iworks/bugtracker/service/BugReportService.java:142-151 | an unresolve entry followed by a resolve entry for a stored record stamps `resolvedAt` with the batch's time |
| Service.BugReportService.constructor | src/main/java/com/iworks/bugtracker/service/BugReportService.java:23-25 | the service writes through the given table |
| Service.BugReportService.ApplyEntry | src/main/java/com/iworks/bugtracker/service/BugReportService.java:123-154 | one entry (skip a null or unknown id, load, setters, save) leaves the table equal to that entry applied to the old table, with no new rows |
| Service.BugReportService.ApplyBulkResolutionChanges | src/main/java/com/iworks/bugtracker/service/BugReportService.java:118-156 | throws iff the list holds a null entry, and then the transaction leaves the table as it was; otherwise the table is the batch applied to the old table, with no new rows |
| AdminController.ParseResolvedFilter | src/main/java/com/iworks/bugtracker/controller/AdminReportController.java:157-173 | true iff trimmed and lowered it is "true" or "resolved"; false iff "false" or "unresolved"; anything else (null, empty, "all", unknown) is no filter |
| AdminController.ParseResolvedFilterIgnoresCase | src/main/java/com/iworks/bugtracker/controller/AdminReportController.java:161 | the parameter's case does not matter |
| AdminController.ParseResolvedFilterIgnoresPadding | src/main/java/com/iworks/bugtracker/controller/AdminReportController.java:161 | surrounding whitespace does not matter |
| AdminController.ParseResolvedFilterSelectsNothing | src/main/java/com/iworks/bugtracker/controller/AdminReportController.java:158-172 | null, "", "all" and an unknown word give no filter |
| AdminController.ParseResolvedFilterSelectsResolved | src/main/java/com/iworks/bugtracker/controller/AdminReportController.java:165-167 | "true" and "resolved" select resolved issues |
| AdminController.ParseResolvedFilterSelectsUnresolved | src/main/java/com/iworks/bugtracker/controller/AdminReportController.java:168-170 | "false" and "unresolved" select open issues |
| AdminController.Neutralize | src/main/java/com/iworks/bugtracker/controller/AdminReportController.java:189-194 | the guarded text never starts a formula; a formula start gets one leading single quote, any other text is unchanged |
| AdminController.Csv | src/main/java/com/iworks/bugtracker/controller/AdminReportController.java:183-198 | null gives two quotes; otherwise the cell quotes the guarded text |
| AdminController.CsvRoundTrip | src/main/java/com/iworks/bugtracker/controller/AdminReportController.java:183-198 | a cell starts and ends with a quote, reads back as exactly the guarded text, and that text never starts a formula |
| AdminController.HeaderNamesColumns | src/main/java/com/iworks/bugtracker/controller/AdminReportController.java:125-145 | the header's fifteen names name the fifteen row columns in the order the row writes them |
| AdminController.RowLineRoundTrip | src/main/java/com/iworks/bugtracker/controller/AdminReportController.java:129-145 | a row line reads back as exactly fifteen fields, field `i` being the guarded text of column `i` |
| AdminController.RowLinesInOrder | src/main/java/com/iworks/bugtracker/controller/AdminReportController.java:128-146 | there is one line per issue, and line `i` is the row of issue `i` |
| AdminController.WriteCsv | src/main/java/com/iworks/bugtracker/controller/AdminReportController.java:123-148 | the header first, then the row lines of the issues in order |
| AdminController.ExportIssuesAsCsv | src/main/java/com/iworks/bugtracker/controller/AdminReportController.java:94-149 | the header, then one row per issue of the service export for the parsed filters, in export order |
| AdminController.GetIssues | src/main/java/com/iworks/bugtracker/controller/AdminReportController.java:34-56 | fails iff page < 0 or size < 1; the total is the size of the export for the same parameters; every issue on a page is a table row the parsed filters select; without ties the page is the slice of that export |
| AdminController.UnresolvedViewHidesResolvedAndDeleted | src/main/java/com/iworks/bugtracker/controller/AdminReportController.java:94-114 | exporting with `resolved=unresolved` and deleted rows hidden yields no resolved and no deleted issue |
| AdminController.AdminReportController.constructor | src/main/java/com/iworks/bugtracker/controller/AdminReportController.java:24-26 | the controller calls the given service |
| AdminController.AdminReportController.BulkUpdateIssues | src/main/java/com/iworks/bugtracker/controller/AdminReportController.java:69-84 | 400 iff the list is null or empty; 500 iff it is non-empty and holds a null entry; in both cases the table is unchanged; otherwise 200 with the batch applied |
| IntakeController.DomainAcceptedMeans | src/main/java/com/iworks/bugtracker/controller/BugReportController.java:70 | an address is accepted iff its last fifteen characters, lowered, spell "@iworkscorp.com" |
| IntakeController.DomainAccepted | src/main/java/com/iworks/bugtracker/controller/BugReportController.java:70 | an accepted address is at least fifteen characters long and has an `@` fifteen characters from its end |
| IntakeController.LocaleLower | src/main/java/com/iworks/bugtracker/controller/BugReportController.java:70 | lowering under a locale keeps the length and lowers each character in place; under the Turkish locale a capital I becomes a dotless small i |
| IntakeController.DomainAcceptedInLocale | src/main/java/com/iworks/bugtracker/controller/BugReportController.java:70 | under the root locale the check is the domain rule; under the Turkish locale it agrees with the rule on addresses without a capital I and refuses every address whose domain is written with one |
| IntakeController.TurkishLocaleRefusesUpperCaseDomain | src/main/java/com/iworks/bugtracker/controller/BugReportController.java:70 | `x@Iworkscorp.com`, for any local part, is accepted by the rule but refused by the check under the Turkish locale |
| IntakeController.DomainAcceptedIgnoresCase | src/main/java/com/iworks/bugtracker/controller/BugReportController.java:70 | the address's case does not matter |
| IntakeController.DomainAcceptedAnyLocalPart | src/main/java/com/iworks/bugtracker/controller/BugReportController.java:70 | any local part followed by the domain in any case (e.g. `x@IWorksCorp.COM`) is accepted |
| IntakeController.ShortAddressRefused | src/main/java/com/iworks/bugtracker/controller/BugReportController.java:70-74 | an address shorter than the domain is refused |
| IntakeController.LookAlikeDomainRefused | src/main/java/com/iworks/bugtracker/controller/BugReportController.java:70-74 | an address that only contains the domain before another suffix is refused |
| IntakeController.EventTimeOf | src/main/java/com/iworks/bugtracker/controller/BugReportController.java:84-91 | an event time is set only from a present, non-blank `datetime`, and is then what it parses to |
| IntakeController.Submitted | src/main/java/com/iworks/bugtracker/controller/BugReportController.java:76-94 | a new record has no id, is open, not deleted, has no resolution details, and keeps the form's email and the screenshot path |
| IntakeController.SubmittedValid | src/main/java/com/iworks/bugtracker/controller/BugReportController.java:60-82 | the assembled record meets the entity's constraints iff the form meets the handler's declared bounds and the screenshot path fits 500 characters |
| IntakeController.SubmittedTimes | src/main/java/com/iworks/bugtracker/controller/BugReportController.java:84-94 | `createdAt` is the server's time; `eventTime` is set iff a present, non-blank `datetime` parses, and then is the parsed value |
| IntakeController.SubmittedIsOpen | src/main/java/com/iworks/bugtracker/controller/BugReportController.java:76-94 | a new report is unresolved and not deleted, so the unresolved admin view lists it iff its creation time is within the bounds |
| IntakeController.LogCsv | src/main/java/com/iworks/bugtracker/controller/BugReportController.java:168-175 | null gives two quotes; otherwise the cell quotes the value, unguarded |
| IntakeController.LogCsvRoundTrip | src/main/java/com/iworks/bugtracker/controller/BugReportController.java:168-175 | a log cell starts and ends with a quote and reads back as its value (null as empty) |
| IntakeController.LogCsvAgreesWithExport | src/main/java/com/iworks/bugtracker/controller/BugReportController.java:168-175 | when no formula is at stake the log and the export write the same cell |
| IntakeController.LogKeepsFormulas | src/main/java/com/iworks/bugtracker/controller/BugReportController.java:168-175 | a formula value reaches the log verbatim while the export prefixes it with a single quote |
| IntakeController.LogHeaderNamesColumns | src/main/java/com/iworks/bugtracker/controller/BugReportController.java:139-162 | the log header's ten names name the ten row columns in row order |
| IntakeController.LogRowRoundTrip | src/main/java/com/iworks/bugtracker/controller/BugReportController.java:143-162 | a log row reads back as exactly ten fields, field `i` the text of column `i`; unset times are empty |
| IntakeController.LogRowIsNotHeader | src/main/java/com/iworks/bugtracker/controller/BugReportController.java:138-162 | no row line can equal the header line |
| IntakeController.Appended | src/main/java/com/iworks/bugtracker/controller/BugReportController.java:129-163 | the new row is last; a missing file gets the header and the row; an existing file keeps every old line in place |
| IntakeController.AppendedWellFormed | src/main/java/com/iworks/bugtracker/controller/BugReportController.java:129-163 | appending keeps the old lines, and the log stays (or becomes) a single header followed by ten-field rows |
| IntakeController.BugReportController.constructor | src/main/java/com/iworks/bugtracker/controller/BugReportController.java:36-46 | the controller writes to the given table and log |
| IntakeController.BugReportController.AppendToCsv | src/main/java/com/iworks/bugtracker/controller/BugReportController.java:128-165 | the header is written only when the file did not exist, then the row; a failed write leaves the file as it was; a well-formed log stays well formed |
| IntakeController.BugReportController.NewReport | src/main/java/com/iworks/bugtracker/controller/BugReportController.java:76-94 | the bean holds the form fields, the parsed event time if any and the server's creation time, and nothing else |
| IntakeController.BugReportController.HandleBugReport | src/main/java/com/iworks/bugtracker/controller/BugReportController.java:58-126 | 400 iff the domain check fails; 500 iff a non-empty screenshot cannot be stored; in both cases nothing is saved or logged; otherwise the assembled record is inserted under a new id, and the answer is 200 whether or not the log write fails |
| Text.Lower | src/main/java/com/iworks/bugtracker/controller/BugReportController.java:70 | `toLowerCase` keeps the length and lowers each character in place |
| Text.EqualsIgnoreCase | src/main/java/com/iworks/bugtracker/service/BugReportService.java:205 | strings equal ignoring case have the same length, and equal strings are equal ignoring case |
| Text.EndsWith | src/main/java/com/iworks/bugtracker/controller/BugReportController.java:70 | `endsWith` holds iff the suffix fits and matches the last characters one by one |
| Text.IsBlank | src/main/java/com/iworks/bugtracker/controller/BugReportController.java:85 | a blank string trims to nothing |
| Text.Utf16Length | src/main/java/com/iworks/bugtracker/model/BugReport.java:19 | `length()` counts between one and two UTF-16 units per character, exactly one per character iff none lies beyond U+FFFF |
| Text.TrimEmpty | src/main/java/com/iworks/bugtracker/model/BugReport.java:18 | `trim()` leaves nothing iff every character is at most U+0020 |
| Text.LongText | src/main/java/com/iworks/bugtracker/controller/AdminReportController.java:187 | `String.valueOf(long)` starts with a minus sign iff the number is negative, then decimal digits |
| Text.DigitsRoundTrip | src/main/java/com/iworks/bugtracker/controller/AdminReportController.java:187 | the decimal digits of a number read back as that number |
| Text.LongTextRoundTrip | src/main/java/com/iworks/bugtracker/controller/AdminReportController.java:187 | `String.valueOf(long)` reads back as its number, so distinct ids are written as distinct texts |
| Text.Trim | src/main/java/com/iworks/bugtracker/service/BugReportService.java:201 | `trim` returns the infix between the leading and trailing runs of characters up to the space, and neither end of the result is such a character |
| Text.TrimIdempotent | src/main/java/com/iworks/bugtracker/service/BugReportService.java:201 | trimming twice is trimming once |
| Text.TrimIgnoresPadding | src/main/java/com/iworks/bugtracker/controller/AdminReportController.java:161 | padding on either side does not change the trim |
| Text.TrimLowerCommute | src/main/java/com/iworks/bugtracker/controller/AdminReportController.java:161 | trimming and lowering commute |
| Text.LowerIdempotent | src/main/java/com/iworks/bugtracker/service/BugReportService.java:205 | lowering twice is lowering once |
| Text.LowerConcat | src/main/java/com/iworks/bugtracker/controller/BugReportController.java:70 | lowering distributes over concatenation |
| CsvFormat.ReadQuotedEscape | src/main/java/com/iworks/bugtracker/controller/AdminReportController.java:196-197 | reading an escaped text back stops exactly at the closing quote |
| CsvFormat.Escape | src/main/java/com/iworks/bugtracker/controller/AdminReportController.java:196 | escaping never shortens a text |
| CsvFormat.EscapeDoublesQuotes | src/main/java/com/iworks/bugtracker/controller/AdminReportController.java:196 | escaping doubles the number of double quotes in the text |
| CsvFormat.EscapeKeepsPlainText | src/main/java/com/iworks/bugtracker/controller/AdminReportController.java:196 | a text without a double quote is written as it is |
| CsvFormat.QuoteShape | src/main/java/com/iworks/bugtracker/controller/AdminReportController.java:196-197 | a cell starts and ends with a double quote and is at least two characters longer than its text |
| CsvFormat.JoinStartsWithFirst | src/main/java/com/iworks/bugtracker/controller/BugReportController.java:151-162 | a joined line starts with its first part, followed by a comma when more parts follow |
| CsvFormat.QuoteRoundTrip | src/main/java/com/iworks/bugtracker/controller/BugReportController.java:173-174 | a quoted cell reads back as exactly its text |
| CsvFormat.JoinQuotedRoundTrip | src/main/java/com/iworks/bugtracker/controller/BugReportController.java:151-162 | quoted cells joined by commas read back as exactly those texts, in order |
| CsvFormat.QuoteInjective | src/main/java/com/iworks/bugtracker/controller/AdminReportController.java:196-197 | distinct texts give distinct cells |

## Left out

- HTTP and Spring plumbing is reduced to status outcomes. This covers request binding, response
  headers and bodies, and the servlet writer.
- A missing required form field is refused by Spring before the handler runs. The model's form
  therefore has every required field present.
- Bean validation is not enforced anywhere in the model. The handler declares `@NotBlank`/`@Size`
  on its parameters, and whether Spring applies them depends on its version. Before Spring
  Framework 6.1 they need `@Validated` on the class, which it lacks. From 6.1 on, built-in method
  validation applies them and refuses an invalid form with 400. Whether Hibernate Validator
  rejects an invalid entity at persist time depends on the classpath. The build file, which fixes
  both, is not part of this model. `IntakeController.SubmittedValid` states exactly when the saved
  record would be valid.
- The `@Email` pattern is not modelled.
- Filesystem effects are reduced to outcomes: the screenshot copy (a stored path or a failure)
  and the log append (the file's records, one per write, or `None` while it does not exist).
- Directory creation at start-up is left out. When `Files.createDirectories` fails, the
  constructor throws `IllegalStateException` and the application does not start
  (src/main/java/com/iworks/bugtracker/controller/BugReportController.java:49-55).
  `IntakeController.BugReportController.constructor` assumes that both directories exist.
- Screenshot file naming is left out. That covers `StringUtils.cleanPath`, the
  `currentTimeMillis()` prefix and `Path.resolve`. The stored path is an input.
- A log append that fails part way is modelled as leaving the file unchanged.
- `LocalDateTime.parse` is a parameter that returns `None` where it throws. `LocalDateTime.now()`
  is a parameter, and so are `toString` and the ISO formatter used to render times.
- JPA is modelled only as a predicate and a sort over the table's rows. Criteria lambdas, JPQL
  execution, `Page` internals and identity generation are left out. Identity generation is a
  counter.
- `save` of an entity whose id is not in the table inserts it under a fresh id.
- Transactions are modelled only as far as the batch needs them. The batch runs in one
  `@Transactional` call with no concurrent writer. An exception rolls the table back to the rows
  it held before the call (`Repository.ReportTable.Rollback`). The only exception the model's
  batch can raise is the `NullPointerException` from a null entry.
- Rows that tie on both sort keys may come back from the database in any order, and each run of
  the query may choose differently. The export is one fixed such order (`Repository.Sort`). A page
  is read from a sequence given as a parameter, any sequence the query may return. Without ties,
  the page contracts say it is the slice of the export. With ties, they say only that it is a
  slice of some valid order. See the first row under "## Findings".
- A null `createdAt` sorts last here. The database's null placement is not part of this model.
- The delete-only-if-resolved rule is not modelled. It appears only in a comment
  (src/main/java/com/iworks/bugtracker/controller/AdminReportController.java:58-67), and neither
  the service nor its request type has a `deleted` field. The `IllegalStateException` branch of
  `bulkUpdateIssues` therefore cannot be reached in the model.
- `AdminController.Header` is the comma-join of the fifteen names, which equals the two Java
  string literals. This equality of long literals is not checked in Dafny; the layout is stated
  by `AdminController.HeaderNamesColumns`. The same holds for `IntakeController.LogHeader`.
- `toLowerCase` and `isBlank` are restricted to ASCII: letters A-Z for case, tab to carriage
  return, the four separators and the space for whitespace. `trim` is exact: it strips code
  points up to U+0020. `@Size` and `length()` count UTF-16 code units (`Text.Utf16Length`).
- IntakeController.DomainAccepted: lowers letters under the root locale's ASCII rules only. The
  Turkish locale is modelled (`IntakeController.LocaleLower`); see the second row under
  "## Findings". Other locale rules and non-ASCII mappings are not. For instance, Java lowers the
  Kelvin sign U+212A to `k`. An address whose domain is written with that sign for its `k` is
  therefore accepted in Java but refused by the model.
- A null cell and an empty cell are both written as two quotes, so a CSV reader cannot tell them
  apart. The round-trip lemmas read null back as the empty text.

## Findings

| source | as written | input that shows it | evidently intended | confidence | as-written member | corrected member |
|---|---|---|---|---|---|---|
| src/main/java/com/iworks/bugtracker/service/BugReportService.java:55-60 | pages are sorted by `resolved asc, createdAt desc` only; each page request is its own query, and rows tied on both keys may come back in a different order each time | two open reports with equal `createdAt`, page size 1: page 0 may return the first and page 1 the first again, so the second is never listed, though the export holds it | a unique last sort key (the id), so that paging lists every matching row exactly once | not executed | Repository.TiedRowsCanRepeatAcrossPages | Repository.TiebrokenPagesAreTheExport |
| src/main/java/com/iworks/bugtracker/controller/BugReportController.java:70 | `email.toLowerCase()` lowers under the server's default locale | on a server whose default locale is Turkish, `x@Iworkscorp.com`: the capital I lowers to a dotless i (U+0131), so the address is refused | lowering under a fixed locale (`toLowerCase(Locale.ROOT)`), so that the domain is accepted in any case | not executed | IntakeController.TurkishLocaleRefusesUpperCaseDomain | IntakeController.DomainAcceptedAnyLocalPart |
