/** BugReportService: the admin filter parameters, the search and export built on them, and the
    bulk resolution update. */
module Service {
  import opened Nullable
  import opened Text
  import opened Model
  import opened Repository

  /** A `LocalDate`, as the number of days since 1970-01-01. */
  type Date = int

  const NanosPerDay: int := 86_400_000_000_000

  /** `date.atStartOfDay()`. */
  function StartOfDay(d: Date): (t: Timestamp)
    ensures DayOf(t) == d && DayOf(t - 1) == d - 1
  {
    d * NanosPerDay
  }

  /** `date.plusDays(1).atStartOfDay().minusNanos(1)`: the last nanosecond of the day. */
  function EndOfDay(d: Date): (t: Timestamp)
    ensures DayOf(t) == d && DayOf(t + 1) == d + 1
  {
    (d + 1) * NanosPerDay - 1
  }

  /** `timestamp.toLocalDate()`: the day a timestamp falls on. */
  function DayOf(t: Timestamp): Date {
    t / NanosPerDay
  }

  /** The bounds are inclusive by day: a timestamp is at or after the start of `from` exactly
      when its day is not before `from`, and at or before the end of `to` exactly when its day is
      not after `to`, so every instant of `to` passes. */
  lemma DayBounds(t: Timestamp, from: Date, to: Date)
    ensures StartOfDay(from) <= t <==> from <= DayOf(t)
    ensures t <= EndOfDay(to) <==> DayOf(t) <= to
  {
    var d := DayOf(t);
    var m := t % NanosPerDay;
    assert t == d * 86_400_000_000_000 + m && 0 <= m < 86_400_000_000_000;
    if from <= d {
      assert from * 86_400_000_000_000 <= d * 86_400_000_000_000;
    } else {
      assert from * 86_400_000_000_000 >= (d + 1) * 86_400_000_000_000;
    }
    if d <= to {
      assert (d + 1) * 86_400_000_000_000 <= (to + 1) * 86_400_000_000_000;
    } else {
      assert d * 86_400_000_000_000 >= (to + 1) * 86_400_000_000_000;
    }
  }

  /** `normalizeType`: null, a blank-after-trim value and "all" in any case mean no type filter;
      anything else is the trimmed value. */
  function NormalizeType(typeFilter: Option<string>): (r: Option<string>)
    ensures typeFilter.None? ==> r.None?
    ensures r.Some? ==> typeFilter.Some? && r.value == Trim(typeFilter.value)
    ensures r.Some? ==> r.value != [] && !Trimmable(r.value[0]) && !Trimmable(r.value[|r.value| - 1])
    ensures r.Some? ==> !EqualsIgnoreCase("all", r.value)
    ensures typeFilter.Some? && r.None? ==>
              Trim(typeFilter.value) == [] || EqualsIgnoreCase("all", Trim(typeFilter.value))
  {
    if typeFilter.None? then None
    else
      var trimmed := Trim(typeFilter.value);
      if trimmed == [] then None
      else if EqualsIgnoreCase("all", trimmed) then None
      else Some(trimmed)
  }

  /** Normalising a normalised filter changes nothing. */
  lemma NormalizeTypeIdempotent(typeFilter: Option<string>)
    ensures NormalizeType(NormalizeType(typeFilter)) == NormalizeType(typeFilter)
  {
    if typeFilter.Some? {
      TrimIdempotent(typeFilter.value);
    }
  }

  /** Whitespace around the filter does not matter. */
  lemma NormalizeTypeIgnoresPadding(before: string, s: string, after: string)
    requires forall k :: 0 <= k < |before| ==> Trimmable(before[k])
    requires forall k :: 0 <= k < |after| ==> Trimmable(after[k])
    ensures NormalizeType(Some(before + s + after)) == NormalizeType(Some(s))
  {
    TrimIgnoresPadding(before, s, after);
  }

  /** "all", "All", "ALL", ... all mean no filter. */
  lemma {:induction false} NormalizeTypeAllAnyCase(s: string)
    requires Lower(s) == "all"
    ensures NormalizeType(Some(s)) == None
  {
    assert |s| == 3;
    assert !Trimmable(s[0]) by { assert LowerChar(s[0]) == 'a'; }
    assert !Trimmable(s[2]) by { assert LowerChar(s[2]) == 'l'; }
    assert TrimStart(s) == s;
    assert TrimEnd(s) == s;
    assert Lower("all") == "all";
  }

  /** One conjunct of the Criteria specification `buildAdminSpecification` assembles. */
  datatype Clause =
    | TypeIs(issueType: string)
    | ResolvedIs(resolved: bool)
    | CreatedFrom(from: Timestamp)
    | CreatedUntil(until: Timestamp)

  /** A clause as the database evaluates it: comparisons with a null column fail. */
  predicate Holds(c: Clause, r: BugReport) {
    match c
    case TypeIs(t) => r.issueType == Some(t)
    case ResolvedIs(b) => r.resolved == b
    case CreatedFrom(t) => r.createdAt.Some? && r.createdAt.value >= t
    case CreatedUntil(t) => r.createdAt.Some? && r.createdAt.value <= t
  }

  /** The conjunction `Specification.where(null).and(...)...`; with no clause it admits every row. */
  predicate Satisfies(spec: seq<Clause>, r: BugReport) {
    forall i :: 0 <= i < |spec| ==> Holds(spec[i], r)
  }

  /** `spec.and(clause)`: admits what `spec` admits and `clause` holds of. */
  function And(spec: seq<Clause>, c: Clause): (s: seq<Clause>)
    ensures |s| == |spec| + 1
    ensures forall r :: Satisfies(s, r) <==> Satisfies(spec, r) && Holds(c, r)
  {
    var s := spec + [c];
    assert forall r :: Satisfies(spec, r) && Holds(c, r) ==> Satisfies(s, r) by {
      forall r | Satisfies(spec, r) && Holds(c, r) ensures Satisfies(s, r) {
        assert forall i :: 0 <= i < |s| ==> s[i] == if i < |spec| then spec[i] else c;
      }
    }
    assert forall r :: Satisfies(s, r) ==> Holds(c, r) by {
      forall r | Satisfies(s, r) ensures Holds(c, r) {
        assert s[|spec|] == c;
      }
    }
    assert forall r :: Satisfies(s, r) ==> Satisfies(spec, r) by {
      forall r | Satisfies(s, r) ensures Satisfies(spec, r) {
        assert forall i :: 0 <= i < |spec| ==> s[i] == spec[i];
      }
    }
    s
  }

  /** `buildAdminSpecification`: one clause per non-null parameter. The rows it admits are exactly
      those the repository's `where` admits with deleted rows included. */
  function BuildAdminSpecification(typeParam: Option<string>, resolvedParam: Option<bool>,
                                   fromDateTime: Option<Timestamp>, toDateTime: Option<Timestamp>): (spec: seq<Clause>)
    ensures |spec| <= 4
    ensures forall r :: Satisfies(spec, r) <==>
              Matches(AdminQuery(typeParam, resolvedParam, fromDateTime, toDateTime, true), r)
  {
    var s1 := if typeParam.Some? then And([], TypeIs(typeParam.value)) else [];
    var s2 := if resolvedParam.Some? then And(s1, ResolvedIs(resolvedParam.value)) else s1;
    var s3 := if fromDateTime.Some? then And(s2, CreatedFrom(fromDateTime.value)) else s2;
    if toDateTime.Some? then And(s3, CreatedUntil(toDateTime.value)) else s3
  }

  /** `Sort.by(Order.asc("resolved"), Order.desc("createdAt"))`: false sorts before true. */
  predicate SortBefore(a: BugReport, b: BugReport) {
    (!a.resolved && b.resolved) || (a.resolved == b.resolved && NewerOrSame(a.createdAt, b.createdAt))
  }

  /** The service's sort and the repository's `case when` ordering are the same order. */
  lemma SortMatchesQueryOrder(a: BugReport, b: BugReport)
    ensures SortBefore(a, b) <==> Precedes(a, b)
  {
  }

  /** The query both `searchIssues` and `exportIssues` issue for the same arguments. */
  function AdminQueryFor(typeFilter: Option<string>, resolvedFilter: Option<bool>,
                         fromDate: Option<Date>, toDate: Option<Date>, viewDeleted: bool): (q: AdminQuery)
    ensures q.resolved == resolvedFilter && q.includeDeleted == viewDeleted
    ensures q.fromDate.Some? <==> fromDate.Some?
    ensures q.toDate.Some? <==> toDate.Some?
    ensures fromDate.Some? ==> DayOf(q.fromDate.value) == fromDate.value && DayOf(q.fromDate.value - 1) < fromDate.value
    ensures toDate.Some? ==> DayOf(q.toDate.value) == toDate.value && DayOf(q.toDate.value + 1) > toDate.value
  {
    AdminQuery(
      NormalizeType(typeFilter),
      resolvedFilter,
      if fromDate.Some? then Some(StartOfDay(fromDate.value)) else None,
      if toDate.Some? then Some(EndOfDay(toDate.value)) else None,
      viewDeleted)
  }

  /** What the admin filters mean, stated by day: the normalised type, the resolved state, the
      creation day between the two dates, and deleted rows only when asked for. */
  predicate Selected(typeFilter: Option<string>, resolvedFilter: Option<bool>,
                     fromDate: Option<Date>, toDate: Option<Date>, viewDeleted: bool, r: BugReport)
  {
    && (NormalizeType(typeFilter).None? || r.issueType == NormalizeType(typeFilter))
    && (resolvedFilter.None? || r.resolved == resolvedFilter.value)
    && (fromDate.None? || (r.createdAt.Some? && fromDate.value <= DayOf(r.createdAt.value)))
    && (toDate.None? || (r.createdAt.Some? && DayOf(r.createdAt.value) <= toDate.value))
    && (viewDeleted || r.deleted != Some(true))
  }

  /** The query admits a row exactly when the filters, read by day, select it. */
  lemma QueryMeansSelected(typeFilter: Option<string>, resolvedFilter: Option<bool>,
                           fromDate: Option<Date>, toDate: Option<Date>, viewDeleted: bool, r: BugReport)
    ensures Matches(AdminQueryFor(typeFilter, resolvedFilter, fromDate, toDate, viewDeleted), r)
            <==> Selected(typeFilter, resolvedFilter, fromDate, toDate, viewDeleted, r)
  {
    if r.createdAt.Some? {
      DayBounds(r.createdAt.value, fromDate.GetOr(0), toDate.GetOr(0));
    }
  }

  /** The query is the service's Criteria specification plus the deleted-visibility clause. */
  lemma QueryIsSpecificationAndVisibility(typeFilter: Option<string>, resolvedFilter: Option<bool>,
                                          fromDate: Option<Date>, toDate: Option<Date>, viewDeleted: bool, r: BugReport)
    ensures var q := AdminQueryFor(typeFilter, resolvedFilter, fromDate, toDate, viewDeleted);
      Matches(q, r) <==>
        Satisfies(BuildAdminSpecification(q.issueType, q.resolved, q.fromDate, q.toDate), r) &&
        (viewDeleted || !DeletedFlag(r))
  {
  }

  /** `exportIssues`: every selected row and no other, as often as the table holds it, unresolved
      first and newest first. */
  function ExportIssues(rows: seq<BugReport>, typeFilter: Option<string>, resolvedFilter: Option<bool>,
                        fromDate: Option<Date>, toDate: Option<Date>, viewDeleted: bool): (out: seq<BugReport>)
    ensures Ordered(out)
    ensures forall r :: multiset(out)[r] ==
              if Selected(typeFilter, resolvedFilter, fromDate, toDate, viewDeleted, r) then multiset(rows)[r] else 0
  {
    var q := AdminQueryFor(typeFilter, resolvedFilter, fromDate, toDate, viewDeleted);
    forall r ensures Matches(q, r) <==> Selected(typeFilter, resolvedFilter, fromDate, toDate, viewDeleted, r) {
      QueryMeansSelected(typeFilter, resolvedFilter, fromDate, toDate, viewDeleted, r);
    }
    ExportForAdmin(rows, q)
  }

  /** `searchIssues`: `PageRequest.of` rejects a negative page or a size below one (None);
      otherwise the page is read from `result`, what this run of the paged query returns. The count
      is the export's size; without ties the page is the matching slice of the export. */
  function SearchIssues(rows: seq<BugReport>, typeFilter: Option<string>, resolvedFilter: Option<bool>,
                        fromDate: Option<Date>, toDate: Option<Date>, viewDeleted: bool,
                        page: int, size: int, result: seq<BugReport>): (r: Option<Page>)
    requires Arranges(result, rows, AdminQueryFor(typeFilter, resolvedFilter, fromDate, toDate, viewDeleted))
    ensures r.None? <==> page < 0 || size < 1
    ensures r.Some? ==>
              r.value.totalElements == |ExportIssues(rows, typeFilter, resolvedFilter, fromDate, toDate, viewDeleted)|
    ensures r.Some? && TieFree(rows, AdminQueryFor(typeFilter, resolvedFilter, fromDate, toDate, viewDeleted)) ==>
              r.value.content == Slice(ExportIssues(rows, typeFilter, resolvedFilter, fromDate, toDate, viewDeleted), page, size)
    ensures r.Some? ==> r.value.content == Slice(result, page, size)
    ensures r.Some? ==> |r.value.content| <= size
    ensures r.Some? ==> forall x :: x in r.value.content ==>
              x in rows && Selected(typeFilter, resolvedFilter, fromDate, toDate, viewDeleted, x)
  {
    if page < 0 || size < 1 then None
    else
      var q := AdminQueryFor(typeFilter, resolvedFilter, fromDate, toDate, viewDeleted);
      var p := SearchForAdmin(rows, q, Pageable(page, size), result);
      assert ExportIssues(rows, typeFilter, resolvedFilter, fromDate, toDate, viewDeleted) == ExportForAdmin(rows, q);
      forall x | x in p.content
        ensures x in rows && Selected(typeFilter, resolvedFilter, fromDate, toDate, viewDeleted, x)
      {
        QueryMeansSelected(typeFilter, resolvedFilter, fromDate, toDate, viewDeleted, x);
      }
      Some(p)
  }

  /** One entry of a bulk update request. */
  datatype BulkUpdateRequest = BulkUpdateRequest(
    id: Option<int>,
    resolved: bool,
    resolvedBy: Option<string>,
    resolutionDescription: Option<string>)

  /** `a` and `b` differ at most in the four resolution fields. */
  predicate SameExceptResolution(a: BugReport, b: BugReport) {
    a.(resolved := b.resolved, resolvedBy := b.resolvedBy,
       resolutionDescription := b.resolutionDescription, resolvedAt := b.resolvedAt) == b
  }

  /** The resolution sub-state is coherent: resolved exactly when it has a resolution time, and an
      unresolved record names no resolver and no description. */
  predicate ResolutionConsistent(r: BugReport) {
    (r.resolved <==> r.resolvedAt.Some?) &&
    (!r.resolved ==> r.resolvedBy.None? && r.resolutionDescription.None?)
  }

  /** What one entry does to the record it names. */
  function Resolve(r: BugReport, u: BulkUpdateRequest, now: Timestamp): (r': BugReport)
    ensures r'.resolved == u.resolved
    ensures u.resolved ==> r'.resolvedBy == u.resolvedBy && r'.resolutionDescription == u.resolutionDescription
    ensures u.resolved && !r.resolved ==> r'.resolvedAt == Some(now)
    ensures u.resolved && r.resolved ==> r'.resolvedAt == r.resolvedAt
    ensures !u.resolved ==> r'.resolvedBy.None? && r'.resolutionDescription.None? && r'.resolvedAt.None?
    ensures SameExceptResolution(r, r')
  {
    if u.resolved then
      r.(resolved := true, resolvedBy := u.resolvedBy, resolutionDescription := u.resolutionDescription,
         resolvedAt := if !r.resolved then Some(now) else r.resolvedAt)
    else
      r.(resolved := false, resolvedBy := None, resolutionDescription := None, resolvedAt := None)
  }

  /** Applying the same entry again, at any later time, changes nothing: re-resolving does not
      re-stamp the resolution time. */
  lemma ResolveIdempotent(r: BugReport, u: BulkUpdateRequest, now: Timestamp, later: Timestamp)
    ensures Resolve(Resolve(r, u, now), u, later) == Resolve(r, u, now)
  {
  }

  /** Resolution keeps a coherent record coherent and a valid record valid. */
  lemma ResolvePreservesInvariants(r: BugReport, u: BulkUpdateRequest, now: Timestamp)
    ensures ResolutionConsistent(r) ==> ResolutionConsistent(Resolve(r, u, now))
    ensures Valid(r) ==> Valid(Resolve(r, u, now))
    ensures Resolve(r, u, now).id == r.id
  {
  }

  /** One loop iteration: entries with a null or unknown id are skipped, otherwise the named
      record is resolved or unresolved and nothing else changes. */
  function ApplyUpdate(rows: map<int, BugReport>, u: BulkUpdateRequest, now: Timestamp): (rows': map<int, BugReport>)
    ensures rows'.Keys == rows.Keys
    ensures forall k :: k in rows && u.id != Some(k) ==> rows'[k] == rows[k]
    ensures u.id.Some? && u.id.value in rows ==> rows'[u.id.value] == Resolve(rows[u.id.value], u, now)
  {
    if u.id.None? || u.id.value !in rows then rows
    else rows[u.id.value := Resolve(rows[u.id.value], u, now)]
  }

  /** The entries of a request list holding no null entry. */
  function Requests(updates: seq<Option<BulkUpdateRequest>>): (requests: seq<BulkUpdateRequest>)
    requires None !in updates
    ensures |requests| == |updates|
    ensures forall i :: 0 <= i < |updates| ==> updates[i] == Some(requests[i])
  {
    if updates == [] then []
    else [updates[0].value] + Requests(updates[1..])
  }

  /** The entries applied in list order, all with the same time. */
  function ApplyAll(rows: map<int, BugReport>, updates: seq<BulkUpdateRequest>, now: Timestamp): map<int, BugReport>
  {
    if updates == [] then rows
    else ApplyUpdate(ApplyAll(rows, updates[..|updates| - 1], now), updates[|updates| - 1], now)
  }

  /** A batch neither adds nor removes records, and a record no entry names is untouched. */
  lemma {:induction false} ApplyAllFrame(rows: map<int, BugReport>, updates: seq<BulkUpdateRequest>, now: Timestamp)
    ensures ApplyAll(rows, updates, now).Keys == rows.Keys
    ensures forall k :: k in rows && (forall i :: 0 <= i < |updates| ==> updates[i].id != Some(k)) ==>
              ApplyAll(rows, updates, now)[k] == rows[k]
  {
    if updates != [] {
      var init := updates[..|updates| - 1];
      ApplyAllFrame(rows, init, now);
      forall k | k in rows && (forall i :: 0 <= i < |updates| ==> updates[i].id != Some(k))
        ensures ApplyAll(rows, updates, now)[k] == rows[k]
      {
        assert forall i :: 0 <= i < |init| ==> init[i] == updates[i];
        assert updates[|updates| - 1].id != Some(k);
      }
    }
  }

  /** A batch changes only resolution fields, of any record; name, email, creation time, deletion
      state and the rest stay as they were. */
  lemma {:induction false} ApplyAllOnlyResolution(rows: map<int, BugReport>, updates: seq<BulkUpdateRequest>, now: Timestamp)
    ensures ApplyAll(rows, updates, now).Keys == rows.Keys
    ensures forall k :: k in rows ==> SameExceptResolution(rows[k], ApplyAll(rows, updates, now)[k])
  {
    ApplyAllFrame(rows, updates, now);
    if updates != [] {
      var init := updates[..|updates| - 1];
      ApplyAllOnlyResolution(rows, init, now);
    }
  }

  /** A batch keeps coherent resolution sub-states coherent. */
  lemma {:induction false} ApplyAllPreservesConsistency(rows: map<int, BugReport>, updates: seq<BulkUpdateRequest>, now: Timestamp)
    requires forall k :: k in rows ==> ResolutionConsistent(rows[k])
    ensures forall k :: k in ApplyAll(rows, updates, now) ==> ResolutionConsistent(ApplyAll(rows, updates, now)[k])
  {
    if updates != [] {
      var init := updates[..|updates| - 1];
      ApplyAllPreservesConsistency(rows, init, now);
      var mid := ApplyAll(rows, init, now);
      forall k | k in mid ensures ResolutionConsistent(Resolve(mid[k], updates[|updates| - 1], now)) {
        ResolvePreservesInvariants(mid[k], updates[|updates| - 1], now);
      }
    }
  }

  /** Entries are applied in order: a batch is its first part followed by its second, so a later
      entry sees what earlier entries did to the same record. */
  lemma {:induction false} ApplyAllSequential(rows: map<int, BugReport>, first: seq<BulkUpdateRequest>,
                                              second: seq<BulkUpdateRequest>, now: Timestamp)
    ensures ApplyAll(rows, first + second, now) == ApplyAll(ApplyAll(rows, first, now), second, now)
  {
    if second == [] {
      assert first + second == first;
    } else {
      var init := second[..|second| - 1];
      ApplyAllSequential(rows, first, init, now);
      assert (first + second)[..|first + second| - 1] == first + init;
      assert (first + second)[|first + second| - 1] == second[|second| - 1];
    }
  }

  /** The last entry naming a record decides its resolution state and resolution details. */
  lemma LastEntryDecides(rows: map<int, BugReport>, updates: seq<BulkUpdateRequest>, now: Timestamp, i: nat, k: int)
    requires i < |updates| && updates[i].id == Some(k) && k in rows
    requires forall j :: i < j < |updates| ==> updates[j].id != Some(k)
    ensures k in ApplyAll(rows, updates, now)
    ensures var r := ApplyAll(rows, updates, now)[k];
      r.resolved == updates[i].resolved &&
      (updates[i].resolved ==> r.resolvedBy == updates[i].resolvedBy &&
                               r.resolutionDescription == updates[i].resolutionDescription) &&
      (!updates[i].resolved ==> r.resolvedBy.None? && r.resolutionDescription.None? && r.resolvedAt.None?)
  {
    var upto := updates[..i + 1];
    var rest := updates[i + 1..];
    assert updates == upto + rest;
    ApplyAllSequential(rows, upto, rest, now);
    assert upto[..|upto| - 1] == updates[..i];
    ApplyAllFrame(rows, updates[..i], now);
    var mid := ApplyAll(rows, upto, now);
    ApplyAllFrame(rows, upto, now);
    ApplyAllFrame(mid, rest, now);
    assert forall j :: 0 <= j < |rest| ==> rest[j] == updates[i + 1 + j];
  }

  /** Resolving an already-resolved record, any number of times, never moves its resolution
      time, while each entry may still change resolver and description. */
  lemma {:induction false} ReResolvingKeepsResolvedAt(rows: map<int, BugReport>, updates: seq<BulkUpdateRequest>,
                                                      now: Timestamp, k: int)
    requires k in rows && rows[k].resolved
    requires forall i :: 0 <= i < |updates| && updates[i].id == Some(k) ==> updates[i].resolved
    ensures k in ApplyAll(rows, updates, now)
    ensures ApplyAll(rows, updates, now)[k].resolved
    ensures ApplyAll(rows, updates, now)[k].resolvedAt == rows[k].resolvedAt
  {
    ApplyAllFrame(rows, updates, now);
    if updates != [] {
      var init := updates[..|updates| - 1];
      ReResolvingKeepsResolvedAt(rows, init, now, k);
    }
  }

  /** Resolving a record that was unresolved at that point stamps the batch time, whatever its
      state before the batch: an earlier entry that unresolves it clears the old stamp. */
  lemma UnresolveThenResolveRestamps(rows: map<int, BugReport>, k: int, resolver: Option<string>,
                                     note: Option<string>, now: Timestamp)
    requires k in rows
    ensures var updates := [BulkUpdateRequest(Some(k), false, None, None), BulkUpdateRequest(Some(k), true, resolver, note)];
      k in ApplyAll(rows, updates, now) &&
      ApplyAll(rows, updates, now)[k].resolvedAt == Some(now)
  {
    var updates := [BulkUpdateRequest(Some(k), false, None, None), BulkUpdateRequest(Some(k), true, resolver, note)];
    assert updates[..1] == [updates[0]];
    assert [updates[0]][..0] == [];
    var one := [updates[0]];
    assert ApplyAll(rows, one[..0], now) == rows;
    var mid := ApplyAll(rows, one, now);
    assert mid == ApplyUpdate(rows, updates[0], now);
    assert k in mid && !mid[k].resolved;
    assert ApplyAll(rows, updates, now) == ApplyUpdate(mid, updates[1], now);
  }

  /** The service over the repository it is wired to. */
  class BugReportService {
    const repository: ReportTable

    constructor (repository: ReportTable)
      ensures this.repository == repository
    {
      this.repository := repository;
    }

    /** One entry of `applyBulkResolutionChanges`: load the record it names, update it through
        the setters and save it back; an entry whose id is null or unknown is skipped. */
    method ApplyEntry(update: BulkUpdateRequest, now: Timestamp)
      requires repository.Valid()
      modifies repository
      ensures repository.Valid()
      ensures repository.rows == ApplyUpdate(old(repository.rows), update, now)
      ensures repository.nextId == old(repository.nextId)
    {
      if update.id.Some? {
        var found := repository.FindById(update.id.value);
        if found.Some? {
          var existing := new BugReportEntity.Load(found.value);
          var wasResolved := existing.resolved;
          var willBeResolved := update.resolved;
          if willBeResolved {
            existing.SetResolved(true);
            existing.SetResolvedBy(update.resolvedBy);
            existing.SetResolutionDescription(update.resolutionDescription);
            if !wasResolved {
              existing.SetResolvedAt(Some(now));
            }
          } else {
            existing.SetResolved(false);
            existing.SetResolvedBy(None);
            existing.SetResolutionDescription(None);
            existing.SetResolvedAt(None);
          }
          assert existing.Snapshot() == Resolve(found.value, update, now);
          var saved := repository.Save(existing.Snapshot());
        }
      }
    }

    /** `applyBulkResolutionChanges`: each entry in turn loads its record, updates it through the
        setters and saves it back; `now` is the one time `LocalDateTime.now()` gave the batch.
        A null entry (None) makes `update.getId()` throw a NullPointerException there, and the
        transaction rolls back what the earlier entries did. */
    method ApplyBulkResolutionChanges(updates: seq<Option<BulkUpdateRequest>>, now: Timestamp)
      returns (thrown: bool)
      requires repository.Valid()
      modifies repository
      ensures repository.Valid()
      ensures thrown <==> None in updates
      ensures thrown ==> repository.rows == old(repository.rows)
      ensures !thrown ==> repository.rows == ApplyAll(old(repository.rows), Requests(updates), now)
      ensures repository.nextId == old(repository.nextId)
    {
      var before := repository.rows;
      var i := 0;
      while i < |updates|
        invariant 0 <= i <= |updates|
        invariant repository.Valid()
        invariant None !in updates[..i]
        invariant forall k :: k in before ==> before[k].id == Some(k) && k < repository.nextId
        invariant repository.rows == ApplyAll(before, Requests(updates[..i]), now)
        invariant repository.nextId == old(repository.nextId)
      {
        if updates[i].None? {
          repository.Rollback(before);
          return true;
        }
        var update := updates[i].value;
        assert updates[..i + 1] == updates[..i] + [updates[i]];
        assert Requests(updates[..i + 1])[..i] == Requests(updates[..i]);
        ApplyEntry(update, now);
        i := i + 1;
      }
      assert updates[..i] == updates;
      return false;
    }
  }
}
