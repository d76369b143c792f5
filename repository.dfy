/** BugReportRepository: the `bug_reports` table keyed by generated id, and the admin search and
    export queries (their `where` and `order by`) as a filter and a sort over the table's rows. */
module Repository {
  import opened Nullable
  import opened Model

  /** The table: rows by id, and the next identity value the database will hand out. */
  class ReportTable {
    var rows: map<int, BugReport>
    var nextId: int

    /** Every row carries its own key as id, and every key was handed out already. */
    ghost predicate Valid()
      reads this
    {
      forall k :: k in rows ==> rows[k].id == Some(k) && k < nextId
    }

    /** `findById`: the stored row under that key, which carries that id, or empty. */
    function FindById(id: int): (r: Option<BugReport>)
      reads this
      ensures r.Some? <==> id in rows
      ensures r.Some? ==> r.value in rows.Values
      ensures Valid() && r.Some? ==> r.value.id == Some(id)
    {
      if id in rows then Some(rows[id]) else None
    }

    /** A transaction rollback: the rows return to those the table held when it began, which the
        identity counter has not passed since. */
    method Rollback(saved: map<int, BugReport>)
      requires forall k :: k in saved ==> saved[k].id == Some(k) && k < nextId
      modifies this`rows
      ensures rows == saved && Valid()
    {
      rows := saved;
    }

    /** `save`: a record whose id is null or unknown is inserted under a newly generated id;
        a record with a stored id replaces that row. */
    method Save(r: BugReport) returns (saved: BugReport)
      requires Valid()
      modifies this
      ensures Valid()
      ensures r.id.Some? && r.id.value in old(rows) ==>
                saved == r && rows == old(rows)[r.id.value := r] && nextId == old(nextId)
      ensures !(r.id.Some? && r.id.value in old(rows)) ==>
                saved == r.(id := Some(old(nextId))) && old(nextId) !in old(rows) &&
                rows == old(rows)[old(nextId) := saved] && nextId == old(nextId) + 1
    {
      if r.id.Some? && r.id.value in rows {
        saved := r;
        rows := rows[r.id.value := r];
      } else {
        saved := r.(id := Some(nextId));
        rows := rows[nextId := saved];
        nextId := nextId + 1;
      }
    }
  }

  /** The parameters of `searchForAdmin` / `exportForAdmin`; None is a null parameter. */
  datatype AdminQuery = AdminQuery(
    issueType: Option<string>,
    resolved: Option<bool>,
    fromDate: Option<Timestamp>,
    toDate: Option<Timestamp>,
    includeDeleted: bool)

  /** `coalesce(br.deleted, false)`: a null flag counts as not deleted. */
  function DeletedFlag(r: BugReport): bool {
    r.deleted.GetOr(false)
  }

  /** The `where` clause. A comparison with a null column is never true in SQL, so a row with a
      null type or creation time fails the corresponding non-null parameter. */
  predicate Matches(q: AdminQuery, r: BugReport) {
    && (q.issueType.None? || r.issueType == q.issueType)
    && (q.resolved.None? || r.resolved == q.resolved.value)
    && (q.fromDate.None? || (r.createdAt.Some? && r.createdAt.value >= q.fromDate.value))
    && (q.toDate.None? || (r.createdAt.Some? && r.createdAt.value <= q.toDate.value))
    && (q.includeDeleted || !DeletedFlag(r))
  }

  /** The rows the `where` clause keeps, in table order. */
  function Filter(rows: seq<BugReport>, q: AdminQuery): (out: seq<BugReport>)
    ensures forall r :: multiset(out)[r] == if Matches(q, r) then multiset(rows)[r] else 0
  {
    if rows == [] then []
    else
      assert rows == [rows[0]] + rows[1..];
      (if Matches(q, rows[0]) then [rows[0]] else []) + Filter(rows[1..], q)
  }

  /** A `where` clause that admits every row keeps the whole table, in table order. */
  lemma {:induction false} FilterKeepsAll(rows: seq<BugReport>, q: AdminQuery)
    requires forall r :: r in rows ==> Matches(q, r)
    ensures Filter(rows, q) == rows
  {
    if rows != [] {
      FilterKeepsAll(rows[1..], q);
    }
  }

  /** `case when br.resolved = false then 0 else 1 end`. */
  function Rank(r: BugReport): int {
    if r.resolved == false then 0 else 1
  }

  /** `createdAt desc`: `a` may come first when it is at least as recent. The column is
      `nullable = false`, so the place of a null is immaterial; the model puts nulls last. */
  predicate NewerOrSame(a: Option<Timestamp>, b: Option<Timestamp>) {
    b.None? || (a.Some? && a.value >= b.value)
  }

  /** The `order by`: `a` may be listed before `b`. */
  predicate Precedes(a: BugReport, b: BugReport) {
    Rank(a) < Rank(b) || (Rank(a) == Rank(b) && NewerOrSame(a.createdAt, b.createdAt))
  }

  /** A query whose start lies after its end matches nothing, and one hiding deleted rows
      matches no row flagged deleted. */
  lemma MatchesMeaning(q: AdminQuery, r: BugReport)
    ensures Matches(q, r) && !q.includeDeleted ==> r.deleted != Some(true)
    ensures q.fromDate.Some? && q.toDate.Some? && q.fromDate.value > q.toDate.value ==> !Matches(q, r)
  {
  }

  /** Open issues come before resolved ones, whatever their creation times. */
  lemma OpenBeforeResolved(a: BugReport, b: BugReport)
    requires !a.resolved && b.resolved
    ensures Rank(a) < Rank(b)
    ensures Precedes(a, b) && !Precedes(b, a)
  {
  }

  /** Any two rows are ordered one way or the other. */
  lemma PrecedesTotal(a: BugReport, b: BugReport)
    ensures Precedes(a, b) || Precedes(b, a)
  {
  }

  /** The order is transitive. */
  lemma PrecedesTransitive(a: BugReport, b: BugReport, c: BugReport)
    requires Precedes(a, b) && Precedes(b, c)
    ensures Precedes(a, c)
  {
  }

  /** Ordered as the query orders: unresolved rows first, newest first within each group. */
  predicate Ordered(s: seq<BugReport>) {
    forall i, j :: 0 <= i < j < |s| ==> Precedes(s[i], s[j])
  }

  /** Places `x` into an ordered sequence. */
  function Insert(x: BugReport, s: seq<BugReport>): (r: seq<BugReport>)
    requires Ordered(s)
    ensures Ordered(r)
    ensures multiset(r) == multiset(s) + multiset{x}
  {
    if s == [] then [x]
    else if Precedes(x, s[0]) then
      forall y | y in s ensures Precedes(x, y) {
        var k :| 0 <= k < |s| && s[k] == y;
        if k > 0 {
          PrecedesTransitive(x, s[0], y);
        }
      }
      ConsOrdered(x, s);
      [x] + s
    else
      var tail := Insert(x, s[1..]);
      PrecedesTotal(x, s[0]);
      assert s == [s[0]] + s[1..];
      forall y | y in tail ensures Precedes(s[0], y) {
        assert y in multiset(tail);
        if y != x {
          assert y in multiset(s[1..]);
          var k :| 0 <= k < |s[1..]| && s[1..][k] == y;
          assert s[k + 1] == y;
        }
      }
      ConsOrdered(s[0], tail);
      [s[0]] + tail
  }

  /** A row that precedes every row of an ordered sequence may be put in front of it. */
  lemma ConsOrdered(x: BugReport, s: seq<BugReport>)
    requires Ordered(s)
    requires forall y :: y in s ==> Precedes(x, y)
    ensures Ordered([x] + s)
  {
    var r := [x] + s;
    forall i, j | 0 <= i < j < |r| ensures Precedes(r[i], r[j]) {
      assert r[j] == s[j - 1];
      if i > 0 {
        assert r[i] == s[i - 1];
      }
    }
  }

  /** The ordering the query applies: a permutation of its input, in query order. */
  function Sort(s: seq<BugReport>): (r: seq<BugReport>)
    ensures Ordered(r)
    ensures multiset(r) == multiset(s)
  {
    if s == [] then []
    else
      assert s == [s[0]] + s[1..];
      Insert(s[0], Sort(s[1..]))
  }

  /** `exportForAdmin`: every row the `where` clause keeps, each as often as the table holds it,
      and no other row, in the query's order. */
  function ExportForAdmin(rows: seq<BugReport>, q: AdminQuery): (out: seq<BugReport>)
    ensures Ordered(out)
    ensures forall r :: multiset(out)[r] == if Matches(q, r) then multiset(rows)[r] else 0
    ensures forall r :: r in out <==> r in rows && Matches(q, r)
  {
    var out := Sort(Filter(rows, q));
    assert forall r :: r in out <==> multiset(out)[r] > 0;
    assert forall r :: r in rows <==> multiset(rows)[r] > 0;
    out
  }

  /** The kept rows of a result are table rows the `where` clause admits. */
  lemma ArrangedRows(result: seq<BugReport>, rows: seq<BugReport>, q: AdminQuery)
    requires multiset(result) == multiset(Filter(rows, q))
    ensures forall r :: r in result ==> r in rows && Matches(q, r)
  {
    forall r | r in result ensures r in rows && Matches(q, r) {
      assert multiset(Filter(rows, q))[r] > 0;
    }
  }

  /** Two rows that agree on both sort keys: the `order by` leaves their relative order to the
      database. */
  predicate Tied(a: BugReport, b: BugReport) {
    Rank(a) == Rank(b) && a.createdAt == b.createdAt
  }

  /** No two different rows the `where` clause keeps are tied, so the query's order is unique. */
  predicate TieFree(rows: seq<BugReport>, q: AdminQuery) {
    forall a, b :: a in rows && b in rows && Matches(q, a) && Matches(q, b) && Tied(a, b) ==> a == b
  }

  /** What one run of the query may return: the kept rows, each as often as the table holds it,
      in the query's order. Tied rows may come back in either order, and each run chooses anew. */
  predicate Arranges(result: seq<BugReport>, rows: seq<BugReport>, q: AdminQuery) {
    Ordered(result) && multiset(result) == multiset(Filter(rows, q))
  }

  /** The export is one of the results the query may return. */
  lemma ExportArranges(rows: seq<BugReport>, q: AdminQuery)
    ensures Arranges(ExportForAdmin(rows, q), rows, q)
  {
    var out := ExportForAdmin(rows, q);
    assert forall r :: multiset(out)[r] == multiset(Filter(rows, q))[r];
  }

  /** `s` is in the order `before`. */
  predicate OrderedBy<T>(s: seq<T>, before: (T, T) -> bool) {
    forall i, j :: 0 <= i < j < |s| ==> before(s[i], s[j])
  }

  /** `before` holds both ways between no two different elements of `s`: the order ties none of them. */
  predicate Untied<T(==)>(s: seq<T>, before: (T, T) -> bool) {
    forall x, y :: x in s && y in s && before(x, y) && before(y, x) ==> x == y
  }

  /** Both sequences start with the same element. */
  lemma {:induction false} SameHead<T>(a: seq<T>, b: seq<T>, before: (T, T) -> bool)
    requires OrderedBy(a, before) && OrderedBy(b, before)
    requires multiset(a) == multiset(b)
    requires Untied(a, before)
    requires a != []
    ensures b != [] && a[0] == b[0]
  {
    assert |a| == |multiset(a)| == |multiset(b)| == |b|;
    assert a[0] in multiset(b) && b[0] in multiset(a);
    var j :| 0 <= j < |b| && b[j] == a[0];
    var i :| 0 <= i < |a| && a[i] == b[0];
  }

  /** Dropping the first element keeps a sequence in order. */
  lemma OrderedTail<T>(s: seq<T>, before: (T, T) -> bool)
    requires s != [] && OrderedBy(s, before)
    ensures OrderedBy(s[1..], before)
  {
    forall x, y | 0 <= x < y < |s| - 1 ensures before(s[1..][x], s[1..][y]) {
      assert s[1..][x] == s[x + 1] && s[1..][y] == s[y + 1];
    }
  }

  /** Dropping the first element keeps a sequence untied. */
  lemma UntiedTail<T>(s: seq<T>, before: (T, T) -> bool)
    requires s != [] && Untied(s, before)
    ensures Untied(s[1..], before)
  {
    forall x, y | x in s[1..] && y in s[1..] && before(x, y) && before(y, x) ensures x == y {
      assert x in s && y in s;
    }
  }

  /** Sequences holding the same elements and starting alike hold the same elements after it. */
  lemma SameTails<T>(a: seq<T>, b: seq<T>)
    requires a != [] && b != [] && a[0] == b[0] && multiset(a) == multiset(b)
    ensures multiset(a[1..]) == multiset(b[1..])
  {
    assert a == [a[0]] + a[1..] && b == [b[0]] + b[1..];
    assert multiset(a[1..]) == multiset(a) - multiset{a[0]};
    assert multiset(b[1..]) == multiset(b) - multiset{b[0]};
  }

  /** Two sequences holding the same elements, both in an order that ties none of them, are equal. */
  lemma {:induction false} SameArrangement<T>(a: seq<T>, b: seq<T>, before: (T, T) -> bool)
    requires OrderedBy(a, before) && OrderedBy(b, before)
    requires multiset(a) == multiset(b)
    requires Untied(a, before)
    ensures a == b
  {
    assert |a| == |multiset(a)| == |multiset(b)| == |b|;
    if a != [] {
      SameHead(a, b, before);
      SameTails(a, b);
      OrderedTail(a, before);
      OrderedTail(b, before);
      UntiedTail(a, before);
      SameArrangement(a[1..], b[1..], before);
      assert a == [a[0]] + a[1..] && b == [b[0]] + b[1..];
    }
  }

  /** Without ties, every result the query may return is the export. */
  lemma TieFreeResultIsTheExport(result: seq<BugReport>, rows: seq<BugReport>, q: AdminQuery)
    requires Arranges(result, rows, q) && TieFree(rows, q)
    ensures result == ExportForAdmin(rows, q)
  {
    var out := ExportForAdmin(rows, q);
    ExportArranges(rows, q);
    ArrangedRows(result, rows, q);
    assert Untied(result, Precedes) by {
      forall x, y | x in result && y in result && Precedes(x, y) && Precedes(y, x) ensures x == y {
        assert Tied(x, y);
      }
    }
    assert OrderedBy(result, Precedes) && OrderedBy(out, Precedes);
    SameArrangement(result, out, Precedes);
  }

  /** A `Pageable`: a 0-based page index and a positive page size. */
  datatype Pageable = Pageable(page: nat, size: nat)

  /** A `Page`: the rows of one page and the number of matching rows overall. */
  datatype Page = Page(content: seq<BugReport>, totalElements: nat)

  /** Page `page` of size `size` of a result: the rows from offset `page * size` on, at most `size`. */
  function Slice(all: seq<BugReport>, page: nat, size: nat): (s: seq<BugReport>)
    ensures |s| <= size
    ensures forall r :: r in s ==> r in all
    ensures Ordered(all) ==> Ordered(s)
  {
    var lo := if page * size < |all| then page * size else |all|;
    var hi := if lo + size < |all| then lo + size else |all|;
    assert forall r :: r in all[lo..hi] ==> r in all;
    all[lo..hi]
  }

  /** `searchForAdmin`: one page of `result`, the rows this run of the query returns, and the
      count of matching rows. The page and the export are separate queries, so only without ties
      is the page that slice of the export. */
  function SearchForAdmin(rows: seq<BugReport>, q: AdminQuery, pageable: Pageable,
                          result: seq<BugReport>): (p: Page)
    requires pageable.size >= 1
    requires Arranges(result, rows, q)
    ensures p.totalElements == |ExportForAdmin(rows, q)|
    ensures |p.content| <= pageable.size
    ensures forall r :: r in p.content ==> r in rows && Matches(q, r)
    ensures Ordered(p.content)
    ensures p.content == Slice(result, pageable.page, pageable.size)
    ensures TieFree(rows, q) ==> p.content == Slice(ExportForAdmin(rows, q), pageable.page, pageable.size)
  {
    ExportArranges(rows, q);
    ArrangedRows(result, rows, q);
    assert |result| == |multiset(result)| == |multiset(ExportForAdmin(rows, q))| == |ExportForAdmin(rows, q)|;
    if TieFree(rows, q) then
      TieFreeResultIsTheExport(result, rows, q);
      Page(Slice(result, pageable.page, pageable.size), |result|)
    else
      Page(Slice(result, pageable.page, pageable.size), |result|)
  }

  /** Pages 0 to `k - 1` of the search, one after another, page `i` being what `SearchForAdmin`
      returns when its run of the query gives `results[i]`. */
  function FirstPages(results: seq<seq<BugReport>>, size: nat, k: nat): seq<BugReport>
    requires k <= |results|
  {
    if k == 0 then [] else FirstPages(results, size, k - 1) + Slice(results[k - 1], k - 1, size)
  }

  /** The first `k` slices of a result, one after another. */
  function Concatenated(all: seq<BugReport>, size: nat, k: nat): seq<BugReport> {
    if k == 0 then [] else Concatenated(all, size, k - 1) + Slice(all, k - 1, size)
  }

  /** Consecutive slices tile a result from its start. */
  lemma {:induction false} SlicesTile(all: seq<BugReport>, size: nat, k: nat)
    ensures Concatenated(all, size, k) == all[..if k * size < |all| then k * size else |all|]
  {
    var n := |all|;
    if k > 0 {
      SlicesTile(all, size, k - 1);
      var m := (k - 1) * size;
      NextOffset(k, size);
      var lo := if m < n then m else n;
      var hi := if lo + size < n then lo + size else n;
      assert Slice(all, k - 1, size) == all[lo..hi];
      assert Concatenated(all, size, k) == all[..lo] + all[lo..hi];
      assert hi == if k * size < n then k * size else n;
      assert all[..lo] + all[lo..hi] == all[..hi];
    }
  }

  /** Enough slices cover the whole result. */
  lemma SlicesCover(all: seq<BugReport>, size: nat, k: nat)
    requires k * size >= |all|
    ensures Concatenated(all, size, k) == all
  {
    SlicesTile(all, size, k);
    assert all[..|all|] == all;
  }

  /** The offset of page `k` is that of page `k - 1` plus one page. */
  lemma NextOffset(k: nat, size: nat)
    requires k > 0
    ensures k * size == (k - 1) * size + size
  {
  }

  /** When every page query returns the same sequence, the pages are its consecutive slices. */
  lemma {:induction false} PagesOfOneResult(results: seq<seq<BugReport>>, size: nat, k: nat, all: seq<BugReport>)
    requires k <= |results|
    requires forall i :: 0 <= i < k ==> results[i] == all
    ensures FirstPages(results, size, k) == Concatenated(all, size, k)
  {
    if k > 0 {
      PagesOfOneResult(results, size, k - 1, all);
    }
  }

  /** Without ties, paging through the search, page after page, walks the export: the first `k`
      pages are the first `k` slices of the export, whatever each page query returned. */
  lemma PagesConcatenateToExport(rows: seq<BugReport>, q: AdminQuery, size: nat, k: nat,
                                 results: seq<seq<BugReport>>)
    requires size >= 1 && k <= |results|
    requires forall i :: 0 <= i < k ==> Arranges(results[i], rows, q)
    requires TieFree(rows, q)
    ensures FirstPages(results, size, k) == Concatenated(ExportForAdmin(rows, q), size, k)
  {
    forall i | 0 <= i < k ensures results[i] == ExportForAdmin(rows, q) {
      TieFreeResultIsTheExport(results[i], rows, q);
    }
    PagesOfOneResult(results, size, k, ExportForAdmin(rows, q));
  }

  /** Without ties, fetching pages 0 to k - 1 of the search, when they hold at least as many rows
      as match, yields the export exactly: same rows, same order. */
  lemma AllPagesAreTheExport(rows: seq<BugReport>, q: AdminQuery, size: nat, k: nat,
                             results: seq<seq<BugReport>>)
    requires size >= 1 && k <= |results|
    requires forall i :: 0 <= i < k ==> Arranges(results[i], rows, q)
    requires TieFree(rows, q)
    requires k * size >= |ExportForAdmin(rows, q)|
    ensures FirstPages(results, size, k) == ExportForAdmin(rows, q)
  {
    PagesConcatenateToExport(rows, q, size, k, results);
    SlicesCover(ExportForAdmin(rows, q), size, k);
  }

  /** The query as written: two tied rows, one row per page. When the run for page 0 returns them
      in one order and the run for page 1 in the other, the first row is listed twice and the
      second, which the export holds, never. */
  lemma TiedRowsCanRepeatAcrossPages(a: BugReport, b: BugReport)
    requires a != b && Tied(a, b)
    ensures var q := AdminQuery(None, None, None, None, true);
      && Arranges([a, b], [a, b], q) && Arranges([b, a], [a, b], q)
      && FirstPages([[a, b], [b, a]], 1, 2) == [a, a]
      && b in ExportForAdmin([a, b], q)
      && b !in FirstPages([[a, b], [b, a]], 1, 2)
  {
    var q := AdminQuery(None, None, None, None, true);
    TiedPairArranges(a, b, q);
    assert b in [a, b] && Matches(q, b);
    var results := [[a, b], [b, a]];
    assert [a, b][0..1] == [a] && [b, a][1..2] == [a];
    assert FirstPages(results, 1, 0) == [];
    assert FirstPages(results, 1, 1) == [a];
    assert FirstPages(results, 1, 2) == [a, a];
  }

  /** Two tied rows the query keeps may come back in either order. */
  lemma TiedPairArranges(a: BugReport, b: BugReport, q: AdminQuery)
    requires Tied(a, b) && Matches(q, a) && Matches(q, b)
    ensures Arranges([a, b], [a, b], q) && Arranges([b, a], [a, b], q)
  {
    FilterKeepsAll([a, b], q);
    OrderedPair(a, b);
    OrderedPair(b, a);
  }

  /** Two rows in query order form an ordered sequence. */
  lemma OrderedPair(x: BugReport, y: BugReport)
    requires Precedes(x, y)
    ensures Ordered([x, y])
  {
  }


  /** Ids in the order `x` first: a null id before any other. */
  predicate IdNotAfter(x: Option<int>, y: Option<int>) {
    x.None? || (y.Some? && x.value <= y.value)
  }

  /** The query's order with `br.id` added as the last sort key. */
  predicate PrecedesWithId(a: BugReport, b: BugReport) {
    Precedes(a, b) && (Precedes(b, a) ==> IdNotAfter(a.id, b.id))
  }

  /** Ordered by the query's keys and then by id. */
  predicate OrderedWithId(s: seq<BugReport>) {
    forall i, j :: 0 <= i < j < |s| ==> PrecedesWithId(s[i], s[j])
  }

  /** With the id as last sort key, and ids unique as the table's keys make them, every run of the
      query returns the same sequence, so paging lists each kept row exactly as often as the table
      holds it, in one order, whatever each page query returned. */
  lemma TiebrokenPagesAreTheExport(rows: seq<BugReport>, q: AdminQuery, size: nat, k: nat,
                                   results: seq<seq<BugReport>>)
    requires size >= 1 && 1 <= k <= |results|
    requires forall a, b :: a in rows && b in rows && a.id == b.id ==> a == b
    requires forall i :: 0 <= i < k ==> Arranges(results[i], rows, q) && OrderedWithId(results[i])
    requires k * size >= |Filter(rows, q)|
    ensures FirstPages(results, size, k) == results[0]
    ensures multiset(FirstPages(results, size, k)) == multiset(Filter(rows, q))
  {
    forall i | 0 <= i < k ensures results[i] == results[0] {
      ArrangedRows(results[i], rows, q);
      assert OrderedBy(results[i], PrecedesWithId) && OrderedBy(results[0], PrecedesWithId);
      assert Untied(results[i], PrecedesWithId) by {
        forall x, y | x in results[i] && y in results[i] && PrecedesWithId(x, y) && PrecedesWithId(y, x)
          ensures x == y
        {
          assert x.id == y.id;
        }
      }
      SameArrangement(results[i], results[0], PrecedesWithId);
    }
    PagesOfOneResult(results, size, k, results[0]);
    assert |results[0]| == |multiset(results[0])| == |multiset(Filter(rows, q))| == |Filter(rows, q)|;
    SlicesCover(results[0], size, k);
  }
}
