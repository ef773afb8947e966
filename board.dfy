/**
 * The announcement board: the Announcement record with its defaults and its
 * default ordering (campusconnect/models.py), and the listing view that
 * narrows the board by search text and audience filters and splits it into
 * pinned and regular announcements (campusconnect/views.py, `announcements`).
 */
module Board {
  import opened Requests
  import opened Text
  import Ordering

  /** One row of the announcement table; `id` is the primary key. */
  datatype Announcement = Announcement(
    id: nat,
    title: string,
    body: string,
    image: Option<Blob>,
    author: UserId,
    priority: string,
    isPinned: bool,
    targetYear: string,
    targetStream: string,
    targetBranch: string,
    createdAt: int,
    updatedAt: int)

  /** `Announcement(title=..., body=..., author=...)` with every other column at its default. */
  function NewAnnouncement(id: nat, title: string, body: string, author: UserId, now: int): (a: Announcement)
    ensures a.id == id && a.title == title && a.body == body && a.author == author
    ensures a.priority == "normal" && !a.isPinned && a.image.None?
    ensures a.targetYear == "all" && a.targetStream == "all" && a.targetBranch == "all"
    ensures a.createdAt == now && a.updatedAt == now
  {
    Announcement(id, title, body, None, author, "normal", false, "all", "all", "all", now, now)
  }

  // ---------------------------------------------------------------------
  // Default ordering: Meta.ordering = ['-is_pinned', '-created_at']
  // ---------------------------------------------------------------------

  /** a may come before b: pinned first, then newest first. */
  predicate Precedes(a: Announcement, b: Announcement) {
    (a.isPinned && !b.isPinned) || (a.isPinned == b.isPinned && a.createdAt >= b.createdAt)
  }

  predicate InDefaultOrder(s: seq<Announcement>) {
    forall i, j :: 0 <= i < j < |s| ==> Precedes(s[i], s[j])
  }

  function CreatedAt(a: Announcement): int {
    a.createdAt
  }

  /** The rows of the table in the model's default order. */
  function DefaultOrder(rows: seq<Announcement>): (r: seq<Announcement>)
    ensures InDefaultOrder(r)
    ensures multiset(r) == multiset(rows)
  {
    var pinned := Ordering.SortDesc(Select(rows, PinnedIs(true)), CreatedAt);
    var unpinned := Ordering.SortDesc(Select(rows, PinnedIs(false)), CreatedAt);
    SortedPartPinned(rows, true);
    SortedPartPinned(rows, false);
    PinnedThenUnpinned(pinned, unpinned);
    PinnedSplit(rows);
    pinned + unpinned
  }

  /** The sorted pinned (or unpinned) part holds only pinned (or unpinned) rows. */
  lemma SortedPartPinned(rows: seq<Announcement>, b: bool)
    ensures forall a :: a in Ordering.SortDesc(Select(rows, PinnedIs(b)), CreatedAt) ==> a.isPinned == b
  {
    var part := Select(rows, PinnedIs(b));
    SelectSound(rows, PinnedIs(b));
    InMultisetIsIn(Ordering.SortDesc(part, CreatedAt), part);
  }

  /** Elements of a permutation of s are elements of s. */
  lemma InMultisetIsIn<T>(r: seq<T>, s: seq<T>)
    requires multiset(r) == multiset(s)
    ensures forall a :: a in r ==> a in s
  {
    forall a | a in r ensures a in s {
      assert a in multiset(r);
    }
  }

  /** Pinned rows newest first, followed by unpinned rows newest first, are in default order. */
  lemma PinnedThenUnpinned(pinned: seq<Announcement>, unpinned: seq<Announcement>)
    requires forall a :: a in pinned ==> a.isPinned
    requires forall a :: a in unpinned ==> !a.isPinned
    requires Ordering.SortedDesc(pinned, CreatedAt) && Ordering.SortedDesc(unpinned, CreatedAt)
    ensures InDefaultOrder(pinned + unpinned)
  {
    var r := pinned + unpinned;
    forall i, j | 0 <= i < j < |r| ensures Precedes(r[i], r[j]) {
      if j < |pinned| {
        assert r[i] == pinned[i] && r[j] == pinned[j];
        assert CreatedAt(pinned[i]) >= CreatedAt(pinned[j]);
      } else if i >= |pinned| {
        assert r[i] == unpinned[i - |pinned|] && r[j] == unpinned[j - |pinned|];
        assert CreatedAt(unpinned[i - |pinned|]) >= CreatedAt(unpinned[j - |pinned|]);
      } else {
        assert r[i] == pinned[i] && r[j] == unpinned[j - |pinned|];
      }
    }
  }

  // ---------------------------------------------------------------------
  // Filters of the listing view
  // ---------------------------------------------------------------------

  /** One `.filter(...)` applied by the listing view. */
  datatype Criterion =
    | SearchFor(term: string)      // title__icontains or body__icontains
    | ForYear(year: string)        // target_year 'all' or equal
    | ForStream(stream: string)    // target_stream 'all' or equal
    | ForBranch(branch: string)    // target_branch 'all' or equal
    | WithPriority(priority: string)
    | PinnedIs(pinned: bool)

  predicate Satisfies(a: Announcement, c: Criterion) {
    match c
    case SearchFor(t) => ContainsIgnoringCase(a.title, t) || ContainsIgnoringCase(a.body, t)
    case ForYear(y) => a.targetYear == "all" || a.targetYear == y
    case ForStream(s) => a.targetStream == "all" || a.targetStream == s
    case ForBranch(b) => a.targetBranch == "all" || a.targetBranch == b
    case WithPriority(p) => a.priority == p
    case PinnedIs(b) => a.isPinned == b
  }

  /** `qs.filter(c)`: the rows satisfying c, in their original order. */
  function Select(rows: seq<Announcement>, c: Criterion): (r: seq<Announcement>)
    ensures forall a :: multiset(r)[a] == if Satisfies(a, c) then multiset(rows)[a] else 0
  {
    if rows == [] then []
    else
      var rest := Select(rows[1..], c);
      assert rows == [rows[0]] + rows[1..];
      if Satisfies(rows[0], c) then [rows[0]] + rest else rest
  }

  /** Every selected row is a stored row that satisfies the criterion. */
  lemma SelectSound(rows: seq<Announcement>, c: Criterion)
    ensures forall a :: a in Select(rows, c) ==> a in rows && Satisfies(a, c)
  {
    forall a | a in Select(rows, c) ensures a in rows && Satisfies(a, c) {
      assert multiset(Select(rows, c))[a] > 0;
    }
  }

  /** Applying the filters one after another. */
  function SelectAll(rows: seq<Announcement>, cs: seq<Criterion>): (r: seq<Announcement>)
    ensures forall a :: multiset(r)[a] ==
              if forall c :: c in cs ==> Satisfies(a, c) then multiset(rows)[a] else 0
    decreases |cs|
  {
    if cs == [] then rows
    else
      var r := SelectAll(Select(rows, cs[0]), cs[1..]);
      assert forall c :: c in cs <==> c == cs[0] || c in cs[1..];
      r
  }

  /** Filtering never reorders: a sequence in default order stays in default order. */
  lemma {:induction false} SelectKeepsOrder(rows: seq<Announcement>, c: Criterion)
    requires InDefaultOrder(rows)
    ensures InDefaultOrder(Select(rows, c))
  {
    if rows != [] {
      var tail := rows[1..];
      var rest := Select(tail, c);
      assert InDefaultOrder(tail) by {
        forall i, j | 0 <= i < j < |tail| ensures Precedes(tail[i], tail[j]) {
          assert tail[i] == rows[i + 1] && tail[j] == rows[j + 1];
        }
      }
      SelectKeepsOrder(tail, c);
      if Satisfies(rows[0], c) {
        SelectSound(tail, c);
        assert forall b :: b in tail ==> Precedes(rows[0], b) by {
          forall b | b in tail ensures Precedes(rows[0], b) {
            var k :| 0 <= k < |tail| && tail[k] == b;
            assert rows[k + 1] == b;
          }
        }
        ConsKeepsOrder(rows[0], rest);
      }
    }
  }

  lemma ConsKeepsOrder(a: Announcement, rest: seq<Announcement>)
    requires InDefaultOrder(rest)
    requires forall b :: b in rest ==> Precedes(a, b)
    ensures InDefaultOrder([a] + rest)
  {
    var r := [a] + rest;
    forall i, j | 0 <= i < j < |r| ensures Precedes(r[i], r[j]) {
      assert r[j] == rest[j - 1];
      if i > 0 {
        assert r[i] == rest[i - 1];
      }
    }
  }

  lemma {:induction false} SelectAllKeepsOrder(rows: seq<Announcement>, cs: seq<Criterion>)
    requires InDefaultOrder(rows)
    ensures InDefaultOrder(SelectAll(rows, cs))
    decreases |cs|
  {
    if cs != [] {
      SelectKeepsOrder(rows, cs[0]);
      SelectAllKeepsOrder(Select(rows, cs[0]), cs[1..]);
    }
  }

  /** Splitting by `is_pinned` loses and duplicates nothing. */
  lemma PinnedSplit(rows: seq<Announcement>)
    ensures multiset(Select(rows, PinnedIs(true))) + multiset(Select(rows, PinnedIs(false))) == multiset(rows)
  {
    var p := multiset(Select(rows, PinnedIs(true)));
    var u := multiset(Select(rows, PinnedIs(false)));
    assert forall a :: (p + u)[a] == multiset(rows)[a];
  }

  // ---------------------------------------------------------------------
  // The listing view
  // ---------------------------------------------------------------------

  /** The filter parameters of a listing request, after defaulting to ''. */
  datatype Query = Query(search: string, year: string, stream: string, branch: string, priority: string)

  /**
   * Reads the GET parameters, '' when absent; only the search term is
   * stripped, so a search of nothing but whitespace applies no search filter.
   */
  function QueryOf(params: Params): (q: Query)
    ensures Trimmed(q.search)
    ensures q.search == "" <==> AllSpace(Param(params, "search", ""))
  {
    StripEmptyIffAllSpace(Param(params, "search", ""));
    Query(Strip(Param(params, "search", "")), Param(params, "year", ""), Param(params, "stream", ""),
          Param(params, "branch", ""), Param(params, "priority", ""))
  }

  /** The filters the view applies: one per non-empty parameter, in the view's order. */
  function ActiveCriteria(q: Query): seq<Criterion> {
    (if q.search != "" then [SearchFor(q.search)] else [])
    + (if q.year != "" then [ForYear(q.year)] else [])
    + (if q.stream != "" then [ForStream(q.stream)] else [])
    + (if q.branch != "" then [ForBranch(q.branch)] else [])
    + (if q.priority != "" then [WithPriority(q.priority)] else [])
  }

  /**
   * What the listing promises of each announcement it shows: every non-empty
   * parameter is met; a target of 'all' meets any year, stream or branch.
   */
  predicate Matches(a: Announcement, q: Query) {
    && (q.search == "" || ContainsIgnoringCase(a.title, q.search) || ContainsIgnoringCase(a.body, q.search))
    && (q.year == "" || a.targetYear == "all" || a.targetYear == q.year)
    && (q.stream == "" || a.targetStream == "all" || a.targetStream == q.stream)
    && (q.branch == "" || a.targetBranch == "all" || a.targetBranch == q.branch)
    && (q.priority == "" || a.priority == q.priority)
  }

  /** Passing every applied filter is the same as matching the query. */
  lemma ActiveCriteriaMeanMatches(a: Announcement, q: Query)
    ensures (forall c :: c in ActiveCriteria(q) ==> Satisfies(a, c)) <==> Matches(a, q)
  {
    var cs := ActiveCriteria(q);
    ActiveCriteriaMembers(q);
    if Matches(a, q) {
      forall c | c in cs ensures Satisfies(a, c) {
      }
    } else if q.search != "" && !Satisfies(a, SearchFor(q.search)) {
      assert SearchFor(q.search) in cs;
    } else if q.year != "" && !Satisfies(a, ForYear(q.year)) {
      assert ForYear(q.year) in cs;
    } else if q.stream != "" && !Satisfies(a, ForStream(q.stream)) {
      assert ForStream(q.stream) in cs;
    } else if q.branch != "" && !Satisfies(a, ForBranch(q.branch)) {
      assert ForBranch(q.branch) in cs;
    } else {
      assert WithPriority(q.priority) in cs;
    }
  }

  /** The filters applied are exactly those of the non-empty parameters. */
  lemma ActiveCriteriaMembers(q: Query)
    ensures forall c :: c in ActiveCriteria(q) <==>
      (c == SearchFor(q.search) && q.search != "") || (c == ForYear(q.year) && q.year != "") ||
      (c == ForStream(q.stream) && q.stream != "") || (c == ForBranch(q.branch) && q.branch != "") ||
      (c == WithPriority(q.priority) && q.priority != "")
  {
  }

  /** What the listing page shows. */
  datatype Listing = Listing(pinned: seq<Announcement>, regular: seq<Announcement>, total: nat)

  /** The `announcements` view for a signed-in user. */
  function ListAnnouncements(rows: seq<Announcement>, params: Params): (l: Listing)
    ensures forall a :: a in l.pinned ==> a in rows && a.isPinned
    ensures forall a :: a in l.regular ==> a in rows && !a.isPinned
  {
    var qs := SelectAll(DefaultOrder(rows), ActiveCriteria(QueryOf(params)));
    var pinned := Select(qs, PinnedIs(true));
    var regular := Select(qs, PinnedIs(false));
    FilteredPartIsStored(rows, ActiveCriteria(QueryOf(params)), true);
    FilteredPartIsStored(rows, ActiveCriteria(QueryOf(params)), false);
    Listing(pinned, regular, |pinned| + |regular|)
  }

  /** A row of the pinned (or unpinned) part of the filtered table is a stored row with that pin state. */
  lemma FilteredPartIsStored(rows: seq<Announcement>, cs: seq<Criterion>, b: bool)
    ensures forall a :: a in Select(SelectAll(DefaultOrder(rows), cs), PinnedIs(b)) ==> a in rows && a.isPinned == b
  {
    var d := DefaultOrder(rows);
    var qs := SelectAll(d, cs);
    SelectAllStored(d, cs);
    InMultisetIsIn(d, rows);
    SelectSound(qs, PinnedIs(b));
    forall a | a in Select(qs, PinnedIs(b)) ensures a in rows && a.isPinned == b {
      assert a in qs && Satisfies(a, PinnedIs(b));
      assert a in d;
    }
  }

  /** Every row kept by a chain of filters is one of the input rows. */
  lemma SelectAllStored(rows: seq<Announcement>, cs: seq<Criterion>)
    ensures forall a :: a in SelectAll(rows, cs) ==> a in rows
  {
    var qs := SelectAll(rows, cs);
    forall a | a in qs ensures a in rows {
      assert multiset(qs)[a] > 0;
    }
  }

  /**
   * Soundness and completeness of the listing: each stored announcement is
   * shown exactly as often as it is stored if it matches the query, and not
   * at all otherwise; `total` counts what is shown.
   */
  lemma {:induction false} ListingMatchesQuery(rows: seq<Announcement>, params: Params)
    ensures var l := ListAnnouncements(rows, params);
      && (forall a :: multiset(l.pinned + l.regular)[a] ==
            if Matches(a, QueryOf(params)) then multiset(rows)[a] else 0)
      && l.total == |l.pinned + l.regular|
  {
    var q := QueryOf(params);
    var qs := SelectAll(DefaultOrder(rows), ActiveCriteria(q));
    var l := ListAnnouncements(rows, params);
    PinnedSplit(qs);
    assert multiset(l.pinned + l.regular) == multiset(qs);
    forall a ensures multiset(qs)[a] == if Matches(a, q) then multiset(rows)[a] else 0 {
      ActiveCriteriaMeanMatches(a, q);
    }
  }

  /** In particular, an announcement is listed iff it is stored and matches the query. */
  lemma ListedIff(rows: seq<Announcement>, params: Params, a: Announcement)
    ensures var l := ListAnnouncements(rows, params);
      a in l.pinned + l.regular <==> a in rows && Matches(a, QueryOf(params))
  {
    ListingMatchesQuery(rows, params);
    var l := ListAnnouncements(rows, params);
    assert a in l.pinned + l.regular <==> multiset(l.pinned + l.regular)[a] > 0;
    assert a in rows <==> multiset(rows)[a] > 0;
  }

  /** `pinned` holds only pinned announcements, `regular` only the others, each newest first. */
  lemma {:induction false} ListingSplitsByPin(rows: seq<Announcement>, params: Params)
    ensures var l := ListAnnouncements(rows, params);
      && (forall a :: a in l.pinned ==> a.isPinned)
      && (forall a :: a in l.regular ==> !a.isPinned)
      && Ordering.SortedDesc(l.pinned, CreatedAt)
      && Ordering.SortedDesc(l.regular, CreatedAt)
  {
    var qs := SelectAll(DefaultOrder(rows), ActiveCriteria(QueryOf(params)));
    SelectAllKeepsOrder(DefaultOrder(rows), ActiveCriteria(QueryOf(params)));
    PinnedPartNewestFirst(qs, true);
    PinnedPartNewestFirst(qs, false);
  }

  /** Taking only pinned (or only unpinned) rows of a default-ordered sequence leaves them newest first. */
  lemma PinnedPartNewestFirst(qs: seq<Announcement>, b: bool)
    requires InDefaultOrder(qs)
    ensures forall a :: a in Select(qs, PinnedIs(b)) ==> a.isPinned == b
    ensures Ordering.SortedDesc(Select(qs, PinnedIs(b)), CreatedAt)
  {
    var part := Select(qs, PinnedIs(b));
    SelectKeepsOrder(qs, PinnedIs(b));
    SelectSound(qs, PinnedIs(b));
    forall i, j | 0 <= i < j < |part| ensures CreatedAt(part[i]) >= CreatedAt(part[j]) {
      assert part[i] in part && part[j] in part;
      assert Precedes(part[i], part[j]);
    }
  }

  /** With every filter parameter missing or empty (a search of only whitespace counts as empty), everything stored is listed. */
  lemma {:induction false} UnfilteredListsAll(rows: seq<Announcement>, params: Params)
    requires Strip(Param(params, "search", "")) == ""
    requires Param(params, "year", "") == "" && Param(params, "stream", "") == ""
    requires Param(params, "branch", "") == "" && Param(params, "priority", "") == ""
    ensures var l := ListAnnouncements(rows, params);
      multiset(l.pinned + l.regular) == multiset(rows) && l.total == |rows|
  {
    var l := ListAnnouncements(rows, params);
    var q := QueryOf(params);
    assert q == Query("", "", "", "", "");
    ListingMatchesQuery(rows, params);
    assert forall a :: multiset(l.pinned + l.regular)[a] == multiset(rows)[a];
    assert multiset(l.pinned + l.regular) == multiset(rows);
    assert |multiset(l.pinned + l.regular)| == |multiset(rows)|;
  }
}
