/** The in-memory task store and the list pipeline (internal/service/task/task_service.go).
    The store is a map from task id to a `Task` object; the list pipeline selects the
    requester's tasks, filters them, sorts them in place, and cuts one page out. */
module TaskService {
  import opened Wrappers
  import opened Types
  import opened Strings
  import opened TaskDomain
  import AuthDomain
  import AuthService

  const ErrTaskNotFound := "task not found"
  const ErrAccessDenied := "access denied"

  // ---------------------------------------------------------------------------
  // applySorting: the comparator
  // ---------------------------------------------------------------------------

  /** The `statusOrder` map of applySorting; a status missing from it reads as 0. */
  function StatusRank(s: TaskStatus): (r: nat)
    ensures r <= 4
    ensures r >= 1 <==> IsValidStatus(s)
  {
    if s == StatusPending then 1
    else if s == StatusInProgress then 2
    else if s == StatusCompleted then 3
    else if s == StatusCancelled then 4
    else 0
  }

  /** The options used when the caller passes none: newest first. */
  const DefaultSort := TaskSort("created_at", "desc")

  function EffectiveSort(o: Option<TaskSort>): TaskSort {
    o.GetOr(DefaultSort)
  }

  /** The `less(i, j)` closure of applySorting: "a goes before b". Any order other than
      "asc" sorts descending, and any field other than title, status and updated_at
      sorts by creation time. */
  predicate Precedes(a: TaskData, b: TaskData, o: TaskSort) {
    var asc := o.order == "asc";
    if o.field == "title" then
      (if asc then LexLess(a.title, b.title) else LexLess(b.title, a.title))
    else if o.field == "status" then
      (if asc then StatusRank(a.status) < StatusRank(b.status) else StatusRank(a.status) > StatusRank(b.status))
    else if o.field == "updated_at" then
      (if asc then a.updatedAt < b.updatedAt else a.updatedAt > b.updatedAt)
    else
      (if asc then a.createdAt < b.createdAt else a.createdAt > b.createdAt)
  }

  lemma PrecedesIrreflexive(a: TaskData, o: TaskSort)
    ensures !Precedes(a, a, o)
  {
    LexLessIrreflexive(a.title);
  }

  lemma PrecedesTransitive(a: TaskData, b: TaskData, c: TaskData, o: TaskSort)
    requires Precedes(a, b, o) && Precedes(b, c, o)
    ensures Precedes(a, c, o)
  {
    if o.field == "title" {
      if o.order == "asc" {
        LexLessTransitive(a.title, b.title, c.title);
      } else {
        LexLessTransitive(c.title, b.title, a.title);
      }
    }
  }

  /** "desc" is "asc" with the arguments swapped, and so is every order other than "asc". */
  lemma DescReversesAsc(a: TaskData, b: TaskData, field: string, order: string)
    requires order != "asc"
    ensures Precedes(a, b, TaskSort(field, order)) == Precedes(b, a, TaskSort(field, "asc"))
  {
  }

  /** An unknown field sorts as created_at does. */
  lemma UnknownFieldSortsByCreation(a: TaskData, b: TaskData, field: string, order: string)
    requires field != "title" && field != "status" && field != "updated_at"
    ensures Precedes(a, b, TaskSort(field, order)) == Precedes(a, b, TaskSort("created_at", order))
  {
  }

  /** No later task goes strictly before an earlier one. */
  predicate SortedBy(s: seq<Task>, o: TaskSort)
    reads s
  {
    forall i, j :: 0 <= i < j < |s| ==> !Precedes(s[j].View(), s[i].View(), o)
  }

  /** What sortedness means field by field: titles in lexicographic order (reversed for
      desc), status ranks, and timestamps in chronological order. */
  lemma SortedMeaning(s: seq<Task>, o: TaskSort, i: int, j: int)
    requires SortedBy(s, o) && 0 <= i < j < |s|
    ensures o.field == "title" && o.order == "asc" ==> s[i].title == s[j].title || LexLess(s[i].title, s[j].title)
    ensures o.field == "title" && o.order != "asc" ==> s[i].title == s[j].title || LexLess(s[j].title, s[i].title)
    ensures o.field == "status" && o.order == "asc" ==> StatusRank(s[i].status) <= StatusRank(s[j].status)
    ensures o.field == "status" && o.order != "asc" ==> StatusRank(s[i].status) >= StatusRank(s[j].status)
    ensures o.field == "updated_at" && o.order == "asc" ==> s[i].updatedAt <= s[j].updatedAt
    ensures o.field == "updated_at" && o.order != "asc" ==> s[i].updatedAt >= s[j].updatedAt
    ensures o.field !in {"title", "status", "updated_at"} && o.order == "asc" ==> s[i].createdAt <= s[j].createdAt
    ensures o.field !in {"title", "status", "updated_at"} && o.order != "asc" ==> s[i].createdAt >= s[j].createdAt
  {
    assert !Precedes(s[j].View(), s[i].View(), o);
    LexLessTotal(s[i].title, s[j].title);
  }

  // ---------------------------------------------------------------------------
  // applyFilters
  // ---------------------------------------------------------------------------

  /** The per-task test of applyFilters: the status must equal the filter's status when
      one is given, and the lower-cased title must contain the lower-cased search text
      when that is not empty. */
  predicate Matches(t: TaskData, f: TaskFilter) {
    (f.status.None? || t.status == f.status.value)
    && (f.search == "" || Contains(ToLower(t.title), ToLower(f.search)))
  }

  /** The search ignores case: "ALPHA" finds the task titled "Alpha" and neither "beta"
      nor "Gamma". */
  lemma SearchIgnoresCase(alpha: TaskData, beta: TaskData, gamma: TaskData)
    requires alpha.title == "Alpha" && beta.title == "beta" && gamma.title == "Gamma"
    ensures Matches(alpha, TaskFilter(None, "ALPHA"))
    ensures !Matches(beta, TaskFilter(None, "ALPHA")) && !Matches(gamma, TaskFilter(None, "ALPHA"))
  {
    assert ToLower("ALPHA") == "alpha" == ToLower("Alpha");
    assert ToLower("beta") == "beta" && ToLower("Gamma") == "gamma";
    ContainsIffSlice("alpha", "alpha");
    assert OccursAt("alpha", "alpha", 0);
    ContainsIffSlice("beta", "alpha");
    ContainsIffSlice("gamma", "alpha");
    assert !OccursAt("gamma", "alpha", 0) by {
      assert "gamma"[0] != "alpha"[0];
    }
  }

  /** Lower-casing the search text first changes nothing: the search term's case is
      irrelevant, because applyFilters lower-cases it again. */
  lemma SearchTermCaseIrrelevant(t: TaskData, status: Option<TaskStatus>, search: string)
    ensures Matches(t, TaskFilter(status, ToLower(search))) == Matches(t, TaskFilter(status, search))
  {
    ToLowerIdempotent(search);
  }

  /** The tasks of `s` that match `f`, in their order in `s`. */
  function Keep(s: seq<Task>, f: TaskFilter): seq<Task>
    reads s
    decreases |s|
  {
    if s == [] then []
    else Keep(s[..|s| - 1], f) + (if Matches(s[|s| - 1].View(), f) then [s[|s| - 1]] else [])
  }

  /** applyFilters: a nil filter keeps everything, and the very same slice. */
  function FilterTasks(s: seq<Task>, filter: Option<TaskFilter>): seq<Task>
    reads s
  {
    match filter
    case None => s
    case Some(f) => Keep(s, f)
  }

  /** A filtered list holds each matching task as often as the input did and no other:
      it is a sub-multiset of the input. */
  lemma {:induction false} KeepCount(s: seq<Task>, f: TaskFilter, t: Task)
    ensures multiset(Keep(s, f))[t] == if Matches(t.View(), f) then multiset(s)[t] else 0
    decreases |s|
  {
    if s != [] {
      var init, last := s[..|s| - 1], s[|s| - 1];
      assert s == init + [last];
      KeepCount(init, f, t);
    }
  }

  /** A task is kept exactly when it is in the input and matches. */
  lemma KeepMembers(s: seq<Task>, f: TaskFilter, t: Task)
    ensures t in Keep(s, f) <==> t in s && Matches(t.View(), f)
  {
    KeepCount(s, f, t);
    assert t in Keep(s, f) <==> multiset(Keep(s, f))[t] > 0;
  }

  lemma KeepSubMultiset(s: seq<Task>, f: TaskFilter)
    ensures multiset(Keep(s, f)) <= multiset(s)
  {
    forall t: Task | true
      ensures multiset(Keep(s, f))[t] <= multiset(s)[t]
    {
      KeepCount(s, f, t);
    }
  }

  /** Whether `t` passes the optional filter of ListTasks. */
  predicate PassesFilter(t: TaskData, filter: Option<TaskFilter>) {
    filter.None? || Matches(t, filter.value)
  }

  /** Filtering keeps each passing task as often as it occurs and drops the rest. */
  lemma FilterCount(s: seq<Task>, filter: Option<TaskFilter>)
    ensures forall t: Task :: multiset(FilterTasks(s, filter))[t] == if PassesFilter(t.View(), filter) then multiset(s)[t] else 0
  {
    if filter.Some? {
      forall t: Task
        ensures multiset(Keep(s, filter.value))[t] == if Matches(t.View(), filter.value) then multiset(s)[t] else 0
      {
        KeepCount(s, filter.value, t);
      }
    }
  }

  /** applyFilters, with its loop. */
  method ApplyFilters(tasks: seq<Task>, filter: Option<TaskFilter>) returns (filtered: seq<Task>)
    ensures filtered == FilterTasks(tasks, filter)
  {
    if filter.None? {
      return tasks;
    }
    var f := filter.value;
    filtered := [];
    for i := 0 to |tasks|
      invariant filtered == Keep(tasks[..i], f)
    {
      assert tasks[..i + 1][..i] == tasks[..i];
      var task := tasks[i];
      if f.status.Some? && task.status != f.status.value {
        continue;
      }
      if f.search != "" {
        var searchLower := ToLower(f.search);
        var titleMatch := Contains(ToLower(task.title), searchLower);
        if !titleMatch {
          continue;
        }
      }
      filtered := filtered + [task];
    }
    assert tasks[..|tasks|] == tasks;
  }

  // ---------------------------------------------------------------------------
  // applySorting: the in-place sort
  // ---------------------------------------------------------------------------

  method Swap(a: array<Task>, i: int, j: int)
    requires 0 <= i < a.Length && 0 <= j < a.Length
    modifies a
    ensures a[i] == old(a[j]) && a[j] == old(a[i])
    ensures forall k :: 0 <= k < a.Length && k != i && k != j ==> a[k] == old(a[k])
    ensures multiset(a[..]) == old(multiset(a[..]))
  {
    a[i], a[j] := a[j], a[i];
  }

  /** Where in a[from..] the first task that nothing in a[from..] goes before sits. */
  method MinIndex(a: array<Task>, from: int, o: TaskSort) returns (m: int)
    requires 0 <= from < a.Length
    ensures from <= m < a.Length
    ensures forall q :: from <= q < a.Length ==> !Precedes(a[q].View(), a[m].View(), o)
  {
    m := from;
    var k := from + 1;
    PrecedesIrreflexive(a[from].View(), o);
    while k < a.Length
      invariant from <= m < k <= a.Length
      invariant forall q :: from <= q < k ==> !Precedes(a[q].View(), a[m].View(), o)
    {
      if Precedes(a[k].View(), a[m].View(), o) {
        forall q | from <= q < k
          ensures !Precedes(a[q].View(), a[k].View(), o)
        {
          if Precedes(a[q].View(), a[k].View(), o) {
            PrecedesTransitive(a[q].View(), a[k].View(), a[m].View(), o);
          }
        }
        PrecedesIrreflexive(a[k].View(), o);
        m := k;
      }
      k := k + 1;
    }
  }

  /** The `sort.Slice` call of applySorting: sorts the tasks of `a` in place so that no
      task goes before an earlier one under `o`. Only the order is promised, not where
      ties end up: `sort.Slice` is not stable. */
  method SortInPlace(a: array<Task>, o: TaskSort)
    modifies a
    ensures SortedBy(a[..], o)
    ensures multiset(a[..]) == old(multiset(a[..]))
  {
    var i := 0;
    while i < a.Length
      invariant 0 <= i <= a.Length
      invariant multiset(a[..]) == old(multiset(a[..]))
      invariant forall p, q :: 0 <= p < q < i ==> !Precedes(a[q].View(), a[p].View(), o)
      invariant forall p, q :: 0 <= p < i <= q < a.Length ==> !Precedes(a[q].View(), a[p].View(), o)
    {
      var m := MinIndex(a, i, o);
      Swap(a, i, m);
      i := i + 1;
    }
  }

  /** applySorting: the same tasks, each as often as before, ordered by the chosen key;
      without options, newest first. The slice is sorted in place; here the slice is an
      array holding the tasks of `tasks`. */
  method ApplySorting(tasks: seq<Task>, sortOptions: Option<TaskSort>) returns (sorted: seq<Task>)
    ensures SortedBy(sorted, EffectiveSort(sortOptions))
    ensures multiset(sorted) == multiset(tasks)
  {
    var a := new Task[|tasks|](i requires 0 <= i < |tasks| => tasks[i]);
    assert a[..] == tasks;
    SortInPlace(a, EffectiveSort(sortOptions));
    sorted := a[..];
  }

  // ---------------------------------------------------------------------------
  // Pagination arithmetic
  // ---------------------------------------------------------------------------

  function Min(a: int, b: int): int {
    if a <= b then a else b
  }

  /** `(total + limit - 1) / limit`: the least number of pages of `limit` items that
      hold `total` items, 0 when there are none. */
  function TotalPages(total: nat, limit: int): (r: nat)
    requires limit >= 1
    ensures r == 0 <==> total == 0
    ensures r * limit >= total
    ensures r > 0 ==> (r - 1) * limit < total
  {
    var r := (total + limit - 1) / limit;
    CeilDiv(total, limit, r);
    r
  }

  lemma CeilDiv(total: nat, limit: int, r: int)
    requires limit >= 1 && r == (total + limit - 1) / limit
    ensures r >= 0 && (r == 0 <==> total == 0)
    ensures r * limit >= total
    ensures r > 0 ==> (r - 1) * limit < total
  {
    var rem := (total + limit - 1) % limit;
    assert r * limit + rem == total + limit - 1;
    assert (r - 1) * limit == r * limit - limit;
  }

  /** The first index of page `page`. */
  function PageStart(page: int, limit: int): int {
    (page - 1) * limit
  }

  /** The page window: the items from `(page-1)*limit` up to `page*limit`, clipped to the
      list, and nothing once the start is past the end. */
  function Window<T>(s: seq<T>, page: int, limit: int): (r: seq<T>)
    requires page >= 1 && limit >= 1
    ensures |r| <= limit
    ensures |r| == 0 || PageStart(page, limit) + |r| <= |s|
    ensures forall i :: 0 <= i < |r| ==> r[i] == s[PageStart(page, limit) + i]
  {
    var start := PageStart(page, limit);
    assert start >= 0 by {
      assert (page - 1) * limit >= 0;
    }
    if start >= |s| then [] else s[start..Min(start + limit, |s|)]
  }

  lemma MulMonotone(a: int, b: int, c: int)
    requires a <= b && c >= 0
    ensures a * c <= b * c
  {
    assert b * c - a * c == (b - a) * c;
  }

  lemma PageStartNonNegative(page: int, limit: int)
    requires page >= 1 && limit >= 1
    ensures PageStart(page, limit) >= 0
  {
    MulMonotone(0, page - 1, limit);
  }

  /** A page holds each item at most as often as the list does. */
  lemma WindowSubMultiset<T>(s: seq<T>, page: int, limit: int)
    requires page >= 1 && limit >= 1
    ensures multiset(Window(s, page, limit)) <= multiset(s)
  {
    var start := PageStart(page, limit);
    PageStartNonNegative(page, limit);
    if start < |s| {
      var end := Min(start + limit, |s|);
      assert Window(s, page, limit) == s[start..end];
      assert s == s[..start] + s[start..end] + s[end..];
      assert multiset(s) == multiset(s[..start]) + multiset(s[start..end]) + multiset(s[end..]);
    }
  }

  /** Every item of a page is an item of the list. */
  lemma WindowMembers<T>(s: seq<T>, page: int, limit: int)
    requires page >= 1 && limit >= 1
    ensures forall x :: x in Window(s, page, limit) ==> x in s
  {
    WindowSubMultiset(s, page, limit);
    forall x | x in Window(s, page, limit)
      ensures x in s
    {
      assert multiset(Window(s, page, limit))[x] > 0;
    }
  }

  /** A page is empty exactly when its number is past the last page. */
  lemma WindowEmptyIff<T>(s: seq<T>, page: int, limit: int)
    requires page >= 1 && limit >= 1
    ensures Window(s, page, limit) == [] <==> page > TotalPages(|s|, limit)
  {
    var n := TotalPages(|s|, limit);
    var start := PageStart(page, limit);
    PageStartNonNegative(page, limit);
    assert Window(s, page, limit) == [] <==> start >= |s|;
    if page <= n {
      MulMonotone(page - 1, n - 1, limit);
    } else {
      MulMonotone(n, page - 1, limit);
    }
  }

  /** A page before the last one is full, and the last page holds the rest. */
  lemma WindowSize<T>(s: seq<T>, page: int, limit: int)
    requires page >= 1 && limit >= 1 && page <= TotalPages(|s|, limit)
    ensures page < TotalPages(|s|, limit) ==> |Window(s, page, limit)| == limit
    ensures page == TotalPages(|s|, limit) ==> |Window(s, page, limit)| == |s| - (page - 1) * limit
  {
    var n := TotalPages(|s|, limit);
    var start := PageStart(page, limit);
    PageStartNonNegative(page, limit);
    MulMonotone(page - 1, n - 1, limit);
    assert start < |s|;
    assert start + limit == page * limit;
    if page < n {
      MulMonotone(page, n - 1, limit);
    }
  }

  /** Pages 1 to n, one after the other. */
  function Pages<T>(s: seq<T>, limit: int, n: nat): seq<T>
    requires limit >= 1
  {
    if n == 0 then [] else Pages(s, limit, n - 1) + Window(s, n, limit)
  }

  lemma {:induction false} PagesPrefix<T>(s: seq<T>, limit: int, n: nat)
    requires limit >= 1
    ensures Pages(s, limit, n) == s[..Min(n * limit, |s|)]
  {
    if n > 0 {
      PagesPrefix(s, limit, n - 1);
      var start := (n - 1) * limit;
      PageStartNonNegative(n, limit);
      assert n * limit == start + limit;
      var w := Window(s, n, limit);
      if start < |s| {
        var end := Min(start + limit, |s|);
        assert w == s[start..end];
        assert Min(n * limit, |s|) == end;
        assert s[..end] == s[..start] + s[start..end];
      } else {
        assert w == [];
        MulMonotone(n - 1, n, limit);
        assert Min(start, |s|) == |s| == Min(n * limit, |s|);
      }
    }
  }

  /** Reading every page in order gives back the whole list, each item once. */
  lemma AllPagesAreTheList<T>(s: seq<T>, limit: int)
    requires limit >= 1
    ensures Pages(s, limit, TotalPages(|s|, limit)) == s
  {
    PagesPrefix(s, limit, TotalPages(|s|, limit));
  }

  /** Five tasks two to a page: pages of 2, 2 and 1, three pages, and a fourth page that
      is empty. */
  lemma FiveItemsTwoPerPage<T>(s: seq<T>)
    requires |s| == 5
    ensures TotalPages(5, 2) == 3
    ensures |Window(s, 1, 2)| == 2 && |Window(s, 2, 2)| == 2 && |Window(s, 3, 2)| == 1
    ensures Window(s, 4, 2) == []
  {
  }

  // ---------------------------------------------------------------------------
  // The start index as written, in 64-bit arithmetic
  // ---------------------------------------------------------------------------

  const TwoTo64: int := 0x1_0000_0000_0000_0000

  /** Two's-complement wrap-around of a Go `int` (64 bits). */
  function Wrap64(x: int): (r: int)
    ensures MinInt64 <= r <= MaxInt64
    ensures (x - r) % TwoTo64 == 0
  {
    var m := x % TwoTo64;
    if m > MaxInt64 then m - TwoTo64 else m
  }

  /** The page window as the source computes it: `start := (page-1)*limit` and
      `end := start + limit` wrap around in 64 bits; None stands for the run-time panic
      of slicing out of range. */
  function WindowAsWritten<T>(s: seq<T>, page: int, limit: int): Option<seq<T>>
    requires 1 <= page <= MaxInt64 && 1 <= limit <= MaxInt64
  {
    var start := Wrap64((page - 1) * limit);
    var end := Wrap64(start + limit);
    if start >= |s| then Some([])
    else
      var end' := if end > |s| then |s| else end;
      if 0 <= start <= end' then Some(s[start..end']) else None
  }

  /** The page number 2^62 + 1 with a limit of 4 wraps the start index round to 0: the
      code returns the first four tasks for a page far past the last, where the intended
      window is empty. */
  lemma HugePageWrapsToFirstPage<T>(s: seq<T>)
    requires 4 <= |s| <= MaxInt64
    ensures WindowAsWritten(s, 0x4000_0000_0000_0001, 4) == Some(s[..4])
    ensures Window(s, 0x4000_0000_0000_0001, 4) == []
  {
    assert (0x4000_0000_0000_0001 - 1) * 4 == TwoTo64;
    assert Wrap64(TwoTo64) == 0;
    assert Wrap64(0 + 4) == 4;
  }

  /** With a limit of 2 the same page number wraps the start index to the most negative
      `int`: slicing there panics (None), where the intended window is empty. */
  lemma HugePagePanics<T>(s: seq<T>)
    requires |s| <= MaxInt64
    ensures WindowAsWritten(s, 0x4000_0000_0000_0001, 2) == None
    ensures Window(s, 0x4000_0000_0000_0001, 2) == []
  {
    assert (0x4000_0000_0000_0001 - 1) * 2 == TwoTo64 / 2;
    assert Wrap64(TwoTo64 / 2) == MinInt64;
    assert Wrap64(MinInt64 + 2) == MinInt64 + 2;
  }

  // ---------------------------------------------------------------------------
  // The service
  // ---------------------------------------------------------------------------

  /** What every stored task satisfies: a valid status and a valid title. */
  predicate WellFormed(t: TaskData) {
    IsValidStatus(t.status) && ValidTitle(t.title)
  }

  const TitleDocs := "Complete project documentation"
  const TitleReview := "Review code changes"
  const TitleMeeting := "Plan team meeting"
  const TitleConfig := "Update system configuration"

  lemma SeedTitlesShort()
    ensures ByteLen(TitleDocs) <= MaxTitleBytes && ByteLen(TitleReview) <= MaxTitleBytes
    ensures ByteLen(TitleMeeting) <= MaxTitleBytes && ByteLen(TitleConfig) <= MaxTitleBytes
  {
  }

  lemma SeedTitlesNotBlank()
    ensures !IsBlank(TitleDocs) && !IsBlank(TitleReview) && !IsBlank(TitleMeeting) && !IsBlank(TitleConfig)
  {
    assert !IsSpace(TitleDocs[0]) && !IsSpace(TitleReview[0]) && !IsSpace(TitleMeeting[0]) && !IsSpace(TitleConfig[0]);
  }

  /** The four seeded titles pass title validation. */
  lemma SeedTitlesValid()
    ensures ValidTitle(TitleDocs) && ValidTitle(TitleReview)
    ensures ValidTitle(TitleMeeting) && ValidTitle(TitleConfig)
  {
    SeedTitlesShort();
    SeedTitlesNotBlank();
  }

  /** Two seeded tasks of one owner: the first with status `statusA`, the second pending. */
  function WithSeedPair(m: map<Uuid, TaskData>, owner: Uuid, idA: Uuid, titleA: string, statusA: TaskStatus, idB: Uuid, titleB: string, now: Clock): map<Uuid, TaskData> {
    m[idA := TaskData(idA, titleA, statusA, owner, now, now)][idB := TaskData(idB, titleB, StatusPending, owner, now, now)]
  }

  /** The tasks `NewService` seeds, given the results of looking up its two users: two for
      each user that was found. */
  function SeedTasks(john: Result<AuthDomain.User>, jane: Result<AuthDomain.User>, id1: Uuid, id2: Uuid, id3: Uuid, id4: Uuid, now: Clock): map<Uuid, TaskData> {
    var m: map<Uuid, TaskData> := map[];
    var m := if john.Success? then WithSeedPair(m, john.value.id, id1, TitleDocs, StatusInProgress, id2, TitleReview, now) else m;
    if jane.Success? then WithSeedPair(m, jane.value.id, id3, TitleMeeting, StatusCompleted, id4, TitleConfig, now) else m
  }

  /** The pagination step of ListTasks, in unbounded arithmetic. */
  method Paginate<T>(sortedTasks: seq<T>, page: int, limit: int) returns (items: seq<T>, info: PaginationInfo)
    requires page >= 1 && limit >= 1
    ensures items == Window(sortedTasks, page, limit)
    ensures info == PaginationInfo(page, limit, |sortedTasks|, TotalPages(|sortedTasks|, limit))
  {
    var total := |sortedTasks|;
    var totalPages := (total + limit - 1) / limit;
    var start := (page - 1) * limit;
    var end := start + limit;
    PageStartNonNegative(page, limit);
    if start >= |sortedTasks| {
      items := [];
      info := PaginationInfo(page, limit, total, totalPages);
    } else {
      if end > |sortedTasks| {
        end := |sortedTasks|;
      }
      items := sortedTasks[start..end];
      info := PaginationInfo(page, limit, total, totalPages);
    }
  }

  /** The fields of every task of a store, by key. */
  ghost function Snapshot(m: map<Uuid, Task>): (r: map<Uuid, TaskData>)
    reads m.Values
    ensures r.Keys == m.Keys
  {
    map id | id in m :: m[id].View()
  }

  /** Every task is stored under its own id (so no object is stored under two keys) and
      is well formed. */
  ghost predicate StoreValid(m: map<Uuid, Task>)
    reads m.Values
  {
    forall id :: id in m ==> m[id].id == id && WellFormed(m[id].View())
  }

  lemma StoreValidStore(m: map<Uuid, Task>, t: Task)
    requires StoreValid(m) && WellFormed(t.View())
    ensures StoreValid(m[t.id := t])
  {
  }

  lemma StoreValidRemove(m: map<Uuid, Task>, id: Uuid)
    requires StoreValid(m)
    ensures StoreValid(m - {id})
  {
  }

  lemma SnapshotStore(m: map<Uuid, Task>, id: Uuid, t: Task)
    ensures Snapshot(m[id := t]) == Snapshot(m)[id := t.View()]
  {
  }

  lemma SnapshotRemove(m: map<Uuid, Task>, id: Uuid)
    ensures Snapshot(m - {id}) == Snapshot(m) - {id}
  {
  }

  class Service {
    var tasks: map<Uuid, Task>

    /** Each task is stored under its own id (so no object is stored twice), its status
        is one of the four constants, and its title passed validation. */
    ghost predicate Valid()
      reads this, tasks.Values
    {
      StoreValid(tasks)
    }

    /** The stored tasks as values. */
    ghost function Contents(): map<Uuid, TaskData>
      reads this, tasks.Values
    {
      Snapshot(tasks)
    }

    lemma StoredUnderOwnId(t: Task)
      requires Valid() && t in tasks.Values
      ensures t.id in tasks && tasks[t.id] == t
    {
      var id :| id in tasks && tasks[id] == t;
    }

    /** `NewService(authSvc)`: two tasks for john.doe@example.com and two for
        jane.smith@example.com, each pair only when that user is found; `id1`..`id4`
        are the values of `uuid.New()` and `now` the value of `time.Now()`. */
    constructor (authSvc: AuthService.Service, id1: Uuid, id2: Uuid, id3: Uuid, id4: Uuid, now: Clock)
      requires authSvc.Valid()
      ensures Valid()
      ensures Contents() == SeedTasks(authSvc.GetUserByEmail(AuthService.JohnEmail), authSvc.GetUserByEmail(AuthService.JaneEmail), id1, id2, id3, id4, now)
    {
      tasks := map[];
      new;
      var user1 := authSvc.GetUserByEmail(AuthService.JohnEmail);
      var user2 := authSvc.GetUserByEmail(AuthService.JaneEmail);
      SeedTitlesValid();
      if user1.Success? {
        AddSeedPair(user1.value.id, id1, TitleDocs, StatusInProgress, id2, TitleReview, now);
      }
      if user2.Success? {
        AddSeedPair(user2.value.id, id3, TitleMeeting, StatusCompleted, id4, TitleConfig, now);
      }
    }

    /** One user's block of `NewService`: a task whose status is then set to `statusA`,
        and a pending one, both owned by `owner` and stored under their ids. */
    method AddSeedPair(owner: Uuid, idA: Uuid, titleA: string, statusA: TaskStatus, idB: Uuid, titleB: string, now: Clock)
      requires Valid() && ValidTitle(titleA) && ValidTitle(titleB) && IsValidStatus(statusA)
      modifies this`tasks
      ensures Valid()
      ensures Contents() == WithSeedPair(old(Contents()), owner, idA, titleA, statusA, idB, titleB, now)
    {
      ghost var before := Contents();
      var taskA := new Task(idA, titleA, owner, now);
      taskA.status := statusA;
      assert Contents() == before;
      Store(taskA);
      ghost var afterA := Contents();
      assert afterA == before[idA := TaskData(idA, titleA, statusA, owner, now, now)];
      var taskB := new Task(idB, titleB, owner, now);
      assert Contents() == afterA;
      Store(taskB);
    }

    /** `s.tasks[t.ID] = t`: stores `t` under its own id; every other entry is kept. */
    method Store(t: Task)
      requires Valid() && WellFormed(t.View())
      modifies this`tasks
      ensures Valid()
      ensures tasks == old(tasks)[t.id := t]
      ensures Contents() == old(Contents())[t.id := t.View()]
    {
      StoreValidStore(tasks, t);
      SnapshotStore(tasks, t.id, t);
      ghost var after := Snapshot(tasks[t.id := t]);
      tasks := tasks[t.id := t];
      assert Snapshot(tasks) == after;
    }

    /** `CreateTask`: an invalid request is refused with its validation error and the store
        is left alone; otherwise exactly one new, pending task owned by `userId` is stored
        under the fresh id. `id` is the value of `uuid.New()` and `now` that of `time.Now()`. */
    method CreateTask(req: CreateTaskRequest, userId: Uuid, id: Uuid, now: Clock) returns (r: Result<Task>)
      requires Valid() && id !in tasks && id != NilUuid
      modifies this`tasks
      ensures Valid()
      ensures req.Validate().Fail? ==> r == Failure(req.Validate().error) && tasks == old(tasks)
      ensures req.Validate().Pass? ==>
                && r.Success? && fresh(r.value)
                && tasks == old(tasks)[id := r.value]
                && Contents() == old(Contents())[id := TaskData(id, req.title, StatusPending, userId, now, now)]
    {
      var v := req.Validate();
      if v.Fail? {
        return Failure(v.error);
      }
      assert ValidTitle(req.title);
      var newTask := new Task(id, req.title, userId, now);
      Store(newTask);
      r := Success(newTask);
    }

    /** `GetTaskByID`: "task not found" exactly when the id is absent, whoever asks, and
        "access denied" exactly when it is present with another owner. */
    function GetTaskByID(id: Uuid, userId: Uuid): (r: Result<Task>)
      reads this, tasks.Values
      ensures r == Failure(ErrTaskNotFound) <==> id !in tasks
      ensures r == Failure(ErrAccessDenied) <==> id in tasks && tasks[id].userId != userId
      ensures r.Success? <==> id in tasks && tasks[id].userId == userId
      ensures r.Success? ==> r.value == tasks[id]
    {
      if id !in tasks then Failure(ErrTaskNotFound)
      else if tasks[id].userId != userId then Failure(ErrAccessDenied)
      else Success(tasks[id])
    }

    /** `UpdateTask`: the request is validated before the lookup, the lookup before the
        ownership check; on any error nothing changes, and on success only the target
        task changes, as `Task.Update` describes. */
    method UpdateTask(id: Uuid, req: UpdateTaskRequest, userId: Uuid, now: Clock) returns (r: Result<Task>)
      requires Valid()
      modifies if id in tasks then {tasks[id]} else {}
      ensures Valid() && tasks == old(tasks)
      ensures req.Validate().Fail? ==> r == Failure(req.Validate().error) && Contents() == old(Contents())
      ensures req.Validate().Pass? && id !in tasks ==> r == Failure(ErrTaskNotFound) && Contents() == old(Contents())
      ensures req.Validate().Pass? && id in tasks && old(tasks[id].userId) != userId ==>
                r == Failure(ErrAccessDenied) && Contents() == old(Contents())
      ensures req.Validate().Pass? && id in tasks && old(tasks[id].userId) == userId ==>
                && r == Success(tasks[id])
                && Contents() == old(Contents())[id := old(Contents())[id].Patched(req, now)]
    {
      var v := req.Validate();
      if v.Fail? {
        return Failure(v.error);
      }
      if id !in tasks {
        return Failure(ErrTaskNotFound);
      }
      var task := tasks[id];
      if task.userId != userId {
        return Failure(ErrAccessDenied);
      }
      ApplyUpdate(task, req, now);
      r := Success(task);
    }

    /** The `task.Update(req)` step of UpdateTask on a stored task: that task is patched
        and every other entry keeps its fields. */
    method ApplyUpdate(task: Task, req: UpdateTaskRequest, now: Clock)
      requires Valid() && task.id in tasks && tasks[task.id] == task && req.Validate().Pass?
      modifies task
      ensures Valid()
      ensures Contents() == old(Contents())[task.id := old(task.View()).Patched(req, now)]
    {
      assert forall k :: k in tasks && k != task.id ==> tasks[k] != task;
      task.Update(req, now);
    }

    /** `DeleteTask`: after the existence and ownership checks, exactly the key `id` is
        removed; a later lookup of `id` finds nothing. Errors leave the store alone. */
    method DeleteTask(id: Uuid, userId: Uuid) returns (r: Outcome)
      requires Valid()
      modifies this`tasks
      ensures Valid()
      ensures id !in old(tasks) ==> r == Fail(ErrTaskNotFound) && tasks == old(tasks)
      ensures id in old(tasks) && old(tasks[id].userId) != userId ==> r == Fail(ErrAccessDenied) && tasks == old(tasks)
      ensures id in old(tasks) && old(tasks[id].userId) == userId ==>
                && r == Pass
                && tasks == old(tasks) - {id}
                && Contents() == old(Contents()) - {id}
                && forall u :: GetTaskByID(id, u) == Failure(ErrTaskNotFound)
    {
      if id !in tasks {
        return Fail(ErrTaskNotFound);
      }
      var task := tasks[id];
      if task.userId != userId {
        return Fail(ErrAccessDenied);
      }
      Remove(id);
      r := Pass;
    }

    /** `delete(s.tasks, id)`: exactly the key `id` goes; every other entry is kept. */
    method Remove(id: Uuid)
      requires Valid()
      modifies this`tasks
      ensures Valid()
      ensures tasks == old(tasks) - {id}
      ensures Contents() == old(Contents()) - {id}
    {
      StoreValidRemove(tasks, id);
      SnapshotRemove(tasks, id);
      ghost var after := Snapshot(tasks - {id});
      tasks := tasks - {id};
      assert Snapshot(tasks) == after;
    }

    /** `ListTasks`: the tasks of `userId` that pass the filter, each exactly once, sorted
        by the chosen key (`sorted`, a ghost view of the list before the page is cut),
        then page `page` of `limit` items of that list and its page metadata. Neither
        branch of the source changes the metadata. */
    method ListTasks(filter: Option<TaskFilter>, sort: Option<TaskSort>, page: int, limit: int, userId: Uuid)
      returns (items: seq<Task>, info: PaginationInfo, ghost sorted: seq<Task>)
      requires Valid() && page >= 1 && limit >= 1
      ensures forall t: Task :: multiset(sorted)[t] ==
                (if t in tasks.Values && t.userId == userId && PassesFilter(t.View(), filter) then 1 else 0)
      ensures SortedBy(sorted, EffectiveSort(sort))
      ensures info == PaginationInfo(page, limit, |sorted|, TotalPages(|sorted|, limit))
      ensures items == Window(sorted, page, limit)
      ensures |items| <= limit
      ensures forall t :: t in items ==> t in tasks.Values && t.userId == userId && PassesFilter(t.View(), filter)
    {
      var filtered := SelectFiltered(filter, userId);
      var sortedTasks: seq<Task> := ApplySorting(filtered, sort);
      sorted := sortedTasks;
      items, info := Paginate(sortedTasks, page, limit);
      WindowMembers(sortedTasks, page, limit);
      forall t: Task | t in items
        ensures t in tasks.Values && t.userId == userId && PassesFilter(t.View(), filter)
      {
        assert multiset(sortedTasks)[t] > 0;
      }
    }

    /** The first two steps of ListTasks: the requester's tasks, then applyFilters. */
    method SelectFiltered(filter: Option<TaskFilter>, userId: Uuid) returns (filtered: seq<Task>)
      requires Valid()
      ensures forall t: Task :: multiset(filtered)[t] ==
                (if t in tasks.Values && t.userId == userId && PassesFilter(t.View(), filter) then 1 else 0)
    {
      var userTasks := CollectOwned(userId);
      filtered := ApplyFilters(userTasks, filter);
      FilterCount(userTasks, filter);
    }

    /** The first loop of ListTasks: the tasks owned by `userId`, each once, in the
        (unspecified) order in which the map is walked. */
    method CollectOwned(userId: Uuid) returns (userTasks: seq<Task>)
      requires Valid()
      ensures forall t: Task :: multiset(userTasks)[t] == (if t in tasks.Values && t.userId == userId then 1 else 0)
    {
      userTasks := [];
      var remaining := tasks.Keys;
      ghost var seen: set<Uuid> := {};
      while remaining != {}
        invariant remaining + seen == tasks.Keys && remaining !! seen
        invariant forall t: Task :: multiset(userTasks)[t] ==
                    (if t.id in seen && tasks[t.id] == t && t.userId == userId then 1 else 0)
        decreases remaining
      {
        var id :| id in remaining;
        var task := tasks[id];
        if task.userId == userId {
          userTasks := userTasks + [task];
        }
        remaining := remaining - {id};
        seen := seen + {id};
      }
      forall t: Task
        ensures multiset(userTasks)[t] == (if t in tasks.Values && t.userId == userId then 1 else 0)
      {
        if t in tasks.Values {
          StoredUnderOwnId(t);
        }
      }
    }
  }
}
