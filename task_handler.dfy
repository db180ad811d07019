/** The HTTP layer of the task endpoints (internal/handler/task/task_handler.go): the
    query-string parsers of the list endpoint, the `meta` strings of its answer, and the
    way each handler turns a service error into a status code. Request bodies and path
    parameters arrive already decoded: None stands for a body that `BodyParser` rejects
    or a path parameter that `uuid.Parse` rejects. */
module TaskHandler {
  import opened Wrappers
  import opened Types
  import opened Strings
  import opened TaskDomain
  import TaskService
  import AuthService

  // ---------------------------------------------------------------------------
  // Responses
  // ---------------------------------------------------------------------------

  const StatusOK := 200
  const StatusCreated := 201
  const StatusBadRequest := 400
  const StatusForbidden := 403
  const StatusNotFound := 404

  const MsgInvalidBody := "Invalid request body"
  const MsgInvalidId := "Invalid task ID"
  const MsgTaskNotFound := "Task not found"

  /** The status code and the `{error, message, data}` envelope of a single-task answer. */
  datatype Response = Response(status: int, error: bool, message: string, data: Option<Task>)

  /** The answer of the list endpoint: the page of tasks and its `meta`. */
  datatype ListResponse = ListResponse(status: int, error: bool, message: string, data: seq<Task>, meta: MetaInfo)

  function Failed(status: int, message: string): Response {
    Response(status, true, message, None)
  }

  /** The error branch of GetTask and DeleteTask: "task not found" is a 404 with its own
      text, anything else a 403 that repeats the service's message. */
  function NotFoundOrForbidden(err: string): (r: Response)
    ensures r.error && r.data.None?
    ensures r.status == StatusNotFound <==> err == TaskService.ErrTaskNotFound
    ensures r.status == StatusNotFound ==> r.message == MsgTaskNotFound
    ensures r.status != StatusNotFound ==> r.status == StatusForbidden && r.message == err
  {
    if err == TaskService.ErrTaskNotFound then Failed(StatusNotFound, MsgTaskNotFound)
    else Failed(StatusForbidden, err)
  }

  /** The error branch of UpdateTask: "task not found" is a 404, anything else (a
      validation error or "access denied") a 400 that repeats the service's message. */
  function NotFoundOrBadRequest(err: string): (r: Response)
    ensures r.error && r.data.None?
    ensures r.status == StatusNotFound <==> err == TaskService.ErrTaskNotFound
    ensures r.status == StatusNotFound ==> r.message == MsgTaskNotFound
    ensures r.status != StatusNotFound ==> r.status == StatusBadRequest && r.message == err
  {
    if err == TaskService.ErrTaskNotFound then Failed(StatusNotFound, MsgTaskNotFound)
    else Failed(StatusBadRequest, err)
  }

  /** No validation message is mistaken for "task not found", so UpdateTask answers every
      validation failure with 400 and the validator's own text. */
  lemma ValidationErrorsAreBadRequests(req: UpdateTaskRequest)
    requires req.Validate().Fail?
    ensures NotFoundOrBadRequest(req.Validate().error) == Failed(StatusBadRequest, req.Validate().error)
  {
  }

  /** An access-denied update is a 400, while an access-denied read or delete is a 403. */
  lemma AccessDeniedDependsOnEndpoint()
    ensures NotFoundOrBadRequest(TaskService.ErrAccessDenied).status == StatusBadRequest
    ensures NotFoundOrForbidden(TaskService.ErrAccessDenied).status == StatusForbidden
  {
  }

  // ---------------------------------------------------------------------------
  // Query parameters
  // ---------------------------------------------------------------------------

  /** The query string of a request: each parameter's raw text. */
  type Query = map<string, string>

  /** `c.Query(key)`: the parameter's text, "" when it is missing. */
  function QueryValue(q: Query, key: string): string {
    if key in q then q[key] else ""
  }

  /** `c.Query(key, dflt)`: the parameter's text, `dflt` when it is missing or empty. */
  function QueryOr(q: Query, key: string, dflt: string): (v: string)
    ensures key in q && q[key] != "" ==> v == q[key]
    ensures key !in q || q[key] == "" ==> v == dflt
  {
    var v := QueryValue(q, key);
    if v == "" then dflt else v
  }

  /** `parseFilter`: nil exactly when both `status` and `search` are empty; otherwise the
      status (passed through unchecked, absent when empty) and the search text. */
  function ParseFilter(q: Query): (r: Option<TaskFilter>)
    ensures r.None? <==> QueryValue(q, "status") == "" && QueryValue(q, "search") == ""
    ensures r.Some? ==> r.value.search == QueryValue(q, "search")
    ensures r.Some? ==> (r.value.status.Some? <==> QueryValue(q, "status") != "")
    ensures r.Some? && r.value.status.Some? ==> r.value.status.value == QueryValue(q, "status")
  {
    var statusStr := QueryValue(q, "status");
    var status: Option<TaskStatus> := if statusStr != "" then Some(statusStr) else None;
    var search := QueryValue(q, "search");
    if status.None? && search == "" then None else Some(TaskFilter(status, search))
  }

  /** A status filter that is not one of the four constants is not refused: it keeps no
      task of a store whose tasks all have valid statuses. */
  lemma InvalidStatusFilterMatchesNothing(q: Query, t: TaskData)
    requires QueryValue(q, "status") != "" && !IsValidStatus(QueryValue(q, "status"))
    requires TaskService.WellFormed(t)
    ensures ParseFilter(q).Some? && !TaskService.PassesFilter(t, ParseFilter(q))
  {
  }

  /** The sort fields the list endpoint accepts. */
  predicate ValidSortField(f: string) {
    f == "created_at" || f == "updated_at" || f == "title" || f == "status"
  }

  predicate ValidSortOrder(o: string) {
    o == "asc" || o == "desc"
  }

  /** `parseSort`: never nil; a field outside the four names becomes "created_at" and an
      order other than "asc" and "desc" becomes "desc". Valid values are kept as given. */
  function ParseSort(q: Query): (r: Option<TaskSort>)
    ensures r.Some?
    ensures ValidSortField(r.value.field) && ValidSortOrder(r.value.order)
    ensures ValidSortField(QueryValue(q, "sort_field")) <==> r.value.field == QueryValue(q, "sort_field")
    ensures ValidSortOrder(QueryValue(q, "sort_order")) <==> r.value.order == QueryValue(q, "sort_order")
    ensures !ValidSortField(QueryValue(q, "sort_field")) ==> r.value.field == "created_at"
    ensures !ValidSortOrder(QueryValue(q, "sort_order")) ==> r.value.order == "desc"
  {
    var sortField := QueryOr(q, "sort_field", "created_at");
    var sortOrder := QueryOr(q, "sort_order", "desc");
    var sortField := if !ValidSortField(sortField) then "created_at" else sortField;
    var sortOrder := if sortOrder != "asc" && sortOrder != "desc" then "desc" else sortOrder;
    Some(TaskSort(sortField, sortOrder))
  }

  /** Without sort parameters the list is sorted exactly as the service sorts when given
      no options: newest first. */
  lemma ParseSortDefault(q: Query)
    requires "sort_field" !in q && "sort_order" !in q
    ensures ParseSort(q) == Some(TaskService.DefaultSort)
  {
  }

  const DefaultPage := 1
  const DefaultLimit := 10
  const MaxLimit := 100

  /** `parsePagination`: the page is any positive number `strconv.Atoi` reads, else 1;
      the limit is a number from 1 to 100, else 10 (a larger limit is reset to 10, not
      lowered to 100). */
  function ParsePagination(q: Query): (r: (int, int))
    ensures r.0 >= 1 && 1 <= r.1 <= MaxLimit
    ensures (Atoi(QueryValue(q, "page")).Some? && Atoi(QueryValue(q, "page")).value > 0) <==> r.0 == Atoi(QueryValue(q, "page")).GetOr(0)
    ensures !(Atoi(QueryValue(q, "page")).Some? && Atoi(QueryValue(q, "page")).value > 0) ==> r.0 == DefaultPage
    ensures (Atoi(QueryValue(q, "limit")).Some? && 0 < Atoi(QueryValue(q, "limit")).value <= MaxLimit) <==> r.1 == Atoi(QueryValue(q, "limit")).GetOr(0)
    ensures !(Atoi(QueryValue(q, "limit")).Some? && 0 < Atoi(QueryValue(q, "limit")).value <= MaxLimit) ==> r.1 == DefaultLimit
  {
    var page := DefaultPage;
    var limit := DefaultLimit;
    var pageStr := QueryValue(q, "page");
    var p := Atoi(pageStr);
    var page := if pageStr != "" && p.Some? && p.value > 0 then p.value else page;
    var limitStr := QueryValue(q, "limit");
    var l := Atoi(limitStr);
    var limit := if limitStr != "" && l.Some? && l.value > 0 && l.value <= MaxLimit then l.value else limit;
    (page, limit)
  }

  /** A client that writes page and limit as plain decimal numbers in range gets exactly
      those numbers. */
  lemma ParsePaginationDecimal(q: Query, page: nat, limit: nat)
    requires 1 <= page <= MaxInt64 && 1 <= limit <= MaxLimit
    requires QueryValue(q, "page") == Decimal(page) && QueryValue(q, "limit") == Decimal(limit)
    ensures ParsePagination(q) == (page, limit)
  {
    AtoiDecimal(page);
    AtoiDecimal(limit);
  }

  /** A limit above 100 falls back to the default of 10 instead of being capped. */
  lemma LimitAboveMaximumIsReset(q: Query, limit: nat)
    requires MaxLimit < limit <= MaxInt64 && QueryValue(q, "limit") == Decimal(limit)
    ensures ParsePagination(q).1 == DefaultLimit
  {
    AtoiDecimal(limit);
  }

  // ---------------------------------------------------------------------------
  // The meta strings of the list answer
  // ---------------------------------------------------------------------------

  /** `meta.Sort`: "field:order" when sort options were given, "" (omitted) otherwise. */
  function MetaSort(sort: Option<TaskSort>): string {
    match sort
    case None => ""
    case Some(s) => s.field + ":" + s.order
  }

  /** The `filterParts` of ListTasks: "status:<s>" when a status is given, then
      "search:<q>" when the search text is not empty. */
  function FilterParts(f: TaskFilter): (parts: seq<string>)
    ensures |parts| == (if f.status.Some? then 1 else 0) + (if f.search != "" then 1 else 0)
  {
    (if f.status.Some? then ["status:" + f.status.value] else [])
    + (if f.search != "" then ["search:" + f.search] else [])
  }

  /** `meta.Filter`: the parts joined by ",", "" (omitted) when there is no filter. */
  function MetaFilter(filter: Option<TaskFilter>): string {
    match filter
    case None => ""
    case Some(f) => Join(FilterParts(f), ",")
  }

  /** What `meta.Filter` reads, case by case. */
  lemma MetaFilterCases(status: TaskStatus, search: string)
    requires search != ""
    ensures MetaFilter(Some(TaskFilter(Some(status), ""))) == "status:" + status
    ensures MetaFilter(Some(TaskFilter(None, search))) == "search:" + search
    ensures MetaFilter(Some(TaskFilter(Some(status), search))) == "status:" + status + ",search:" + search
  {
    var both := FilterParts(TaskFilter(Some(status), search));
    assert both == ["status:" + status, "search:" + search];
    assert both[1..] == ["search:" + search];
    assert Join(both, ",") == both[0] + "," + Join(both[1..], ",");
  }

  /** In `a + ":" + b` with no colon in `a`, the first colon sits right after `a`. */
  lemma FirstColon(a: string, b: string)
    requires ':' !in a
    ensures (a + ":" + b)[|a|] == ':'
    ensures forall i :: 0 <= i < |a| ==> (a + ":" + b)[i] != ':'
  {
    forall i | 0 <= i < |a|
      ensures (a + ":" + b)[i] != ':'
    {
      assert (a + ":" + b)[i] == a[i];
    }
  }

  /** Splitting at the first ':' : when neither left part contains a colon, equal joins
      come from equal parts. */
  lemma SplitAtColon(a: string, b: string, c: string, d: string)
    requires ':' !in a && ':' !in c
    requires a + ":" + b == c + ":" + d
    ensures a == c && b == d
  {
    var s := a + ":" + b;
    FirstColon(a, b);
    FirstColon(c, d);
    assert |a| == |c|;
    assert a == s[..|a|] == c;
    assert b == s[|a| + 1..] == d;
  }

  lemma SortFieldHasNoColon(f: string)
    requires ValidSortField(f)
    ensures ':' !in f
  {
  }

  /** The sort that the list was ordered by can be read back from `meta.Sort`: two parsed
      sorts with the same meta string are the same sort. */
  lemma MetaSortDeterminesSort(q1: Query, q2: Query)
    requires MetaSort(ParseSort(q1)) == MetaSort(ParseSort(q2))
    ensures ParseSort(q1) == ParseSort(q2)
  {
    var s1, s2 := ParseSort(q1).value, ParseSort(q2).value;
    SortFieldHasNoColon(s1.field);
    SortFieldHasNoColon(s2.field);
    SplitAtColon(s1.field, s1.order, s2.field, s2.order);
  }

  // ---------------------------------------------------------------------------
  // The handlers
  // ---------------------------------------------------------------------------

  /** `Handler`: the endpoints of the task API over one task service. */
  class Handler {
    const taskService: TaskService.Service

    ghost predicate Valid()
      reads this, taskService, taskService.tasks.Values
    {
      taskService.Valid()
    }

    /** `NewHandler(authSvc)`: a handler over a freshly seeded task service. */
    constructor (authSvc: AuthService.Service, id1: Uuid, id2: Uuid, id3: Uuid, id4: Uuid, now: Clock)
      requires authSvc.Valid()
      ensures Valid() && fresh(taskService)
      ensures taskService.Contents() == TaskService.SeedTasks(authSvc.GetUserByEmail(AuthService.JohnEmail), authSvc.GetUserByEmail(AuthService.JaneEmail), id1, id2, id3, id4, now)
    {
      taskService := new TaskService.Service(authSvc, id1, id2, id3, id4, now);
      new;
      assert taskService.Contents() == TaskService.SeedTasks(authSvc.GetUserByEmail(AuthService.JohnEmail), authSvc.GetUserByEmail(AuthService.JaneEmail), id1, id2, id3, id4, now);
    }

    /** `CreateTask`: 400 for a body that does not parse or a request the service refuses
        (with the service's message), 201 with the new task otherwise. */
    method CreateTask(body: Option<CreateTaskRequest>, userId: Uuid, id: Uuid, now: Clock) returns (resp: Response)
      requires Valid() && id !in taskService.tasks && id != NilUuid
      modifies taskService
      ensures Valid()
      ensures body.None? ==> resp == Failed(StatusBadRequest, MsgInvalidBody) && taskService.tasks == old(taskService.tasks)
      ensures body.Some? && body.value.Validate().Fail? ==>
                resp == Failed(StatusBadRequest, body.value.Validate().error) && taskService.tasks == old(taskService.tasks)
      ensures body.Some? && body.value.Validate().Pass? ==>
                && resp.status == StatusCreated && !resp.error && resp.data.Some?
                && taskService.tasks == old(taskService.tasks)[id := resp.data.value]
                && taskService.Contents() == old(taskService.Contents())[id := TaskData(id, body.value.title, StatusPending, userId, now, now)]
    {
      if body.None? {
        return Failed(StatusBadRequest, MsgInvalidBody);
      }
      var r := taskService.CreateTask(body.value, userId, id, now);
      match r
      case Failure(e) =>
        resp := Failed(StatusBadRequest, e);
      case Success(t) =>
        resp := Response(StatusCreated, false, "Task created successfully", Some(t));
    }

    /** `GetTask`: 404 exactly when the id is not stored, 403 exactly when it belongs to
        someone else, 200 with the task when it is the requester's; a malformed id is 400. */
    method GetTask(idParam: Option<Uuid>, userId: Uuid) returns (resp: Response)
      requires Valid()
      ensures idParam.None? ==> resp == Failed(StatusBadRequest, MsgInvalidId)
      ensures idParam.Some? ==> var id := idParam.value;
                && (resp.status == StatusNotFound <==> id !in taskService.tasks)
                && (resp.status == StatusForbidden <==> id in taskService.tasks && taskService.tasks[id].userId != userId)
                && (resp.status == StatusOK <==> id in taskService.tasks && taskService.tasks[id].userId == userId)
                && (resp.status == StatusNotFound ==> resp.message == MsgTaskNotFound)
                && (resp.status == StatusForbidden ==> resp.message == TaskService.ErrAccessDenied)
                && (resp.status == StatusOK ==> resp.data == Some(taskService.tasks[id]))
    {
      if idParam.None? {
        return Failed(StatusBadRequest, MsgInvalidId);
      }
      var r := taskService.GetTaskByID(idParam.value, userId);
      match r
      case Failure(e) =>
        resp := NotFoundOrForbidden(e);
      case Success(t) =>
        resp := Response(StatusOK, false, "Task retrieved successfully", Some(t));
    }

    /** `UpdateTask`: 404 only for a valid patch of an id that is not stored; 400 for a
        malformed id or body, an invalid patch or a task of someone else; 200 with the
        patched task otherwise. Only a 200 changes anything. */
    method UpdateTask(idParam: Option<Uuid>, body: Option<UpdateTaskRequest>, userId: Uuid, now: Clock) returns (resp: Response)
      requires Valid()
      modifies taskService.tasks.Values
      ensures Valid() && taskService.tasks == old(taskService.tasks)
      ensures resp.status != StatusOK ==> taskService.Contents() == old(taskService.Contents())
      ensures idParam.None? ==> resp == Failed(StatusBadRequest, MsgInvalidId)
      ensures idParam.Some? && body.None? ==> resp == Failed(StatusBadRequest, MsgInvalidBody)
      ensures idParam.Some? && body.Some? ==> var id, req := idParam.value, body.value;
                && (resp.status == StatusNotFound <==> req.Validate().Pass? && id !in taskService.tasks)
                && (resp.status == StatusOK <==> req.Validate().Pass? && id in taskService.tasks && old(taskService.tasks[id].userId) == userId)
                && (resp.status == StatusNotFound ==> resp == Failed(StatusNotFound, MsgTaskNotFound))
                && (req.Validate().Fail? ==> resp == Failed(StatusBadRequest, req.Validate().error))
                && (req.Validate().Pass? && id in taskService.tasks && old(taskService.tasks[id].userId) != userId ==>
                      resp == Failed(StatusBadRequest, TaskService.ErrAccessDenied))
                && (resp.status == StatusOK ==>
                      && !resp.error && resp.data == Some(taskService.tasks[id])
                      && taskService.Contents() == old(taskService.Contents())[id := old(taskService.Contents())[id].Patched(req, now)])
    {
      if idParam.None? {
        return Failed(StatusBadRequest, MsgInvalidId);
      }
      if body.None? {
        return Failed(StatusBadRequest, MsgInvalidBody);
      }
      var r := taskService.UpdateTask(idParam.value, body.value, userId, now);
      match r
      case Failure(e) =>
        resp := NotFoundOrBadRequest(e);
      case Success(t) =>
        resp := Response(StatusOK, false, "Task updated successfully", Some(t));
    }

    /** `DeleteTask`: 404 exactly when the id is not stored, 403 exactly when it belongs
        to someone else, 200 when it was removed; only a 200 changes the store. */
    method DeleteTask(idParam: Option<Uuid>, userId: Uuid) returns (resp: Response)
      requires Valid()
      modifies taskService
      ensures Valid()
      ensures resp.status != StatusOK ==> taskService.tasks == old(taskService.tasks)
      ensures idParam.None? ==> resp == Failed(StatusBadRequest, MsgInvalidId)
      ensures idParam.Some? ==> var id := idParam.value;
                && (resp.status == StatusNotFound <==> id !in old(taskService.tasks))
                && (resp.status == StatusForbidden <==> id in old(taskService.tasks) && old(taskService.tasks[id].userId) != userId)
                && (resp.status == StatusOK <==> id in old(taskService.tasks) && old(taskService.tasks[id].userId) == userId)
                && (resp.status == StatusNotFound ==> resp == Failed(StatusNotFound, MsgTaskNotFound))
                && (resp.status == StatusForbidden ==> resp == Failed(StatusForbidden, TaskService.ErrAccessDenied))
                && (resp.status == StatusOK ==> !resp.error && taskService.tasks == old(taskService.tasks) - {id})
    {
      if idParam.None? {
        return Failed(StatusBadRequest, MsgInvalidId);
      }
      var r := taskService.DeleteTask(idParam.value, userId);
      match r
      case Fail(e) =>
        resp := NotFoundOrForbidden(e);
      case Pass =>
        resp := Response(StatusOK, false, "Task deleted successfully", None);
    }

    /** `ListTasks`: the query parsed into a filter, a sort and a page; the page of the
        requester's tasks that the service returns; and the meta strings built from the
        parsed values. `sorted` is a ghost view of the service's sorted list before the
        page is cut. The service never fails here. */
    method ListTasks(userId: Uuid, q: Query) returns (resp: ListResponse, ghost sorted: seq<Task>)
      requires Valid()
      ensures forall t: Task :: multiset(sorted)[t] ==
                (if t in taskService.tasks.Values && t.userId == userId && TaskService.PassesFilter(t.View(), ParseFilter(q)) then 1 else 0)
      ensures TaskService.SortedBy(sorted, TaskService.EffectiveSort(ParseSort(q)))
      ensures resp.data == TaskService.Window(sorted, ParsePagination(q).0, ParsePagination(q).1)
      ensures resp.meta.pagination.total == |sorted|
      ensures resp.status == StatusOK && !resp.error
      ensures resp.meta.pagination.page == ParsePagination(q).0 && resp.meta.pagination.limit == ParsePagination(q).1
      ensures resp.meta.pagination.totalPages == TaskService.TotalPages(resp.meta.pagination.total, ParsePagination(q).1)
      ensures resp.meta.sort == MetaSort(ParseSort(q))
      ensures resp.meta.filter == MetaFilter(ParseFilter(q))
      ensures |resp.data| <= ParsePagination(q).1
      ensures forall t :: t in resp.data ==> t in taskService.tasks.Values && t.userId == userId
      ensures forall t :: t in resp.data ==> TaskService.PassesFilter(t.View(), ParseFilter(q))
    {
      var filter := ParseFilter(q);
      var sort := ParseSort(q);
      var (page, limit) := ParsePagination(q);
      var items, info;
      items, info, sorted := taskService.ListTasks(filter, sort, page, limit, userId);
      var meta := MetaInfo(info, "", "");
      if sort.Some? {
        meta := meta.(sort := sort.value.field + ":" + sort.value.order);
      }
      if filter.Some? {
        var filterParts: seq<string> := [];
        if filter.value.status.Some? {
          filterParts := filterParts + ["status:" + filter.value.status.value];
        }
        if filter.value.search != "" {
          filterParts := filterParts + ["search:" + filter.value.search];
        }
        meta := meta.(filter := Join(filterParts, ","));
      }
      resp := ListResponse(StatusOK, false, "Tasks retrieved successfully", items, meta);
    }
  }
}
