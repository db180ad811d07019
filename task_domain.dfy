/** The task entity and its request rules (internal/domain/task/task.go). */
module TaskDomain {
  import opened Wrappers
  import opened Types
  import opened Strings

  /** `TaskStatus` is a Go string type: any text can be stored in it, only four are valid. */
  type TaskStatus = string

  const StatusPending: TaskStatus := "pending"
  const StatusInProgress: TaskStatus := "in_progress"
  const StatusCompleted: TaskStatus := "completed"
  const StatusCancelled: TaskStatus := "cancelled"

  /** The longest title, in bytes, that the validators accept. */
  const MaxTitleBytes: nat := 200

  const ErrTitleRequired := "title is required"
  const ErrTitleEmpty := "title cannot be empty"
  const ErrTitleTooLong := "title must be at most 200 characters"
  const ErrInvalidStatus := "invalid status"

  /** `isValidStatus`: exactly the four status constants, compared case-sensitively. */
  predicate IsValidStatus(s: TaskStatus) {
    s == StatusPending || s == StatusInProgress || s == StatusCompleted || s == StatusCancelled
  }

  lemma IsValidStatusExamples()
    ensures IsValidStatus("pending") && IsValidStatus("in_progress")
    ensures IsValidStatus("completed") && IsValidStatus("cancelled")
    ensures !IsValidStatus("PENDING") && !IsValidStatus("") && !IsValidStatus("invalid")
  {
  }

  /** A title both validators accept: not blank and at most 200 bytes long. */
  predicate ValidTitle(t: string) {
    !IsBlank(t) && ByteLen(t) <= MaxTitleBytes
  }

  /** `TaskFilter`: a status to match exactly (nil when absent) and a search text ("" when absent). */
  datatype TaskFilter = TaskFilter(status: Option<TaskStatus>, search: string)

  /** `TaskSort`: the field name and the direction, as the query gave them. */
  datatype TaskSort = TaskSort(field: string, order: string)

  /** `CreateTaskRequest`. */
  datatype CreateTaskRequest = CreateTaskRequest(title: string) {

    /** `CreateTaskRequest.Validate`: a blank title is reported before an overlong one,
        and the request passes exactly when its title is valid. */
    function Validate(): (r: Outcome)
      ensures r.Pass? <==> ValidTitle(title)
      ensures IsBlank(title) ==> r == Fail(ErrTitleRequired)
      ensures !IsBlank(title) && ByteLen(title) > MaxTitleBytes ==> r == Fail(ErrTitleTooLong)
    {
      if TrimSpace(title) == [] then Fail(ErrTitleRequired)
      else if ByteLen(title) > MaxTitleBytes then Fail(ErrTitleTooLong)
      else Pass
    }
  }

  /** `UpdateTaskRequest`: each field is a pointer, nil when the patch leaves it alone. */
  datatype UpdateTaskRequest = UpdateTaskRequest(title: Option<string>, status: Option<TaskStatus>) {

    /** `UpdateTaskRequest.Validate`: a present title is checked (blank first, then length)
        before a present status; absent fields are never checked. */
    function Validate(): (r: Outcome)
      ensures r.Pass? <==> (title.Some? ==> ValidTitle(title.value)) && (status.Some? ==> IsValidStatus(status.value))
      ensures title.Some? && IsBlank(title.value) ==> r == Fail(ErrTitleEmpty)
      ensures title.Some? && !IsBlank(title.value) && ByteLen(title.value) > MaxTitleBytes ==> r == Fail(ErrTitleTooLong)
      ensures (title.None? || ValidTitle(title.value)) && status.Some? && !IsValidStatus(status.value) ==> r == Fail(ErrInvalidStatus)
    {
      if title.Some? && TrimSpace(title.value) == [] then Fail(ErrTitleEmpty)
      else if title.Some? && ByteLen(title.value) > MaxTitleBytes then Fail(ErrTitleTooLong)
      else if status.Some? && !IsValidStatus(status.value) then Fail(ErrInvalidStatus)
      else Pass
    }
  }

  /** A snapshot of the fields of a `Task`. */
  datatype TaskData = TaskData(id: Uuid, title: string, status: TaskStatus, userId: Uuid, createdAt: Instant, updatedAt: Instant) {

    /** The fields after `Task.Update(req)` at time `now`: only the fields present in the
        patch are overwritten, the identity, the owner and the creation time stay, and the
        update time is always `now`. */
    function Patched(req: UpdateTaskRequest, now: Instant): (r: TaskData)
      ensures r.id == id && r.userId == userId && r.createdAt == createdAt
      ensures r.updatedAt == now
      ensures req.title.None? ==> r.title == title
      ensures req.status.None? ==> r.status == status
      ensures req.title.Some? ==> r.title == req.title.value
      ensures req.status.Some? ==> r.status == req.status.value
    {
      TaskData(id, req.title.GetOr(title), req.status.GetOr(status), userId, createdAt, now)
    }
  }

  /** Applying the same patch at the same time twice is applying it once. */
  lemma PatchedIdempotent(t: TaskData, req: UpdateTaskRequest, now: Instant)
    ensures t.Patched(req, now).Patched(req, now) == t.Patched(req, now)
  {
  }

  /** An empty patch changes nothing but the update time. */
  lemma EmptyPatchTouchesOnlyTime(t: TaskData, now: Instant)
    ensures t.Patched(UpdateTaskRequest(None, None), now) == t.(updatedAt := now)
  {
  }

  /** `Task`: the service's map holds pointers to these, and `Update` changes them in place. */
  class Task {
    var id: Uuid
    var title: string
    var status: TaskStatus
    var userId: Uuid
    var createdAt: Instant
    var updatedAt: Instant

    function View(): TaskData
      reads this
    {
      TaskData(id, title, status, userId, createdAt, updatedAt)
    }

    /** `NewTask(title, userID)`; `id` is the value of `uuid.New()` and `now` that of
        `time.Now()`. The new task is pending, owned by `userId`, and carries non-zero times. */
    constructor (id: Uuid, title: string, userId: Uuid, now: Clock)
      ensures View() == TaskData(id, title, StatusPending, userId, now, now)
      ensures createdAt != 0 && updatedAt != 0
    {
      this.id := id;
      this.title := title;
      this.status := StatusPending;
      this.userId := userId;
      this.createdAt := now;
      this.updatedAt := now;
    }

    /** `Task.Update(req)` at time `now`. */
    method Update(req: UpdateTaskRequest, now: Clock)
      modifies this
      ensures View() == old(View()).Patched(req, now)
    {
      if req.title.Some? {
        title := req.title.value;
      }
      if req.status.Some? {
        status := req.status.value;
      }
      updatedAt := now;
    }
  }
}
