# Todo API core in Dafny

This project models the core of a small Go REST service that manages to-do tasks for
logged-in users. It covers five pieces:

- **Task domain** (`task_domain.dfy`): the four statuses; the create and update requests
  and their validation; the `Task` object and its in-place `Update`.
- **Auth domain** (`auth_domain.dfy`): users, the login request and its validation, and the
  e-mail check.
- **Auth service** (`auth_service.dfy`): the three seeded users, the lookup by e-mail, and
  login. Token signing is a parameter.
- **Task service** (`task_service.dfy`): the in-memory store (a `class` holding a map from
  id to `Task` objects) with create, read, update and delete. It also models the seeding of
  four tasks and the list operation: select the user's tasks, filter, sort in place, then
  paginate.
- **Task handler** (`task_handler.dfy`): how query parameters are parsed into a filter, a
  sort and pagination; how service errors map to HTTP status codes; and how the `meta` part
  of a list answer is built.

`strings.dfy` models the Go library behaviour the core relies on: `strings.TrimSpace`,
`strings.ToLower`, `strings.Contains`, `strings.Join`, byte length `len(s)` of a UTF-8
string, string ordering `<`, and `strconv.Atoi`. `types.dfy` holds the shared id, time and
pagination types, and `wrappers.dfy` holds `Option`, `Result` and `Outcome` (the Go
`error` return).

Modelling choices:

- A task id is a 128-bit number (`Uuid`), and 0 stands for the nil UUID.
- Times are naturals; `Clock` is a positive time, standing for `time.Now()`.
- Fresh ids and the current time are parameters of the operations that would draw them.
- Go map iteration order is an arbitrary choice (`:|`).
- `sort.Slice` is a selection sort on an `array<Task>`. It is proved sorted under the
  source's comparator and a permutation of its input, and nothing more, because
  `sort.Slice` is not stable.
- The store keeps task objects by reference, as the Go map keeps pointers. A ghost
  `Contents()` gives its value snapshot, and every state-changing method states the new
  snapshot in terms of the old one.

## Model

| member | source | states |
|---|---|---|
| Strings.TrimSpace | internal/domain/task/task.go:68 | trimming yields the empty string exactly when the input is all white space, and otherwise starts and ends with a non-space |
| Strings.TrimBoth | internal/domain/auth/auth.go:47 | trimming the left and then the right side leaves nothing exactly when the string is blank, and leaves non-space ends |
| Strings.TrimLeft | internal/domain/task/task.go:68 | the result is a suffix of the input; everything dropped is white space; the result starts with a non-space |
| Strings.TrimRight | internal/domain/task/task.go:68 | the result is a prefix of the input; everything dropped is white space; the result ends with a non-space |
| Strings.ToLower | internal/service/task/task_service.go:215-216 | lower-casing keeps the length |
| Strings.ToLowerIdempotent | internal/service/task/task_service.go:215-216 | lower-casing twice equals lower-casing once |
| TaskService.SearchTermCaseIrrelevant | internal/service/task/task_service.go:214-216 | a search term that is lower-cased first matches exactly the same tasks as the term itself |
| Strings.ContainsIffSlice | internal/service/task/task_service.go:216 | `Contains(s, sub)` holds exactly when `sub` occurs in `s` at some index |
| Strings.ContainsChar | internal/domain/auth/auth.go:69 | containing a one-character string is the same as containing that character |
| Strings.Join | internal/handler/task/task_handler.go:218 | `strings.Join`: the parts with the separator between each two neighbours (a definition; its properties are the two lemmas below) |
| Strings.JoinLength | internal/handler/task/task_handler.go:218 | a join of n parts is as long as the parts together plus n-1 separators |
| Strings.JoinParts | internal/handler/task/task_handler.go:218 | the k-th part occurs in the join right after the first k parts and k separators |
| Strings.Utf8Bytes | internal/domain/task/task.go:72 | a character takes 1 to 4 bytes, and exactly 1 when it is ASCII |
| Strings.ByteLen | internal/domain/task/task.go:72 | a string's byte length lies between its character count and four times that |
| Strings.ByteLenAscii | internal/domain/auth/auth.go:59 | byte length equals character count exactly when the string is ASCII |
| Strings.PrefixBytesAscii | internal/domain/auth/auth.go:59 | the first n characters take n bytes exactly when they are all ASCII |
| Strings.LexLessIrreflexive | internal/service/task/task_service.go:237-241 | no title sorts before itself |
| Strings.LexLessTransitive | internal/service/task/task_service.go:237-241 | Go string order is transitive |
| Strings.LexLessTotal | internal/service/task/task_service.go:237-241 | any two different strings are ordered one way or the other |
| Strings.Atoi | internal/handler/task/task_handler.go:286 | a parsed number lies in the int64 range; the empty string is rejected; a digit string whose value fits is parsed to that value |
| Strings.Decimal | internal/handler/task/task_handler.go:286 | the decimal rendering of n is a non-empty digit string of value n, with no leading zero unless n is 0 |
| Strings.AtoiDecimal | internal/handler/task/task_handler.go:286 | `Atoi` reads back the decimal rendering of every n in the int64 range |
| Strings.AtoiRejects | internal/handler/task/task_handler.go:286 | a lone sign, letters, a trailing letter and a leading space are all rejected |
| Strings.DigitChar | internal/handler/task/task_handler.go:286 | a digit character round-trips through its value |
| TaskDomain.IsValidStatus | internal/domain/task/task.go:109-116 | a status is valid exactly when it is one of the four constants (a definition) |
| TaskDomain.IsValidStatusExamples | internal/domain/task/task.go:109-116 | the four status constants are valid; upper case, empty and other strings are not |
| TaskDomain.CreateTaskRequest.Validate | internal/domain/task/task.go:67-77 | passes exactly when the title is not blank and at most 200 bytes; a blank title gives "title is required", and a longer one gives the length error |
| TaskDomain.UpdateTaskRequest.Validate | internal/domain/task/task.go:80-95 | passes exactly when each present field is valid; the title is checked before the status; each failure carries its own message |
| TaskDomain.TaskData.Patched | internal/domain/task/task.go:98-106 | an update replaces the given fields and only those, keeps id, owner and creation time, and stamps the update time |
| TaskDomain.PatchedIdempotent | internal/domain/task/task.go:98-106 | applying the same update twice equals applying it once |
| TaskDomain.EmptyPatchTouchesOnlyTime | internal/domain/task/task.go:98-106 | an update with no fields only changes the update time |
| TaskDomain.Task.constructor | internal/domain/task/task.go:55-64 | a new task is pending and carries the given id, title and owner; both times are the one clock reading passed in (see "## Left out") and are non-zero |
| TaskDomain.Task.Update | internal/domain/task/task.go:98-106 | the task's new state is the old state patched by the request |
| AuthDomain.NewUser | internal/domain/auth/auth.go:35-43 | a new user carries the given e-mail and password, a non-nil id and non-zero times |
| AuthDomain.IsValidEmail | internal/domain/auth/auth.go:67-70 | `isValidEmail`: the address contains "@" and contains "." (a definition) |
| AuthDomain.IsValidEmailIff | internal/domain/auth/auth.go:67-70 | an e-mail is accepted exactly when it contains an '@' and a '.' |
| AuthDomain.DoubledAtIsValidEmail | internal/domain/auth/auth_test.go:149 | "test@@example.com" is accepted, since the check is only that both characters occur |
| AuthDomain.MissingDotIsInvalidEmail | internal/domain/auth/auth_test.go:146 | "test@" is rejected |
| AuthDomain.LoginRequest.Validate | internal/domain/auth/auth.go:46-64 | passes exactly when the e-mail is non-blank and well formed and the password is non-blank and at least 8 bytes; each failure, checked in source order, carries its own message |
| AuthDomain.PasswordLengthBoundary | internal/domain/auth/auth.go:59-61 | with a valid e-mail, an 8-character ASCII password passes and a 7-character one fails as too short |
| AuthService.WholeSeconds | internal/service/auth/auth_service.go:110 | the seconds count is the duration truncated toward zero to whole seconds |
| AuthService.FifteenMinutesIs900Seconds | internal/service/auth/auth_service.go:110 | a 15-minute token lifetime is reported as 900 seconds |
| AuthService.Service.constructor | internal/service/auth/auth_service.go:28-64 | the store holds exactly the three seeded users, keyed by e-mail, with the fixed ids and the shared password |
| AuthService.Service.GetUserByEmail | internal/service/auth/auth_service.go:120-126 | succeeds exactly when the e-mail is stored, returning that user; otherwise fails with "user not found" |
| AuthService.Service.Login | internal/service/auth/auth_service.go:67-112 | validation errors come back unchanged; an unknown e-mail and a wrong password both give "invalid email or password"; with matching credentials a failing access-token generator gives "failed to generate access token", a failing refresh-token generator gives "failed to generate refresh token", and two generated tokens give a success; a success carries the two tokens, "Bearer" and the access lifetime in whole seconds |
| AuthService.Service.UnknownEmailLikeWrongPassword | internal/service/auth/auth_service.go:74-82 | an unknown e-mail and a wrong password give the same answer |
| TaskService.StatusRank | internal/service/task/task_service.go:243-248 | the sort rank of a status is at most 4 and is non-zero exactly for the four valid statuses |
| TaskService.EffectiveSort | internal/service/task/task_service.go:230-233 | no sort options mean creation time descending (a definition) |
| TaskService.Precedes | internal/service/task/task_service.go:235-265 | the `less` closure of `sort.Slice`: title by string order, status by rank, update or creation time, reversed for any order but "asc" (a definition; its properties are the lemmas below) |
| TaskService.PrecedesIrreflexive | internal/service/task/task_service.go:235-265 | under every sort option, no task precedes itself |
| TaskService.PrecedesTransitive | internal/service/task/task_service.go:235-265 | the comparator is transitive under every sort option |
| TaskService.DescReversesAsc | internal/service/task/task_service.go:235-265 | any order other than "asc" is the ascending comparator with its arguments swapped |
| TaskService.UnknownFieldSortsByCreation | internal/service/task/task_service.go:258-264 | an unrecognised sort field sorts by creation time |
| TaskService.SortedMeaning | internal/service/task/task_service.go:229-268 | in a sorted list every earlier task is no later than every later one, for each field and direction |
| TaskService.Matches | internal/service/task/task_service.go:208-220 | a task passes when its status equals the given status and its lower-cased title contains the lower-cased search text, each only when given (a definition) |
| TaskService.SearchIgnoresCase | internal/service/task/task_service.go:212-220 | the search "ALPHA" matches the title "Alpha" but not "beta" or "Gamma" |
| TaskService.Keep | internal/service/task/task_service.go:206-225 | the matching tasks in input order (a definition; see KeepCount and KeepMembers) |
| TaskService.FilterTasks | internal/service/task/task_service.go:201-226 | a nil filter returns the input as it is, otherwise the matching tasks (a definition) |
| TaskService.KeepCount | internal/service/task/task_service.go:201-226 | filtering keeps every matching task as often as it occurs, and drops the others |
| TaskService.KeepMembers | internal/service/task/task_service.go:201-226 | a task is kept exactly when it was in the list and matches |
| TaskService.KeepSubMultiset | internal/service/task/task_service.go:201-226 | filtering never adds tasks |
| TaskService.FilterCount | internal/service/task/task_service.go:201-226 | with no filter every task is kept; otherwise exactly the matching ones are, with their counts |
| TaskService.ApplyFilters | internal/service/task/task_service.go:201-226 | the loop returns exactly the filtered list, in the input order |
| TaskService.Swap | internal/service/task/task_service.go:229-268 | swapping two slots leaves the rest alone and the contents a permutation |
| TaskService.MinIndex | internal/service/task/task_service.go:229-268 | the chosen slot holds a task that no later task precedes |
| TaskService.SortInPlace | internal/service/task/task_service.go:229-268 | the array ends sorted by the options and holds the same tasks |
| TaskService.ApplySorting | internal/service/task/task_service.go:229-268 | the result is sorted by the given options, or by creation time descending when there are none, and is a permutation of the input |
| TaskService.TotalPages | internal/service/task/task_service.go:168-169 | the page count is zero exactly for an empty list and is the least count of pages that covers the list |
| TaskService.CeilDiv | internal/service/task/task_service.go:169 | `(total + limit - 1) / limit` is the ceiling of total / limit |
| TaskService.Window | internal/service/task/task_service.go:172-187 | a page holds at most `limit` items, all consecutive in the list from `(page-1)*limit` on |
| TaskService.WindowSubMultiset | internal/service/task/task_service.go:172-187 | a page holds each item at most as often as the list does |
| TaskService.WindowMembers | internal/service/task/task_service.go:172-187 | every item on a page is in the list |
| TaskService.WindowEmptyIff | internal/service/task/task_service.go:175-182 | a page is empty exactly when its number is beyond the page count |
| TaskService.WindowSize | internal/service/task/task_service.go:172-187 | every page before the last is full, and the last holds the remainder |
| TaskService.PagesPrefix | internal/service/task/task_service.go:172-187 | the first n pages put together are the first n*limit items |
| TaskService.AllPagesAreTheList | internal/service/task/task_service.go:168-187 | all pages put together, in order, are the whole list |
| TaskService.FiveItemsTwoPerPage | internal/service/task/task_service_test.go:360-380 | five items at two per page give three pages of sizes 2, 2 and 1, then an empty fourth page |
| TaskService.Wrap64 | internal/service/task/task_service.go:172 | wrapping lands in the int64 range and differs from the exact value by a multiple of 2^64 |
| TaskService.WindowAsWritten | internal/service/task/task_service.go:172-187 | the page as the source computes it, with start and end wrapped to 64 bits and a panic (None) for an out-of-range slice (a definition; see the two lemmas below) |
| TaskService.HugePageWrapsToFirstPage | internal/service/task/task_service.go:172-187 | with page 2^62+1 and limit 4, the 64-bit start index wraps to 0 and the first four tasks come back, where the correct page is empty |
| TaskService.HugePagePanics | internal/service/task/task_service.go:172-187 | with page 2^62+1 and limit 2 the start index wraps to the most negative int and the slice panics, where the correct page is empty |
| TaskService.SeedTitlesValid | internal/service/task/task_service.go:39-69 | the four seeded titles pass title validation |
| TaskService.SeedTitlesShort | internal/service/task/task_service.go:39-69 | the seeded titles are within 200 bytes |
| TaskService.SeedTitlesNotBlank | internal/service/task/task_service.go:39-69 | the seeded titles are not blank |
| TaskService.WithSeedPair | internal/service/task/task_service.go:39-52 | one user's two seeded tasks: the first with the given status, the second pending (a definition) |
| TaskService.SeedTasks | internal/service/task/task_service.go:31-75 | two tasks for John when his lookup succeeds, two for Jane when hers does (a definition) |
| TaskService.Paginate | internal/service/task/task_service.go:168-197 | the returned page is the window of the sorted list, and the info carries page, limit, total and page count |
| TaskService.StoreValidStore | internal/service/task/task_service.go:78-91 | storing a well-formed task under its own id keeps the store invariant |
| TaskService.StoreValidRemove | internal/service/task/task_service.go:133-149 | deleting a key keeps the store invariant |
| TaskService.SnapshotStore | internal/service/task/task_service.go:87-88 | storing a task changes the snapshot at that key only |
| TaskService.SnapshotRemove | internal/service/task/task_service.go:146 | deleting a key removes it from the snapshot and changes nothing else |
| TaskService.Service.StoredUnderOwnId | internal/service/task/task_service.go:87-88 | every stored task is stored under its own id |
| TaskService.Service.constructor | internal/service/task/task_service.go:31-75 | the store holds exactly the seeded tasks: two for John if his lookup succeeds, two for Jane if hers does, and none otherwise |
| TaskService.Service.AddSeedPair | internal/service/task/task_service.go:39-69 | seeding one user's pair adds exactly those two tasks |
| TaskService.Service.Store | internal/service/task/task_service.go:87-88 | storing a task puts it under its id and changes nothing else |
| TaskService.Service.CreateTask | internal/service/task/task_service.go:78-91 | an invalid request returns its validation error and leaves the store alone; a valid one adds one new pending task owned by the caller and returns it |
| TaskService.Service.GetTaskByID | internal/service/task/task_service.go:94-106 | "task not found" exactly when the id is absent; "access denied" exactly when another user owns it; otherwise the stored task |
| TaskService.Service.UpdateTask | internal/service/task/task_service.go:109-130 | validation, then not found, then access denied, each leaving the store unchanged; otherwise only that task changes, to its patched state |
| TaskService.Service.ApplyUpdate | internal/service/task/task_service.go:127 | updating a stored task changes the snapshot at its id only |
| TaskService.Service.DeleteTask | internal/service/task/task_service.go:133-149 | not found and access denied leave the store unchanged; otherwise exactly that task is removed |
| TaskService.Service.Remove | internal/service/task/task_service.go:146 | deleting a key removes exactly that task |
| TaskService.Service.ListTasks | internal/service/task/task_service.go:152-198 | the sorted list is a permutation of the caller's tasks that pass the filter, sorted by the effective options; the page is its window; every returned task belongs to the caller and passes the filter |
| TaskService.Service.SelectFiltered | internal/service/task/task_service.go:154-162 | the result holds, once each, exactly the caller's stored tasks that pass the filter |
| TaskService.Service.CollectOwned | internal/service/task/task_service.go:154-159 | the loop collects each of the caller's stored tasks exactly once, and no other |
| TaskHandler.NotFoundOrForbidden | internal/handler/task/task_handler.go:79-90 | "task not found" becomes 404 "Task not found"; any other error becomes 403 with the error's own text |
| TaskHandler.NotFoundOrBadRequest | internal/handler/task/task_handler.go:126-137 | "task not found" becomes 404 "Task not found"; any other error becomes 400 with the error's own text |
| TaskHandler.ValidationErrorsAreBadRequests | internal/handler/task/task_handler.go:126-137 | an update validation error becomes a 400 that carries its message |
| TaskHandler.AccessDeniedDependsOnEndpoint | internal/handler/task/task_handler.go:79-90 | "access denied" becomes 403 on GET and DELETE but 400 on PUT |
| TaskHandler.QueryOr | internal/handler/task/task_handler.go:254-255 | a query lookup gives the parameter's value, or the default when it is absent or empty |
| TaskHandler.ParseFilter | internal/handler/task/task_handler.go:230-250 | no filter exactly when both status and search are empty; otherwise the status is set exactly when given, and the search is passed through |
| TaskHandler.InvalidStatusFilterMatchesNothing | internal/handler/task/task_handler.go:230-250 | an unknown status in the query still builds a filter, and it matches no stored task |
| TaskHandler.ParseSort | internal/handler/task/task_handler.go:253-278 | a sort is always returned; the field and order are kept exactly when valid, and otherwise fall back to "created_at" and "desc" |
| TaskHandler.ParseSortDefault | internal/handler/task/task_handler.go:253-278 | with no sort parameters the sort is creation time descending |
| TaskHandler.ParsePagination | internal/handler/task/task_handler.go:281-298 | the page is the parsed value exactly when it is a positive integer, and otherwise 1; the limit is the parsed value exactly when it is in 1..100, and otherwise 10 |
| TaskHandler.ParsePaginationDecimal | internal/handler/task/task_handler.go:281-298 | decimal page and limit values in range are read back unchanged |
| TaskHandler.LimitAboveMaximumIsReset | internal/handler/task/task_handler.go:292-294 | a limit above 100 falls back to 10, not to 100 |
| TaskHandler.MetaSort | internal/handler/task/task_handler.go:206-208 | the sort summary "field:order", empty without sort options (a definition) |
| TaskHandler.FilterParts | internal/handler/task/task_handler.go:210-219 | the filter summary has one part per given criterion |
| TaskHandler.MetaFilter | internal/handler/task/task_handler.go:210-219 | the filter summary: the parts joined by ",", empty without a filter (a definition) |
| TaskHandler.MetaFilterCases | internal/handler/task/task_handler.go:210-219 | the filter summary is "status:S", "search:Q" or "status:S,search:Q" |
| TaskHandler.FirstColon | internal/handler/task/task_handler.go:207 | in "field:order" the first colon is right after the field |
| TaskHandler.SplitAtColon | internal/handler/task/task_handler.go:207 | two "a:b" strings whose first parts hold no colon are equal only when both parts are equal |
| TaskHandler.SortFieldHasNoColon | internal/handler/task/task_handler.go:258-263 | no valid sort field contains a colon |
| TaskHandler.MetaSortDeterminesSort | internal/handler/task/task_handler.go:206-208 | the sort summary in the meta identifies the sort that was applied |
| TaskHandler.Handler.constructor | internal/handler/task/task_handler.go:22-29 | a new handler owns a freshly seeded task service |
| TaskHandler.Handler.CreateTask | internal/handler/task/task_handler.go:32-60 | an unparsable body gives 400 "Invalid request body"; a validation error gives 400 with its message; otherwise 201 with the created task added to the store |
| TaskHandler.Handler.GetTask | internal/handler/task/task_handler.go:63-97 | a bad id gives 400; an absent task gives 404; another user's task gives 403; otherwise 200 with the stored task |
| TaskHandler.Handler.UpdateTask | internal/handler/task/task_handler.go:100-144 | a bad id or body gives 400; not found gives 404 "Task not found"; a validation error or access denied gives 400 with the service's message; otherwise 200 with the stored task as data and only that task patched; every failure leaves the store unchanged |
| TaskHandler.Handler.DeleteTask | internal/handler/task/task_handler.go:147-180 | a bad id gives 400; not found gives 404 "Task not found"; another user's task gives 403 "access denied"; otherwise 200 with exactly that task removed; every failure leaves the store unchanged |
| TaskHandler.Handler.ListTasks | internal/handler/task/task_handler.go:183-227 | always 200; the data is the parsed page of a list that holds, once each, exactly the caller's tasks passing the parsed filter, sorted by the parsed sort; the total is that list's length; page, limit and page count are the parsed and computed ones; the meta strings are built from the parsed sort and filter |

## Left out

- HTTP plumbing (fiber routing, JSON encoding, the `user_id` value the JWT middleware puts in the request context) is left out. A body or path id that fails to parse is an `Option` that is `None`.
- JWT signing and checking are left out: `Login` takes the token generator as a parameter, and `ValidateToken` and the auth middleware are not part of this model.
- The clock and UUID generation are left out. The current time and fresh ids are parameters; a fresh id is required not to be in the store and not to be nil, as `uuid.New()` guarantees with overwhelming probability.
- Concurrency is left out: the source's task map has no lock, so concurrent requests race on it; the model is sequential and does not capture concurrent access.
- The handler's 500 branch for a failing `ListTasks` is left out, because the service's `ListTasks` never returns an error.
- TaskService.Paginate: the window is computed in unbounded arithmetic, so a list answer is always the intended page with status 200. In the source, `(page - 1) * limit` is a 64-bit product, and a huge page number returns a wrapped first page or panics into a 500. The two "## Findings" rows and TaskService.WindowAsWritten model that behaviour.
- TaskService.ApplySorting: the order of tasks that compare equal is not stated, because `sort.Slice` is not stable. For the same reason, two sorts of the same input are not claimed to give the same order.
- Strings.ToLower and Strings.TrimSpace cover ASCII only: Unicode case mapping and Unicode white space beyond ASCII are not modelled.
- AuthService.WholeSeconds: `Duration.Seconds()` goes through a float64 before truncation; the model truncates exactly, which differs only for durations beyond 2^53 nanoseconds.
- TaskDomain.Task.Update: the update time is the given clock value, so that it never moves backwards is not claimed; it depends on the caller's clock.
- AuthDomain.NewUser: `uuid.New()` is a parameter, so a non-nil id is a precondition rather than a guarantee of the function.
- TaskDomain.Task.constructor: `NewTask` reads `time.Now()` twice, once per time field, and the four seeded tasks each come from their own `NewTask`. The model passes one clock value for all of these readings. Go's readings never go backwards and usually differ, so in Go the seeded tasks have distinct creation times and a fixed order under the default newest-first listing. The model gives them equal times, so either order is allowed.
- TaskService.Service.constructor: the same single clock value stands for every `time.Now()` reading of the four seeded tasks; see the line above.
- The seeding lookups in the task service constructor may fail; the model keeps both branches (SeedTasks), as the source does, although with the fixed seeded users they always succeed.

## Findings

| source | as written | input that shows it | evidently intended | confidence | as-written member | corrected member |
|---|---|---|---|---|---|---|
| internal/service/task/task_service.go:172 | `start := (page - 1) * limit` in 64-bit `int`, with `page` any positive `int` that `strconv.Atoi` accepts | `page=4611686018427387905&limit=4` (page 2^62+1): the product is 2^64, which wraps to 0, so the first four tasks are returned | a page number beyond the last page gives an empty page | high for the arithmetic; not executed | TaskService.HugePageWrapsToFirstPage | TaskService.WindowEmptyIff |
| internal/service/task/task_service.go:172 | the same product with `limit` 2 | `page=4611686018427387905&limit=2`: the product is 2^63, which wraps to the most negative `int`, and slicing at a negative index panics (the recover middleware in cmd/main.go:38 answers 500) | a page number beyond the last page gives an empty page | high for the arithmetic; not executed | TaskService.HugePagePanics | TaskService.WindowEmptyIff |
