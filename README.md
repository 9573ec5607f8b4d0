# To-do list backend: task stores, validators and REST rules

This project models the core of a small to-do list service. It proves
properties of that model in Dafny.

A **task** has an id (a UUID string), a text, a status (`inbox` or `done`),
and the `createdAt` and `updatedAt` timestamps. The model covers:

- three stores that keep tasks;
- the checks on ids, statuses, page orders and texts;
- the REST controller that ties them together.

The modules follow the source files:

| module | file | models |
|---|---|---|
| `Wrappers` | wrappers.dfy | `Option` (a Java reference that may be null), `Result` (a call that returns or throws), `Outcome` (a call that only throws or not) |
| `TaskModel` | task.dfy | the immutable task value |
| `TaskIdValidator` | task_id_validator.dfy | the UUID pattern, proved equal to the positional form of RFC 4122, section 3 |
| `TaskStatusValidator`, `PageOrderValidator`, `TaskTextValidator` | the three validator files | the three remaining request checks |
| `TaskListing` | task_listing.dfy | the pure part of the JDBC store's paged listing: defaults, page arithmetic, filter, sort, slice, `_meta` |
| `DatabaseTasksRepository` | database_tasks_repository.dfy | the JDBC store. Its table is the field `rows`, kept in insertion order, with distinct ids as the class invariant |
| `HashMapTasksRepository`, `TasksRepository` | the two map store files | the two in-memory stores. Each map is the field `taskMap` |
| `TasksController` | tasks_controller.dfy | each endpoint's checks and error order, the HTTP status of each error, and the endpoints acting on the JDBC store |

Some inputs come from outside the model:

- The clock and `UUID.randomUUID()` are parameters: `now` and `id`.
- The database's collation of `createdAt` strings is a parameter `rank`. Rows are sorted by it.

The model follows the code on these points:

- The `next` link is `page + 1` unless there is exactly one page, without clamping at the last page.
- The `last` link is the page count, so it is 0 when there are no tasks.
- The `prev` link is `page - 1`, except that page 1 links to itself. A page below 1 never lists, so it never needs a link.
- The JDBC store throws for an unknown id rather than returning null. The controller methods use the corrected lookup; see "## Findings".

## Model

| member | source | states |
|---|---|---|
| TaskModel.NewTask | src/main/java/it/sevenbits/todolist/core/model/Task.java:19-23 | the three-argument constructor keeps id, text and status and leaves both timestamps null |
| TaskModel.GettersRoundTrip | src/test/java/it/sevenbits/todolist/core/model/TaskTest.java:24-35 | each getter returns the constructor argument in its own position; swapping text and status gives a different task whenever they differ |
| TaskModel.ConstructorDoesNotValidate | src/main/java/it/sevenbits/todolist/core/model/Task.java:15-23 | the constructor stores an empty id, blank text and an unknown status unchanged; the documented constraints are not enforced |
| TaskIdValidator.ValidIffCanonical | src/main/java/it/sevenbits/todolist/core/validation/id/service/TaskIDValidator.java:16-22 | the pattern accepts exactly the 36-character strings with hyphens at 8, 13, 18 and 23 and hex digits elsewhere |
| TaskIdValidator.IsValidTaskID | src/main/java/it/sevenbits/todolist/core/validation/id/service/TaskIDValidator.java:16-22 | isValidTaskID: an accepted id has 36 characters with a hyphen after the first eight hex digits; ValidIffCanonical gives the full positional form |
| TaskIdValidator.DashedGroupLength | src/main/java/it/sevenbits/todolist/core/validation/id/service/TaskIDValidator.java:17-21 | one dashed group of width w matches exactly a hyphen followed by w hex digits |
| TaskIdValidator.RejectsAffixes | src/main/java/it/sevenbits/todolist/core/validation/id/service/TaskIDValidator.java:22 | the match covers the whole string: an accepted id with anything added before or after is rejected, and so is the empty string |
| TaskIdValidator.CaseInsensitive | src/main/java/it/sevenbits/todolist/core/validation/id/service/TaskIDValidator.java:17-21 | upper-casing an id never changes the verdict |
| TaskIdValidator.AcceptsNilUuid | src/main/java/it/sevenbits/todolist/core/validation/id/service/TaskIDValidator.java:17-22 | version and variant digits are not checked: the nil UUID is accepted |
| TaskIdValidator.HexDigits | src/main/java/it/sevenbits/todolist/core/repository/DatabaseTasksRepository.java:66 | UUID.toString renders each field as exactly the requested number of hex digits |
| TaskIdValidator.GeneratedIdsAreValid | src/main/java/it/sevenbits/todolist/core/repository/DatabaseTasksRepository.java:66 | every id the store generates with UUID.randomUUID().toString() passes the id check |
| TaskStatusValidator.RejectsNearMisses | src/main/java/it/sevenbits/todolist/core/validation/status/service/TaskStatusValidator.java:14-17 | null, "inbox" and "done" pass; other spellings, case variants and padded forms fail |
| TaskStatusValidator.IsValidStatus | src/main/java/it/sevenbits/todolist/core/validation/status/service/TaskStatusValidator.java:14-17 | null passes; an accepted status is a lower-case word of 4 or 5 letters ("done" or "inbox"), so case variants fail; TasksController.DefaultsAreAccepted ties it to the store's status list |
| PageOrderValidator.RejectsNearMisses | src/main/java/it/sevenbits/todolist/core/validation/order/PageOrderValidator.java:16-19 | null, "asc" and "desc" pass; case variants, padded forms and "ascending" fail |
| PageOrderValidator.IsValidOrder | src/main/java/it/sevenbits/todolist/core/validation/order/PageOrderValidator.java:16-19 | null passes; an accepted order is a lower-case word of 3 or 4 letters ("asc" or "desc"), so case variants fail; TasksController.DefaultsAreAccepted ties it to the store's order list |
| TaskTextValidator.AcceptsEverySuppliedText | src/main/java/it/sevenbits/todolist/core/validation/text/service/TaskTextValidator.java:13-15 | only a missing text fails; every supplied text passes, including empty and blank ones |
| TaskTextValidator.IsValidTaskText | src/main/java/it/sevenbits/todolist/core/validation/text/service/TaskTextValidator.java:13-15 | null fails, and even the empty text passes |
| TaskListing.WithDefaults | src/main/java/it/sevenbits/todolist/core/repository/DatabaseTasksRepository.java:95-102 | each absent parameter takes its default (inbox, desc, page 1, size 25) and each present one is kept |
| TaskListing.TotalPages | src/main/java/it/sevenbits/todolist/core/repository/DatabaseTasksRepository.java:105-106 | the page count is the ceiling of total over size: all tasks fit in that many pages and not in one fewer; 0 tasks give 0 pages |
| TaskListing.Skipped | src/main/java/it/sevenbits/todolist/core/repository/DatabaseTasksRepository.java:107 | the offset is non-negative from page 1 on and negative below it, and always fits a 32-bit int |
| TaskListing.PrevPage | src/main/java/it/sevenbits/todolist/core/repository/DatabaseTasksRepository.java:121 | for pages from 1 up, prev stays between 1 and the page; any page other than 1 gives page - 1 |
| TaskListing.NextPage | src/main/java/it/sevenbits/todolist/core/repository/DatabaseTasksRepository.java:122 | with exactly one page, next is 1; otherwise it is page + 1, which lies past the last page from the last page on |
| TaskListing.DirectionOf | src/main/java/it/sevenbits/todolist/core/repository/DatabaseTasksRepository.java:161 | "asc" sorts ascending, "desc" descending, and any other order has no direction |
| TaskListing.CountWithStatus | src/main/java/it/sevenbits/todolist/core/repository/DatabaseTasksRepository.java:250-256 | the count never exceeds the number of rows |
| TaskListing.WithStatus | src/main/java/it/sevenbits/todolist/core/repository/DatabaseTasksRepository.java:160 | the filter keeps exactly the rows with that status |
| TaskListing.CountMatchesFilter | src/main/java/it/sevenbits/todolist/core/repository/DatabaseTasksRepository.java:250-256 | COUNT(*) with the status equals the number of rows the listing query filters |
| TaskListing.Insert | src/main/java/it/sevenbits/todolist/core/repository/DatabaseTasksRepository.java:161 | inserting a row into a sorted run keeps it sorted and adds exactly that row |
| TaskListing.SortByCreatedAt | src/main/java/it/sevenbits/todolist/core/repository/DatabaseTasksRepository.java:161 | ORDER BY createdAt yields a permutation of its input, sorted in the requested direction |
| TaskListing.Slice | src/main/java/it/sevenbits/todolist/core/repository/DatabaseTasksRepository.java:161-176 | OFFSET/LIMIT yields at most limit rows: the contiguous run after skip, or nothing past the end |
| TaskListing.MapListed | src/main/java/it/sevenbits/todolist/core/repository/DatabaseTasksRepository.java:162-173 | the row mapper maps each row in order and sets the status asked for |
| TaskListing.MapListedKeepsRows | src/main/java/it/sevenbits/todolist/core/repository/DatabaseTasksRepository.java:162-173 | on rows that already carry the status asked for, the mapper changes nothing |
| TaskListing.MetaOf | src/main/java/it/sevenbits/todolist/core/repository/DatabaseTasksRepository.java:109-155 | the `_meta` node: total, page and size as used; every link keeps the raw status, order and size; first is page 1; last is the fewest pages that hold all the tasks (0 when there are none); prev stays within 1..page; next is page + 1 before the last page |
| TaskListing.Listing | src/main/java/it/sevenbits/todolist/core/repository/DatabaseTasksRepository.java:90-184 | getAllTasks: the division by a zero size, then the refused query, then the page; ListingSucceedsIff, ListingPage and EmptyStatusListing state what it returns |
| TaskListing.SkippedStep | src/main/java/it/sevenbits/todolist/core/repository/DatabaseTasksRepository.java:107 | the offset of page p + 1 is the offset of page p plus one page size, so consecutive pages meet |
| TaskListing.ListingSucceedsIff | src/main/java/it/sevenbits/todolist/core/repository/DatabaseTasksRepository.java:95-177 | a listing succeeds exactly when size > 0, page >= 1 and the order is asc or desc; a zero size fails on the division first |
| TaskListing.ListingPage | src/main/java/it/sevenbits/todolist/core/repository/DatabaseTasksRepository.java:104-181 | a successful page holds at most size tasks, each a row with the status asked for, sorted and equal to the page's slice; `_meta` reports total, page, size and the four link pages |
| TaskListing.SliceKeepsOrder | src/main/java/it/sevenbits/todolist/core/repository/DatabaseTasksRepository.java:161 | OFFSET/LIMIT of a sorted result is sorted |
| TaskListing.EmptyStatusListing | src/main/java/it/sevenbits/todolist/core/repository/DatabaseTasksRepository.java:104-177 | with no row of that status, the page is empty, total is 0, the last link points to page 0 and the next link one page ahead |
| TaskListing.PagesUpToPrefix | src/main/java/it/sevenbits/todolist/core/repository/DatabaseTasksRepository.java:105-107 | the first n pages together are the first n * size rows |
| TaskListing.PagesCoverAll | src/main/java/it/sevenbits/todolist/core/repository/DatabaseTasksRepository.java:105-107 | pages 1 to the page count together list every row exactly once, in order |
| DatabaseTasksRepository.FindRow | src/main/java/it/sevenbits/todolist/core/repository/DatabaseTasksRepository.java:195 | WHERE id = ? finds a row exactly when one has that id, and with distinct ids it is that row |
| DatabaseTasksRepository.ReadById | src/main/java/it/sevenbits/todolist/core/repository/DatabaseTasksRepository.java:193-208 | corrected (mapper in constructor order): the lookup fails with "no result" exactly when the id is absent, and otherwise returns the row with that id |
| DatabaseTasksRepository.ReadByIdAsWritten | src/main/java/it/sevenbits/todolist/core/repository/DatabaseTasksRepository.java:193-208 | getTaskByID as written: fails with the empty-result error exactly for an unknown id; otherwise it returns that id with text and status swapped relative to a stored row |
| DatabaseTasksRepository.WithoutId | src/main/java/it/sevenbits/todolist/core/repository/DatabaseTasksRepository.java:219 | DELETE keeps exactly the rows with other ids and never grows the table |
| DatabaseTasksRepository.SetFields | src/main/java/it/sevenbits/todolist/core/repository/DatabaseTasksRepository.java:240-245 | UPDATE sets text, status and updatedAt of the rows with that id, keeping id and createdAt; other rows are unchanged |
| DatabaseTasksRepository.WithoutIdKeepsOthers | src/main/java/it/sevenbits/todolist/core/repository/DatabaseTasksRepository.java:217-222 | a delete keeps ids distinct, removes one row when the id is present, and changes nothing otherwise |
| DatabaseTasksRepository.AddThenRead | src/main/java/it/sevenbits/todolist/core/repository/DatabaseTasksRepository.java:58-82 | corrected: after an insert under a fresh id, that id reads back the inserted task through the corrected reader, and other ids read as before |
| DatabaseTasksRepository.AddThenReadAsWritten | src/main/java/it/sevenbits/todolist/core/repository/DatabaseTasksRepository.java:201-205 | with the row mapper as written, a new task reads back with text "inbox" and its text as the status |
| DatabaseTasksRepository.UpdateThenRead | src/main/java/it/sevenbits/todolist/core/repository/DatabaseTasksRepository.java:233-248 | corrected: after an update, the id reads back through the corrected reader the new text, status and updatedAt with the old createdAt; other ids are unchanged; an absent id changes nothing |
| DatabaseTasksRepository.DeleteThenRead | src/main/java/it/sevenbits/todolist/core/repository/DatabaseTasksRepository.java:217-222 | after a delete, the id no longer reads and other ids read as before |
| DatabaseTasksRepository.CopyListed | src/main/java/it/sevenbits/todolist/core/repository/DatabaseTasksRepository.java:179-181 | the loop adds every task of the page, in query order, each as the row mapper built it |
| DatabaseTasksRepository.DatabaseTasksRepository.constructor | src/main/java/it/sevenbits/todolist/core/repository/DatabaseTasksRepository.java:39-49 | a new store has an empty table |
| DatabaseTasksRepository.DatabaseTasksRepository.AddTask | src/main/java/it/sevenbits/todolist/core/repository/DatabaseTasksRepository.java:58-82 | appends one row with status inbox and both timestamps now, returns it, and keeps ids distinct |
| DatabaseTasksRepository.DatabaseTasksRepository.TotalTaskCount | src/main/java/it/sevenbits/todolist/core/repository/DatabaseTasksRepository.java:250-256 | the count is the number of rows with that status |
| DatabaseTasksRepository.DatabaseTasksRepository.GetAllTasks | src/main/java/it/sevenbits/todolist/core/repository/DatabaseTasksRepository.java:90-184 | returns exactly the listing of the current table: the failure for a bad size, page or order, otherwise the page of rows with its `_meta` |
| DatabaseTasksRepository.DatabaseTasksRepository.GetTaskByID | src/main/java/it/sevenbits/todolist/core/repository/DatabaseTasksRepository.java:193-208 | corrected (mapper in constructor order): returns the row with that id, or fails with "no result" |
| DatabaseTasksRepository.DatabaseTasksRepository.DeleteTask | src/main/java/it/sevenbits/todolist/core/repository/DatabaseTasksRepository.java:217-222 | reads first, so an absent id fails and changes nothing; otherwise removes exactly that row and returns it |
| DatabaseTasksRepository.DatabaseTasksRepository.UpdateTask | src/main/java/it/sevenbits/todolist/core/repository/DatabaseTasksRepository.java:233-248 | sets text, status and updatedAt of the row with that id, keeps every id and createdAt, and returns its argument |
| HashMapTasksRepository.HashMapTasksRepository.constructor | src/main/java/it/sevenbits/todolist/core/repository/HashMapTasksRepository.java:25-27 | a new store is empty |
| HashMapTasksRepository.HashMapTasksRepository.AddTask | src/main/java/it/sevenbits/todolist/core/repository/HashMapTasksRepository.java:36-53 | binds the id to a task with status inbox, createdAt now and updatedAt "-----"; a fresh id grows the map by one |
| HashMapTasksRepository.HashMapTasksRepository.GetAllTasks | src/main/java/it/sevenbits/todolist/core/repository/HashMapTasksRepository.java:60-65 | always returns null |
| HashMapTasksRepository.HashMapTasksRepository.GetTaskByID | src/main/java/it/sevenbits/todolist/core/repository/HashMapTasksRepository.java:74-76 | returns a task exactly when the id is bound, and then the bound task |
| HashMapTasksRepository.HashMapTasksRepository.DeleteTask | src/main/java/it/sevenbits/todolist/core/repository/HashMapTasksRepository.java:85-87 | removes the binding, returns the previous value or null, and shrinks the map by one exactly when the id was bound |
| HashMapTasksRepository.HashMapTasksRepository.UpdateTask | src/main/java/it/sevenbits/todolist/core/repository/HashMapTasksRepository.java:98-100 | replaces only an existing binding, returns the previous value or null, and never changes the key set |
| HashMapTasksRepository.AddGetDelete | src/main/java/it/sevenbits/todolist/core/repository/HashMapTasksRepository.java:36-87 | add under a fresh id, then get, then delete: the get and the delete return the added task, a second get returns null, and the map is as before |
| TasksRepository.TasksRepository.constructor | src/main/java/it/sevenbits/todolist/core/repository/TasksRepository.java:24-26 | a new store is empty |
| TasksRepository.TasksRepository.AddTask | src/main/java/it/sevenbits/todolist/core/repository/TasksRepository.java:35-50 | binds the id to a task with status inbox, createdAt now and no updatedAt, and returns the id |
| TasksRepository.TasksRepository.GetAllTasks | src/main/java/it/sevenbits/todolist/core/repository/TasksRepository.java:57-59 | returns each bound task exactly once, one per key, in some key order |
| TasksRepository.TasksRepository.GetTaskByID | src/main/java/it/sevenbits/todolist/core/repository/TasksRepository.java:68-70 | returns a task exactly when the id is bound, and then the bound task |
| TasksRepository.TasksRepository.DeleteTask | src/main/java/it/sevenbits/todolist/core/repository/TasksRepository.java:79-81 | removes the binding, returns the previous value or null, and shrinks the map by one exactly when the id was bound |
| TasksRepository.TasksRepository.UpdateTask | src/main/java/it/sevenbits/todolist/core/repository/TasksRepository.java:92-94 | replaces only an existing binding, returns the previous value or null, and never changes the key set |
| TasksController.HttpStatus | src/main/java/it/sevenbits/todolist/web/exceptions/handler/RestResponseEntityExceptionHandler.java:26-66 | malformed requests map to 400, a bad or unknown id to 404, and store exceptions (no handler) to 500 |
| TasksController.ListQueryCheck | src/main/java/it/sevenbits/todolist/web/controllers/TasksController.java:78-88 | a query passes exactly when status and order are absent or in the store's lists and the size is absent or within 10..50 |
| TasksController.ListQueryErrors | src/main/java/it/sevenbits/todolist/web/controllers/TasksController.java:80-88 | a bad status is reported before a bad order, and a bad order before a bad size; the size error arises exactly when only the size is wrong |
| TasksController.DefaultsAreAccepted | src/main/java/it/sevenbits/todolist/web/controllers/TasksController.java:80-85 | the two checks accept exactly the store's status and order lists, and the store's defaults pass |
| TasksController.ListResponse | src/main/java/it/sevenbits/todolist/web/controllers/TasksController.java:72-99 | a failed check is answered with its error; a success is the store's listing of the raw parameters |
| TasksController.AcceptedQueryLists | src/main/java/it/sevenbits/todolist/web/controllers/TasksController.java:72-99 | after the checks pass, the defaulted status and order are valid, and the listing succeeds exactly when the page is absent or at least 1; an unchecked page below 1 ends in a store error |
| TasksController.AsNullableAsWritten | src/main/java/it/sevenbits/todolist/web/controllers/TasksController.java:139 | as written, the JDBC lookup hands the controller either a task or the store's exception, never null |
| TasksController.AsNullable | src/main/java/it/sevenbits/todolist/web/controllers/TasksController.java:139-142 | the corrected lookup answers "no row" with null and passes every other exception on |
| TasksController.RequireFound | src/main/java/it/sevenbits/todolist/web/controllers/TasksController.java:140-142 | the null check yields TaskNotFound exactly for null, passes exceptions through, and returns a task otherwise |
| TasksController.MapStoreMissingIsNotFound | src/main/java/it/sevenbits/todolist/web/controllers/TasksController.java:139-142 | with a map store, an unknown id gives TaskNotFound and a known one its task |
| TasksController.LookupAsWritten | src/main/java/it/sevenbits/todolist/web/controllers/TasksController.java:134-148 | as written, an unknown well-formed id ends in the store's exception and never in TaskNotFound; a found task comes back with text and status swapped, through the row mapper as written |
| TasksController.UnknownIdIsServerError | src/main/java/it/sevenbits/todolist/web/controllers/TasksController.java:139-142 | as written, an unknown well-formed id is answered with 500 |
| TasksController.Lookup | src/main/java/it/sevenbits/todolist/web/controllers/TasksController.java:134-148 | corrected ("no row" answered by null): InvalidTaskID exactly for a malformed id, TaskNotFound exactly for an unknown one, otherwise the task with that id |
| TasksController.UnknownIdIsNotFound | src/main/java/it/sevenbits/todolist/web/controllers/TasksController.java:134-142 | corrected, a lookup never ends in a server error and an unknown id gets 404 |
| TasksController.DeleteCheckAsWritten | src/main/java/it/sevenbits/todolist/web/controllers/TasksController.java:160-167 | as written, the checks before the DELETE pass exactly for a known well-formed id, and an unknown one ends in the store's exception |
| TasksController.DeleteUnknownIdIsServerError | src/main/java/it/sevenbits/todolist/web/controllers/TasksController.java:164-166 | as written, deleting an unknown well-formed id is answered with 500 |
| TasksController.DeleteCheck | src/main/java/it/sevenbits/todolist/web/controllers/TasksController.java:160-167 | corrected: InvalidTaskID for a malformed id, TaskNotFound (404) for an unknown one, otherwise pass |
| TasksController.UpdateCheck | src/main/java/it/sevenbits/todolist/web/controllers/TasksController.java:190-202 | a PATCH passes exactly when the id is well formed, any status is inbox or done, and any text is not empty; a bad id is reported first, then a bad status, then an empty text; the errors map to 404 or 400 |
| TasksController.MergeUpdate | src/main/java/it/sevenbits/todolist/web/controllers/TasksController.java:208-217 | the merged task: supplied text and status replace the stored ones, omitted ones and both timestamps are kept, and a request with neither gives back the stored task |
| TasksController.PatchedRowsAsWritten | src/main/java/it/sevenbits/todolist/web/controllers/TasksController.java:188-217 | PATCH as written, with the swapped mapper and the throwing lookup: never TaskNotFound |
| TasksController.PatchedRows | src/main/java/it/sevenbits/todolist/web/controllers/TasksController.java:188-217 | corrected PATCH: a failure is never a store error |
| TasksController.PatchUnknownIdIsServerError | src/main/java/it/sevenbits/todolist/web/controllers/TasksController.java:204-206 | as written, a well-formed PATCH of an unknown id ends in the store's exception and 500 |
| TasksController.PatchErrors | src/main/java/it/sevenbits/todolist/web/controllers/TasksController.java:188-217 | corrected: a PATCH fails with the first failed check, then with TaskNotFound for an unknown id, and succeeds exactly otherwise |
| TasksController.PatchKeepsOmittedFields | src/main/java/it/sevenbits/todolist/web/controllers/TasksController.java:204-217 | a PATCH changes only what it supplies: the row gets the given text and status, the stored ones where omitted, and a new updatedAt, keeps id and createdAt, and leaves other rows unchanged |
| TasksController.PatchAsWrittenLosesText | src/main/java/it/sevenbits/todolist/web/controllers/TasksController.java:208-217 | with the lookup as written, a PATCH without text stores the old status as the text, and without status also the old text as the status |
| TasksController.MarkDoneAsWritten | src/main/java/it/sevenbits/todolist/web/controllers/TasksController.java:208-217 | as written, PATCH {"status": "done"} on the task "buy milk" stores the text "inbox" |
| TasksController.TasksController.constructor | src/main/java/it/sevenbits/todolist/web/controllers/TasksController.java:51-59 | the controller acts on the JDBC store it is given |
| TasksController.TasksController.GetAllTasks | src/main/java/it/sevenbits/todolist/web/controllers/TasksController.java:72-99 | runs the checks, then answers with the store's listing of the raw parameters |
| TasksController.TasksController.CreateTask | src/main/java/it/sevenbits/todolist/web/controllers/TasksController.java:112-123 | adds the task, answers with location "/tasks/" + id, and the new id reads back the added task through the corrected reader |
| TasksController.TasksController.GetTaskByID | src/main/java/it/sevenbits/todolist/web/controllers/TasksController.java:134-148 | corrected: answers as Lookup on the current table |
| TasksController.TasksController.DeleteTaskByID | src/main/java/it/sevenbits/todolist/web/controllers/TasksController.java:159-173 | corrected: answers as DeleteCheck; deletes only when it passes, and then exactly that row goes; otherwise the table is unchanged |
| TasksController.TasksController.UpdateTask | src/main/java/it/sevenbits/todolist/web/controllers/TasksController.java:188-222 | corrected: the table becomes the result of PatchedRows, or stays unchanged with its error |

## Left out

- SQL text, JDBC and Jackson JSON are not modelled. Each query is a function on `rows`, and a page is the `TaskPage` value, not a JSON tree.
- Link URIs are not modelled. `PageLink` keeps the raw status, order and size with the page number. It does not model the rendering of null query parameters.
- The clock, the date format and `UUID.randomUUID()` are parameters. The JDBC store's `AddTask` requires a fresh id, which a random UUID gives in practice.
- The database's string collation for `createdAt` is the parameter `rank`.
- The order of rows with equal `createdAt` is not stated by any contract. The database promises none, and the model's sort only promises a sorted permutation.
- Order spellings other than "asc" and "desc" can only reach the store when it is called directly. The model answers them with a storage error, because the database's acceptance of other ORDER BY spellings is not modelled.
- Text stored as null is not modelled. Because `AddTaskRequest` has no constraint annotations, a POST without `text` reaches the store. The model's text is always a string.
- Spring wiring, the constraint-annotation adapters, the bean configuration and the exception handler's response bodies are not modelled. Only the handler's status codes are.
- Concurrency and transactions are not modelled. Each store operation is one atomic step.
- DatabaseTasksRepository.DatabaseTasksRepository.GetTaskByID: reads with the corrected row mapper. The mapper as written is `ReadByIdAsWritten` (see Findings).
- TasksController.TasksController.GetTaskByID: an unknown well-formed id gets TaskNotFound (404) through the corrected lookup, and a found task is read with the corrected row mapper; the code as written answers 500 and swaps text and status (see Findings).
- TasksController.TasksController.DeleteTaskByID: an unknown well-formed id gets TaskNotFound (404) through the corrected lookup, where the code as written answers 500 (see Findings).
- TasksController.TasksController.UpdateTask: an unknown well-formed id gets TaskNotFound (404) through the corrected lookup, where the code as written answers 500, and omitted fields are read with the corrected mapper (see Findings).
- TasksController.TasksController.UpdateTask: the source calls getTaskByID once for the existence check and four more times for the merge. The model reads once, because nothing is written in between.
- DatabaseTasksRepository.DatabaseTasksRepository.DeleteTask: returns the task read with the corrected row mapper (see Findings). The controller ignores this value.
- The 32-bit arithmetic of the listing is not wrapped, because every product of two 16-bit values fits in 32 bits. `TaskListing.Skipped` proves this range.

## Findings

| source | as written | input that shows it | evidently intended | confidence | as-written member | corrected member |
|---|---|---|---|---|---|---|
| src/main/java/it/sevenbits/todolist/core/repository/DatabaseTasksRepository.java:201-205 | the getTaskByID row mapper passes the status column as the text and the text column as the status | add "buy milk", then GET its id: text "inbox", status "buy milk" | constructor order: id, text, status | high, not executed | DatabaseTasksRepository.AddThenReadAsWritten | DatabaseTasksRepository.AddThenRead |
| src/main/java/it/sevenbits/todolist/web/controllers/TasksController.java:208-217 | the PATCH merge reads the stored fields through that mapper, so the fields the request omits are taken swapped | PATCH {"status": "done"} on "buy milk": the stored text becomes "inbox" | omitted fields keep their stored values | high, not executed | TasksController.PatchAsWrittenLosesText | TasksController.PatchKeepsOmittedFields |
| src/main/java/it/sevenbits/todolist/web/controllers/TasksController.java:139-142 | the JDBC store's queryForObject throws for an unknown id, so the null check never fires and the unhandled exception becomes 500 | GET /tasks/00000000-0000-0000-0000-000000000000 on an empty table | 404 through TaskNotFound, as with the map stores | medium, not executed | TasksController.UnknownIdIsServerError | TasksController.UnknownIdIsNotFound |
| src/main/java/it/sevenbits/todolist/web/controllers/TasksController.java:164-166 | deleteTaskByID runs the same lookup, so an unknown id throws before the null check and becomes 500 | DELETE /tasks/00000000-0000-0000-0000-000000000000 on an empty table | 404 through TaskNotFound | medium, not executed | TasksController.DeleteUnknownIdIsServerError | TasksController.DeleteCheck |
| src/main/java/it/sevenbits/todolist/web/controllers/TasksController.java:204-206 | updateTask's existence check runs the same lookup, so an unknown id throws and becomes 500 | PATCH /tasks/00000000-0000-0000-0000-000000000000 {"status": "done"} on an empty table | 404 through TaskNotFound | medium, not executed | TasksController.PatchUnknownIdIsServerError | TasksController.PatchErrors |
