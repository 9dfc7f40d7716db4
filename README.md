# Todo backend: a verified model

This project models the Spring Boot backend of a todo-list application. The backend keeps a single PostgreSQL table of todos. It has four parts:

- **Repository** (`repository.dfy`): the table, the repository's finders and counts, and the writes it inherits from `JpaRepository` (`save`, `deleteById`) plus its bulk `deleteOldCompletedTodos`.
  - The table is the class `TodoRepository`. It holds a map from id to row and the order in which a query without ORDER BY returns the rows.
  - Every finder and count is a filter or a count over those rows.
- **Service** (`service.dfy`): `TodoServiceImpl` validates and defaults new todos, and applies partial updates. It also handles deletes, completion flags, search, the week window, statistics and cleanup.
- **Controller** (`controller.dfy`): turns each service outcome into an HTTP status and body, parses the sort direction, and supplies request defaults.
- **Metrics** (`metrics.dfy`): `TodoMetrics`, six monotone counters and two `AtomicInteger` gauges.

Shared pieces:

- `entity.dfy`: the `Todo` row, request bodies, failures and time.
- `text.dfy`: Java's `String.trim`, case-insensitive comparison, substring search.
- `seqs.dfy`: filter, count and `Stream.distinct` over sequences.

Conventions of the model:

- **Time.** A time is an integer number of seconds on a local time line. "Now" is a parameter of every operation that reads the clock. A calendar date is the time divided by 86400, rounded down, so `DATE(x)`, `toLocalDate()` and `atStartOfDay()` are integer division.
- **Failures.** An exception thrown by the service becomes a `Result` error:
  - `IllegalArgument` is the `IllegalArgumentException` for a blank title;
  - `NotFound(id)` is the `RuntimeException` for a missing id.
- **Row order.** Ids come from a sequence and only grow. Rows without ORDER BY are taken to come back in id order, which is insertion order.
- **The `Todo` entity is not part of this model.** Its behaviour is taken as follows:
  - insertion assigns the next id and sets `createdAt` and `updatedAt` to now;
  - a save that changes a row sets `updatedAt` to now (`Repository.Touched`);
  - a save that changes nothing leaves the row untouched;
  - two rows are equal when all their fields are;
  - priorities are `LOW`, `MEDIUM`, `HIGH` and `URGENT`.
- **NULLs.** A comparison with a NULL due date is never true in a WHERE clause. `ORDER BY dueDate ASC` puts NULL due dates last, as PostgreSQL does.

## Model

| member | source | states |
|---|---|---|
| `Entity.StartOfDay` | src/backend/src/main/java/com/todoapp/service/impl/TodoServiceImpl.java:164 | midnight of a time's date: at or before it, less than a day before, on the same date, a whole number of days |
| `Text.Trim` | src/backend/src/main/java/com/todoapp/service/impl/TodoServiceImpl.java:137 | `String.trim` yields the slice of the input that starts after its leading chars at or below U+0020 (see `LeadingTrimmable`); every char after the slice is at or below U+0020; the result neither starts nor ends with such a char |
| `Text.BlankIffAllTrimmable` | src/backend/src/main/java/com/todoapp/service/impl/TodoServiceImpl.java:36 | `trim().isEmpty()` holds exactly when every char is at or below U+0020 |
| `Text.IsBlank` | src/backend/src/main/java/com/todoapp/service/impl/TodoServiceImpl.java:36 | a present title or search term is blank exactly when every char is at or below U+0020 |
| `Text.EqualsIgnoreCase` | src/backend/src/main/java/com/todoapp/controller/TodoController.java:55 | `equalsIgnoreCase` holds exactly when the lengths agree and each pair of chars agrees once upper-cased |
| `Text.ContainsIgnoreCase` | src/backend/src/main/java/com/todoapp/repository/TodoRepository.java:38 | `upper(x) LIKE upper('%term%')` holds exactly when the upper-cased term is a slice of the upper-cased text |
| `Text.ContainsIffSlice` | src/backend/src/main/java/com/todoapp/repository/TodoRepository.java:38 | the containment test holds exactly when some slice of the text equals the searched string |
| `Text.FoldsTo` | src/backend/src/main/java/com/todoapp/controller/TodoController.java:55 | an upper-case letter is the fold of itself and its lower-case form, and of nothing else |
| `Seqs.Distinct` | src/backend/src/main/java/com/todoapp/service/impl/TodoServiceImpl.java:143-145 | `distinct()` yields no duplicates and exactly the elements of its input |
| `Seqs.DistinctAppend` | src/backend/src/main/java/com/todoapp/service/impl/TodoServiceImpl.java:142-145 | deduplicating a + b, each already duplicate-free, keeps a whole, followed by the elements of b not in a, in order |
| `Repository.FindByCompleted` | src/backend/src/main/java/com/todoapp/repository/TodoRepository.java:23 | exactly the rows with the given completion flag |
| `Repository.FindByPriority` | src/backend/src/main/java/com/todoapp/repository/TodoRepository.java:33 | exactly the rows with the given priority |
| `Repository.FindByTitleContainingIgnoreCase` | src/backend/src/main/java/com/todoapp/repository/TodoRepository.java:38 | exactly the rows whose case-folded title contains the case-folded text |
| `Repository.FindByDescriptionContainingIgnoreCase` | src/backend/src/main/java/com/todoapp/repository/TodoRepository.java:43 | exactly the rows with a description whose case-folded form contains the case-folded text; a null description never matches |
| `Repository.FindOverdueTodos` | src/backend/src/main/java/com/todoapp/repository/TodoRepository.java:48-49 | exactly the incomplete rows with a due date strictly before now; undated rows never |
| `Repository.FindTodosDueToday` | src/backend/src/main/java/com/todoapp/repository/TodoRepository.java:54-55 | exactly the incomplete rows due from today's midnight (inclusive) up to the next midnight (exclusive) |
| `Repository.DueOnIffWithinDay` | src/backend/src/main/java/com/todoapp/repository/TodoRepository.java:54 | "same DATE as today" is the same test as "within today's midnight-to-midnight interval" |
| `Repository.SameDateIffSameDay` | src/backend/src/main/java/com/todoapp/repository/TodoRepository.java:54 | two times share a date exactly when one lies in the day that starts at the other's midnight |
| `Repository.FindTodosDueThisWeek` | src/backend/src/main/java/com/todoapp/repository/TodoRepository.java:60-62 | exactly the incomplete rows with start <= dueDate <= end, both ends included |
| `Repository.CountByCompleted` | src/backend/src/main/java/com/todoapp/repository/TodoRepository.java:67 | the count equals the length of what `findByCompleted` returns, and never exceeds the number of rows |
| `Repository.CountByPriority` | src/backend/src/main/java/com/todoapp/repository/TodoRepository.java:72 | the count equals the length of what `findByPriority` returns |
| `Repository.CompletedAndIncompleteAddUp` | src/backend/src/main/java/com/todoapp/repository/TodoRepository.java:23 | `countByCompleted(true) + countByCompleted(false)` is the number of rows |
| `Repository.FindRecentlyCompletedTodos` | src/backend/src/main/java/com/todoapp/repository/TodoRepository.java:77-78 | exactly the completed rows CREATED at or after since; the completion time plays no part |
| `Repository.InsertByDueDateSorted` | src/backend/src/main/java/com/todoapp/repository/TodoRepository.java:83 | inserting into a list ordered by due date, NULLs last, keeps it ordered and adds exactly that row |
| `Repository.InsertByDueDatePermutes` | src/backend/src/main/java/com/todoapp/repository/TodoRepository.java:83 | the insertion step adds exactly the inserted row and loses none |
| `Repository.SortByDueDate` | src/backend/src/main/java/com/todoapp/repository/TodoRepository.java:83 | `ORDER BY dueDate ASC`: the result is ordered, NULLs last, and is a permutation of the input |
| `Repository.FindHighPriorityIncompleteTodos` | src/backend/src/main/java/com/todoapp/repository/TodoRepository.java:83-84 | exactly the incomplete HIGH and URGENT rows, each as often as in the table, ordered by due date with undated rows last |
| `Repository.Touched` | src/backend/src/main/java/com/todoapp/service/impl/TodoServiceImpl.java:86 | a save stores the new row; only `updatedAt` may differ from it, and that only when the row changed, to now |
| `Repository.TodoRepository.FindAll` | src/backend/src/main/java/com/todoapp/service/impl/TodoServiceImpl.java:57 | every row of the table exactly once, and nothing else |
| `Repository.TodoRepository.FindById` | src/backend/src/main/java/com/todoapp/service/impl/TodoServiceImpl.java:63 | present exactly when the id is in the table, and then the row with that id |
| `Repository.TodoRepository.ExistsById` | src/backend/src/main/java/com/todoapp/service/impl/TodoServiceImpl.java:92 | holds exactly when `findById` finds a row |
| `Repository.TodoRepository.Count` | src/backend/src/main/java/com/todoapp/service/impl/TodoServiceImpl.java:179 | the number of rows `findAll` returns |
| `Repository.TodoRepository.Insert` | src/backend/src/main/java/com/todoapp/service/impl/TodoServiceImpl.java:45 | the row gets an id not yet in the table and both timestamps set to now; it is the only row added, and comes last in `findAll` |
| `Repository.TodoRepository.Save` | src/backend/src/main/java/com/todoapp/service/impl/TodoServiceImpl.java:86 | overwrites the row with that id (see `Touched`); no other row and no row order changes |
| `Repository.TodoRepository.DeleteById` | src/backend/src/main/java/com/todoapp/service/impl/TodoServiceImpl.java:95 | removes exactly that id; `findAll` afterwards is the old list without that row, in the same order |
| `Repository.TodoRepository.DeleteOldCompletedTodos` | src/backend/src/main/java/com/todoapp/repository/TodoRepository.java:89-90 | removes exactly the completed rows updated before the cutoff; every other row stays unchanged and in order |
| `Repository.Surviving` | src/backend/src/main/java/com/todoapp/repository/TodoRepository.java:89-90 | a row survives exactly when it is incomplete or was updated at or after the cutoff, and it survives unchanged |
| `Repository.SurvivingRows` | src/backend/src/main/java/com/todoapp/repository/TodoRepository.java:89-90 | the surviving rows, in row order, are the old rows filtered by the delete's condition |
| `Repository.InsertRow` | src/backend/src/main/java/com/todoapp/service/impl/TodoServiceImpl.java:45 | adding a row under the next id keeps the table well formed and appends exactly that row to the rows in order |
| `Repository.DeleteRow` | src/backend/src/main/java/com/todoapp/service/impl/TodoServiceImpl.java:95 | removing one id keeps the table well formed and leaves the old rows without that one, in order |
| `Repository.CountAfterOverwrite` | src/backend/src/main/java/com/todoapp/service/impl/TodoServiceImpl.java:86 | overwriting a row with one that agrees on a condition leaves the count of that condition unchanged |
| `Service.Patched` | src/backend/src/main/java/com/todoapp/service/impl/TodoServiceImpl.java:72-84 | each of title, description, due date and priority is taken from the request when it is non-null and kept otherwise; id, completion flag and timestamps are kept |
| `Service.EmptyPatchKeepsRow` | src/backend/src/main/java/com/todoapp/service/impl/TodoServiceImpl.java:73-84 | a request with every field null changes nothing |
| `Service.PatchIdempotent` | src/backend/src/main/java/com/todoapp/service/impl/TodoServiceImpl.java:73-84 | applying the same update twice is applying it once |
| `Service.Marked` | src/backend/src/main/java/com/todoapp/service/impl/TodoServiceImpl.java:104-105 | the stored row has the requested flag and every other field as before, except that `updatedAt` becomes now when the flag changed |
| `Service.MarkedIdempotent` | src/backend/src/main/java/com/todoapp/service/impl/TodoServiceImpl.java:100-116 | marking a todo again, at any later time, stores the same row |
| `Service.Cutoff` | src/backend/src/main/java/com/todoapp/service/impl/TodoServiceImpl.java:192 | the cutoff lies exactly daysToKeep days before now, so its date is daysToKeep dates earlier |
| `Service.CleanupKeepsIncomplete` | src/backend/src/main/java/com/todoapp/service/impl/TodoServiceImpl.java:193 | cleanup never removes an incomplete todo: the incomplete rows before and after are the same list |
| `Service.CleanupIdempotent` | src/backend/src/main/java/com/todoapp/service/impl/TodoServiceImpl.java:193 | a second cleanup with the same cutoff removes nothing |
| `Service.WeekDates` | src/backend/src/main/java/com/todoapp/service/impl/TodoServiceImpl.java:163-165 | every time in the week window falls on today's date or one of the seven following dates |
| `Service.HighPriorityIncompleteSize` | src/backend/src/main/java/com/todoapp/repository/TodoRepository.java:83-84 | the ordered high-priority list is as long as the number of matching rows |
| `Service.TodoServiceImpl.CreateTodo` | src/backend/src/main/java/com/todoapp/service/impl/TodoServiceImpl.java:34-46 | fails with IllegalArgument exactly when the title is null or blank, and then the table is unchanged; otherwise stores the todo as given, MEDIUM when it has no priority, under a fresh id, as the only new row |
| `Service.TodoServiceImpl.UpdateTodo` | src/backend/src/main/java/com/todoapp/service/impl/TodoServiceImpl.java:68-87 | a missing id fails with NotFound and changes nothing; otherwise only that row changes, to the patched row; its completion flag is unchanged, and so are both completion counts |
| `Service.TodoServiceImpl.DeleteTodo` | src/backend/src/main/java/com/todoapp/service/impl/TodoServiceImpl.java:91-96 | a missing id fails with NotFound and changes nothing; otherwise exactly that row goes and the others stay in order |
| `Service.TodoServiceImpl.MarkAsCompleted` | src/backend/src/main/java/com/todoapp/service/impl/TodoServiceImpl.java:100-106 | a missing id fails with NotFound and changes nothing; otherwise only that row changes, to `Marked(row, true, now)` |
| `Service.TodoServiceImpl.MarkAsIncomplete` | src/backend/src/main/java/com/todoapp/service/impl/TodoServiceImpl.java:110-116 | a missing id fails with NotFound and changes nothing; otherwise only that row changes, to `Marked(row, false, now)` |
| `Service.TodoServiceImpl.SearchTodos` | src/backend/src/main/java/com/todoapp/service/impl/TodoServiceImpl.java:132-146 | a null or blank term returns every todo; otherwise the title matches of the trimmed term, then the rows matching by description only; no duplicates; a row is in the result exactly when its title or description matches |
| `Service.TodoServiceImpl.GetTodosDueThisWeek` | src/backend/src/main/java/com/todoapp/service/impl/TodoServiceImpl.java:162-168 | exactly the incomplete todos due from today's midnight through the midnight seven days later, both included; each falls on one of those eight dates |
| `Service.TodoServiceImpl.GetTodoStatistics` | src/backend/src/main/java/com/todoapp/service/impl/TodoServiceImpl.java:178-187 | total is the number of rows; completed + incomplete = total; overdue is the number of overdue todos and at most incomplete; high priority counts HIGH or URGENT rows, completed ones included, so it is at least the high-priority incomplete list |
| `Service.TodoServiceImpl.CleanupOldCompletedTodos` | src/backend/src/main/java/com/todoapp/service/impl/TodoServiceImpl.java:191-194 | the table afterwards is exactly the rows that survive the cutoff now minus daysToKeep days, in order |
| `Controller.Code` | src/backend/src/main/java/com/todoapp/controller/TodoController.java:39 | the 2xx codes are exactly those of 200, 201 and 204 |
| `Controller.CreatedOrBadRequest` | src/backend/src/main/java/com/todoapp/controller/TodoController.java:36-42 | 201 with the created todo on success, 400 with no body for IllegalArgument; any other failure is not caught |
| `Controller.FoundOrNotFound` | src/backend/src/main/java/com/todoapp/controller/TodoController.java:77-81 | 200 with the todo when present, 404 with no body when absent |
| `Controller.OkOrNotFound` | src/backend/src/main/java/com/todoapp/controller/TodoController.java:86-94 | 200 with the result on success; every failure becomes 404 with no body |
| `Controller.NoContentOrNotFound` | src/backend/src/main/java/com/todoapp/controller/TodoController.java:99-107 | 204 on success, 404 on any failure, never a body |
| `Controller.DescLetters` | src/backend/src/main/java/com/todoapp/controller/TodoController.java:55 | `equalsIgnoreCase("desc")` holds exactly for the four-letter spellings of desc in any letter case |
| `Controller.SortDirection` | src/backend/src/main/java/com/todoapp/controller/TodoController.java:55-56 | descending exactly for "desc" in any letter case, ascending for anything else |
| `Controller.SortDirectionExamples` | src/backend/src/main/java/com/todoapp/controller/TodoController.java:55-56 | "desc", "DESC" and "DeSc" sort descending; "asc", "", "descending" and "des" sort ascending |
| `Controller.PageQueryOf` | src/backend/src/main/java/com/todoapp/controller/TodoController.java:49-58 | a page, size or sortBy that is absent or empty becomes 0, 10 or "id"; an absent or empty direction sorts descending; any other direction sorts descending exactly when it equals "desc" ignoring case |
| `Controller.StringParam` | src/backend/src/main/java/com/todoapp/controller/TodoController.java:52-53 | a string parameter with a default takes the default exactly when it is absent or empty, and its own value otherwise |
| `Controller.EmptyParamsDefault` | src/backend/src/main/java/com/todoapp/controller/TodoController.java:52-53 | `?sortBy=&sortDir=` asks for the order by id, descending |
| `Controller.DefaultPageQuery` | src/backend/src/main/java/com/todoapp/controller/TodoController.java:50-53 | with no parameters: page 0, size 10, by id, descending |
| `Controller.TodoController.CreateTodo` | src/backend/src/main/java/com/todoapp/controller/TodoController.java:36-43 | always answers; 400 with no body exactly when the title is missing or blank, with the table unchanged; otherwise 201 with the stored todo: the draft's fields, MEDIUM when no priority was given, both timestamps now, a fresh id, appended to `findAll` |
| `Controller.TodoController.GetTodoById` | src/backend/src/main/java/com/todoapp/controller/TodoController.java:77-81 | 200 with the row exactly when the id is present, else 404 with no body |
| `Controller.TodoController.UpdateTodo` | src/backend/src/main/java/com/todoapp/controller/TodoController.java:86-94 | 200 exactly when the id was present, with the body the stored row with the request's non-null fields applied (see `Service.Patched`, `Repository.Touched`), stored under that id, completion flag unchanged; else 404 with nothing changed |
| `Controller.TodoController.DeleteTodo` | src/backend/src/main/java/com/todoapp/controller/TodoController.java:99-107 | 204 exactly when the id was present, with that row removed; else 404 with nothing changed |
| `Controller.TodoController.MarkAsCompleted` | src/backend/src/main/java/com/todoapp/controller/TodoController.java:112-120 | 200 exactly when the id was present, with the completed row; else 404 with nothing changed |
| `Controller.TodoController.MarkAsIncomplete` | src/backend/src/main/java/com/todoapp/controller/TodoController.java:125-133 | 200 exactly when the id was present, with the incomplete row; else 404 with nothing changed |
| `Controller.TodoController.CleanupOldCompletedTodos` | src/backend/src/main/java/com/todoapp/controller/TodoController.java:211-214 | always 204 with no body; keeps 30 days when no daysToKeep is given |
| `Metrics.Inc` | src/backend/src/main/java/com/todoapp/metrics/TodoMetrics.java:84 | `incrementAndGet` adds one, except that Integer.MAX_VALUE goes to Integer.MIN_VALUE |
| `Metrics.Dec` | src/backend/src/main/java/com/todoapp/metrics/TodoMetrics.java:89 | `decrementAndGet` takes one away, except that Integer.MIN_VALUE goes to Integer.MAX_VALUE |
| `Metrics.Wrap` | src/backend/src/main/java/com/todoapp/metrics/TodoMetrics.java:84 | the int an exact integer wraps to: the integer itself inside the int range |
| `Metrics.WrapCongruent` | src/backend/src/main/java/com/todoapp/metrics/TodoMetrics.java:84 | the wrapped int differs from the exact value by a multiple of 2^32 |
| `Metrics.IncWraps` | src/backend/src/main/java/com/todoapp/metrics/TodoMetrics.java:84 | incrementing a wrapped value wraps the exact successor, so repeated increments agree with 32-bit arithmetic |
| `Metrics.DecWraps` | src/backend/src/main/java/com/todoapp/metrics/TodoMetrics.java:89 | decrementing a wrapped value wraps the exact predecessor |
| `Metrics.Step` | src/backend/src/main/java/com/todoapp/metrics/TodoMetrics.java:82-108 | no call lowers a counter; a setter moves only its own gauge; any other call leaves the todo gauge at the old value plus the change in created - completed - deleted, and the user gauge at the old value plus the change in sessions, each wrapped to an int |
| `Metrics.CountersNeverDecrease` | src/backend/src/main/java/com/todoapp/metrics/TodoMetrics.java:82-108 | over any sequence of calls, no counter ends lower than it started |
| `Metrics.ActiveTodosBalance` | src/backend/src/main/java/com/todoapp/metrics/TodoMetrics.java:82-95 | without `setActiveTodos`, the todo gauge's change is created - completed - deleted, wrapped to an int |
| `Metrics.ActiveUsersBalance` | src/backend/src/main/java/com/todoapp/metrics/TodoMetrics.java:101-104 | without `setActiveUsers`, the user gauge's change is the number of sessions, wrapped to an int |
| `Metrics.StepTodoGauge` | src/backend/src/main/java/com/todoapp/metrics/TodoMetrics.java:82-95 | one call other than `setActiveTodos` keeps the todo gauge equal to the wrapped exact balance |
| `Metrics.GaugesFromZero` | src/backend/src/main/java/com/todoapp/metrics/TodoMetrics.java:70-104 | from gauges at 0 and balanced counters, as at construction, and without setters, the gauges read created - completed - deleted and the number of sessions, wrapped to an int |
| `Metrics.ActiveTodosCanGoNegative` | src/backend/src/main/java/com/todoapp/metrics/TodoMetrics.java:87-90 | a completion on a fresh instance leaves the todo gauge at -1; no lower bound applies |
| `Metrics.ActiveTodosWrapsAtMax` | src/backend/src/main/java/com/todoapp/metrics/TodoMetrics.java:82-85 | one creation at Integer.MAX_VALUE wraps the todo gauge to Integer.MIN_VALUE |
| `Metrics.TodoMetrics.constructor` | src/backend/src/main/java/com/todoapp/metrics/TodoMetrics.java:28-79 | every counter and both gauges start at 0 |
| `Metrics.TodoMetrics.IncrementTodosCreated` | src/backend/src/main/java/com/todoapp/metrics/TodoMetrics.java:82-85 | created counter +1, todo gauge +1; nothing else moves |
| `Metrics.TodoMetrics.IncrementTodosCompleted` | src/backend/src/main/java/com/todoapp/metrics/TodoMetrics.java:87-90 | completed counter +1, todo gauge -1; nothing else moves |
| `Metrics.TodoMetrics.IncrementTodosDeleted` | src/backend/src/main/java/com/todoapp/metrics/TodoMetrics.java:92-95 | deleted counter +1, todo gauge -1; nothing else moves |
| `Metrics.TodoMetrics.IncrementTodosUpdated` | src/backend/src/main/java/com/todoapp/metrics/TodoMetrics.java:97-99 | updated counter +1; both gauges and every other counter unchanged |
| `Metrics.TodoMetrics.IncrementUserSessions` | src/backend/src/main/java/com/todoapp/metrics/TodoMetrics.java:101-104 | sessions counter +1 and user gauge +1, whatever the user id |
| `Metrics.TodoMetrics.IncrementFeatureUsage` | src/backend/src/main/java/com/todoapp/metrics/TodoMetrics.java:106-108 | the one shared feature counter +1, whatever the feature name |
| `Metrics.TodoMetrics.SetActiveTodos` | src/backend/src/main/java/com/todoapp/metrics/TodoMetrics.java:136-138 | the todo gauge becomes the given value; every counter and the other gauge unchanged |
| `Metrics.TodoMetrics.SetActiveUsers` | src/backend/src/main/java/com/todoapp/metrics/TodoMetrics.java:140-142 | the user gauge becomes the given value; every counter and the other gauge unchanged |

## Left out

Framework and runtime behaviour:

- Caching. `@Cacheable`/`@CacheEvict` are framework behaviour, so every read is modelled uncached. Both `getAllTodos` overloads share the cache key `'all'`, and that clash is not modelled.
- Pagination and sorting internals. The model stops at the page request `Controller.PageQueryOf` builds. `PageRequest` and `Page`, including the `IllegalArgumentException` that `PageRequest.of` raises for a negative page or a size below 1, are not modelled. The same holds for the paginated `findByCompleted` (TodoRepository.java line 28) and `getAllTodos(Pageable)`.
- The read-only pass-throughs: `getAllTodos()`, `getTodoById`, `getTodosByStatus`, `getTodosByPriority`, `getOverdueTodos`, `getTodosDueToday` and `getHighPriorityIncompleteTodos`. Each returns the result of one repository call unchanged: `getAllTodos()` is `findAll`, `getTodoById` is `findById`, and the others are the finder of the same meaning, applied to the current time where the finder takes one. Those repository members are modelled.
- The list handlers, `getTodoStatistics` and `health`. They answer 200 with what the service returns, unconditionally, so they are not modelled as separate members.
- Bean validation (`@Valid`), JSON binding and dependency injection. Any request body is taken as it arrives.
- `TodoStatistics.getCompletionRate`, because it is floating-point arithmetic.
- `TodoMetrics` timers, because they take wall-clock samples.
- Concurrency. Each operation runs alone, so the atomicity of `AtomicInteger` and the transactions are not modelled.
- Hibernate's handling of `deleteOldCompletedTodos`. The DELETE query has no `@Modifying`, and only the query's stated meaning is modelled.
- Hibernate's comparison of the enum field with the string literals `'HIGH'` and `'URGENT'` in `findHighPriorityIncompleteTodos`. The query is taken to mean what it says.
- `save` of a new entity that carries a client-supplied id. That is a JPA merge; the model always inserts a new row.

Model contracts stated weaker than the source:

- Metrics.TodoMetrics.IncrementTodosCreated: counters are Micrometer doubles, modelled as unbounded naturals; the loss of precision past 2^53 is not modelled.
- Metrics.TodoMetrics.IncrementTodosCompleted: counter modelled as an unbounded natural; the rounding of the double past 2^53 is not modelled.
- Metrics.TodoMetrics.IncrementTodosDeleted: counter modelled as an unbounded natural; the rounding of the double past 2^53 is not modelled.
- Metrics.TodoMetrics.IncrementTodosUpdated: counter modelled as an unbounded natural; the rounding of the double past 2^53 is not modelled.
- Metrics.TodoMetrics.IncrementUserSessions: counter modelled as an unbounded natural; the rounding of the double past 2^53 is not modelled.
- Metrics.TodoMetrics.IncrementFeatureUsage: counter modelled as an unbounded natural; the rounding of the double past 2^53 is not modelled.
- Repository.SortByDueDate: the contract promises order and permutation only. The order of rows with equal due dates is whatever PostgreSQL returns, and the model fixes one such order.

Text and time:

- Text.EqualsIgnoreCase: `equalsIgnoreCase` is modelled for ASCII letters only. Java also folds other characters; U+017F (long s) upper-cases to 'S', so Java takes "deſc" as descending and `Controller.SortDirection` does not.
- Text.ContainsIgnoreCase: the case-insensitive finders fold only ASCII letters. PostgreSQL's `upper` follows the database locale.
- Time zones, daylight-saving shifts and the year range of `LocalDateTime` are not modelled. A day is always 86400 seconds.
- `daysToKeep` is a Java `int`, modelled as an unbounded integer. `minusDays` moves the date by whole days, and no `int` number of days takes a present-day date outside the range of `LocalDateTime`, so the call cannot throw; that range is not modelled.
- The `Todo` entity class is not part of this model. Its lifecycle hooks and id generation are taken as described above.
