# Students resource of a reactive CRUD service, in Dafny

This project models the core of a small Spring WebFlux service for a `students` resource. The service runs on a relational store that also holds a `coursework` table. The model covers two pieces:

- **The five handlers of `StudentsController`.**
  - create (`addStudent`) stamps the server fields and saves the request;
  - fetch (`getStudent`) answers OK or completes empty;
  - update (`updateStudent`) copies only the name;
  - delete (`deleteStudent`) removes the student's coursework, then the student;
  - list (`getStudents`) turns the page, limit and filters into query arguments.
- **The list query `findAllByStatusAndName` of `StudentsRepository`.** It filters the table with two nullable predicates, one of them a SQL `LIKE`, then drops `offset` rows and takes `limit` rows.

Reactor's `Mono` and `Flux` appear as plain values:

- `Option` is a Mono that may complete empty.
- `Result` is a Mono or Flux that may signal an error.
- `seq` is the elements a Flux emits.

The clock reading (`now`) is a parameter. So is each store failure: every store call takes an `Option<string>`, and `Some(message)` makes that call fail with that message and change nothing.

Files and modules:

| file | module | contents |
|---|---|---|
| wrappers.dfy | `Wrappers` | `Option`, `Result` |
| text.dfy | `Text` | decimal rendering of integers (Java `%d`) and its inverse parse |
| model.dfy | `Model` | `Student`, `CourseWork`, `HttpStatus`, `GeneralResponse`, `Response` |
| like.dfy | `Like` | `LikeMatch`, the `<like predicate>` of ISO/IEC 9075-2 subclause 8.5, and its lemmas |
| query.dfy | `Query` | the list query as a function of the table, and its lemmas |
| store.dfy | `Store` | the store as a value `Db`, its invariant `ValidDb`, and the repository operations as functions |
| database.dfy | `Repositories` | class `Database`: the store as an object whose tables the repository calls change in place |
| controller.dfy | `Controller` | the handlers: pure `GetStudent`/`GetStudents`, outcome functions `AddOutcome`/`UpdateOutcome`/`DeleteOutcome` with their lemmas, and class `StudentsController` whose methods are proved against those functions |

### The store

`Db` holds four things:

- the `students` rows keyed by id;
- the ids in insertion order, which is the order the list query sees;
- the counter that `save` draws new ids from;
- the `coursework` rows.

`ValidDb` is the store invariant:

- ids appear once each, in increasing order, and all are below the counter;
- every row carries its own key;
- every coursework row refers to a stored student.

Every store operation except `deleteById` preserves `ValidDb`. `deleteById` preserves it once no coursework refers to the student; deleting a student that coursework still refers to leaves a dangling reference (`Store.DeleteReferencedStudentBreaksInvariant`), which is why the delete handler removes the coursework first. Every handler preserves `ValidDb`.

`save` of an entity with an id is an update of that row, as in Spring Data. It fails with `MissingRow` when the row is absent.

### The status filter

The source passes the status filter as text (`String status`) to an integer column. The model keeps the parameter as `Option<string>`. A row matches when the decimal form of its status equals the parameter. `Query.StatusCodeSelectsThatStatus` shows that the decimal form of `k` selects exactly the rows with status `k`.

### Behaviour the model takes from the code

- **Create keeps a supplied id.** The handler overwrites only `registeredOn` and `status` (StudentsController.java:48-49) and never clears `id`. So a request that carries an id saves over the row with that id, or fails when there is none (`Controller.AddStudentWithSuppliedId`).
- **Fetch of a missing id.** It completes empty, with no 404 (`Controller.GetStudent`).
- **Update and delete catch every error.** Any store failure becomes the NOT_FOUND envelope with the failure's message (`Controller.UpdateOutcome`, `Controller.DeleteOutcome`).
- **No escaping in the name filter.** A `%` or `_` in the name is not escaped. The name `"%"` selects every row (`Like.PercentNameMatchesEveryName`).

## Model

| member | source | states |
|---|---|---|
| `Like.LikeMatch` | src/main/java/com/sanwar/reactive/repository/StudentsRepository.java:13 | `name LIKE :name`: a pattern without `%` matches only strings of its own length; its meaning is pinned down by the lemmas below |
| `Like.LiteralMatchesItself` | src/main/java/com/sanwar/reactive/repository/StudentsRepository.java:13 | a LIKE pattern without `%` or `_` matches a string exactly when the string equals it |
| `Like.PercentMatchesAll` | src/main/java/com/sanwar/reactive/repository/StudentsRepository.java:13 | the pattern `%` matches every string, the empty one included |
| `Like.LiteralPrefix` | src/main/java/com/sanwar/reactive/repository/StudentsRepository.java:13 | a literal prefix of a pattern must equal the same-length prefix of the string, and the rest of the pattern matches the rest of the string |
| `Like.LeadingPercent` | src/main/java/com/sanwar/reactive/repository/StudentsRepository.java:13 | `%` followed by `q` matches a string exactly when `q` matches some suffix of it |
| `Like.SurroundingPercentsMatchSubstring` | src/main/java/com/sanwar/reactive/controller/StudentsController.java:120-122 | for `x` without wildcards, `"%" + x + "%"` matches a name exactly when `x` occurs in it (both directions) |
| `Like.PercentNameMatchesEveryName` | src/main/java/com/sanwar/reactive/controller/StudentsController.java:120-122 | the unescaped name `"%"` turns the pattern into `%%%`, which matches every name |
| `Query.StatusMatches` | src/main/java/com/sanwar/reactive/repository/StudentsRepository.java:13 | a null status keeps every row; a kept row's status is the integer the parameter's text parses to |
| `Query.NameMatches` | src/main/java/com/sanwar/reactive/repository/StudentsRepository.java:13 | a null name keeps every row; a name without wildcards keeps exactly the rows with that name |
| `Query.Selected` | src/main/java/com/sanwar/reactive/repository/StudentsRepository.java:13 | the WHERE clause; with both parameters null it keeps every row |
| `Query.Filter` | src/main/java/com/sanwar/reactive/repository/StudentsRepository.java:13 | the WHERE clause keeps no more rows than the table and only rows that satisfy both nullable predicates |
| `Query.FilterMembership` | src/main/java/com/sanwar/reactive/repository/StudentsRepository.java:13 | a row is kept exactly when it is in the table and satisfies both predicates; a null predicate constrains nothing |
| `Query.FindAllByStatusAndName` | src/main/java/com/sanwar/reactive/repository/StudentsRepository.java:13-14 | at most `limit` rows, each satisfying the filters; row `i` of the result is row `offset + i` of the filtered rows; empty when `offset` is at least the number of matches |
| `Query.ResultRowsComeFromTable` | src/main/java/com/sanwar/reactive/repository/StudentsRepository.java:13-14 | every returned row is a row of the table |
| `Query.FilterIsSubsequence` | src/main/java/com/sanwar/reactive/repository/StudentsRepository.java:13 | the filtered rows are a subsequence of the table |
| `Query.ResultIsSubsequence` | src/main/java/com/sanwar/reactive/repository/StudentsRepository.java:13-14 | the query result is a subsequence of the table: nothing invented, table order kept |
| `Query.UnfilteredKeepsTable` | src/main/java/com/sanwar/reactive/repository/StudentsRepository.java:13 | with both parameters null the WHERE clause keeps the whole table |
| `Query.UnfilteredIsPlainSlice` | src/main/java/com/sanwar/reactive/repository/StudentsRepository.java:13-14 | with both parameters null the result is the plain LIMIT/OFFSET slice of the table |
| `Query.FirstPageCoversAll` | src/main/java/com/sanwar/reactive/repository/StudentsRepository.java:14 | offset 0 with a limit at least the table size returns every filtered row |
| `Query.PagesConcatenate` | src/main/java/com/sanwar/reactive/repository/StudentsRepository.java:14 | the `l1` rows at `offset` followed by the `l2` rows at `offset + l1` are the `l1 + l2` rows at `offset` |
| `Query.NameSearchIsSubstringSearch` | src/main/java/com/sanwar/reactive/repository/StudentsRepository.java:13 | with the pattern `"%" + x + "%"`, `x` free of wildcards, a row is kept exactly when it is in the table, its status matches and its name contains `x` |
| `Query.StatusCodeSelectsThatStatus` | src/main/java/com/sanwar/reactive/repository/StudentsRepository.java:13 | the status parameter written as the decimal form of `k` keeps exactly the rows with status `k` (and a matching name) |
| `Text.IntToString` | src/main/java/com/sanwar/reactive/controller/StudentsController.java:60 | `%d` gives a non-empty decimal string, with a leading `-` exactly for negative values |
| `Text.IntRoundTrip` | src/main/java/com/sanwar/reactive/controller/StudentsController.java:60 | parsing the `%d` rendering of an integer gives the integer back |
| `Text.IntToStringInjective` | src/main/java/com/sanwar/reactive/controller/StudentsController.java:60 | distinct ids get distinct `%d` renderings, so each not-found message names one id |
| `Store.Table` | src/main/java/com/sanwar/reactive/repository/StudentsRepository.java:13 | the table seen by `SELECT *` holds every stored student, and every row it holds is the stored row of its own id; rows come in insertion order |
| `Store.FindById` | src/main/java/com/sanwar/reactive/controller/StudentsController.java:41 | `findById` fails only on a store fault; otherwise it yields the stored row exactly when the id is stored |
| `Store.Message` | src/main/java/com/sanwar/reactive/controller/StudentsController.java:79 | `e.getMessage()`: an injected failure carries the text it was raised with; a missing row gives a non-empty text |
| `Store.DeleteReferencedStudentBreaksInvariant` | src/main/java/com/sanwar/reactive/controller/StudentsController.java:91-92 | a valid store where deleting a student still referred to by coursework leaves an invalid store: the cascade must run first |
| `Store.Save` | src/main/java/com/sanwar/reactive/controller/StudentsController.java:50 | `save` keeps the store invariant; a fault changes nothing; a new entity is returned with the next id and appended to the table, and the counter advances; an entity with a stored id replaces that row and keeps the order; an entity with an unknown id fails with `MissingRow` and changes nothing; coursework is never touched |
| `Store.WithoutStudent` | src/main/java/com/sanwar/reactive/repository/CourseWorkRepository.java:12 | the coursework rows kept are exactly those whose studentId differs from the argument |
| `Store.DeleteByStudentId` | src/main/java/com/sanwar/reactive/repository/CourseWorkRepository.java:12 | `deleteByStudentID` keeps the store invariant; a fault changes nothing; otherwise the kept coursework rows are exactly those of other students, and the students table, order and counter are unchanged |
| `Store.DeleteById` | src/main/java/com/sanwar/reactive/controller/StudentsController.java:92 | a fault changes nothing; otherwise the row with that id is gone, the order keeps exactly the other ids, the counter and coursework are unchanged; the invariant is kept once no coursework refers to the student |
| `Store.FindAllByStatusAndName` | src/main/java/com/sanwar/reactive/repository/StudentsRepository.java:15 | the repository call fails only on a store fault; otherwise it returns the pure query over the table in insertion order: at most `limit` rows, each the stored row of its own id |
| `Repositories.Database.FindById` | src/main/java/com/sanwar/reactive/controller/StudentsController.java:41 | the object's lookup gives what `Store.FindById` gives on its current tables |
| `Repositories.Database.Save` | src/main/java/com/sanwar/reactive/controller/StudentsController.java:64 | the object's save returns and leaves what `Store.Save` gives, and keeps the invariant |
| `Repositories.Database.DeleteById` | src/main/java/com/sanwar/reactive/controller/StudentsController.java:92 | the object's tables become what `Store.DeleteById` gives |
| `Repositories.Database.DeleteByStudentId` | src/main/java/com/sanwar/reactive/repository/CourseWorkRepository.java:12 | the object's coursework becomes what `Store.DeleteByStudentId` gives, and the invariant is kept |
| `Controller.GetStudent` | src/main/java/com/sanwar/reactive/controller/StudentsController.java:39-44 | OK with exactly the stored student when the id is stored; an empty completion when it is not; the store's error passed on; the store is unchanged |
| `Controller.ListArgs` | src/main/java/com/sanwar/reactive/controller/StudentsController.java:118-123 | offset `(page - 1) * limit`, the same limit, status passed through or null, name wrapped as `"%" + name + "%"` or null |
| `Controller.Param` | src/main/java/com/sanwar/reactive/controller/StudentsController.java:118-119 | `getOrDefault(key, null)`: present exactly when the key is, and then the mapped value |
| `Controller.GetStudents` | src/main/java/com/sanwar/reactive/controller/StudentsController.java:115-125 | the query is run with `ListArgs` and its result returned unchanged: at most `limit` rows, each a stored student that satisfies the filters |
| `Controller.PageOfTable` | src/main/java/com/sanwar/reactive/controller/StudentsController.java:123-124 | a page is the query over the table at offset `(page - 1) * limit` |
| `Controller.GetStudentsUnfiltered` | src/main/java/com/sanwar/reactive/controller/StudentsController.java:118-124 | with no filters the handler returns the table rows from `(page - 1) * limit` on, at most `limit` of them |
| `Controller.GetStudentsNameSearch` | src/main/java/com/sanwar/reactive/controller/StudentsController.java:119-124 | on a page that covers the table, a name without wildcards returns exactly the stored students whose name contains it |
| `Controller.GetStudentsStatusFilter` | src/main/java/com/sanwar/reactive/controller/StudentsController.java:118 | a status given as the decimal form of `k` lists only students with status `k` |
| `Controller.ConsecutivePagesTile` | src/main/java/com/sanwar/reactive/controller/StudentsController.java:123 | page `p` followed by page `p + 1` is the run of `2 * limit` filtered rows from page `p`'s offset: no overlap, no gap |
| `Controller.AddOutcome` | src/main/java/com/sanwar/reactive/controller/StudentsController.java:47-52 | a created response has status CREATED, the request's name, `registeredOn = now` and `status = 1`; a store fault is passed on and changes nothing; the invariant is kept |
| `Controller.AddStudentCreatesRow` | src/main/java/com/sanwar/reactive/controller/StudentsController.java:47-52 | a request without an id becomes the row `(nextId, name, now, 1)`, appended to the table, whatever status or registeredOn it carried; nothing else changes |
| `Controller.AddStudentWithSuppliedId` | src/main/java/com/sanwar/reactive/controller/StudentsController.java:47-50 | a request with id `k` overwrites row `k`, stamped the same way, or fails with `MissingRow(k)` and changes nothing |
| `Controller.NotFoundMessage` | src/main/java/com/sanwar/reactive/controller/StudentsController.java:60 | "Student with ID ", the id, " not found"; the id can be parsed back from the middle |
| `Controller.NotFound` | src/main/java/com/sanwar/reactive/controller/StudentsController.java:76-80 | the error envelope: HTTP 404, `success = false`, the given message, null data |
| `Controller.Accepted` | src/main/java/com/sanwar/reactive/controller/StudentsController.java:66-74 | the success envelope: HTTP 202, `success = true`, the given message, data holding the student under the one key `student` |
| `Controller.UpdateOutcome` | src/main/java/com/sanwar/reactive/controller/StudentsController.java:56-81 | success exactly when the status is ACCEPTED, with the update message and `{"student": saved}` carrying the request's name; otherwise NOT_FOUND, data null and the store unchanged; a fault's message is what the envelope says; the invariant is kept |
| `Controller.UpdateStudentRenames` | src/main/java/com/sanwar/reactive/controller/StudentsController.java:61-75 | on a stored id the old row is saved with only `name` replaced (id, registeredOn, status kept); the answer is ACCEPTED, "Student update successfully", `{"student": saved}` |
| `Controller.UpdateStudentMissing` | src/main/java/com/sanwar/reactive/controller/StudentsController.java:58-81 | on a missing id nothing is saved; the answer is NOT_FOUND with `success = false`, "Student with ID N not found" and no data |
| `Controller.DeleteOutcome` | src/main/java/com/sanwar/reactive/controller/StudentsController.java:86-111 | success exactly when the status is ACCEPTED; on failure the students table is unchanged and data is null; a failed lookup answers NOT_FOUND with the failure's message and changes nothing; a student never disappears while coursework still refers to it; the invariant is kept |
| `Controller.DeleteStudentCascades` | src/main/java/com/sanwar/reactive/controller/StudentsController.java:87-105 | afterwards neither the student nor any coursework row of it remains; every other student and coursework row is untouched; the answer carries the pre-delete snapshot |
| `Controller.DeleteCascadeFailureKeepsStudent` | src/main/java/com/sanwar/reactive/controller/StudentsController.java:90-111 | when the coursework deletion fails the store is unchanged and the answer is the `success = false` NOT_FOUND envelope with the failure's message |
| `Controller.DeletePrimaryFailureKeepsStudent` | src/main/java/com/sanwar/reactive/controller/StudentsController.java:91-93 | when the student deletion fails after the cascade, the student's coursework is gone and the student row is still there |
| `Controller.DeleteStudentMissing` | src/main/java/com/sanwar/reactive/controller/StudentsController.java:87-89 | on a missing id nothing is deleted; the answer is NOT_FOUND with `success = false` and "Student with ID N not found" |
| `Controller.StudentsController.AddStudent` | src/main/java/com/sanwar/reactive/controller/StudentsController.java:46-53 | the method's response and the store it leaves are those of `AddOutcome`; the invariant is kept |
| `Controller.StudentsController.UpdateStudent` | src/main/java/com/sanwar/reactive/controller/StudentsController.java:55-82 | the method's response and the store it leaves are those of `UpdateOutcome`; the invariant is kept |
| `Controller.StudentsController.DeleteStudent` | src/main/java/com/sanwar/reactive/controller/StudentsController.java:84-112 | the method's response and the store it leaves are those of `DeleteOutcome` (lookup, then coursework delete, then student delete); the invariant is kept |

## Left out

- Reactor laziness, subscription, backpressure and scheduling. The handlers are plain sequential compositions over `Option` and `Result`; a Flux is the sequence it emits.
- Spring routing and annotations, `@RequestParam` defaulting of `page` and `limit`, and JSON and NDJSON serialisation. These are framework behaviour.
- The real MySQL behaviour of the query:
  - the row order (no ORDER BY; the model takes insertion order, which is id order);
  - collation-dependent case folding in `LIKE` (the model is case-sensitive);
  - the default backslash escape of MySQL's `LIKE` (the model follows ISO with no ESCAPE clause);
  - MySQL's numeric coercion of the text status parameter (the model compares it with the status's decimal form).
- `@Transactional` rollback. Only the step order is modelled: the student is never deleted after a failed cascade. A failure of the student delete after a successful cascade leaves the coursework deleted.
- `System.currentTimeMillis()`. It is the parameter `now`.
- Null `name`, `status` or `registeredOn` in a request body. The model's fields are not nullable.
- The exact text of the store's own exceptions. `Store.Message` of `MissingRow` is a placeholder; injected faults carry their own message.
- `Controller.ListArgs`: requires `1 <= page <= 2^31 - 1`, `0 <= limit <= 2^63 - 1` and `(page - 1) * limit <= 2^63 - 1`. The source sends a negative or wrapped 64-bit offset to the store instead. Java's overflow is not modelled.
- `Controller.GetStudents`: carries the same bounds on `page` and `limit` as `ListArgs`, for the same reason.
- Courses.java: an entity with no behaviour.
- The `CourseWork` entity class is not part of this model. Only its `studentId` reference matters, and `CourseWork` keeps just that and a row id.
- Creating coursework rows is not part of the handlers. The `Database` constructor takes the initial tables instead.
