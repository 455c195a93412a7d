# To-do lifecycle service, modelled in Dafny

This project models the core of a Spring Boot to-do backend: the `Todo` record
with its Bean Validation rules, the id-keyed `TodoRepository` it is stored in,
and `TodoServiceImpl`, which runs six operations against that store:

- create a to-do;
- list all to-dos, where an empty store is an error;
- get one to-do by id;
- delete one to-do by id, after an existence check;
- update one to-do by merging a partial patch into it;
- list the to-dos with a given priority, where an empty result is an error.

Every failure is `TodoNotFoundException`. In the model it is
`Service.TodoError.NotFound(message)`, and the message is built exactly as the
Java code builds it.

Files, one module each:

- `Wrappers.dfy`: `Option` for Java's nullable references, plus `Result` and
  `Outcome` for calls that return or throw.
- `Entity.dfy`: the `Todo` datatype. Every nullable field is an `Option`; `id`
  is a primitive long, so an unset id reads as 0. The file also holds the
  `@NotBlank` rules for title and priority (`IsValid`) and the violation
  messages they raise (`Violations`).
- `LongText.dfy`: `Long.toString`, which renders the id inside
  `"Todo task not found with ID: " + id`. A round-trip lemma shows that the
  rendered text determines the id.
- `Repository.dfy`: class `TodoRepository`. The table is a field
  `rows: map<int, Todo>`, and an identity counter `nextId` supplies new ids.
  `Save` is an upsert. `FindAll` and `FindByPriority` scan the table in a loop
  and are proved against the predicate `Enumerates`: every returned element is
  a stored row, every matching row is returned, and nothing is repeated.
- `Service.dfy`: class `TodoServiceImpl`, which holds its repository as a
  constant. It also holds the messages, the pure merge `Merge` with its
  per-field laws, and the truncation of the clock reading to whole seconds.
- `Scenario.dfy`: two client methods that use only the contracts.
  `LifecycleScenario` creates a to-do, reads it, updates its priority, deletes
  it, and reads it again, which fails. `PriorityFilterScenario` saves two "High"
  rows and one "Medium" row, then filters by "High" and gets the two "High" rows
  as a multiset; filtering by "high" fails.

Modelling choices:

- **Clock.** The clock is the `now` parameter of `UpdateTodoById`.
  `LocalDateTime` is a count of nanoseconds and `LocalDate` a count of days.
  Both are stored and copied and never computed with, except for the
  truncation to seconds.
- **Blank text.** `@NotBlank` is read as Hibernate Validator implements it: the
  text must survive `String.trim`, which removes the characters up to U+0020.
- **Saving.** `save` follows Spring Data JPA. A record whose id names a stored
  row replaces that row. Any other record gets a fresh id from the counter.
  This covers both paths: a new entity (id 0) is persisted, and an unknown id
  is merged. The model assumes Hibernate 6.5 or earlier, where merging an
  unknown id under IDENTITY generation inserts under a generated id;
  TodoRepositoryTest.java:22-24 saves records with hand-set ids and expects
  them stored, which relies on that. From Hibernate 6.6 the same merge throws
  `OptimisticLockException` instead. As a result, `createTodo` called with the
  id of an existing row overwrites that row, and the model says so.
- **Merge tests null only.** A patch field overwrites when it is non-null; an
  empty string is not treated as absent. The code tests `!= null` only
  (TodoServiceImpl.java:113-117), and the model follows the code:
  an empty title in a patch replaces the stored title, and `MergeAcceptsEmptyTitle`
  shows that the merged record then violates `@NotBlank`. The service never
  validates the patch, and the controller's update endpoint carries no `@Valid`.
- **updatedAt order.** `updatedAt` never decreases across updates only if the
  clock does not go back.
  `UpdatedAtFollowsClock` proves it for clock readings in order.

## Model

| member | source | states |
|---|---|---|
| Entity.NotBlank | src/main/java/com/example/todo/entity/Todo.java:33-34 | a text satisfies @NotBlank exactly when it is non-null and `String.trim` leaves it non-empty; blank means the characters up to U+0020 that trim removes, not `Character.isWhitespace` |
| Entity.IsValid | src/main/java/com/example/todo/entity/Todo.java:33-41 | a record is valid exactly when both its title and its priority are non-null and non-empty after `String.trim` |
| Entity.Violations | src/main/java/com/example/todo/entity/Todo.java:33-41 | "Please add Title" is raised exactly when the title is null or blank, "Please Set Priority" exactly when the priority is; no other message; no violation exactly when the record is valid |
| Entity.OnlyTitleAndPriorityConstrained | src/main/java/com/example/todo/entity/Todo.java:29-47 | two records with the same title and priority are equally valid and raise the same violations, whatever id, description, status, dueDate, createdAt and updatedAt hold (null included) |
| Entity.BlankTitleRejected | src/main/java/com/example/todo/entity/Todo.java:33-34 | a null title, or one made only of characters up to U+0020 (empty included), makes the record invalid with "Please add Title" |
| Entity.NonBlankAccepted | src/main/java/com/example/todo/entity/Todo.java:33-41 | any string with a character that trimming keeps satisfies @NotBlank |
| Entity.PriorityIsFreeText | src/main/java/com/example/todo/entity/Todo.java:38-41 | priorities "High", "high" and "medium" are all accepted; priority is free text, not an enum |
| LongText.NatToDecimal | src/main/java/com/example/todo/service/TodoServiceImpl.java:76 | the rendering of a non-negative id is a non-empty string of decimal digits with no leading zero |
| LongText.DecimalRoundTrip | src/main/java/com/example/todo/service/TodoServiceImpl.java:76 | reading the rendered digits back gives the number |
| LongText.LongToString | src/main/java/com/example/todo/service/TodoServiceImpl.java:76 | the rendering of an id is non-empty and starts with '-' exactly when the id is negative |
| LongText.LongToStringInjective | src/main/java/com/example/todo/service/TodoServiceImpl.java:76 | different ids render as different texts |
| Repository.WithPriority | src/main/java/com/example/todo/repository/TodoRepository.java:18 | the rows selected for priority p are exactly the stored rows whose priority equals p, with the stored values |
| Repository.DistinctListingIsSet | src/test/java/com/example/todo/repository/TodoRepositoryTest.java:27-34 | a listing without repetitions holds each element once, so listings are compared as multisets |
| Repository.TodoRepository.constructor | src/main/java/com/example/todo/repository/TodoRepository.java:17 | a new store is empty and its invariant holds |
| Repository.TodoRepository.Save | src/main/java/com/example/todo/repository/TodoRepository.java:17 | a record whose id is stored replaces that row unchanged; any other record is stored under a fresh id with every other field as given; only that key changes; the invariant that each row carries its own key is kept |
| Repository.TodoRepository.FindById | src/main/java/com/example/todo/repository/TodoRepository.java:17 | a row is found exactly when its id is stored, and it is the stored row, with that id |
| Repository.TodoRepository.ExistsById | src/main/java/com/example/todo/repository/TodoRepository.java:17 | true exactly when the id is stored, the same condition under which FindById finds a row |
| Repository.TodoRepository.DeleteById | src/main/java/com/example/todo/repository/TodoRepository.java:17 | removes exactly the given key; every other row is unchanged |
| Repository.TodoRepository.FindAll | src/main/java/com/example/todo/repository/TodoRepository.java:17 | returns every stored row once and nothing else, in no promised order |
| Repository.TodoRepository.FindByPriority | src/main/java/com/example/todo/repository/TodoRepository.java:18 | returns only stored rows whose priority equals p (sound), every such row (complete), each once, in no promised order |
| Service.IdNotFoundMessage | src/main/java/com/example/todo/service/TodoServiceImpl.java:76 | the message is "Todo task not found with ID: " followed by the id rendered by `Long.toString` |
| Service.PriorityNotFoundMessage | src/main/java/com/example/todo/service/TodoServiceImpl.java:142 | the message is "No Todos found with priority: " followed by the priority verbatim |
| Service.IdNotFoundMessageNamesId | src/main/java/com/example/todo/service/TodoServiceImpl.java:76 | two ids give the same not-found message only if they are the same id |
| Service.NotFoundMessagesAsTested | src/test/java/com/example/todo/service/TodoServiceImplTest.java:82-94 | id 1 gives "Todo task not found with ID: 1" and priority "High" gives "No Todos found with priority: High" |
| Service.TruncatedToSeconds | src/main/java/com/example/todo/service/TodoServiceImpl.java:153-158 | the stamp is a whole second, not after the clock reading and less than one second before it |
| Service.TruncationMonotone | src/main/java/com/example/todo/service/TodoServiceImpl.java:153-158 | a later clock reading never gives an earlier stamp |
| Service.Coalesce | src/main/java/com/example/todo/service/TodoServiceImpl.java:113 | a non-null patch value wins, and a null one keeps the current value |
| Service.Merge | src/main/java/com/example/todo/service/TodoServiceImpl.java:110-119 | for each of title, description, priority, status and dueDate, a non-null patch value replaces the existing one and a null one keeps it; id and createdAt are the existing record's; updatedAt is the stamp |
| Service.MergeIgnoresPatchIdAndTimestamps | src/main/java/com/example/todo/service/TodoServiceImpl.java:110-119 | the patch's id, createdAt and updatedAt have no effect on the merged record |
| Service.MergeWithEmptyPatch | src/main/java/com/example/todo/service/TodoServiceImpl.java:113-119 | a patch with all five editable fields null changes only updatedAt |
| Service.MergeIdempotent | src/main/java/com/example/todo/service/TodoServiceImpl.java:113-119 | applying the same patch again with the same stamp changes nothing more |
| Service.MergeKeepsValidity | src/main/java/com/example/todo/service/TodoServiceImpl.java:113-117 | a valid record stays valid when the patch's title and priority are each null or non-blank |
| Service.MergeAcceptsEmptyTitle | src/main/java/com/example/todo/service/TodoServiceImpl.java:113 | the merge tests `!= null` only: an empty patch title overwrites, and the merged record violates @NotBlank with "Please add Title" |
| Service.UpdatedAtFollowsClock | src/main/java/com/example/todo/service/TodoServiceImpl.java:119 | two successive updates with clock readings in order give updatedAt stamps in the same order |
| Service.TodoServiceImpl.constructor | src/main/java/com/example/todo/service/TodoServiceImpl.java:28-29 | the service holds the repository it is given and nothing else |
| Service.TodoServiceImpl.CreateTodo | src/main/java/com/example/todo/service/TodoServiceImpl.java:38-42 | one save of the caller's record: the returned record is the input with only its id possibly set by the store; it is what the store now holds under that id; no other key changes; a store whose every row is valid stays so when the record is valid |
| Service.TodoServiceImpl.GetAllTodo | src/main/java/com/example/todo/service/TodoServiceImpl.java:51-61 | fails with NotFound "No Todo items found" exactly when the store is empty; otherwise returns every stored record once and nothing else |
| Service.TodoServiceImpl.GetToDoById | src/main/java/com/example/todo/service/TodoServiceImpl.java:71-77 | succeeds exactly when the id is stored and returns that record; otherwise NotFound "Todo task not found with ID: " + id; the store is not changed |
| Service.TodoServiceImpl.DeleteTodoById | src/main/java/com/example/todo/service/TodoServiceImpl.java:86-95 | on a missing id, NotFound with the id's message and the store untouched; otherwise exactly key id is removed and every other record is unchanged; a store whose every row is valid stays so |
| Service.TodoServiceImpl.UpdateTodoById | src/main/java/com/example/todo/service/TodoServiceImpl.java:105-127 | on a missing id, NotFound with the id's message and no save; otherwise the saved and returned record is the merge of the stored record and the patch, stamped with the clock truncated to seconds, and only key id changes; a store whose every row is valid stays so when the patch's title and priority are each null or non-blank |
| Service.TodoServiceImpl.GetTodoByPriority | src/main/java/com/example/todo/service/TodoServiceImpl.java:137-146 | fails with NotFound "No Todos found with priority: " + p exactly when no stored record has priority p; otherwise returns exactly those records, each once |

## Left out

- The HTTP layer is not modelled: `TodoController`, `GlobalExceptionHandler`, `RestCustomErrorResponse`, the status codes (including the 302 FOUND on reads) and the choice of which violation message reaches the client. Validation is a predicate on the record; the controller applies it before `createTodo`, and the service itself never checks it.
- `SwaggerConfig`, `TodoEntity` and `TodoDto` are not modelled. They hold API documentation settings and duplicate data shapes, with no logic.
- Logging through slf4j is not modelled; it has no effect on results or state.
- Reading the wall clock is replaced by the `now` parameter. `DateTimeFormatter` is modelled only by its effect, the truncation to seconds; its behaviour for years outside 0000-9999 is not modelled.
- Repository.TodoRepository.Save: a record with an unknown non-zero id is inserted under a fresh id, as Hibernate up to 6.5 does; the `OptimisticLockException` that Hibernate 6.6 and later throw for it is not modelled.
- Repository.TodoRepository.Save: ids are unbounded integers, so the 64-bit range of the identity column and its overflow are not modelled.
- Repository.TodoRepository.FindByPriority: the match is exact and case-sensitive; a database collation that compares case-insensitively is not modelled.
- JPA internals are not modelled: transactions, flush-time entity validation (which may reject a merged record with a blank title at save time), and managed-entity identity. The record that `updateTodoById` mutates through its setters is a value here, so aliasing between the fetched entity and the persistence context is not captured.
- The race windows between `existsById` and `deleteById`, and between `findById` and `save`, are not modelled. Each operation runs as sequential steps with no interleaving, so concurrent lost updates cannot arise in the model.
- Calendar semantics of `LocalDate` and `LocalDateTime` are not modelled; the core does no date arithmetic.
