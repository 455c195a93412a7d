/** The to-do lifecycle service: create, list, look up, delete, merge-update
    and filter to-do items against the repository, failing with NotFound
    where the Java code throws TodoNotFoundException. */
module Service {
  import opened Wrappers
  import opened Entity
  import opened LongText
  import opened Repository

  /** TodoNotFoundException, which carries nothing but its message. */
  datatype TodoError = NotFound(message: string)

  const NoTodoItemsMessage: string := "No Todo items found"
  const IdNotFoundPrefix: string := "Todo task not found with ID: "
  const PriorityNotFoundPrefix: string := "No Todos found with priority: "

  /** The message for a missing id: the prefix, then the id as Long.toString writes it. */
  function IdNotFoundMessage(id: int): (m: string)
    ensures |m| > |IdNotFoundPrefix| && m[..|IdNotFoundPrefix|] == IdNotFoundPrefix
    ensures m[|IdNotFoundPrefix|..] == LongToString(id)
  {
    IdNotFoundPrefix + LongToString(id)
  }

  /** The message for a priority nothing matches: the prefix, then the priority verbatim. */
  function PriorityNotFoundMessage(p: string): (m: string)
    ensures |m| == |PriorityNotFoundPrefix| + |p| && m[|PriorityNotFoundPrefix|..] == p
    ensures m[..|PriorityNotFoundPrefix|] == PriorityNotFoundPrefix
  {
    PriorityNotFoundPrefix + p
  }

  /** A not-found message names its id: two ids get the same message only if
      they are the same id. */
  lemma IdNotFoundMessageNamesId(a: int, b: int)
    requires IdNotFoundMessage(a) == IdNotFoundMessage(b)
    ensures a == b
  {
    assert IdNotFoundMessage(a)[|IdNotFoundPrefix|..] == LongToString(a);
    assert IdNotFoundMessage(b)[|IdNotFoundPrefix|..] == LongToString(b);
    LongToStringInjective(a, b);
  }

  /** The messages the unit tests expect for id 1 and priority "High". */
  lemma NotFoundMessagesAsTested()
    ensures IdNotFoundMessage(1) == "Todo task not found with ID: 1"
    ensures PriorityNotFoundMessage("High") == "No Todos found with priority: High"
  {
    assert LongToString(1) == "1";
  }

  const NanosPerSecond: int := 1_000_000_000

  /** getCurrentDateAndTime, with the clock reading passed in: formatting with
      "yyyy-MM-dd'T'HH:mm:ss" and parsing back drops the fraction of a second.
      The nano-of-second field is never negative, so this rounds down. */
  function TruncatedToSeconds(now: LocalDateTime): (t: LocalDateTime)
    ensures t <= now < t + NanosPerSecond
    ensures t % NanosPerSecond == 0
  {
    now - now % NanosPerSecond
  }

  /** A later clock reading never gives an earlier stamp. */
  lemma TruncationMonotone(a: LocalDateTime, b: LocalDateTime)
    requires a <= b
    ensures TruncatedToSeconds(a) <= TruncatedToSeconds(b)
  {
  }

  /** `patch != null ? patch : current`, one field of the merge. */
  function Coalesce<T>(patch: Option<T>, current: Option<T>): (r: Option<T>)
    ensures patch.Some? ==> r == patch
    ensures patch.None? ==> r == current
  {
    if patch.Some? then patch else current
  }

  /** The record updateTodoById saves: the five editable fields take the patch's
      value where the patch has one and keep the existing value where it is
      null; id and createdAt are the existing record's; updatedAt is the stamp. */
  function Merge(existing: Todo, patch: Todo, stamp: LocalDateTime): (r: Todo)
    ensures r.id == existing.id
    ensures r.createdAt == existing.createdAt
    ensures r.updatedAt == Some(stamp)
    ensures patch.title.Some? ==> r.title == patch.title
    ensures patch.title.None? ==> r.title == existing.title
    ensures patch.description.Some? ==> r.description == patch.description
    ensures patch.description.None? ==> r.description == existing.description
    ensures patch.priority.Some? ==> r.priority == patch.priority
    ensures patch.priority.None? ==> r.priority == existing.priority
    ensures patch.status.Some? ==> r.status == patch.status
    ensures patch.status.None? ==> r.status == existing.status
    ensures patch.dueDate.Some? ==> r.dueDate == patch.dueDate
    ensures patch.dueDate.None? ==> r.dueDate == existing.dueDate
  {
    Todo(existing.id,
         Coalesce(patch.title, existing.title),
         Coalesce(patch.description, existing.description),
         Coalesce(patch.status, existing.status),
         Coalesce(patch.priority, existing.priority),
         Coalesce(patch.dueDate, existing.dueDate),
         existing.createdAt,
         Some(stamp))
  }

  /** The patch's id, createdAt and updatedAt are never read. */
  lemma MergeIgnoresPatchIdAndTimestamps(existing: Todo, patch: Todo, stamp: LocalDateTime,
                                         id: int, createdAt: Option<LocalDateTime>, updatedAt: Option<LocalDateTime>)
    ensures Merge(existing, patch, stamp)
         == Merge(existing, patch.(id := id, createdAt := createdAt, updatedAt := updatedAt), stamp)
  {
  }

  /** A patch whose five editable fields are all null changes nothing but updatedAt. */
  lemma MergeWithEmptyPatch(existing: Todo, patch: Todo, stamp: LocalDateTime)
    requires patch.title.None? && patch.description.None? && patch.priority.None?
    requires patch.status.None? && patch.dueDate.None?
    ensures Merge(existing, patch, stamp) == existing.(updatedAt := Some(stamp))
  {
  }

  /** Applying the same patch twice with the same stamp is the same as applying it once. */
  lemma MergeIdempotent(existing: Todo, patch: Todo, stamp: LocalDateTime)
    ensures Merge(Merge(existing, patch, stamp), patch, stamp) == Merge(existing, patch, stamp)
  {
  }

  /** A valid record stays valid when the patch's title and priority are each
      either null or non-blank. */
  lemma MergeKeepsValidity(existing: Todo, patch: Todo, stamp: LocalDateTime)
    requires IsValid(existing)
    requires patch.title.None? || NotBlank(patch.title)
    requires patch.priority.None? || NotBlank(patch.priority)
    ensures IsValid(Merge(existing, patch, stamp))
  {
  }

  /** The merge tests for null only: an empty title in the patch replaces the
      existing title, and the merged record no longer satisfies @NotBlank. */
  lemma MergeAcceptsEmptyTitle(existing: Todo, patch: Todo, stamp: LocalDateTime)
    requires patch.title == Some("")
    ensures Merge(existing, patch, stamp).title == Some("")
    ensures !IsValid(Merge(existing, patch, stamp))
    ensures TitleMessage in Violations(Merge(existing, patch, stamp))
  {
  }

  /** Two successive updates give updatedAt stamps in clock order. */
  lemma UpdatedAtFollowsClock(existing: Todo, first: Todo, second: Todo, t1: LocalDateTime, t2: LocalDateTime)
    requires t1 <= t2
    ensures Merge(existing, first, TruncatedToSeconds(t1)).updatedAt.value
         <= Merge(Merge(existing, first, TruncatedToSeconds(t1)), second, TruncatedToSeconds(t2)).updatedAt.value
  {
    TruncationMonotone(t1, t2);
  }

  /** TodoServiceImpl: stateless apart from the repository it is given. */
  class TodoServiceImpl {
    const repository: TodoRepository

    constructor (repository: TodoRepository)
      ensures this.repository == repository
    {
      this.repository := repository;
    }

    /** createTodo: one save of the caller's record, whose result is returned.
        No field is defaulted or altered here; the store gives the id. */
    method CreateTodo(todo: Todo) returns (saved: Todo)
      requires repository.Valid()
      modifies repository
      ensures repository.Valid()
      ensures saved == todo.(id := saved.id)
      ensures todo.id in old(repository.rows) ==> saved.id == todo.id
      ensures todo.id !in old(repository.rows) ==> saved.id !in old(repository.rows)
      ensures repository.rows == old(repository.rows)[saved.id := saved]
      ensures AllValid(old(repository.rows)) && IsValid(todo) ==> AllValid(repository.rows)
    {
      saved := repository.Save(todo);
    }

    /** getAllTodo: every stored record; an empty store is NotFound. */
    method GetAllTodo() returns (r: Result<seq<Todo>, TodoError>)
      requires repository.Valid()
      ensures r.Failure? <==> repository.rows == map[]
      ensures r.Failure? ==> r.error == NotFound(NoTodoItemsMessage)
      ensures r.Success? ==> Enumerates(r.value, repository.rows)
    {
      var todos := repository.FindAll();
      if |todos| == 0 {
        assert forall k :: k !in repository.rows;
        r := Failure(NotFound(NoTodoItemsMessage));
      } else {
        assert todos[0].id in repository.rows;
        r := Success(todos);
      }
    }

    /** getToDoById: the stored record for id, or NotFound naming the id. */
    method GetToDoById(id: int) returns (r: Result<Todo, TodoError>)
      requires repository.Valid()
      ensures r.Success? <==> id in repository.rows
      ensures r.Success? ==> r.value == repository.rows[id]
      ensures r.Failure? ==> r.error == NotFound(IdNotFoundMessage(id))
    {
      var found := repository.FindById(id);
      match found
      case Some(todo) => r := Success(todo);
      case None => r := Failure(NotFound(IdNotFoundMessage(id)));
    }

    /** deleteTodoById: an existence check, then the delete of that one key. */
    method DeleteTodoById(id: int) returns (r: Outcome<TodoError>)
      requires repository.Valid()
      modifies repository
      ensures repository.Valid()
      ensures r.Fail? <==> id !in old(repository.rows)
      ensures r.Fail? ==> r.error == NotFound(IdNotFoundMessage(id)) && unchanged(repository)
      ensures r.Pass? ==> repository.rows == old(repository.rows) - {id}
      ensures repository.nextId == old(repository.nextId)
      ensures AllValid(old(repository.rows)) ==> AllValid(repository.rows)
    {
      var present := repository.ExistsById(id);
      if !present {
        return Fail(NotFound(IdNotFoundMessage(id)));
      }
      repository.DeleteById(id);
      r := Pass;
    }

    /** updateTodoById: look the record up, overwrite it field by field with
        the patch's non-null values, keep createdAt, stamp updatedAt with the
        clock reading `now` truncated to seconds, and save it under its id. */
    method UpdateTodoById(id: int, patch: Todo, now: LocalDateTime) returns (r: Result<Todo, TodoError>)
      requires repository.Valid()
      modifies repository
      ensures repository.Valid()
      ensures r.Failure? <==> id !in old(repository.rows)
      ensures r.Failure? ==> r.error == NotFound(IdNotFoundMessage(id)) && unchanged(repository)
      ensures r.Success? ==> r.value == Merge(old(repository.rows)[id], patch, TruncatedToSeconds(now))
      ensures r.Success? ==> r.value.id == id && repository.rows == old(repository.rows)[id := r.value]
      ensures repository.nextId == old(repository.nextId)
      ensures (AllValid(old(repository.rows)) && (patch.title.None? || NotBlank(patch.title))
               && (patch.priority.None? || NotBlank(patch.priority)))
              ==> AllValid(repository.rows)
    {
      var found := repository.FindById(id);
      if found.Some? {
        var existing := found.value;
        existing := existing.(title := if patch.title.Some? then patch.title else existing.title);
        existing := existing.(description := if patch.description.Some? then patch.description else existing.description);
        existing := existing.(priority := if patch.priority.Some? then patch.priority else existing.priority);
        existing := existing.(status := if patch.status.Some? then patch.status else existing.status);
        existing := existing.(dueDate := if patch.dueDate.Some? then patch.dueDate else existing.dueDate);
        existing := existing.(createdAt := existing.createdAt);
        existing := existing.(updatedAt := Some(TruncatedToSeconds(now)));
        var updated := repository.Save(existing);
        if AllValid(old(repository.rows)) && (patch.title.None? || NotBlank(patch.title))
           && (patch.priority.None? || NotBlank(patch.priority)) {
          MergeKeepsValidity(found.value, patch, TruncatedToSeconds(now));
        }
        r := Success(updated);
      } else {
        r := Failure(NotFound(IdNotFoundMessage(id)));
      }
    }

    /** getTodoByPriority: the rows whose priority is exactly p; none is NotFound naming p. */
    method GetTodoByPriority(p: string) returns (r: Result<seq<Todo>, TodoError>)
      requires repository.Valid()
      ensures r.Failure? <==> forall k :: k in repository.rows ==> repository.rows[k].priority != Some(p)
      ensures r.Failure? ==> r.error == NotFound(PriorityNotFoundMessage(p))
      ensures r.Success? ==> Enumerates(r.value, WithPriority(repository.rows, p))
    {
      var todos := repository.FindByPriority(p);
      if |todos| == 0 {
        r := Failure(NotFound(PriorityNotFoundMessage(p)));
      } else {
        assert todos[0].id in WithPriority(repository.rows, p);
        r := Success(todos);
      }
    }
  }
}
