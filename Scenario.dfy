/** Clients that replay the documented scenarios against the contracts alone:
    what a caller of the service and of the repository can conclude. */
module Scenario {
  import opened Wrappers
  import opened Entity
  import opened Repository
  import opened Service

  function NewTodo(title: string, description: string, status: string, priority: string): Todo {
    Todo(0, Some(title), Some(description), Some(status), Some(priority), None, None, None)
  }

  /** Create, read, update the priority, delete, and read again. */
  method LifecycleScenario(now: LocalDateTime) {
    var repository := new TodoRepository();
    var service := new TodoServiceImpl(repository);

    var none := service.GetAllTodo();
    assert none == Failure(NotFound("No Todo items found"));

    var input := Todo(0, Some("Drive to Airport"), None, None, Some("medium"), None, None, None);
    var created := service.CreateTodo(input);
    assert created.title == Some("Drive to Airport") && created.priority == Some("medium");

    var all := service.GetAllTodo();
    assert all.Success? && created in all.value;
    DistinctListingIsSet(all.value);
    assert multiset(all.value) == multiset{created};
    assert |all.value| == 1;

    var fetched := service.GetToDoById(created.id);
    assert fetched == Success(created);

    var patch := Todo(0, None, None, None, Some("High"), None, None, None);
    var updated := service.UpdateTodoById(created.id, patch, now);
    assert updated.Success?;
    assert updated.value.priority == Some("High");
    assert updated.value.title == Some("Drive to Airport");
    assert updated.value.id == created.id;
    assert updated.value.updatedAt == Some(TruncatedToSeconds(now));

    var deleted := service.DeleteTodoById(created.id);
    assert deleted == Pass;

    var gone := service.GetToDoById(created.id);
    assert gone == Failure(NotFound(IdNotFoundMessage(created.id)));

    var again := service.DeleteTodoById(created.id);
    assert again == Fail(NotFound(IdNotFoundMessage(created.id)));
  }

  /** Two "High" rows and one "Medium" row: the filter returns the two "High"
      rows, as a multiset, and a differently cased priority matches nothing. */
  method PriorityFilterScenario() {
    var repository := new TodoRepository();
    var a := repository.Save(NewTodo("Drive to airpot", "Pick up Friends from airport", "Pending", "High"));
    var b := repository.Save(NewTodo("Go to Market", "Buy fruits", "Pending", "High"));
    var c := repository.Save(NewTodo("Book Movie Tickets", "Any Movies", "Done", "Medium"));

    var high := repository.FindByPriority("High");
    assert a.id in WithPriority(repository.rows, "High");
    assert b.id in WithPriority(repository.rows, "High");
    assert a in high && b in high && c !in high;
    DistinctListingIsSet(high);
    assert multiset(high) == multiset{a, b};
    assert |high| == 2;

    var service := new TodoServiceImpl(repository);
    var lower := service.GetTodoByPriority("high");
    assert lower == Failure(NotFound(PriorityNotFoundMessage("high")));
  }
}
