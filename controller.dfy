/** The REST layer under /api/todos. Each handler makes one service call and turns
    its result, or the exception it throws, into an HTTP response; the functions
    below are those translations, and TodoController puts them behind the service. */
module Controller {
  import opened Entity
  import opened Text
  import opened Repository
  import opened Service

  datatype Status = Ok200 | Created201 | NoContent204 | BadRequest400 | NotFound404

  function Code(s: Status): (c: int)
    ensures 200 <= c < 300 <==> s in {Ok200, Created201, NoContent204}
  {
    match s
    case Ok200 => 200
    case Created201 => 201
    case NoContent204 => 204
    case BadRequest400 => 400
    case NotFound404 => 404
  }

  predicate IsSuccess(s: Status)
  {
    200 <= Code(s) < 300
  }

  /** A ResponseEntity: a status and an optional body. */
  datatype Response<T> = Response(status: Status, body: Option<T>)

  /** What a handler produces: a response, or an exception it does not catch. */
  datatype Outcome<T> = Answer(response: Response<T>) | Thrown(failure: Failure)

  /** createTodo catches only IllegalArgumentException: 201 with the new todo, or
      400 with no body; any other failure leaves the handler. */
  function CreatedOrBadRequest(r: Result<Todo>): (o: Outcome<Todo>)
    ensures o.Thrown? <==> r.Err? && r.failure != IllegalArgument
    ensures o.Answer? ==> (IsSuccess(o.response.status) <==> r.Ok?)
    ensures r.Ok? ==> o == Answer(Response(Created201, Some(r.value)))
    ensures r == Err(IllegalArgument) ==> o == Answer(Response(BadRequest400, None))
  {
    match r
    case Ok(todo) => Answer(Response(Created201, Some(todo)))
    case Err(IllegalArgument) => Answer(Response(BadRequest400, None))
    case Err(failure) => Thrown(failure)
  }

  /** getTodoById: 200 with the todo when present, 404 with no body otherwise. */
  function FoundOrNotFound(found: Option<Todo>): (resp: Response<Todo>)
    ensures IsSuccess(resp.status) <==> found.Some?
    ensures resp.body == found
    ensures resp.status in {Ok200, NotFound404}
  {
    if found.Some? then Response(Ok200, found) else Response(NotFound404, None)
  }

  /** updateTodo, markAsCompleted, markAsIncomplete: catching RuntimeException
      catches every failure the service has, so each becomes 404. */
  function OkOrNotFound(r: Result<Todo>): (resp: Response<Todo>)
    ensures IsSuccess(resp.status) <==> r.Ok?
    ensures r.Ok? ==> resp == Response(Ok200, Some(r.value))
    ensures r.Err? ==> resp == Response(NotFound404, None)
  {
    if r.Ok? then Response(Ok200, Some(r.value)) else Response(NotFound404, None)
  }

  /** deleteTodo: 204 on success, 404 on any failure, never a body. */
  function NoContentOrNotFound(r: Result<()>): (resp: Response<()>)
    ensures IsSuccess(resp.status) <==> r.Ok?
    ensures resp.body == None
    ensures resp.status in {NoContent204, NotFound404}
  {
    if r.Ok? then Response(NoContent204, None) else Response(NotFound404, None)
  }

  datatype Direction = Ascending | Descending

  /** getAllTodos: "desc" in any letter case sorts descending, anything else ascending. */
  function SortDirection(sortDir: string): (d: Direction)
    ensures d == Descending <==>
      |sortDir| == 4 && sortDir[0] in "dD" && sortDir[1] in "eE"
      && sortDir[2] in "sS" && sortDir[3] in "cC"
  {
    DescLetters(sortDir);
    if EqualsIgnoreCase(sortDir, "desc") then Descending else Ascending
  }

  lemma DescLetters(s: string)
    ensures EqualsIgnoreCase(s, "desc") <==>
      |s| == 4 && s[0] in "dD" && s[1] in "eE" && s[2] in "sS" && s[3] in "cC"
  {
    var target := Fold("desc");
    assert target == "DESC";
    if |s| == 4 {
      FoldsTo(s[0], 'D');
      FoldsTo(s[1], 'E');
      FoldsTo(s[2], 'S');
      FoldsTo(s[3], 'C');
      assert Fold(s) == [UpperChar(s[0]), UpperChar(s[1]), UpperChar(s[2]), UpperChar(s[3])];
    }
  }

  /** The page request getAllTodos passes to the service. */
  datatype PageQuery = PageQuery(page: int, size: int, sortBy: string, direction: Direction)

  const DefaultPage: int := 0
  const DefaultSize: int := 10
  const DefaultSortBy: string := "id"
  const DefaultSortDir: string := "desc"
  const DefaultDaysToKeep: int := 30

  function OrElse<T>(param: Option<T>, default: T): T
  {
    if param.Some? then param.value else default
  }

  /** A string request parameter with a default value: the default applies when the
      parameter is absent and also when it is present but empty. */
  function StringParam(param: Option<string>, default: string): (v: string)
    ensures param.Some? && param.value != "" ==> v == param.value
    ensures param.None? || param.value == "" ==> v == default
  {
    if param.Some? && param.value != "" then param.value else default
  }

  /** The query parameters of getAllTodos, each replaced by its default when absent
      or empty. An int parameter is None when it is absent or empty. */
  function PageQueryOf(page: Option<int>, size: Option<int>, sortBy: Option<string>,
                       sortDir: Option<string>): (q: PageQuery)
    ensures q.page == (if page.Some? then page.value else 0)
    ensures q.size == (if size.Some? then size.value else 10)
    ensures q.sortBy == (if sortBy.Some? && sortBy.value != "" then sortBy.value else "id")
    ensures sortDir.None? || sortDir == Some("") ==> q.direction == Descending
    ensures sortDir.Some? && sortDir.value != "" ==>
      && q.direction == SortDirection(sortDir.value)
      && (q.direction == Descending <==> EqualsIgnoreCase(sortDir.value, "desc"))
  {
    var dir := StringParam(sortDir, DefaultSortDir);
    PageQuery(OrElse(page, DefaultPage), OrElse(size, DefaultSize),
              StringParam(sortBy, DefaultSortBy), SortDirection(dir))
  }

  /** A request with no parameters asks for the first ten todos, highest id first. */
  lemma DefaultPageQuery()
    ensures PageQueryOf(None, None, None, None) == PageQuery(0, 10, "id", Descending)
  {
  }

  /** Empty sortBy and sortDir values fall back to their defaults. */
  lemma EmptyParamsDefault()
    ensures PageQueryOf(None, None, Some(""), Some("")) == PageQuery(0, 10, "id", Descending)
  {
  }

  /** Only a spelling of "desc" turns the order around. */
  lemma SortDirectionExamples()
    ensures SortDirection("desc") == Descending && SortDirection("DESC") == Descending
    ensures SortDirection("DeSc") == Descending
    ensures SortDirection("asc") == Ascending && SortDirection("") == Ascending
    ensures SortDirection("descending") == Ascending && SortDirection("des") == Ascending
  {
  }

  class TodoController {
    const todoService: TodoServiceImpl

    ghost predicate Valid()
      reads todoService.repo
    {
      todoService.Valid()
    }

    constructor (service: TodoServiceImpl)
      requires service.Valid()
      ensures todoService == service
      ensures Valid()
    {
      todoService := service;
    }

    /** POST /api/todos: 400 exactly when the title is missing or blank, otherwise
        201 with the stored todo. */
    method CreateTodo(todo: Draft, now: Time) returns (o: Outcome<Todo>)
      requires Valid()
      modifies todoService.repo
      ensures Valid()
      ensures o.Answer?
      ensures o.response.status == BadRequest400 <==> todo.title.None? || IsBlank(todo.title.value)
      ensures o.response.status != BadRequest400 ==>
        && o.response.status == Created201
        && o.response.body.Some?
        && o.response.body.value.title == todo.title.value
        && o.response.body.value.description == todo.description
        && o.response.body.value.dueDate == todo.dueDate
        && o.response.body.value.priority == (if todo.priority.Some? then todo.priority.value else Medium)
        && o.response.body.value.completed == todo.completed
        && o.response.body.value.createdAt == now && o.response.body.value.updatedAt == now
        && o.response.body.value.id !in old(todoService.repo.table)
        && todoService.repo.table == old(todoService.repo.table)[o.response.body.value.id := o.response.body.value]
        && todoService.repo.FindAll() == old(todoService.repo.FindAll()) + [o.response.body.value]
      ensures o.response.status == BadRequest400 ==>
        o.response.body.None? && unchanged(todoService.repo)
    {
      var created := todoService.CreateTodo(todo, now);
      o := CreatedOrBadRequest(created);
    }

    /** GET /api/todos/{id}. */
    function GetTodoById(id: int): (resp: Response<Todo>)
      reads todoService.repo
      requires Valid()
      ensures resp.status == Ok200 <==> id in todoService.repo.table
      ensures resp.status != Ok200 ==> resp == Response(NotFound404, None)
      ensures resp.status == Ok200 ==> resp.body == Some(todoService.repo.table[id])
    {
      FoundOrNotFound(todoService.repo.FindById(id))
    }

    /** PUT /api/todos/{id}: 404 with nothing changed for a missing id. */
    method UpdateTodo(id: int, details: Patch, now: Time) returns (resp: Response<Todo>)
      requires Valid()
      modifies todoService.repo
      ensures Valid()
      ensures resp.status == Ok200 <==> id in old(todoService.repo.table)
      ensures resp.status != Ok200 ==> resp == Response(NotFound404, None) && unchanged(todoService.repo)
      ensures resp.status == Ok200 ==>
        && resp.body == Some(Touched(old(todoService.repo.table)[id],
                                     Patched(old(todoService.repo.table)[id], details), now))
        && todoService.repo.table == old(todoService.repo.table)[id := resp.body.value]
        && resp.body.value.completed == old(todoService.repo.table)[id].completed
    {
      var updated := todoService.UpdateTodo(id, details, now);
      resp := OkOrNotFound(updated);
    }

    /** DELETE /api/todos/{id}. */
    method DeleteTodo(id: int) returns (resp: Response<()>)
      requires Valid()
      modifies todoService.repo
      ensures Valid()
      ensures resp.status == NoContent204 <==> id in old(todoService.repo.table)
      ensures resp.status != NoContent204 ==> resp == Response(NotFound404, None) && unchanged(todoService.repo)
      ensures resp.status == NoContent204 ==> todoService.repo.table == old(todoService.repo.table) - {id}
    {
      var deleted := todoService.DeleteTodo(id);
      resp := NoContentOrNotFound(deleted);
    }

    /** PATCH /api/todos/{id}/complete. */
    method MarkAsCompleted(id: int, now: Time) returns (resp: Response<Todo>)
      requires Valid()
      modifies todoService.repo
      ensures Valid()
      ensures resp.status == Ok200 <==> id in old(todoService.repo.table)
      ensures resp.status != Ok200 ==> resp == Response(NotFound404, None) && unchanged(todoService.repo)
      ensures resp.status == Ok200 ==>
        && resp.body == Some(Marked(old(todoService.repo.table)[id], true, now))
        && todoService.repo.table == old(todoService.repo.table)[id := resp.body.value]
    {
      var marked := todoService.MarkAsCompleted(id, now);
      resp := OkOrNotFound(marked);
    }

    /** PATCH /api/todos/{id}/incomplete. */
    method MarkAsIncomplete(id: int, now: Time) returns (resp: Response<Todo>)
      requires Valid()
      modifies todoService.repo
      ensures Valid()
      ensures resp.status == Ok200 <==> id in old(todoService.repo.table)
      ensures resp.status != Ok200 ==> resp == Response(NotFound404, None) && unchanged(todoService.repo)
      ensures resp.status == Ok200 ==>
        && resp.body == Some(Marked(old(todoService.repo.table)[id], false, now))
        && todoService.repo.table == old(todoService.repo.table)[id := resp.body.value]
    {
      var marked := todoService.MarkAsIncomplete(id, now);
      resp := OkOrNotFound(marked);
    }

    /** DELETE /api/todos/cleanup: keeps 30 days unless told otherwise (daysToKeep is
        None when the parameter is absent or empty), and always answers 204. */
    method CleanupOldCompletedTodos(daysToKeep: Option<int>, now: Time) returns (resp: Response<()>)
      requires Valid()
      modifies todoService.repo
      ensures Valid()
      ensures resp == Response(NoContent204, None)
      ensures todoService.repo.table ==
        Surviving(old(todoService.repo.table),
                  Cutoff(now, if daysToKeep.Some? then daysToKeep.value else 30))
    {
      todoService.CleanupOldCompletedTodos(OrElse(daysToKeep, DefaultDaysToKeep), now);
      resp := Response(NoContent204, None);
    }
  }
}
