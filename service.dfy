/** The business operations on todos. The service keeps no state of its own: each
    operation reads or changes the table of the repository it was built with. A
    missing id makes an operation fail with NotFound and change nothing; a rejected
    input fails with IllegalArgument. */
module Service {
  import opened Entity
  import opened Text
  import opened Seqs
  import opened Repository

  /** The row updateTodo writes back: each of title, description, due date and
      priority is replaced when the request carries it and kept when it is null;
      no other field moves. */
  function Patched(t: Todo, details: Patch): (u: Todo)
    ensures u.id == t.id && u.completed == t.completed
    ensures u.createdAt == t.createdAt && u.updatedAt == t.updatedAt
    ensures u.title == (if details.title.Some? then details.title.value else t.title)
    ensures u.description == (if details.description.Some? then details.description else t.description)
    ensures u.dueDate == (if details.dueDate.Some? then details.dueDate else t.dueDate)
    ensures u.priority == (if details.priority.Some? then details.priority.value else t.priority)
  {
    var withTitle := if details.title.Some? then t.(title := details.title.value) else t;
    var withDescription :=
      if details.description.Some? then withTitle.(description := details.description) else withTitle;
    var withDueDate :=
      if details.dueDate.Some? then withDescription.(dueDate := details.dueDate) else withDescription;
    if details.priority.Some? then withDueDate.(priority := details.priority.value) else withDueDate
  }

  /** A request with every field null leaves the row as it is. */
  lemma EmptyPatchKeepsRow(t: Todo)
    ensures Patched(t, Patch(None, None, None, None)) == t
  {
  }

  /** Sending the same update twice has the effect of sending it once. */
  lemma PatchIdempotent(t: Todo, details: Patch)
    ensures Patched(Patched(t, details), details) == Patched(t, details)
  {
  }

  /** The row markAsCompleted (done true) or markAsIncomplete (done false) stores. */
  function Marked(t: Todo, done: bool, now: Time): (u: Todo)
    ensures u.completed == done
    ensures u.(completed := t.completed, updatedAt := t.updatedAt) == t
    ensures t.completed == done ==> u == t
    ensures t.completed != done ==> u.updatedAt == now
  {
    Touched(t, t.(completed := done), now)
  }

  /** Marking a todo a second time, at any later moment, stores the same row. */
  lemma MarkedIdempotent(t: Todo, done: bool, now: Time, later: Time)
    ensures Marked(Marked(t, done, now), done, later) == Marked(t, done, now)
  {
  }

  /** The description matches the term and the title does not. */
  function DescriptionOnly(term: string): Todo -> bool
  {
    (t: Todo) => DescriptionContains(term)(t) && !TitleContains(term)(t)
  }

  function HighOrUrgent(): Todo -> bool
  {
    (t: Todo) => t.priority == High || t.priority == Urgent
  }

  /** The cutoff of cleanupOldCompletedTodos: daysToKeep whole days before now. */
  function Cutoff(now: Time, daysToKeep: int): (c: Time)
    ensures now - c == daysToKeep * SecondsPerDay
    ensures DateOf(now) - DateOf(c) == daysToKeep
  {
    CutoffDate(now, daysToKeep);
    now - daysToKeep * SecondsPerDay
  }

  lemma CutoffDate(now: Time, days: int)
    ensures DateOf(now) - DateOf(now - days * SecondsPerDay) == days
  {
    var q := DateOf(now);
    var r := now % SecondsPerDay;
    assert now == q * SecondsPerDay + r;
    assert now - days * SecondsPerDay == (q - days) * SecondsPerDay + r;
  }

  /** Cleaning up keeps every incomplete todo, in order. */
  lemma {:induction false} CleanupKeepsIncomplete(rows: seq<Todo>, cutoff: Time)
    ensures FindByCompleted(Filter(rows, Survives(cutoff)), false) == FindByCompleted(rows, false)
  {
    FilterFilter(rows, Survives(cutoff), CompletedIs(false), CompletedIs(false));
  }

  /** A second cleanup with the same cutoff removes nothing. */
  lemma CleanupIdempotent(table: map<int, Todo>, cutoff: Time)
    ensures Surviving(Surviving(table, cutoff), cutoff) == Surviving(table, cutoff)
  {
    var once := Surviving(table, cutoff);
    assert Surviving(once, cutoff).Keys == once.Keys;
  }

  datatype TodoStatistics = TodoStatistics(
    totalTodos: nat,
    completedTodos: nat,
    incompleteTodos: nat,
    overdueTodos: nat,
    highPriorityTodos: nat)

  class TodoServiceImpl {
    const repo: TodoRepository

    ghost predicate Valid()
      reads repo
    {
      repo.Valid()
    }

    constructor (todoRepository: TodoRepository)
      requires todoRepository.Valid()
      ensures repo == todoRepository
      ensures Valid()
    {
      repo := todoRepository;
    }

    /** createTodo: a missing or blank title is rejected; otherwise the todo is
        stored with MEDIUM priority when it has none, under a fresh id, at the end
        of the table. */
    method CreateTodo(todo: Draft, now: Time) returns (r: Result<Todo>)
      requires Valid()
      modifies repo
      ensures Valid()
      ensures r.Err? <==> todo.title.None? || IsBlank(todo.title.value)
      ensures r.Err? ==> r.failure == IllegalArgument && unchanged(repo)
      ensures r.Ok? ==>
        && r.value.title == todo.title.value
        && r.value.description == todo.description
        && r.value.dueDate == todo.dueDate
        && r.value.priority == (if todo.priority.Some? then todo.priority.value else Medium)
        && r.value.completed == todo.completed
        && r.value.createdAt == now && r.value.updatedAt == now
        && r.value.id !in old(repo.table)
        && repo.table == old(repo.table)[r.value.id := r.value]
        && repo.FindAll() == old(repo.FindAll()) + [r.value]
    {
      if todo.title.None? || IsBlank(todo.title.value) {
        return Err(IllegalArgument);
      }
      var priority := todo.priority;
      if priority.None? {
        priority := Some(Medium);
      }
      var entity := Todo(0, todo.title.value, todo.description, todo.dueDate,
                         priority.value, todo.completed, now, now);
      var saved := repo.Insert(entity, now);
      r := Ok(saved);
    }

    /** updateTodo: overwrites the non-null fields of the request on the stored row;
        the completion flag, and every other row, stay as they were. */
    method UpdateTodo(id: int, details: Patch, now: Time) returns (r: Result<Todo>)
      requires Valid()
      modifies repo
      ensures Valid()
      ensures id !in old(repo.table) ==> r == Err(NotFound(id)) && unchanged(repo)
      ensures id in old(repo.table) ==>
        && r.Ok?
        && r.value == Touched(old(repo.table)[id], Patched(old(repo.table)[id], details), now)
        && r.value.id == id
        && r.value.completed == old(repo.table)[id].completed
        && repo.table == old(repo.table)[id := r.value]
        && repo.ids == old(repo.ids)
      ensures forall done :: CountByCompleted(repo.FindAll(), done) == CountByCompleted(old(repo.FindAll()), done)
    {
      var existing := repo.FindById(id);
      if existing.None? {
        return Err(NotFound(id));
      }
      var todo := existing.value;
      if details.title.Some? {
        todo := todo.(title := details.title.value);
      }
      if details.description.Some? {
        todo := todo.(description := details.description);
      }
      if details.dueDate.Some? {
        todo := todo.(dueDate := details.dueDate);
      }
      if details.priority.Some? {
        todo := todo.(priority := details.priority.value);
      }
      assert todo == Patched(existing.value, details);
      ghost var before := repo.table;
      var saved := repo.Save(todo, now);
      forall done: bool
        ensures CountByCompleted(repo.FindAll(), done) == CountByCompleted(old(repo.FindAll()), done)
      {
        CountAfterOverwrite(before, repo.ids, id, saved, CompletedIs(done));
      }
      r := Ok(saved);
    }

    /** deleteTodo: fails on a missing id; otherwise removes exactly that row. */
    method DeleteTodo(id: int) returns (r: Result<()>)
      requires Valid()
      modifies repo
      ensures Valid()
      ensures id !in old(repo.table) ==> r == Err(NotFound(id)) && unchanged(repo)
      ensures id in old(repo.table) ==>
        && r == Ok(())
        && repo.table == old(repo.table) - {id}
        && repo.FindAll() == Filter(old(repo.FindAll()), IdIsNot(id))
    {
      if !repo.ExistsById(id) {
        return Err(NotFound(id));
      }
      repo.DeleteById(id);
      r := Ok(());
    }

    /** markAsCompleted: sets the flag of an existing row and changes nothing else. */
    method MarkAsCompleted(id: int, now: Time) returns (r: Result<Todo>)
      requires Valid()
      modifies repo
      ensures Valid()
      ensures id !in old(repo.table) ==> r == Err(NotFound(id)) && unchanged(repo)
      ensures id in old(repo.table) ==>
        && r == Ok(Marked(old(repo.table)[id], true, now))
        && repo.table == old(repo.table)[id := r.value]
        && repo.ids == old(repo.ids)
    {
      var found := repo.FindById(id);
      if found.None? {
        return Err(NotFound(id));
      }
      var todo := found.value.(completed := true);
      var saved := repo.Save(todo, now);
      r := Ok(saved);
    }

    /** markAsIncomplete: clears the flag of an existing row and changes nothing else. */
    method MarkAsIncomplete(id: int, now: Time) returns (r: Result<Todo>)
      requires Valid()
      modifies repo
      ensures Valid()
      ensures id !in old(repo.table) ==> r == Err(NotFound(id)) && unchanged(repo)
      ensures id in old(repo.table) ==>
        && r == Ok(Marked(old(repo.table)[id], false, now))
        && repo.table == old(repo.table)[id := r.value]
        && repo.ids == old(repo.ids)
    {
      var found := repo.FindById(id);
      if found.None? {
        return Err(NotFound(id));
      }
      var todo := found.value.(completed := false);
      var saved := repo.Save(todo, now);
      r := Ok(saved);
    }

    /** searchTodos: a missing or blank term lists every todo; otherwise the todos
        whose title contains the trimmed term, then those whose description does
        but whose title does not, each once. */
    method SearchTodos(searchTerm: Option<string>) returns (r: seq<Todo>)
      requires Valid()
      ensures NoDuplicates(r)
      ensures searchTerm.None? || IsBlank(searchTerm.value) ==> r == repo.FindAll()
      ensures searchTerm.Some? && !IsBlank(searchTerm.value) ==>
        var term := Trim(searchTerm.value);
        && r == FindByTitleContainingIgnoreCase(repo.FindAll(), term)
                + Filter(repo.FindAll(), DescriptionOnly(term))
        && forall t :: t in r <==>
             (t in repo.FindAll()
              && (ContainsIgnoreCase(t.title, term)
                  || (t.description.Some? && ContainsIgnoreCase(t.description.value, term))))
    {
      var rows := repo.FindAll();
      if searchTerm.None? || IsBlank(searchTerm.value) {
        return rows;
      }
      var trimmedTerm := Trim(searchTerm.value);
      var titleResults := FindByTitleContainingIgnoreCase(rows, trimmedTerm);
      var descriptionResults := FindByDescriptionContainingIgnoreCase(rows, trimmedTerm);
      FilterNoDuplicates(rows, TitleContains(trimmedTerm));
      FilterNoDuplicates(rows, DescriptionContains(trimmedTerm));
      DistinctAppend(titleResults, descriptionResults);
      forall t | t in rows
        ensures DescriptionOnly(trimmedTerm)(t)
             == (DescriptionContains(trimmedTerm)(t) && NotIn(titleResults)(t))
      {
      }
      FilterFilter(rows, DescriptionContains(trimmedTerm), NotIn(titleResults),
                   DescriptionOnly(trimmedTerm));
      titleResults := titleResults + descriptionResults;
      r := Distinct(titleResults);
    }

    /** getTodosDueThisWeek: the incomplete todos due from midnight today up to and
        including midnight seven days later. */
    function GetTodosDueThisWeek(now: Time): (r: seq<Todo>)
      reads repo
      requires Valid()
      ensures forall t :: t in r <==>
        t in repo.FindAll() && !t.completed && t.dueDate.Some?
        && StartOfDay(now) <= t.dueDate.value <= StartOfDay(now) + 7 * SecondsPerDay
      ensures forall t :: t in r ==> DateOf(now) <= DateOf(t.dueDate.value) <= DateOf(now) + 7
    {
      var startOfWeek := StartOfDay(now);
      var endOfWeek := startOfWeek + 7 * SecondsPerDay;
      WeekDates(now);
      FindTodosDueThisWeek(repo.FindAll(), startOfWeek, endOfWeek)
    }

    /** getTodoStatistics: the counts the statistics endpoint reports. */
    function GetTodoStatistics(now: Time): (s: TodoStatistics)
      reads repo
      requires Valid()
      ensures s.totalTodos == |repo.table|
      ensures s.completedTodos + s.incompleteTodos == s.totalTodos
      ensures s.completedTodos == |FindByCompleted(repo.FindAll(), true)|
      ensures s.incompleteTodos == |FindByCompleted(repo.FindAll(), false)|
      ensures s.overdueTodos == |FindOverdueTodos(repo.FindAll(), now)|
      ensures s.overdueTodos <= s.incompleteTodos
      ensures s.highPriorityTodos == |Filter(repo.FindAll(), HighOrUrgent())|
      ensures s.highPriorityTodos >= |FindHighPriorityIncompleteTodos(repo.FindAll())|
    {
      var rows := repo.FindAll();
      CompletedAndIncompleteAddUp(rows);
      CountMonotone(rows, Overdue(now), CompletedIs(false));
      CountDisjointUnion(rows, PriorityIs(High), PriorityIs(Urgent), HighOrUrgent());
      CountMonotone(rows, IsHighPriorityIncomplete, HighOrUrgent());
      HighPriorityIncompleteSize(rows);
      TodoStatistics(
        repo.Count(),
        CountByCompleted(rows, true),
        CountByCompleted(rows, false),
        |FindOverdueTodos(rows, now)|,
        CountByPriority(rows, High) + CountByPriority(rows, Urgent))
    }

    /** cleanupOldCompletedTodos: deletes the completed todos last updated more
        than daysToKeep days before now. */
    method CleanupOldCompletedTodos(daysToKeep: int, now: Time)
      requires Valid()
      modifies repo
      ensures Valid()
      ensures repo.table == Surviving(old(repo.table), Cutoff(now, daysToKeep))
      ensures repo.FindAll() == Filter(old(repo.FindAll()), Survives(Cutoff(now, daysToKeep)))
    {
      var cutoffDate := Cutoff(now, daysToKeep);
      repo.DeleteOldCompletedTodos(cutoffDate);
    }
  }

  /** Every time in the week window falls on today's date or one of the next seven. */
  lemma WeekDates(now: Time)
    ensures forall d :: StartOfDay(now) <= d <= StartOfDay(now) + 7 * SecondsPerDay ==>
      DateOf(now) <= DateOf(d) <= DateOf(now) + 7
  {
    var day := DateOf(now);
    forall d | StartOfDay(now) <= d <= StartOfDay(now) + 7 * SecondsPerDay
      ensures day <= DateOf(d) <= day + 7
    {
      DateOfMonotone(day * SecondsPerDay, d);
      DateOfMonotone(d, (day + 7) * SecondsPerDay);
      DateOfMidnight(day);
      DateOfMidnight(day + 7);
    }
  }

  lemma DateOfMonotone(a: Time, b: Time)
    requires a <= b
    ensures DateOf(a) <= DateOf(b)
  {
  }

  lemma DateOfMidnight(day: int)
    ensures DateOf(day * SecondsPerDay) == day
  {
  }

  /** The sorted high-priority list has as many entries as the matching rows. */
  lemma HighPriorityIncompleteSize(rows: seq<Todo>)
    ensures |FindHighPriorityIncompleteTodos(rows)| == Count(rows, IsHighPriorityIncomplete)
  {
    var r := FindHighPriorityIncompleteTodos(rows);
    assert |multiset(r)| == |multiset(Filter(rows, IsHighPriorityIncomplete))|;
  }
}
