/** The todo table and the repository's queries. Every finder and count is a
    filter or a count over the table's rows; the table itself is a map from id to
    row owned by the TodoRepository class, together with the order in which the
    rows come back from a query that has no ORDER BY. */
module Repository {
  import opened Entity
  import opened Text
  import opened Seqs

  // ---------------------------------------------------------------------------
  // WHERE conditions. A comparison with a NULL due date is unknown, which a WHERE
  // clause treats as false, so a todo without a due date matches none of the
  // date conditions.
  // ---------------------------------------------------------------------------

  function CompletedIs(completed: bool): Todo -> bool
  {
    (t: Todo) => t.completed == completed
  }

  function PriorityIs(priority: Priority): Todo -> bool
  {
    (t: Todo) => t.priority == priority
  }

  function TitleContains(text: string): Todo -> bool
  {
    (t: Todo) => ContainsIgnoreCase(t.title, text)
  }

  function DescriptionContains(text: string): Todo -> bool
  {
    (t: Todo) => t.description.Some? && ContainsIgnoreCase(t.description.value, text)
  }

  function Overdue(now: Time): Todo -> bool
  {
    (t: Todo) => t.dueDate.Some? && t.dueDate.value < now && !t.completed
  }

  function DueOn(today: Time): Todo -> bool
  {
    (t: Todo) => t.dueDate.Some? && DateOf(t.dueDate.value) == DateOf(today) && !t.completed
  }

  function DueBetween(start: Time, end: Time): Todo -> bool
  {
    (t: Todo) => t.dueDate.Some? && start <= t.dueDate.value <= end && !t.completed
  }

  function CompletedSince(since: Time): Todo -> bool
  {
    (t: Todo) => t.completed && t.createdAt >= since
  }

  function IdIsNot(id: int): Todo -> bool
  {
    (t: Todo) => t.id != id
  }

  predicate IsHighPriorityIncomplete(t: Todo)
  {
    (t.priority == High || t.priority == Urgent) && !t.completed
  }

  predicate IsOldCompleted(t: Todo, olderThan: Time)
  {
    t.completed && t.updatedAt < olderThan
  }

  function Survives(olderThan: Time): Todo -> bool
  {
    (t: Todo) => !IsOldCompleted(t, olderThan)
  }

  // ---------------------------------------------------------------------------
  // Finders and counts over the rows of the table
  // ---------------------------------------------------------------------------

  /** findByCompleted */
  function FindByCompleted(rows: seq<Todo>, completed: bool): (r: seq<Todo>)
    ensures forall t :: t in r <==> t in rows && t.completed == completed
  {
    Filter(rows, CompletedIs(completed))
  }

  /** findByPriority */
  function FindByPriority(rows: seq<Todo>, priority: Priority): (r: seq<Todo>)
    ensures forall t :: t in r <==> t in rows && t.priority == priority
  {
    Filter(rows, PriorityIs(priority))
  }

  /** findByTitleContainingIgnoreCase */
  function FindByTitleContainingIgnoreCase(rows: seq<Todo>, text: string): (r: seq<Todo>)
    ensures forall t :: t in r <==> t in rows && Contains(Fold(t.title), Fold(text))
  {
    Filter(rows, TitleContains(text))
  }

  /** findByDescriptionContainingIgnoreCase: a null description matches nothing. */
  function FindByDescriptionContainingIgnoreCase(rows: seq<Todo>, text: string): (r: seq<Todo>)
    ensures forall t :: t in r <==>
      t in rows && t.description.Some? && Contains(Fold(t.description.value), Fold(text))
  {
    Filter(rows, DescriptionContains(text))
  }

  /** findOverdueTodos: incomplete todos due strictly before now. */
  function FindOverdueTodos(rows: seq<Todo>, now: Time): (r: seq<Todo>)
    ensures forall t :: t in r <==>
      t in rows && !t.completed && t.dueDate.Some? && t.dueDate.value < now
  {
    Filter(rows, Overdue(now))
  }

  /** findTodosDueToday: incomplete todos due between midnight of today's date
      (inclusive) and the next midnight (exclusive). */
  function FindTodosDueToday(rows: seq<Todo>, today: Time): (r: seq<Todo>)
    ensures forall t :: t in r <==>
      t in rows && !t.completed && t.dueDate.Some?
      && StartOfDay(today) <= t.dueDate.value < StartOfDay(today) + SecondsPerDay
  {
    DueOnIffWithinDay(today);
    Filter(rows, DueOn(today))
  }

  lemma DueOnIffWithinDay(today: Time)
    ensures forall t: Todo :: DueOn(today)(t) <==>
      t.dueDate.Some? && !t.completed
      && StartOfDay(today) <= t.dueDate.value < StartOfDay(today) + SecondsPerDay
  {
    forall t: Todo | t.dueDate.Some? {
      SameDateIffSameDay(t.dueDate.value, today);
    }
  }

  /** Two times fall on the same date exactly when the first lies in the day that
      starts at the second's midnight. */
  lemma SameDateIffSameDay(d: Time, today: Time)
    ensures DateOf(d) == DateOf(today) <==>
      StartOfDay(today) <= d < StartOfDay(today) + SecondsPerDay
  {
    var s := StartOfDay(today);
    if s <= d < s + SecondsPerDay {
      assert d / SecondsPerDay == s / SecondsPerDay;
    } else if d < s {
      assert d / SecondsPerDay < s / SecondsPerDay;
    } else {
      assert d / SecondsPerDay > s / SecondsPerDay;
    }
  }

  /** findTodosDueThisWeek: BETWEEN includes both ends. */
  function FindTodosDueThisWeek(rows: seq<Todo>, startOfWeek: Time, endOfWeek: Time): (r: seq<Todo>)
    ensures forall t :: t in r <==>
      t in rows && !t.completed && t.dueDate.Some? && startOfWeek <= t.dueDate.value <= endOfWeek
  {
    Filter(rows, DueBetween(startOfWeek, endOfWeek))
  }

  /** countByCompleted: the number of rows findByCompleted returns. */
  function CountByCompleted(rows: seq<Todo>, completed: bool): (n: nat)
    ensures n == |FindByCompleted(rows, completed)|
    ensures n <= |rows|
  {
    Count(rows, CompletedIs(completed))
  }

  /** countByPriority: the number of rows findByPriority returns. */
  function CountByPriority(rows: seq<Todo>, priority: Priority): (n: nat)
    ensures n == |FindByPriority(rows, priority)|
  {
    Count(rows, PriorityIs(priority))
  }

  /** Every row is either completed or not. */
  lemma CompletedAndIncompleteAddUp(rows: seq<Todo>)
    ensures CountByCompleted(rows, true) + CountByCompleted(rows, false) == |rows|
  {
    CountComplement(rows, CompletedIs(true), CompletedIs(false));
  }

  /** findRecentlyCompletedTodos: completed todos CREATED at or after since (the
      query looks at the creation time, not at when the todo was completed). */
  function FindRecentlyCompletedTodos(rows: seq<Todo>, since: Time): (r: seq<Todo>)
    ensures forall t :: t in r <==> t in rows && t.completed && t.createdAt >= since
  {
    Filter(rows, CompletedSince(since))
  }

  // ---------------------------------------------------------------------------
  // ORDER BY dueDate ASC; PostgreSQL sorts NULLs last in ascending order.
  // ---------------------------------------------------------------------------

  predicate DueNoLater(a: Todo, b: Todo)
  {
    match (a.dueDate, b.dueDate)
    case (_, None) => true
    case (None, Some(_)) => false
    case (Some(x), Some(y)) => x <= y
  }

  predicate SortedByDueDate(s: seq<Todo>)
  {
    forall i, j :: 0 <= i < j < |s| ==> DueNoLater(s[i], s[j])
  }

  /** The one-step insertion of an insertion sort. */
  function InsertByDueDate(t: Todo, s: seq<Todo>): seq<Todo>
  {
    if s == [] || DueNoLater(t, s[0]) then [t] + s
    else [s[0]] + InsertByDueDate(t, s[1..])
  }

  lemma {:induction false} InsertByDueDateSorted(t: Todo, s: seq<Todo>)
    requires SortedByDueDate(s)
    ensures SortedByDueDate(InsertByDueDate(t, s))
    ensures multiset(InsertByDueDate(t, s)) == multiset(s) + multiset{t}
  {
    InsertByDueDatePermutes(t, s);
    if s != [] && !DueNoLater(t, s[0]) {
      var rest := InsertByDueDate(t, s[1..]);
      InsertByDueDateSorted(t, s[1..]);
      forall j | 0 <= j < |rest| ensures DueNoLater(s[0], rest[j]) {
        assert rest[j] in multiset(s[1..]) + multiset{t};
        if rest[j] != t {
          var k :| 0 <= k < |s[1..]| && s[1..][k] == rest[j];
          assert s[k + 1] == rest[j];
        }
      }
      assert InsertByDueDate(t, s) == [s[0]] + rest;
    }
  }

  lemma {:induction false} InsertByDueDatePermutes(t: Todo, s: seq<Todo>)
    ensures multiset(InsertByDueDate(t, s)) == multiset(s) + multiset{t}
  {
    if s != [] && !DueNoLater(t, s[0]) {
      InsertByDueDatePermutes(t, s[1..]);
      assert s == [s[0]] + s[1..];
    }
  }

  /** Insertion sort by due date; the relative order of equal due dates is not
      promised by the query and is whatever the sort yields. */
  function SortByDueDate(s: seq<Todo>): (r: seq<Todo>)
    ensures SortedByDueDate(r)
    ensures multiset(r) == multiset(s)
  {
    if s == [] then []
    else
      var rest := SortByDueDate(s[1..]);
      InsertByDueDateSorted(s[0], rest);
      assert s == [s[0]] + s[1..];
      InsertByDueDate(s[0], rest)
  }

  /** findHighPriorityIncompleteTodos: the incomplete HIGH and URGENT todos,
      earliest due date first, undated ones last. */
  function FindHighPriorityIncompleteTodos(rows: seq<Todo>): (r: seq<Todo>)
    ensures SortedByDueDate(r)
    ensures multiset(r) == multiset(Filter(rows, IsHighPriorityIncomplete))
    ensures forall t :: t in r <==>
      t in rows && (t.priority == High || t.priority == Urgent) && !t.completed
  {
    var matching := Filter(rows, IsHighPriorityIncomplete);
    var r := SortByDueDate(matching);
    assert forall t :: t in r <==> t in multiset(r);
    assert forall t :: t in matching <==> t in multiset(matching);
    r
  }

  // ---------------------------------------------------------------------------
  // The table
  // ---------------------------------------------------------------------------

  predicate StrictlyIncreasing(ids: seq<int>)
  {
    forall i, j :: 0 <= i < j < |ids| ==> ids[i] < ids[j]
  }

  predicate AllIn(ids: seq<int>, table: map<int, Todo>)
  {
    forall i :: 0 <= i < |ids| ==> ids[i] in table
  }

  /** The table's invariant: ids lists every key once, in ascending order; each row
      carries its own key; every key is below the next id to be handed out. */
  predicate TableValid(table: map<int, Todo>, ids: seq<int>, nextId: int)
  {
    && StrictlyIncreasing(ids)
    && AllIn(ids, table)
    && (forall k :: k in table ==> k in ids)
    && (forall k :: k in table ==> table[k].id == k && k < nextId)
  }

  /** The rows of table listed in the order of ids. */
  function RowsOf(table: map<int, Todo>, ids: seq<int>): (rows: seq<Todo>)
    requires AllIn(ids, table)
    ensures |rows| == |ids|
    ensures forall i :: 0 <= i < |ids| ==> rows[i] == table[ids[i]]
  {
    if ids == [] then [] else [table[ids[0]]] + RowsOf(table, ids[1..])
  }

  /** Filtering the id list filters the rows, when the id test agrees with the
      row test and the surviving rows are left as they were. */
  lemma {:induction false} RowsOfFilter(table: map<int, Todo>, table': map<int, Todo>,
                                        ids: seq<int>, keep: int -> bool, p: Todo -> bool)
    requires AllIn(ids, table)
    requires forall i :: 0 <= i < |ids| ==> keep(ids[i]) == p(table[ids[i]])
    requires forall i :: 0 <= i < |ids| && keep(ids[i]) ==>
      ids[i] in table' && table'[ids[i]] == table[ids[i]]
    ensures AllIn(Filter(ids, keep), table')
    ensures RowsOf(table', Filter(ids, keep)) == Filter(RowsOf(table, ids), p)
  {
    if ids != [] {
      var rest := ids[1..];
      RowsOfFilter(table, table', rest, keep, p);
      var head := if keep(ids[0]) then [ids[0]] else [];
      var kept := Filter(ids, keep);
      assert kept == head + Filter(rest, keep);
      var rows := RowsOf(table, ids);
      assert rows[1..] == RowsOf(table, rest);
      assert Filter(rows, p) == (if p(rows[0]) then [rows[0]] else []) + Filter(rows[1..], p);
      if keep(ids[0]) {
        assert AllIn(kept, table');
        assert RowsOf(table', kept)[1..] == RowsOf(table', Filter(rest, keep));
      }
    }
  }

  /** Overwriting a row with one that agrees on p leaves the count of p unchanged. */
  lemma {:induction false} CountAfterOverwrite(table: map<int, Todo>, ids: seq<int>, id: int,
                                               u: Todo, p: Todo -> bool)
    requires AllIn(ids, table)
    requires id in table && p(u) == p(table[id])
    ensures Count(RowsOf(table[id := u], ids), p) == Count(RowsOf(table, ids), p)
  {
    if ids != [] {
      CountAfterOverwrite(table, ids[1..], id, u, p);
      assert RowsOf(table, ids)[1..] == RowsOf(table, ids[1..]);
      assert RowsOf(table[id := u], ids)[1..] == RowsOf(table[id := u], ids[1..]);
    }
  }

  /** The rows of a table whose ids are listed once each, in ascending order. */
  lemma RowsOfTable(table: map<int, Todo>, ids: seq<int>)
    requires StrictlyIncreasing(ids)
    requires AllIn(ids, table)
    requires forall k :: k in table ==> k in ids
    requires forall k :: k in table ==> table[k].id == k
    ensures |RowsOf(table, ids)| == |table|
    ensures NoDuplicates(RowsOf(table, ids))
    ensures forall t :: t in RowsOf(table, ids) <==> t.id in table && table[t.id] == t
  {
    RowsOfTableSize(table, ids);
    RowsOfTableMembers(table, ids);
    var rows := RowsOf(table, ids);
    forall i, j | 0 <= i < j < |rows| ensures rows[i] != rows[j] {
      assert rows[i].id == ids[i] && rows[j].id == ids[j];
    }
  }

  lemma RowsOfTableSize(table: map<int, Todo>, ids: seq<int>)
    requires StrictlyIncreasing(ids)
    requires AllIn(ids, table)
    requires forall k :: k in table ==> k in ids
    ensures |RowsOf(table, ids)| == |table|
  {
    DistinctIdsCount(ids);
    var listed := set k | k in ids;
    forall k | k in ids ensures k in table {
      var i :| 0 <= i < |ids| && ids[i] == k;
    }
    forall k | k in table.Keys ensures k in listed {
      assert k in ids;
    }
    assert table.Keys == listed;
    assert |table| == |table.Keys|;
  }

  lemma RowsOfTableMembers(table: map<int, Todo>, ids: seq<int>)
    requires AllIn(ids, table)
    requires forall k :: k in table ==> k in ids
    requires forall k :: k in table ==> table[k].id == k
    ensures forall t :: t in RowsOf(table, ids) <==> t.id in table && table[t.id] == t
  {
    var rows := RowsOf(table, ids);
    forall t | t in rows ensures t.id in table && table[t.id] == t {
      var i :| 0 <= i < |rows| && rows[i] == t;
      assert ids[i] in table && t == table[ids[i]];
      assert t.id == ids[i];
    }
    forall t: Todo | t.id in table && table[t.id] == t ensures t in rows {
      var i :| 0 <= i < |ids| && ids[i] == t.id;
      assert rows[i] == t;
    }
  }

  /** A strictly increasing id list has as many distinct ids as entries. */
  lemma {:induction false} DistinctIdsCount(ids: seq<int>)
    requires StrictlyIncreasing(ids)
    ensures |set k | k in ids| == |ids|
  {
    if ids != [] {
      DistinctIdsCount(ids[1..]);
      assert (set k | k in ids) == {ids[0]} + (set k | k in ids[1..]);
      assert ids[0] !in (set k | k in ids[1..]);
    }
  }

  lemma {:induction false} FilterKeepsIncreasing(ids: seq<int>, keep: int -> bool)
    requires StrictlyIncreasing(ids)
    ensures StrictlyIncreasing(Filter(ids, keep))
  {
    if ids != [] {
      FilterKeepsIncreasing(ids[1..], keep);
      var rest := Filter(ids[1..], keep);
      assert forall j :: 0 <= j < |rest| ==> rest[j] in ids[1..];
    }
  }

  /** The row a save of `after` over `before` stores: the entity's update hook sets
      updatedAt to now only when the save changes the row. */
  function Touched(before: Todo, after: Todo, now: Time): (r: Todo)
    ensures after == before ==> r == before
    ensures r.(updatedAt := after.updatedAt) == after
    ensures r != before ==> r.updatedAt == now
  {
    if after == before then before else after.(updatedAt := now)
  }

  /** A PostgreSQL table of todos behind Spring Data's JpaRepository. Ids come from
      a sequence, so the ids of the rows ascend in insertion order; `ids` lists them
      in that order, which is the order a query without ORDER BY is taken to return. */
  class TodoRepository {
    var table: map<int, Todo>
    var ids: seq<int>
    var nextId: int

    ghost predicate Valid()
      reads this
    {
      TableValid(table, ids, nextId)
    }

    constructor ()
      ensures Valid()
      ensures table == map[] && ids == []
    {
      table := map[];
      ids := [];
      nextId := 1;
    }

    /** findAll: every row once, in row order. */
    function FindAll(): (rows: seq<Todo>)
      reads this
      requires Valid()
      ensures |rows| == |table|
      ensures NoDuplicates(rows)
      ensures forall t :: t in rows <==> t.id in table && table[t.id] == t
    {
      RowsOfTable(table, ids);
      RowsOf(table, ids)
    }

    /** findById */
    function FindById(id: int): (r: Option<Todo>)
      reads this
      requires Valid()
      ensures r.Some? <==> id in table
      ensures r.Some? ==> r.value == table[id] && r.value.id == id
    {
      if id in table then Some(table[id]) else None
    }

    /** existsById */
    predicate ExistsById(id: int)
      reads this
      requires Valid()
      ensures ExistsById(id) <==> FindById(id).Some?
    {
      id in table
    }

    /** count: the number of rows. */
    function Count(): (n: nat)
      reads this
      requires Valid()
      ensures n == |FindAll()|
    {
      |table|
    }

    /** save of a new entity: it is given a fresh id and, by the entity's creation
        hook, both timestamps are set to now; the row goes at the end of the table. */
    method Insert(t: Todo, now: Time) returns (saved: Todo)
      requires Valid()
      modifies this
      ensures Valid()
      ensures saved == t.(id := saved.id, createdAt := now, updatedAt := now)
      ensures saved.id !in old(table)
      ensures table == old(table)[saved.id := saved]
      ensures FindAll() == old(FindAll()) + [saved]
    {
      saved := t.(id := nextId, createdAt := now, updatedAt := now);
      InsertRow(table, ids, nextId, saved);
      table := table[nextId := saved];
      ids := ids + [nextId];
      nextId := nextId + 1;
    }

    /** save of an existing row: the row is overwritten, and the entity's update hook
        refreshes updatedAt when the save changes anything. */
    method Save(t: Todo, now: Time) returns (saved: Todo)
      requires Valid() && t.id in table
      modifies this
      ensures Valid()
      ensures saved == Touched(old(table)[t.id], t, now)
      ensures table == old(table)[t.id := saved] && ids == old(ids)
    {
      saved := Touched(table[t.id], t, now);
      table := table[t.id := saved];
    }

    /** deleteById: the row with that id, if any, disappears; the others stay in order. */
    method DeleteById(id: int)
      requires Valid()
      modifies this
      ensures Valid()
      ensures table == old(table) - {id}
      ensures FindAll() == Filter(old(FindAll()), IdIsNot(id))
    {
      DeleteRow(table, ids, nextId, id);
      table := table - {id};
      ids := Filter(ids, KeyIsNot(id));
    }

    /** deleteOldCompletedTodos: removes exactly the completed rows last updated
        before olderThan; every other row stays, in order. */
    method DeleteOldCompletedTodos(olderThan: Time)
      requires Valid()
      modifies this
      ensures Valid()
      ensures table == Surviving(old(table), olderThan)
      ensures FindAll() == Filter(old(FindAll()), Survives(olderThan))
    {
      var before := table;
      SurvivingRows(before, ids, nextId, olderThan);
      table := Surviving(before, olderThan);
      ids := Filter(ids, KeptIds(before, olderThan));
    }
  }

  /** A new row under the next id goes at the end of the row order. */
  lemma InsertRow(table: map<int, Todo>, ids: seq<int>, nextId: int, t: Todo)
    requires TableValid(table, ids, nextId)
    requires t.id == nextId
    ensures TableValid(table[nextId := t], ids + [nextId], nextId + 1)
    ensures RowsOf(table[nextId := t], ids + [nextId]) == RowsOf(table, ids) + [t]
  {
    var table' := table[nextId := t];
    var ids' := ids + [nextId];
    forall i | 0 <= i < |ids| ensures ids[i] < nextId {
      assert ids[i] in table;
    }
    assert AllIn(ids', table');
    var rows := RowsOf(table, ids);
    var rows' := RowsOf(table', ids');
    forall i | 0 <= i < |ids'| ensures rows'[i] == (rows + [t])[i] {
      if i < |ids| {
        assert ids'[i] == ids[i] && ids[i] != nextId;
      }
    }
  }

  function KeyIsNot(id: int): int -> bool
  {
    (k: int) => k != id
  }

  /** Deleting one id drops exactly its row from the row order. */
  lemma DeleteRow(table: map<int, Todo>, ids: seq<int>, nextId: int, id: int)
    requires TableValid(table, ids, nextId)
    ensures TableValid(table - {id}, Filter(ids, KeyIsNot(id)), nextId)
    ensures RowsOf(table - {id}, Filter(ids, KeyIsNot(id))) == Filter(RowsOf(table, ids), IdIsNot(id))
  {
    var keep := KeyIsNot(id);
    forall i | 0 <= i < |ids| ensures keep(ids[i]) == IdIsNot(id)(table[ids[i]]) {
      assert ids[i] in table;
    }
    RowsOfFilter(table, table - {id}, ids, keep, IdIsNot(id));
    FilterKeepsIncreasing(ids, keep);
    forall k | k in table - {id} ensures k in Filter(ids, keep) {
      assert k in ids && keep(k);
    }
  }

  /** The ids of the rows that deleteOldCompletedTodos keeps. */
  function KeptIds(table: map<int, Todo>, olderThan: Time): int -> bool
  {
    (k: int) => k in table && !IsOldCompleted(table[k], olderThan)
  }

  lemma SurvivingRows(table: map<int, Todo>, ids: seq<int>, nextId: int, olderThan: Time)
    requires TableValid(table, ids, nextId)
    ensures TableValid(Surviving(table, olderThan), Filter(ids, KeptIds(table, olderThan)), nextId)
    ensures RowsOf(Surviving(table, olderThan), Filter(ids, KeptIds(table, olderThan)))
         == Filter(RowsOf(table, ids), Survives(olderThan))
  {
    var after := Surviving(table, olderThan);
    var keep := KeptIds(table, olderThan);
    forall i | 0 <= i < |ids| ensures keep(ids[i]) == Survives(olderThan)(table[ids[i]]) {
      assert ids[i] in table;
      var t := table[ids[i]];
      assert Survives(olderThan)(t) == !IsOldCompleted(t, olderThan);
    }
    RowsOfFilter(table, after, ids, keep, Survives(olderThan));
    FilterKeepsIncreasing(ids, keep);
    forall k | k in after ensures k in Filter(ids, keep) {
      assert k in ids && keep(k);
    }
  }

  /** The table deleteOldCompletedTodos leaves: every incomplete row and every
      completed row updated at or after olderThan, each unchanged. */
  function Surviving(table: map<int, Todo>, olderThan: Time): (r: map<int, Todo>)
    ensures forall k :: k in r <==>
      k in table && !(table[k].completed && table[k].updatedAt < olderThan)
    ensures forall k :: k in r ==> r[k] == table[k]
  {
    map k | k in table && !IsOldCompleted(table[k], olderThan) :: table[k]
  }
}
