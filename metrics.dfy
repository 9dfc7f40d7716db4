/** The Micrometer bookkeeping of the backend: six counters that only ever go up,
    and two gauges, the active todos and the active users, held in AtomicIntegers.
    The timers are not part of this model. */
module Metrics {

  /** Java's int, the value type of AtomicInteger. */
  newtype int32 = x: int | -0x8000_0000 <= x < 0x8000_0000

  const MaxInt: int32 := 0x7fff_ffff
  const MinInt: int32 := -0x8000_0000
  const Modulus: int := 0x1_0000_0000

  /** AtomicInteger.incrementAndGet: one more, and Integer.MIN_VALUE after
      Integer.MAX_VALUE. */
  function Inc(x: int32): (y: int32)
    ensures x != MaxInt ==> y as int == x as int + 1
    ensures x == MaxInt ==> y == MinInt
  {
    if x == MaxInt then MinInt else x + 1
  }

  /** AtomicInteger.decrementAndGet: one less, and Integer.MAX_VALUE before
      Integer.MIN_VALUE. */
  function Dec(x: int32): (y: int32)
    ensures x != MinInt ==> y as int == x as int - 1
    ensures x == MinInt ==> y == MaxInt
  {
    if x == MinInt then MaxInt else x - 1
  }

  /** The int that an exact integer value wraps to: the one value of the int range
      that differs from it by a multiple of 2^32. */
  function Wrap(x: int): (w: int32)
    ensures MinInt as int <= x <= MaxInt as int ==> w as int == x
  {
    (MinInt as int + (x - MinInt as int) % Modulus) as int32
  }

  /** The wrapped value differs from the exact one by a multiple of 2^32. */
  lemma WrapCongruent(x: int)
    ensures (x - Wrap(x) as int) % Modulus == 0
  {
    var q := (x - MinInt as int) / Modulus;
    assert x - Wrap(x) as int == q * Modulus;
  }

  /** Incrementing the wrap of v wraps v + 1. */
  lemma IncWraps(v: int)
    ensures Inc(Wrap(v)) == Wrap(v + 1)
  {
    var r := (v - MinInt as int) % Modulus;
    var q := (v - MinInt as int) / Modulus;
    assert v - MinInt as int == q * Modulus + r;
    if r == Modulus - 1 {
      assert v + 1 - MinInt as int == (q + 1) * Modulus;
      assert (v + 1 - MinInt as int) % Modulus == 0;
    } else {
      assert v + 1 - MinInt as int == q * Modulus + (r + 1);
      assert (v + 1 - MinInt as int) % Modulus == r + 1;
    }
  }

  /** Decrementing the wrap of v wraps v - 1. */
  lemma DecWraps(v: int)
    ensures Dec(Wrap(v)) == Wrap(v - 1)
  {
    var r := (v - MinInt as int) % Modulus;
    var q := (v - MinInt as int) / Modulus;
    assert v - MinInt as int == q * Modulus + r;
    if r == 0 {
      assert v - 1 - MinInt as int == (q - 1) * Modulus + (Modulus - 1);
      assert (v - 1 - MinInt as int) % Modulus == Modulus - 1;
    } else {
      assert v - 1 - MinInt as int == q * Modulus + (r - 1);
      assert (v - 1 - MinInt as int) % Modulus == r - 1;
    }
  }

  /** What the meter registry can read at one moment. */
  datatype Readings = Readings(
    todosCreated: nat,
    todosCompleted: nat,
    todosDeleted: nat,
    todosUpdated: nat,
    userSessions: nat,
    featureUsage: nat,
    activeTodos: int32,
    activeUsers: int32)

  /** Both gauges start at 0, and a fresh counter reads 0. */
  const Initial: Readings := Readings(0, 0, 0, 0, 0, 0, 0, 0)

  /** One call on TodoMetrics. */
  datatype Event =
    | TodoCreated
    | TodoCompleted
    | TodoDeleted
    | TodoUpdated
    | UserSession(userId: string)
    | FeatureUsed(feature: string)
    | TodosSet(todos: int32)
    | UsersSet(users: int32)

  /** No counter of m' is below the same counter of m. */
  predicate CountersNoLess(m: Readings, m': Readings)
  {
    && m.todosCreated <= m'.todosCreated
    && m.todosCompleted <= m'.todosCompleted
    && m.todosDeleted <= m'.todosDeleted
    && m.todosUpdated <= m'.todosUpdated
    && m.userSessions <= m'.userSessions
    && m.featureUsage <= m'.featureUsage
  }

  /** Creations minus completions minus deletions so far. */
  function TodoNet(m: Readings): int
  {
    m.todosCreated - m.todosCompleted - m.todosDeleted
  }

  /** The readings after one call. A setter moves only its own gauge; the other
      calls leave the gauges they do not name alone. */
  function Step(m: Readings, e: Event): (m': Readings)
    ensures CountersNoLess(m, m')
    ensures e.TodosSet? || e.UsersSet? ==>
      m'.(activeTodos := m.activeTodos, activeUsers := m.activeUsers) == m
    ensures !e.TodosSet? && TodoNet(m') == TodoNet(m) ==> m'.activeTodos == m.activeTodos
    ensures !e.UsersSet? && m'.userSessions == m.userSessions ==> m'.activeUsers == m.activeUsers
    ensures e.TodoCreated? ==> TodoNet(m') == TodoNet(m) + 1
    ensures e.TodoCompleted? || e.TodoDeleted? ==> TodoNet(m') == TodoNet(m) - 1
    ensures !e.TodosSet? ==>
      m'.activeTodos == Wrap(m.activeTodos as int + (TodoNet(m') - TodoNet(m)))
    ensures !e.UsersSet? ==>
      m'.activeUsers == Wrap(m.activeUsers as int + (m'.userSessions - m.userSessions))
  {
    assert Wrap(m.activeTodos as int) == m.activeTodos;
    assert Wrap(m.activeUsers as int) == m.activeUsers;
    match e
    case TodoCreated =>
      IncWraps(m.activeTodos as int);
      m.(todosCreated := m.todosCreated + 1, activeTodos := Inc(m.activeTodos))
    case TodoCompleted =>
      DecWraps(m.activeTodos as int);
      m.(todosCompleted := m.todosCompleted + 1, activeTodos := Dec(m.activeTodos))
    case TodoDeleted =>
      DecWraps(m.activeTodos as int);
      m.(todosDeleted := m.todosDeleted + 1, activeTodos := Dec(m.activeTodos))
    case TodoUpdated =>
      m.(todosUpdated := m.todosUpdated + 1)
    case UserSession(_) =>
      IncWraps(m.activeUsers as int);
      m.(userSessions := m.userSessions + 1, activeUsers := Inc(m.activeUsers))
    case FeatureUsed(_) =>
      m.(featureUsage := m.featureUsage + 1)
    case TodosSet(todos) =>
      m.(activeTodos := todos)
    case UsersSet(users) =>
      m.(activeUsers := users)
  }

  /** The readings after a sequence of calls, oldest first. */
  function Replay(m: Readings, events: seq<Event>): Readings
    decreases |events|
  {
    if events == [] then m
    else Step(Replay(m, events[..|events| - 1]), events[|events| - 1])
  }

  /** However the calls go, no counter ever goes down. */
  lemma {:induction false} CountersNeverDecrease(m: Readings, events: seq<Event>)
    ensures CountersNoLess(m, Replay(m, events))
    decreases |events|
  {
    if events != [] {
      CountersNeverDecrease(m, events[..|events| - 1]);
    }
  }

  /** Unless it is overwritten, the active-todos gauge moves by creations minus
      completions minus deletions, wrapping like an int. */
  lemma {:induction false} ActiveTodosBalance(m: Readings, events: seq<Event>)
    requires forall k :: 0 <= k < |events| ==> !events[k].TodosSet?
    ensures var m' := Replay(m, events);
      m'.activeTodos == Wrap(m.activeTodos as int + (TodoNet(m') - TodoNet(m)))
    decreases |events|
  {
    if events == [] {
      assert Wrap(m.activeTodos as int) == m.activeTodos;
    } else {
      var last := events[|events| - 1];
      var mid := Replay(m, events[..|events| - 1]);
      ActiveTodosBalance(m, events[..|events| - 1]);
      TodoBalanceStep(m.activeTodos as int - TodoNet(m), mid, last);
    }
  }

  /** The step of ActiveTodosBalance: a gauge that is the wrap of base plus the net
      count stays so after one call other than setActiveTodos. */
  lemma TodoBalanceStep(base: int, mid: Readings, e: Event)
    requires mid.activeTodos == Wrap(base + TodoNet(mid)) && !e.TodosSet?
    ensures Step(mid, e).activeTodos == Wrap(base + TodoNet(Step(mid, e)))
  {
    var v := base + TodoNet(mid);
    StepTodoGauge(mid, e, v);
    assert v + (TodoNet(Step(mid, e)) - TodoNet(mid)) == base + TodoNet(Step(mid, e));
  }

  /** One call other than setActiveTodos keeps the todo gauge at the wrap of its
      exact value. */
  lemma StepTodoGauge(m: Readings, e: Event, v: int)
    requires m.activeTodos == Wrap(v) && !e.TodosSet?
    ensures Step(m, e).activeTodos == Wrap(v + (TodoNet(Step(m, e)) - TodoNet(m)))
  {
    match e {
      case TodoCreated => IncWraps(v);
      case TodoCompleted => DecWraps(v);
      case TodoDeleted => DecWraps(v);
      case _ =>
    }
  }

  /** Unless it is overwritten, the active-users gauge counts the sessions begun. */
  lemma {:induction false} ActiveUsersBalance(m: Readings, events: seq<Event>)
    requires forall k :: 0 <= k < |events| ==> !events[k].UsersSet?
    ensures var m' := Replay(m, events);
      m'.activeUsers == Wrap(m.activeUsers as int + (m'.userSessions - m.userSessions))
    decreases |events|
  {
    if events == [] {
      assert Wrap(m.activeUsers as int) == m.activeUsers;
    } else {
      var last := events[|events| - 1];
      var mid := Replay(m, events[..|events| - 1]);
      ActiveUsersBalance(m, events[..|events| - 1]);
      var v := m.activeUsers as int + (mid.userSessions - m.userSessions);
      assert mid.activeUsers == Wrap(v);
      if last.UserSession? {
        IncWraps(v);
      }
    }
  }

  /** Starting from gauges at zero and balanced counters, as a fresh TodoMetrics
      does, and as long as neither setter is called, the gauges read
      created - completed - deleted and the number of sessions, as 32-bit ints. */
  lemma GaugesFromZero(m0: Readings, events: seq<Event>)
    requires m0.activeTodos == 0 && TodoNet(m0) == 0
    requires m0.activeUsers == 0 && m0.userSessions == 0
    requires forall k :: 0 <= k < |events| ==> !events[k].TodosSet? && !events[k].UsersSet?
    ensures Replay(m0, events).activeTodos == Wrap(TodoNet(Replay(m0, events)))
    ensures Replay(m0, events).activeUsers == Wrap(Replay(m0, events).userSessions)
  {
    ActiveTodosBalance(m0, events);
    ActiveUsersBalance(m0, events);
  }

  /** Nothing stops the active-todos gauge below zero: completing a todo that was
      never counted as created leaves it at -1. */
  lemma ActiveTodosCanGoNegative()
    ensures Replay(Initial, [TodoCompleted]).activeTodos == -1
  {
    assert [TodoCompleted][..0] == [];
  }

  /** At Integer.MAX_VALUE one more creation wraps the gauge to Integer.MIN_VALUE. */
  lemma ActiveTodosWrapsAtMax()
    ensures Step(Initial.(activeTodos := MaxInt), TodoCreated).activeTodos == MinInt
  {
  }

  class TodoMetrics {
    var todosCreatedCounter: nat
    var todosCompletedCounter: nat
    var todosDeletedCounter: nat
    var todosUpdatedCounter: nat
    var userSessionsCounter: nat
    var featureUsageCounter: nat
    var activeTodosGauge: int32
    var activeUsersGauge: int32

    /** The current readings of every counter and gauge. */
    function Snapshot(): Readings
      reads this
    {
      Readings(todosCreatedCounter, todosCompletedCounter, todosDeletedCounter,
               todosUpdatedCounter, userSessionsCounter, featureUsageCounter,
               activeTodosGauge, activeUsersGauge)
    }

    constructor ()
      ensures Snapshot() == Initial
      ensures activeTodosGauge == 0 && activeUsersGauge == 0
    {
      todosCreatedCounter := 0;
      todosCompletedCounter := 0;
      todosDeletedCounter := 0;
      todosUpdatedCounter := 0;
      userSessionsCounter := 0;
      featureUsageCounter := 0;
      activeTodosGauge := 0;
      activeUsersGauge := 0;
    }

    method IncrementTodosCreated()
      modifies this
      ensures Snapshot() == Step(old(Snapshot()), TodoCreated)
      ensures todosCreatedCounter == old(todosCreatedCounter) + 1
      ensures activeTodosGauge == Inc(old(activeTodosGauge))
    {
      todosCreatedCounter := todosCreatedCounter + 1;
      activeTodosGauge := Inc(activeTodosGauge);
    }

    method IncrementTodosCompleted()
      modifies this
      ensures Snapshot() == Step(old(Snapshot()), TodoCompleted)
      ensures todosCompletedCounter == old(todosCompletedCounter) + 1
      ensures activeTodosGauge == Dec(old(activeTodosGauge))
    {
      todosCompletedCounter := todosCompletedCounter + 1;
      activeTodosGauge := Dec(activeTodosGauge);
    }

    method IncrementTodosDeleted()
      modifies this
      ensures Snapshot() == Step(old(Snapshot()), TodoDeleted)
      ensures todosDeletedCounter == old(todosDeletedCounter) + 1
      ensures activeTodosGauge == Dec(old(activeTodosGauge))
    {
      todosDeletedCounter := todosDeletedCounter + 1;
      activeTodosGauge := Dec(activeTodosGauge);
    }

    method IncrementTodosUpdated()
      modifies this
      ensures Snapshot() == Step(old(Snapshot()), TodoUpdated)
      ensures Snapshot() == old(Snapshot()).(todosUpdated := old(todosUpdatedCounter) + 1)
    {
      todosUpdatedCounter := todosUpdatedCounter + 1;
    }

    /** The user id is not looked at: every call is one more session and one more
        active user. */
    method IncrementUserSessions(userId: string)
      modifies this
      ensures Snapshot() == Step(old(Snapshot()), UserSession(userId))
      ensures userSessionsCounter == old(userSessionsCounter) + 1
      ensures activeUsersGauge == Inc(old(activeUsersGauge))
    {
      userSessionsCounter := userSessionsCounter + 1;
      activeUsersGauge := Inc(activeUsersGauge);
    }

    /** Every feature name lands on the one shared counter. */
    method IncrementFeatureUsage(feature: string)
      modifies this
      ensures Snapshot() == Step(old(Snapshot()), FeatureUsed(feature))
      ensures Snapshot() == old(Snapshot()).(featureUsage := old(featureUsageCounter) + 1)
    {
      featureUsageCounter := featureUsageCounter + 1;
    }

    method SetActiveTodos(count: int32)
      modifies this
      ensures Snapshot() == Step(old(Snapshot()), TodosSet(count))
      ensures Snapshot() == old(Snapshot()).(activeTodos := count)
    {
      activeTodosGauge := count;
    }

    method SetActiveUsers(count: int32)
      modifies this
      ensures Snapshot() == Step(old(Snapshot()), UsersSet(count))
      ensures Snapshot() == old(Snapshot()).(activeUsers := count)
    {
      activeUsersGauge := count;
    }
  }
}
