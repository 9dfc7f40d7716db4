/** The Todo record and the values that flow between the controller, the service
    and the repository. Times are seconds on a local time line. */
module Entity {

  datatype Option<+T> = None | Some(value: T)

  /** MEDIUM, HIGH and URGENT are the levels the service and the repository name;
      LOW is taken as the remaining, lowest level of the enum. */
  datatype Priority = Low | Medium | High | Urgent

  type Time = int

  const SecondsPerDay: int := 86400

  /** The calendar day a time falls on, as SQL's DATE() and LocalDateTime.toLocalDate
      see it (Dafny's division rounds down, so times before the epoch land on the
      right day too). */
  function DateOf(t: Time): int
  {
    t / SecondsPerDay
  }

  /** Midnight at the start of the day of t, as LocalDate.atStartOfDay gives it. */
  function StartOfDay(t: Time): (s: Time)
    ensures s <= t < s + SecondsPerDay
    ensures DateOf(s) == DateOf(t)
    ensures s % SecondsPerDay == 0
  {
    DateOf(t) * SecondsPerDay
  }

  /** A stored row. Its title and priority are never null once stored: creation
      rejects a missing title and defaults a missing priority, and updates only
      ever write non-null values. */
  datatype Todo = Todo(
    id: int,
    title: string,
    description: Option<string>,
    dueDate: Option<Time>,
    priority: Priority,
    completed: bool,
    createdAt: Time,
    updatedAt: Time)

  /** The body of a create request: every reference field may be null. */
  datatype Draft = Draft(
    title: Option<string>,
    description: Option<string>,
    dueDate: Option<Time>,
    priority: Option<Priority>,
    completed: bool)

  /** The body of an update request: a null field means "leave as is". */
  datatype Patch = Patch(
    title: Option<string>,
    description: Option<string>,
    dueDate: Option<Time>,
    priority: Option<Priority>)

  /** The exceptions the service throws: IllegalArgumentException for a rejected
      input, a plain RuntimeException for a missing id. */
  datatype Failure = IllegalArgument | NotFound(id: int)

  datatype Result<+T> = Ok(value: T) | Err(failure: Failure)
}
