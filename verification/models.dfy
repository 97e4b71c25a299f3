/** The records, enumerations and field constraints of models.py. */
module Models {
  import opened Wrappers

  type UserId = string
  type TaskId = int

  /** A point in time as stored by SQLite's CURRENT_TIMESTAMP (seconds). */
  type Timestamp = int

  /** A calendar date without time of day (Python `date`). */
  datatype Date = Date(year: int, month: int, day: int)

  datatype TaskStatus = Todo | InProgress | Completed

  datatype TaskPriority = Low | Medium | High | Urgent

  /** The string value of each status member. */
  function StatusLabel(s: TaskStatus): string {
    match s
    case Todo => "todo"
    case InProgress => "in_progress"
    case Completed => "completed"
  }

  /** The string value of each priority member. */
  function PriorityLabel(p: TaskPriority): string {
    match p
    case Low => "low"
    case Medium => "medium"
    case High => "high"
    case Urgent => "urgent"
  }

  /** `TaskStatus(name)`: the member whose value is `name`, if any. */
  function ParseStatus(name: string): (r: Option<TaskStatus>)
    ensures r.Some? <==> name == "todo" || name == "in_progress" || name == "completed"
    ensures r.Some? ==> StatusLabel(r.value) == name
  {
    if name == "todo" then Some(Todo)
    else if name == "in_progress" then Some(InProgress)
    else if name == "completed" then Some(Completed)
    else None
  }

  /** `TaskPriority(name)`: the member whose value is `name`, if any. */
  function ParsePriority(name: string): (r: Option<TaskPriority>)
    ensures r.Some? <==> name == "low" || name == "medium" || name == "high" || name == "urgent"
    ensures r.Some? ==> PriorityLabel(r.value) == name
  {
    if name == "low" then Some(Low)
    else if name == "medium" then Some(Medium)
    else if name == "high" then Some(High)
    else if name == "urgent" then Some(Urgent)
    else None
  }

  /** Every status parses back from its own name, so distinct members have distinct labels. */
  lemma StatusLabelRoundTrip(s: TaskStatus)
    ensures ParseStatus(StatusLabel(s)) == Some(s)
    ensures forall t: TaskStatus :: StatusLabel(t) == StatusLabel(s) ==> t == s
  {
  }

  /** Every priority parses back from its own name, so distinct members have distinct labels. */
  lemma PriorityLabelRoundTrip(p: TaskPriority)
    ensures ParsePriority(PriorityLabel(p)) == Some(p)
    ensures forall q: TaskPriority :: PriorityLabel(q) == PriorityLabel(p) ==> q == p
  {
  }

  const TitleMinLength := 1
  const TitleMaxLength := 200
  const DescriptionMaxLength := 1000

  predicate ValidTitle(title: string) {
    TitleMinLength <= |title| <= TitleMaxLength
  }

  predicate ValidDescription(description: Option<string>) {
    description.None? || |description.value| <= DescriptionMaxLength
  }

  datatype TaskCreateFields = TaskCreateFields(
    title: string,
    description: Option<string>,
    dueDate: Option<Date>,
    priority: TaskPriority,
    status: TaskStatus)

  /** A `TaskCreate` value exists only once its fields pass validation. */
  type TaskCreate = t: TaskCreateFields | ValidTitle(t.title) && ValidDescription(t.description)
    witness TaskCreateFields("t", None, None, Medium, Todo)

  /**
   * Constructing a `TaskCreate`: a `None` argument means the field was omitted
   * and takes its default; `None` as result means a validation error was raised.
   */
  function MakeTaskCreate(
    title: string,
    description: Option<string>,
    dueDate: Option<Date>,
    priority: Option<TaskPriority>,
    status: Option<TaskStatus>): (r: Option<TaskCreate>)
    ensures r.Some? <==> ValidTitle(title) && ValidDescription(description)
    ensures r.Some? ==> r.value.title == title && r.value.description == description
                        && r.value.dueDate == dueDate
    ensures r.Some? ==> r.value.priority == priority.GetOr(Medium) && r.value.status == status.GetOr(Todo)
  {
    if ValidTitle(title) && ValidDescription(description) then
      Some(TaskCreateFields(title, description, dueDate, priority.GetOr(Medium), status.GetOr(Todo)))
    else
      None
  }

  /**
   * Omitted fields default to no description, no due date, MEDIUM and TODO,
   * whichever other fields are given.
   */
  lemma TaskCreateDefaults(title: string, description: Option<string>, dueDate: Option<Date>,
                           priority: Option<TaskPriority>, status: Option<TaskStatus>)
    requires ValidTitle(title) && ValidDescription(description)
    ensures MakeTaskCreate(title, None, None, None, None)
            == Some(TaskCreateFields(title, None, None, Medium, Todo))
    ensures priority.None? ==> MakeTaskCreate(title, description, dueDate, priority, status).value.priority == Medium
    ensures status.None? ==> MakeTaskCreate(title, description, dueDate, priority, status).value.status == Todo
  {
  }

  datatype TaskUpdateFields = TaskUpdateFields(
    title: Option<string>,
    description: Option<string>,
    dueDate: Option<Date>,
    priority: Option<TaskPriority>,
    status: Option<TaskStatus>)

  /** A `TaskUpdate` value: every field optional, present ones still bounded. */
  type TaskUpdate = u: TaskUpdateFields | (u.title.None? || ValidTitle(u.title.value)) && ValidDescription(u.description)
    witness TaskUpdateFields(None, None, None, None, None)

  /** The update with every field left at its default. */
  const NoChanges: TaskUpdate := TaskUpdateFields(None, None, None, None, None)

  /** Constructing a `TaskUpdate`; `None` as result means a validation error was raised. */
  function MakeTaskUpdate(
    title: Option<string>,
    description: Option<string>,
    dueDate: Option<Date>,
    priority: Option<TaskPriority>,
    status: Option<TaskStatus>): (r: Option<TaskUpdate>)
    ensures r.Some? <==> (title.None? || ValidTitle(title.value)) && ValidDescription(description)
    ensures r.Some? ==> r.value == TaskUpdateFields(title, description, dueDate, priority, status)
  {
    if (title.None? || ValidTitle(title.value)) && ValidDescription(description) then
      Some(TaskUpdateFields(title, description, dueDate, priority, status))
    else
      None
  }

  /** `Task`: one row of the tasks table. */
  datatype Task = Task(
    id: TaskId,
    title: string,
    description: Option<string>,
    dueDate: Option<Date>,
    priority: TaskPriority,
    status: TaskStatus,
    userId: UserId,
    createdAt: Timestamp,
    updatedAt: Timestamp)

  /** `User`: the public view of a user, without the password hash. */
  datatype User = User(id: UserId, email: string, createdAt: Timestamp)
}
