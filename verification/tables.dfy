/**
 * What the SQL statements of the store mean on the two tables, as functions
 * of table values: the users table keyed by id, the tasks table keyed by id.
 */
module Tables {
  import opened Wrappers
  import opened Models
  import opened Passwords

  const EmailExists := "Email already exists"
  const InvalidCredentials := "Invalid email or password"
  const TaskNotFound := "Task not found"

  /** A row of the users table, less its key. */
  datatype UserRow = UserRow(email: string, passwordHash: string, createdAt: Timestamp)

  type Users = map<UserId, UserRow>
  type Tasks = map<TaskId, Task>

  // ---------------------------------------------------------------- users

  predicate EmailTaken(users: Users, email: string) {
    exists id :: id in users && users[id].email == email
  }

  /** The UNIQUE constraint on users.email. */
  ghost predicate EmailsUnique(users: Users) {
    forall a, b :: a in users && b in users && users[a].email == users[b].email ==> a == b
  }

  /** The public view of a stored user. */
  function PublicView(id: UserId, row: UserRow): User {
    User(id, row.email, row.createdAt)
  }

  /** `SELECT * FROM users WHERE email = ?` followed by the password check. */
  ghost function Authenticate(kdf: Kdf, users: Users, email: string, password: string): (r: Result<User>)
    requires EmailsUnique(users)
    ensures r.Err? ==> r.error == InvalidCredentials
    ensures r.Ok? <==> exists id :: id in users && users[id].email == email
                                    && VerifyPassword(kdf, password, users[id].passwordHash)
    ensures r.Ok? ==> r.value.id in users && users[r.value.id].email == email
                      && r.value == PublicView(r.value.id, users[r.value.id])
  {
    if EmailTaken(users, email) then
      var id :| id in users && users[id].email == email;
      if VerifyPassword(kdf, password, users[id].passwordHash) then Ok(PublicView(id, users[id]))
      else Err(InvalidCredentials)
    else
      Err(InvalidCredentials)
  }

  /** An unknown email and a wrong password are reported identically. */
  lemma LoginErrorIsUniform(kdf: Kdf, users: Users, email: string, password: string)
    requires EmailsUnique(users)
    ensures !EmailTaken(users, email) ==> Authenticate(kdf, users, email, password) == Err(InvalidCredentials)
    ensures forall id :: id in users && users[id].email == email
                         && !VerifyPassword(kdf, password, users[id].passwordHash)
                         ==> Authenticate(kdf, users, email, password) == Err(InvalidCredentials)
  {
  }

  /** Adding a row whose email and id are new keeps emails unique. */
  lemma RegisterKeepsEmailsUnique(users: Users, id: UserId, row: UserRow)
    requires EmailsUnique(users) && !EmailTaken(users, row.email)
    ensures EmailsUnique(users[id := row])
  {
  }

  /** Registering and then signing in with the same password succeeds, as the new user. */
  lemma {:induction false} SignUpThenSignIn(
    kdf: Kdf, users: Users, id: UserId, email: string, password: string, salt: Salt, createdAt: Timestamp)
    requires EmailsUnique(users) && !EmailTaken(users, email) && id !in users
    ensures EmailsUnique(users[id := UserRow(email, HashPassword(kdf, password, salt), createdAt)])
    ensures Authenticate(kdf, users[id := UserRow(email, HashPassword(kdf, password, salt), createdAt)], email, password)
            == Ok(User(id, email, createdAt))
  {
    var row := UserRow(email, HashPassword(kdf, password, salt), createdAt);
    var after := users[id := row];
    RegisterKeepsEmailsUnique(users, id, row);
    HashThenVerify(kdf, password, salt);
    assert id in after && after[id].email == email;
    var r := Authenticate(kdf, after, email, password);
    assert r.Ok?;
    assert r.value.id == id;
  }

  // ---------------------------------------------------------------- tasks

  /** The TaskCreate / TaskUpdate constraints, as kept by every stored row. */
  predicate WellFormed(t: Task) {
    ValidTitle(t.title) && ValidDescription(t.description)
  }

  /** `WHERE id = ? AND user_id = ?` matches a row. */
  predicate OwnedBy(tasks: Tasks, id: TaskId, userId: UserId) {
    id in tasks && tasks[id].userId == userId
  }

  /** The part of the tasks table a user can see. */
  function RowsOf(tasks: Tasks, userId: UserId): (r: Tasks)
    ensures forall id :: id in r <==> OwnedBy(tasks, id, userId)
    ensures forall id :: id in r ==> id in tasks && r[id] == tasks[id]
  {
    map id | id in tasks && tasks[id].userId == userId :: tasks[id]
  }

  /** The set of rows `WHERE user_id = ?` selects. */
  function OwnedRows(tasks: Tasks, userId: UserId): set<Task> {
    set id | id in tasks && tasks[id].userId == userId :: tasks[id]
  }

  /** The row a partial update leaves: supplied fields replaced, `updated_at` refreshed. */
  function ApplyUpdate(row: Task, upd: TaskUpdate, now: Timestamp): (r: Task)
    ensures r.id == row.id && r.userId == row.userId && r.createdAt == row.createdAt
    ensures r.updatedAt == now
    ensures r.title == upd.title.GetOr(row.title)
    ensures r.description == if upd.description.Some? then upd.description else row.description
    ensures r.dueDate == if upd.dueDate.Some? then upd.dueDate else row.dueDate
    ensures r.priority == upd.priority.GetOr(row.priority)
    ensures r.status == upd.status.GetOr(row.status)
    ensures WellFormed(row) ==> WellFormed(r)
  {
    row.(
      title := upd.title.GetOr(row.title),
      description := if upd.description.Some? then upd.description else row.description,
      dueDate := if upd.dueDate.Some? then upd.dueDate else row.dueDate,
      priority := upd.priority.GetOr(row.priority),
      status := upd.status.GetOr(row.status),
      updatedAt := now)
  }

  /** An update with no fields only refreshes `updated_at`. */
  lemma EmptyUpdateOnlyTouches(row: Task, now: Timestamp)
    ensures ApplyUpdate(row, NoChanges, now) == row.(updatedAt := now)
  {
  }

  /** Repeating the same update at the same time changes nothing more. */
  lemma UpdateIdempotent(row: Task, upd: TaskUpdate, now: Timestamp)
    ensures ApplyUpdate(ApplyUpdate(row, upd, now), upd, now) == ApplyUpdate(row, upd, now)
  {
  }

  /** Two updates in a row: the later one's supplied fields win, the rest come from the earlier. */
  function Merge(first: TaskUpdate, second: TaskUpdate): TaskUpdate {
    TaskUpdateFields(
      if second.title.Some? then second.title else first.title,
      if second.description.Some? then second.description else first.description,
      if second.dueDate.Some? then second.dueDate else first.dueDate,
      if second.priority.Some? then second.priority else first.priority,
      if second.status.Some? then second.status else first.status)
  }

  /** Last write wins: two updates have the effect of their merge. */
  lemma UpdatesCompose(row: Task, first: TaskUpdate, second: TaskUpdate, t1: Timestamp, t2: Timestamp)
    ensures ApplyUpdate(ApplyUpdate(row, first, t1), second, t2) == ApplyUpdate(row, Merge(first, second), t2)
  {
  }

  /** One `column = ?` item of the SET clause of the UPDATE statement. */
  datatype Assignment =
    | SetTitle(title: string)
    | SetDescription(description: string)
    | SetDueDate(dueDate: Date)
    | SetPriority(priority: TaskPriority)
    | SetStatus(status: TaskStatus)
    | TouchUpdatedAt

  /** The SET clause built for an update: one item per supplied field, then `updated_at`. */
  function SetClause(upd: TaskUpdate): seq<Assignment> {
    (if upd.title.Some? then [SetTitle(upd.title.value)] else [])
    + (if upd.description.Some? then [SetDescription(upd.description.value)] else [])
    + (if upd.dueDate.Some? then [SetDueDate(upd.dueDate.value)] else [])
    + (if upd.priority.Some? then [SetPriority(upd.priority.value)] else [])
    + (if upd.status.Some? then [SetStatus(upd.status.value)] else [])
    + [TouchUpdatedAt]
  }

  /**
   * The SET clause has an item for a field exactly when the update supplies
   * that field, carrying the supplied value, and always ends with `updated_at`.
   */
  lemma SetClauseItems(upd: TaskUpdate)
    ensures var c := SetClause(upd); |c| >= 1 && c[|c| - 1] == TouchUpdatedAt
    ensures forall t :: SetTitle(t) in SetClause(upd) <==> upd.title == Some(t)
    ensures forall d :: SetDescription(d) in SetClause(upd) <==> upd.description == Some(d)
    ensures forall d :: SetDueDate(d) in SetClause(upd) <==> upd.dueDate == Some(d)
    ensures forall p :: SetPriority(p) in SetClause(upd) <==> upd.priority == Some(p)
    ensures forall s :: SetStatus(s) in SetClause(upd) <==> upd.status == Some(s)
  {
    var c1 := if upd.title.Some? then [SetTitle(upd.title.value)] else [];
    var c2 := if upd.description.Some? then [SetDescription(upd.description.value)] else [];
    var c3 := if upd.dueDate.Some? then [SetDueDate(upd.dueDate.value)] else [];
    var c4 := if upd.priority.Some? then [SetPriority(upd.priority.value)] else [];
    var c5 := if upd.status.Some? then [SetStatus(upd.status.value)] else [];
    var c := SetClause(upd);
    assert c == c1 + c2 + c3 + c4 + c5 + [TouchUpdatedAt];
    forall a ensures a in c <==> a in c1 || a in c2 || a in c3 || a in c4 || a in c5 || a == TouchUpdatedAt {
      assert c == (((((c1 + c2) + c3) + c4) + c5) + [TouchUpdatedAt]);
    }
    forall t ensures SetTitle(t) in c <==> upd.title == Some(t) {
      assert SetTitle(t) !in c2 && SetTitle(t) !in c3 && SetTitle(t) !in c4 && SetTitle(t) !in c5;
    }
    forall d ensures SetDescription(d) in c <==> upd.description == Some(d) {
      assert SetDescription(d) !in c1 && SetDescription(d) !in c3 && SetDescription(d) !in c4 && SetDescription(d) !in c5;
    }
    forall d ensures SetDueDate(d) in c <==> upd.dueDate == Some(d) {
      assert SetDueDate(d) !in c1 && SetDueDate(d) !in c2 && SetDueDate(d) !in c4 && SetDueDate(d) !in c5;
    }
    forall p ensures SetPriority(p) in c <==> upd.priority == Some(p) {
      assert SetPriority(p) !in c1 && SetPriority(p) !in c2 && SetPriority(p) !in c3 && SetPriority(p) !in c5;
    }
    forall s ensures SetStatus(s) in c <==> upd.status == Some(s) {
      assert SetStatus(s) !in c1 && SetStatus(s) !in c2 && SetStatus(s) !in c3 && SetStatus(s) !in c4;
    }
  }

  /** Executing one SET item on a row. */
  function Assign(row: Task, a: Assignment, now: Timestamp): Task {
    match a
    case SetTitle(t) => row.(title := t)
    case SetDescription(d) => row.(description := Some(d))
    case SetDueDate(d) => row.(dueDate := Some(d))
    case SetPriority(p) => row.(priority := p)
    case SetStatus(s) => row.(status := s)
    case TouchUpdatedAt => row.(updatedAt := now)
  }

  /** Executing a SET clause, item by item from the left. */
  function AssignAll(row: Task, clause: seq<Assignment>, now: Timestamp): Task
    decreases |clause|
  {
    if clause == [] then row else AssignAll(Assign(row, clause[0], now), clause[1..], now)
  }

  lemma {:induction false} AssignAllAppend(row: Task, xs: seq<Assignment>, ys: seq<Assignment>, now: Timestamp)
    ensures AssignAll(row, xs + ys, now) == AssignAll(AssignAll(row, xs, now), ys, now)
    decreases |xs|
  {
    if xs == [] {
      assert xs + ys == ys;
    } else {
      assert (xs + ys)[1..] == xs[1..] + ys;
      AssignAllAppend(Assign(row, xs[0], now), xs[1..], ys, now);
    }
  }

  /** The SET clause built from an update does exactly what `ApplyUpdate` describes. */
  lemma {:induction false} SetClauseMeansApplyUpdate(row: Task, upd: TaskUpdate, now: Timestamp)
    ensures AssignAll(row, SetClause(upd), now) == ApplyUpdate(row, upd, now)
  {
    var c1 := if upd.title.Some? then [SetTitle(upd.title.value)] else [];
    var c2 := if upd.description.Some? then [SetDescription(upd.description.value)] else [];
    var c3 := if upd.dueDate.Some? then [SetDueDate(upd.dueDate.value)] else [];
    var c4 := if upd.priority.Some? then [SetPriority(upd.priority.value)] else [];
    var c5 := if upd.status.Some? then [SetStatus(upd.status.value)] else [];
    var c6 := [TouchUpdatedAt];
    assert SetClause(upd) == c1 + c2 + c3 + c4 + c5 + c6;
    AssignAllAppend(row, c1 + c2 + c3 + c4 + c5, c6, now);
    AssignAllAppend(row, c1 + c2 + c3 + c4, c5, now);
    AssignAllAppend(row, c1 + c2 + c3, c4, now);
    AssignAllAppend(row, c1 + c2, c3, now);
    AssignAllAppend(row, c1, c2, now);
  }

  /** Updating one row of a user leaves every other user's rows as they were. */
  lemma {:induction false} UpdateIsolation(tasks: Tasks, id: TaskId, userId: UserId, upd: TaskUpdate, now: Timestamp, other: UserId)
    requires OwnedBy(tasks, id, userId) && other != userId
    ensures RowsOf(tasks[id := ApplyUpdate(tasks[id], upd, now)], other) == RowsOf(tasks, other)
  {
    var after := tasks[id := ApplyUpdate(tasks[id], upd, now)];
    assert forall k :: k in RowsOf(after, other) <==> k in RowsOf(tasks, other);
  }

  /** Deleting one row of a user leaves every other user's rows as they were. */
  lemma {:induction false} DeleteIsolation(tasks: Tasks, id: TaskId, userId: UserId, other: UserId)
    requires OwnedBy(tasks, id, userId) && other != userId
    ensures RowsOf(tasks - {id}, other) == RowsOf(tasks, other)
  {
    assert forall k :: k in RowsOf(tasks - {id}, other) <==> k in RowsOf(tasks, other);
  }

  /** A row is invisible to any user but its owner. */
  lemma OnlyOwnerSees(tasks: Tasks, id: TaskId, userId: UserId, other: UserId)
    requires OwnedBy(tasks, id, userId) && other != userId
    ensures !OwnedBy(tasks, id, other)
    ensures tasks[id] in OwnedRows(tasks, userId) && tasks[id] !in OwnedRows(tasks, other)
  {
  }

  /** `ORDER BY created_at DESC`. */
  predicate NewestFirst(s: seq<Task>) {
    forall i, j :: 0 <= i < j < |s| ==> s[i].createdAt >= s[j].createdAt
  }

  /** A row no older than the head of a newest-first listing can go in front of it. */
  lemma ConsNewestFirst(t: Task, s: seq<Task>)
    requires NewestFirst(s) && (s == [] || t.createdAt >= s[0].createdAt)
    ensures NewestFirst([t] + s)
  {
    forall i, j | 0 <= i < j < |[t] + s|
      ensures ([t] + s)[i].createdAt >= ([t] + s)[j].createdAt
    {
      if i == 0 {
        assert ([t] + s)[j] == s[j - 1];
      }
    }
  }

  /** Placing one more row into a newest-first listing. */
  function InsertNewestFirst(s: seq<Task>, t: Task): (r: seq<Task>)
    requires NewestFirst(s)
    ensures NewestFirst(r)
    ensures multiset(r) == multiset(s) + multiset{t}
    ensures r[0] == t || (s != [] && r[0] == s[0])
  {
    if s == [] || t.createdAt >= s[0].createdAt then
      ConsNewestFirst(t, s);
      [t] + s
    else
      var rest := InsertNewestFirst(s[1..], t);
      assert s == [s[0]] + s[1..];
      assert s[0].createdAt >= rest[0].createdAt;
      ConsNewestFirst(s[0], rest);
      [s[0]] + rest
  }
}
