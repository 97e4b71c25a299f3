/**
 * The SQLite-backed store: a users table keyed by an opaque id with unique
 * emails, and a tasks table keyed by an AUTOINCREMENT id. Every task
 * operation is scoped by the pair (task id, owner id).
 */
module Database {
  import opened Wrappers
  import opened Models
  import opened Passwords
  import opened Tables

  class SQLiteDatabase {
    /** The key-derivation function used for password hashes. */
    const kdf: Kdf
    var users: Users
    var tasks: Tasks
    /** The AUTOINCREMENT counter: one more than the largest task id ever assigned. */
    var nextId: TaskId

    ghost predicate Valid()
      reads this
    {
      && nextId >= 1
      && EmailsUnique(users)
      && forall id :: id in tasks ==> 1 <= id < nextId && tasks[id].id == id && WellFormed(tasks[id])
    }

    /** `init_database` on a new database file: both tables empty. */
    constructor (kdf: Kdf)
      ensures Valid()
      ensures this.kdf == kdf && users == map[] && tasks == map[] && nextId == 1
    {
      this.kdf := kdf;
      users := map[];
      tasks := map[];
      nextId := 1;
    }

    /**
     * `sign_up`. The generated id, the salt, the database's CURRENT_TIMESTAMP
     * and the application clock are parameters. A duplicate id violates the
     * primary key and is reported like a duplicate email.
     */
    method SignUp(email: string, password: string, newId: UserId, salt: Salt, createdAt: Timestamp, clock: Timestamp)
      returns (r: Result<User>)
      requires Valid()
      modifies this
      ensures Valid()
      ensures tasks == old(tasks) && nextId == old(nextId)
      ensures r.Err? <==> EmailTaken(old(users), email) || newId in old(users)
      ensures r.Err? ==> r.error == EmailExists && users == old(users)
      ensures r.Ok? ==> r.value == User(newId, email, clock)
                        && users == old(users)[newId := UserRow(email, HashPassword(kdf, password, salt), createdAt)]
    {
      var passwordHash := HashPassword(kdf, password, salt);
      if newId in users || EmailTaken(users, email) {
        return Err(EmailExists);
      }
      var row := UserRow(email, passwordHash, createdAt);
      RegisterKeepsEmailsUnique(users, newId, row);
      users := users[newId := row];
      r := Ok(User(newId, email, clock));
    }

    /** `sign_in`: one error message whether the email is unknown or the password wrong. */
    method SignIn(email: string, password: string) returns (r: Result<User>)
      requires Valid()
      ensures r == Authenticate(kdf, users, email, password)
    {
      if !EmailTaken(users, email) {
        return Err(InvalidCredentials);
      }
      var id :| id in users && users[id].email == email;
      if !VerifyPassword(kdf, password, users[id].passwordHash) {
        return Err(InvalidCredentials);
      }
      r := Ok(PublicView(id, users[id]));
    }

    /** `get_user_by_id`: id, email and creation time, never the hash. */
    method GetUserById(id: UserId) returns (r: Option<User>)
      requires Valid()
      ensures r.Some? <==> id in users
      ensures r.Some? ==> r.value.id == id && r.value.email == users[id].email
                          && r.value.createdAt == users[id].createdAt
    {
      if id in users {
        r := Some(PublicView(id, users[id]));
      } else {
        r := None;
      }
    }

    /**
     * `create_task`: inserts one row under a fresh id larger than every id in
     * the table; both timestamps come from the same CURRENT_TIMESTAMP default.
     */
    method CreateTask(data: TaskCreate, userId: UserId, now: Timestamp) returns (t: Task)
      requires Valid()
      modifies this
      ensures Valid()
      ensures t.id == old(nextId)
      ensures t.id !in old(tasks) && forall id :: id in old(tasks) ==> id < t.id
      ensures t.title == data.title && t.description == data.description && t.dueDate == data.dueDate
      ensures t.priority == data.priority && t.status == data.status && t.userId == userId
      ensures t.createdAt == now && t.updatedAt == now
      ensures tasks == old(tasks)[t.id := t]
      ensures nextId == old(nextId) + 1 && users == old(users)
    {
      var id := nextId;
      nextId := nextId + 1;
      tasks := tasks[id := Task(id, data.title, data.description, data.dueDate,
                                data.priority, data.status, userId, now, now)];
      t := tasks[id];
    }

    /** `get_tasks`: exactly the owner's rows, newest first. */
    method GetTasks(userId: UserId) returns (list: seq<Task>)
      requires Valid()
      ensures multiset(list) == multiset(OwnedRows(tasks, userId))
      ensures NewestFirst(list)
    {
      var pending := tasks.Keys;
      list := [];
      while pending != {}
        invariant pending <= tasks.Keys
        invariant NewestFirst(list)
        invariant multiset(list) == multiset(Listed(tasks, userId, tasks.Keys - pending))
        decreases pending
      {
        NonEmptyHasElement(pending);
        var id :| id in pending;
        ghost var done := tasks.Keys - pending;
        assert tasks.Keys - (pending - {id}) == done + {id};
        ListingStep(tasks, userId, list, done, id);
        if tasks[id].userId == userId {
          list := InsertNewestFirst(list, tasks[id]);
        }
        pending := pending - {id};
      }
      assert tasks.Keys - pending == tasks.Keys;
      assert Listed(tasks, userId, tasks.Keys) == OwnedRows(tasks, userId);
    }

    /** `get_task`: a row only when both the id and the owner match. */
    method GetTask(id: TaskId, userId: UserId) returns (r: Option<Task>)
      requires Valid()
      ensures r.Some? <==> OwnedBy(tasks, id, userId)
      ensures r.Some? ==> r.value == tasks[id] && r.value.id == id && r.value.userId == userId
    {
      if id in tasks && tasks[id].userId == userId {
        r := Some(tasks[id]);
      } else {
        r := None;
      }
    }

    /**
     * `update_task`: builds the SET clause from the supplied fields, runs it on
     * the row matching id and owner, and reads that row back.
     */
    method UpdateTask(id: TaskId, upd: TaskUpdate, userId: UserId, now: Timestamp) returns (r: Result<Task>)
      requires Valid()
      modifies this
      ensures Valid()
      ensures users == old(users) && nextId == old(nextId)
      ensures old(OwnedBy(tasks, id, userId)) ==>
                r == Ok(ApplyUpdate(old(tasks)[id], upd, now)) && tasks == old(tasks)[id := r.value]
      ensures !old(OwnedBy(tasks, id, userId)) ==> r == Err(TaskNotFound) && tasks == old(tasks)
      ensures forall other :: other != userId ==> RowsOf(tasks, other) == RowsOf(old(tasks), other)
    {
      var clause := BuildSetClause(upd);

      if id in tasks && tasks[id].userId == userId {
        SetClauseMeansApplyUpdate(tasks[id], upd, now);
        forall other | other != userId
          ensures RowsOf(tasks[id := ApplyUpdate(tasks[id], upd, now)], other) == RowsOf(tasks, other)
        {
          UpdateIsolation(tasks, id, userId, upd, now, other);
        }
        tasks := tasks[id := AssignAll(tasks[id], clause, now)];
      }

      if id in tasks && tasks[id].userId == userId {
        r := Ok(tasks[id]);
      } else {
        r := Err(TaskNotFound);
      }
    }

    /** `delete_task`: removes the row matching id and owner, if there is one. */
    method DeleteTask(id: TaskId, userId: UserId) returns (r: Result<TaskId>)
      requires Valid()
      modifies this
      ensures Valid()
      ensures users == old(users) && nextId == old(nextId)
      ensures r.Ok? <==> old(OwnedBy(tasks, id, userId))
      ensures r.Ok? ==> r.value == id && tasks == old(tasks) - {id}
      ensures r.Err? ==> r.error == TaskNotFound && tasks == old(tasks)
      ensures forall other :: other != userId ==> RowsOf(tasks, other) == RowsOf(old(tasks), other)
    {
      var rowcount := 0;
      if id in tasks && tasks[id].userId == userId {
        forall other | other != userId
          ensures RowsOf(tasks - {id}, other) == RowsOf(tasks, other)
        {
          DeleteIsolation(tasks, id, userId, other);
        }
        tasks := tasks - {id};
        rowcount := 1;
      }
      if rowcount > 0 {
        r := Ok(id);
      } else {
        r := Err(TaskNotFound);
      }
    }
  }

  lemma NonEmptyHasElement(s: set<TaskId>)
    requires s != {}
    ensures exists x :: x in s
  {
    if forall x :: x !in s {
      assert false;
    }
  }

  /** The owner's rows among the given ids. */
  ghost function Listed(tasks: Tasks, userId: UserId, ids: set<TaskId>): set<Task> {
    set id | id in ids && id in tasks && tasks[id].userId == userId :: tasks[id]
  }

  /**
   * The `update_fields` list of `update_task`: one `column = ?` item per
   * supplied field, then `updated_at = CURRENT_TIMESTAMP`.
   */
  method BuildSetClause(upd: TaskUpdate) returns (clause: seq<Assignment>)
    ensures clause == SetClause(upd)
  {
    clause := [];
    if upd.title.Some? {
      clause := clause + [SetTitle(upd.title.value)];
    }
    ghost var c := if upd.title.Some? then [SetTitle(upd.title.value)] else [];
    assert clause == c;
    if upd.description.Some? {
      clause := clause + [SetDescription(upd.description.value)];
    }
    c := c + if upd.description.Some? then [SetDescription(upd.description.value)] else [];
    assert clause == c;
    if upd.dueDate.Some? {
      clause := clause + [SetDueDate(upd.dueDate.value)];
    }
    c := c + if upd.dueDate.Some? then [SetDueDate(upd.dueDate.value)] else [];
    assert clause == c;
    if upd.priority.Some? {
      clause := clause + [SetPriority(upd.priority.value)];
    }
    c := c + if upd.priority.Some? then [SetPriority(upd.priority.value)] else [];
    assert clause == c;
    if upd.status.Some? {
      clause := clause + [SetStatus(upd.status.value)];
    }
    c := c + if upd.status.Some? then [SetStatus(upd.status.value)] else [];
    assert clause == c;
    clause := clause + [TouchUpdatedAt];
  }

  /** Listing one more id adds its row exactly when the user owns it. */
  lemma ListingStep(tasks: Tasks, userId: UserId, list: seq<Task>, done: set<TaskId>, id: TaskId)
    requires id in tasks && id !in done
    requires forall k :: k in tasks ==> tasks[k].id == k
    requires multiset(list) == multiset(Listed(tasks, userId, done))
    ensures tasks[id].userId == userId ==>
              multiset(list) + multiset{tasks[id]} == multiset(Listed(tasks, userId, done + {id}))
    ensures tasks[id].userId != userId ==> multiset(list) == multiset(Listed(tasks, userId, done + {id}))
  {
    var listed := Listed(tasks, userId, done);
    if tasks[id].userId == userId {
      assert tasks[id] !in listed;
      assert Listed(tasks, userId, done + {id}) == listed + {tasks[id]};
      assert multiset(listed + {tasks[id]}) == multiset(listed) + multiset{tasks[id]};
    } else {
      assert Listed(tasks, userId, done + {id}) == listed;
    }
  }
}
