/** The two tables of Database/src/models.py, the constraints the database
    enforces on them, and the table-level operations the handlers share:
    the ON DELETE cascade of the User.tasks relationship, a primary-key
    ordered scan, and MySQL's rule for `ALTER TABLE ... AUTO_INCREMENT = 1`. */
module Schema {
  import opened Wrappers

  /** A row of `users`. */
  datatype User = User(id: int, username: string, hashedPassword: string)

  /** A row of `tasks`; `description` is the one nullable column. */
  datatype Task = Task(id: int, title: string, description: Option<string>, ownerId: int)

  /** Column widths: String(50), String(100), String(100), String(255). */
  const UsernameWidth := 50
  const HashedPasswordWidth := 100
  const TitleWidth := 100
  const DescriptionWidth := 255

  /** The row fits its VARCHAR columns (a longer value is refused by the
      database in strict mode). */
  predicate UserFits(u: User) {
    |u.username| <= UsernameWidth && |u.hashedPassword| <= HashedPasswordWidth
  }

  predicate TaskFits(t: Task) {
    |t.title| <= TitleWidth &&
    (t.description.Some? ==> |t.description.value| <= DescriptionWidth)
  }

  /** Some row of `users` has this username. */
  predicate UsernameTaken(users: map<int, User>, name: string) {
    exists k :: k in users && users[k].username == name
  }

  /** Some row other than `self` has this username. */
  predicate UsernameTakenByOther(users: map<int, User>, self: int, name: string) {
    exists k :: k in users && k != self && users[k].username == name
  }

  /** The UNIQUE index on `users.username`. */
  predicate UniqueUsernames(users: map<int, User>) {
    forall a, b :: a in users && b in users && users[a].username == users[b].username ==> a == b
  }

  /** The user table is keyed by id and its usernames are unique. */
  predicate UserTable(users: map<int, User>) {
    (forall k :: k in users ==> users[k].id == k) && UniqueUsernames(users)
  }

  /** Everything the schema guarantees of a committed state: primary keys are
      the rows' ids, every row fits its columns, usernames are unique, and
      every task's `owner_id` references an existing user. */
  predicate Consistent(users: map<int, User>, tasks: map<int, Task>) {
    UserTable(users) &&
    (forall k :: k in users ==> UserFits(users[k])) &&
    (forall k :: k in tasks ==> tasks[k].id == k && TaskFits(tasks[k]) && tasks[k].ownerId in users)
  }

  /** Some task is owned by `uid`. */
  predicate Owns(tasks: map<int, Task>, uid: int) {
    exists k :: k in tasks && tasks[k].ownerId == uid
  }

  /** `filter(Task.owner_id == uid)`. */
  function TasksOf(tasks: map<int, Task>, uid: int): map<int, Task> {
    map k | k in tasks && tasks[k].ownerId == uid :: tasks[k]
  }

  /** The tasks left once the cascade has removed those owned by `uid`. */
  function WithoutOwner(tasks: map<int, Task>, uid: int): map<int, Task> {
    map k | k in tasks && tasks[k].ownerId != uid :: tasks[k]
  }

  /** `.count()` of the owner filter is zero exactly when the owner has no task. */
  lemma OwnedCount(tasks: map<int, Task>, uid: int)
    ensures |TasksOf(tasks, uid)| == 0 <==> !Owns(tasks, uid)
  {
    if Owns(tasks, uid) {
      var k :| k in tasks && tasks[k].ownerId == uid;
      assert k in TasksOf(tasks, uid);
    } else {
      assert forall k :: k !in TasksOf(tasks, uid);
      assert TasksOf(tasks, uid) == map[];
    }
  }

  /** Deleting a user with `cascade="all, delete-orphan"` keeps the schema's
      guarantees, leaves none of that user's tasks behind, and keeps every
      other row exactly as it was. */
  lemma CascadeDelete(users: map<int, User>, tasks: map<int, Task>, uid: int)
    requires Consistent(users, tasks)
    ensures Consistent(users - {uid}, WithoutOwner(tasks, uid))
    ensures !Owns(WithoutOwner(tasks, uid), uid)
    ensures forall k :: k in tasks && tasks[k].ownerId != uid ==>
              k in WithoutOwner(tasks, uid) && WithoutOwner(tasks, uid)[k] == tasks[k]
    ensures forall k :: k in tasks && tasks[k].ownerId == uid ==> k !in WithoutOwner(tasks, uid)
  {
  }

  /** What `ALTER TABLE t AUTO_INCREMENT = 1` leaves as the next id: MySQL
      raises a value at or below the largest key to that key plus one, so the
      next id is 1 on an empty table and one past the largest key otherwise. */
  predicate AutoIncrementAfter(keys: set<int>, next: int) {
    1 <= next && (forall k :: k in keys ==> k < next) && (next == 1 || next - 1 in keys)
  }

  /** The next id after a reset, found by walking down from the current
      counter `bound` past the ids no row holds: it is fresh, and it is 1 on
      an empty table. */
  method NextAutoIncrement(keys: set<int>, bound: int) returns (next: int)
    requires forall k :: k in keys ==> 1 <= k < bound
    ensures AutoIncrementAfter(keys, next)
    ensures keys == {} ==> next == 1
  {
    next := if bound < 1 then 1 else bound;
    while 1 < next && next - 1 !in keys
      invariant 1 <= next
      invariant forall k :: k in keys ==> k < next
    {
      next := next - 1;
    }
  }

  /** Keys of a table all lie in [1, bound): the auto-increment counter
      `bound` has never been passed. */
  predicate KeysBelow<T>(rows: map<int, T>, bound: int) {
    forall k :: k in rows ==> 1 <= k < bound
  }

  /** A task passes the optional owner filter. */
  predicate Selected(t: Task, owner: Option<int>) {
    owner.None? || t.ownerId == owner.value
  }

  /** `db.query(Task)[.filter(Task.owner_id == owner)].all()`, read in primary
      key order: exactly the matching rows, each once, by increasing id. */
  method SelectTasks(tasks: map<int, Task>, bound: int, owner: Option<int>) returns (rows: seq<Task>)
    requires KeysBelow(tasks, bound)
    requires forall k :: k in tasks ==> tasks[k].id == k
    ensures forall i, j :: 0 <= i < j < |rows| ==> rows[i].id < rows[j].id
    ensures forall i :: 0 <= i < |rows| ==>
              rows[i].id in tasks && tasks[rows[i].id] == rows[i] && Selected(rows[i], owner)
    ensures forall k :: k in tasks && Selected(tasks[k], owner) ==> tasks[k] in rows
  {
    rows := [];
    var id := 1;
    while id < bound
      invariant bound <= id ==> bound <= 1 || id == bound
      invariant 1 <= id
      invariant forall i, j :: 0 <= i < j < |rows| ==> rows[i].id < rows[j].id
      invariant forall i :: 0 <= i < |rows| ==>
                  rows[i].id < id && rows[i].id in tasks && tasks[rows[i].id] == rows[i] && Selected(rows[i], owner)
      invariant forall k :: k in tasks && k < id && Selected(tasks[k], owner) ==> tasks[k] in rows
    {
      if id in tasks && Selected(tasks[id], owner) {
        rows := rows + [tasks[id]];
      }
      id := id + 1;
    }
  }

  /** `db.query(User).all()`, read in primary key order. */
  method SelectUsers(users: map<int, User>, bound: int) returns (rows: seq<User>)
    requires KeysBelow(users, bound)
    requires forall k :: k in users ==> users[k].id == k
    ensures forall i, j :: 0 <= i < j < |rows| ==> rows[i].id < rows[j].id
    ensures forall i :: 0 <= i < |rows| ==> rows[i].id in users && users[rows[i].id] == rows[i]
    ensures forall k :: k in users ==> users[k] in rows
  {
    rows := [];
    var id := 1;
    while id < bound
      invariant bound <= id ==> bound <= 1 || id == bound
      invariant 1 <= id
      invariant forall i, j :: 0 <= i < j < |rows| ==> rows[i].id < rows[j].id
      invariant forall i :: 0 <= i < |rows| ==> rows[i].id < id && rows[i].id in users && users[rows[i].id] == rows[i]
      invariant forall k :: k in users && k < id ==> users[k] in rows
    {
      if id in users {
        rows := rows + [users[id]];
      }
      id := id + 1;
    }
  }
}
