/** API/src/main.py: the earlier, unauthenticated service over the same two
    tables. Here the client names the owner of a task and supplies the
    stored password hash itself, and a counter is reset only when its whole
    table has become empty. */
module MainApp {
  import opened Wrappers
  import opened Http
  import opened Schema

  const UserDeleted := "User deleted"
  const TaskDeleted := "Task deleted"

  class Store {
    /** The `users` and `tasks` tables, keyed by primary key, and the next
        value of each AUTO_INCREMENT counter. */
    var users: map<int, User>
    var tasks: map<int, Task>
    var nextUserId: int
    var nextTaskId: int

    ghost predicate Valid()
      reads this
    {
      Consistent(users, tasks) &&
      1 <= nextUserId && KeysBelow(users, nextUserId) &&
      1 <= nextTaskId && KeysBelow(tasks, nextTaskId)
    }

    constructor ()
      ensures Valid()
      ensures users == map[] && tasks == map[] && nextUserId == 1 && nextTaskId == 1
    {
      users := map[];
      tasks := map[];
      nextUserId := 1;
      nextTaskId := 1;
    }

    /** POST /users/: 400 unless both fields are truthy, 400 for a taken
        username; the client's `hashed_password` is stored verbatim. */
    method CreateUser(username: Option<string>, hashedPassword: Option<string>) returns (r: Result<User, Error>)
      requires Valid()
      modifies this
      ensures Valid()
      ensures !Provided(username) || !Provided(hashedPassword) ==> r == Failure(BadRequest) && unchanged(this)
      ensures Provided(username) && Provided(hashedPassword) && UsernameTaken(old(users), username.value) ==>
                r == Failure(BadRequest) && unchanged(this)
      ensures Provided(username) && Provided(hashedPassword) && !UsernameTaken(old(users), username.value) ==>
                var row := User(old(nextUserId), username.value, hashedPassword.value);
                if UserFits(row) then
                  r == Success(row) && users == old(users)[row.id := row] && tasks == old(tasks) &&
                  nextUserId == old(nextUserId) + 1 && nextTaskId == old(nextTaskId)
                else
                  r == Failure(InternalError) && unchanged(this)
    {
      if !Provided(username) || !Provided(hashedPassword) {
        return Failure(BadRequest);
      }
      if UsernameTaken(users, username.value) {
        return Failure(BadRequest);
      }
      var row := User(nextUserId, username.value, hashedPassword.value);
      if !UserFits(row) {
        return Failure(InternalError);
      }
      users := users[row.id := row];
      nextUserId := nextUserId + 1;
      r := Success(row);
    }

    /** GET /users/: every user, by increasing id. */
    method ReadUsers() returns (rows: seq<User>)
      requires Valid()
      ensures forall i, j :: 0 <= i < j < |rows| ==> rows[i].id < rows[j].id
      ensures forall u :: u in rows <==> u.id in users && users[u.id] == u
    {
      rows := SelectUsers(users, nextUserId);
    }

    /** GET /users/{user_id}: the row, or 404. */
    method ReadUser(userId: int) returns (r: Result<User, Error>)
      requires Valid()
      ensures r.Success? <==> userId in users
      ensures r.Success? ==> r.value == users[userId] && r.value.id == userId
      ensures r.Failure? ==> r.error == NotFound
    {
      if userId !in users {
        return Failure(NotFound);
      }
      r := Success(users[userId]);
    }

    /** DELETE /users/{user_id}: remove the row and, through the cascade,
        its tasks; the user counter is reset only when no user is left, and
        the task counter never. */
    method DeleteUser(userId: int) returns (r: Result<string, Error>)
      requires Valid()
      modifies this
      ensures Valid()
      ensures userId !in old(users) ==> r == Failure(NotFound) && unchanged(this)
      ensures userId in old(users) ==>
                r == Success(UserDeleted) &&
                users == old(users) - {userId} && tasks == WithoutOwner(old(tasks), userId) &&
                nextTaskId == old(nextTaskId) &&
                nextUserId == if users == map[] then 1 else old(nextUserId)
    {
      if userId !in users {
        return Failure(NotFound);
      }
      CascadeDelete(users, tasks, userId);
      users := users - {userId};
      tasks := WithoutOwner(tasks, userId);
      var userCount := |users|;
      if userCount == 0 {
        nextUserId := NextAutoIncrement(users.Keys, nextUserId);
      }
      r := Success(UserDeleted);
    }

    /** PUT /users/{user_id}: overwrite the username and the hash only with
        truthy values; no duplicate check beyond the UNIQUE index. */
    method UpdateUser(userId: int, username: Option<string>, hashedPassword: Option<string>) returns (r: Result<User, Error>)
      requires Valid()
      modifies this
      ensures Valid()
      ensures userId !in old(users) ==> r == Failure(NotFound) && unchanged(this)
      ensures userId in old(users) ==>
                var was := old(users)[userId];
                var row := User(userId, Patch(was.username, username), Patch(was.hashedPassword, hashedPassword));
                if UserFits(row) && !UsernameTakenByOther(old(users), userId, row.username) then
                  r == Success(row) && users == old(users)[userId := row] && tasks == old(tasks) &&
                  nextUserId == old(nextUserId) && nextTaskId == old(nextTaskId)
                else
                  r == Failure(InternalError) && unchanged(this)
    {
      if userId !in users {
        return Failure(NotFound);
      }
      var was := users[userId];
      var row := User(userId, Patch(was.username, username), Patch(was.hashedPassword, hashedPassword));
      if !UserFits(row) || UsernameTakenByOther(users, userId, row.username) {
        return Failure(InternalError);
      }
      users := users[userId := row];
      r := Success(row);
    }

    /** POST /tasks/: 404 when there is no user at all, before any field is
        looked at; then 400 unless the title and `owner_id` are truthy; an
        owner that does not exist breaks the foreign key at commit. */
    method CreateTask(title: Option<string>, description: Option<string>, ownerId: Option<int>) returns (r: Result<Task, Error>)
      requires Valid()
      modifies this
      ensures Valid()
      ensures old(users) == map[] ==> r == Failure(NotFound) && unchanged(this)
      ensures old(users) != map[] && (!Provided(title) || ownerId.None? || ownerId.value == 0) ==>
                r == Failure(BadRequest) && unchanged(this)
      ensures old(users) != map[] && Provided(title) && ownerId.Some? && ownerId.value != 0 ==>
                var row := Task(old(nextTaskId), title.value, description, ownerId.value);
                if row.ownerId in old(users) && TaskFits(row) then
                  r == Success(row) && tasks == old(tasks)[row.id := row] && users == old(users) &&
                  nextTaskId == old(nextTaskId) + 1 && nextUserId == old(nextUserId)
                else
                  r == Failure(InternalError) && unchanged(this)
    {
      var userCount := |users|;
      if userCount == 0 {
        return Failure(NotFound);
      }
      if !Provided(title) || ownerId.None? || ownerId.value == 0 {
        return Failure(BadRequest);
      }
      var row := Task(nextTaskId, title.value, description, ownerId.value);
      if row.ownerId !in users || !TaskFits(row) {
        return Failure(InternalError);
      }
      tasks := tasks[row.id := row];
      nextTaskId := nextTaskId + 1;
      r := Success(row);
    }

    /** GET /tasks/{task_id}: the row, or 404; no owner check. */
    method ReadTask(taskId: int) returns (r: Result<Task, Error>)
      requires Valid()
      ensures r.Success? <==> taskId in tasks
      ensures r.Success? ==> r.value == tasks[taskId] && r.value.id == taskId
      ensures r.Failure? ==> r.error == NotFound
    {
      if taskId !in tasks {
        return Failure(NotFound);
      }
      r := Success(tasks[taskId]);
    }

    /** GET /tasks/: every task of every user, by increasing id. */
    method ReadTasks() returns (rows: seq<Task>)
      requires Valid()
      ensures forall i, j :: 0 <= i < j < |rows| ==> rows[i].id < rows[j].id
      ensures forall t :: t in rows <==> t.id in tasks && tasks[t.id] == t
    {
      rows := SelectTasks(tasks, nextTaskId, None);
    }

    /** GET /users/{user_id}/tasks/: exactly the tasks whose owner is
        `userId`, by increasing id; an unknown user has none. */
    method ReadTasksByUser(userId: int) returns (rows: seq<Task>)
      requires Valid()
      ensures forall i, j :: 0 <= i < j < |rows| ==> rows[i].id < rows[j].id
      ensures forall t :: t in rows <==> t.id in tasks && tasks[t.id] == t && t.ownerId == userId
      ensures userId !in users ==> rows == []
    {
      rows := SelectTasks(tasks, nextTaskId, Some(userId));
      if |rows| > 0 {
        assert rows[0].ownerId == userId && userId in users;
      }
    }

    /** PUT /tasks/{task_id}: overwrite the title and the description only
        with truthy values; `owner_id` is never touched. */
    method UpdateTask(taskId: int, title: Option<string>, description: Option<string>) returns (r: Result<Task, Error>)
      requires Valid()
      modifies this
      ensures Valid()
      ensures taskId !in old(tasks) ==> r == Failure(NotFound) && unchanged(this)
      ensures taskId in old(tasks) ==>
                var was := old(tasks)[taskId];
                var row := Task(taskId, Patch(was.title, title), PatchOptional(was.description, description), was.ownerId);
                if TaskFits(row) then
                  r == Success(row) && tasks == old(tasks)[taskId := row] && users == old(users) &&
                  nextUserId == old(nextUserId) && nextTaskId == old(nextTaskId)
                else
                  r == Failure(InternalError) && unchanged(this)
    {
      if taskId !in tasks {
        return Failure(NotFound);
      }
      var was := tasks[taskId];
      var row := Task(taskId, Patch(was.title, title), PatchOptional(was.description, description), was.ownerId);
      if !TaskFits(row) {
        return Failure(InternalError);
      }
      tasks := tasks[taskId := row];
      r := Success(row);
    }

    /** DELETE /tasks/{task_id}: remove the one row; the task counter is
        reset only when the whole table is empty. */
    method DeleteTask(taskId: int) returns (r: Result<string, Error>)
      requires Valid()
      modifies this
      ensures Valid()
      ensures taskId !in old(tasks) ==> r == Failure(NotFound) && unchanged(this)
      ensures taskId in old(tasks) ==>
                r == Success(TaskDeleted) &&
                tasks == old(tasks) - {taskId} && users == old(users) && nextUserId == old(nextUserId) &&
                nextTaskId == if tasks == map[] then 1 else old(nextTaskId)
    {
      if taskId !in tasks {
        return Failure(NotFound);
      }
      tasks := tasks - {taskId};
      var taskCount := |tasks|;
      if taskCount == 0 {
        nextTaskId := NextAutoIncrement(tasks.Keys, nextTaskId);
      }
      r := Success(TaskDeleted);
    }
  }
}
