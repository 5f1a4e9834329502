/** The authenticated service of API/src/app/routes/users.py and
    API/src/app/routes/tasks.py: one store holding the two tables and their
    auto-increment counters, with one method per route handler. A handler
    that resolves the caller takes the bearer `token` and the clock `now`;
    its first step is `get_current_user`. */
module Routes {
  import opened Wrappers
  import opened Http
  import opened Schema
  import opened Credentials
  import opened Jwt
  import opened Auth

  /** The body `create_user` returns. */
  datatype Registration = Registration(id: int, username: string, accessToken: Token, tokenType: string)

  /** The body `login_for_access_token` returns. */
  datatype AccessToken = AccessToken(accessToken: Token, tokenType: string)

  /** The body `read_user_profile` returns: no password hash in it. */
  datatype Profile = Profile(id: int, username: string)

  const TokenType := "bearer"
  const AccountDeleted := "Your account has been deleted"
  const TaskDeleted := "Task deleted"

  /** The credential check of `login_for_access_token` as intended: an
      unknown username and a wrong password are the same 401. */
  function CheckCredentials(candidate: Option<User>, password: string, crypt: Bcrypt): (r: Result<User, Error>)
    ensures r.Success? <==> candidate.Some? && crypt.verify(password, candidate.value.hashedPassword)
    ensures r.Success? ==> r.value == candidate.value
    ensures r.Failure? ==> r.error == Unauthorized
  {
    if candidate.None? || !crypt.verify(password, candidate.value.hashedPassword) then Failure(Unauthorized)
    else Success(candidate.value)
  }

  /** The same check as the file has it: the failure branch evaluates
      `status.HTTP_401_UNAUTHORIZED`, and `status` is never imported there,
      so the NameError it raises reaches the client as a 500. */
  function CheckCredentialsAsWritten(candidate: Option<User>, password: string, crypt: Bcrypt): (r: Result<User, Error>)
    ensures r.Success? <==> candidate.Some? && crypt.verify(password, candidate.value.hashedPassword)
    ensures r.Failure? ==> r.error == InternalError
  {
    if candidate.None? || !crypt.verify(password, candidate.value.hashedPassword) then Failure(InternalError)
    else Success(candidate.value)
  }

  /** An unknown username gets 500 from the code as written, where 401 is meant. */
  lemma LoginFailureAsWritten(password: string, crypt: Bcrypt)
    ensures CheckCredentialsAsWritten(None, password, crypt).error.Status() == 500
    ensures CheckCredentials(None, password, crypt).error.Status() == 401
  {
  }

  /** A password checks out against the hash that registration stored for it. */
  lemma RegisteredPasswordVerifies(u: User, password: string, crypt: Bcrypt)
    requires Sound(crypt) && u.hashedPassword == crypt.hash(password)
    ensures CheckCredentials(Some(u), password, crypt) == Success(u)
  {
  }

  class Store {
    /** `JWT_SECRET_KEY` and the bcrypt context. */
    const key: string
    const crypt: Bcrypt

    /** The `users` and `tasks` tables, keyed by primary key, and the next
        value of each AUTO_INCREMENT counter. */
    var users: map<int, User>
    var tasks: map<int, Task>
    var nextUserId: int
    var nextTaskId: int

    ghost predicate Valid()
      reads this
    {
      Consistent(users, tasks) && Sound(crypt) &&
      1 <= nextUserId && KeysBelow(users, nextUserId) &&
      1 <= nextTaskId && KeysBelow(tasks, nextTaskId)
    }

    /** Who the bearer of `token` is at time `now`, by `get_current_user`. */
    ghost function Caller(token: Token, now: int): Result<User, Error>
      reads this
      requires UserTable(users)
    {
      GetCurrentUser(token, key, now, users)
    }

    constructor (key: string, crypt: Bcrypt)
      requires Sound(crypt)
      ensures Valid()
      ensures this.key == key && this.crypt == crypt
      ensures users == map[] && tasks == map[] && nextUserId == 1 && nextTaskId == 1
    {
      this.key := key;
      this.crypt := crypt;
      users := map[];
      tasks := map[];
      nextUserId := 1;
      nextTaskId := 1;
    }

    /** POST /users/: register, store the bcrypt hash, and hand back a token
        for the new username. */
    method CreateUser(username: Option<string>, password: Option<string>, now: int) returns (r: Result<Registration, Error>)
      requires Valid()
      modifies this
      ensures Valid()
      ensures r.Success? <==>
                Provided(username) && Provided(password) &&
                !UsernameTaken(old(users), username.value) && |username.value| <= UsernameWidth
      ensures !Provided(username) || !Provided(password) ==> r == Failure(BadRequest)
      ensures Provided(username) && Provided(password) && UsernameTaken(old(users), username.value) ==>
                r == Failure(BadRequest)
      ensures (Provided(username) && Provided(password) && !UsernameTaken(old(users), username.value) &&
               |username.value| > UsernameWidth) ==> r == Failure(InternalError)
      ensures r.Failure? ==> unchanged(this)
      ensures r.Success? ==>
                var row := User(old(nextUserId), username.value, crypt.hash(password.value));
                users == old(users)[row.id := row] && tasks == old(tasks) &&
                nextUserId == old(nextUserId) + 1 && nextTaskId == old(nextTaskId) &&
                r.value == Registration(row.id, row.username,
                                        CreateAccessToken(map["sub" := Str(row.username)], None, now, key), TokenType)
    {
      if !Provided(username) || !Provided(password) {
        return Failure(BadRequest);
      }
      if UsernameTaken(users, username.value) {
        return Failure(BadRequest);
      }
      var row := User(nextUserId, username.value, crypt.hash(password.value));
      if !UserFits(row) {
        return Failure(InternalError);
      }
      users := users[row.id := row];
      nextUserId := nextUserId + 1;
      var token := CreateAccessToken(map["sub" := Str(row.username)], None, now, key);
      r := Success(Registration(row.id, row.username, token, TokenType));
    }

    /** POST /token: one 401 for an unknown username and for a wrong
        password; on success a token whose subject is that username. */
    method Login(username: string, password: string, now: int) returns (r: Result<AccessToken, Error>)
      requires Valid()
      ensures r.Success? <==>
                exists k :: k in users && users[k].username == username && crypt.verify(password, users[k].hashedPassword)
      ensures r.Failure? ==> r.error == Unauthorized
      ensures r.Success? ==>
                r.value == AccessToken(CreateAccessToken(map["sub" := Str(username)], None, now, key), TokenType)
    {
      var found := FindUsername(users, username);
      var candidate := if found.Some? then Some(users[found.value]) else None;
      var checked := CheckCredentials(candidate, password, crypt);
      if checked.Failure? {
        return Failure(checked.error);
      }
      var token := CreateAccessToken(map["sub" := Str(checked.value.username)], None, now, key);
      r := Success(AccessToken(token, TokenType));
    }

    /** GET /users/me: the caller's id and username and nothing else. */
    method ReadUserProfile(token: Token, now: int) returns (r: Result<Profile, Error>)
      requires Valid()
      ensures Caller(token, now).Failure? ==> r == Failure(Unauthorized)
      ensures Caller(token, now).Success? ==>
                r == Success(Profile(Caller(token, now).value.id, Caller(token, now).value.username))
    {
      var who := GetCurrentUser(token, key, now, users);
      if who.Failure? {
        return Failure(Unauthorized);
      }
      r := Success(Profile(who.value.id, who.value.username));
    }

    /** PUT /users/{user_id}: change the username only to a truthy value and
        re-hash the password only when one is given; the handler checks no
        duplicate itself, so a taken username is refused by the UNIQUE
        index at commit. */
    method UpdateUser(userId: int, username: Option<string>, password: Option<string>) returns (r: Result<User, Error>)
      requires Valid()
      modifies this
      ensures Valid()
      ensures userId !in old(users) ==> r == Failure(NotFound) && unchanged(this)
      ensures userId in old(users) ==>
                var was := old(users)[userId];
                var row := User(userId, Patch(was.username, username),
                                if Provided(password) then crypt.hash(password.value) else was.hashedPassword);
                if |row.username| <= UsernameWidth && !UsernameTakenByOther(old(users), userId, row.username) then
                  r == Success(row) && users == old(users)[userId := row] && tasks == old(tasks) &&
                  nextUserId == old(nextUserId) && nextTaskId == old(nextTaskId)
                else
                  r == Failure(InternalError) && unchanged(this)
    {
      if userId !in users {
        return Failure(NotFound);
      }
      var was := users[userId];
      var row := User(userId, Patch(was.username, username),
                      if Provided(password) then crypt.hash(password.value) else was.hashedPassword);
      if !UserFits(row) || UsernameTakenByOther(users, userId, row.username) {
        return Failure(InternalError);
      }
      users := users[userId := row];
      r := Success(row);
    }

    /** DELETE /users/me: remove the caller's own row and, through the
        cascade, every task the caller owns. */
    method DeleteUser(token: Token, now: int) returns (r: Result<string, Error>)
      requires Valid()
      modifies this
      ensures Valid()
      ensures old(Caller(token, now)).Failure? ==> r == Failure(Unauthorized) && unchanged(this)
      ensures old(Caller(token, now)).Success? ==>
                var me := old(Caller(token, now)).value;
                r == Success(AccountDeleted) &&
                users == old(users) - {me.id} && tasks == WithoutOwner(old(tasks), me.id) &&
                nextUserId == old(nextUserId) && nextTaskId == old(nextTaskId)
    {
      var who := GetCurrentUser(token, key, now, users);
      if who.Failure? {
        return Failure(Unauthorized);
      }
      var me := who.value;
      CascadeDelete(users, tasks, me.id);
      users := users - {me.id};
      tasks := WithoutOwner(tasks, me.id);
      r := Success(AccountDeleted);
    }

    /** POST /tasks/: the owner is the caller, whatever the body says; title
        and description are stored as given. A missing title breaks NOT NULL
        and an over-long field breaks its column width at commit. */
    method CreateTask(token: Token, now: int, title: Option<string>, description: Option<string>) returns (r: Result<Task, Error>)
      requires Valid()
      modifies this
      ensures Valid()
      ensures old(Caller(token, now)).Failure? ==> r == Failure(Unauthorized) && unchanged(this)
      ensures old(Caller(token, now)).Success? ==>
                var me := old(Caller(token, now)).value;
                if title.Some? && TaskFits(Task(old(nextTaskId), title.value, description, me.id)) then
                  r == Success(Task(old(nextTaskId), title.value, description, me.id)) &&
                  tasks == old(tasks)[old(nextTaskId) := r.value] && users == old(users) &&
                  nextTaskId == old(nextTaskId) + 1 && nextUserId == old(nextUserId)
                else
                  r == Failure(InternalError) && unchanged(this)
    {
      var who := GetCurrentUser(token, key, now, users);
      if who.Failure? {
        return Failure(Unauthorized);
      }
      if title.None? {
        return Failure(InternalError);
      }
      var row := Task(nextTaskId, title.value, description, who.value.id);
      if !TaskFits(row) {
        return Failure(InternalError);
      }
      tasks := tasks[row.id := row];
      nextTaskId := nextTaskId + 1;
      r := Success(row);
    }

    /** GET /tasks/: exactly the caller's tasks, by increasing id. */
    method ReadTasks(token: Token, now: int) returns (r: Result<seq<Task>, Error>)
      requires Valid()
      ensures Caller(token, now).Failure? ==> r == Failure(Unauthorized)
      ensures Caller(token, now).Success? ==> r.Success?
      ensures r.Success? ==> forall i, j :: 0 <= i < j < |r.value| ==> r.value[i].id < r.value[j].id
      ensures r.Success? ==>
                forall t :: t in r.value <==>
                  t.id in tasks && tasks[t.id] == t && t.ownerId == Caller(token, now).value.id
    {
      var who := GetCurrentUser(token, key, now, users);
      if who.Failure? {
        return Failure(Unauthorized);
      }
      var rows := SelectTasks(tasks, nextTaskId, Some(who.value.id));
      r := Success(rows);
    }

    /** GET /tasks/{task_id}: a task that does not exist and a task owned by
        someone else are the same 404. */
    method ReadTask(token: Token, now: int, taskId: int) returns (r: Result<Task, Error>)
      requires Valid()
      ensures Caller(token, now).Failure? ==> r == Failure(Unauthorized)
      ensures Caller(token, now).Success? ==>
                r == if taskId in tasks && tasks[taskId].ownerId == Caller(token, now).value.id
                     then Success(tasks[taskId]) else Failure(NotFound)
    {
      var who := GetCurrentUser(token, key, now, users);
      if who.Failure? {
        return Failure(Unauthorized);
      }
      if taskId !in tasks || tasks[taskId].ownerId != who.value.id {
        return Failure(NotFound);
      }
      r := Success(tasks[taskId]);
    }

    /** PUT /tasks/{task_id}: on the caller's own task, overwrite the title
        and the description only with truthy values; id and owner stay. */
    method UpdateTask(token: Token, now: int, taskId: int, title: Option<string>, description: Option<string>)
      returns (r: Result<Task, Error>)
      requires Valid()
      modifies this
      ensures Valid()
      ensures old(Caller(token, now)).Failure? ==> r == Failure(Unauthorized) && unchanged(this)
      ensures old(Caller(token, now)).Success? &&
              (taskId !in old(tasks) || old(tasks)[taskId].ownerId != old(Caller(token, now)).value.id) ==>
                r == Failure(NotFound) && unchanged(this)
      ensures old(Caller(token, now)).Success? &&
              taskId in old(tasks) && old(tasks)[taskId].ownerId == old(Caller(token, now)).value.id ==>
                var was := old(tasks)[taskId];
                var row := Task(taskId, Patch(was.title, title), PatchOptional(was.description, description), was.ownerId);
                if TaskFits(row) then
                  r == Success(row) && tasks == old(tasks)[taskId := row] && users == old(users) &&
                  nextUserId == old(nextUserId) && nextTaskId == old(nextTaskId)
                else
                  r == Failure(InternalError) && unchanged(this)
    {
      var who := GetCurrentUser(token, key, now, users);
      if who.Failure? {
        return Failure(Unauthorized);
      }
      if taskId !in tasks || tasks[taskId].ownerId != who.value.id {
        return Failure(NotFound);
      }
      var was := tasks[taskId];
      var row := Task(taskId, Patch(was.title, title), PatchOptional(was.description, description), was.ownerId);
      if !TaskFits(row) {
        return Failure(InternalError);
      }
      tasks := tasks[taskId := row];
      r := Success(row);
    }

    /** DELETE /tasks/{task_id}: remove exactly the caller's one task; when
        the caller has no task left, reset the task counter, even though
        other users may still own tasks. */
    method DeleteTask(token: Token, now: int, taskId: int) returns (r: Result<string, Error>)
      requires Valid()
      modifies this
      ensures Valid()
      ensures old(Caller(token, now)).Failure? ==> r == Failure(Unauthorized) && unchanged(this)
      ensures old(Caller(token, now)).Success? &&
              (taskId !in old(tasks) || old(tasks)[taskId].ownerId != old(Caller(token, now)).value.id) ==>
                r == Failure(NotFound) && unchanged(this)
      ensures old(Caller(token, now)).Success? &&
              taskId in old(tasks) && old(tasks)[taskId].ownerId == old(Caller(token, now)).value.id ==>
                r == Success(TaskDeleted) &&
                tasks == old(tasks) - {taskId} && users == old(users) && nextUserId == old(nextUserId) &&
                if Owns(tasks, old(Caller(token, now)).value.id) then nextTaskId == old(nextTaskId)
                else AutoIncrementAfter(tasks.Keys, nextTaskId)
    {
      var who := GetCurrentUser(token, key, now, users);
      if who.Failure? {
        return Failure(Unauthorized);
      }
      if taskId !in tasks || tasks[taskId].ownerId != who.value.id {
        return Failure(NotFound);
      }
      tasks := tasks - {taskId};
      var taskCount := |TasksOf(tasks, who.value.id)|;
      OwnedCount(tasks, who.value.id);
      if taskCount == 0 {
        nextTaskId := NextAutoIncrement(tasks.Keys, nextTaskId);
      }
      r := Success(TaskDeleted);
    }
  }
}
