/** The task lifecycle that API/tests/test_main.py walks through, stated as
    a client of the authenticated store: every step's outcome follows from
    the handlers' contracts alone. */
module Scenarios {
  import opened Wrappers
  import opened Http
  import opened Schema
  import opened Jwt
  import opened Auth
  import opened Routes

  /** Register, log in, create a task, list it, retitle it, delete it. */
  method TaskLifecycle(store: Store, now: int)
    requires store.Valid() && !UsernameTaken(store.users, "taskuser")
    modifies store
    ensures store.Valid()
  {
    var registered := store.CreateUser(Some("taskuser"), Some("taskpass"), now);
    assert registered.Success?;
    var me := registered.value.id;
    assert store.users[me].hashedPassword == store.crypt.hash("taskpass");

    var login := store.Login("taskuser", "taskpass", now);
    assert login.Success?;
    var token := login.value.accessToken;
    IssuedTokenResolves(store.users, me, store.key, now, now);
    assert store.Caller(token, now) == Success(store.users[me]);

    var created := store.CreateTask(token, now, Some("Test Task"), Some("Test Desc"));
    assert created.Success? && created.value.title == "Test Task" && created.value.ownerId == me;
    var task := created.value;

    IssuedTokenResolves(store.users, me, store.key, now, now);
    var listed := store.ReadTasks(token, now);
    assert listed.Success? && task in listed.value;

    var updated := store.UpdateTask(token, now, task.id, Some("Updated Task"), Some("Updated Desc"));
    assert updated == Success(Task(task.id, "Updated Task", Some("Updated Desc"), me));

    IssuedTokenResolves(store.users, me, store.key, now, now);
    var deleted := store.DeleteTask(token, now, task.id);
    assert deleted.Success? && task.id !in store.tasks;
  }

  /** test_delete_account: register, log in, delete the account with the
      login's token. Beyond the test, a task created first is removed with
      the account, and the same token then gets 401. */
  method DeleteAccount(store: Store, now: int)
    requires store.Valid() && !UsernameTaken(store.users, "deluser")
    modifies store
    ensures store.Valid()
  {
    var registered := store.CreateUser(Some("deluser"), Some("delpass"), now);
    assert registered.Success?;
    var me := registered.value.id;
    assert store.users[me].hashedPassword == store.crypt.hash("delpass");

    var login := store.Login("deluser", "delpass", now);
    assert login.Success?;
    var token := login.value.accessToken;
    IssuedTokenResolves(store.users, me, store.key, now, now);
    var created := store.CreateTask(token, now, Some("x"), None);
    assert created.Success?;

    IssuedTokenResolves(store.users, me, store.key, now, now);
    var deleted := store.DeleteUser(token, now);
    assert deleted.Success? && me !in store.users && created.value.id !in store.tasks;

    var profile := store.ReadUserProfile(token, now);
    assert profile == Failure(Unauthorized);
  }
}
