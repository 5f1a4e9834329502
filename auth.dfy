/** API/src/app/auth.py: issuing access tokens and resolving the bearer of a
    token to a row of `users`. The clock is the parameter `now`, in seconds;
    the signing key is the parameter `key` (`JWT_SECRET_KEY`). */
module Auth {
  import opened Wrappers
  import opened Http
  import opened Schema
  import opened Jwt

  /** `timedelta(minutes=15)`, in seconds. */
  const DefaultExpiresDelta := 15 * 60

  /** `expires_delta or timedelta(minutes=15)`: an absent and a zero
      timedelta are both falsy and give the default. */
  function ExpiresDelta(expiresDelta: Option<int>): int {
    if expiresDelta.None? || expiresDelta.value == 0 then DefaultExpiresDelta else expiresDelta.value
  }

  /** `create_access_token`: a token signed with `key` whose claims are a
      copy of `data` with `exp` set to `now` plus the delta. `data` itself is
      a value and is left as it was. */
  function CreateAccessToken(data: Claims, expiresDelta: Option<int>, now: int, key: string): (token: Token)
    ensures token.Signed? && token.key == key
    ensures token.claims.Keys == data.Keys + {"exp"}
    ensures forall name :: name in data && name != "exp" ==> token.claims[name] == data[name]
    ensures token.claims["exp"] == NumericDate(now + ExpiresDelta(expiresDelta))
  {
    var toEncode := data["exp" := NumericDate(now + ExpiresDelta(expiresDelta))];
    Encode(toEncode, key)
  }

  /** `db.query(User).filter(User.username == name).first()`, as a key. */
  function FindUsername(users: map<int, User>, name: string): (found: Option<int>)
    requires UserTable(users)
    ensures found.Some? ==> found.value in users && users[found.value].username == name
    ensures found.None? ==> !UsernameTaken(users, name)
  {
    if UsernameTaken(users, name) then
      var k :| k in users && users[k].username == name; Some(k)
    else None
  }

  /** `get_current_user`: every way of failing is the same 401. */
  function GetCurrentUser(token: Token, key: string, now: int, users: map<int, User>): (r: Result<User, Error>)
    requires UserTable(users)
    ensures r.Failure? ==> r.error == Unauthorized
    ensures Decode(token, key, now).Failure? ==> r.Failure?
    ensures Decode(token, key, now).Success? && "sub" !in Decode(token, key, now).value ==> r.Failure?
    ensures Decode(token, key, now).Success? && "sub" in Decode(token, key, now).value ==>
              (r.Success? <==> UsernameTaken(users, Decode(token, key, now).value["sub"].text))
    ensures r.Success? ==>
              r.value.id in users && users[r.value.id] == r.value &&
              Decode(token, key, now).Success? && Decode(token, key, now).value["sub"] == Str(r.value.username)
  {
    match Decode(token, key, now)
    case Failure(_) => Failure(Unauthorized)
    case Success(payload) =>
      if "sub" !in payload then Failure(Unauthorized)
      else
        match FindUsername(users, payload["sub"].text)
        case None => Failure(Unauthorized)
        case Some(k) => Success(users[k])
  }

  /** A token issued for an existing user's username (with the default
      lifetime) resolves to exactly that user up to and including its
      expiry second, and to nothing after it. */
  lemma {:induction false} IssuedTokenResolves(users: map<int, User>, k: int, key: string, issuedAt: int, now: int)
    requires UserTable(users) && k in users
    ensures var token := CreateAccessToken(map["sub" := Str(users[k].username)], None, issuedAt, key);
            GetCurrentUser(token, key, now, users) ==
              if now <= issuedAt + DefaultExpiresDelta then Success(users[k]) else Failure(Unauthorized)
  {
    var token := CreateAccessToken(map["sub" := Str(users[k].username)], None, issuedAt, key);
    var r := GetCurrentUser(token, key, now, users);
    if now <= issuedAt + DefaultExpiresDelta {
      assert Decode(token, key, now).Success?;
      assert UsernameTaken(users, users[k].username);
      assert r.value.username == users[k].username;
    }
  }

  /** In the table right after the user a token names is deleted, the token
      resolves to nothing, however long it has left before it expires. The
      token names a username, not a row: see `TokenFollowsUsername`. */
  lemma {:induction false} DeletedUserTokenRejected(users: map<int, User>, k: int, token: Token, key: string, now: int)
    requires UserTable(users) && k in users
    requires Decode(token, key, now).Success?
    requires "sub" in Decode(token, key, now).value && Decode(token, key, now).value["sub"] == Str(users[k].username)
    ensures UserTable(users - {k})
    ensures GetCurrentUser(token, key, now, users - {k}) == Failure(Unauthorized)
  {
  }

  /** A token that decodes resolves to whichever row holds its `sub`
      username, whatever row it was issued for. */
  lemma {:induction false} TokenFollowsUsername(users: map<int, User>, j: int, token: Token, key: string, now: int)
    requires UserTable(users) && j in users
    requires Decode(token, key, now).Success?
    requires "sub" in Decode(token, key, now).value && Decode(token, key, now).value["sub"] == Str(users[j].username)
    ensures GetCurrentUser(token, key, now, users) == Success(users[j])
  {
    assert UsernameTaken(users, users[j].username);
    var found := FindUsername(users, users[j].username);
    assert found.Some? && users[found.value].username == users[j].username;
  }

  /** Registration is open and a deleted user's username is free again: once
      someone registers it as a new row `j`, a token issued for the deleted
      row `k` resolves to the new row, with its tasks. */
  lemma {:induction false} TokenRevivedByReRegistration(users: map<int, User>, k: int, j: int, hash: string, key: string, issuedAt: int, now: int)
    requires UserTable(users) && k in users && j !in users - {k}
    requires issuedAt <= now <= issuedAt + DefaultExpiresDelta
    ensures var token := CreateAccessToken(map["sub" := Str(users[k].username)], None, issuedAt, key);
            var later := (users - {k})[j := User(j, users[k].username, hash)];
            UserTable(later) &&
            GetCurrentUser(token, key, now, users - {k}) == Failure(Unauthorized) &&
            GetCurrentUser(token, key, now, later) == Success(later[j])
  {
    var token := CreateAccessToken(map["sub" := Str(users[k].username)], None, issuedAt, key);
    var later := (users - {k})[j := User(j, users[k].username, hash)];
    assert Decode(token, key, now).Success?;
    DeletedUserTokenRejected(users, k, token, key, now);
    assert forall b :: b in users - {k} ==> users[b].username != users[k].username;
    TokenFollowsUsername(later, j, token, key, now);
  }

  /** A token signed with any other key never resolves. */
  lemma ForgedTokenRejected(claims: Claims, forger: string, key: string, now: int, users: map<int, User>)
    requires UserTable(users) && forger != key
    ensures GetCurrentUser(Encode(claims, forger), key, now, users) == Failure(Unauthorized)
  {
  }
}
