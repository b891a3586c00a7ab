/**
 * `POST /users/`: get-or-create of a user by username. The session id that
 * a new user receives comes from `randomUUID()`; here the caller passes it
 * in as `token`, and nothing assumes it differs from the tokens already
 * issued.
 */
module UserRoutes {
  import opened Wrappers
  import opened Tables
  import opened Replies

  /** `knex('users').where({username}).first()`: the first user with this username, if any. */
  function FindByUsername(users: seq<User>, username: string): (r: Option<User>)
    ensures r.Some? ==> r.value in users && r.value.username == username
    ensures r.None? <==> forall u :: u in users ==> u.username != username
  {
    if users == [] then None
    else if users[0].username == username then Some(users[0])
    else FindByUsername(users[1..], username)
  }

  /** A lookup that found a user keeps finding it once rows are appended. */
  lemma {:induction false} FindSurvivesAppend(users: seq<User>, username: string, more: seq<User>)
    requires FindByUsername(users, username).Some?
    ensures FindByUsername(users + more, username) == FindByUsername(users, username)
  {
    if users[0].username != username {
      assert (users + more)[1..] == users[1..] + more;
      FindSurvivesAppend(users[1..], username, more);
    }
  }

  /** A row appended for an unknown username is the one the next lookup finds. */
  lemma {:induction false} FindAppended(users: seq<User>, row: User)
    requires FindByUsername(users, row.username).None?
    ensures FindByUsername(users + [row], row.username) == Some(row)
  {
    if users == [] {
      assert users + [row] == [row];
    } else {
      assert (users + [row])[1..] == users[1..] + [row];
      FindAppended(users[1..], row);
    }
  }

  /**
   * Answers 201 with the user of that name and sets the cookie to its
   * session id. When the name is taken, that first user is answered and the
   * table is left as it was; otherwise exactly one row is appended, with
   * the next id, the name and the token. Existing rows are never changed,
   * and afterwards a lookup by the name finds the answered user.
   */
  method Register(db: Database, username: string, token: string) returns (r: Reply<User>, cookie: Option<string>)
    requires db.Valid()
    modifies db`users, db`nextUserId
    ensures db.Valid()
    ensures r.code == 201 && r.body.Success?
    ensures cookie == r.body.data.sessionId
    ensures FindByUsername(old(db.users), username).Some? ==>
      r.body.data == FindByUsername(old(db.users), username).value
      && db.users == old(db.users) && db.nextUserId == old(db.nextUserId)
    ensures FindByUsername(old(db.users), username).None? ==>
      r.body.data == User(old(db.nextUserId), username, Some(token))
      && db.users == old(db.users) + [r.body.data]
    ensures old(db.users) <= db.users && |db.users| <= |old(db.users)| + 1
    ensures FindByUsername(db.users, username) == Some(r.body.data)
  {
    var user := FindByUsername(db.users, username);
    if user.None? {
      var row := User(db.nextUserId, username, Some(token));
      FindAppended(db.users, row);
      forall s | s in db.snacks
        ensures HasUser(db.users + [row], s.userId)
      {
        HasUserAppend(db.users, [row], s.userId);
      }
      db.users := db.users + [row];
      db.nextUserId := db.nextUserId + 1;
      user := Some(row);
    }
    cookie := user.value.sessionId;
    r := Reply(201, Success(user.value));
  }

  /**
   * Registering the same username twice answers the same user, so the same
   * id and session id, and the second call leaves `users` as the first left it.
   */
  method RegisterTwice(db: Database, username: string, token1: string, token2: string)
    returns (first: User, second: User)
    requires db.Valid()
    modifies db`users, db`nextUserId
    ensures db.Valid()
    ensures first == second
    ensures first.id == second.id && first.sessionId == second.sessionId
    ensures FindByUsername(old(db.users), username).Some? ==> db.users == old(db.users)
    ensures FindByUsername(old(db.users), username).None? ==> db.users == old(db.users) + [first]
    ensures |db.users| <= |old(db.users)| + 1
  {
    var r1, cookie1 := Register(db, username, token1);
    ghost var afterFirst := db.users;
    var r2, cookie2 := Register(db, username, token2);
    assert db.users == afterFirst;
    first, second := r1.body.data, r2.body.data;
  }
}
