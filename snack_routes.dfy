/**
 * The six handlers under `/snacks`. Each first resolves the session cookie
 * to a row of `users` and answers 403 when there is none; only then does it
 * read or change `snacks`, and only the rows whose `user_id` is that user's.
 *
 * The read-only handlers (summary, list, get) are functions of the two
 * tables as they stand when the request is served; the handlers that write
 * (create, update, delete) are methods that change `snacks` in the database.
 */
module SnackRoutes {
  import opened Wrappers
  import opened Tables
  import opened Replies
  import Summary

  /** The request body of `POST /` and `PUT /:snackId` once validated; `onDiet` is absent when not sent. */
  datatype SnackBody = SnackBody(name: string, description: string, createdAt: string, onDiet: Option<bool>)

  /** The body's `on_diet`, defaulting to false. */
  function OnDietOf(body: SnackBody): (onDiet: bool)
    ensures body.onDiet.Some? ==> onDiet == body.onDiet.value
    ensures body.onDiet.None? ==> !onDiet
  {
    body.onDiet.GetOr(false)
  }

  /** No row of `users` carries this session id. */
  predicate UnknownSession(users: seq<User>, sessionId: string) {
    forall u :: u in users ==> u.sessionId != Some(sessionId)
  }

  /** The row of `users` at `i` is the first one carrying this session id. */
  predicate FirstWithSession(users: seq<User>, sessionId: string, i: int) {
    0 <= i < |users| && users[i].sessionId == Some(sessionId)
    && forall j :: 0 <= j < i ==> users[j].sessionId != Some(sessionId)
  }

  /** `knex('users').where({session_id}).first()`: the first user with this session id, if any. */
  function ResolveSession(users: seq<User>, sessionId: string): (r: Option<User>)
    ensures r.None? <==> UnknownSession(users, sessionId)
    ensures r.Some? ==> exists i :: FirstWithSession(users, sessionId, i) && users[i] == r.value
  {
    if users == [] then None
    else if users[0].sessionId == Some(sessionId) then
      assert FirstWithSession(users, sessionId, 0);
      Some(users[0])
    else
      var r := ResolveSession(users[1..], sessionId);
      if r.Some? then
        var i :| FirstWithSession(users[1..], sessionId, i) && users[1..][i] == r.value;
        assert FirstWithSession(users, sessionId, i + 1);
        r
      else
        r
  }

  /** `where({id, user_id}).first()`: the first row with this id owned by `owner`, if any. */
  function FindOwned(rows: seq<Snack>, id: int, owner: int): (r: Option<Snack>)
    ensures r.Some? ==> r.value in rows && r.value.id == id && r.value.userId == owner
    ensures r.None? <==> forall s :: s in rows ==> !(s.id == id && s.userId == owner)
  {
    if rows == [] then None
    else if rows[0].id == id && rows[0].userId == owner then Some(rows[0])
    else FindOwned(rows[1..], id, owner)
  }

  // ----- GET /summary -----

  /**
   * 403 exactly when the session id is unknown; otherwise the summary of
   * the session's user, which is `undefined` when that user has no on-diet
   * snack and otherwise splits `total` into `on_diet` and `not_on_diet`.
   */
  function Summarize(users: seq<User>, snacks: seq<Snack>, sessionId: string): (r: Reply<Option<Summary.Figures>>)
    ensures r == Forbidden() <==> UnknownSession(users, sessionId)
    ensures !UnknownSession(users, sessionId) ==>
      var owner := ResolveSession(users, sessionId).value.id;
      && r.code == 200 && r.body.Success?
      && (r.body.data.None? <==> forall s :: s in snacks && s.userId == owner ==> !s.onDiet)
      && (r.body.data.Some? ==> r.body.data == Summary.SummaryOf(snacks, owner))
      && (r.body.data.Some? ==> r.body.data.value.total == r.body.data.value.onDiet + r.body.data.value.notOnDiet)
  {
    match ResolveSession(users, sessionId)
    case None => Forbidden()
    case Some(user) => Ok(Summary.SummaryOf(snacks, user.id))
  }

  // ----- GET / -----

  /** 403 exactly when the session id is unknown; otherwise exactly the user's rows, in table order. */
  function ListSnacks(users: seq<User>, snacks: seq<Snack>, sessionId: string): (r: Reply<seq<Snack>>)
    ensures r == Forbidden() <==> UnknownSession(users, sessionId)
    ensures !UnknownSession(users, sessionId) ==>
      var owner := ResolveSession(users, sessionId).value.id;
      && r.code == 200 && r.body.Success?
      && (forall s :: s in r.body.data <==> s in snacks && s.userId == owner)
  {
    match ResolveSession(users, sessionId)
    case None => Forbidden()
    case Some(user) => Ok(Summary.OwnedBy(snacks, user.id))
  }

  // ----- GET /:snackId -----

  /**
   * 403 exactly when the session id is unknown; otherwise the user's row
   * with that id, or `null` when the user owns no such row: another user's
   * row is never returned.
   */
  function GetSnack(users: seq<User>, snacks: seq<Snack>, sessionId: string, snackId: int): (r: Reply<Option<Snack>>)
    ensures r == Forbidden() <==> UnknownSession(users, sessionId)
    ensures !UnknownSession(users, sessionId) ==>
      var owner := ResolveSession(users, sessionId).value.id;
      && r.code == 200 && r.body.Success?
      && (r.body.data.Some? ==> r.body.data.value in snacks && r.body.data.value.id == snackId && r.body.data.value.userId == owner)
      && (r.body.data.None? <==> forall s :: s in snacks ==> !(s.id == snackId && s.userId == owner))
  {
    match ResolveSession(users, sessionId)
    case None => Forbidden()
    case Some(user) => Ok(FindOwned(snacks, snackId, user.id))
  }

  // ----- POST / -----

  /**
   * 403, with `snacks` untouched, when the session id is unknown; otherwise
   * appends one row with a fresh id, owned by the user and carrying the
   * body's fields, and answers with that row.
   */
  method CreateSnack(db: Database, sessionId: string, body: SnackBody) returns (r: Reply<Snack>)
    requires db.Valid()
    modifies db`snacks, db`nextSnackId
    ensures db.Valid()
    ensures UnknownSession(db.users, sessionId) ==>
      r == Forbidden() && db.snacks == old(db.snacks) && db.nextSnackId == old(db.nextSnackId)
    ensures !UnknownSession(db.users, sessionId) ==>
      var owner := ResolveSession(db.users, sessionId).value.id;
      && r.code == 200 && r.body.Success?
      && r.body.data == Snack(old(db.nextSnackId), body.name, body.description, body.createdAt, OnDietOf(body), owner)
      && (forall s :: s in old(db.snacks) ==> s.id != r.body.data.id)
      && db.snacks == old(db.snacks) + [r.body.data]
  {
    var user := ResolveSession(db.users, sessionId);
    if user.None? {
      return Forbidden();
    }
    var snack := Snack(db.nextSnackId, body.name, body.description, body.createdAt, OnDietOf(body), user.value.id);
    db.snacks := db.snacks + [snack];
    db.nextSnackId := db.nextSnackId + 1;
    r := Ok(snack);
  }

  // ----- PUT /:snackId -----

  /** A row after the update: the body's fields, its id kept, owned by `owner`. */
  function Edited(row: Snack, body: SnackBody, owner: int): (edited: Snack)
    ensures edited.id == row.id && edited.userId == owner
    ensures edited.name == body.name && edited.description == body.description
    ensures edited.createdAt == body.createdAt && edited.onDiet == OnDietOf(body)
  {
    row.(name := body.name, description := body.description, createdAt := body.createdAt,
         onDiet := OnDietOf(body), userId := owner)
  }

  /** `update(...).where({id, user_id})`: rewrites the matching rows, keeps the others. */
  function UpdateOwned(rows: seq<Snack>, id: int, owner: int, body: SnackBody): (updated: seq<Snack>)
    ensures |updated| == |rows|
    ensures forall i :: 0 <= i < |rows| ==> updated[i].id == rows[i].id && updated[i].userId == rows[i].userId
    ensures forall i :: 0 <= i < |rows| && !(rows[i].id == id && rows[i].userId == owner) ==> updated[i] == rows[i]
    ensures forall i :: 0 <= i < |rows| && rows[i].id == id && rows[i].userId == owner ==>
      updated[i] == Edited(rows[i], body, owner)
  {
    seq(|rows|, i requires 0 <= i < |rows| =>
      if rows[i].id == id && rows[i].userId == owner then Edited(rows[i], body, owner) else rows[i])
  }

  /**
   * After the update, a row matching `(id, owner)` is the rewritten one, and
   * one exists exactly when one existed before.
   */
  lemma UpdatedRowsMatch(rows: seq<Snack>, id: int, owner: int, body: SnackBody)
    ensures forall s :: s in UpdateOwned(rows, id, owner, body) && s.id == id && s.userId == owner ==>
      s == Snack(id, body.name, body.description, body.createdAt, OnDietOf(body), owner)
    ensures FindOwned(UpdateOwned(rows, id, owner, body), id, owner).None? <==> FindOwned(rows, id, owner).None?
  {
    var updated := UpdateOwned(rows, id, owner, body);
    forall s | s in updated && s.id == id && s.userId == owner
      ensures s == Snack(id, body.name, body.description, body.createdAt, OnDietOf(body), owner)
    {
      var i :| 0 <= i < |updated| && updated[i] == s;
    }
    if FindOwned(rows, id, owner).Some? {
      var s := FindOwned(rows, id, owner).value;
      var i :| 0 <= i < |rows| && rows[i] == s;
      assert updated[i] in updated;
    }
    if FindOwned(updated, id, owner).Some? {
      var s := FindOwned(updated, id, owner).value;
      var i :| 0 <= i < |updated| && updated[i] == s;
      assert rows[i] in rows;
    }
  }

  /** The update keeps every row's id and owner, so the table stays in id order and owned by existing users. */
  lemma UpdateKeepsTable(users: seq<User>, rows: seq<Snack>, next: int, id: int, owner: int, body: SnackBody)
    requires SnackIdsIncreasing(rows)
    requires forall s :: s in rows ==> 1 <= s.id < next && HasUser(users, s.userId)
    ensures SnackIdsIncreasing(UpdateOwned(rows, id, owner, body))
    ensures forall s :: s in UpdateOwned(rows, id, owner, body) ==> 1 <= s.id < next && HasUser(users, s.userId)
  {
    var updated := UpdateOwned(rows, id, owner, body);
    forall s | s in updated
      ensures 1 <= s.id < next && HasUser(users, s.userId)
    {
      var i :| 0 <= i < |updated| && updated[i] == s;
      assert rows[i] in rows;
    }
  }

  /**
   * 403, with `snacks` untouched, when the session id is unknown; otherwise
   * rewrites name, description, created_at and on_diet of the user's row
   * with that id and of no other row, and answers with the rewritten row,
   * or `undefined` when the user owns no such row.
   */
  method UpdateSnack(db: Database, sessionId: string, snackId: int, body: SnackBody) returns (r: Reply<Option<Snack>>)
    requires db.Valid()
    modifies db`snacks
    ensures db.Valid()
    ensures UnknownSession(db.users, sessionId) ==> r == Forbidden() && db.snacks == old(db.snacks)
    ensures !UnknownSession(db.users, sessionId) ==>
      var owner := ResolveSession(db.users, sessionId).value.id;
      && |db.snacks| == |old(db.snacks)|
      && (forall i :: 0 <= i < |db.snacks| ==>
            db.snacks[i] == if old(db.snacks)[i].id == snackId && old(db.snacks)[i].userId == owner
                            then Edited(old(db.snacks)[i], body, owner) else old(db.snacks)[i])
      && r.code == 200 && r.body.Success?
      && (r.body.data.None? <==> forall s :: s in old(db.snacks) ==> !(s.id == snackId && s.userId == owner))
      && (r.body.data.Some? ==>
            r.body.data.value == Snack(snackId, body.name, body.description, body.createdAt, OnDietOf(body), owner))
  {
    var user := ResolveSession(db.users, sessionId);
    if user.None? {
      return Forbidden();
    }
    UpdatedRowsMatch(db.snacks, snackId, user.value.id, body);
    UpdateKeepsTable(db.users, db.snacks, db.nextSnackId, snackId, user.value.id, body);
    db.snacks := UpdateOwned(db.snacks, snackId, user.value.id, body);
    r := Ok(FindOwned(db.snacks, snackId, user.value.id));
  }

  // ----- DELETE /:snackId -----

  /** `delete().where({id, user_id})`: the rows that do not match, in table order. */
  function Without(rows: seq<Snack>, id: int, owner: int): (kept: seq<Snack>)
    ensures forall s :: s in kept <==> s in rows && !(s.id == id && s.userId == owner)
    ensures |kept| <= |rows|
    ensures |kept| == |rows| <==> forall s :: s in rows ==> !(s.id == id && s.userId == owner)
  {
    if rows == [] then []
    else if rows[0].id == id && rows[0].userId == owner then Without(rows[1..], id, owner)
    else [rows[0]] + Without(rows[1..], id, owner)
  }

  /** Deleting rows keeps the table in id order. */
  lemma {:induction false} WithoutIncreasing(rows: seq<Snack>, id: int, owner: int)
    requires SnackIdsIncreasing(rows)
    ensures SnackIdsIncreasing(Without(rows, id, owner))
  {
    if rows != [] {
      WithoutIncreasing(rows[1..], id, owner);
      if !(rows[0].id == id && rows[0].userId == owner) {
        var rest := Without(rows[1..], id, owner);
        forall s | s in rest
          ensures rows[0].id < s.id
        {
          var j :| 0 <= j < |rows[1..]| && rows[1..][j] == s;
          assert rows[j + 1] == s;
        }
        PrependIncreasing(rows[0], rest);
      }
    }
  }

  /** A row whose id is below every id of a table in id order can go in front of it. */
  lemma PrependIncreasing(head: Snack, rest: seq<Snack>)
    requires SnackIdsIncreasing(rest)
    requires forall s :: s in rest ==> head.id < s.id
    ensures SnackIdsIncreasing([head] + rest)
  {
    var kept := [head] + rest;
    forall i, j | 0 <= i < j < |kept|
      ensures kept[i].id < kept[j].id
    {
      assert kept[j] == rest[j - 1];
      assert rest[j - 1] in rest;
    }
  }

  /**
   * 403, with `snacks` untouched, when the session id is unknown; otherwise
   * removes the user's row with that id and no other row, and answers with
   * the id when a row was removed and the id is not 0 (the expression
   * `(hasDeleted && snackId) || null`), with `null` otherwise.
   */
  method DeleteSnack(db: Database, sessionId: string, snackId: int) returns (r: Reply<Option<int>>)
    requires db.Valid()
    modifies db`snacks
    ensures db.Valid()
    ensures UnknownSession(db.users, sessionId) ==> r == Forbidden() && db.snacks == old(db.snacks)
    ensures !UnknownSession(db.users, sessionId) ==>
      var owner := ResolveSession(db.users, sessionId).value.id;
      && db.snacks == Without(old(db.snacks), snackId, owner)
      && (forall s :: s in db.snacks <==> s in old(db.snacks) && !(s.id == snackId && s.userId == owner))
      && r.code == 200 && r.body.Success?
      && (r.body.data.Some? <==> snackId != 0 && exists s :: s in old(db.snacks) && s.id == snackId && s.userId == owner)
      && (r.body.data.Some? ==> r.body.data.value == snackId)
      && (r.body.data.Some? <==> |db.snacks| < |old(db.snacks)|)
  {
    var user := ResolveSession(db.users, sessionId);
    if user.None? {
      return Forbidden();
    }
    var kept := Without(db.snacks, snackId, user.value.id);
    var hasDeleted := |db.snacks| - |kept|;
    WithoutIncreasing(db.snacks, snackId, user.value.id);
    db.snacks := kept;
    r := Ok(if hasDeleted != 0 && snackId != 0 then Some(snackId) else None);
  }
}
