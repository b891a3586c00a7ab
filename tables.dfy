/**
 * The two tables of the database, `users` and `snacks`, and the database
 * itself: both tables plus the counters that hand out auto-increment ids.
 */
module Tables {
  import opened Wrappers

  /** A row of `users`; `session_id` is a nullable column. */
  datatype User = User(id: int, username: string, sessionId: Option<string>)

  /** A row of `snacks`; `createdAt` is the ISO-8601 text the caller supplied. */
  datatype Snack = Snack(
    id: int,
    name: string,
    description: string,
    createdAt: string,
    onDiet: bool,
    userId: int)

  /** Row ids grow strictly along the table: ids are unique and rows are kept in id order. */
  predicate SnackIdsIncreasing(rows: seq<Snack>) {
    forall i, j :: 0 <= i < j < |rows| ==> rows[i].id < rows[j].id
  }

  predicate UserIdsIncreasing(rows: seq<User>) {
    forall i, j :: 0 <= i < j < |rows| ==> rows[i].id < rows[j].id
  }

  /** Some row of `users` has primary key `id`. */
  predicate HasUser(users: seq<User>, id: int) {
    exists u :: u in users && u.id == id
  }

  /** Appending rows to `users` keeps every user it had. */
  lemma HasUserAppend(users: seq<User>, more: seq<User>, id: int)
    requires HasUser(users, id)
    ensures HasUser(users + more, id)
  {
    var u :| u in users && u.id == id;
    assert u in users + more;
  }

  class Database {
    var users: seq<User>
    var snacks: seq<Snack>
    /** The next value of the `users.id` sequence. */
    var nextUserId: int
    /** The next value of the `snacks.id` sequence; it never goes back, so ids of deleted rows are not reused. */
    var nextSnackId: int

    /**
     * Both primary keys are unique, positive and below their sequence, rows
     * are stored in id order, and every snack's `user_id` names a user.
     */
    ghost predicate Valid()
      reads this
    {
      && 1 <= nextUserId && 1 <= nextSnackId
      && UserIdsIncreasing(users)
      && (forall u :: u in users ==> 1 <= u.id < nextUserId)
      && SnackIdsIncreasing(snacks)
      && (forall s :: s in snacks ==> 1 <= s.id < nextSnackId)
      && (forall s :: s in snacks ==> HasUser(users, s.userId))
    }

    /** The freshly migrated database: both tables empty, both sequences at 1. */
    constructor ()
      ensures Valid()
      ensures users == [] && snacks == []
      ensures nextUserId == 1 && nextSnackId == 1
    {
      users, snacks := [], [];
      nextUserId, nextSnackId := 1, 1;
    }
  }
}
