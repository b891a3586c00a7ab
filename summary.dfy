/**
 * The figures of `GET /snacks/summary`, as its single query computes them
 * for one user: `total` from the `snacks` rows of that user, `not_on_diet`
 * and `on_diet` through the two common table expressions of that user's
 * snack ids, and `best_sequence` through gaps and islands over the on-diet
 * ids. The query joins the one-row `best_sequence` expression with
 * `1 = 1`, so when that expression is empty the query yields no row at all.
 */
module Summary {
  import opened Wrappers
  import opened Tables
  import Islands

  datatype Figures = Figures(total: nat, onDiet: nat, notOnDiet: nat, bestSequence: nat)

  /** `where({user_id})`: the rows owned by `userId`, in table order. */
  function OwnedBy(rows: seq<Snack>, userId: int): (owned: seq<Snack>)
    ensures forall s :: s in owned <==> s in rows && s.userId == userId
    ensures |owned| <= |rows|
  {
    if rows == [] then []
    else (if rows[0].userId == userId then [rows[0]] else []) + OwnedBy(rows[1..], userId)
  }

  /**
   * `select id from snacks where {user_id, on_diet}`: the ids of the rows of
   * `userId` whose flag is `onDiet`, in table order.
   */
  function IdsWhere(rows: seq<Snack>, userId: int, onDiet: bool): (ids: seq<int>)
    ensures forall t :: t in ids <==> exists s :: s in rows && s.userId == userId && s.onDiet == onDiet && s.id == t
    ensures |ids| <= |rows|
  {
    if rows == [] then []
    else
      var s := rows[0];
      var rest := IdsWhere(rows[1..], userId, onDiet);
      assert forall x :: x in rows <==> x == s || x in rows[1..];
      (if s.userId == userId && s.onDiet == onDiet then [s.id] else []) + rest
  }

  /**
   * The summary row, or `None` for `data: undefined`. A row comes back
   * exactly when the user has an on-diet snack; it then splits the user's
   * snacks into on- and off-diet ones, and its `best_sequence` is at least 1
   * and at most `on_diet`.
   */
  function SummaryOf(rows: seq<Snack>, userId: int): (r: Option<Figures>)
    ensures r.None? <==> forall s :: s in rows && s.userId == userId ==> !s.onDiet
    ensures r.Some? ==> r.value.total == r.value.onDiet + r.value.notOnDiet
    ensures r.Some? ==> 1 <= r.value.bestSequence <= r.value.onDiet
  {
    var onDiet := IdsWhere(rows, userId, true);
    var notOnDiet := IdsWhere(rows, userId, false);
    TotalSplits(rows, userId);
    IdsWhereEmpty(rows, userId, true);
    match Islands.BestSequence(onDiet)
    case None => None
    case Some(best) => Some(Figures(|OwnedBy(rows, userId)|, |onDiet|, |notOnDiet|, best))
  }

  /** The selection is empty exactly when the user has no snack with that flag. */
  lemma {:induction false} IdsWhereEmpty(rows: seq<Snack>, userId: int, onDiet: bool)
    ensures IdsWhere(rows, userId, onDiet) == [] <==> forall s :: s in rows && s.userId == userId ==> s.onDiet != onDiet
  {
    if rows != [] {
      IdsWhereEmpty(rows[1..], userId, onDiet);
      assert forall s :: s in rows <==> s == rows[0] || s in rows[1..];
    }
  }

  /**
   * On a table kept in id order (so no row occurs twice), `total` counts the
   * user's snacks, `on_diet` the user's on-diet snacks and `not_on_diet` the
   * user's off-diet snacks.
   */
  lemma SummaryCounts(rows: seq<Snack>, userId: int)
    requires SnackIdsIncreasing(rows)
    ensures SummaryOf(rows, userId).Some? ==>
      && SummaryOf(rows, userId).value.total == |set s | s in rows && s.userId == userId|
      && SummaryOf(rows, userId).value.onDiet == |set s | s in rows && s.userId == userId && s.onDiet|
      && SummaryOf(rows, userId).value.notOnDiet == |set s | s in rows && s.userId == userId && !s.onDiet|
  {
    OwnedSize(rows, userId);
    SelectionSize(rows, userId, true);
    SelectionSize(rows, userId, false);
    assert (set s | s in rows && s.userId == userId && s.onDiet == true)
      == (set s | s in rows && s.userId == userId && s.onDiet);
    assert (set s | s in rows && s.userId == userId && s.onDiet == false)
      == (set s | s in rows && s.userId == userId && !s.onDiet);
  }

  /** On a table in id order, `where({user_id})` returns as many rows as the user owns. */
  lemma {:induction false} OwnedSize(rows: seq<Snack>, userId: int)
    requires SnackIdsIncreasing(rows)
    ensures |OwnedBy(rows, userId)| == |set s | s in rows && s.userId == userId|
  {
    if rows != [] {
      HeadApart(rows);
      OwnedSize(rows[1..], userId);
      SplitOwned(rows, userId);
    }
  }

  /** On a table in id order, the selection holds one id per row of the user with that flag. */
  lemma {:induction false} SelectionSize(rows: seq<Snack>, userId: int, onDiet: bool)
    requires SnackIdsIncreasing(rows)
    ensures |IdsWhere(rows, userId, onDiet)| == |set s | s in rows && s.userId == userId && s.onDiet == onDiet|
  {
    if rows != [] {
      HeadApart(rows);
      SelectionSize(rows[1..], userId, onDiet);
      SplitSelected(rows, userId, onDiet);
    }
  }

  /** The user's rows are those of the rest of the table, plus the first row when it is the user's. */
  lemma SplitOwned(rows: seq<Snack>, userId: int)
    requires rows != [] && rows[0] !in rows[1..]
    requires forall x :: x in rows <==> x == rows[0] || x in rows[1..]
    ensures |set s | s in rows && s.userId == userId|
      == |set s | s in rows[1..] && s.userId == userId| + (if rows[0].userId == userId then 1 else 0)
  {
    var all := set s | s in rows && s.userId == userId;
    var rest := set s | s in rows[1..] && s.userId == userId;
    if rows[0].userId == userId {
      assert all == {rows[0]} + rest;
    } else {
      assert all == rest;
    }
  }

  /** The same split for the user's rows with one flag. */
  lemma SplitSelected(rows: seq<Snack>, userId: int, onDiet: bool)
    requires rows != [] && rows[0] !in rows[1..]
    requires forall x :: x in rows <==> x == rows[0] || x in rows[1..]
    ensures |set s | s in rows && s.userId == userId && s.onDiet == onDiet|
      == |set s | s in rows[1..] && s.userId == userId && s.onDiet == onDiet|
         + (if rows[0].userId == userId && rows[0].onDiet == onDiet then 1 else 0)
  {
    var all := set s | s in rows && s.userId == userId && s.onDiet == onDiet;
    var rest := set s | s in rows[1..] && s.userId == userId && s.onDiet == onDiet;
    if rows[0].userId == userId && rows[0].onDiet == onDiet {
      assert all == {rows[0]} + rest;
    } else {
      assert all == rest;
    }
  }

  /** In a table in id order the first row occurs nowhere else, and the rest is in id order too. */
  lemma HeadApart(rows: seq<Snack>)
    requires SnackIdsIncreasing(rows) && rows != []
    ensures rows[0] !in rows[1..] && SnackIdsIncreasing(rows[1..])
    ensures forall x :: x in rows <==> x == rows[0] || x in rows[1..]
  {
    forall i | 0 <= i < |rows[1..]|
      ensures rows[1..][i] != rows[0]
    {
      assert rows[1..][i] == rows[i + 1];
    }
    assert rows == [rows[0]] + rows[1..];
  }

  /** Every snack of a user is either on the diet or off it. */
  lemma {:induction false} TotalSplits(rows: seq<Snack>, userId: int)
    ensures |OwnedBy(rows, userId)| == |IdsWhere(rows, userId, true)| + |IdsWhere(rows, userId, false)|
  {
    if rows != [] {
      TotalSplits(rows[1..], userId);
    }
  }

  /** Selecting from the user's own rows selects the same ids as selecting from the whole table. */
  lemma {:induction false} IdsWhereOwned(rows: seq<Snack>, userId: int, onDiet: bool)
    ensures IdsWhere(OwnedBy(rows, userId), userId, onDiet) == IdsWhere(rows, userId, onDiet)
    ensures OwnedBy(OwnedBy(rows, userId), userId) == OwnedBy(rows, userId)
  {
    if rows != [] {
      IdsWhereOwned(rows[1..], userId, onDiet);
      var head := if rows[0].userId == userId then [rows[0]] else [];
      var tail := OwnedBy(rows[1..], userId);
      assert OwnedBy(rows, userId) == head + tail;
      if head != [] {
        assert (head + tail)[0] == rows[0];
        assert (head + tail)[1..] == tail;
        assert IdsWhere(head + tail, userId, onDiet)
          == (if rows[0].onDiet == onDiet then [rows[0].id] else []) + IdsWhere(tail, userId, onDiet);
      } else {
        assert head + tail == tail;
      }
    }
  }

  /**
   * All four figures depend on the caller's rows alone: removing every
   * other user's rows from the table changes none of them.
   */
  lemma SummaryIgnoresOtherUsers(rows: seq<Snack>, userId: int)
    ensures SummaryOf(OwnedBy(rows, userId), userId) == SummaryOf(rows, userId)
  {
    IdsWhereOwned(rows, userId, true);
    IdsWhereOwned(rows, userId, false);
  }

  /** Selecting from a table kept in id order gives ids in increasing order. */
  lemma {:induction false} IdsWhereIncreasing(rows: seq<Snack>, userId: int, onDiet: bool)
    requires SnackIdsIncreasing(rows)
    ensures Islands.Increasing(IdsWhere(rows, userId, onDiet))
  {
    if rows != [] {
      var rest := IdsWhere(rows[1..], userId, onDiet);
      IdsWhereIncreasing(rows[1..], userId, onDiet);
      IdsWhereAbove(rows[1..], userId, onDiet, rows[0].id);
    }
  }

  /** Selected ids are ids of the table, so a bound on the table's ids bounds them. */
  lemma {:induction false} IdsWhereAbove(rows: seq<Snack>, userId: int, onDiet: bool, bound: int)
    requires forall i :: 0 <= i < |rows| ==> bound < rows[i].id
    ensures forall i :: 0 <= i < |IdsWhere(rows, userId, onDiet)| ==> bound < IdsWhere(rows, userId, onDiet)[i]
  {
    if rows != [] {
      IdsWhereAbove(rows[1..], userId, onDiet, bound);
    }
  }

  /**
   * On a table kept in id order, a summary row's `best_sequence` is the
   * length of the longest block of the user's on-diet snack ids that are
   * consecutive integers. Any id that is missing ends a block: an off-diet
   * snack, another user's snack or a deleted row.
   */
  lemma BestSequenceIsLongestOnDietRun(rows: seq<Snack>, userId: int)
    requires SnackIdsIncreasing(rows)
    ensures SummaryOf(rows, userId).Some? ==>
      Islands.IsLongestRun(IdsWhere(rows, userId, true), SummaryOf(rows, userId).value.bestSequence)
  {
    var ids := IdsWhere(rows, userId, true);
    if ids != [] {
      IdsWhereIncreasing(rows, userId, true);
      Islands.BestSequenceIsLongestRun(ids);
    }
  }

  /** Seven snacks of user 7 with ids 1 to 7, flagged on, on, off, on, on, on, off. */
  function ScenarioRows(): seq<Snack> {
    [Snack(1, "a", "", "", true, 7), Snack(2, "b", "", "", true, 7),
     Snack(3, "c", "", "", false, 7), Snack(4, "d", "", "", true, 7),
     Snack(5, "e", "", "", true, 7), Snack(6, "f", "", "", true, 7),
     Snack(7, "g", "", "", false, 7)]
  }

  /** One step of the selection, from the suffix at `k` to the suffix after it. */
  lemma SelectStep(rows: seq<Snack>, k: nat, userId: int, onDiet: bool)
    requires k < |rows|
    ensures IdsWhere(rows[k..], userId, onDiet) ==
      (if rows[k].userId == userId && rows[k].onDiet == onDiet then [rows[k].id] else [])
      + IdsWhere(rows[k + 1..], userId, onDiet)
  {
    assert rows[k..][1..] == rows[k + 1..];
  }

  lemma ScenarioOnDietTail()
    ensures IdsWhere(ScenarioRows()[3..], 7, true) == [4, 5, 6]
  {
    var rows := ScenarioRows();
    assert rows[7..] == [];
    SelectStep(rows, 6, 7, true);
    SelectStep(rows, 5, 7, true);
    SelectStep(rows, 4, 7, true);
    SelectStep(rows, 3, 7, true);
  }

  lemma ScenarioOffDietTail()
    ensures IdsWhere(ScenarioRows()[3..], 7, false) == [7]
  {
    var rows := ScenarioRows();
    assert rows[7..] == [];
    SelectStep(rows, 6, 7, false);
    SelectStep(rows, 5, 7, false);
    SelectStep(rows, 4, 7, false);
    SelectStep(rows, 3, 7, false);
  }

  lemma ScenarioIds()
    ensures IdsWhere(ScenarioRows(), 7, true) == [1, 2, 4, 5, 6]
    ensures IdsWhere(ScenarioRows(), 7, false) == [3, 7]
  {
    var rows := ScenarioRows();
    assert rows[0..] == rows;
    ScenarioOnDietTail();
    ScenarioOffDietTail();
    SelectStep(rows, 2, 7, true);
    SelectStep(rows, 1, 7, true);
    SelectStep(rows, 0, 7, true);
    SelectStep(rows, 2, 7, false);
    SelectStep(rows, 1, 7, false);
    SelectStep(rows, 0, 7, false);
  }

  /** The on-diet ids 1, 2, 4, 5, 6 form the blocks 1-2 and 4-6, so the longest block is 3 long. */
  lemma ScenarioLongestRun(ids: seq<int>)
    requires ids == [1, 2, 4, 5, 6]
    ensures Islands.IsLongestRun(ids, 3)
  {
    assert Islands.IsRun(ids, 4, 3);
    assert forall t :: t in ids <==> t == 1 || t == 2 || t == 4 || t == 5 || t == 6;
    forall a, other: nat | Islands.IsRun(ids, a, other)
      ensures other <= 3
    {
      assert 3 < other ==> a in ids && a + 1 in ids && a + 2 in ids && a + 3 in ids;
    }
  }

  /** So the query's `best_sequence` for those ids is 3. */
  lemma ScenarioBestSequence(ids: seq<int>)
    requires ids == [1, 2, 4, 5, 6]
    ensures Islands.BestSequence(ids) == Some(3)
  {
    Islands.BestSequenceIsLongestRun(ids);
    ScenarioLongestRun(ids);
    Islands.LongestRunUnique(ids, Islands.BestSequence(ids).value, 3);
  }

  /** In that scenario the summary counts 7 snacks, 5 on and 2 off the diet, and a best sequence of 3. */
  lemma SevenSnackScenario()
    ensures SummaryOf(ScenarioRows(), 7) == Some(Figures(7, 5, 2, 3))
  {
    ScenarioIds();
    ScenarioBestSequence(IdsWhere(ScenarioRows(), 7, true));
    TotalSplits(ScenarioRows(), 7);
  }
}
