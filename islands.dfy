/**
 * The `best_sequence` figure of the snack summary, computed the way the
 * summary query computes it (gaps and islands): number the caller's on-diet
 * snack ids with `row_number()` in id order, group the rows by
 * `id - seqnum`, count each group and keep the largest count.
 *
 * Beside it stands the meaning of that figure, `IsRun`: a block of ids that
 * are consecutive integers. `BestSequenceIsLongestRun` proves that, for
 * ids that are unique and in increasing order, the query's figure is the
 * length of the longest such block.
 */
module Islands {
  import opened Wrappers

  predicate Increasing(ids: seq<int>) {
    forall i, j :: 0 <= i < j < |ids| ==> ids[i] < ids[j]
  }

  predicate NonDecreasing(keys: seq<int>) {
    forall i, j :: 0 <= i < j < |keys| ==> keys[i] <= keys[j]
  }

  /**
   * `row_number() over (order by id)` of the row whose id is `x`: the number
   * of ids not above `x` (exact when ids are unique, as a primary key is).
   */
  function RowNumber(ids: seq<int>, x: int): (n: nat)
    ensures n <= |ids|
    ensures x in ids ==> 1 <= n
  {
    if ids == [] then 0
    else (if ids[0] <= x then 1 else 0) + RowNumber(ids[1..], x)
  }

  /** The grouping key `id - seqnum` of every row, in row order. */
  function GroupKeys(ids: seq<int>): (keys: seq<int>)
    ensures |keys| == |ids|
    ensures forall i, j :: 0 <= i < |ids| && 0 <= j < |ids| && ids[i] == ids[j] ==> keys[i] == keys[j]
    ensures forall i :: 0 <= i < |ids| ==> keys[i] <= ids[i] - 1
  {
    seq(|ids|, i requires 0 <= i < |ids| => ids[i] - RowNumber(ids, ids[i]))
  }

  /** `count(*)` of the group whose key is `k`. */
  function Count(keys: seq<int>, k: int): (n: nat)
    ensures n <= |keys|
    ensures k in keys ==> 1 <= n
  {
    if keys == [] then 0
    else (if keys[0] == k then 1 else 0) + Count(keys[1..], k)
  }

  function Max(a: int, b: int): int {
    if a < b then b else a
  }

  /**
   * `order by count(*) desc limit 1`: the largest `count(*)` among the groups
   * of the keys in `from`. No group in `from` is larger, and some group in
   * `from` has exactly that count.
   */
  function LargestGroup(keys: seq<int>, from: seq<int>): (r: nat)
    ensures forall j :: 0 <= j < |from| ==> Count(keys, from[j]) <= r
    ensures from == [] ==> r == 0
    ensures from != [] ==> exists j :: 0 <= j < |from| && r == Count(keys, from[j])
  {
    if from == [] then 0
    else
      var rest := LargestGroup(keys, from[1..]);
      assert forall j :: 1 <= j < |from| ==> from[j] == from[1..][j - 1];
      if Count(keys, from[0]) < rest then
        var j :| 0 <= j < |from[1..]| && rest == Count(keys, from[1..][j]);
        assert from[1..][j] == from[j + 1];
        Max(Count(keys, from[0]), rest)
      else
        Max(Count(keys, from[0]), rest)
  }

  /**
   * The `best_sequence` common table expression: one row holding the largest
   * group count, or no row at all when there are no ids.
   */
  function BestSequence(ids: seq<int>): (r: Option<nat>)
    ensures r.None? <==> ids == []
    ensures r.Some? ==> 1 <= r.value <= |ids|
  {
    if ids == [] then None
    else
      var keys := GroupKeys(ids);
      var j :| 0 <= j < |keys| && LargestGroup(keys, keys) == Count(keys, keys[j]);
      assert keys[j] in keys;
      Some(LargestGroup(keys, keys))
  }

  /** The integers `a`, `a + 1`, ..., `a + len - 1` are all among `ids`. */
  ghost predicate IsRun(ids: seq<int>, a: int, len: nat) {
    forall t :: a <= t < a + len ==> t in ids
  }

  /** Some block of consecutive ids has length `len`, and no block is longer. */
  ghost predicate IsLongestRun(ids: seq<int>, len: nat) {
    (exists a :: IsRun(ids, a, len)) && forall a, other: nat :: IsRun(ids, a, other) ==> other <= len
  }

  /** Only one length is the longest. */
  lemma LongestRunUnique(ids: seq<int>, x: nat, y: nat)
    requires IsLongestRun(ids, x) && IsLongestRun(ids, y)
    ensures x == y
  {
  }

  /**
   * The query's figure is the length of the longest block of ids that are
   * consecutive integers: such a block exists, and no block is longer.
   */
  lemma BestSequenceIsLongestRun(ids: seq<int>)
    requires Increasing(ids) && ids != []
    ensures BestSequence(ids).Some? && IsLongestRun(ids, BestSequence(ids).value)
  {
    var keys := GroupKeys(ids);
    var best := LargestGroup(keys, keys);
    KeysOfIncreasing(ids);
    RunFromLargestGroup(ids);
    forall a, len: nat | IsRun(ids, a, len)
      ensures len <= best
    {
      if len > 0 {
        RunWithinGroup(ids, a, len);
      }
    }
  }

  // ----- lemmas about the row numbers of increasing ids -----

  lemma {:induction false} RowNumberOfIncreasing(ids: seq<int>, x: int, p: nat)
    requires Increasing(ids) && p <= |ids|
    requires forall j :: 0 <= j < p ==> ids[j] <= x
    requires forall j :: p <= j < |ids| ==> x < ids[j]
    ensures RowNumber(ids, x) == p
  {
    if ids != [] {
      RowNumberOfIncreasing(ids[1..], x, if p == 0 then 0 else p - 1);
    }
  }

  /** Increasing ids differ by at least the distance of their positions. */
  lemma {:induction false} Spread(ids: seq<int>, i: nat, j: nat)
    requires Increasing(ids) && i <= j < |ids|
    ensures ids[j] - ids[i] >= j - i
  {
    if i < j {
      Spread(ids, i, j - 1);
    }
  }

  /** For increasing ids, row `i` is numbered `i + 1` and its key never falls along the table. */
  lemma KeysOfIncreasing(ids: seq<int>)
    requires Increasing(ids)
    ensures forall i :: 0 <= i < |ids| ==> GroupKeys(ids)[i] == ids[i] - i - 1
    ensures NonDecreasing(GroupKeys(ids))
  {
    var keys := GroupKeys(ids);
    forall i | 0 <= i < |ids|
      ensures keys[i] == ids[i] - i - 1
    {
      RowNumberOfIncreasing(ids, ids[i], i + 1);
    }
    forall i, j | 0 <= i < j < |ids|
      ensures keys[i] <= keys[j]
    {
      Spread(ids, i, j);
    }
  }

  // ----- lemmas about group counts -----

  lemma {:induction false} CountAppend(a: seq<int>, b: seq<int>, k: int)
    ensures Count(a + b, k) == Count(a, k) + Count(b, k)
  {
    if a == [] {
      assert a + b == b;
    } else {
      assert (a + b)[1..] == a[1..] + b;
      CountAppend(a[1..], b, k);
    }
  }

  lemma {:induction false} CountConstant(s: seq<int>, k: int)
    requires forall i :: 0 <= i < |s| ==> s[i] == k
    ensures Count(s, k) == |s|
  {
    if s != [] {
      CountConstant(s[1..], k);
    }
  }

  lemma {:induction false} CountAbsent(s: seq<int>, k: int)
    requires forall i :: 0 <= i < |s| ==> s[i] != k
    ensures Count(s, k) == 0
  {
    if s != [] {
      CountAbsent(s[1..], k);
    }
  }

  /** The keys at positions `lo`, ..., `lo + len - 1` all equal `k`. */
  predicate BlockAt(keys: seq<int>, k: int, lo: nat, len: nat) {
    lo + len <= |keys| && forall p :: lo <= p < lo + len ==> keys[p] == k
  }

  /** In non-decreasing keys that start with `k`, the group of `k` is a prefix. */
  lemma {:induction false} GroupIsPrefix(keys: seq<int>, k: int)
    requires NonDecreasing(keys) && keys != [] && keys[0] == k
    ensures BlockAt(keys, k, 0, Count(keys, k))
  {
    var rest := keys[1..];
    if rest != [] && rest[0] == k {
      GroupIsPrefix(rest, k);
      forall p | 0 <= p < Count(keys, k)
        ensures keys[p] == k
      {
        if p > 0 {
          assert keys[p] == rest[p - 1];
        }
      }
    } else {
      CountAbsent(rest, k);
    }
  }

  /** In non-decreasing keys, every non-empty group occupies consecutive positions. */
  lemma {:induction false} GroupIsBlock(keys: seq<int>, k: int)
    requires NonDecreasing(keys) && Count(keys, k) > 0
    ensures exists lo: nat :: BlockAt(keys, k, lo, Count(keys, k))
  {
    if keys[0] == k {
      GroupIsPrefix(keys, k);
      assert BlockAt(keys, k, 0, Count(keys, k));
    } else {
      var rest := keys[1..];
      GroupIsBlock(rest, k);
      var lo: nat :| BlockAt(rest, k, lo, Count(rest, k));
      assert BlockAt(keys, k, lo + 1, Count(keys, k)) by {
        forall p | lo + 1 <= p < lo + 1 + Count(keys, k)
          ensures keys[p] == k
        {
          assert keys[p] == rest[p - 1];
        }
      }
    }
  }

  // ----- the two halves of BestSequenceIsLongestRun -----

  /** The largest group is a block of consecutive integers among the ids. */
  lemma RunFromLargestGroup(ids: seq<int>)
    requires Increasing(ids) && ids != []
    ensures exists a :: IsRun(ids, a, LargestGroup(GroupKeys(ids), GroupKeys(ids)))
  {
    var keys := GroupKeys(ids);
    var best := LargestGroup(keys, keys);
    KeysOfIncreasing(ids);
    var j :| 0 <= j < |keys| && best == Count(keys, keys[j]);
    assert keys[j] in keys;
    GroupIsBlock(keys, keys[j]);
    var lo: nat :| BlockAt(keys, keys[j], lo, best);
    assert 0 < best;
    assert keys[lo] == keys[j];
    forall t | ids[lo] <= t < ids[lo] + best
      ensures t in ids
    {
      var p := lo + (t - ids[lo]);
      assert keys[p] == keys[lo];
      assert ids[p] == t;
    }
    assert IsRun(ids, ids[lo], best);
  }

  /** A block of consecutive ids `a`, ..., `a + len - 1` sits at consecutive positions. */
  lemma {:induction false} RunIsSegment(ids: seq<int>, a: int, len: nat, i: nat)
    requires Increasing(ids) && IsRun(ids, a, len) && 0 < len
    requires i < |ids| && ids[i] == a
    ensures i + len <= |ids|
    ensures forall p :: i <= p < i + len ==> ids[p] == a + (p - i)
  {
    if len > 1 {
      assert IsRun(ids, a, len - 1);
      RunIsSegment(ids, a, len - 1, i);
      var last := a + len - 1;
      assert last in ids;
      var m :| 0 <= m < |ids| && ids[m] == last;
      var before := i + len - 2;
      assert i <= before < i + len - 1;
      assert ids[before] == last - 1;
      assert before < m;
      assert ids[before] < ids[before + 1];
    }
  }

  /** A block of `len` equal keys makes the group of that key at least `len` rows. */
  lemma CountOfBlock(keys: seq<int>, k: int, lo: nat, len: nat)
    requires BlockAt(keys, k, lo, len)
    ensures len <= Count(keys, k)
  {
    var block := keys[lo..lo + len];
    assert forall t :: 0 <= t < len ==> block[t] == keys[lo + t];
    CountConstant(block, k);
    assert keys == keys[..lo] + block + keys[lo + len..];
    CountAppend(keys[..lo] + block, keys[lo + len..], k);
    CountAppend(keys[..lo], block, k);
  }

  /** Every block of consecutive ids lies inside one group, so it is no longer than the largest. */
  lemma RunWithinGroup(ids: seq<int>, a: int, len: nat)
    requires Increasing(ids) && IsRun(ids, a, len) && 0 < len
    ensures len <= LargestGroup(GroupKeys(ids), GroupKeys(ids))
  {
    var keys := GroupKeys(ids);
    KeysOfIncreasing(ids);
    assert a in ids;
    var i :| 0 <= i < |ids| && ids[i] == a;
    RunIsSegment(ids, a, len, i);
    assert BlockAt(keys, keys[i], i, len);
    CountOfBlock(keys, keys[i], i, len);
  }
}
