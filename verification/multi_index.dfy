/**
  The behaviour of an org-scoped `multi_index` table that the contract relies
  on. A table is the sequence of its rows in iteration order, which is
  ascending primary-key order.
 */
module MultiIndex {
  import opened Primitives

  /** Rows are in strictly ascending primary-key order (so primary keys are unique). */
  ghost predicate Ascending<R>(rows: seq<R>, pk: R -> U64) {
    forall i, j :: 0 <= i < j < |rows| ==> pk(rows[i]) < pk(rows[j])
  }

  /** No two rows share a secondary key. */
  ghost predicate UniqueKeys<R>(rows: seq<R>, key: R -> U128) {
    forall i, j :: 0 <= i < j < |rows| ==> key(rows[i]) != key(rows[j])
  }

  /** The largest primary key in a non-empty table. */
  function MaxKey<R>(rows: seq<R>, pk: R -> U64): (m: U64)
    requires |rows| > 0
    ensures forall i :: 0 <= i < |rows| ==> pk(rows[i]) <= m
    ensures exists i :: 0 <= i < |rows| && pk(rows[i]) == m
  {
    if |rows| == 1 then
      pk(rows[0])
    else
      var rest := MaxKey(rows[1..], pk);
      assert forall i :: 1 <= i < |rows| ==> rows[i] == rows[1..][i - 1];
      if pk(rows[0]) < rest then rest else pk(rows[0])
  }

  /**
    `available_primary_key()`: 0 for an empty table, otherwise one more than
    the largest key in use; `None` when that no longer fits in 64 bits.
   */
  function AvailablePrimaryKey<R>(rows: seq<R>, pk: R -> U64): (k: Option<U64>)
    ensures |rows| == 0 ==> k == Some(0)
    ensures k.Some? ==> forall i :: 0 <= i < |rows| ==> pk(rows[i]) < k.value
    ensures k.Some? && |rows| > 0 ==> exists i :: 0 <= i < |rows| && pk(rows[i]) == k.value - 1
    ensures k.None? <==> exists i :: 0 <= i < |rows| && pk(rows[i]) == TWO_64 - 1
  {
    if |rows| == 0 then Some(0)
    else
      var m := MaxKey(rows, pk);
      if m + 1 < TWO_64 then Some(m + 1) else None
  }

  /**
    Secondary-index `find`: the first row, in primary-key order, whose
    secondary key is `k`, or `None` for `end()`.
   */
  function Find<R>(rows: seq<R>, key: R -> U128, k: U128): (i: Option<nat>)
    ensures i.Some? ==> i.value < |rows| && key(rows[i.value]) == k
    ensures i.Some? ==> forall j :: 0 <= j < i.value ==> key(rows[j]) != k
    ensures i.None? <==> forall j :: 0 <= j < |rows| ==> key(rows[j]) != k
  {
    if |rows| == 0 then None
    else if key(rows[0]) == k then Some(0)
    else
      match Find(rows[1..], key, k)
      case None =>
        assert forall j :: 1 <= j < |rows| ==> rows[j] == rows[1..][j - 1];
        None
      case Some(j) =>
        assert forall l :: 1 <= l <= j ==> rows[l] == rows[1..][l - 1];
        Some(j + 1)
  }

  /** In a table with unique secondary keys, the row `Find` returns is the only one with that key. */
  lemma FindIsOnlyMatch<R>(rows: seq<R>, key: R -> U128, k: U128)
    requires UniqueKeys(rows, key)
    ensures Find(rows, key, k).Some? ==>
      forall j :: 0 <= j < |rows| && key(rows[j]) == k ==> j == Find(rows, key, k).value
  {
  }

  /** Appending a row whose key exceeds every key in the table keeps the order. */
  lemma AppendKeepsAscending<R>(rows: seq<R>, pk: R -> U64, r: R)
    requires Ascending(rows, pk)
    requires forall i :: 0 <= i < |rows| ==> pk(rows[i]) < pk(r)
    ensures Ascending(rows + [r], pk)
  {
  }

  /** Appending a row with a key not yet present keeps secondary keys unique. */
  lemma AppendKeepsUnique<R>(rows: seq<R>, key: R -> U128, r: R)
    requires UniqueKeys(rows, key)
    requires forall i :: 0 <= i < |rows| ==> key(rows[i]) != key(r)
    ensures UniqueKeys(rows + [r], key)
  {
  }
}
