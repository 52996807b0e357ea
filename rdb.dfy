/**
 * What the RethinkDB queries the store issues do to a table, as pure
 * functions over the table's rows in table order.  A filter
 * `Filter({field: k})` keeps the rows whose field equals `k`; `RunRow`
 * on it yields the first such row; `Delete` on it removes them all;
 * `Get(id)` is the same filter on the primary key.
 */
module Rdb {
  import opened Wrappers

  /** The rows of `rows` whose `key` is `k`, in table order: a filter's result set. */
  function Select<T, K(==)>(rows: seq<T>, key: T -> K, k: K): (r: seq<T>)
    ensures |r| <= |rows|
    ensures forall i | 0 <= i < |r| :: r[i] in rows && key(r[i]) == k
    ensures forall i | 0 <= i < |rows| && key(rows[i]) == k :: rows[i] in r
    ensures r == [] <==> forall i | 0 <= i < |rows| :: key(rows[i]) != k
  {
    if rows == [] then []
    else
      var init := rows[..|rows| - 1];
      var last := rows[|rows| - 1];
      assert rows == init + [last];
      Select(init, key, k) + (if key(last) == k then [last] else [])
  }

  /** The rows left after deleting every row whose `key` is `k`, in table order. */
  function Without<T, K(==)>(rows: seq<T>, key: T -> K, k: K): (r: seq<T>)
    ensures |r| <= |rows|
    ensures forall i | 0 <= i < |r| :: r[i] in rows && key(r[i]) != k
    ensures forall i | 0 <= i < |rows| && key(rows[i]) != k :: rows[i] in r
  {
    if rows == [] then []
    else
      var init := rows[..|rows| - 1];
      var last := rows[|rows| - 1];
      assert rows == init + [last];
      Without(init, key, k) + (if key(last) == k then [] else [last])
  }

  /** The row `RunRow` yields for a filter: its first row, or nil when it is empty. */
  function First<T, K(==)>(rows: seq<T>, key: T -> K, k: K): (r: Option<T>)
    ensures r.None? <==> forall i | 0 <= i < |rows| :: key(rows[i]) != k
    ensures r.Some? ==> r.value in rows && key(r.value) == k
  {
    var hits := Select(rows, key, k);
    if hits == [] then None
    else
      assert hits[0] in hits;
      Some(hits[0])
  }

  /** Row `i` is the earliest row of `rows` whose `key` is `k`. */
  ghost predicate Earliest<T, K>(rows: seq<T>, key: T -> K, k: K, i: int)
  {
    0 <= i < |rows| && key(rows[i]) == k && forall j | 0 <= j < i :: key(rows[j]) != k
  }

  /** The row `RunRow` yields is the earliest matching row of the table,
      and that row is the only one it can yield. */
  lemma FirstIsEarliest<T, K>(rows: seq<T>, key: T -> K, k: K)
    ensures First(rows, key, k).Some? ==>
      exists i :: Earliest(rows, key, k, i) && First(rows, key, k) == Some(rows[i])
    ensures forall i | Earliest(rows, key, k, i) :: First(rows, key, k) == Some(rows[i])
  {
    FirstHasIndex(rows, key, k);
    forall j | Earliest(rows, key, k, j)
      ensures First(rows, key, k) == Some(rows[j])
    {
      var i :| Earliest(rows, key, k, i) && First(rows, key, k) == Some(rows[i]);
      EarliestUnique(rows, key, k, i, j);
    }
  }

  /** The row `RunRow` yields sits at the earliest matching index. */
  lemma {:induction false} FirstHasIndex<T, K>(rows: seq<T>, key: T -> K, k: K)
    ensures First(rows, key, k).Some? ==>
      exists i :: Earliest(rows, key, k, i) && First(rows, key, k) == Some(rows[i])
  {
    if rows != [] {
      var n := |rows| - 1;
      var init := rows[..n];
      FirstHasIndex(init, key, k);
      FirstStep(rows, key, k);
      if First(init, key, k).Some? {
        var i :| Earliest(init, key, k, i) && First(init, key, k) == Some(init[i]);
        assert Earliest(rows, key, k, i);
      } else if key(rows[n]) == k {
        assert forall j | 0 <= j < n :: key(rows[j]) != k by {
          assert forall j | 0 <= j < n :: rows[j] == init[j];
        }
        assert Earliest(rows, key, k, n);
      }
    }
  }

  /** `RunRow` on a table yields the first row's match among all but the
      last row when there is one, and otherwise the last row if it matches. */
  lemma FirstStep<T, K>(rows: seq<T>, key: T -> K, k: K)
    requires rows != []
    ensures First(rows, key, k) ==
      if First(rows[..|rows| - 1], key, k).Some? then First(rows[..|rows| - 1], key, k)
      else if key(rows[|rows| - 1]) == k then Some(rows[|rows| - 1])
      else None
  {
  }

  /** A table has at most one earliest row for a key. */
  lemma EarliestUnique<T, K>(rows: seq<T>, key: T -> K, k: K, i: int, j: int)
    requires Earliest(rows, key, k, i) && Earliest(rows, key, k, j)
    ensures i == j
  {
  }

  /** No two rows share a `key`: what a primary key or a pre-checked unique field promises. */
  ghost predicate UniqueBy<T, K>(rows: seq<T>, key: T -> K)
  {
    forall i, j | 0 <= i < j < |rows| :: key(rows[i]) != key(rows[j])
  }

  /** Inserting a row extends each filter's result set by that row when it matches. */
  lemma SelectAppend<T, K>(rows: seq<T>, x: T, key: T -> K, k: K)
    ensures Select(rows + [x], key, k) == Select(rows, key, k) + (if key(x) == k then [x] else [])
  {
  }

  /** Appending a row keeps the others of a delete's survivors. */
  lemma WithoutAppend<T, K>(rows: seq<T>, x: T, key: T -> K, k: K)
    ensures Without(rows + [x], key, k) == Without(rows, key, k) + (if key(x) == k then [] else [x])
  {
  }

  /** After deleting the rows keyed `k`, a filter on `k` is empty and a filter
      on any other key sees exactly what it saw before. */
  lemma {:induction false} SelectWithout<T, K>(rows: seq<T>, key: T -> K, k: K, j: K)
    ensures Select(Without(rows, key, k), key, j) == if j == k then [] else Select(rows, key, j)
  {
    if rows != [] {
      var init := rows[..|rows| - 1];
      var last := rows[|rows| - 1];
      assert rows == init + [last];
      SelectWithout(init, key, k, j);
      WithoutAppend(init, last, key, k);
      SelectAppend(init, last, key, j);
      if key(last) == k {
        assert Without(rows, key, k) == Without(init, key, k);
      } else {
        assert Without(rows, key, k) == Without(init, key, k) + [last];
        SelectAppend(Without(init, key, k), last, key, j);
      }
    }
  }

  /** Under a unique key a filter on that key has at most one row. */
  lemma {:induction false} UniqueSelect<T, K>(rows: seq<T>, key: T -> K, k: K)
    requires UniqueBy(rows, key)
    ensures |Select(rows, key, k)| <= 1
  {
    if rows != [] {
      var init := rows[..|rows| - 1];
      var last := rows[|rows| - 1];
      assert rows == init + [last];
      UniqueSelect(init, key, k);
      SelectAppend(init, last, key, k);
      if key(last) == k {
        assert forall i | 0 <= i < |init| :: key(init[i]) != key(rows[|rows| - 1]);
      }
    }
  }

  /** A delete whose filter matches exactly one row removes that row and no
      other, keeping the rest in order. */
  lemma WithoutSingle<T, K>(rows: seq<T>, key: T -> K, k: K)
    requires |Select(rows, key, k)| == 1
    ensures exists i | 0 <= i < |rows| ::
      key(rows[i]) == k && Without(rows, key, k) == rows[..i] + rows[i + 1..]
  {
    var i := WithoutSingleAt(rows, key, k);
  }

  /** WithoutSingle with the index of the removed row named. */
  lemma {:induction false} WithoutSingleAt<T, K>(rows: seq<T>, key: T -> K, k: K) returns (i: nat)
    requires |Select(rows, key, k)| == 1
    ensures i < |rows| && key(rows[i]) == k && Without(rows, key, k) == rows[..i] + rows[i + 1..]
  {
    var n := |rows| - 1;
    if key(rows[n]) == k {
      SingleIsLast(rows, key, k);
      i := n;
    } else {
      SingleIsEarlier(rows, key, k);
      i := WithoutSingleAt(rows[..n], key, k);
      SpliceLast(rows, i);
    }
  }

  /** The one matching row is the last one: the delete takes it off the end. */
  lemma SingleIsLast<T, K>(rows: seq<T>, key: T -> K, k: K)
    requires |Select(rows, key, k)| == 1 && key(rows[|rows| - 1]) == k
    ensures Without(rows, key, k) == rows[..|rows| - 1] + rows[|rows|..]
  {
    WithoutNone(rows[..|rows| - 1], key, k);
  }

  /** The one matching row is not the last one: it is the one matching row
      of the rest, and the last row survives the delete. */
  lemma SingleIsEarlier<T, K>(rows: seq<T>, key: T -> K, k: K)
    requires |Select(rows, key, k)| == 1 && key(rows[|rows| - 1]) != k
    ensures |Select(rows[..|rows| - 1], key, k)| == 1
    ensures Without(rows, key, k) == Without(rows[..|rows| - 1], key, k) + [rows[|rows| - 1]]
  {
  }

  /** Cutting row `i` out of a table is cutting it out of all but the last
      row and putting the last row back. */
  lemma SpliceLast<T>(rows: seq<T>, i: nat)
    requires i < |rows| - 1
    ensures rows[..i] + rows[i + 1..] == rows[..|rows| - 1][..i] + rows[..|rows| - 1][i + 1..] + [rows[|rows| - 1]]
  {
  }

  /** A delete whose filter matches nothing leaves the table as it was. */
  lemma {:induction false} WithoutNone<T, K>(rows: seq<T>, key: T -> K, k: K)
    requires Select(rows, key, k) == []
    ensures Without(rows, key, k) == rows
  {
    if rows != [] {
      var init := rows[..|rows| - 1];
      var last := rows[|rows| - 1];
      assert rows == init + [last];
      SelectAppend(init, last, key, k);
      WithoutAppend(init, last, key, k);
      WithoutNone(init, key, k);
    }
  }

  /** Adding a row whose key no row has keeps the key unique. */
  lemma AppendKeepsUnique<T, K>(rows: seq<T>, x: T, key: T -> K)
    requires UniqueBy(rows, key)
    requires Select(rows, key, key(x)) == []
    ensures UniqueBy(rows + [x], key)
  {
  }
}
