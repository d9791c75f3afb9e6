/**
 * Default orderings (`Meta.ordering`, admin `ordering`) as an ascending sort on
 * an integer key: a descending field is sorted on its negation, and a
 * two-field ordering on a combined key (see `Models.AppointmentKey`).
 * The sort is stable: rows with equal keys keep the order they came in
 * (see `SortByKey`). The database breaks ties in an order of its own
 * choosing, except where the admin's change list asks for `-pk` to break
 * them.
 */
module Ordering {

  /** Rows appear in ascending order of `key`. */
  ghost predicate SortedBy<T>(rows: seq<T>, key: T -> int) {
    forall i, j :: 0 <= i < j < |rows| ==> key(rows[i]) <= key(rows[j])
  }

  /** The rows whose key is `k`, in the order they appear. */
  function WithKey<T>(rows: seq<T>, key: T -> int, k: int): (r: seq<T>)
    ensures |r| <= |rows|
  {
    if rows == [] then []
    else (if key(rows[0]) == k then [rows[0]] else []) + WithKey(rows[1..], key, k)
  }

  /** The rows in the opposite order. */
  function Reversed<T>(rows: seq<T>): (r: seq<T>)
    ensures |r| == |rows|
    ensures forall i :: 0 <= i < |rows| ==> r[i] == rows[|rows| - 1 - i]
    ensures multiset(r) == multiset(rows)
  {
    if rows == [] then []
    else
      assert rows == [rows[0]] + rows[1..];
      Reversed(rows[1..]) + [rows[0]]
  }

  /** Selecting the rows with one key commutes with concatenation. */
  lemma {:induction false} WithKeyAppend<T>(a: seq<T>, b: seq<T>, key: T -> int, k: int)
    ensures WithKey(a + b, key, k) == WithKey(a, key, k) + WithKey(b, key, k)
  {
    if a == [] {
      assert a + b == b;
    } else {
      var h := if key(a[0]) == k then [a[0]] else [];
      assert (a + b)[0] == a[0];
      assert (a + b)[1..] == a[1..] + b;
      assert WithKey(a + b, key, k) == h + WithKey(a[1..] + b, key, k);
      WithKeyAppend(a[1..], b, key, k);
      assert WithKey(a, key, k) == h + WithKey(a[1..], key, k);
    }
  }

  /** Selecting the rows with one key commutes with reversal. */
  lemma {:induction false} WithKeyReversed<T>(rows: seq<T>, key: T -> int, k: int)
    ensures WithKey(Reversed(rows), key, k) == Reversed(WithKey(rows, key, k))
  {
    if rows != [] {
      var head := if key(rows[0]) == k then [rows[0]] else [];
      WithKeyReversed(rows[1..], key, k);
      WithKeyAppend(Reversed(rows[1..]), [rows[0]], key, k);
      assert WithKey([rows[0]], key, k) == head;
      var w := WithKey(rows[1..], key, k);
      if head == [] {
        assert head + w == w;
        assert Reversed(w) + [] == Reversed(w);
      } else {
        assert (head + w)[0] == rows[0] && (head + w)[1..] == w;
      }
    }
  }

  /** `x` inserted in front of the first row of `rows` whose key is not smaller. */
  function Insert<T>(x: T, rows: seq<T>, key: T -> int): (r: seq<T>)
    requires SortedBy(rows, key)
    ensures SortedBy(r, key)
    ensures multiset(r) == multiset(rows) + multiset{x}
    ensures r[0] == x || (rows != [] && r[0] == rows[0])
  {
    if rows == [] || key(x) <= key(rows[0]) then [x] + rows
    else
      var tail := Insert(x, rows[1..], key);
      assert multiset(rows) == multiset{rows[0]} + multiset(rows[1..]) by {
        assert rows == [rows[0]] + rows[1..];
      }
      assert key(rows[0]) <= key(tail[0]) by {
        if rows[1..] != [] { assert rows[1..][0] == rows[1]; }
      }
      ConsSorted(rows[0], tail, key);
      [rows[0]] + tail
  }

  /** Helper: a row no larger than the head of a sorted sequence can be put in front of it. */
  lemma ConsSorted<T>(y: T, rows: seq<T>, key: T -> int)
    requires SortedBy(rows, key)
    requires rows != [] ==> key(y) <= key(rows[0])
    ensures SortedBy([y] + rows, key)
  {
    forall i, j | 0 <= i < j < |rows| + 1
      ensures key(([y] + rows)[i]) <= key(([y] + rows)[j])
    {
      if i == 0 && j > 1 { assert key(rows[0]) <= key(rows[j - 1]); }
    }
  }

  /**
   * Inserting `x` puts it before every row with the same key, and leaves
   * the order of the others alone.
   */
  lemma {:induction false} InsertWithKey<T>(x: T, rows: seq<T>, key: T -> int, k: int)
    requires SortedBy(rows, key)
    ensures WithKey(Insert(x, rows, key), key, k) == (if key(x) == k then [x] else []) + WithKey(rows, key, k)
  {
    if rows == [] || key(x) <= key(rows[0]) {
      WithKeyCons(x, rows, key, k);
    } else {
      var tail := Insert(x, rows[1..], key);
      InsertWithKey(x, rows[1..], key, k);
      WithKeyCons(rows[0], tail, key, k);
      WithKeyCons(rows[0], rows[1..], key, k);
      assert [rows[0]] + rows[1..] == rows;
      SwapHeads(if key(rows[0]) == k then [rows[0]] else [], if key(x) == k then [x] else [], WithKey(rows[1..], key, k));
    }
  }

  /** Helper: the rows with key `k` of `[y] + rows`. */
  lemma WithKeyCons<T>(y: T, rows: seq<T>, key: T -> int, k: int)
    ensures WithKey([y] + rows, key, k) == (if key(y) == k then [y] else []) + WithKey(rows, key, k)
  {
    assert ([y] + rows)[1..] == rows;
  }

  /** Helper: two heads of which at most one is non-empty may be swapped. */
  lemma SwapHeads<T>(a: seq<T>, b: seq<T>, w: seq<T>)
    requires a == [] || b == []
    ensures a + (b + w) == b + (a + w)
  {
    if a == [] {
      assert a + (b + w) == b + w;
    } else {
      assert b + (a + w) == a + w;
    }
  }

  /**
   * The rows sorted on `key`: sorted, a permutation of the input, and
   * stable: the rows sharing a key keep their order.
   */
  function SortByKey<T>(rows: seq<T>, key: T -> int): (r: seq<T>)
    ensures SortedBy(r, key)
    ensures multiset(r) == multiset(rows)
    ensures forall k :: WithKey(r, key, k) == WithKey(rows, key, k)
  {
    if rows == [] then []
    else
      assert rows == [rows[0]] + rows[1..];
      var sorted := SortByKey(rows[1..], key);
      forall k ensures WithKey(Insert(rows[0], sorted, key), key, k) == WithKey(rows, key, k) {
        InsertWithKey(rows[0], sorted, key, k);
      }
      Insert(rows[0], sorted, key)
  }

  /**
   * Sorting the reversed rows breaks ties in reverse: the rows sharing a key
   * come last-first.
   */
  lemma TiesReversed<T>(rows: seq<T>, key: T -> int)
    ensures forall k :: WithKey(SortByKey(Reversed(rows), key), key, k) == Reversed(WithKey(rows, key, k))
  {
    forall k ensures WithKey(SortByKey(Reversed(rows), key), key, k) == Reversed(WithKey(rows, key, k)) {
      WithKeyReversed(rows, key, k);
    }
  }
}
