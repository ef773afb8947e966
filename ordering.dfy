/**
 * Descending order by an integer key, as the ORM's `order_by('-field')`
 * produces it. Rows with equal keys may come in any order in the database;
 * this model fixes one (insertion order of the sort below), and the
 * contracts promise only what the query promises: sorted and a permutation.
 */
module Ordering {

  /** Every element's key is at least the key of every later element. */
  predicate SortedDesc<T>(s: seq<T>, key: T -> int) {
    forall i, j :: 0 <= i < j < |s| ==> key(s[i]) >= key(s[j])
  }

  /** Inserts x into a descending sequence before the first element with a smaller key. */
  function Insert<T(==)>(x: T, s: seq<T>, key: T -> int): (r: seq<T>)
    requires SortedDesc(s, key)
    ensures SortedDesc(r, key)
    ensures multiset(r) == multiset(s) + multiset{x}
  {
    if s == [] then [x]
    else if key(x) >= key(s[0]) then [x] + s
    else
      var rest := Insert(x, s[1..], key);
      assert s == [s[0]] + s[1..];
      assert forall k :: 0 <= k < |rest| ==> rest[k] in multiset(s[1..]) + multiset{x};
      assert forall k :: 0 <= k < |rest| ==> key(s[0]) >= key(rest[k]) by {
        forall k | 0 <= k < |rest| ensures key(s[0]) >= key(rest[k]) {
          if rest[k] != x {
            assert rest[k] in s[1..];
            var m :| 0 <= m < |s[1..]| && s[1..][m] == rest[k];
            assert s[m + 1] == rest[k];
          }
        }
      }
      [s[0]] + rest
  }

  /** Insertion sort into descending key order. */
  function SortDesc<T(==)>(s: seq<T>, key: T -> int): (r: seq<T>)
    ensures SortedDesc(r, key)
    ensures multiset(r) == multiset(s)
  {
    if s == [] then []
    else
      assert s == [s[0]] + s[1..];
      Insert(s[0], SortDesc(s[1..], key), key)
  }
}
