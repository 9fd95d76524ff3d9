/**
 * Ordering by date, as Ruby's `sort_by { ... date ... }` and `Array#sort` on
 * dates do it: each element is compared by a date key. The source's sort is
 * not stable; this one is (it is an insertion sort), and nothing in the model
 * relies on the order it gives to elements with equal keys.
 */
module Sorting {
  import opened Dates

  /** Every element's key is no later than the keys of the elements after it. */
  predicate SortedBy<T>(s: seq<T>, key: T -> Date) {
    forall i, j :: 0 <= i < j < |s| ==> LessEq(key(s[i]), key(s[j]))
  }

  /** Places `x` before the first element of `s` whose key is not earlier than its own. */
  function Insert<T(==)>(x: T, s: seq<T>, key: T -> Date): (r: seq<T>)
    requires SortedBy(s, key)
    ensures SortedBy(r, key)
    ensures multiset(r) == multiset(s) + multiset{x}
  {
    if s == [] then [x]
    else if LessEq(key(x), key(s[0])) then
      PrependSorted(x, s, key);
      [x] + s
    else
      var tail := Insert(x, s[1..], key);
      assert s == [s[0]] + s[1..];
      forall y | y in tail ensures LessEq(key(s[0]), key(y)) {
        assert y in multiset(tail);
        if y != x {
          var k :| 0 <= k < |s[1..]| && s[1..][k] == y;
          assert s[k + 1] == y;
        }
      }
      PrependSorted(s[0], tail, key);
      [s[0]] + tail
  }

  lemma PrependSorted<T>(h: T, t: seq<T>, key: T -> Date)
    requires SortedBy(t, key)
    requires forall y :: y in t ==> LessEq(key(h), key(y))
    ensures SortedBy([h] + t, key)
  {
    var r := [h] + t;
    forall i, j | 0 <= i < j < |r| ensures LessEq(key(r[i]), key(r[j])) {
      if i == 0 {
        assert r[j] == t[j - 1];
        assert r[j] in t;
      } else {
        assert r[i] == t[i - 1] && r[j] == t[j - 1];
      }
    }
  }

  /** The elements of `s`, rearranged in ascending order of their keys. */
  function SortBy<T(==)>(s: seq<T>, key: T -> Date): (r: seq<T>)
    ensures SortedBy(r, key)
    ensures multiset(r) == multiset(s)
    ensures |r| == |s|
  {
    if s == [] then []
    else
      assert s == [s[0]] + s[1..];
      Insert(s[0], SortBy(s[1..], key), key)
  }
}
