/**
 * Swift's `sorted { key($0) < key($1) }`, as an insertion sort by an
 * integer key: the result is ordered by the key and is a permutation of
 * the input.
 */
module Sorting {

  predicate SortedBy<T>(s: seq<T>, key: T -> int) {
    forall i, j :: 0 <= i < j < |s| ==> key(s[i]) <= key(s[j])
  }

  /** Insert `x` before the first element whose key is not smaller. */
  function InsertBy<T>(x: T, s: seq<T>, key: T -> int): (r: seq<T>)
    requires SortedBy(s, key)
    ensures SortedBy(r, key)
    ensures multiset(r) == multiset(s) + multiset{x}
    ensures |r| == |s| + 1
    ensures r[0] == x || (|s| > 0 && r[0] == s[0])
  {
    if s == [] then [x]
    else if key(x) <= key(s[0]) then
      assert forall k :: 0 <= k < |s| ==> key(x) <= key(s[k]) by {
        forall k | 0 < k < |s|
          ensures key(s[0]) <= key(s[k])
        {
        }
      }
      ConsSorted(x, s, key);
      [x] + s
    else
      var rest := InsertBy(x, s[1..], key);
      KeyBoundKept(s[0], s[1..], x, rest, key);
      ConsSorted(s[0], rest, key);
      assert multiset(s) == multiset{s[0]} + multiset(s[1..]) by {
        assert s == [s[0]] + s[1..];
      }
      [s[0]] + rest
  }

  /** A key bound on `s` and on `x` holds for every element of a permutation of `s` plus `x`. */
  lemma KeyBoundKept<T>(h: T, s: seq<T>, x: T, r: seq<T>, key: T -> int)
    requires multiset(r) == multiset(s) + multiset{x}
    requires key(h) <= key(x) && forall k :: 0 <= k < |s| ==> key(h) <= key(s[k])
    ensures forall k :: 0 <= k < |r| ==> key(h) <= key(r[k])
  {
    forall k | 0 <= k < |r|
      ensures key(h) <= key(r[k])
    {
      assert r[k] in multiset(r);
      if r[k] != x {
        assert r[k] in multiset(s);
      }
    }
  }

  /** An element no larger than any of a sorted sequence can go in front of it. */
  lemma ConsSorted<T>(h: T, s: seq<T>, key: T -> int)
    requires SortedBy(s, key) && forall k :: 0 <= k < |s| ==> key(h) <= key(s[k])
    ensures SortedBy([h] + s, key)
  {
    forall i, j | 0 <= i < j < |[h] + s|
      ensures key(([h] + s)[i]) <= key(([h] + s)[j])
    {
      assert ([h] + s)[j] == s[j - 1];
      if i > 0 {
        assert ([h] + s)[i] == s[i - 1];
      }
    }
  }

  function SortBy<T>(s: seq<T>, key: T -> int): (r: seq<T>)
    ensures SortedBy(r, key)
    ensures multiset(r) == multiset(s)
    ensures |r| == |s|
  {
    if s == [] then []
    else
      assert s == [s[0]] + s[1..];
      InsertBy(s[0], SortBy(s[1..], key), key)
  }

  /** In a sorted sequence the last element has the largest key. */
  lemma LastIsLargest<T>(s: seq<T>, key: T -> int, x: T)
    requires SortedBy(s, key) && x in s
    ensures key(x) <= key(s[|s| - 1])
  {
    var k :| 0 <= k < |s| && s[k] == x;
    if k < |s| - 1 {
      assert key(s[k]) <= key(s[|s| - 1]);
    }
  }
}
