/** `Array.prototype.sort` by a numeric key: stable. */
module Sorting {

  ghost predicate SortedBy<T>(key: T -> int, s: seq<T>) {
    forall i, j | 0 <= i < j < |s| :: key(s[i]) <= key(s[j])
  }

  lemma SortedSnoc<T>(key: T -> int, r: seq<T>, front: seq<T>, x: T, last: T)
    requires SortedBy(key, r) && SortedBy(key, front + [last])
    requires multiset(r) == multiset(front) + multiset{x} && key(x) <= key(last)
    ensures SortedBy(key, r + [last])
  {
    forall i | 0 <= i < |r| ensures key(r[i]) <= key(last) {
      assert r[i] in multiset(r);
      if r[i] in front {
        var j :| 0 <= j < |front| && front[j] == r[i];
        assert (front + [last])[j] == r[i] && (front + [last])[|front|] == last;
      }
    }
  }

  /** Puts `x` after everything with a key at most its own. */
  function InsertLast<T>(key: T -> int, s: seq<T>, x: T): (r: seq<T>)
    requires SortedBy(key, s)
    ensures SortedBy(key, r)
    ensures multiset(r) == multiset(s) + multiset{x}
    ensures (s == [] || key(s[|s| - 1]) <= key(x)) ==> r == s + [x]
  {
    if s == [] || key(s[|s| - 1]) <= key(x) then s + [x]
    else
      var front, last := s[..|s| - 1], s[|s| - 1];
      var r := InsertLast(key, front, x);
      assert s == front + [last];
      SortedSnoc(key, r, front, x, last);
      r + [last]
  }

  function StableSort<T>(key: T -> int, s: seq<T>): (r: seq<T>)
    ensures SortedBy(key, r)
    ensures multiset(r) == multiset(s)
  {
    if s == [] then [] else
      assert s == s[..|s| - 1] + [s[|s| - 1]];
      InsertLast(key, StableSort(key, s[..|s| - 1]), s[|s| - 1])
  }

  lemma SortLast<T>(key: T -> int, front: seq<T>, last: T)
    requires StableSort(key, front) == front && (front == [] || key(front[|front| - 1]) <= key(last))
    ensures StableSort(key, front + [last]) == front + [last]
  {
    hide SortedBy, InsertLast;
    var s := front + [last];
    assert s[..|s| - 1] == front;
  }

  /** Sorting a sorted list changes nothing. */
  lemma {:induction false} SortOfSorted<T>(key: T -> int, s: seq<T>)
    requires SortedBy(key, s)
    ensures StableSort(key, s) == s
  {
    hide StableSort;
    SortEmpty(key);
    if s != [] {
      var front, last := s[..|s| - 1], s[|s| - 1];
      SortOfSorted(key, front);
      assert s == front + [last];
      SortLast(key, front, last);
    }
  }

  lemma SortEmpty<T>(key: T -> int)
    ensures StableSort(key, []) == []
  {
  }

  /** Sorting gives the same elements, each as often as before, in the order of their keys. */
  lemma SortKeepsMembers<T>(key: T -> int, s: seq<T>)
    ensures SortedBy(key, StableSort(key, s)) && multiset(StableSort(key, s)) == multiset(s)
    ensures |StableSort(key, s)| == |s|
    ensures forall x :: x in StableSort(key, s) <==> x in s
  {
    var r := StableSort(key, s);
    assert |multiset(r)| == |multiset(s)|;
    assert forall x :: x in r <==> x in multiset(r);
  }

  /** The elements with one key, in order. */
  ghost function WithKey<T>(key: T -> int, k: int, s: seq<T>): seq<T> {
    if s == [] then [] else
      var last := s[|s| - 1];
      WithKey(key, k, s[..|s| - 1]) + if key(last) == k then [last] else []
  }

  lemma WithKeyLast<T>(key: T -> int, k: int, s: seq<T>, last: T)
    ensures WithKey(key, k, s + [last]) == WithKey(key, k, s) + if key(last) == k then [last] else []
  {
    assert (s + [last])[..|s|] == s;
  }

  lemma InsertBefore<T>(key: T -> int, front: seq<T>, last: T, x: T)
    requires SortedBy(key, front + [last]) && key(last) > key(x)
    ensures SortedBy(key, front) && InsertLast(key, front + [last], x) == InsertLast(key, front, x) + [last]
  {
    var s := front + [last];
    assert s[..|s| - 1] == front;
    assert forall i, j | 0 <= i < j < |front| :: key(s[i]) <= key(s[j]);
  }

  lemma {:induction false} InsertIsStable<T>(key: T -> int, k: int, s: seq<T>, x: T)
    requires SortedBy(key, s)
    ensures WithKey(key, k, InsertLast(key, s, x)) == WithKey(key, k, s) + if key(x) == k then [x] else []
  {
    hide WithKey, SortedBy, InsertLast;
    if s == [] || key(s[|s| - 1]) <= key(x) {
      WithKeyLast(key, k, s, x);
    } else {
      var front, last := s[..|s| - 1], s[|s| - 1];
      assert s == front + [last];
      InsertBefore(key, front, last, x);
      InsertIsStable(key, k, front, x);
      WithKeyLast(key, k, InsertLast(key, front, x), last);
      WithKeyLast(key, k, front, last);
    }
  }

  /** Elements with equal keys keep their order. */
  lemma {:induction false} SortIsStable<T>(key: T -> int, k: int, s: seq<T>)
    ensures WithKey(key, k, StableSort(key, s)) == WithKey(key, k, s)
  {
    hide InsertLast, SortedBy;
    if s != [] {
      var front, last := s[..|s| - 1], s[|s| - 1];
      SortIsStable(key, k, front);
      InsertIsStable(key, k, StableSort(key, front), last);
    }
  }
}
