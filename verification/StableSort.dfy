/** sorted(list, key=...): a stable sort. */
module StableSort {
  predicate Ordered<T>(s: seq<T>, key: T -> int) {
    forall i, j :: 0 <= i < j < |s| ==> key(s[i]) <= key(s[j])
  }

  predicate UpTo<T>(s: seq<T>, key: T -> int, bound: int) {
    forall i :: 0 <= i < |s| ==> key(s[i]) <= bound
  }

  function Insert<T>(s: seq<T>, x: T, key: T -> int): seq<T> {
    if s == [] || key(s[|s| - 1]) <= key(x) then s + [x] else Insert(s[..|s| - 1], x, key) + [s[|s| - 1]]
  }

  function Sorted<T>(s: seq<T>, key: T -> int): seq<T> {
    if s == [] then [] else Insert(Sorted(s[..|s| - 1], key), s[|s| - 1], key)
  }

  lemma NoneOrdered<T>(key: T -> int, bound: int)
    ensures Ordered([], key) && UpTo([], key, bound)
  {
  }

  lemma OneMoreOrdered<T>(s: seq<T>, x: T, key: T -> int, bound: int)
    requires Ordered(s, key) && UpTo(s, key, key(x)) && key(x) <= bound
    ensures Ordered(s + [x], key) && UpTo(s + [x], key, bound)
  {
  }

  lemma LastBounds<T>(s: seq<T>, key: T -> int)
    requires Ordered(s, key) && s != []
    ensures Ordered(s[..|s| - 1], key) && UpTo(s[..|s| - 1], key, key(s[|s| - 1])) && UpTo(s, key, key(s[|s| - 1]))
  {
  }

  lemma LastWithin<T>(s: seq<T>, key: T -> int, bound: int)
    requires UpTo(s, key, bound) && s != []
    ensures key(s[|s| - 1]) <= bound && UpTo(s[..|s| - 1], key, bound)
  {
  }

  lemma Looser<T>(s: seq<T>, key: T -> int, a: int, b: int)
    requires UpTo(s, key, a) && a <= b
    ensures UpTo(s, key, b)
  {
  }

  lemma {:induction false} InsertOrdered<T>(s: seq<T>, x: T, key: T -> int, bound: int)
    requires Ordered(s, key) && UpTo(s, key, bound) && key(x) <= bound
    ensures Ordered(Insert(s, x, key), key) && UpTo(Insert(s, x, key), key, bound)
    ensures multiset(Insert(s, x, key)) == multiset(s) + multiset{x}
  {
    hide Ordered, UpTo;
    if s == [] {
      NoneOrdered(key, key(x));
      OneMoreOrdered(s, x, key, bound);
      return;
    }
    var last := s[|s| - 1];
    LastBounds(s, key);
    assert s == s[..|s| - 1] + [last];
    if key(last) <= key(x) {
      Looser(s, key, key(last), key(x));
      OneMoreOrdered(s, x, key, bound);
    } else {
      LastWithin(s, key, bound);
      InsertOrdered(s[..|s| - 1], x, key, key(last));
      OneMoreOrdered(Insert(s[..|s| - 1], x, key), last, key, bound);
    }
  }

  lemma {:induction false} SortedWithin<T>(s: seq<T>, key: T -> int, bound: int)
    requires UpTo(s, key, bound)
    ensures Ordered(Sorted(s, key), key) && UpTo(Sorted(s, key), key, bound) && multiset(Sorted(s, key)) == multiset(s)
  {
    hide Ordered, UpTo;
    NoneOrdered(key, bound);
    if s != [] {
      LastWithin(s, key, bound);
      SortedWithin(s[..|s| - 1], key, bound);
      InsertOrdered(Sorted(s[..|s| - 1], key), s[|s| - 1], key, bound);
      assert s == s[..|s| - 1] + [s[|s| - 1]];
    }
  }

  lemma {:induction false} SomeBound<T>(s: seq<T>, key: T -> int) returns (bound: int)
    ensures UpTo(s, key, bound)
  {
    bound := 0;
    if s != [] {
      var b := SomeBound(s[1..], key);
      bound := if key(s[0]) > b then key(s[0]) else b;
      assert forall i :: 1 <= i < |s| ==> s[i] == s[1..][i - 1];
    }
  }

  /** The result is in order and a permutation. */
  lemma SortedIsSorted<T>(s: seq<T>, key: T -> int)
    ensures Ordered(Sorted(s, key), key) && multiset(Sorted(s, key)) == multiset(s)
  {
    var bound := SomeBound(s, key);
    SortedWithin(s, key, bound);
  }

  /** The elements with one key, in the order they stand in. */
  function WithKey<T>(s: seq<T>, key: T -> int, k: int): seq<T> {
    if s == [] then []
    else WithKey(s[..|s| - 1], key, k) + if key(s[|s| - 1]) == k then [s[|s| - 1]] else []
  }

  lemma WithKeyMore<T>(s: seq<T>, x: T, key: T -> int, k: int)
    ensures WithKey(s + [x], key, k) == WithKey(s, key, k) + if key(x) == k then [x] else []
  {
    assert (s + [x])[..|s|] == s;
  }

  lemma {:induction false} InsertIsStable<T>(s: seq<T>, x: T, key: T -> int, k: int)
    requires Ordered(s, key)
    ensures WithKey(Insert(s, x, key), key, k) == WithKey(s + [x], key, k)
  {
    hide Ordered, UpTo, WithKey;
    if s == [] || key(s[|s| - 1]) <= key(x) { return; }
    var init, last := s[..|s| - 1], s[|s| - 1];
    LastBounds(s, key);
    InsertIsStable(init, x, key, k);
    WithKeyMore(Insert(init, x, key), last, key, k);
    WithKeyMore(s, x, key, k);
    WithKeyMore(init, x, key, k);
    WithKeyMore(init, last, key, k);
    assert s == init + [last];
  }

  /** Elements with the same key keep their order. */
  lemma {:induction false} SortedIsStable<T>(s: seq<T>, key: T -> int, k: int)
    ensures WithKey(Sorted(s, key), key, k) == WithKey(s, key, k)
  {
    hide Ordered;
    if s != [] {
      var init, last := s[..|s| - 1], s[|s| - 1];
      SortedIsStable(init, key, k);
      SortedIsSorted(init, key);
      InsertIsStable(Sorted(init, key), last, key, k);
      WithKeyMore(Sorted(init, key), last, key, k);
    }
  }

  /** A list in order stays as it is. */
  lemma {:induction false} OrderedStays<T>(s: seq<T>, key: T -> int)
    requires Ordered(s, key)
    ensures Sorted(s, key) == s
  {
    if s != [] {
      var init, last := s[..|s| - 1], s[|s| - 1];
      OrderedStays(init, key);
      assert s == init + [last];
      assert init != [] ==> key(init[|init| - 1]) <= key(last);
    }
  }
}
