/** Sequence facts that more than one proof needs. */
module Sequences {
  lemma Assoc<T>(a: seq<T>, b: seq<T>, c: seq<T>)
    ensures a + b + c == a + (b + c)
  {
  }

  lemma SliceStep<T>(s: seq<T>, a: nat, b: nat)
    requires a <= b < |s|
    ensures s[a..b + 1] == s[a..b] + [s[b]]
  {
  }

  lemma SliceOfSlice<T>(s: seq<T>, at: nat, n: nat, i: nat, j: nat)
    requires at + n <= |s| && i <= j <= n
    ensures s[at..at + n][i..j] == s[at + i..at + j]
  {
    var x := s[at..at + n];
    forall k | 0 <= k < j - i ensures x[i..j][k] == s[at + i..at + j][k] {
      assert x[i + k] == s[at + (i + k)];
    }
  }

  lemma WithoutOne<T>(s: seq<T>, k: nat)
    requires k < |s|
    ensures multiset(s) == multiset(s[..k] + s[k + 1..]) + multiset{s[k]}
  {
    assert s == s[..k] + [s[k]] + s[k + 1..];
  }

  /** Two elements that are both there stand at two places. */
  lemma {:induction false} TwoPlaces<T>(s: seq<T>, x: T, y: T) returns (i: nat, j: nat)
    requires multiset{x, y} <= multiset(s)
    ensures i < j < |s| && multiset{s[i], s[j]} == multiset{x, y}
  {
    assert x in multiset(s);
    var a :| 0 <= a < |s| && s[a] == x;
    var rest := s[..a] + s[a + 1..];
    WithoutOne(s, a);
    assert y in multiset(rest);
    var b :| 0 <= b < |rest| && rest[b] == y;
    if b < a {
      i, j := b, a;
      assert s[b] == rest[b];
    } else {
      i, j := a, b + 1;
      assert s[b + 1] == rest[b];
    }
  }

  lemma {:induction false} BothThere<T>(s: seq<T>, i: nat, j: nat)
    requires i < j < |s|
    ensures multiset{s[i], s[j]} <= multiset(s)
  {
    var front, back := s[..j], s[j..];
    assert s == front + back && front[i] == s[i] && back[0] == s[j];
    assert s[i] in front && s[j] in back;
    assert multiset(s) == multiset(front) + multiset(back);
  }

  lemma SamePair<T>(a: T, b: T, x: T, y: T)
    requires multiset{a, b} == multiset{x, y}
    ensures (a == x && b == y) || (a == y && b == x)
  {
    assert a in multiset{x, y} && b in multiset{x, y} && x in multiset{a, b} && y in multiset{a, b};
  }
}
