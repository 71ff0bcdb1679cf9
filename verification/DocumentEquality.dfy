/** What equality of documents means: which documents compare equal, and that it does not matter in which order. */
module DocumentEquality {
  import opened Values
  import opened DocumentCompare

  // ----- floats

  /** IEEE 754 single precision: all ones in the exponent and some in the fraction. */
  predicate NotANumber(bits: UInt) {
    bits / 0x80_0000 % 0x100 == 0xFF && bits % 0x80_0000 != 0
  }

  predicate Zero(bits: UInt) {
    bits == 0 || bits == 0x8000_0000
  }

  /** Floats are equal when neither is NaN and they are the same or both zero. */
  lemma FloatsAre(a: UInt, b: UInt)
    ensures FloatEqual(a, b) <==> !NotANumber(a) && !NotANumber(b) && (a == b || (Zero(a) && Zero(b)))
  {
    NaNIs(a);
    NaNIs(b);
  }

  lemma NaNIs(a: UInt)
    ensures IsNaN(a) <==> NotANumber(a)
  {
    var low := a % 0x8000_0000;
    assert a / 0x80_0000 % 0x100 == low / 0x80_0000;
    assert a % 0x80_0000 == low % 0x80_0000;
  }

  // ----- without floats and objects

  predicate Simple(v: Value)
    decreases v, 1
  {
    match v
    case Float(_) => false
    case Object(_) => false
    case Array(ms) => AllSimple(ms)
    case _ => true
  }

  predicate AllSimple(ms: seq<Member>)
    decreases ms, 0
  {
    ms != [] ==>
      var m := ms[0];
      assert m.value < m;
      m.key == NoKey && Simple(m.value) && AllSimple(ms[1..])
  }

  /** Documents of null, booleans, integers, strings and arrays are equal if and only if they are the same. */
  lemma {:induction false} EqualIsSame(v: Value, w: Value)
    requires Simple(v) && Simple(w)
    ensures Equal(v, w) <==> v == w
    decreases v, 1
  {
    if v.Array? && w.Array? {
      ItemsAreSame(v.members, w.members);
    }
  }

  lemma {:induction false} ItemsAreSame(xs: seq<Member>, ys: seq<Member>)
    requires AllSimple(xs) && AllSimple(ys)
    ensures EqualItems(xs, ys) <==> xs == ys
    decreases xs, 0
  {
    if xs != [] && ys != [] {
      var x := xs[0];
      assert x.value < x;
      EqualIsSame(x.value, ys[0].value);
      ItemsAreSame(xs[1..], ys[1..]);
      assert xs == [xs[0]] + xs[1..] && ys == [ys[0]] + ys[1..];
    }
  }

  // ----- with distinct keys

  /** Both keys missing, or both there with the same text. */
  predicate SameName(a: Key, b: Key) {
    (a.NoKey? && b.NoKey?) || (a.Key? && b.Key? && a.text == b.text)
  }

  /** Equality by what documents contain: arrays element by element, objects member by member in any order. */
  ghost predicate Matches(v: Value, w: Value)
    decreases v, 1
  {
    match v
    case Float(bits) =>
      w.Float? && !NotANumber(bits) && !NotANumber(w.bits) && (bits == w.bits || (Zero(bits) && Zero(w.bits)))
    case Array(xs) => w.Array? && MatchItems(xs, w.members)
    case Object(xs) => w.Object? && |xs| == |w.members| && MatchMembers(xs, w.members)
    case _ => v == w
  }

  ghost predicate MatchItems(xs: seq<Member>, ys: seq<Member>)
    decreases xs, 0
  {
    && |xs| == |ys|
    && forall i :: 0 <= i < |xs| ==> (assert xs[i].value < xs[i]; Matches(xs[i].value, ys[i].value))
  }

  /** Every member of the one has a partner of the same name and matching value in the other. */
  ghost predicate MatchMembers(xs: seq<Member>, ys: seq<Member>)
    decreases xs, 0
  {
    forall i :: 0 <= i < |xs| ==> Partnered(xs[i], ys)
  }

  ghost predicate Partnered(x: Member, ys: seq<Member>)
    decreases x, 0
  {
    exists j: nat :: j < |ys| && SameName(x.key, ys[j].key) && Matches(x.value, ys[j].value)
  }

  lemma {:induction false} LookupIs(ys: seq<Member>, j: nat, key: Key)
    requires j < |ys| && Distinct(ys) && SameKey(key, ys[j].key)
    ensures Lookup(ys, key) == Found(ys[j].value)
    decreases j
  {
    if j > 0 {
      assert !SameKey(ys[j].key, ys[0].key);
      LookupIs(ys[1..], j - 1, key);
    }
  }

  lemma {:induction false} LookupFinds(ys: seq<Member>, key: Key) returns (j: nat)
    requires Lookup(ys, key).Found?
    ensures j < |ys| && SameKey(key, ys[j].key) && Lookup(ys, key) == Found(ys[j].value)
  {
    if SameKey(key, ys[0].key) {
      j := 0;
    } else {
      j := LookupFinds(ys[1..], key);
      j := j + 1;
    }
  }

  lemma {:induction false} InsideAt(ms: seq<Member>, i: nat)
    requires DistinctInside(ms) && i < |ms|
    ensures DistinctKeys(ms[i].value)
    decreases i
  {
    if i > 0 {
      InsideAt(ms[1..], i - 1);
    }
  }

  /** With distinct keys in the second document, comparing by lookup is comparing by content. */
  lemma {:induction false} EqualIsMatching(v: Value, w: Value)
    requires DistinctKeys(w)
    ensures Equal(v, w) <==> Matches(v, w)
    decreases v, 1
  {
    if v.Float? && w.Float? {
      FloatsAre(v.bits, w.bits);
    } else if v.Array? && w.Array? {
      if |v.members| == |w.members| {
        ItemsMatching(v.members, w.members, 0);
        assert v.members[0..] == v.members && w.members[0..] == w.members;
      } else {
        ItemsLengths(v.members, w.members);
      }
    } else if v.Object? && w.Object? {
      MembersMatching(v.members, w.members, 0);
      assert v.members[0..] == v.members;
    }
  }

  lemma {:induction false} ItemsLengths(xs: seq<Member>, ys: seq<Member>)
    ensures EqualItems(xs, ys) ==> |xs| == |ys|
  {
    if xs != [] && ys != [] {
      ItemsLengths(xs[1..], ys[1..]);
    }
  }

  lemma {:induction false} ItemsMatching(xs: seq<Member>, ys: seq<Member>, i: nat)
    requires |xs| == |ys| && i <= |xs| && DistinctInside(ys)
    ensures EqualItems(xs[i..], ys[i..]) <==> forall k :: i <= k < |xs| ==> Matches(xs[k].value, ys[k].value)
    decreases xs, 0, |xs| - i
  {
    if i < |xs| {
      var x := xs[i];
      assert x.value < x;
      assert xs[i..][0] == x && xs[i..][1..] == xs[i + 1..] && ys[i..][0] == ys[i] && ys[i..][1..] == ys[i + 1..];
      InsideAt(ys, i);
      EqualIsMatching(x.value, ys[i].value);
      ItemsMatching(xs, ys, i + 1);
    }
  }

  lemma {:induction false} MembersMatching(xs: seq<Member>, ys: seq<Member>, i: nat)
    requires i <= |xs| && Distinct(ys) && DistinctInside(ys)
    ensures EqualMembers(xs[i..], ys) <==> forall k :: i <= k < |xs| ==> Partnered(xs[k], ys)
    decreases xs, 0, |xs| - i
  {
    if i < |xs| {
      hide Matches, Equal;
      var x := xs[i];
      assert x.value < x;
      assert xs[i..][0] == x && xs[i..][1..] == xs[i + 1..];
      MembersMatching(xs, ys, i + 1);
      if Lookup(ys, x.key).Found? {
        var j := LookupFinds(ys, x.key);
        InsideAt(ys, j);
        EqualIsMatching(x.value, ys[j].value);
      }
      if Partnered(x, ys) {
        var j: nat :| j < |ys| && SameName(x.key, ys[j].key) && Matches(x.value, ys[j].value);
        LookupIs(ys, j, x.key);
      }
    }
  }

  // ----- one to one, and symmetry

  function Images(f: seq<nat>): (s: set<nat>)
    ensures forall x: nat :: x in s <==> x in f
  {
    if f == [] then {} else Images(f[..|f| - 1]) + {f[|f| - 1]}
  }

  function Below(n: nat): (s: set<nat>)
    ensures |s| == n && forall x: nat :: x in s <==> x < n
  {
    if n == 0 then {}
    else
      var s := Below(n - 1);
      assert n - 1 !in s;
      s + {n - 1}
  }

  predicate Injective(f: seq<nat>) {
    forall i, j :: 0 <= i < j < |f| ==> f[i] != f[j]
  }

  lemma {:induction false} ImagesCount(f: seq<nat>)
    requires Injective(f)
    ensures |Images(f)| == |f|
  {
    if f != [] {
      ImagesCount(f[..|f| - 1]);
      assert f[|f| - 1] !in f[..|f| - 1];
    }
  }

  lemma SubsetFills(a: set<nat>, b: set<nat>)
    requires a <= b && |a| == |b|
    ensures a == b
  {
    assert |b - a| == |b| - |a|;
  }

  /** An injection of a finite range into itself is onto. */
  lemma Onto(f: seq<nat>, j: nat)
    requires Injective(f) && (forall i :: 0 <= i < |f| ==> f[i] < |f|) && j < |f|
    ensures j in f
  {
    ImagesCount(f);
    SubsetFills(Images(f), Below(|f|));
    assert j in Images(f);
  }

  /** Matching objects match one to one: `f` gives every member its partner, and leaves none out. */
  lemma OneToOne(xs: seq<Member>, ys: seq<Member>) returns (f: seq<nat>)
    requires |xs| == |ys| && Distinct(xs) && MatchMembers(xs, ys)
    ensures |f| == |xs| && Injective(f)
    ensures forall i :: 0 <= i < |xs| ==>
              f[i] < |ys| && SameName(xs[i].key, ys[f[i]].key) && Matches(xs[i].value, ys[f[i]].value)
    ensures forall j: nat :: j < |ys| ==> j in f
  {
    hide Matches;
    f := Partners(xs, ys, |xs|);
    forall i, j | 0 <= i < j < |f| ensures f[i] != f[j] {
      assert !SameKey(xs[j].key, xs[i].key);
    }
    forall j: nat | j < |ys| ensures j in f {
      Onto(f, j);
    }
  }

  lemma {:induction false} Partners(xs: seq<Member>, ys: seq<Member>, n: nat) returns (f: seq<nat>)
    requires n <= |xs| && MatchMembers(xs, ys)
    ensures |f| == n
    ensures forall i :: 0 <= i < n ==>
              f[i] < |ys| && SameName(xs[i].key, ys[f[i]].key) && Matches(xs[i].value, ys[f[i]].value)
  {
    hide Matches;
    f := [];
    if n > 0 {
      var g := Partners(xs, ys, n - 1);
      assert Partnered(xs[n - 1], ys);
      var j: nat :| j < |ys| && SameName(xs[n - 1].key, ys[j].key) && Matches(xs[n - 1].value, ys[j].value);
      f := g + [j];
    }
  }

  lemma {:induction false} MatchingIsSymmetric(v: Value, w: Value)
    requires DistinctKeys(v) && DistinctKeys(w) && Matches(v, w)
    ensures Matches(w, v)
    decreases v, 1
  {
    if v.Array? {
      ItemsSymmetric(v.members, w.members);
    } else if v.Object? {
      MembersSymmetric(v.members, w.members);
    }
  }

  lemma {:induction false} ItemsSymmetric(xs: seq<Member>, ys: seq<Member>)
    requires DistinctInside(xs) && DistinctInside(ys) && MatchItems(xs, ys)
    ensures MatchItems(ys, xs)
    decreases xs, 0
  {
    hide Matches;
    forall i | 0 <= i < |ys| ensures Matches(ys[i].value, xs[i].value) {
      assert xs[i].value < xs[i];
      InsideAt(xs, i);
      InsideAt(ys, i);
      MatchingIsSymmetric(xs[i].value, ys[i].value);
    }
  }

  lemma {:induction false} MembersSymmetric(xs: seq<Member>, ys: seq<Member>)
    requires |xs| == |ys| && Distinct(xs) && DistinctInside(xs) && DistinctInside(ys) && MatchMembers(xs, ys)
    ensures MatchMembers(ys, xs)
    decreases xs, 0
  {
    hide Matches;
    var f := OneToOne(xs, ys);
    forall j: nat | j < |ys| ensures Partnered(ys[j], xs) {
      assert j in f;
      var i :| 0 <= i < |f| && f[i] == j;
      assert xs[i].value < xs[i];
      InsideAt(xs, i);
      InsideAt(ys, j);
      MatchingIsSymmetric(xs[i].value, ys[j].value);
    }
  }

  /** With distinct keys equality does not depend on the order of the documents. */
  lemma EqualIsSymmetric(v: Value, w: Value)
    requires DistinctKeys(v) && DistinctKeys(w)
    ensures Equal(v, w) <==> Equal(w, v)
  {
    hide Equal, Matches;
    EqualIsMatching(v, w);
    EqualIsMatching(w, v);
    if Matches(v, w) { MatchingIsSymmetric(v, w); }
    if Matches(w, v) { MatchingIsSymmetric(w, v); }
  }
}
