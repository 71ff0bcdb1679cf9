/** equals(): what it compares, and when a document equals a copy of itself. */
module DocumentCompare {
  import opened Values

  /** IEEE comparison of two 32-bit patterns. */
  predicate IsNaN(bits: UInt) {
    bits % 0x8000_0000 > 0x7F80_0000
  }

  predicate FloatEqual(a: UInt, b: UInt) {
    !IsNaN(a) && !IsNaN(b) && (a == b || (a % 0x8000_0000 == 0 && b % 0x8000_0000 == 0))
  }

  /** strcmp, where a missing key equals only a missing key. */
  predicate SameKey(a: Key, b: Key) {
    if a.Key? && b.Key? then a.text == b.text else a.NoKey? && b.NoKey?
  }

  datatype Found = Missing | Found(value: Value)

  /** CollectionData::get: the first member with the key. */
  function Lookup(ms: seq<Member>, key: Key): Found {
    if ms == [] then Missing else if SameKey(key, ms[0].key) then Found(ms[0].value) else Lookup(ms[1..], key)
  }

  /** VariantData::equals: arrays element by element, objects by looking up every key. */
  predicate Equal(a: Value, b: Value)
    decreases a, 1
  {
    match (a, b)
    case (Null, Null) => true
    case (Boolean(x), Boolean(y)) => x == y
    case (Integer(n1, m1), Integer(n2, m2)) => n1 == n2 && m1 == m2
    case (Float(x), Float(y)) => FloatEqual(x, y)
    case (Str(s1, l1), Str(s2, l2)) => l1 == l2 && s1 == s2
    case (Array(xs), Array(ys)) => EqualItems(xs, ys)
    case (Object(xs), Object(ys)) => EqualMembers(xs, ys) && |xs| == |ys|
    case _ => false
  }

  predicate EqualItems(xs: seq<Member>, ys: seq<Member>)
    decreases xs, 0
  {
    if xs == [] || ys == [] then xs == [] && ys == []
    else
      var x := xs[0];
      assert x.value < x;
      Equal(x.value, ys[0].value) && EqualItems(xs[1..], ys[1..])
  }

  predicate EqualMembers(xs: seq<Member>, ys: seq<Member>)
    decreases xs, 0
  {
    xs != [] ==>
      var x := xs[0];
      assert x.value < x;
      var y := Lookup(ys, x.key);
      y.Found? && Equal(x.value, y.value) && EqualMembers(xs[1..], ys)
  }

  // ----- reflexivity

  predicate NoNaN(v: Value)
    decreases v, 1
  {
    if v.Array? || v.Object? then NoNaNMembers(v.members) else v.Float? ==> !IsNaN(v.bits)
  }

  predicate NoNaNMembers(ms: seq<Member>)
    decreases ms, 0
  {
    ms != [] ==>
      var m := ms[0];
      assert m.value < m;
      NoNaN(m.value) && NoNaNMembers(ms[1..])
  }

  /** No two members of any object have the same key. */
  predicate DistinctKeys(v: Value)
    decreases v, 1
  {
    if v.Array? then DistinctInside(v.members)
    else if v.Object? then Distinct(v.members) && DistinctInside(v.members)
    else true
  }

  predicate Distinct(ms: seq<Member>) {
    forall i, j :: 0 <= i < j < |ms| ==> !SameKey(ms[j].key, ms[i].key)
  }

  predicate DistinctInside(ms: seq<Member>)
    decreases ms, 0
  {
    ms != [] ==>
      var m := ms[0];
      assert m.value < m;
      DistinctKeys(m.value) && DistinctInside(ms[1..])
  }

  lemma {:induction false} LookupOwn(ms: seq<Member>, i: nat)
    requires i < |ms| && Distinct(ms)
    ensures Lookup(ms, ms[i].key) == Found(ms[i].value)
    decreases i
  {
    if i > 0 {
      assert !SameKey(ms[i].key, ms[0].key);
      LookupOwn(ms[1..], i - 1);
    }
  }

  /** With distinct keys, a document equals itself exactly when it holds no NaN. */
  lemma {:induction false} EqualItself(v: Value)
    requires DistinctKeys(v)
    ensures Equal(v, v) <==> NoNaN(v)
    decreases v, 1
  {
    if v.Array? {
      ItemsEqualThemselves(v.members);
    } else if v.Object? {
      MembersEqualThemselves(v.members, 0);
      assert v.members[0..] == v.members;
    }
  }

  lemma {:induction false} ItemsEqualThemselves(ms: seq<Member>)
    requires DistinctInside(ms)
    ensures EqualItems(ms, ms) <==> NoNaNMembers(ms)
    decreases ms, 0
  {
    if ms != [] {
      var m := ms[0];
      assert m.value < m;
      EqualItself(m.value);
      ItemsEqualThemselves(ms[1..]);
    }
  }

  lemma {:induction false} MembersEqualThemselves(ms: seq<Member>, i: nat)
    requires i <= |ms| && Distinct(ms) && DistinctInside(ms[i..])
    ensures EqualMembers(ms[i..], ms) <==> NoNaNMembers(ms[i..])
    decreases ms, 0, |ms| - i
  {
    if i < |ms| {
      var m := ms[i];
      assert m.value < m;
      assert ms[i..][0] == m && ms[i..][1..] == ms[i + 1..];
      EqualItself(m.value);
      LookupOwn(ms, i);
      MembersEqualThemselves(ms, i + 1);
    }
  }

  // ----- with duplicate keys

  predicate IsFirst(ms: seq<Member>, i: nat)
    requires i < |ms|
  {
    forall j :: 0 <= j < i ==> !SameKey(ms[i].key, ms[j].key)
  }

  /** No NaN among elements and the first members of each key, and members that repeat a key equal the first one. */
  predicate Consistent(v: Value)
    decreases v, 1
  {
    match v
    case Array(ms) => ConsistentFrom(ms, 0, false)
    case Object(ms) => ConsistentFrom(ms, 0, true)
    case Float(bits) => !IsNaN(bits)
    case _ => true
  }

  predicate ConsistentFrom(ms: seq<Member>, i: nat, keyed: bool)
    requires i <= |ms|
    decreases ms, 0, |ms| - i
  {
    i < |ms| ==>
      var m := ms[i];
      assert m.value < m;
      && (if !keyed || IsFirst(ms, i) then Consistent(m.value)
          else Lookup(ms, m.key).Found? && Equal(m.value, Lookup(ms, m.key).value))
      && ConsistentFrom(ms, i + 1, keyed)
  }

  lemma {:induction false} LookupFirst(ms: seq<Member>, i: nat)
    requires i < |ms| && IsFirst(ms, i)
    ensures Lookup(ms, ms[i].key) == Found(ms[i].value)
    decreases i
  {
    if i > 0 {
      assert !SameKey(ms[i].key, ms[0].key);
      LookupFirst(ms[1..], i - 1);
    }
  }

  /** A document equals itself if and only if it holds no NaN and members that repeat a key equal the first. */
  lemma {:induction false} EqualItselfExactly(v: Value)
    ensures Equal(v, v) <==> Consistent(v)
    decreases v, 1
  {
    if v.Array? {
      ItemsExactly(v.members, 0);
      assert v.members[0..] == v.members;
    } else if v.Object? {
      MembersExactly(v.members, 0);
      assert v.members[0..] == v.members;
    }
  }

  lemma {:induction false} ItemsExactly(ms: seq<Member>, i: nat)
    requires i <= |ms|
    ensures EqualItems(ms[i..], ms[i..]) <==> ConsistentFrom(ms, i, false)
    decreases ms, 0, |ms| - i
  {
    if i < |ms| {
      var m := ms[i];
      assert m.value < m;
      assert ms[i..][0] == m && ms[i..][1..] == ms[i + 1..];
      EqualItselfExactly(m.value);
      ItemsExactly(ms, i + 1);
    }
  }

  lemma {:induction false} MembersExactly(ms: seq<Member>, i: nat)
    requires i <= |ms|
    ensures EqualMembers(ms[i..], ms) <==> ConsistentFrom(ms, i, true)
    decreases ms, 0, |ms| - i
  {
    if i < |ms| {
      var m := ms[i];
      assert m.value < m;
      assert ms[i..][0] == m && ms[i..][1..] == ms[i + 1..];
      EqualItselfExactly(m.value);
      if IsFirst(ms, i) {
        LookupFirst(ms, i);
      }
      MembersExactly(ms, i + 1);
    }
  }

  /** Without distinct keys absence of NaN is not enough: the second member is compared with the first. */
  lemma DuplicateKeysDiffer()
    ensures var k := Key([97], false);
            var v := Object([Member(k, Boolean(true)), Member(k, Boolean(false))]);
            NoNaN(v) && !Equal(v, v)
  {
    var k := Key([97], false);
    var a, b := Member(k, Boolean(true)), Member(k, Boolean(false));
    var ms := [a, b];
    assert ms[1..] == [b] && ms[1..][1..] == [];
    assert NoNaNMembers([]) && NoNaN(a.value) && NoNaN(b.value);
    assert NoNaNMembers(ms[1..]);
    assert NoNaNMembers(ms);
    assert Lookup(ms, k) == Found(Boolean(true));
    assert !EqualMembers(ms[1..], ms);
  }
}
