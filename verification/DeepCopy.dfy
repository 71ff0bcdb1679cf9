/**
 copyFrom, equals, memoryUsage and nesting as they run on linked slots: the copy of a document into a
 fresh pool, byte for byte.
 */
module DeepCopy {
  import opened Values
  import opened Document
  import opened DocumentWalk
  import opened DocumentLaws
  import opened DocumentCompare

  /** A document that is only read: its slots and the bytes its owned strings live in. */
  datatype Source = Source(slots: seq<Slot>, mem: bytes) {
    ghost predicate Shows(d: Data, v: Value) {
      Denotes(slots, mem, d, v)
    }

    ghost predicate Lists(link: Link, ms: seq<Member>) {
      ListDenotes(slots, mem, link, ms)
    }
  }

  /** strlen and the text itself. */
  method ReadText(mem: bytes, at: nat, ghost s: bytes) returns (r: bytes)
    requires TextAt(mem, at, s)
    ensures r == s
  {
    var n := Length(mem, at, s);
    return mem[at..at + n];
  }

  // ----- measures

  lemma UsageFrom(ms: seq<Member>, i: nat)
    requires i < |ms|
    ensures MemberUsage(ms[i..]) == SLOT + KeyBytes(ms[i].key) + Usage(ms[i].value) + MemberUsage(ms[i + 1..])
  {
    assert ms[i..][0] == ms[i] && ms[i..][1..] == ms[i + 1..];
  }

  method MemoryUsage(src: Source, d: Data, ghost v: Value) returns (n: nat)
    requires src.Shows(d, v)
    ensures n == Usage(v)
    decreases v, 1
  {
    hide ListDenotes, TextAt;
    match d {
      case Owned(at) =>
        var s := ReadText(src.mem, at, v.text);
        n := |s| + 1;
      case Arr(head, _) => n := ListUsage(src, head, v.members);
      case Obj(head, _) => n := ListUsage(src, head, v.members);
      case _ => n := 0;
    }
  }

  method ListUsage(src: Source, head: Link, ghost ms: seq<Member>) returns (n: nat)
    requires src.Lists(head, ms)
    ensures n == MemberUsage(ms)
    decreases ms, 0
  {
    hide ListDenotes, Denotes, MemberUsage, Usage, TextAt;
    ghost var i := 0;
    var slot := head;
    n := 0;
    assert ms[0..] == ms;
    while slot.To?
      invariant i <= |ms| && src.Lists(slot, ms[i..]) && n + MemberUsage(ms[i..]) == MemberUsage(ms)
      decreases |ms| - i
    {
      NextMember(src.slots, src.mem, slot, ms, i);
      UsageFrom(ms, i);
      ghost var m := ms[i];
      assert m.value < m;
      var u := MemoryUsage(src, src.slots[slot.slot].data, m.value);
      n := n + SLOT + u;
      if src.slots[slot.slot].key.OwnedKey? {
        var s := ReadText(src.mem, src.slots[slot.slot].key.at, m.key.text);
        n := n + |s| + 1;
      }
      slot := Next(src.slots, slot.slot);
      i := i + 1;
    }
    NextMember(src.slots, src.mem, slot, ms, i);
    NoUsage(ms);
  }

  lemma NoUsage(ms: seq<Member>)
    ensures MemberUsage(ms[|ms|..]) == 0
  {
  }

  lemma NestingFrom(ms: seq<Member>, i: nat)
    requires i <= |ms|
    ensures MemberNesting(ms[i..]) == if i < |ms| then Max(Nesting(ms[i].value), MemberNesting(ms[i + 1..])) else 0
  {
    if i < |ms| {
      assert ms[i..][0] == ms[i] && ms[i..][1..] == ms[i + 1..];
    }
  }

  method NestingOf(src: Source, d: Data, ghost v: Value) returns (n: nat)
    requires src.Shows(d, v)
    ensures n == Nesting(v)
    decreases v, 1
  {
    hide ListDenotes, TextAt;
    match d {
      case Arr(head, _) => n := ListNesting(src, head, v.members);
      case Obj(head, _) => n := ListNesting(src, head, v.members);
      case _ => n := 0;
    }
  }

  method ListNesting(src: Source, head: Link, ghost ms: seq<Member>) returns (n: nat)
    requires src.Lists(head, ms)
    ensures n == 1 + MemberNesting(ms)
    decreases ms, 0
  {
    hide ListDenotes, Denotes, MemberNesting, Nesting, KeyIs;
    ghost var i := 0;
    var slot, deepest: nat := head, 0;
    assert ms[0..] == ms;
    while slot.To?
      invariant i <= |ms| && src.Lists(slot, ms[i..]) && Max(deepest, MemberNesting(ms[i..])) == MemberNesting(ms)
      decreases |ms| - i
    {
      NextMember(src.slots, src.mem, slot, ms, i);
      NestingFrom(ms, i);
      ghost var m := ms[i];
      assert m.value < m;
      var c := NestingOf(src, src.slots[slot.slot].data, m.value);
      if c > deepest { deepest := c; }
      slot := Next(src.slots, slot.slot);
      i := i + 1;
    }
    NextMember(src.slots, src.mem, slot, ms, i);
    NestingFrom(ms, i);
    n := deepest + 1;
  }

  // ----- equals

  /** getSlot(key).equals(slot->key()), on the keys themselves. */
  method KeyEquals(a: Source, k: KeyRef, ghost ka: Key, b: Source, l: KeyRef, ghost kb: Key) returns (same: bool)
    requires KeyIs(a.mem, k, ka) && KeyIs(b.mem, l, kb)
    ensures same == SameKey(ka, kb)
  {
    hide TextAt;
    if k.Unset? || l.Unset? { return k.Unset? && l.Unset?; }
    var x := KeyText(a, k, ka);
    var y := KeyText(b, l, kb);
    return x == y;
  }

  method KeyText(a: Source, k: KeyRef, ghost key: Key) returns (s: bytes)
    requires KeyIs(a.mem, k, key) && !k.Unset?
    ensures key.Key? && s == key.text
  {
    hide TextAt;
    match k {
      case OwnedKey(at) => s := ReadText(a.mem, at, key.text);
      case LinkedKey(t) => s := t;
    }
  }

  lemma LookupFrom(ms: seq<Member>, i: nat, key: Key)
    requires i <= |ms|
    ensures Lookup(ms[i..], key) ==
            if i == |ms| then Missing
            else if SameKey(key, ms[i].key) then Found(ms[i].value)
            else Lookup(ms[i + 1..], key)
  {
    if i < |ms| {
      assert ms[i..][0] == ms[i] && ms[i..][1..] == ms[i + 1..];
    }
  }

  /** CollectionData::get(key): the first slot with that key. */
  method Get(a: Source, k: KeyRef, ghost key: Key, b: Source, head: Link, ghost ms: seq<Member>) returns (slot: Link)
    requires KeyIs(a.mem, k, key) && b.Lists(head, ms)
    ensures slot.To? <==> Lookup(ms, key).Found?
    ensures slot.To? ==> slot.slot < |b.slots| && b.Shows(b.slots[slot.slot].data, Lookup(ms, key).value)
  {
    hide ListDenotes, Denotes, KeyIs, SameKey, Lookup;
    ghost var i := 0;
    slot := head;
    assert ms[0..] == ms;
    while slot.To?
      invariant i <= |ms| && b.Lists(slot, ms[i..]) && Lookup(ms[i..], key) == Lookup(ms, key)
      decreases |ms| - i
    {
      NextMember(b.slots, b.mem, slot, ms, i);
      LookupFrom(ms, i, key);
      var same := KeyEquals(a, k, key, b, b.slots[slot.slot].key, ms[i].key);
      if same { return; }
      slot := Next(b.slots, slot.slot);
      i := i + 1;
    }
    NextMember(b.slots, b.mem, slot, ms, i);
    LookupFrom(ms, i, key);
  }

  /** VariantData::equals on two different documents. */
  method Equals(a: Source, d: Data, ghost v: Value, b: Source, e: Data, ghost w: Value) returns (same: bool)
    requires a.Shows(d, v) && b.Shows(e, w)
    ensures same == Equal(v, w)
    decreases v, 1
  {
    hide ListDenotes, TextAt, EqualItems, EqualMembers, FloatEqual;
    match (d, e) {
      case (Nothing, Nothing) => same := true;
      case (Bool(x), Bool(y)) => same := x == y;
      case (Int(n1, m1), Int(n2, m2)) => same := n1 == n2 && m1 == m2;
      case (FloatData(x), FloatData(y)) => same := FloatEqual(x, y);
      case (Linked(x), Linked(y)) => same := x == y;
      case (Owned(p), Owned(q)) =>
        var x := ReadText(a.mem, p, v.text);
        var y := ReadText(b.mem, q, w.text);
        same := x == y;
      case (Arr(x, _), Arr(y, _)) => same := EqualsArray(a, x, v.members, b, y, w.members);
      case (Obj(x, _), Obj(y, _)) => same := EqualsObject(a, x, v.members, b, y, w.members);
      case (_, _) => same := false;
    }
  }

  lemma ItemsFrom(xs: seq<Member>, ys: seq<Member>, i: nat)
    requires i <= |xs| && i <= |ys|
    ensures EqualItems(xs[i..], ys[i..]) ==
            if i == |xs| || i == |ys| then i == |xs| && i == |ys|
            else Equal(xs[i].value, ys[i].value) && EqualItems(xs[i + 1..], ys[i + 1..])
  {
    if i < |xs| && i < |ys| {
      assert xs[i..][0] == xs[i] && xs[i..][1..] == xs[i + 1..] && ys[i..][0] == ys[i] && ys[i..][1..] == ys[i + 1..];
    }
  }

  method EqualsArray(a: Source, x: Link, ghost xs: seq<Member>, b: Source, y: Link, ghost ys: seq<Member>)
    returns (same: bool)
    requires a.Lists(x, xs) && b.Lists(y, ys)
    ensures same == EqualItems(xs, ys)
    decreases xs, 0
  {
    hide ListDenotes, Denotes, KeyIs, EqualItems, Equal;
    ghost var i := 0;
    var s, t := x, y;
    assert xs[0..] == xs && ys[0..] == ys;
    while true
      invariant i <= |xs| && i <= |ys| && a.Lists(s, xs[i..]) && b.Lists(t, ys[i..])
      invariant EqualItems(xs[i..], ys[i..]) == EqualItems(xs, ys)
      decreases |xs| - i
    {
      NextMember(a.slots, a.mem, s, xs, i);
      NextMember(b.slots, b.mem, t, ys, i);
      ItemsFrom(xs, ys, i);
      if s.NoSlot? && t.NoSlot? { return true; }
      if s.NoSlot? || t.NoSlot? { return false; }
      ghost var m := xs[i];
      assert m.value < m;
      var eq := Equals(a, a.slots[s.slot].data, m.value, b, b.slots[t.slot].data, ys[i].value);
      if !eq { return false; }
      s, t := Next(a.slots, s.slot), Next(b.slots, t.slot);
      i := i + 1;
    }
  }

  lemma MembersFrom(xs: seq<Member>, ys: seq<Member>, i: nat)
    requires i <= |xs|
    ensures EqualMembers(xs[i..], ys) ==
            if i == |xs| then true
            else
              var y := Lookup(ys, xs[i].key);
              y.Found? && Equal(xs[i].value, y.value) && EqualMembers(xs[i + 1..], ys)
  {
    if i < |xs| {
      assert xs[i..][0] == xs[i] && xs[i..][1..] == xs[i + 1..];
    }
  }

  method EqualsObject(a: Source, x: Link, ghost xs: seq<Member>, b: Source, y: Link, ghost ys: seq<Member>)
    returns (same: bool)
    requires a.Lists(x, xs) && b.Lists(y, ys)
    ensures same == (EqualMembers(xs, ys) && |xs| == |ys|)
    decreases xs, 0
  {
    hide ListDenotes, Denotes, KeyIs, EqualMembers, Equal, Lookup;
    var count: nat := 0;
    var s := x;
    assert xs[0..] == xs;
    while s.To?
      invariant count <= |xs| && a.Lists(s, xs[count..]) && EqualMembers(xs[count..], ys) == EqualMembers(xs, ys)
      decreases |xs| - count
    {
      NextMember(a.slots, a.mem, s, xs, count);
      MembersFrom(xs, ys, count);
      ghost var m := xs[count];
      assert m.value < m;
      var t := Get(a, a.slots[s.slot].key, m.key, b, y, ys);
      if t.NoSlot? { return false; }
      var eq := Equals(a, a.slots[s.slot].data, m.value, b, b.slots[t.slot].data, Lookup(ys, m.key).value);
      if !eq { return false; }
      s := Next(a.slots, s.slot);
      count := count + 1;
    }
    NextMember(a.slots, a.mem, s, xs, count);
    MembersFrom(xs, ys, count);
    var size := SlotSize(b.slots, b.mem, y, ys);
    return count == size;
  }

  // ----- copyFrom

  ghost function Now(dst: JsonDocument): Snap
    reads dst, dst.mem
  {
    Snap(dst.slots, dst.root, dst.mem[..], dst.left)
  }

  /** RamStringAdapter::save: allocFrozenString and memcpy of the text with its terminator. */
  method Save(dst: JsonDocument, s: bytes) returns (ok: bool, at: nat)
    requires dst.Valid() && NulFree(s)
    modifies dst`left, dst.mem
    ensures dst.Valid() && ok == (|s| + 1 <= old(dst.Room())) && dst.left >= old(dst.left)
    ensures SameBytes(old(dst.mem[..]), dst.mem[..], old(dst.left)) && dst.left <= dst.mem.Length
    ensures ok ==> at == old(dst.left) && TextAt(dst.mem[..], at, s) && dst.left == at + |s| + 1
    ensures !ok ==> dst.left == old(dst.left)
  {
    var n := |s| + 1;
    if dst.left + n > dst.right { return false, 0; }
    at := dst.left;
    dst.left := dst.left + n;
    var t := s + [0];
    forall i | 0 <= i < n { dst.mem[at + i] := t[i]; }
    assert dst.mem[..][at..at + |s|] == s;
    return true, at;
  }

  /** A leaf that needs no pool bytes. */
  method CopyLeaf(src: Source, d: Data, ghost v: Value, dst: JsonDocument, r: Ref)
    requires !v.Collection?() && (v.Str? ==> v.linked) && LeafIs(src.mem, d, v) && dst.Valid() && Has(Now(dst), r)
    modifies dst`slots, dst`root
    ensures dst.Valid() && Built(r, v, old(Now(dst)), Now(dst))
  {
    hide SameBytes, Lay, Built, TextAt;
    BytesSelf(dst.mem[..], dst.left);
    dst.Set(r, d);
    LeafBuilt(r, v, old(Now(dst)), Now(dst));
  }

  method CopyText(src: Source, at: nat, ghost s: bytes, dst: JsonDocument, r: Ref) returns (ok: bool)
    requires TextAt(src.mem, at, s) && dst.Valid() && Has(Now(dst), r)
    modifies dst, dst.mem
    ensures dst.Valid() && ok == (|s| + 1 <= old(dst.Room()))
    ensures ok ==> Built(r, Str(s, false), old(Now(dst)), Now(dst)) && dst.Room() == old(dst.Room()) - (|s| + 1)
  {
    hide SameBytes, Lay, Built, TextAt;
    TextIsNulFree(src.mem, at, s);
    var t := ReadText(src.mem, at, s);
    var p;
    ok, p := Save(dst, t);
    if !ok {
      dst.Set(r, Nothing);
      return;
    }
    dst.Set(r, Owned(p));
    TextBuilt(r, s, old(Now(dst)), Now(dst));
  }

  lemma TextIsNulFree(mem: bytes, at: nat, s: bytes)
    requires TextAt(mem, at, s)
    ensures NulFree(s)
  {
  }

  /** VariantData::copyFrom: exactly the bytes memoryUsage() counts, or failure for want of them. */
  method CopyVariant(src: Source, d: Data, ghost v: Value, dst: JsonDocument, r: Ref) returns (ok: bool)
    requires src.Shows(d, v) && dst.Valid() && Has(Now(dst), r)
    modifies dst, dst.mem
    ensures dst.Valid() && ok == (Usage(v) <= old(dst.Room()))
    ensures ok ==> Built(r, v, old(Now(dst)), Now(dst)) && dst.Room() == old(dst.Room()) - Usage(v)
    decreases v, 2
  {
    hide SameBytes, Lay, Built, TextAt, ListDenotes, MemberUsage;
    match d {
      case Arr(head, _) => ok := CopyList(src, head, v.members, dst, r, true);
      case Obj(head, _) => ok := CopyList(src, head, v.members, dst, r, false);
      case Owned(at) => ok := CopyText(src, at, v.text, dst, r);
      case _ =>
        CopyLeaf(src, d, v, dst, r);
        ok := true;
    }
  }

  method OpenList(dst: JsonDocument, r: Ref, isArray: bool)
    requires dst.Valid() && Has(Now(dst), r)
    modifies dst`slots, dst`root
    ensures dst.Valid() && Listed(r, [], isArray, old(Now(dst)), Now(dst))
  {
    hide SameBytes;
    BytesSelf(dst.mem[..], dst.left);
    dst.Set(r, if isArray then Arr(NoSlot, NoSlot) else Obj(NoSlot, NoSlot));
  }

  /** toArray() or toObject(), then CollectionData::copyFrom. */
  method CopyList(src: Source, head: Link, ghost ms: seq<Member>, dst: JsonDocument, r: Ref, isArray: bool)
    returns (ok: bool)
    requires src.Lists(head, ms) && dst.Valid() && Has(Now(dst), r)
    modifies dst, dst.mem
    ensures dst.Valid() && ok == (MemberUsage(ms) <= old(dst.Room()))
    ensures ok ==>
              && Built(r, if isArray then Array(ms) else Object(ms), old(Now(dst)), Now(dst))
              && dst.Room() == old(dst.Room()) - MemberUsage(ms)
    decreases ms, 1
  {
    hide SameBytes, Built, Listed, ListDenotes, Denotes, MemberUsage, KeyIs;
    OpenList(dst, r, isArray);
    ghost var a, room0, i := old(Now(dst)), dst.Room(), 0;
    var slot := head;
    assert ms[0..] == ms && ms[..0] == [];
    while slot.To?
      invariant dst.Valid() && i <= |ms| && src.Lists(slot, ms[i..]) && Listed(r, ms[..i], isArray, a, Now(dst))
      invariant dst.Room() - MemberUsage(ms[i..]) == room0 - MemberUsage(ms)
      decreases |ms| - i
    {
      NextMember(src.slots, src.mem, slot, ms, i);
      UsageFrom(ms, i);
      ghost var m := ms[i];
      assert m in ms;
      var added := CopyMember(src, src.slots[slot.slot], m, dst, r, isArray, ms[..i], a);
      if !added { return false; }
      assert ms[..i + 1] == ms[..i] + [m];
      slot := Next(src.slots, slot.slot);
      i := i + 1;
    }
    NextMember(src.slots, src.mem, slot, ms, i);
    NoUsage(ms);
    assert ms[..|ms|] == ms;
    ListedIsBuilt(r, ms, isArray, a, Now(dst));
    ok := true;
  }

  /** add(), add(key) and the copy of one value. */
  method CopyMember(src: Source, s: Slot, ghost m: Member, dst: JsonDocument, r: Ref, isArray: bool,
                    ghost done: seq<Member>, ghost a: Snap)
    returns (ok: bool)
    requires KeyIs(src.mem, s.key, m.key) && src.Shows(s.data, m.value)
    requires dst.Valid() && Listed(r, done, isArray, a, Now(dst))
    modifies dst, dst.mem
    ensures dst.Valid() && ok == (SLOT + KeyBytes(m.key) + Usage(m.value) <= old(dst.Room()))
    ensures ok ==>
              && Listed(r, done + [m], isArray, a, Now(dst))
              && dst.Room() == old(dst.Room()) - (SLOT + KeyBytes(m.key) + Usage(m.value))
    decreases m, 1
  {
    hide SameBytes, Built, Listed, Denotes, KeyIs, Added, Linked?, Usage;
    ghost var s0 := Now(dst);
    ListedTail(r, done, isArray, a, s0);
    var n;
    ok, n := AddKeyed(src, s.key, m.key, dst, r);
    if !ok { return; }
    ghost var s1 := Now(dst);
    assert m.value < m;
    ok := CopyVariant(src, s.data, m.value, dst, Child(n));
    if !ok { return; }
    MarkBound(dst);
    Grow(r, done, m, isArray, a, s0, s1, Now(dst));
  }

  lemma MarkBound(dst: JsonDocument)
    requires dst.Valid()
    ensures dst.left <= |dst.mem[..]|
  {
  }

  /** addSlot and slotSetKey. */
  method AddKeyed(src: Source, k: KeyRef, ghost key: Key, dst: JsonDocument, r: Ref) returns (ok: bool, n: nat)
    requires KeyIs(src.mem, k, key) && dst.Valid() && Has(Now(dst), r) && Pick(Now(dst), r).List?()
    requires Pick(Now(dst), r).tail.To? ==> Pick(Now(dst), r).tail.slot < |dst.slots|
    modifies dst, dst.mem
    ensures dst.Valid() && ok == (SLOT + KeyBytes(key) <= old(dst.Room()))
    ensures ok ==>
              && n == |old(dst.slots)| && Has(Now(dst), Child(n)) && Added(r, key, old(Now(dst)), Now(dst))
              && dst.Room() == old(dst.Room()) - (SLOT + KeyBytes(key))
  {
    hide SameBytes, Added, Linked?, TextAt;
    ghost var s0 := Now(dst);
    MarkBound(dst);
    BytesSelf(dst.mem[..], dst.left);
    var slot := dst.AddSlot(r);
    if slot.NoSlot? { return false, 0; }
    n := slot.slot;
    ghost var s1 := Now(dst);
    FreshAdded(r, s0, s1);
    ok := SetKey(src, k, key, dst, n);
    if !ok { return; }
    KeyedAdded(r, key, s0, s1, Now(dst));
  }

  method SetKey(src: Source, k: KeyRef, ghost key: Key, dst: JsonDocument, n: nat) returns (ok: bool)
    requires KeyIs(src.mem, k, key) && dst.Valid() && n < |dst.slots| && dst.slots[n].key == Unset
    modifies dst`left, dst`slots, dst.mem
    ensures dst.Valid() && ok == (KeyBytes(key) <= old(dst.Room())) && |dst.slots| == |old(dst.slots)|
    ensures forall i :: 0 <= i < |dst.slots| && i != n ==> dst.slots[i] == old(dst.slots)[i]
    ensures dst.slots[n].data == old(dst.slots[n].data) && dst.slots[n].next == old(dst.slots[n].next)
    ensures SameBytes(old(dst.mem[..]), dst.mem[..], old(dst.left)) && dst.left >= old(dst.left)
    ensures ok ==>
              && 0 <= LayKey(dst.mem[..], dst.slots[n].key, key, old(dst.left)) <= dst.left
              && dst.Room() == old(dst.Room()) - KeyBytes(key)
  {
    hide SameBytes, TextAt;
    MarkBound(dst);
    BytesSelf(dst.mem[..], dst.left);
    match k {
      case Unset => return true;
      case LinkedKey(s) =>
        dst.slots := dst.slots[n := dst.slots[n].(key := k)];
        return true;
      case OwnedKey(at) =>
        TextIsNulFree(src.mem, at, key.text);
        var t := ReadText(src.mem, at, key.text);
        var p;
        ok, p := Save(dst, t);
        if !ok { return; }
        dst.SetOwnedKey(n, p);
    }
  }

  // ----- the whole document

  /**
   A copy into a fresh pool: it succeeds exactly when the pool is at least as large as memoryUsage(), uses
   exactly that many bytes, and denotes the same document.
   */
  method CopyDocument(src: Source, d: Data, ghost v: Value, capacity: nat) returns (ok: bool, dst: JsonDocument)
    requires src.Shows(d, v) && capacity <= MAX_CAPACITY
    ensures fresh(dst) && dst.Valid() && ok == (Usage(v) <= capacity)
    ensures ok ==> Denotes(dst.slots, dst.mem[..], dst.root, v) && capacity - dst.Room() == Usage(v)
  {
    hide Denotes, Lay;
    dst := new JsonDocument(capacity);
    ok := CopyVariant(src, d, v, dst, Root);
    if ok {
      LayDenotes(dst.slots, dst.mem[..], dst.root, v, 0, 0);
    }
  }

  /** The copy equals the original exactly when the document is consistent: with distinct keys, when it holds no NaN. */
  method CopyAndCompare(src: Source, d: Data, ghost v: Value, capacity: nat) returns (same: bool)
    requires src.Shows(d, v) && Usage(v) <= capacity <= MAX_CAPACITY
    ensures same <==> Consistent(v)
    ensures DistinctKeys(v) ==> (same <==> NoNaN(v))
  {
    hide Denotes, Lay, Equal, NoNaN, DistinctKeys, Usage, Consistent;
    var ok, dst := CopyDocument(src, d, v, capacity);
    same := Equals(src, d, v, Source(dst.slots, dst.mem[..]), dst.root, v);
    EqualItselfExactly(v);
    if DistinctKeys(v) {
      EqualItself(v);
    }
  }
}
