/** Laws of the layout: what may change without disturbing it, and that it denotes the document. */
module DocumentLaws {
  import opened Values
  import opened Document

  ghost predicate SameSlots(slots: seq<Slot>, slots': seq<Slot>, a: nat, b: nat) {
    |slots| <= |slots'| && forall i :: a <= i < b && i < |slots| ==> slots'[i] == slots[i]
  }

  /** As SameSlots, but the last slot of the list may have got a successor. */
  ghost predicate SameList(slots: seq<Slot>, slots': seq<Slot>, ms: seq<Member>, lo: nat) {
    ms != [] ==>
      var last := LastSlot(ms, lo);
      && SameSlots(slots, slots', lo, last)
      && SameSlots(slots, slots', last + 1, lo + MemberSlots(ms))
      && (last < |slots| ==> slots'[last].data == slots[last].data && slots'[last].key == slots[last].key)
  }

  lemma TextFrame(mem: bytes, mem': bytes, n: nat, at: nat, s: bytes)
    requires TextAt(mem, at, s) && at + |s| < n && SameBytes(mem, mem', n)
    ensures TextAt(mem', at, s)
  {
    assert mem[at..at + |s|] == mem[..n][at..at + |s|];
    assert mem'[at..at + |s|] == mem'[..n][at..at + |s|];
    assert mem[at + |s|] == mem[..n][at + |s|] == mem'[..n][at + |s|] == mem'[at + |s|];
  }

  lemma {:induction false} LayFrame(slots: seq<Slot>, slots': seq<Slot>, mem: bytes, mem': bytes, n: nat,
                                    d: Data, v: Value, lo: nat, from: nat)
    requires 0 <= Lay(slots, mem, d, v, lo, from) <= n
    requires SameSlots(slots, slots', lo, lo + Slots(v)) && SameBytes(mem, mem', n)
    ensures Lay(slots', mem', d, v, lo, from) == Lay(slots, mem, d, v, lo, from)
    decreases v, 1
  {
    if v.Array? || v.Object? {
      if v.members != [] {
        LastBelow(v.members, lo);
      }
      SameSlotsList(slots, slots', v.members, lo);
      LayMembersFrame(slots, slots', mem, mem', n, v.members, lo, from);
    } else if v.Str? && !v.linked {
      TextFrame(mem, mem', n, d.at, v.text);
    }
  }

  lemma SameSlotsList(slots: seq<Slot>, slots': seq<Slot>, ms: seq<Member>, lo: nat)
    requires SameSlots(slots, slots', lo, lo + MemberSlots(ms))
    ensures SameList(slots, slots', ms, lo)
  {
    if ms != [] {
      LastBelow(ms, lo);
      SameSlotsPart(slots, slots', lo, lo + MemberSlots(ms), LastSlot(ms, lo));
    }
  }

  lemma SameSlotsPart(slots: seq<Slot>, slots': seq<Slot>, a: nat, b: nat, i: nat)
    requires SameSlots(slots, slots', a, b) && a <= i < b
    ensures SameSlots(slots, slots', a, i) && SameSlots(slots, slots', i + 1, b)
    ensures i < |slots| ==> slots'[i] == slots[i]
  {
  }

  lemma LastBelow(ms: seq<Member>, lo: nat)
    requires ms != []
    ensures LastSlot(ms, lo) < lo + MemberSlots(ms)
    ensures LastSlot(ms, lo) + 1 + Slots(ms[|ms| - 1].value) == lo + MemberSlots(ms)
    ensures LastSlot(ms, lo) == lo + MemberSlots(ms[..|ms| - 1])
  {
  }

  lemma {:induction false} LayMembersFrame(slots: seq<Slot>, slots': seq<Slot>, mem: bytes, mem': bytes, n: nat,
                                           ms: seq<Member>, lo: nat, from: nat)
    requires 0 <= LayMembers(slots, mem, ms, lo, from) <= n
    requires SameList(slots, slots', ms, lo) && SameBytes(mem, mem', n)
    ensures LayMembers(slots', mem', ms, lo, from) == LayMembers(slots, mem, ms, lo, from)
    decreases ms, 0
  {
    hide SameBytes, Lay, LayKey, MemberSlots;
    if ms == [] { return; }
    var init, m := ms[..|ms| - 1], ms[|ms| - 1];
    assert m.value < m;
    var pos := LastSlot(ms, lo);
    LastBelow(ms, lo);
    if init != [] { LastBelow(init, lo); }
    var h := LayMembers(slots, mem, init, lo, from);
    LayMembersFrame(slots, slots', mem, mem', n, init, lo, from);
    var k := LayKey(mem, slots[pos].key, m.key, h);
    KeyFrame(mem, mem', n, slots[pos].key, m.key, h);
    LayFrame(slots, slots', mem, mem', n, slots[pos].data, m.value, pos + 1, k);
  }

  lemma KeyFrame(mem: bytes, mem': bytes, n: nat, k: KeyRef, key: Key, from: nat)
    requires 0 <= LayKey(mem, k, key, from) <= n && SameBytes(mem, mem', n)
    ensures LayKey(mem', k, key, from) == LayKey(mem, k, key, from)
  {
    if key.Key? && !key.linked {
      TextFrame(mem, mem', n, k.at, key.text);
    }
  }

  // ----- a layout denotes its document

  lemma {:induction false} LayDenotes(slots: seq<Slot>, mem: bytes, d: Data, v: Value, lo: nat, from: nat)
    requires Lay(slots, mem, d, v, lo, from) >= 0 && |slots| <= 0x8000
    ensures Denotes(slots, mem, d, v)
    decreases v, 1
  {
    if (v.Array? || v.Object?) && v.members != [] {
      ListDenotesFrom(slots, mem, v.members, lo, from, []);
      assert v.members + [] == v.members;
    }
  }

  /** A laid out list followed by whatever its last link leads to. */
  lemma {:induction false} ListDenotesFrom(slots: seq<Slot>, mem: bytes, ms: seq<Member>, lo: nat, from: nat,
                                           rest: seq<Member>)
    requires ms != [] && LayMembers(slots, mem, ms, lo, from) >= 0 && |slots| <= 0x8000
    requires ListDenotes(slots, mem, Next(slots, LastSlot(ms, lo)), rest)
    ensures ListDenotes(slots, mem, To(lo), ms + rest)
    decreases ms, 0
  {
    var init, m := ms[..|ms| - 1], ms[|ms| - 1];
    assert m.value < m;
    var pos := LastSlot(ms, lo);
    var k := LayKey(mem, slots[pos].key, m.key, LayMembers(slots, mem, init, lo, from));
    LayDenotes(slots, mem, slots[pos].data, m.value, pos + 1, k);
    var tail := [m] + rest;
    assert tail[0] == m && tail[1..] == rest;
    assert ListDenotes(slots, mem, To(pos), tail);
    assert ms + rest == init + tail;
    if init != [] {
      var prev := LastSlot(init, lo);
      LastBelow(init, lo);
      LinkIsExact(prev, pos);
      assert Next(slots, prev) == To(pos);
      ListDenotesFrom(slots, mem, init, lo, from, tail);
    }
  }

  // ----- building a list one member at a time

  /** Linking a fresh slot behind the tail leaves the list so far laid out. */
  lemma LinkedLaid(slots: seq<Slot>, slots': seq<Slot>, mem: bytes, ms: seq<Member>, lo: nat, from: nat, tail: Link)
    requires 0 <= LayMembers(slots, mem, ms, lo, from) <= |mem|
    requires |slots| == lo + MemberSlots(ms) < |slots'|
    requires ms != [] ==> tail == To(LastSlot(ms, lo))
    requires forall i :: lo <= i < |slots| ==> slots'[i].data == slots[i].data && slots'[i].key == slots[i].key
    requires forall i :: lo <= i < |slots| && tail != To(i) ==> slots'[i].next == slots[i].next
    ensures LayMembers(slots', mem, ms, lo, from) == LayMembers(slots, mem, ms, lo, from)
  {
    if ms != [] { LastBelow(ms, lo); }
    LayMembersFrame(slots, slots', mem, mem, |mem|, ms, lo, from);
  }

  /**
   A list `ms` and one more member: its slot `n` was linked, its key set, and its value built behind
   it, with nothing below `n` touched since.
   */
  lemma MemberLaid(slots1: seq<Slot>, mem1: bytes, slots2: seq<Slot>, mem2: bytes, ms: seq<Member>, m: Member,
                   lo: nat, from: nat, mark1: nat, n: nat)
    requires n == lo + MemberSlots(ms) && |slots1| == n + 1 && n < |slots2|
    requires 0 <= LayMembers(slots1, mem1, ms, lo, from)
    requires ms != [] ==> slots1[LastSlot(ms, lo)].next == Distance(LastSlot(ms, lo), n)
    requires 0 <= LayKey(mem1, slots1[n].key, m.key, LayMembers(slots1, mem1, ms, lo, from)) <= mark1
    requires SameBytes(mem1, mem2, mark1)
    requires forall i :: lo <= i < n ==> slots2[i] == slots1[i]
    requires slots2[n].key == slots1[n].key
    requires 0 <= Lay(slots2, mem2, slots2[n].data, m.value, n + 1, mark1)
    ensures 0 <= LayMembers(slots2, mem2, ms + [m], lo, from)
              <= Lay(slots2, mem2, slots2[n].data, m.value, n + 1, mark1)
    ensures LastSlot(ms + [m], lo) == n
  {
    hide Lay, LayMembers, LayKey, SameBytes, SameList, MemberSlots;
    LayMembersStep(slots2, mem2, ms, m, lo, from);
    if ms != [] { LastBelow(ms, lo); }
    SameListPrefix(slots1, slots2, ms, lo, n);
    LayMembersFrame(slots1, slots2, mem1, mem2, mark1, ms, lo, from);
    var h := LayMembers(slots1, mem1, ms, lo, from);
    KeyFrame(mem1, mem2, mark1, slots1[n].key, m.key, h);
    LayLower(slots2, mem2, slots2[n].data, m.value, n + 1, mark1, LayKey(mem2, slots2[n].key, m.key, h));
  }

  lemma LayMembersStep(slots: seq<Slot>, mem: bytes, ms: seq<Member>, m: Member, lo: nat, from: nat)
    ensures LastSlot(ms + [m], lo) == lo + MemberSlots(ms)
    ensures var h, pos := LayMembers(slots, mem, ms, lo, from), lo + MemberSlots(ms);
            h >= 0 && pos < |slots| && LayKey(mem, slots[pos].key, m.key, h) >= 0
            && (ms != [] ==>
                  LastSlot(ms, lo) < |slots| && slots[LastSlot(ms, lo)].next == Distance(LastSlot(ms, lo), pos)) ==>
              LayMembers(slots, mem, ms + [m], lo, from) ==
              Lay(slots, mem, slots[pos].data, m.value, pos + 1, LayKey(mem, slots[pos].key, m.key, h))
  {
    hide Lay, LayKey;
    var all := ms + [m];
    assert all[..|all| - 1] == ms && all[|all| - 1] == m;
  }

  lemma SameListPrefix(slots: seq<Slot>, slots': seq<Slot>, ms: seq<Member>, lo: nat, n: nat)
    requires n == lo + MemberSlots(ms) && n <= |slots| <= |slots'|
    requires forall i :: lo <= i < n ==> slots'[i] == slots[i]
    ensures SameList(slots, slots', ms, lo)
  {
    if ms != [] { LastBelow(ms, lo); }
  }

  /** Starting the strings earlier than needed does no harm. */
  lemma {:induction false} LayLower(slots: seq<Slot>, mem: bytes, d: Data, v: Value, lo: nat, from: nat, from': nat)
    requires Lay(slots, mem, d, v, lo, from) >= 0 && from' <= from
    ensures 0 <= Lay(slots, mem, d, v, lo, from') <= Lay(slots, mem, d, v, lo, from)
    decreases v, 1
  {
    if v.Array? || v.Object? {
      LayMembersLower(slots, mem, v.members, lo, from, from');
    }
  }

  lemma {:induction false} LayMembersLower(slots: seq<Slot>, mem: bytes, ms: seq<Member>, lo: nat, from: nat,
                                           from': nat)
    requires LayMembers(slots, mem, ms, lo, from) >= 0 && from' <= from
    ensures 0 <= LayMembers(slots, mem, ms, lo, from') <= LayMembers(slots, mem, ms, lo, from)
    decreases ms, 0
  {
    if ms == [] { return; }
    var init, m := ms[..|ms| - 1], ms[|ms| - 1];
    assert m.value < m;
    var pos := LastSlot(ms, lo);
    LayMembersLower(slots, mem, init, lo, from, from');
    var k := LayKey(mem, slots[pos].key, m.key, LayMembers(slots, mem, init, lo, from));
    var k' := LayKey(mem, slots[pos].key, m.key, LayMembers(slots, mem, init, lo, from'));
    LayLower(slots, mem, slots[pos].data, m.value, pos + 1, k, k');
  }

  // ----- steps of a construction, on snapshots

  /** Slots, root, string bytes and the first free string byte at one moment. */
  datatype Snap = Snap(slots: seq<Slot>, root: Data, store: bytes, mark: nat)

  ghost predicate Has(s: Snap, r: Ref) {
    r.Child? ==> r.i < |s.slots|
  }

  ghost function Pick(s: Snap, r: Ref): Data
    requires Has(s, r)
  {
    if r.Root? then s.root else s.slots[r.i].data
  }

  /** From `a` to `b` nothing that existed changed but the data of `r`; finished strings are intact. */
  ghost predicate Kept(r: Ref, a: Snap, b: Snap) {
    && OnlyData(r, a.slots, a.root, b.slots, b.root)
    && a.mark <= b.mark && SameBytes(a.store, b.store, a.mark)
  }

  /** Since `a`, variant `r` has become `v`, its children and strings laid out behind what was there. */
  ghost predicate Built(r: Ref, v: Value, a: Snap, b: Snap) {
    && Has(a, r) && Kept(r, a, b)
    && |b.slots| == |a.slots| + Slots(v)
    && 0 <= Lay(b.slots, b.store, Pick(b, r), v, |a.slots|, a.mark) <= b.mark
  }

  /** Since `a`, variant `r` has become a list with members `ms` so far. */
  ghost predicate Listed(r: Ref, ms: seq<Member>, isArray: bool, a: Snap, b: Snap) {
    && Has(a, r) && Kept(r, a, b)
    && |b.slots| == |a.slots| + MemberSlots(ms)
    && (if isArray then Pick(b, r).Arr? else Pick(b, r).Obj?)
    && Ends(b.slots, Pick(b, r), ms, |a.slots|)
    && 0 <= LayMembers(b.slots, b.store, ms, |a.slots|, a.mark) <= b.mark <= |b.store|
  }

  lemma ListedIsBuilt(r: Ref, ms: seq<Member>, isArray: bool, a: Snap, b: Snap)
    requires Listed(r, ms, isArray, a, b)
    ensures Built(r, if isArray then Array(ms) else Object(ms), a, b)
  {
  }

  /** The list of `r` in `s` has got a fresh slot `n`, by now with its key. */
  ghost predicate Added(r: Ref, key: Key, s: Snap, s': Snap) {
    var n := |s.slots|;
    && Has(s, r) && Pick(s, r).List?()
    && Linked?(r, Pick(s, r).tail, s.slots, s.root, s'.slots, s'.root)
    && Pick(s', r) == (if Pick(s, r).tail.To? then Pick(s, r).(tail := To(n))
                       else Pick(s, r).(head := To(n), tail := To(n)))
    && s'.slots[n].data == Nothing && s'.slots[n].next == 0
    && s.mark <= s'.mark && SameBytes(s.store, s'.store, s.mark)
    && 0 <= LayKey(s'.store, s'.slots[n].key, key, s.mark) <= s'.mark
  }

  lemma KeptTrans(r: Ref, a: Snap, s: Snap, s': Snap, b: Snap, key: Key, ms: seq<Member>, isArray: bool)
    requires Listed(r, ms, isArray, a, s) && Added(r, key, s, s') && Kept(Child(|s.slots|), s', b)
    ensures Kept(r, a, b) && Pick(b, r) == Pick(s', r)
  {
    hide LayMembers, LayKey, MemberSlots;
    if ms != [] { TailAbove(ms, |a.slots|); }
    SameBytesTrans(a.store, s.store, s'.store, a.mark, s.mark);
    SameBytesTrans(a.store, s'.store, b.store, a.mark, s'.mark);
  }

  lemma TailAbove(ms: seq<Member>, lo: nat)
    requires ms != []
    ensures LastSlot(ms, lo) >= lo
  {
  }

  /** One more member: slot added, key set, value built in it. */
  lemma Grow(r: Ref, ms: seq<Member>, m: Member, isArray: bool, a: Snap, s: Snap, s': Snap, b: Snap)
    requires Listed(r, ms, isArray, a, s) && Added(r, m.key, s, s') && Built(Child(|s.slots|), m.value, s', b)
    requires b.mark <= |b.store|
    ensures Listed(r, ms + [m], isArray, a, b)
  {
    var lo, n := |a.slots|, |s.slots|;
    KeptTrans(r, a, s, s', b, m.key, ms, isArray);
    AddedLaid(r, ms, m.key, isArray, a, s, s');
    GrowLaid(r, ms, m, isArray, a, s, s', b);
    GrowEnds(r, ms, m, isArray, a, s, s', b);
  }

  lemma LayMembersBytes(slots: seq<Slot>, mem: bytes, mem': bytes, n: nat, ms: seq<Member>, lo: nat, from: nat)
    requires 0 <= LayMembers(slots, mem, ms, lo, from) <= n && SameBytes(mem, mem', n)
    ensures LayMembers(slots, mem', ms, lo, from) == LayMembers(slots, mem, ms, lo, from)
  {
    if ms != [] { LastBelow(ms, lo); }
    LayMembersFrame(slots, slots, mem, mem', n, ms, lo, from);
  }

  lemma AddedLaid(r: Ref, ms: seq<Member>, key: Key, isArray: bool, a: Snap, s: Snap, s': Snap)
    requires Listed(r, ms, isArray, a, s) && Added(r, key, s, s')
    ensures LayMembers(s'.slots, s'.store, ms, |a.slots|, a.mark) == LayMembers(s.slots, s.store, ms, |a.slots|, a.mark)
  {
    hide LayMembers, LayKey, SameBytes;
    LinkedLaid(s.slots, s'.slots, s.store, ms, |a.slots|, a.mark, Pick(s, r).tail);
    LayMembersBytes(s'.slots, s.store, s'.store, s.mark, ms, |a.slots|, a.mark);
  }

  lemma GrowLaid(r: Ref, ms: seq<Member>, m: Member, isArray: bool, a: Snap, s: Snap, s': Snap, b: Snap)
    requires Listed(r, ms, isArray, a, s) && Added(r, m.key, s, s') && Built(Child(|s.slots|), m.value, s', b)
    requires LayMembers(s'.slots, s'.store, ms, |a.slots|, a.mark) ==
             LayMembers(s.slots, s.store, ms, |a.slots|, a.mark)
    ensures 0 <= LayMembers(b.slots, b.store, ms + [m], |a.slots|, a.mark) <= b.mark
    ensures LastSlot(ms + [m], |a.slots|) == |s.slots|
  {
    hide LayMembers, Lay, SameBytes, MemberSlots;
    var lo, n := |a.slots|, |s.slots|;
    LayKeyLower(s'.store, s'.slots[n].key, m.key, s.mark, LayMembers(s.slots, s.store, ms, lo, a.mark));
    if ms != [] { LastIn(ms, lo); }
    MemberLaid(s'.slots, s'.store, b.slots, b.store, ms, m, lo, a.mark, s'.mark, n);
  }

  lemma LastIn(ms: seq<Member>, lo: nat)
    requires ms != []
    ensures lo <= LastSlot(ms, lo) < lo + MemberSlots(ms)
  {
    LastBelow(ms, lo);
  }

  lemma LayKeyLower(mem: bytes, k: KeyRef, key: Key, from: nat, from': nat)
    requires LayKey(mem, k, key, from) >= 0 && from' <= from
    ensures 0 <= LayKey(mem, k, key, from') <= LayKey(mem, k, key, from)
  {
  }

  lemma GrowEnds(r: Ref, ms: seq<Member>, m: Member, isArray: bool, a: Snap, s: Snap, s': Snap, b: Snap)
    requires Listed(r, ms, isArray, a, s) && Added(r, m.key, s, s') && Built(Child(|s.slots|), m.value, s', b)
    requires Has(b, r) && Pick(b, r) == Pick(s', r) && LastSlot(ms + [m], |a.slots|) == |s.slots|
    ensures Ends(b.slots, Pick(b, r), ms + [m], |a.slots|)
    ensures |b.slots| == |a.slots| + MemberSlots(ms + [m])
  {
    hide LayMembers, Lay, LayKey, SameBytes, MemberSlots;
    MemberSlotsBack(ms, m);
    if ms == [] { return; }
    LastIn(ms, |a.slots|);
  }

  lemma MemberSlotsBack(ms: seq<Member>, m: Member)
    ensures MemberSlots(ms + [m]) == MemberSlots(ms) + 1 + Slots(m.value)
    ensures MemberSlots([]) == 0
  {
    assert (ms + [m])[..|ms|] == ms;
  }

  /** A variant set to a leaf with no string of its own in the pool. */
  lemma LeafBuilt(r: Ref, v: Value, a: Snap, b: Snap)
    requires Has(a, r) && Kept(r, a, b) && |b.slots| == |a.slots|
    requires !v.Collection?() && (v.Str? ==> v.linked) && LeafIs(b.store, Pick(b, r), v)
    ensures Built(r, v, a, b)
  {
  }

  /** A variant set to an owned string just completed. */
  lemma TextBuilt(r: Ref, s: bytes, a: Snap, b: Snap)
    requires Has(a, r) && Kept(r, a, b) && |b.slots| == |a.slots|
    requires Pick(b, r) == Owned(a.mark) && TextAt(b.store, a.mark, s) && a.mark + |s| + 1 <= b.mark
    ensures Built(r, Str(s, false), a, b)
  {
  }

  lemma ListedTail(r: Ref, ms: seq<Member>, isArray: bool, a: Snap, b: Snap)
    requires Listed(r, ms, isArray, a, b)
    ensures Has(b, r) && Pick(b, r).List?() && b.mark <= |b.store|
    ensures Pick(b, r).tail.To? ==> Pick(b, r).tail.slot < |b.slots|
  {
    hide LayMembers, MemberSlots;
  }

  /** A slot as CollectionData::addSlot leaves it: linked, cleared, no key yet. */
  lemma FreshAdded(r: Ref, s: Snap, s': Snap)
    requires Has(s, r) && Pick(s, r).List?() && s.mark <= |s.store|
    requires Linked?(r, Pick(s, r).tail, s.slots, s.root, s'.slots, s'.root) && s'.slots[|s.slots|] == FRESH
    requires Has(s', r) && Pick(s', r) == (if Pick(s, r).tail.To? then Pick(s, r).(tail := To(|s.slots|))
                                           else Pick(s, r).(head := To(|s.slots|), tail := To(|s.slots|)))
    requires s'.store == s.store && s'.mark == s.mark
    ensures Added(r, NoKey, s, s')
  {
  }

  /** The key set on the slot just added. */
  lemma KeyedAdded(r: Ref, key: Key, s: Snap, s1: Snap, s2: Snap)
    requires Added(r, NoKey, s, s1) && s2.root == s1.root && |s2.slots| == |s1.slots|
    requires forall i :: 0 <= i < |s.slots| ==> s2.slots[i] == s1.slots[i]
    requires s2.slots[|s.slots|].data == Nothing && s2.slots[|s.slots|].next == 0
    requires s1.mark == s.mark <= s2.mark && SameBytes(s1.store, s2.store, s1.mark)
    requires 0 <= LayKey(s2.store, s2.slots[|s.slots|].key, key, s.mark) <= s2.mark
    ensures Added(r, key, s, s2)
  {
    hide LayKey;
    SameBytesTrans(s.store, s1.store, s2.store, s.mark, s1.mark);
  }

  lemma NullBuilt(n: nat, a: Snap)
    requires n < |a.slots| && a.slots[n].data == Nothing && a.mark <= |a.store|
    ensures Built(Child(n), Null, a, a)
  {
  }
}
