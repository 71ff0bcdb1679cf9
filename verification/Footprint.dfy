/** Which slots and bytes a laid out document occupies: each slot once, and strings one behind the other. */
module Footprint {
  import opened Values
  import opened Sequences
  import opened Document
  import opened DocumentLaws

  /** Slots met by following a variant's links, in document order. */
  ghost function SlotsOf(slots: seq<Slot>, d: Data, v: Value): seq<nat>
    decreases v, 1
  {
    if v.Collection?() && d.List?() then ListSlots(slots, d.head, v.members) else []
  }

  ghost function ListSlots(slots: seq<Slot>, link: Link, ms: seq<Member>): seq<nat>
    decreases ms, 0
  {
    if ms == [] || link.NoSlot? || link.slot >= |slots| then []
    else
      var m := ms[0];
      assert m.value < m;
      [link.slot] + SlotsOf(slots, slots[link.slot].data, m.value) + ListSlots(slots, Next(slots, link.slot), ms[1..])
  }

  /** A stretch of bytes, end excluded. */
  datatype Extent = Extent(start: nat, end: nat)

  ghost function KeyExtent(k: KeyRef, key: Key): seq<Extent> {
    if k.OwnedKey? && key.Key? then [Extent(k.at, k.at + |key.text| + 1)] else []
  }

  /** Owned strings with their terminators, in document order. */
  ghost function TextsOf(slots: seq<Slot>, d: Data, v: Value): seq<Extent>
    decreases v, 1
  {
    if v.Collection?() && d.List?() then ListTexts(slots, d.head, v.members)
    else if v.Str? && d.Owned? then [Extent(d.at, d.at + |v.text| + 1)]
    else []
  }

  ghost function ListTexts(slots: seq<Slot>, link: Link, ms: seq<Member>): seq<Extent>
    decreases ms, 0
  {
    if ms == [] || link.NoSlot? || link.slot >= |slots| then []
    else
      var m := ms[0];
      assert m.value < m;
      KeyExtent(slots[link.slot].key, m.key) + TextsOf(slots, slots[link.slot].data, m.value)
        + ListTexts(slots, Next(slots, link.slot), ms[1..])
  }

  ghost function Range(a: nat, b: nat): (r: seq<nat>)
    ensures |r| == (if a <= b then b - a else 0) && forall i :: 0 <= i < |r| ==> r[i] == a + i
  {
    seq(if a <= b then b - a else 0, i requires i >= 0 => a + i)
  }

  /** Stretches between `from` and `to`, none beginning before the previous one ends. */
  ghost predicate InOrder(xs: seq<Extent>, from: nat, to: nat) {
    && from <= to
    && (forall i :: 0 <= i < |xs| ==> from <= xs[i].start < xs[i].end <= to)
    && (forall i, j :: 0 <= i < j < |xs| ==> xs[i].end <= xs[j].start)
  }

  lemma OrderedJoin(xs: seq<Extent>, ys: seq<Extent>, a: nat, b: nat, c: nat)
    requires InOrder(xs, a, b) && InOrder(ys, b, c)
    ensures InOrder(xs + ys, a, c)
  {
    var zs := xs + ys;
    forall i, j | 0 <= i < j < |zs| ensures zs[i].end <= zs[j].start {
      if i < |xs| <= j {
        assert zs[i] == xs[i] && zs[j] == ys[j - |xs|];
      }
    }
  }

  /** A laid out variant uses the slots from `lo` on, each exactly once and in document order. */
  lemma {:induction false} LaySlots(slots: seq<Slot>, mem: bytes, d: Data, v: Value, lo: nat, from: nat)
    requires Lay(slots, mem, d, v, lo, from) >= 0 && |slots| <= 0x8000
    ensures SlotsOf(slots, d, v) == Range(lo, lo + Slots(v))
    decreases v, 1
  {
    if (v.Array? || v.Object?) && v.members != [] {
      ListSlotsFrom(slots, mem, v.members, lo, from, []);
      assert v.members + [] == v.members;
    }
  }

  lemma RangeJoin(a: nat, b: nat, c: nat)
    requires a <= b <= c
    ensures Range(a, b) + Range(b, c) == Range(a, c)
    ensures b < c ==> [b] + Range(b + 1, c) == Range(b, c)
  {
  }

  lemma LinkedNext(slots: seq<Slot>, mem: bytes, ms: seq<Member>, lo: nat, from: nat)
    requires |ms| > 1 && LayMembers(slots, mem, ms, lo, from) >= 0 && |slots| <= 0x8000
    ensures LastSlot(ms[..|ms| - 1], lo) < |slots|
    ensures Next(slots, LastSlot(ms[..|ms| - 1], lo)) == To(LastSlot(ms, lo))
  {
    LastBelow(ms[..|ms| - 1], lo);
    LinkIsExact(LastSlot(ms[..|ms| - 1], lo), LastSlot(ms, lo));
  }

  lemma {:induction false} ListSlotsFrom(slots: seq<Slot>, mem: bytes, ms: seq<Member>, lo: nat, from: nat,
                                         rest: seq<Member>)
    requires ms != [] && LayMembers(slots, mem, ms, lo, from) >= 0 && |slots| <= 0x8000
    ensures LastSlot(ms, lo) < |slots|
    ensures ListSlots(slots, To(lo), ms + rest) ==
            Range(lo, lo + MemberSlots(ms)) + ListSlots(slots, Next(slots, LastSlot(ms, lo)), rest)
    decreases ms, 0
  {
    hide LayMembers, Lay, LayKey, ListSlots, SlotsOf, MemberSlots, Slots;
    var init, m := ms[..|ms| - 1], ms[|ms| - 1];
    assert m.value < m;
    var pos, k := LastLaid(slots, mem, ms, lo, from);
    LaySlots(slots, mem, slots[pos].data, m.value, pos + 1, k);
    LastBelow(ms, lo);
    RangeJoin(pos, pos, lo + MemberSlots(ms));
    OneSlot(slots, pos, m, rest);
    assert ms + rest == init + ([m] + rest);
    if init != [] {
      LinkedNext(slots, mem, ms, lo, from);
      ListSlotsFrom(slots, mem, init, lo, from, [m] + rest);
      RangeJoin(lo, pos, lo + MemberSlots(ms));
      Assoc(Range(lo, pos), Range(pos, lo + MemberSlots(ms)), ListSlots(slots, Next(slots, pos), rest));
    } else {
      FirstSlot(ms, lo);
      assert ms + rest == [m] + rest;
    }
  }

  lemma FirstSlot(ms: seq<Member>, lo: nat)
    requires |ms| == 1
    ensures LastSlot(ms, lo) == lo
  {
  }

  lemma OneSlot(slots: seq<Slot>, pos: nat, m: Member, rest: seq<Member>)
    requires pos < |slots|
    ensures ListSlots(slots, To(pos), [m] + rest) ==
            [pos] + SlotsOf(slots, slots[pos].data, m.value) + ListSlots(slots, Next(slots, pos), rest)
  {
    assert ([m] + rest)[0] == m && ([m] + rest)[1..] == rest;
  }

  /** The last member of a laid out list: its slot, and the string mark its value starts at. */
  lemma LastLaid(slots: seq<Slot>, mem: bytes, ms: seq<Member>, lo: nat, from: nat) returns (pos: nat, k: nat)
    requires ms != [] && LayMembers(slots, mem, ms, lo, from) >= 0
    ensures pos == LastSlot(ms, lo) < |slots|
    ensures LayMembers(slots, mem, ms[..|ms| - 1], lo, from) >= 0
    ensures LayKey(mem, slots[pos].key, ms[|ms| - 1].key, LayMembers(slots, mem, ms[..|ms| - 1], lo, from)) == k
    ensures Lay(slots, mem, slots[pos].data, ms[|ms| - 1].value, pos + 1, k) == LayMembers(slots, mem, ms, lo, from)
  {
    hide Lay, LayKey;
    pos := LastSlot(ms, lo);
    k := LayKey(mem, slots[pos].key, ms[|ms| - 1].key, LayMembers(slots, mem, ms[..|ms| - 1], lo, from));
  }

  /** Its owned strings follow each other from byte `from` on and end where the layout says. */
  lemma {:induction false} LayTexts(slots: seq<Slot>, mem: bytes, d: Data, v: Value, lo: nat, from: nat)
    requires Lay(slots, mem, d, v, lo, from) >= 0 && |slots| <= 0x8000
    ensures InOrder(TextsOf(slots, d, v), from, Lay(slots, mem, d, v, lo, from))
    decreases v, 1
  {
    if (v.Array? || v.Object?) && v.members != [] {
      var xs := ListTextsFrom(slots, mem, v.members, lo, from, []);
      assert v.members + [] == v.members;
      assert xs + [] == xs;
    }
  }

  lemma {:induction false} ListTextsFrom(slots: seq<Slot>, mem: bytes, ms: seq<Member>, lo: nat, from: nat,
                                         rest: seq<Member>)
    returns (xs: seq<Extent>)
    requires ms != [] && LayMembers(slots, mem, ms, lo, from) >= 0 && |slots| <= 0x8000
    ensures LastSlot(ms, lo) < |slots|
    ensures ListTexts(slots, To(lo), ms + rest) == xs + ListTexts(slots, Next(slots, LastSlot(ms, lo)), rest)
    ensures InOrder(xs, from, LayMembers(slots, mem, ms, lo, from))
    decreases ms, 0
  {
    hide LayMembers, Lay, LayKey, ListTexts, TextsOf, KeyExtent, InOrder;
    var init, m := ms[..|ms| - 1], ms[|ms| - 1];
    assert m.value < m;
    var pos, k := LastLaid(slots, mem, ms, lo, from);
    var h := LayMembers(slots, mem, init, lo, from);
    LayTexts(slots, mem, slots[pos].data, m.value, pos + 1, k);
    KeyInOrder(mem, slots[pos].key, m.key, h);
    var one := KeyExtent(slots[pos].key, m.key) + TextsOf(slots, slots[pos].data, m.value);
    OrderedJoin(KeyExtent(slots[pos].key, m.key), TextsOf(slots, slots[pos].data, m.value), h, k,
                LayMembers(slots, mem, ms, lo, from));
    OneText(slots, pos, m, rest);
    assert ms + rest == init + ([m] + rest);
    if init == [] {
      FirstSlot(ms, lo);
      assert ms + rest == [m] + rest;
      NoneLaid(slots, mem, init, lo, from);
      xs := one;
    } else {
      LinkedNext(slots, mem, ms, lo, from);
      var ys := ListTextsFrom(slots, mem, init, lo, from, [m] + rest);
      xs := ys + one;
      OrderedJoin(ys, one, from, h, LayMembers(slots, mem, ms, lo, from));
      Assoc(ys, one, ListTexts(slots, Next(slots, pos), rest));
    }
  }

  lemma NoneLaid(slots: seq<Slot>, mem: bytes, ms: seq<Member>, lo: nat, from: nat)
    requires ms == []
    ensures LayMembers(slots, mem, ms, lo, from) == from
  {
  }

  lemma KeyInOrder(mem: bytes, k: KeyRef, key: Key, from: nat)
    requires LayKey(mem, k, key, from) >= 0
    ensures InOrder(KeyExtent(k, key), from, LayKey(mem, k, key, from))
  {
  }

  lemma OneText(slots: seq<Slot>, pos: nat, m: Member, rest: seq<Member>)
    requires pos < |slots|
    ensures ListTexts(slots, To(pos), [m] + rest) ==
            (KeyExtent(slots[pos].key, m.key) + TextsOf(slots, slots[pos].data, m.value))
              + ListTexts(slots, Next(slots, pos), rest)
  {
    assert ([m] + rest)[0] == m && ([m] + rest)[1..] == rest;
  }
}
