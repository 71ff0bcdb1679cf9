/**
 JsonDocument: a root variant and the memory pool its children live in. The pool is bumped from both
 ends, strings from the left and 16-byte slots from the right, and collections are singly linked
 lists whose links are 16-bit slot distances.
 */
module Document {
  import opened Values

  /** A pointer to a slot, by allocation number: slot i is at address capacity - 16 * (i + 1). */
  datatype Link = NoSlot | To(slot: nat)

  datatype Data =
    | Nothing
    | Bool(b: bool)
    | Int(negative: bool, magnitude: UInt)
    | FloatData(bits: UInt)
    | Owned(at: nat)
    | Linked(text: bytes)
    | Arr(head: Link, tail: Link)
    | Obj(head: Link, tail: Link)
  {
    predicate List?() { Arr? || Obj? }
  }

  datatype KeyRef = Unset | OwnedKey(at: nat) | LinkedKey(text: bytes)

  /** VariantSlot; `next` is the signed distance in slots, 0 for none. */
  datatype Slot = Slot(data: Data, key: KeyRef, next: int)

  /** The variant an operation writes: the document's own, or the one in a slot. */
  datatype Ref = Root | Child(i: nat)

  /** VariantSlotDiff is int16_t. */
  function Int16(x: int): int {
    var m := x % 0x1_0000;
    if m < 0x8000 then m else m - 0x1_0000
  }

  /** setNext then next: later slots are at lower addresses, so distances are negative. */
  function Distance(from: nat, to: nat): int {
    Int16(from - to)
  }

  function Next(slots: seq<Slot>, i: nat): Link
    requires i < |slots|
  {
    if slots[i].next == 0 || i - slots[i].next < 0 then NoSlot else To(i - slots[i].next)
  }

  /** A link to a later slot is exact as long as the two are at most 32768 slots apart, and only then. */
  lemma LinkIsExact(from: nat, to: nat)
    requires from < to
    ensures (Distance(from, to) != 0 && from - Distance(from, to) == to) <==> to - from <= 0x8000
  {
  }

  const MAX_CAPACITY: nat := 0x8000 * SLOT

  // ----- what a variant denotes

  /** The first `n` bytes agree. */
  ghost predicate SameBytes(mem: bytes, mem': bytes, n: nat) {
    n <= |mem| && n <= |mem'| && mem[..n] == mem'[..n]
  }

  lemma BytesSelf(a: bytes, n: nat)
    requires n <= |a|
    ensures SameBytes(a, a, n)
  {
  }

  lemma SameBytesTrans(a: bytes, b: bytes, c: bytes, n: nat, m: nat)
    requires SameBytes(a, b, n) && SameBytes(b, c, m) && n <= m
    ensures SameBytes(a, c, n)
  {
    assert a[..n] == b[..m][..n] == c[..m][..n];
  }

  /** Bytes with a terminator behind them. */
  ghost predicate RawAt(mem: bytes, at: nat, s: bytes) {
    at + |s| < |mem| && mem[at..at + |s|] == s && mem[at + |s|] == 0
  }

  /** A C string. */
  ghost predicate TextAt(mem: bytes, at: nat, s: bytes) {
    RawAt(mem, at, s) && NulFree(s)
  }

  ghost predicate KeyIs(mem: bytes, k: KeyRef, key: Key) {
    match key
    case NoKey => k.Unset?
    case Key(s, linked) => if linked then k == LinkedKey(s) else k.OwnedKey? && TextAt(mem, k.at, s)
  }

  ghost predicate LeafIs(mem: bytes, d: Data, v: Value)
    requires !v.Collection?()
  {
    match v
    case Null => d.Nothing?
    case Boolean(b) => d == Bool(b)
    case Integer(negative, magnitude) => d == Int(negative, magnitude)
    case Float(bits) => d == FloatData(bits)
    case Str(s, linked) => if linked then d == Linked(s) else d.Owned? && TextAt(mem, d.at, s)
  }

  /** The variant `d` denotes `v`, following heads and next links. */
  ghost predicate Denotes(slots: seq<Slot>, mem: bytes, d: Data, v: Value)
    decreases v, 1
  {
    if !v.Collection?() then LeafIs(mem, d, v)
    else d.Arr? == v.Array? && d.Obj? == v.Object? && ListDenotes(slots, mem, d.head, v.members)
  }

  ghost predicate ListDenotes(slots: seq<Slot>, mem: bytes, link: Link, ms: seq<Member>)
    decreases ms, 0
  {
    if ms == [] then link.NoSlot?
    else
      var m := ms[0];
      assert m.value < m;
      && link.To? && link.slot < |slots|
      && KeyIs(mem, slots[link.slot].key, m.key)
      && Denotes(slots, mem, slots[link.slot].data, m.value)
      && ListDenotes(slots, mem, Next(slots, link.slot), ms[1..])
  }

  // ----- how a freshly built variant is laid out

  /**
   `d` denotes `v` with the children in consecutive slots from `lo` on, in document order, and the
   owned strings one after the other from byte `from` on. The result is the end of the last string,
   or -1 when `d` is not laid out that way. No slot and no string byte is used twice.
   */
  ghost function Lay(slots: seq<Slot>, mem: bytes, d: Data, v: Value, lo: nat, from: nat): (h: int)
    ensures h == -1 || h >= from
    decreases v, 1
  {
    if v.Collection?() then
      if d.Arr? == v.Array? && d.Obj? == v.Object? && Ends(slots, d, v.members, lo)
      then LayMembers(slots, mem, v.members, lo, from) else -1
    else if !LeafIs(mem, d, v) then -1
    else if v.Str? && !v.linked then (if d.at < from then -1 else d.at + |v.text| + 1)
    else from
  }

  ghost function LayKey(mem: bytes, k: KeyRef, key: Key, from: nat): (h: int)
    ensures h == -1 || h >= from
  {
    if !KeyIs(mem, k, key) then -1
    else if key.Key? && !key.linked then (if k.at < from then -1 else k.at + |key.text| + 1)
    else from
  }

  /** Slot of the last member of a list laid out from `lo`. */
  function LastSlot(ms: seq<Member>, lo: nat): nat
    requires ms != []
  {
    lo + MemberSlots(ms[..|ms| - 1])
  }

  ghost predicate Ends(slots: seq<Slot>, d: Data, ms: seq<Member>, lo: nat)
    requires d.List?()
  {
    if ms == [] then d.head == NoSlot && d.tail == NoSlot
    else d.head == To(lo) && d.tail == To(LastSlot(ms, lo))
         && LastSlot(ms, lo) < |slots| && slots[LastSlot(ms, lo)].next == 0
  }

  ghost function LayMembers(slots: seq<Slot>, mem: bytes, ms: seq<Member>, lo: nat, from: nat): (h: int)
    ensures h == -1 || h >= from
    decreases ms, 0
  {
    if ms == [] then from
    else
      var init, m := ms[..|ms| - 1], ms[|ms| - 1];
      assert m.value < m;
      var pos := LastSlot(ms, lo);
      var h := LayMembers(slots, mem, init, lo, from);
      if h < 0 || pos >= |slots| then -1
      else if init != [] && slots[LastSlot(init, lo)].next != Distance(LastSlot(init, lo), pos) then -1
      else
        var k := LayKey(mem, slots[pos].key, m.key, h);
        if k < 0 then -1 else Lay(slots, mem, slots[pos].data, m.value, pos + 1, k)
  }

  // ----- the mutable document

  /** Of what was there before, only the data of variant `r` differs. */
  ghost predicate OnlyData(r: Ref, slots: seq<Slot>, root: Data, slots': seq<Slot>, root': Data) {
    && |slots| <= |slots'|
    && (r.Child? ==> root' == root)
    && forall i :: 0 <= i < |slots| ==>
         slots'[i] == if r == Child(i) then slots[i].(data := slots'[i].data) else slots[i]
  }

  /** As OnlyData, and the slot `tail` got the new last slot as its successor. */
  ghost predicate Linked?(r: Ref, tail: Link, slots: seq<Slot>, root: Data, slots': seq<Slot>, root': Data) {
    && |slots'| == |slots| + 1
    && (r.Child? ==> root' == root)
    && forall i :: 0 <= i < |slots| ==>
         && slots'[i].key == slots[i].key
         && (r != Child(i) ==> slots'[i].data == slots[i].data)
         && slots'[i].next == if tail == To(i) then Distance(i, |slots|) else slots[i].next
  }

  const FRESH: Slot := Slot(Nothing, Unset, 0)

  class JsonDocument {
    const capacity: nat
    const mem: array<byte>
    var left: nat
    var right: nat
    var slots: seq<Slot>
    var root: Data

    /** The two ends never cross, and everything right of `right` is slots. */
    ghost predicate Valid()
      reads this
    {
      && mem.Length == capacity <= MAX_CAPACITY
      && left <= right
      && right + SLOT * |slots| == capacity
    }

    constructor (capa: nat)
      requires capa <= MAX_CAPACITY
      ensures Valid() && fresh(mem) && capacity == capa
      ensures left == 0 && slots == [] && root == Nothing
    {
      capacity, left, right, slots, root := capa, 0, capa, [], Nothing;
      mem := new byte[capa](_ => 0);
    }

    function Room(): nat
      reads this
    {
      if left <= right then right - left else 0
    }

    ghost predicate Holds(r: Ref)
      reads this
    {
      r.Child? ==> r.i < |slots|
    }

    function Get(r: Ref): Data
      requires r.Child? ==> r.i < |slots|
      reads this
    {
      if r.Root? then root else slots[r.i].data
    }

    method Set(r: Ref, d: Data)
      requires Holds(r)
      modifies `slots, `root
      ensures old(Valid()) ==> Valid()
      ensures |slots| == |old(slots)| && OnlyData(r, old(slots), old(root), slots, root) && Get(r) == d
    {
      if r.Root? {
        root := d;
      } else {
        slots := slots[r.i := slots[r.i].(data := d)];
      }
    }

    /** CollectionData::addSlot on the list held by variant `r`. */
    method AddSlot(r: Ref) returns (slot: Link)
      requires Valid() && Holds(r) && Get(r).List?()
      requires Get(r).tail.To? ==> Get(r).tail.slot < |slots|
      modifies `right, `slots, `root
      ensures Valid()
      ensures old(Room()) < SLOT ==> slot == NoSlot && slots == old(slots) && root == old(root) && right == old(right)
      ensures old(Room()) >= SLOT ==>
                var n, d := |old(slots)|, old(Get(r));
                && slot == To(n) && |slots| == n + 1 && slots[n] == FRESH && Room() == old(Room()) - SLOT
                && Get(r) == (if d.tail.To? then d.(tail := To(n)) else d.(head := To(n), tail := To(n)))
                && Linked?(r, d.tail, old(slots), old(root), slots, root)
    {
      if left + SLOT > right { return NoSlot; }
      right := right - SLOT;
      var n, d := |slots|, Get(r);
      slots := slots + [FRESH];
      if d.tail.To? {
        slots := slots[d.tail.slot := slots[d.tail.slot].(next := Distance(d.tail.slot, n))];
        Set(r, d.(tail := To(n)));
      } else {
        Set(r, d.(head := To(n), tail := To(n)));
      }
      return To(n);
    }

    /** VariantSlot::setOwnedKey. */
    method SetOwnedKey(i: nat, at: nat)
      requires i < |slots|
      modifies `slots
      ensures slots == old(slots)[i := old(slots)[i].(key := OwnedKey(at))]
    {
      slots := slots[i := slots[i].(key := OwnedKey(at))];
    }
  }
}
