/**
 The document model shared by the JSON and MessagePack halves of ArduinoJson: bytes, error codes,
 and the tree a document denotes, with the two measures the library reports about it.
 */
module Values {
  type byte = x: int | 0 <= x < 0x100

  type bytes = seq<byte>

  /** DeserializationError::Code. */
  datatype Code = Ok | IncompleteInput | InvalidInput | NoMemory | NotSupported | TooDeep

  /** sizeof(VariantSlot) on a 32-bit target: 8 bytes of content, flags, next, key. */
  const SLOT: nat := 16

  const UINT_RANGE: nat := 0x1_0000_0000

  /** UInt, and the bit patterns of Float, are 32 bits wide. */
  type UInt = x: int | 0 <= x < 0x1_0000_0000

  /** A C string never holds its own terminator. */
  predicate NulFree(s: bytes) {
    forall i :: 0 <= i < |s| ==> s[i] != 0
  }

  /** A C string ends at its first NUL. */
  function CText(s: bytes): (r: bytes)
    ensures NulFree(r) && |r| <= |s|
    ensures NulFree(s) ==> r == s
  {
    if s == [] || s[0] == 0 then [] else [s[0]] + CText(s[1..])
  }

  /** `linked` tells a string stored by pointer from one copied into the pool. */
  datatype Key = NoKey | Key(text: bytes, linked: bool)

  /** One slot of a collection; array elements have no key, nor does a member whose key failed to parse. */
  datatype Member = Member(key: Key, value: Value)

  datatype Value =
    | Null
    | Boolean(b: bool)
    | Integer(negative: bool, magnitude: UInt)
    | Float(bits: UInt)
    | Str(text: bytes, linked: bool)
    | Array(members: seq<Member>)
    | Object(members: seq<Member>)
  {
    predicate Collection?() { Array? || Object? }
  }

  /** Number of slots taken by the children of a value. */
  function Slots(v: Value): nat
    decreases v, 1
  {
    if v.Collection?() then MemberSlots(v.members) else 0
  }

  function MemberSlots(ms: seq<Member>): nat
    decreases ms, 0
  {
    if ms == [] then 0
    else
      var m := ms[|ms| - 1];
      assert m.value < m;
      MemberSlots(ms[..|ms| - 1]) + 1 + Slots(m.value)
  }

  /** Pool bytes of a key; nothing for a linked or missing one. */
  function KeyBytes(k: Key): nat {
    if k.Key? && !k.linked then |k.text| + 1 else 0
  }

  /** memoryUsage(): slots plus owned strings with their terminators. */
  function Usage(v: Value): nat
    decreases v, 1
  {
    if v.Collection?() then MemberUsage(v.members)
    else if v.Str? && !v.linked then |v.text| + 1
    else 0
  }

  function MemberUsage(ms: seq<Member>): nat
    decreases ms, 0
  {
    if ms == [] then 0
    else
      var m := ms[0];
      assert m.value < m;
      SLOT + KeyBytes(m.key) + Usage(m.value) + MemberUsage(ms[1..])
  }

  function Max(a: nat, b: nat): nat {
    if a < b then b else a
  }

  /** nesting(): 0 for a scalar, otherwise one more than the deepest child. */
  function Nesting(v: Value): nat
    decreases v, 1
  {
    if v.Collection?() then 1 + MemberNesting(v.members) else 0
  }

  function MemberNesting(ms: seq<Member>): nat
    decreases ms, 0
  {
    if ms == [] then 0
    else
      var m := ms[0];
      assert m.value < m;
      Max(Nesting(m.value), MemberNesting(ms[1..]))
  }

  lemma {:induction false} MemberSlotsFront(m: Member, ms: seq<Member>)
    ensures MemberSlots([m] + ms) == 1 + Slots(m.value) + MemberSlots(ms)
  {
    var all := [m] + ms;
    if ms == [] {
      assert all[..0] == [];
    } else {
      assert all[..|all| - 1] == [m] + ms[..|ms| - 1];
      MemberSlotsFront(m, ms[..|ms| - 1]);
    }
  }
}
