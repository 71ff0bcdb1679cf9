/** Following the links of a list and the bytes of a string in a document that is only read. */
module DocumentWalk {
  import opened Values
  import opened Document

  /** What following the list says about its next slot. */
  lemma NextMember(slots: seq<Slot>, mem: bytes, link: Link, ms: seq<Member>, i: nat)
    requires i <= |ms| && ListDenotes(slots, mem, link, ms[i..])
    ensures link.To? <==> i < |ms|
    ensures i < |ms| ==>
              && link.slot < |slots|
              && KeyIs(mem, slots[link.slot].key, ms[i].key)
              && Denotes(slots, mem, slots[link.slot].data, ms[i].value)
              && ListDenotes(slots, mem, Next(slots, link.slot), ms[i + 1..])
  {
    if i < |ms| {
      assert ms[i..][0] == ms[i] && ms[i..][1..] == ms[i + 1..];
    }
  }

  lemma TextByte(mem: bytes, at: nat, s: bytes, i: nat)
    requires TextAt(mem, at, s) && i <= |s|
    ensures mem[at + i] == 0 <==> i == |s|
    ensures i < |s| ==> mem[at + i] == s[i]
  {
    assert i < |s| ==> mem[at..at + |s|][i] == mem[at + i];
  }

  /** strlen. */
  method Length(mem: bytes, at: nat, ghost s: bytes) returns (n: nat)
    requires TextAt(mem, at, s)
    ensures n == |s|
  {
    n := 0;
    TextByte(mem, at, s, 0);
    while mem[at + n] != 0
      invariant n <= |s| && (mem[at + n] == 0 <==> n == |s|)
      decreases |s| - n
    {
      n := n + 1;
      TextByte(mem, at, s, n);
    }
  }

  /** slotSize. */
  method SlotSize(slots: seq<Slot>, ghost mem: bytes, head: Link, ghost ms: seq<Member>) returns (n: nat)
    requires ListDenotes(slots, mem, head, ms)
    ensures n == |ms|
  {
    hide ListDenotes, Denotes, KeyIs;
    n := 0;
    var slot := head;
    assert ms[0..] == ms;
    while slot.To?
      invariant n <= |ms| && ListDenotes(slots, mem, slot, ms[n..])
      decreases |ms| - n
    {
      NextMember(slots, mem, slot, ms, n);
      slot := Next(slots, slot.slot);
      n := n + 1;
    }
    NextMember(slots, mem, slot, ms, n);
  }
}
