/** MsgPackSerializer as it runs: visitors over a document's links, proved to write its encoding. */
module MsgPackSerializer {
  import opened Values
  import opened MsgPackGrammar
  import opened Document
  import opened DocumentWalk
  import opened TextWriter

  class Serializer {
    /** The document written; serializers only read it. */
    const slots: seq<Slot>
    const mem: bytes
    const writer: StaticStringWriter
    /** Bytes the writer accepted. */
    var written: nat

    ghost predicate Valid()
      reads this, writer, writer.buf
    {
      writer.Valid() && written == writer.p
    }

    constructor (slots: seq<Slot>, mem: bytes, writer: StaticStringWriter)
      requires writer.Valid() && writer.all == []
      ensures Valid() && this.slots == slots && this.mem == mem && this.writer == writer
    {
      this.slots, this.mem, this.writer, written := slots, mem, writer, 0;
    }

    method WriteByte(c: byte)
      requires Valid()
      modifies this, writer, writer.buf
      ensures Valid() && writer.all == old(writer.all) + [c]
    {
      var n := writer.WriteByte(c);
      written := written + n;
    }

    method WriteBytes(s: bytes)
      requires Valid()
      modifies this, writer, writer.buf
      ensures Valid() && writer.all == old(writer.all) + s
    {
      var n := writer.Write(s);
      written := written + n;
    }

    /** writeByte of a tag, then writeInteger of what follows it. */
    method WriteTagged(tag: byte, payload: bytes)
      requires Valid()
      modifies this, writer, writer.buf
      ensures Valid() && writer.all == old(writer.all) + ([tag] + payload)
    {
      hide StaticStringWriter.Valid;
      WriteByte(tag);
      WriteBytes(payload);
    }

    method VisitNegativeInteger(n: UInt)
      requires Valid()
      modifies this, writer, writer.buf
      ensures Valid() && writer.all == old(writer.all) + EncodeNegative(n)
    {
      hide StaticStringWriter.Valid;
      var negated := (UINT_RANGE - n) % UINT_RANGE;
      if n <= 0x20 {
        WriteByte(negated % 0x100);
      } else if n <= 0x80 {
        WriteTagged(0xD0, [negated % 0x100]);
      } else if n <= 0x8000 {
        WriteTagged(0xD1, Be2(negated % 0x1_0000));
      } else if n <= 0x8000_0000 {
        WriteTagged(0xD2, Be4(negated));
      }
    }

    method VisitPositiveInteger(n: UInt)
      requires Valid()
      modifies this, writer, writer.buf
      ensures Valid() && writer.all == old(writer.all) + EncodePositive(n)
    {
      hide StaticStringWriter.Valid;
      if n <= 0x7F {
        WriteByte(n);
      } else if n <= 0xFF {
        WriteTagged(0xCC, [n]);
      } else if n <= 0xFFFF {
        WriteTagged(0xCD, Be2(n));
      } else {
        WriteTagged(0xCE, Be4(n));
      }
    }

    /** visitString on `n` bytes of text. */
    method WriteText(s: bytes)
      requires Valid()
      modifies this, writer, writer.buf
      ensures Valid() && writer.all == old(writer.all) + EncodeText(s)
    {
      hide StaticStringWriter.Valid;
      var n := |s|;
      if n < 0x20 {
        WriteByte(0xA0 + n);
      } else if n < 0x100 {
        WriteTagged(0xD9, [n]);
      } else if n < 0x1_0000 {
        WriteTagged(0xDA, Be2(n));
      } else {
        WriteTagged(0xDB, Be4(n));
      }
      WriteBytes(s);
      assert old(writer.all) + TextHead(n) + s == old(writer.all) + (TextHead(n) + s);
    }

    method VisitKey(k: KeyRef, ghost key: Key)
      requires Valid() && KeyIs(mem, k, key)
      modifies this, writer, writer.buf
      ensures Valid() && writer.all == old(writer.all) + EncodeKey(key)
    {
      hide StaticStringWriter.Valid;
      match k {
        case Unset => WriteByte(0xC0);
        case OwnedKey(at) =>
          var n := Length(mem, at, key.text);
          WriteText(mem[at..at + n]);
        case LinkedKey(s) => WriteText(s);
      }
    }

    /** VariantData::accept. */
    method Accept(d: Data, ghost v: Value)
      requires Valid() && Denotes(slots, mem, d, v)
      modifies this, writer, writer.buf
      ensures Valid() && writer.all == old(writer.all) + Encode(v)
      decreases v, 2
    {
      hide StaticStringWriter.Valid, ListDenotes, EncodeMembers, EncodeText, EncodeNegative, EncodePositive;
      match d {
        case Nothing => WriteByte(0xC0);
        case Bool(b) => WriteByte(if b then 0xC3 else 0xC2);
        case Int(negative, n) => if negative { VisitNegativeInteger(n); } else { VisitPositiveInteger(n); }
        case FloatData(bits) => WriteTagged(0xCA, Be4(bits));
        case Owned(at) =>
          var n := Length(mem, at, v.text);
          WriteText(mem[at..at + n]);
        case Linked(s) => WriteText(s);
        case Arr(head, _) => VisitList(head, v.members, false);
        case Obj(head, _) => VisitList(head, v.members, true);
      }
    }

    /** visitArray and visitObject. */
    method VisitList(head: Link, ghost ms: seq<Member>, keyed: bool)
      requires Valid() && ListDenotes(slots, mem, head, ms)
      modifies this, writer, writer.buf
      ensures Valid() && writer.all == old(writer.all) + Encode(List(ms, keyed))
      decreases ms, 1
    {
      hide StaticStringWriter.Valid, ListDenotes, EncodeMembers;
      var n := SlotSize(slots, mem, head, ms);
      if n < 0x10 {
        WriteByte((if keyed then 0x80 else 0x90) + n);
      } else if n < 0x1_0000 {
        WriteTagged(if keyed then 0xDE else 0xDC, Be2(n));
      } else {
        WriteTagged(if keyed then 0xDF else 0xDD, Be4(n));
      }
      WriteMembers(head, ms, keyed);
      ListEncoding(old(writer.all), ms, keyed);
    }

    lemma ListEncoding(all: bytes, ms: seq<Member>, keyed: bool)
      ensures all + (if keyed then ObjectHead(|ms|) else ArrayHead(|ms|)) + EncodeMembers(ms, keyed) ==
              all + Encode(List(ms, keyed))
    {
      hide ObjectHead, ArrayHead, EncodeMembers;
    }

    lemma MembersOwed(all: bytes, ms: seq<Member>, i: nat, keyed: bool)
      requires i < |ms|
      ensures all + EncodeMembers(ms[i..], keyed) ==
              all + (if keyed then EncodeKey(ms[i].key) else []) + Encode(ms[i].value)
                + EncodeMembers(ms[i + 1..], keyed)
    {
      hide EncodeKey, Encode;
      assert ms[i..][0] == ms[i] && ms[i..][1..] == ms[i + 1..];
      Regroup(all, if keyed then EncodeKey(ms[i].key) else [], Encode(ms[i].value), EncodeMembers(ms[i + 1..], keyed));
    }

    lemma Regroup(all: bytes, a: bytes, b: bytes, c: bytes)
      ensures all + (a + (b + c)) == all + a + b + c
    {
    }

    lemma NoneOwed(all: bytes, ms: seq<Member>, keyed: bool)
      ensures all + EncodeMembers(ms[|ms|..], keyed) == all && ms[0..] == ms && all + [] == all
    {
    }

    method WriteMembers(head: Link, ghost ms: seq<Member>, keyed: bool)
      requires Valid() && ListDenotes(slots, mem, head, ms)
      modifies this, writer, writer.buf
      ensures Valid() && writer.all == old(writer.all) + EncodeMembers(ms, keyed)
      decreases ms, 0
    {
      hide StaticStringWriter.Valid, ListDenotes, Denotes, KeyIs, EncodeMembers, Encode, EncodeKey;
      ghost var i := 0;
      var slot := head;
      NoneOwed(old(writer.all), ms, keyed);
      while slot.To?
        invariant Valid() && i <= |ms| && ListDenotes(slots, mem, slot, ms[i..])
        invariant writer.all + EncodeMembers(ms[i..], keyed) == old(writer.all) + EncodeMembers(ms, keyed)
        decreases |ms| - i
      {
        NextMember(slots, mem, slot, ms, i);
        MembersOwed(writer.all, ms, i, keyed);
        NoneOwed(writer.all, ms, keyed);
        if keyed {
          VisitKey(slots[slot.slot].key, ms[i].key);
        }
        ghost var m := ms[i];
        assert m.value < m;
        Accept(slots[slot.slot].data, m.value);
        slot := Next(slots, slot.slot);
        i := i + 1;
      }
      NextMember(slots, mem, slot, ms, i);
      NoneOwed(writer.all, ms, keyed);
    }
  }
}
