/**
 MsgPackDeserializer as it runs, over the same inputs and string storage as the JSON parser. The input
 knows its end.
 */
module MsgPackDeserializer {
  import opened Values
  import opened Sequences
  import opened JsonGrammar
  import opened MsgPackGrammar
  import opened MsgPackRoundTrip
  import opened Document
  import opened DocumentLaws
  import opened TextInput

  class Deserializer {
    const input: Input
    var nestingLimit: nat

    constructor (input: Input, nestingLimit: nat)
      ensures this.input == input && this.nestingLimit == nestingLimit
    {
      this.input, this.nestingLimit := input, nestingLimit;
    }

    ghost function Now(): Snap
      reads input, input.doc
    {
      Snap(input.doc.slots, input.doc.root, input.store, input.Mark())
    }

    ghost predicate Ready()
      reads input, input.doc, input.chars, input.dst
    {
      input.Sound() && input.bounded && input.ptr <= |input.text|
    }

    // ----- bytes and numbers

    method ReadByte() returns (ok: bool, c: byte)
      requires Ready()
      modifies input`ptr
      ensures Ready() && ok == (old(input.ptr) < |input.text|)
      ensures ok ==> c == input.text[old(input.ptr)] && input.ptr == old(input.ptr) + 1
      ensures !ok ==> input.ptr == old(input.ptr)
    {
      if input.ptr == input.end { return false, 0; }
      c := input.Next();
      return true, c;
    }

    /** readInteger: `w` bytes, most significant first. */
    method ReadInteger(w: nat) returns (ok: bool, n: nat)
      requires Ready()
      modifies input`ptr
      ensures Ready() && old(input.ptr) <= input.ptr && ok == Available(input.text, old(input.ptr), w)
      ensures ok ==> n == Unsigned(input.text, old(input.ptr), w) && input.ptr == old(input.ptr) + w
    {
      n := 0;
      var i := 0;
      while i < w
        invariant Ready() && i <= w && input.ptr == old(input.ptr) + i
        invariant n == Unsigned(input.text, old(input.ptr), i)
      {
        var c;
        ok, c := ReadByte();
        if !ok { return; }
        n := n * 0x100 + c;
        i := i + 1;
      }
      ok := true;
    }

    method ReadRaw(w: nat) returns (ok: bool, s: bytes)
      requires Ready()
      modifies input`ptr
      ensures Ready() && ok == Available(input.text, old(input.ptr), w)
      ensures ok ==> s == input.text[old(input.ptr)..old(input.ptr) + w] && input.ptr == old(input.ptr) + w
    {
      s := [];
      while |s| < w
        invariant Ready() && |s| <= w && input.ptr == old(input.ptr) + |s|
        invariant s == input.text[old(input.ptr)..input.ptr]
      {
        var c;
        ok, c := ReadByte();
        if !ok { return; }
        assert input.text[old(input.ptr)..input.ptr] == input.text[old(input.ptr)..input.ptr - 1] + [c];
        s := s + [c];
      }
      ok := true;
    }

    /** setInteger of an unsigned or signed integer of `w` bytes. */
    method ReadNumber(w: nat, signed: bool) returns (err: Code, d: Data)
      requires Ready() && (w == 1 || w == 2 || w == 4)
      modifies input`ptr
      ensures Ready()
      ensures var p := if signed then ReadSigned(input.text, old(input.ptr), w, 0)
                       else ReadUnsigned(input.text, old(input.ptr), w, 0);
              err == p.err && LeafIs([], d, p.value) && (err == Ok ==> input.ptr == p.pos)
    {
      hide Unsigned;
      var ok, n := ReadInteger(w);
      if !ok { return IncompleteInput, Nothing; }
      var range := if w == 1 then 0x100 else if w == 2 then 0x1_0000 else UINT_RANGE;
      UnsignedBound(input.text, old(input.ptr), w, range);
      if signed && n >= range / 2 { return Ok, Int(true, range - n); }
      return Ok, Int(false, n);
    }

    method ReadFloatBits(cfg: Config, double: bool) returns (err: Code, d: Data)
      requires Ready()
      modifies input`ptr
      ensures Ready()
      ensures var p := if double then ReadDouble(input.text, old(input.ptr), 0, cfg)
                       else ReadFloat(input.text, old(input.ptr), 0);
              err == p.err && LeafIs([], d, p.value) && (err == Ok ==> input.ptr == p.pos)
    {
      hide Unsigned;
      if double {
        var ok, s := ReadRaw(8);
        if !ok { return IncompleteInput, Nothing; }
        return Ok, FloatData(cfg.toFloat(s));
      }
      var ok, n := ReadInteger(4);
      if !ok { return IncompleteInput, Nothing; }
      UnsignedBound(input.text, old(input.ptr), 4, UINT_RANGE);
      return Ok, FloatData(n);
    }

    /** After the first byte `c`: the values with no children and no text. */
    method ReadLeaf(c: byte) returns (err: Code, d: Data)
      requires Ready() && input.ptr > 0 && c == input.text[input.ptr - 1]
      modifies input`ptr
      ensures Ready()
      ensures var p := DecodeLeaf(input.text, old(input.ptr) - 1, 0, input.cfg);
              err == p.err && !p.value.Collection?() && !p.value.Str? && LeafIs([], d, p.value)
                && (err == Ok ==> input.ptr == p.pos)
    {
      hide Unsigned;
      if c < 0x80 { return Ok, Int(false, c); }
      if c >= 0xE0 { return Ok, Int(true, 0x100 - c); }
      match c {
        case 0xC0 => return Ok, Nothing;
        case 0xC2 => return Ok, Bool(false);
        case 0xC3 => return Ok, Bool(true);
        case 0xCC => err, d := ReadNumber(1, false);
        case 0xCD => err, d := ReadNumber(2, false);
        case 0xCE => err, d := ReadNumber(4, false);
        case 0xD0 => err, d := ReadNumber(1, true);
        case 0xD1 => err, d := ReadNumber(2, true);
        case 0xD2 => err, d := ReadNumber(4, true);
        case 0xCA => err, d := ReadFloatBits(input.cfg, false);
        case 0xCB => err, d := ReadFloatBits(input.cfg, true);
        case _ => return NotSupported, Nothing;
      }
    }

    // ----- strings

    /** Text of `z.n` bytes at `z.pos`, started with the given room, string mark and bytes. */
    ghost predicate GotText(z: Size, err: Code, at: nat, room: nat, mark: nat, bytes0: bytes)
      reads input, input.doc, input.chars, input.dst
    {
      var s := ReadText(input.text, z);
      && Ready() && mark <= input.Mark() && SameBytes(bytes0, input.store, mark)
      && err == (if s.err != Ok then s.err else if FitsRaw(z, room, input.cfg) then Ok else NoMemory)
      && (err == Ok ==>
            && input.ptr == s.pos && input.doc.Room() == (if input.cfg.copying then room - (z.n + 1) else room)
            && at == mark && TextAt(input.store, at, s.text) && at + |s.text| + 1 <= input.Mark())
    }

    /** A string being filled: in place, the writer is behind the reader by at least the header byte. */
    ghost predicate Writing()
      reads input, input.doc, input.chars, input.dst
    {
      Ready() && input.Building() && input.start <= |input.store| && (!input.cfg.copying ==> input.writePtr < input.ptr)
    }

    method TakeByte() returns (ok: bool)
      requires Writing()
      modifies input`ptr, input`writePtr, input`size, input`fits, input`acc, input`store, input.dst
      ensures Ready() && input.Mark() >= old(input.Mark()) && SameBytes(old(input.store), input.store, input.start)
      ensures ok == (old(input.ptr) < |input.text|)
      ensures ok ==>
                && Writing() && input.ptr == old(input.ptr) + 1
                && input.acc == old(input.acc) + [input.text[old(input.ptr)]]
    {
      hide Input.Intact, SameBytes;
      BytesSelf(input.store, input.start);
      var c;
      ok, c := ReadByte();
      if !ok { return; }
      input.Append(c);
    }

    method FillString(n: nat) returns (ok: bool)
      requires Writing() && input.acc == []
      modifies input`ptr, input`writePtr, input`size, input`fits, input`acc, input`store, input.dst
      ensures Ready() && input.Mark() >= old(input.Mark()) && SameBytes(old(input.store), input.store, input.start)
      ensures ok == Available(input.text, old(input.ptr), n)
      ensures ok ==> Writing() && input.ptr == old(input.ptr) + n && input.acc == input.text[old(input.ptr)..input.ptr]
    {
      hide Input.Intact, SameBytes, Input.Building;
      BytesSelf(input.store, input.start);
      var i := 0;
      while i < n
        invariant Writing() && i <= n && input.ptr == old(input.ptr) + i && input.Mark() >= old(input.Mark())
        invariant input.acc == input.text[old(input.ptr)..input.ptr]
        invariant SameBytes(old(input.store), input.store, input.start)
      {
        ghost var store1 := input.store;
        ok := TakeByte();
        SameBytesTrans(old(input.store), store1, input.store, input.start, input.start);
        if !ok { return; }
        SliceStep(input.text, old(input.ptr), input.ptr - 1);
        i := i + 1;
      }
      ok := true;
    }

    /** Reading stops at the first NUL, wherever the bytes behind it are kept. */
    lemma {:induction false} RawIsText(mem: bytes, at: nat, s: bytes)
      requires RawAt(mem, at, s)
      ensures TextAt(mem, at, CText(s))
      decreases |s|
    {
      CTextIsPrefix(s);
      var r := CText(s);
      assert mem[at..at + |r|] == mem[at..at + |s|][..|r|];
      if |r| < |s| {
        assert mem[at..at + |s|][|r|] == mem[at + |r|];
      }
    }

    lemma {:induction false} CTextIsPrefix(s: bytes)
      ensures CText(s) == s[..|CText(s)|] && (|CText(s)| < |s| ==> s[|CText(s)|] == 0)
      decreases |s|
    {
      if s != [] && s[0] != 0 {
        CTextIsPrefix(s[1..]);
        assert s == [s[0]] + s[1..];
      }
    }

    /** readString, after the size. */
    method TakeString(n: nat) returns (err: Code, at: nat)
      requires Ready() && (!input.cfg.copying ==> input.writePtr < input.ptr)
      modifies input, input.doc`left, input.dst
      ensures GotText(Size(Ok, n, old(input.ptr)), err, at, old(input.doc.Room()), old(input.Mark()), old(input.store))
    {
      hide Input.Intact, SameBytes, RawAt, TextAt, CText, NulFree;
      ghost var bytes0 := input.store;
      input.StartString();
      var ok := FillString(n);
      if !ok { return IncompleteInput, 0; }
      ghost var store1, raw := input.store, input.acc;
      ok, at := input.Complete();
      SameBytesTrans(bytes0, store1, input.store, input.start, input.start);
      if !ok { return NoMemory, 0; }
      RawIsText(input.store, at, raw);
      return Ok, at;
    }

    /** The size of a string announced by `c`. */
    method ReadTextSize(c: byte) returns (err: Code, n: nat)
      requires Ready()
      modifies input`ptr
      ensures Ready() && old(input.ptr) <= input.ptr
      ensures var z := TextSize(input.text, old(input.ptr), c);
              err == z.err && (err == Ok ==> n == z.n && input.ptr == z.pos)
    {
      hide Unsigned;
      if 0xA0 <= c < 0xC0 { return Ok, c - 0xA0; }
      if c != 0xD9 && c != 0xDA && c != 0xDB { return NotSupported, 0; }
      var ok;
      ok, n := ReadInteger(if c == 0xD9 then 1 else if c == 0xDA then 2 else 4);
      return if ok then Ok else IncompleteInput, n;
    }

    /** Size and text of a string whose first byte `c` has been read. */
    method TakeText(c: byte) returns (err: Code, at: nat)
      requires Ready() && (!input.cfg.copying ==> input.writePtr < input.ptr) && input.Mark() <= |input.store|
      modifies input, input.doc`left, input.dst
      ensures GotText(TextSize(input.text, old(input.ptr), c), err, at, old(input.doc.Room()), old(input.Mark()),
              old(input.store))
    {
      hide Input.Intact, SameBytes, TextAt, TextSize, CText;
      BytesSelf(input.store, input.Mark());
      var n;
      err, n := ReadTextSize(c);
      if err != Ok { return err, 0; }
      err, at := TakeString(n);
    }

    // ----- values

    ghost predicate Target(r: Ref)
      reads input, input.doc, input.chars, input.dst
    {
      Ready() && Has(Now(), r) && Pick(Now(), r) == Nothing
    }

    /** The outcome, and the nesting limit it leaves. */
    ghost predicate Done(r: Ref, err: Code, p: Parsed, limit: nat, a: Snap)
      reads this, input, input.doc, input.chars, input.dst
    {
      && err == p.err && nestingLimit == limit && Ready() && Built(r, p.value, a, Now())
      && (err == Ok ==> input.ptr == p.pos && input.doc.Room() == p.room)
    }

    method ParseText(r: Ref, c: byte) returns (err: Code)
      requires Target(r) && (!input.cfg.copying ==> input.writePtr < input.ptr)
      modifies input, input.doc, input.dst
      ensures var z := TextSize(input.text, old(input.ptr), c);
              Done(r, err, MsgPackGrammar.ReadString(input.text, z, old(input.doc.Room()), input.cfg),
                   nestingLimit, old(Now()))
    {
      hide Input.Intact, SameBytes, TextAt, TextSize, CText, Built;
      MarkBound(input);
      var at;
      err, at := TakeText(c);
      ghost var s := MsgPackGrammar.ReadText(input.text, TextSize(input.text, old(input.ptr), c));
      if err != Ok {
        LeafBuilt(r, Null, old(Now()), Now());
        return;
      }
      input.doc.Set(r, Owned(at));
      TextBuilt(r, s.text, old(Now()), Now());
    }

    lemma LeafRoom(t: bytes, p: nat, room: nat, cfg: Config)
      requires p < |t|
      ensures var l, m := DecodeLeaf(t, p, 0, cfg), DecodeLeaf(t, p, room, cfg);
              m == Parsed(l.err, l.value, l.pos, room)
    {
      hide Unsigned;
    }

    method ParseLeaf(r: Ref, c: byte) returns (err: Code)
      requires Target(r) && input.ptr > 0 && c == input.text[input.ptr - 1]
      modifies input`ptr, input.doc`slots, input.doc`root
      ensures Done(r, err,
                   DecodeLeaf(input.text, old(input.ptr) - 1, old(input.doc.Room()), input.cfg),
                   nestingLimit, old(Now()))
    {
      hide Input.Intact, SameBytes, DecodeLeaf, Built;
      MarkBound(input);
      BytesSelf(input.store, input.Mark());
      LeafRoom(input.text, input.ptr - 1, input.doc.Room(), input.cfg);
      var d;
      err, d := ReadLeaf(c);
      input.doc.Set(r, d);
      LeafBuilt(r, DecodeLeaf(input.text, old(input.ptr) - 1, 0, input.cfg).value, old(Now()), Now());
    }

    /** MsgPackDeserializer::parse. */
    method Parse(r: Ref) returns (err: Code)
      requires Target(r)
      modifies this, input, input.doc, input.dst
      ensures var p, limit, room := old(input.ptr), old(nestingLimit), old(input.doc.Room());
              Done(r, err, Decode(input.text, p, limit, room, input.cfg),
                   limit - OpenLevels(input.text, p, limit, room, input.cfg), old(Now()))
      decreases nestingLimit, 2
    {
      hide Input.Intact, SameBytes, TextSize, ListSize, DecodeLeaf, MsgPackGrammar.ReadString, DecodeMembers, Built;
      MarkBound(input);
      BytesSelf(input.store, input.Mark());
      WriterBehind();
      var ok, c := ReadByte();
      if !ok {
        LeafBuilt(r, Null, old(Now()), Now());
        return IncompleteInput;
      }
      if IsText(c) {
        err := ParseText(r, c);
      } else if IsArray(c) || IsObject(c) {
        err := ParseList(r, c);
      } else {
        err := ParseLeaf(r, c);
      }
    }

    lemma WriterBehind()
      requires input.Intact()
      ensures !input.cfg.copying ==> input.writePtr <= input.ptr
    {
    }

    method ReadListSize(c: byte) returns (err: Code, n: nat)
      requires Ready() && (IsArray(c) || IsObject(c))
      modifies input`ptr
      ensures Ready() && old(input.ptr) <= input.ptr
      ensures var z := ListSize(input.text, old(input.ptr), c);
              err == z.err && (err == Ok ==> n == z.n && input.ptr == z.pos)
    {
      hide Unsigned;
      if 0x80 <= c < 0x90 { return Ok, c - 0x80; }
      if 0x90 <= c < 0xA0 { return Ok, c - 0x90; }
      var ok;
      ok, n := ReadInteger(if c == 0xDC || c == 0xDE then 2 else 4);
      return if ok then Ok else IncompleteInput, n;
    }

    /** toArray() or toObject(), the size, and the members. */
    method ParseList(r: Ref, c: byte) returns (err: Code)
      requires Target(r) && (IsArray(c) || IsObject(c)) && input.ptr > 0 && c == input.text[input.ptr - 1]
      modifies this, input, input.doc, input.dst
      ensures var p, limit, room := old(input.ptr) - 1, old(nestingLimit), old(input.doc.Room());
              Done(r, err, Decode(input.text, p, limit, room, input.cfg),
                   limit - OpenLevels(input.text, p, limit, room, input.cfg), old(Now()))
      decreases nestingLimit, 1
    {
      hide Input.Intact, SameBytes, ListSize, Decode, DecodeMembers, Built, Listed, OpenLevels, OpenMembers;
      ListOutcome(input.text, input.ptr - 1, nestingLimit, input.doc.Room(), input.cfg);
      var keyed := IsObject(c);
      OpenList(r, keyed);
      ListedIsBuilt(r, [], !keyed, old(Now()), Now());
      var n;
      err, n := ReadListSize(c);
      if err != Ok { return; }
      if nestingLimit == 0 { return TooDeep; }
      nestingLimit := nestingLimit - 1;
      err := ParseMembers(r, n, keyed, old(Now()));
      if err != Ok { return; }
      nestingLimit := nestingLimit + 1;
    }

    lemma ListOutcome(t: bytes, p: nat, limit: nat, room: nat, cfg: Config)
      requires p < |t| && (IsArray(t[p]) || IsObject(t[p]))
      ensures var z, keyed := ListSize(t, p + 1, t[p]), IsObject(t[p]);
              var d, open := Decode(t, p, limit, room, cfg), OpenLevels(t, p, limit, room, cfg);
              if z.err != Ok then d == Parsed(z.err, List([], keyed), z.pos, room) && open == 0
              else if limit == 0 then d == Parsed(TooDeep, List([], keyed), z.pos, room) && open == 0
              else
                var r := DecodeMembers(t, z.pos, z.n, keyed, limit, room, cfg);
                && d == Parsed(r.err, List(r.members, keyed), r.pos, r.room)
                && open == if r.err == Ok then 0 else 1 + OpenMembers(t, z.pos, z.n, keyed, limit, room, cfg)
    {
      hide ListSize, DecodeMembers, OpenMembers;
    }

    method OpenList(r: Ref, keyed: bool)
      requires Target(r)
      modifies input.doc`slots, input.doc`root
      ensures Ready() && Listed(r, [], !keyed, old(Now()), Now())
    {
      hide Input.Intact, SameBytes;
      MarkBound(input);
      BytesSelf(input.store, input.Mark());
      input.doc.Set(r, if keyed then Obj(NoSlot, NoSlot) else Arr(NoSlot, NoSlot));
    }

    method ParseMembers(r: Ref, n: nat, keyed: bool, ghost a: Snap) returns (err: Code)
      requires Ready() && Listed(r, [], !keyed, a, Now())
      modifies this, input, input.doc, input.dst
      ensures var at, limit, room := old(input.ptr), old(nestingLimit), old(input.doc.Room());
              var p := DecodeMembers(input.text, at, n, keyed, limit + 1, room, input.cfg);
              Done(r, err, Parsed(p.err, List(p.members, keyed), p.pos, p.room),
                   limit - OpenMembers(input.text, at, n, keyed, limit + 1, room, input.cfg), a)
      decreases nestingLimit, 4
    {
      hide Input.Intact, SameBytes, DecodeMembers, Decode, DecodeKey, Built, Listed, OpenMembers, OpenLevels;
      ghost var ms: seq<Member> := [];
      ghost var limit := nestingLimit + 1;
      ghost var goal := DecodeMembers(input.text, input.ptr, n, keyed, limit, input.doc.Room(), input.cfg);
      assert goal == Then([], goal);
      ghost var open := OpenMembers(input.text, input.ptr, n, keyed, limit, input.doc.Room(), input.cfg);
      var left: nat := n;
      while left > 0
        invariant Ready() && nestingLimit == old(nestingLimit) && Listed(r, ms, !keyed, a, Now()) && left <= n
        invariant goal ==
                  Then(ms, DecodeMembers(input.text, input.ptr, left, keyed, limit, input.doc.Room(), input.cfg))
        invariant open == OpenMembers(input.text, input.ptr, left, keyed, limit, input.doc.Room(), input.cfg)
      {
        ghost var room, p0, m := input.doc.Room(), input.ptr, Member(NoKey, Null);
        OpenStep(input.text, p0, left, keyed, limit, room, input.cfg);
        var added;
        err, added, m := ParseMember(r, keyed, ms, a);
        if !added {
          NoSlotLeft(input.text, p0, left, keyed, limit, room, input.cfg);
          assert ms + [] == ms;
          ListedIsBuilt(r, ms, !keyed, a, Now());
          return;
        }
        DecodeRound(input.text, p0, left, keyed, limit, room, input.cfg);
        ms := ms + [m];
        ListedIsBuilt(r, ms, !keyed, a, Now());
        if err != Ok { return; }
        ThenOne(ms[..|ms| - 1], m,
                DecodeMembers(input.text, input.ptr, left - 1, keyed, limit, input.doc.Room(), input.cfg));
        left := left - 1;
      }
      DecodeNone(input.text, input.ptr, keyed, limit, input.doc.Room(), input.cfg);
      OpenNone(input.text, input.ptr, keyed, limit, input.doc.Room(), input.cfg);
      assert ms + [] == ms;
      ListedIsBuilt(r, ms, !keyed, a, Now());
      err := Ok;
    }

    lemma OpenNone(t: bytes, p: nat, keyed: bool, limit: nat, room: nat, cfg: Config)
      requires limit > 0
      ensures OpenMembers(t, p, 0, keyed, limit, room, cfg) == 0
    {
    }

    lemma OpenStep(t: bytes, p: nat, n: nat, keyed: bool, limit: nat, room: nat, cfg: Config)
      requires limit > 0 && n > 0
      ensures OpenMembers(t, p, n, keyed, limit, room, cfg) ==
              if room < SLOT then 0
              else
                var h := DecodeKey(t, p, keyed, room - SLOT, cfg);
                if h.err != Ok then 0
                else
                  var e := Decode(t, h.pos, limit - 1, h.room, cfg);
                  if e.err != Ok then OpenLevels(t, h.pos, limit - 1, h.room, cfg)
                  else OpenMembers(t, e.pos, n - 1, keyed, limit, e.room, cfg)
    {
      hide Decode, DecodeKey, OpenLevels;
    }

    /** One new slot, its key if there is one, and its value. */
    method ParseMember(r: Ref, keyed: bool, ghost ms: seq<Member>, ghost a: Snap)
      returns (err: Code, added: bool, ghost m: Member)
      requires Ready() && Listed(r, ms, !keyed, a, Now())
      modifies this, input, input.doc, input.dst
      ensures Ready() && added == (old(input.doc.Room()) >= SLOT)
      ensures !added ==> err == NoMemory && nestingLimit == old(nestingLimit) && Listed(r, ms, !keyed, a, Now())
      ensures added ==>
                var h := DecodeKey(input.text, old(input.ptr), keyed, old(input.doc.Room()) - SLOT, input.cfg);
                var p := Decode(input.text, h.pos, old(nestingLimit), h.room, input.cfg);
                && err == (if h.err != Ok then h.err else p.err)
                && m == Member(h.key, if h.err != Ok then Null else p.value)
                && Listed(r, ms + [m], !keyed, a, Now())
                && nestingLimit == old(nestingLimit)
                   - (if h.err != Ok then 0 else OpenLevels(input.text, h.pos, old(nestingLimit), h.room, input.cfg))
                && (err == Ok ==> input.ptr == p.pos && input.doc.Room() == p.room)
      decreases nestingLimit, 3
    {
      hide Input.Intact, Built, SameBytes, Listed, Added, Linked?, Decode, DecodeKey, OpenLevels;
      ghost var s := Now();
      ListedTail(r, ms, !keyed, a, s);
      var n;
      err, added, n := BeginMember(r, keyed);
      if !added { return NoMemory, false, Member(NoKey, Null); }
      ghost var h := DecodeKey(input.text, old(input.ptr), keyed, old(input.doc.Room()) - SLOT, input.cfg);
      ghost var s2 := Now();
      MarkBound(input);
      m := Member(h.key, Null);
      if err != Ok {
        NullBuilt(n, s2);
      } else {
        m := Member(h.key, Decode(input.text, h.pos, nestingLimit, h.room, input.cfg).value);
        err := Parse(Child(n));
        MarkBound(input);
      }
      Grow(r, ms, m, !keyed, a, s, s2, Now());
    }

    method BeginMember(r: Ref, keyed: bool) returns (err: Code, added: bool, n: nat)
      requires Ready() && Has(Now(), r) && Pick(Now(), r).List?() && input.Mark() <= |input.store|
      requires Pick(Now(), r).tail.To? ==> Pick(Now(), r).tail.slot < |input.doc.slots|
      modifies input, input.doc, input.dst
      ensures Ready() && added == (old(input.doc.Room()) >= SLOT)
      ensures !added ==> Now() == old(Now())
      ensures added ==>
                var h := DecodeKey(input.text, old(input.ptr), keyed, old(input.doc.Room()) - SLOT, input.cfg);
                && n == old(|input.doc.slots|) && err == h.err && Added(r, h.key, old(Now()), Now())
                && input.doc.Holds(Child(n)) && input.doc.slots[n].data == Nothing
                && (err == Ok ==> input.ptr == h.pos && input.doc.Room() == h.room)
    {
      hide Input.Intact, SameBytes, Added, Linked?, ReadKey;
      ghost var s := Now();
      var slot := input.doc.AddSlot(r);
      added := slot.To?;
      if !added { return NoMemory, false, 0; }
      n := slot.slot;
      ghost var s1 := Now();
      FreshAdded(r, s, s1);
      err := Ok;
      if keyed {
        err := ParseKey(n);
        KeyedAdded(r, ReadKey(input.text, old(input.ptr), old(input.doc.Room()) - SLOT, input.cfg).key, s, s1, Now());
      }
    }

    /** parseKey and setOwnedKey. */
    method ParseKey(n: nat) returns (err: Code)
      requires Ready() && n < |input.doc.slots| && input.doc.slots[n].key == Unset
      modifies input, input.doc, input.dst
      ensures Ready()
      ensures input.doc.root == old(input.doc.root) && |input.doc.slots| == old(|input.doc.slots|)
      ensures forall i :: 0 <= i < |input.doc.slots| && i != n ==> input.doc.slots[i] == old(input.doc.slots)[i]
      ensures input.doc.slots[n].data == old(input.doc.slots[n].data)
              && input.doc.slots[n].next == old(input.doc.slots[n].next)
      ensures old(input.Mark()) <= input.Mark() && SameBytes(old(input.store), input.store, old(input.Mark()))
      ensures var h := ReadKey(input.text, old(input.ptr), old(input.doc.Room()), input.cfg);
              && err == h.err
              && 0 <= LayKey(input.store, input.doc.slots[n].key, h.key, old(input.Mark())) <= input.Mark()
              && (err == Ok ==> input.ptr == h.pos && input.doc.Room() == h.room)
    {
      hide Input.Intact, SameBytes, TextAt, TextSize, CText;
      MarkBound(input);
      BytesSelf(input.store, input.Mark());
      WriterBehind();
      var ok, c := ReadByte();
      if !ok { return IncompleteInput; }
      var at;
      err, at := TakeText(c);
      if err != Ok { return; }
      input.doc.SetOwnedKey(n, at);
    }
  }
}
