/** The decoder accepts exactly the messages of documents, and gives the document of which it read the message. */
module MsgPackLanguage {
  import opened Values
  import opened JsonGrammar
  import opened MsgPackGrammar
  import opened MsgPackText
  import MsgPackRoundTrip
  import JsonRoundTrip

  // ----- numbers and headers

  lemma UnsignedIs(t: bytes, a: nat, w: nat)
    requires (w == 1 || w == 2 || w == 4) && a + w <= |t|
    ensures Unsigned(t, a, w) == BigEndian(t, a, w)
    ensures BigEndian(t, a, w) < if w == 1 then 0x100 else if w == 2 then 0x1_0000 else 0x1_0000_0000
  {
    if w >= 2 {
      assert Unsigned(t, a, 2) == (Unsigned(t, a, 0) * 0x100 + t[a]) * 0x100 + t[a + 1];
    }
    if w == 4 {
      assert Unsigned(t, a, 4) == (Unsigned(t, a, 2) * 0x100 + t[a + 2]) * 0x100 + t[a + 3];
    }
  }

  lemma NumbersAre(t: bytes, a: nat)
    ensures forall w :: (w == 1 || w == 2 || w == 4) && a + w <= |t| ==>
              Unsigned(t, a, w) == BigEndian(t, a, w)
              && BigEndian(t, a, w) < if w == 1 then 0x100 else if w == 2 then 0x1_0000 else 0x1_0000_0000
  {
    forall w | (w == 1 || w == 2 || w == 4) && a + w <= |t|
      ensures Unsigned(t, a, w) == BigEndian(t, a, w)
      ensures BigEndian(t, a, w) < if w == 1 then 0x100 else if w == 2 then 0x1_0000 else 0x1_0000_0000
    {
      UnsignedIs(t, a, w);
    }
  }

  /** The size of a string is read from exactly the four headers. */
  lemma TextHeadIs(t: bytes, a: nat, h: nat, raw: nat)
    ensures a < |t| && IsText(t[a]) && TextSize(t, a + 1, t[a]) == Size(Ok, raw, h) <==> TextHeader(t, a, h, raw)
  {
    NumbersAre(t, a + 1);
    hide Unsigned, BigEndian;
  }

  lemma ListHeadIs(t: bytes, a: nat, h: nat, n: nat, keyed: bool)
    ensures a < |t| && (if keyed then IsObject(t[a]) else IsArray(t[a])) && ListSize(t, a + 1, t[a]) == Size(Ok, n, h)
            <==> ListHeader(t, a, h, n, keyed)
  {
    NumbersAre(t, a + 1);
    hide Unsigned, BigEndian;
  }

  lemma {:induction false} UpToNul(raw: bytes, s: bytes)
    requires |s| <= |raw| && raw[..|s|] == s && NulFree(s) && (|s| < |raw| ==> raw[|s|] == 0)
    ensures CText(raw) == s
  {
    if s != [] {
      assert raw[0] == s[0] && raw[1..][..|s| - 1] == s[1..];
      UpToNul(raw[1..], s[1..]);
      assert [s[0]] + s[1..] == s;
    }
  }

  lemma {:induction false} CTextIs(raw: bytes)
    ensures var s := CText(raw); raw[..|s|] == s && NulFree(s) && (|s| < |raw| ==> raw[|s|] == 0)
  {
    if raw != [] && raw[0] != 0 {
      CTextIs(raw[1..]);
      var s := CText(raw);
      assert s[1..] == CText(raw[1..]);
      assert raw[..|s|] == [raw[0]] + raw[1..][..|s| - 1];
    }
  }

  /** A string is read from exactly its messages. */
  lemma TextIs(t: bytes, a: nat, h: nat, b: nat, s: bytes)
    requires a < |t|
    ensures var z := TextSize(t, a + 1, t[a]);
            z.err == Ok && z.pos == h && ReadText(t, z) == Text(Ok, s, b) <==> TextFrom(t, a, h, b, s)
  {
    hide TextSize, TextHeader, CText;
    var z := TextSize(t, a + 1, t[a]);
    SizeIsText(t, a);
    TextHeadIs(t, a, h, z.n);
    if h <= b { TextHeadIs(t, a, h, b - h); }
    if z.err == Ok && Available(t, z.pos, z.n) {
      var raw := t[z.pos..z.pos + z.n];
      CTextIs(raw);
      if TextFrom(t, a, h, b, s) {
        assert t[h..h + |s|] == raw[..|s|];
        UpToNul(raw, s);
      } else if z.pos == h && CText(raw) == s {
        assert raw[..|s|] == t[h..h + |s|];
      }
    }
  }

  lemma SizeIsText(t: bytes, a: nat)
    requires a < |t|
    ensures TextSize(t, a + 1, t[a]).err == Ok ==> IsText(t[a])
  {
  }

  // ----- scalars

  predicate Scalar(v: Value) {
    !v.Str? && !v.Array? && !v.Object?
  }

  lemma UnsignedForm(t: bytes, a: nat, b: nat, w: nat, v: Value, room: nat)
    requires a < |t| && (w == 1 || w == 2 || w == 4)
    ensures ReadUnsigned(t, a + 1, w, room) == Parsed(Ok, v, b, room)
            <==> v.Integer? && !v.negative && Tagged(t, a, b, t[a], w, v.magnitude)
  {
    if Available(t, a + 1, w) { UnsignedIs(t, a + 1, w); }
    hide Unsigned, BigEndian;
  }

  lemma SignedForm(t: bytes, a: nat, b: nat, w: nat, v: Value, room: nat)
    requires a < |t| && (w == 1 || w == 2 || w == 4)
    ensures ReadSigned(t, a + 1, w, room) == Parsed(Ok, v, b, room)
            <==> v.Integer? && (v.negative ==> v.magnitude > 0)
                 && TaggedSigned(t, a, b, t[a], w, Amount(v.negative, v.magnitude))
  {
    if Available(t, a + 1, w) { UnsignedIs(t, a + 1, w); }
    hide Unsigned, BigEndian;
  }

  /** Integers are read from exactly their nine forms. */
  lemma IntegerIs(t: bytes, a: nat, b: nat, negative: bool, n: UInt, room: nat, cfg: Config)
    requires a < |t| && (negative ==> n > 0)
    ensures DecodeLeaf(t, a, room, cfg) == Parsed(Ok, Integer(negative, n), b, room)
            <==> IntegerAt(t, a, b, Amount(negative, n))
  {
    var v := Integer(negative, n);
    UnsignedForm(t, a, b, 1, v, room);
    UnsignedForm(t, a, b, 2, v, room);
    UnsignedForm(t, a, b, 4, v, room);
    SignedForm(t, a, b, 1, v, room);
    SignedForm(t, a, b, 2, v, room);
    SignedForm(t, a, b, 4, v, room);
    OtherTags(t, a, b, Amount(negative, n));
    hide ReadUnsigned, ReadSigned, ReadFloat, ReadDouble, Tagged, TaggedSigned;
    FloatsAreNot(t, a, room, cfg);
  }

  lemma OtherTags(t: bytes, a: nat, b: nat, x: int)
    requires a < |t|
    ensures x >= 0 ==> (Tagged(t, a, b, 0xCC, 1, x) <==> t[a] == 0xCC && Tagged(t, a, b, t[a], 1, x))
    ensures x >= 0 ==> (Tagged(t, a, b, 0xCD, 2, x) <==> t[a] == 0xCD && Tagged(t, a, b, t[a], 2, x))
    ensures x >= 0 ==> (Tagged(t, a, b, 0xCE, 4, x) <==> t[a] == 0xCE && Tagged(t, a, b, t[a], 4, x))
    ensures TaggedSigned(t, a, b, 0xD0, 1, x) <==> t[a] == 0xD0 && TaggedSigned(t, a, b, t[a], 1, x)
    ensures TaggedSigned(t, a, b, 0xD1, 2, x) <==> t[a] == 0xD1 && TaggedSigned(t, a, b, t[a], 2, x)
    ensures TaggedSigned(t, a, b, 0xD2, 4, x) <==> t[a] == 0xD2 && TaggedSigned(t, a, b, t[a], 4, x)
  {
    hide BigEndian;
  }

  lemma FloatsAreNot(t: bytes, a: nat, room: nat, cfg: Config)
    requires a < |t|
    ensures !ReadFloat(t, a + 1, room).value.Integer? && !ReadDouble(t, a + 1, room, cfg).value.Integer?
  {
    hide Unsigned;
  }

  lemma NeverMinusZero(t: bytes, a: nat, room: nat, cfg: Config)
    requires a < |t|
    ensures var v := DecodeLeaf(t, a, room, cfg).value; v.Integer? && v.negative ==> v.magnitude > 0
  {
    NumbersAre(t, a + 1);
    hide Unsigned, BigEndian;
  }

  lemma IntegerTag(t: bytes, a: nat, b: nat, x: int)
    requires IntegerAt(t, a, b, x)
    ensures a < |t| && !IsText(t[a]) && !IsArray(t[a]) && !IsObject(t[a])
  {
    hide BigEndian;
  }

  lemma FloatIs(t: bytes, a: nat, b: nat, bits: UInt, room: nat, cfg: Config)
    requires a < |t|
    ensures DecodeLeaf(t, a, room, cfg) == Parsed(Ok, Float(bits), b, room) <==> FloatAt(t, a, b, bits, cfg.toFloat)
    ensures FloatAt(t, a, b, bits, cfg.toFloat) ==> !IsText(t[a]) && !IsArray(t[a]) && !IsObject(t[a])
  {
    NumbersAre(t, a + 1);
    hide Unsigned, BigEndian;
  }

  lemma LeafIs(t: bytes, a: nat, b: nat, v: Value, room: nat, cfg: Config)
    requires Scalar(v) && a < |t|
    ensures !IsText(t[a]) && !IsArray(t[a]) && !IsObject(t[a]) && DecodeLeaf(t, a, room, cfg) == Parsed(Ok, v, b, room)
            <==> MessageOf(t, a, b, v, 0, cfg.toFloat)
  {
    hide IntegerAt, FloatAt, ReadUnsigned, ReadSigned, ReadFloat, ReadDouble;
    match v
    case Integer(negative, n) =>
      hide DecodeLeaf;
      NeverMinusZero(t, a, room, cfg);
      if negative ==> n > 0 {
        IntegerIs(t, a, b, negative, n, room, cfg);
        if IntegerAt(t, a, b, Amount(negative, n)) {
          IntegerTag(t, a, b, Amount(negative, n));
        }
      }
    case Float(bits) =>
      hide DecodeLeaf;
      FloatIs(t, a, b, bits, room, cfg);
    case _ =>
      SimpleIs(t, a, b, v, room, cfg);
  }

  lemma SimpleIs(t: bytes, a: nat, b: nat, v: Value, room: nat, cfg: Config)
    requires (v.Null? || v.Boolean?) && a < |t|
    ensures !IsText(t[a]) && !IsArray(t[a]) && !IsObject(t[a]) && DecodeLeaf(t, a, room, cfg) == Parsed(Ok, v, b, room)
            <==> MessageOf(t, a, b, v, 0, cfg.toFloat)
  {
    hide Unsigned;
  }

  lemma LeafIsScalar(t: bytes, a: nat, room: nat, cfg: Config)
    requires a < |t|
    ensures Scalar(DecodeLeaf(t, a, room, cfg).value)
  {
    hide Unsigned;
  }

  // ----- a message of a document decodes to that document

  /** Pool bytes: when strings stay in the input, just the slots. */
  function Need(v: Value, pool: nat, cfg: Config): nat {
    if cfg.copying then pool else SLOT * Slots(v)
  }

  function MemberNeed(ms: seq<Member>, pool: nat, cfg: Config): nat {
    if cfg.copying then pool else SLOT * MemberSlots(ms)
  }

  /** The value itself, or the one thing that is short: nesting levels or pool bytes. */
  ghost predicate Outcome(r: Parsed, v: Value, end: nat, need: nat, limit: nat, room: nat) {
    if Nesting(v) <= limit then if need <= room then r == Parsed(Ok, v, end, room - need) else r.err == NoMemory
    else r.err == TooDeep || (r.err == NoMemory && need > room)
  }

  ghost predicate OutcomeMembers(r: ParsedMembers, ms: seq<Member>, end: nat, need: nat, limit: nat, room: nat) {
    if MemberNesting(ms) < limit then
      if need <= room then r == ParsedMembers(Ok, ms, end, room - need) else r.err == NoMemory
    else r.err == TooDeep || (r.err == NoMemory && need > room)
  }

  lemma StringDecodes(t: bytes, a: nat, b: nat, v: Value, pool: nat, limit: nat, room: nat, cfg: Config)
    requires v.Str? && MessageOf(t, a, b, v, pool, cfg.toFloat)
    ensures Outcome(Decode(t, a, limit, room, cfg), v, b, Need(v, pool, cfg), limit, room)
  {
    hide TextSize, TextFrom;
    var h: nat :| TextFrom(t, a, h, b, v.text) && pool == b - h + 1;
    TextFacts(t, a, h, b, v.text);
    TextIs(t, a, h, b, v.text);
  }

  lemma TextFacts(t: bytes, a: nat, h: nat, b: nat, s: bytes)
    requires TextFrom(t, a, h, b, s)
    ensures a < h <= b <= |t| && IsText(t[a]) && TextSize(t, a + 1, t[a]) == Size(Ok, b - h, h)
  {
    hide TextSize, TextHeader;
    TextHeadIs(t, a, h, b - h);
    HeaderEnds(t, a, h, b - h);
  }

  lemma HeaderEnds(t: bytes, a: nat, h: nat, raw: nat)
    requires TextHeader(t, a, h, raw)
    ensures a < h
  {
    hide BigEndian;
  }

  lemma LeafDecodes(t: bytes, a: nat, b: nat, v: Value, pool: nat, limit: nat, room: nat, cfg: Config)
    requires Scalar(v) && MessageOf(t, a, b, v, pool, cfg.toFloat)
    ensures Outcome(Decode(t, a, limit, room, cfg), v, b, Need(v, pool, cfg), limit, room)
  {
    hide IntegerAt, FloatAt, DecodeLeaf, TextSize, ListSize;
    ScalarFacts(t, a, b, v, pool, cfg.toFloat);
    LeafIs(t, a, b, v, room, cfg);
  }

  lemma ScalarFacts(t: bytes, a: nat, b: nat, v: Value, pool: nat, toFloat: bytes -> UInt)
    requires Scalar(v) && MessageOf(t, a, b, v, pool, toFloat)
    ensures a < b <= |t| && pool == 0 && Nesting(v) == Slots(v) == 0
  {
    hide BigEndian;
  }

  lemma {:induction false} MessageDecodes(t: bytes, a: nat, b: nat, v: Value, pool: nat, limit: nat, room: nat,
                                          cfg: Config)
    requires MessageOf(t, a, b, v, pool, cfg.toFloat)
    ensures Outcome(Decode(t, a, limit, room, cfg), v, b, Need(v, pool, cfg), limit, room)
    decreases v, 1
  {
    hide TextFrom, ListHeader, MembersOf, Decode, DecodeMembers, MemberNesting, MemberSlots;
    if v.Str? {
      StringDecodes(t, a, b, v, pool, limit, room, cfg);
      return;
    }
    if !v.Array? && !v.Object? {
      LeafDecodes(t, a, b, v, pool, limit, room, cfg);
      return;
    }
    var keyed := v.Object?;
    var h: nat :| ListHeader(t, a, h, |v.members|, keyed) && MembersOf(t, h, b, v.members, keyed, pool, cfg.toFloat);
    ListDecodes(t, a, h, |v.members|, keyed, limit, room, cfg);
    if limit > 0 {
      MembersDecode(t, h, b, v.members, keyed, pool, limit, room, cfg);
    }
  }

  lemma ListDecodes(t: bytes, a: nat, h: nat, n: nat, keyed: bool, limit: nat, room: nat, cfg: Config)
    requires ListHeader(t, a, h, n, keyed)
    ensures var d := Decode(t, a, limit, room, cfg);
            if limit == 0 then d.err == TooDeep
            else
              var r := DecodeMembers(t, h, n, keyed, limit, room, cfg);
              d == Parsed(r.err, List(r.members, keyed), r.pos, r.room)
  {
    hide ListHeader, ListSize, DecodeMembers;
    ListHeadIs(t, a, h, n, keyed);
  }

  lemma OneMember(t: bytes, a: nat, b: nat, ms: seq<Member>, keyed: bool, pool: nat, toFloat: bytes -> UInt)
    returns (c: nat, d: nat, x: nat, y: nat)
    requires ms != [] && MembersOf(t, a, b, ms, keyed, pool, toFloat)
    ensures KeyAt(t, a, c, ms[0].key, keyed, x) && MessageOf(t, c, d, ms[0].value, y, toFloat) && pool >= 16 + x + y
    ensures MembersOf(t, d, b, ms[1..], keyed, pool - 16 - x - y, toFloat)
  {
    hide MessageOf, KeyAt;
    c, d, x, y :| KeyAt(t, a, c, ms[0].key, keyed, x) && MessageOf(t, c, d, ms[0].value, y, toFloat)
                  && pool >= 16 + x + y && MembersOf(t, d, b, ms[1..], keyed, pool - 16 - x - y, toFloat);
  }

  lemma KeyDecodes(t: bytes, a: nat, c: nat, key: Key, keyed: bool, x: nat, room: nat, cfg: Config)
    requires KeyAt(t, a, c, key, keyed, x)
    ensures var h, cost := DecodeKey(t, a, keyed, room, cfg), if cfg.copying then x else 0;
            if cost <= room then h == Head(Ok, key, c, room - cost) else h.err == NoMemory
  {
    hide TextSize, TextFrom, ReadText;
    if keyed {
      var h: nat :| TextFrom(t, a, h, c, key.text) && x == c - h + 1;
      TextFacts(t, a, h, c, key.text);
      TextIs(t, a, h, c, key.text);
    }
  }

  lemma {:induction false} MembersDecode(t: bytes, a: nat, b: nat, ms: seq<Member>, keyed: bool, pool: nat, limit: nat,
                                         room: nat, cfg: Config)
    requires limit > 0 && MembersOf(t, a, b, ms, keyed, pool, cfg.toFloat)
    ensures OutcomeMembers(DecodeMembers(t, a, |ms|, keyed, limit, room, cfg), ms, b, MemberNeed(ms, pool, cfg), limit,
                           room)
    decreases ms, 0
  {
    hide MessageOf, MembersOf, KeyAt, Decode, DecodeMembers, DecodeKey, Nesting, MemberNesting, Slots, MemberSlots;
    MsgPackRoundTrip.DecodeNone(t, a, keyed, limit, room, cfg);
    if ms == [] {
      NoMembers(t, a, b, keyed, pool, cfg.toFloat);
      return;
    }
    var m := ms[0];
    assert m.value < m;
    var c, d, x, y := OneMember(t, a, b, ms, keyed, pool, cfg.toFloat);
    Front(ms);
    if room < SLOT {
      MsgPackRoundTrip.NoSlotLeft(t, a, |ms|, keyed, limit, room, cfg);
      return;
    }
    MsgPackRoundTrip.DecodeRound(t, a, |ms|, keyed, limit, room, cfg);
    KeyDecodes(t, a, c, m.key, keyed, x, room - SLOT, cfg);
    var cost := if cfg.copying then x else 0;
    if cost > room - SLOT { return; }
    MessageDecodes(t, c, d, m.value, y, limit - 1, room - SLOT - cost, cfg);
    var e := Decode(t, c, limit - 1, room - SLOT - cost, cfg);
    if e.err != Ok { return; }
    MembersDecode(t, d, b, ms[1..], keyed, pool - 16 - x - y, limit, e.room, cfg);
    assert [m] + ms[1..] == ms;
  }

  lemma NoMembers(t: bytes, a: nat, b: nat, keyed: bool, pool: nat, toFloat: bytes -> UInt)
    requires MembersOf(t, a, b, [], keyed, pool, toFloat)
    ensures a == b <= |t| && pool == 0 && MemberSlots([]) == 0 && MemberNesting([]) == 0
  {
  }

  lemma Front(ms: seq<Member>)
    requires ms != []
    ensures MemberSlots(ms) == 1 + Slots(ms[0].value) + MemberSlots(ms[1..])
    ensures MemberNesting(ms) == Max(Nesting(ms[0].value), MemberNesting(ms[1..]))
  {
    MemberSlotsFront(ms[0], ms[1..]);
    assert [ms[0]] + ms[1..] == ms;
  }

  // ----- what decodes is a message of the document

  lemma {:induction false} DecodedIsMessage(t: bytes, a: nat, limit: nat, room: nat, cfg: Config) returns (pool: nat)
    requires Decode(t, a, limit, room, cfg).err == Ok
    ensures var r := Decode(t, a, limit, room, cfg);
            MessageOf(t, a, r.pos, r.value, pool, cfg.toFloat) && r.room + Need(r.value, pool, cfg) == room
    decreases limit, 1
  {
    hide TextSize, ReadText, ListSize, DecodeLeaf, DecodeMembers, TextFrom, ListHeader, MembersOf, IntegerAt, FloatAt,
      MemberSlots;
    var r := Decode(t, a, limit, room, cfg);
    if IsText(t[a]) {
      var z := TextSize(t, a + 1, t[a]);
      TextIs(t, a, z.pos, r.pos, r.value.text);
      pool := z.n + 1;
      TextBound(t, a);
      return;
    }
    if IsArray(t[a]) || IsObject(t[a]) {
      var z, keyed := ListSize(t, a + 1, t[a]), IsObject(t[a]);
      ListHeadIs(t, a, z.pos, z.n, keyed);
      ListBound(t, a);
      pool := MembersDecoded(t, z.pos, z.n, keyed, limit, room, cfg);
      return;
    }
    LeafIsScalar(t, a, room, cfg);
    LeafIs(t, a, r.pos, r.value, room, cfg);
    LeafRoom(t, a, room, cfg);
    pool := 0;
  }

  lemma TextBound(t: bytes, a: nat)
    requires a < |t| && ReadText(t, TextSize(t, a + 1, t[a])).err == Ok
    ensures var z := TextSize(t, a + 1, t[a]); ReadText(t, z).pos == z.pos + z.n
  {
  }

  lemma ListBound(t: bytes, a: nat)
    requires a < |t|
    ensures var z := ListSize(t, a + 1, t[a]); z.n < 0x1_0000_0000 && (z.err == Ok ==> z.pos <= |t|)
  {
    NumbersAre(t, a + 1);
    hide Unsigned, BigEndian;
  }

  lemma LeafRoom(t: bytes, a: nat, room: nat, cfg: Config)
    requires a < |t|
    ensures DecodeLeaf(t, a, room, cfg).room == room && Slots(DecodeLeaf(t, a, room, cfg).value) == 0
  {
    hide Unsigned;
  }

  lemma {:induction false} MembersDecoded(t: bytes, a: nat, n: nat, keyed: bool, limit: nat, room: nat, cfg: Config)
    returns (pool: nat)
    requires limit > 0 && a <= |t| && DecodeMembers(t, a, n, keyed, limit, room, cfg).err == Ok
    ensures var r := DecodeMembers(t, a, n, keyed, limit, room, cfg);
            && |r.members| == n && MembersOf(t, a, r.pos, r.members, keyed, pool, cfg.toFloat)
            && r.room + MemberNeed(r.members, pool, cfg) == room
    decreases limit, 0, n
  {
    hide MessageOf, MembersOf, Decode, DecodeMembers, DecodeKey, Slots, MemberSlots;
    MsgPackRoundTrip.DecodeNone(t, a, keyed, limit, room, cfg);
    pool := 0;
    if n == 0 {
      NoMembersAt(t, a, keyed, cfg.toFloat);
      return;
    }
    if room < SLOT {
      MsgPackRoundTrip.NoSlotLeft(t, a, n, keyed, limit, room, cfg);
      return;
    }
    MsgPackRoundTrip.DecodeRound(t, a, n, keyed, limit, room, cfg);
    var h := DecodeKey(t, a, keyed, room - SLOT, cfg);
    var x := KeyDecoded(t, a, keyed, room - SLOT, cfg);
    var e := Decode(t, h.pos, limit - 1, h.room, cfg);
    var y := DecodedIsMessage(t, h.pos, limit - 1, h.room, cfg);
    DecodeEnds(t, h.pos, limit - 1, h.room, cfg);
    var more := MembersDecoded(t, e.pos, n - 1, keyed, limit, e.room, cfg);
    var r := DecodeMembers(t, a, n, keyed, limit, room, cfg);
    assert r.members[1..] == DecodeMembers(t, e.pos, n - 1, keyed, limit, e.room, cfg).members;
    pool := 16 + x + y + more;
    Front(r.members);
    MoreMembers(t, a, h.pos, e.pos, r.pos, r.members, keyed, x, y, pool, cfg.toFloat);
  }

  lemma MoreMembers(t: bytes, a: nat, c: nat, d: nat, b: nat, ms: seq<Member>, keyed: bool, x: nat, y: nat, pool: nat,
                    toFloat: bytes -> UInt)
    requires ms != [] && KeyAt(t, a, c, ms[0].key, keyed, x) && MessageOf(t, c, d, ms[0].value, y, toFloat)
    requires pool >= 16 + x + y && MembersOf(t, d, b, ms[1..], keyed, pool - 16 - x - y, toFloat)
    ensures MembersOf(t, a, b, ms, keyed, pool, toFloat)
  {
    hide MessageOf, KeyAt;
  }

  lemma NoMembersAt(t: bytes, a: nat, keyed: bool, toFloat: bytes -> UInt)
    requires a <= |t|
    ensures MembersOf(t, a, a, [], keyed, 0, toFloat) && MemberSlots([]) == 0
  {
  }

  lemma DecodeEnds(t: bytes, a: nat, limit: nat, room: nat, cfg: Config)
    requires Decode(t, a, limit, room, cfg).err == Ok
    ensures Decode(t, a, limit, room, cfg).pos <= |t|
  {
    hide Decode;
  }

  lemma KeyDecoded(t: bytes, a: nat, keyed: bool, room: nat, cfg: Config) returns (x: nat)
    requires a <= |t| && DecodeKey(t, a, keyed, room, cfg).err == Ok
    ensures var h := DecodeKey(t, a, keyed, room, cfg);
            && h.pos <= |t| && KeyAt(t, a, h.pos, h.key, keyed, x) && h.room + (if cfg.copying then x else 0) == room
  {
    hide TextSize, ReadText, TextFrom;
    x := 0;
    if keyed {
      var z := TextSize(t, a + 1, t[a]);
      TextBound(t, a);
      TextIs(t, a, z.pos, z.pos + z.n, ReadText(t, z).text);
      x := z.n + 1;
    }
  }

  // ----- the language of the decoder

  /**
   The decoder returns a document at a position if and only if the input up to there is a message of that document,
   which nests within the limit and fits the pool.
   */
  lemma DecodesExactly(t: bytes, limit: nat, room: nat, cfg: Config, v: Value, e: nat, left: nat)
    ensures Decode(t, 0, limit, room, cfg) == Parsed(Ok, v, e, left)
            <==> Nesting(v) <= limit
                 && exists pool: nat :: MessageOf(t, 0, e, v, pool, cfg.toFloat) && left + Need(v, pool, cfg) == room
  {
    hide Decode, MessageOf, Need, Nesting;
    var r := Decode(t, 0, limit, room, cfg);
    if r == Parsed(Ok, v, e, left) {
      var pool := DecodedIsMessage(t, 0, limit, room, cfg);
      DecodedWithin(t, limit, room, cfg);
    }
    if pool: nat :| MessageOf(t, 0, e, v, pool, cfg.toFloat) && left + Need(v, pool, cfg) == room {
      MessageDecodes(t, 0, e, v, pool, limit, room, cfg);
    }
  }

  lemma DecodedWithin(t: bytes, limit: nat, room: nat, cfg: Config)
    ensures var r := Decode(t, 0, limit, room, cfg); r.err == Ok ==> Nesting(r.value) <= limit
  {
    hide Decode;
  }
}
