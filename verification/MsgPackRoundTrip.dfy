/** Decoding an encoding gives the document back, for every document the format can carry. */
module MsgPackRoundTrip {
  import opened Values
  import opened JsonGrammar
  import opened MsgPackGrammar
  import opened JsonRoundTrip

  const SIZE_RANGE: nat := 0x1_0000_0000

  /**
   What survives: owned NUL-free strings, negative integers of magnitude 1 to 2^31, and sizes that fit
   size_t. Floats are carried bit by bit.
   */
  ghost predicate Encodable(v: Value)
    decreases v, 1
  {
    match v
    case Null => true
    case Boolean(_) => true
    case Integer(negative, n) => negative ==> 1 <= n <= 0x8000_0000
    case Float(_) => true
    case Str(s, linked) => EncodableText(s) && !linked
    case Array(ms) => |ms| < SIZE_RANGE && EncodableMembers(ms, false)
    case Object(ms) => |ms| < SIZE_RANGE && EncodableMembers(ms, true)
  }

  ghost predicate EncodableText(s: bytes) {
    NulFree(s) && |s| < SIZE_RANGE
  }

  ghost predicate EncodableKey(k: Key, keyed: bool) {
    if keyed then k.Key? && EncodableText(k.text) && !k.linked else k.NoKey?
  }

  ghost predicate EncodableMembers(ms: seq<Member>, keyed: bool)
    decreases ms, 0
  {
    ms != [] ==>
      var m := ms[0];
      assert m.value < m;
      EncodableKey(m.key, keyed) && Encodable(m.value) && EncodableMembers(ms[1..], keyed)
  }

  // ----- numbers and headers

  lemma ReadByte(t: bytes, p: nat, b: byte)
    requires Has(t, p, [b])
    ensures p < |t| && t[p] == b && Unsigned(t, p, 1) == b
  {
    HasAt(t, p, [b], 0);
    assert Unsigned(t, p, 0) == 0;
  }

  lemma ReadBe2(t: bytes, p: nat, n: nat)
    requires Has(t, p, Be2(n)) && n < 0x1_0000
    ensures p + 2 <= |t| && Unsigned(t, p, 2) == n
  {
    HasAt(t, p, Be2(n), 0);
    HasAt(t, p, Be2(n), 1);
    assert Unsigned(t, p, 1) == Unsigned(t, p, 0) * 0x100 + t[p];
  }

  lemma UnsignedFour(t: bytes, p: nat)
    requires p + 4 <= |t|
    ensures Unsigned(t, p, 4) == Unsigned(t, p, 2) * 0x1_0000 + Unsigned(t, p + 2, 2)
  {
    assert Unsigned(t, p, 4) == (Unsigned(t, p, 2) * 0x100 + t[p + 2]) * 0x100 + t[p + 3];
    assert Unsigned(t, p + 2, 2) == (Unsigned(t, p + 2, 0) * 0x100 + t[p + 2]) * 0x100 + t[p + 3];
  }

  lemma ReadBe4(t: bytes, p: nat, n: nat)
    requires Has(t, p, Be4(n)) && n < UINT_RANGE
    ensures p + 4 <= |t| && Unsigned(t, p, 4) == n
  {
    HasSplit(t, p, Be2(n / 0x1_0000), Be2(n % 0x1_0000));
    ReadBe2(t, p, n / 0x1_0000);
    ReadBe2(t, p + 2, n % 0x1_0000);
    UnsignedFour(t, p);
  }

  /** A tag byte followed by a big-endian number of `w` bytes. */
  lemma ReadTagged(t: bytes, p: nat, tag: byte, n: nat, w: nat)
    requires (w == 1 && n < 0x100) || (w == 2 && n < 0x1_0000) || (w == 4 && n < UINT_RANGE)
    requires Has(t, p, [tag] + (if w == 1 then [n] else if w == 2 then Be2(n) else Be4(n)))
    ensures p + 1 + w <= |t| && t[p] == tag && Unsigned(t, p + 1, w) == n
  {
    var rest := if w == 1 then [n] else if w == 2 then Be2(n) else Be4(n);
    HasSplit(t, p, [tag], rest);
    HasAt(t, p, [tag], 0);
    if w == 1 { ReadByte(t, p + 1, n); } else if w == 2 { ReadBe2(t, p + 1, n); } else { ReadBe4(t, p + 1, n); }
  }

  lemma TextHeadRead(t: bytes, p: nat, n: nat)
    requires n < SIZE_RANGE && Has(t, p, TextHead(n))
    ensures p < |t| && IsText(t[p]) && TextSize(t, p + 1, t[p]) == Size(Ok, n, p + |TextHead(n)|)
  {
    hide Has, Unsigned;
    if n < 0x20 {
      ReadByte(t, p, 0xA0 + n);
    } else if n < 0x100 {
      assert [0xD9, n] == [0xD9] + [n];
      ReadTagged(t, p, 0xD9, n, 1);
    } else if n < 0x1_0000 {
      ReadTagged(t, p, 0xDA, n, 2);
    } else {
      ReadTagged(t, p, 0xDB, n, 4);
    }
  }

  lemma ListHeadRead(t: bytes, p: nat, n: nat, keyed: bool)
    requires n < SIZE_RANGE && Has(t, p, if keyed then ObjectHead(n) else ArrayHead(n))
    ensures p < |t| && !IsText(t[p]) && (if keyed then IsObject(t[p]) else IsArray(t[p]) && !IsObject(t[p]))
    ensures ListSize(t, p + 1, t[p]) == Size(Ok, n, p + |if keyed then ObjectHead(n) else ArrayHead(n)|)
  {
    hide Has, Unsigned;
    if n < 0x10 {
      ReadByte(t, p, if keyed then 0x80 + n else 0x90 + n);
    } else if n < 0x1_0000 {
      ReadTagged(t, p, if keyed then 0xDE else 0xDC, n, 2);
    } else {
      ReadTagged(t, p, if keyed then 0xDF else 0xDD, n, 4);
    }
  }

  lemma TextRead(t: bytes, p: nat, s: bytes)
    requires EncodableText(s) && Has(t, p, EncodeText(s))
    ensures p < |t| && IsText(t[p])
    ensures var z := TextSize(t, p + 1, t[p]);
            z.err == Ok && z.n == |s| && ReadText(t, z) == Text(Ok, s, p + |EncodeText(s)|)
  {
    hide TextHead, TextSize, IsText;
    HasSplit(t, p, TextHead(|s|), s);
    TextHeadRead(t, p, |s|);
    var q := p + |TextHead(|s|)|;
    assert t[q..q + |s|] == s;
  }

  // ----- leaves

  lemma PositiveRead(t: bytes, p: nat, n: UInt, room: nat, cfg: Config)
    requires Has(t, p, EncodePositive(n))
    ensures p < |t| && !IsText(t[p]) && !IsArray(t[p]) && !IsObject(t[p])
    ensures DecodeLeaf(t, p, room, cfg) == Parsed(Ok, Integer(false, n), p + |EncodePositive(n)|, room)
  {
    hide Has, Unsigned;
    if n <= 0x7F {
      ReadByte(t, p, n);
    } else if n <= 0xFF {
      assert [0xCC, n] == [0xCC] + [n];
      ReadTagged(t, p, 0xCC, n, 1);
    } else if n <= 0xFFFF {
      ReadTagged(t, p, 0xCD, n, 2);
    } else {
      ReadTagged(t, p, 0xCE, n, 4);
    }
  }

  lemma NegativeRead(t: bytes, p: nat, n: UInt, room: nat, cfg: Config)
    requires 1 <= n <= 0x8000_0000 && Has(t, p, EncodeNegative(n))
    ensures p < |t| && !IsText(t[p]) && !IsArray(t[p]) && !IsObject(t[p])
    ensures DecodeLeaf(t, p, room, cfg) == Parsed(Ok, Integer(true, n), p + |EncodeNegative(n)|, room)
  {
    hide Has, Unsigned;
    var negated := UINT_RANGE - n;
    if n <= 0x20 {
      ReadByte(t, p, negated % 0x100);
    } else if n <= 0x80 {
      assert [0xD0, negated % 0x100] == [0xD0] + [negated % 0x100];
      ReadTagged(t, p, 0xD0, negated % 0x100, 1);
    } else if n <= 0x8000 {
      ReadTagged(t, p, 0xD1, negated % 0x1_0000, 2);
    } else {
      ReadTagged(t, p, 0xD2, negated, 4);
    }
  }

  lemma LeafRead(t: bytes, p: nat, v: Value, limit: nat, room: nat, cfg: Config)
    requires Encodable(v) && Has(t, p, Encode(v)) && !v.Array? && !v.Object? && room >= Cost(v, cfg)
    ensures Decode(t, p, limit, room, cfg) == Parsed(Ok, v, p + |Encode(v)|, room - Cost(v, cfg))
  {
    hide Has, Unsigned, EncodePositive, EncodeNegative, EncodeText, TextSize, ReadText, NulFree;
    match v {
      case Null => ReadByte(t, p, 0xC0);
      case Boolean(b) => ReadByte(t, p, if b then 0xC3 else 0xC2);
      case Integer(negative, n) =>
        if negative { NegativeRead(t, p, n, room, cfg); } else { PositiveRead(t, p, n, room, cfg); }
      case Float(bits) => ReadTagged(t, p, 0xCA, bits, 4);
      case Str(s, _) => TextRead(t, p, s);
    }
  }

  // ----- collections

  ghost predicate Recovered(r: Parsed, v: Value, end: nat, limit: nat, room: nat, cfg: Config) {
    if Nesting(v) <= limit then room >= Cost(v, cfg) && r == Parsed(Ok, v, end, room - Cost(v, cfg))
    else r.err == TooDeep
  }

  ghost predicate RecoveredMembers(r: ParsedMembers, ms: seq<Member>, end: nat, limit: nat, room: nat, cfg: Config) {
    if MemberNesting(ms) < limit then
      room >= MemberCost(ms, cfg) && r == ParsedMembers(Ok, ms, end, room - MemberCost(ms, cfg))
    else r.err == TooDeep
  }

  lemma EncodeList(ms: seq<Member>, keyed: bool)
    ensures Encode(List(ms, keyed)) == (if keyed then ObjectHead(|ms|) else ArrayHead(|ms|)) + EncodeMembers(ms, keyed)
    ensures Nesting(List(ms, keyed)) == 1 + MemberNesting(ms)
    ensures Encodable(List(ms, keyed)) <==> |ms| < SIZE_RANGE && EncodableMembers(ms, keyed)
  {
    hide EncodeMembers, ObjectHead, ArrayHead;
  }

  lemma DecodeList(t: bytes, p: nat, n: nat, keyed: bool, limit: nat, room: nat, cfg: Config)
    requires n < SIZE_RANGE && Has(t, p, if keyed then ObjectHead(n) else ArrayHead(n))
    ensures limit == 0 ==> Decode(t, p, limit, room, cfg).err == TooDeep
    ensures limit > 0 ==>
              var q := p + |if keyed then ObjectHead(n) else ArrayHead(n)|;
              var r := DecodeMembers(t, q, n, keyed, limit, room, cfg);
              Decode(t, p, limit, room, cfg) == Parsed(r.err, List(r.members, keyed), r.pos, r.room)
  {
    hide Has, ListSize, IsText, IsArray, IsObject, ObjectHead, ArrayHead;
    ListHeadRead(t, p, n, keyed);
  }

  lemma KeyRead(t: bytes, p: nat, k: Key, keyed: bool, room: nat, cfg: Config)
    requires EncodableKey(k, keyed) && Has(t, p, if keyed then EncodeKey(k) else [])
    requires cfg.copying ==> room >= KeyBytes(k)
    ensures DecodeKey(t, p, keyed, room, cfg) ==
            Head(Ok, k, p + |if keyed then EncodeKey(k) else []|, if cfg.copying then room - KeyBytes(k) else room)
  {
    hide EncodeText, TextSize, ReadText, EncodableText;
    if keyed {
      TextRead(t, p, k.text);
    }
  }

  lemma SplitMembers(t: bytes, p: nat, ms: seq<Member>, keyed: bool)
    requires ms != [] && Has(t, p, EncodeMembers(ms, keyed))
    ensures var key := if keyed then EncodeKey(ms[0].key) else [];
            && Has(t, p, key) && Has(t, p + |key|, Encode(ms[0].value))
            && Has(t, p + |key| + |Encode(ms[0].value)|, EncodeMembers(ms[1..], keyed))
            && |EncodeMembers(ms, keyed)| == |key| + |Encode(ms[0].value)| + |EncodeMembers(ms[1..], keyed)|
  {
    hide Has, EncodeKey, Encode;
    var key := if keyed then EncodeKey(ms[0].key) else [];
    var value, rest := Encode(ms[0].value), EncodeMembers(ms[1..], keyed);
    HasSplit(t, p, key, value + rest);
    HasSplit(t, p + |key|, value, rest);
  }

  lemma MembersFacts(ms: seq<Member>, keyed: bool, cfg: Config)
    requires ms != []
    ensures ms == [ms[0]] + ms[1..]
    ensures MemberNesting(ms) == Max(Nesting(ms[0].value), MemberNesting(ms[1..]))
    ensures EncodableMembers(ms, keyed) ==>
              EncodableKey(ms[0].key, keyed) && Encodable(ms[0].value) && EncodableMembers(ms[1..], keyed)
    ensures MemberCost(ms, cfg) ==
            SLOT + (if cfg.copying then KeyBytes(ms[0].key) else 0) + Cost(ms[0].value, cfg) + MemberCost(ms[1..], cfg)
  {
    assert ms == [ms[0]] + ms[1..];
    MemberCostFront(ms[0], ms[1..], cfg);
  }

  /** One round of the loop. */
  lemma DecodeRound(t: bytes, p: nat, n: nat, keyed: bool, limit: nat, room: nat, cfg: Config)
    requires limit > 0 && n > 0 && room >= SLOT
    ensures var h, r := DecodeKey(t, p, keyed, room - SLOT, cfg), DecodeMembers(t, p, n, keyed, limit, room, cfg);
            if h.err != Ok then r == ParsedMembers(h.err, [Member(h.key, Null)], h.pos, h.room)
            else
              var e := Decode(t, h.pos, limit - 1, h.room, cfg);
              if e.err != Ok then r == ParsedMembers(e.err, [Member(h.key, e.value)], e.pos, e.room)
              else r == Then([Member(h.key, e.value)], DecodeMembers(t, e.pos, n - 1, keyed, limit, e.room, cfg))
  {
    hide Decode, DecodeKey;
  }

  lemma NoSlotLeft(t: bytes, p: nat, n: nat, keyed: bool, limit: nat, room: nat, cfg: Config)
    requires limit > 0 && n > 0 && room < SLOT
    ensures DecodeMembers(t, p, n, keyed, limit, room, cfg) == ParsedMembers(NoMemory, [], p, room)
  {
  }

  lemma DecodeNone(t: bytes, p: nat, keyed: bool, limit: nat, room: nat, cfg: Config)
    requires limit > 0
    ensures DecodeMembers(t, p, 0, keyed, limit, room, cfg) == ParsedMembers(Ok, [], p, room)
    ensures MemberNesting([]) == 0 && MemberCost([], cfg) == 0 && EncodeMembers([], keyed) == []
  {
  }

  lemma {:induction false} RoundTrip(t: bytes, p: nat, v: Value, limit: nat, room: nat, cfg: Config)
    requires Encodable(v) && Has(t, p, Encode(v)) && room >= Cost(v, cfg)
    ensures Recovered(Decode(t, p, limit, room, cfg), v, p + |Encode(v)|, limit, room, cfg)
    decreases v, 1
  {
    if !v.Array? && !v.Object? {
      LeafNesting(v);
      LeafRead(t, p, v, limit, room, cfg);
    } else {
      ListRoundTrip(t, p, v.members, v.Object?, limit, room, cfg);
    }
  }

  lemma LeafNesting(v: Value)
    requires !v.Array? && !v.Object?
    ensures Nesting(v) == 0
  {
  }

  lemma {:induction false} ListRoundTrip(t: bytes, p: nat, ms: seq<Member>, keyed: bool, limit: nat, room: nat,
                                         cfg: Config)
    requires |ms| < SIZE_RANGE && EncodableMembers(ms, keyed) && Has(t, p, Encode(List(ms, keyed)))
             && room >= Cost(List(ms, keyed), cfg)
    ensures Recovered(Decode(t, p, limit, room, cfg), List(ms, keyed), p + |Encode(List(ms, keyed))|, limit, room, cfg)
    decreases ms, 1
  {
    hide Decode, DecodeMembers, Encode, EncodeMembers, Encodable, EncodableMembers, Has, ObjectHead, ArrayHead,
      MemberNesting, Nesting;
    EncodeList(ms, keyed);
    var head := if keyed then ObjectHead(|ms|) else ArrayHead(|ms|);
    HasSplit(t, p, head, EncodeMembers(ms, keyed));
    DecodeList(t, p, |ms|, keyed, limit, room, cfg);
    if limit > 0 {
      MembersRoundTrip(t, p + |head|, ms, keyed, limit, room, cfg);
    }
  }

  lemma {:induction false} MembersRoundTrip(t: bytes, p: nat, ms: seq<Member>, keyed: bool, limit: nat, room: nat,
                                            cfg: Config)
    requires EncodableMembers(ms, keyed) && Has(t, p, EncodeMembers(ms, keyed)) && limit > 0
             && room >= MemberCost(ms, cfg)
    ensures RecoveredMembers(DecodeMembers(t, p, |ms|, keyed, limit, room, cfg), ms,
                             p + |EncodeMembers(ms, keyed)|, limit, room, cfg)
    decreases ms, 0
  {
    hide Decode, DecodeMembers, DecodeKey, Encode, EncodeMembers, Encodable, EncodableMembers, EncodableKey, Has,
      MemberNesting, Nesting,
      MemberCost, Cost;
    DecodeNone(t, p, keyed, limit, room, cfg);
    if ms == [] { return; }
    var m := ms[0];
    assert m.value < m;
    MembersFacts(ms, keyed, cfg);
    SplitMembers(t, p, ms, keyed);
    KeyRead(t, p, m.key, keyed, room - SLOT, cfg);
    DecodeRound(t, p, |ms|, keyed, limit, room, cfg);
    var h := DecodeKey(t, p, keyed, room - SLOT, cfg);
    RoundTrip(t, h.pos, m.value, limit - 1, h.room, cfg);
    var e := Decode(t, h.pos, limit - 1, h.room, cfg);
    if e.err != Ok { return; }
    MembersRoundTrip(t, e.pos, ms[1..], keyed, limit, e.room, cfg);
  }
}
