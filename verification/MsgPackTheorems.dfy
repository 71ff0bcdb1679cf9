/** Whole MessagePack messages: the round trip, where it ends, and decoding in place. */
module MsgPackTheorems {
  import opened Values
  import opened JsonGrammar
  import opened JsonInPlace
  import opened MsgPackGrammar
  import opened MsgPackRoundTrip
  import opened JsonTheorems
  import JsonRoundTrip

  /** Ownership does not show in the encoding. */
  lemma {:induction false} EncodeOwn(v: Value)
    ensures Encode(Own(v)) == Encode(v)
    decreases v, 1
  {
    if v.Array? || v.Object? {
      EncodeOwnMembers(v.members, v.Object?);
    }
  }

  lemma {:induction false} EncodeOwnMembers(ms: seq<Member>, keyed: bool)
    ensures EncodeMembers(OwnMembers(ms), keyed) == EncodeMembers(ms, keyed)
    decreases ms, 0
  {
    if ms != [] {
      var m := ms[0];
      assert m.value < m;
      EncodeOwn(m.value);
      EncodeOwnMembers(ms[1..], keyed);
      assert OwnMembers(ms)[1..] == OwnMembers(ms[1..]);
    }
  }

  /**
   Decoding consumes exactly the encoding, whatever comes behind it, and gives the document with its strings owned.
   */
  lemma EncodeThenDecode(v: Value, post: bytes, limit: nat, room: nat, cfg: Config)
    requires Encodable(Own(v)) && room >= Cost(Own(v), cfg)
    ensures var t := Encode(v) + post;
            var r := Decode(t, 0, limit, room, cfg);
            if Nesting(Own(v)) <= limit then r == Parsed(Ok, Own(v), |Encode(v)|, room - Cost(Own(v), cfg))
            else r.err == TooDeep
  {
    EncodeOwn(v);
    var t := Encode(v) + post;
    assert JsonRoundTrip.Has(t, 0, Encode(v));
    hide Decode, Encode, Encodable, Cost, Nesting, Own;
    RoundTrip(t, 0, Own(v), limit, room, cfg);
  }

  /**
   Integers survive exactly when they are not negative or have a magnitude from 1 to 2^31: a negative
   zero comes back positive, and for larger magnitudes the encoder writes nothing.
   */
  lemma IntegersThatSurvive(negative: bool, n: UInt, limit: nat, room: nat, cfg: Config)
    ensures var v := Integer(negative, n);
            Decode(Encode(v), 0, limit, room, cfg) == Parsed(Ok, v, |Encode(v)|, room)
            <==> (negative ==> 1 <= n <= 0x8000_0000)
  {
    var v := Integer(negative, n);
    if negative ==> 1 <= n <= 0x8000_0000 {
      assert Own(v) == v && Encodable(v) && Cost(v, cfg) == 0 && Nesting(v) == 0;
      assert Encode(v) + [] == Encode(v);
      EncodeThenDecode(v, [], limit, room, cfg);
    } else if n == 0 {
      assert Encode(v) == [0];
    } else {
      assert Encode(v) == [];
    }
  }

  // ----- what the decoder can produce

  lemma SizeBound(t: bytes, p: nat, c: byte)
    ensures TextSize(t, p, c).n < SIZE_RANGE && ListSize(t, p, c).n < SIZE_RANGE
  {
    hide Unsigned;
    if Available(t, p, 1) { UnsignedBound(t, p, 1, 0x100); }
    if Available(t, p, 2) { UnsignedBound(t, p, 2, 0x1_0000); }
    if Available(t, p, 4) { UnsignedBound(t, p, 4, UINT_RANGE); }
  }

  lemma LeafIsEncodable(t: bytes, p: nat, room: nat, cfg: Config)
    requires p < |t|
    ensures var r := DecodeLeaf(t, p, room, cfg); r.err == Ok ==> Encodable(r.value)
  {
    hide Unsigned;
    if Available(t, p + 1, 1) { UnsignedBound(t, p + 1, 1, 0x100); }
    if Available(t, p + 1, 2) { UnsignedBound(t, p + 1, 2, 0x1_0000); }
    if Available(t, p + 1, 4) { UnsignedBound(t, p + 1, 4, UINT_RANGE); }
  }

  lemma KeyIsEncodable(t: bytes, p: nat, keyed: bool, room: nat, cfg: Config)
    ensures var h := DecodeKey(t, p, keyed, room, cfg); h.err == Ok ==> EncodableKey(h.key, keyed)
  {
    hide TextSize, NulFree;
    if p < |t| {
      SizeBound(t, p + 1, t[p]);
    }
  }

  /** Whatever decodes is a document the format can carry. */
  lemma {:induction false} DecodedIsEncodable(t: bytes, p: nat, limit: nat, room: nat, cfg: Config)
    ensures var r := Decode(t, p, limit, room, cfg); r.err == Ok ==> Encodable(r.value)
    decreases limit, 1
  {
    hide DecodeLeaf, TextSize, ListSize, DecodeMembers, NulFree, CText;
    if p >= |t| { return; }
    SizeBound(t, p + 1, t[p]);
    LeafIsEncodable(t, p, room, cfg);
    var z := ListSize(t, p + 1, t[p]);
    if limit > 0 && z.err == Ok {
      MembersAreEncodable(t, z.pos, z.n, IsObject(t[p]), limit, room, cfg);
    }
  }

  lemma {:induction false} MembersAreEncodable(t: bytes, p: nat, n: nat, keyed: bool, limit: nat, room: nat,
                                               cfg: Config)
    requires limit > 0
    ensures var r := DecodeMembers(t, p, n, keyed, limit, room, cfg);
            r.err == Ok ==> |r.members| == n && EncodableMembers(r.members, keyed)
    decreases limit, 0, n
  {
    hide Decode, DecodeKey, DecodeMembers, Encodable, EncodableKey, EncodableMembers;
    DecodeNone(t, p, keyed, limit, room, cfg);
    NoneEncodable(keyed);
    if n == 0 { return; }
    if room < SLOT {
      NoSlotLeft(t, p, n, keyed, limit, room, cfg);
      return;
    }
    DecodeRound(t, p, n, keyed, limit, room, cfg);
    KeyIsEncodable(t, p, keyed, room - SLOT, cfg);
    var h := DecodeKey(t, p, keyed, room - SLOT, cfg);
    if h.err != Ok { return; }
    DecodedIsEncodable(t, h.pos, limit - 1, h.room, cfg);
    var e := Decode(t, h.pos, limit - 1, h.room, cfg);
    if e.err != Ok { return; }
    MembersAreEncodable(t, e.pos, n - 1, keyed, limit, e.room, cfg);
    var r := DecodeMembers(t, e.pos, n - 1, keyed, limit, e.room, cfg);
    if r.err == Ok {
      OneMoreEncodable(Member(h.key, e.value), r.members, keyed);
    }
  }

  lemma NoneEncodable(keyed: bool)
    ensures EncodableMembers([], keyed)
  {
  }

  lemma OneMoreEncodable(m: Member, ms: seq<Member>, keyed: bool)
    requires EncodableKey(m.key, keyed) && Encodable(m.value) && EncodableMembers(ms, keyed)
    ensures EncodableMembers([m] + ms, keyed)
  {
    hide Encodable, EncodableKey;
    assert ([m] + ms)[1..] == ms;
  }

  /** Decoding, encoding and decoding again gives the first result, in the same pool and nesting limit. */
  lemma Redecode(t: bytes, limit: nat, room: nat, cfg: Config)
    requires Decode(t, 0, limit, room, cfg).err == Ok
    ensures var v := Decode(t, 0, limit, room, cfg).value;
            Decode(Encode(v), 0, limit, room, cfg) == Parsed(Ok, v, |Encode(v)|, room - Cost(v, cfg))
  {
    hide Decode, Encode, Encodable;
    var v := Decode(t, 0, limit, room, cfg).value;
    DecodedIsEncodable(t, 0, limit, room, cfg);
    assert JsonRoundTrip.Has(Encode(v), 0, Encode(v));
    RoundTrip(Encode(v), 0, v, limit, room, cfg);
  }

  /** A document within the limit and the pool comes back if and only if the format can carry it. */
  lemma ComesBackExactly(v: Value, post: bytes, limit: nat, room: nat, cfg: Config)
    requires Nesting(Own(v)) <= limit && room >= Cost(Own(v), cfg)
    ensures Decode(Encode(v) + post, 0, limit, room, cfg) == Parsed(Ok, Own(v), |Encode(v)|, room - Cost(Own(v), cfg))
            <==> Encodable(Own(v))
  {
    hide Decode, Encode, Encodable, Cost, Nesting, Own;
    if Encodable(Own(v)) {
      EncodeThenDecode(v, post, limit, room, cfg);
    } else {
      DecodedIsEncodable(Encode(v) + post, 0, limit, room, cfg);
    }
  }

  // ----- in place

  lemma LeafInPlace(t: bytes, p: nat, room: nat, more: nat, cfg: Config)
    requires cfg.copying && room <= more && p < |t|
    ensures var c, m := DecodeLeaf(t, p, room, cfg), DecodeLeaf(t, p, more, InPlace(cfg));
            m.err == c.err && m.value == c.value && m.pos == c.pos && c.room == room && m.room == more
  {
    hide Unsigned;
  }

  lemma KeyInPlace(t: bytes, p: nat, keyed: bool, room: nat, more: nat, cfg: Config)
    requires cfg.copying && room <= more
    ensures var h, g := DecodeKey(t, p, keyed, room, cfg), DecodeKey(t, p, keyed, more, InPlace(cfg));
            h.err != NoMemory ==> g.err == h.err && g.key == h.key && g.pos == h.pos && g.room >= h.room
  {
    hide TextSize, ReadText;
  }

  lemma StringInPlace(t: bytes, z: Size, room: nat, more: nat, cfg: Config)
    requires cfg.copying && room <= more
    ensures Same(ReadString(t, z, room, cfg), ReadString(t, z, more, InPlace(cfg)))
  {
    hide ReadText;
  }

  /** As for JSON: unless the copying decoder runs out of memory, decoding in place gives the same result. */
  lemma {:induction false} DecodeInPlace(t: bytes, p: nat, limit: nat, room: nat, more: nat, cfg: Config)
    requires cfg.copying && room <= more
    ensures Same(Decode(t, p, limit, room, cfg), Decode(t, p, limit, more, InPlace(cfg)))
    decreases limit, 1
  {
    hide DecodeLeaf, ReadString, TextSize, ListSize, DecodeMembers, IsText, IsArray, IsObject;
    if p >= |t| { return; }
    StringInPlace(t, TextSize(t, p + 1, t[p]), room, more, cfg);
    LeafInPlace(t, p, room, more, cfg);
    var z := ListSize(t, p + 1, t[p]);
    if limit > 0 && z.err == Ok {
      DecodeMembersInPlace(t, z.pos, z.n, IsObject(t[p]), limit, room, more, cfg);
    }
  }

  lemma {:induction false} DecodeMembersInPlace(t: bytes, p: nat, n: nat, keyed: bool, limit: nat, room: nat, more: nat,
                                                cfg: Config)
    requires cfg.copying && room <= more && limit > 0
    ensures SameMembers(DecodeMembers(t, p, n, keyed, limit, room, cfg),
                        DecodeMembers(t, p, n, keyed, limit, more, InPlace(cfg)))
    decreases limit, 0, n
  {
    hide Decode, DecodeKey, DecodeMembers;
    DecodeNone(t, p, keyed, limit, room, cfg);
    DecodeNone(t, p, keyed, limit, more, InPlace(cfg));
    if n == 0 { return; }
    if room < SLOT {
      NoSlotLeft(t, p, n, keyed, limit, room, cfg);
      return;
    }
    DecodeRound(t, p, n, keyed, limit, room, cfg);
    DecodeRound(t, p, n, keyed, limit, more, InPlace(cfg));
    KeyInPlace(t, p, keyed, room - SLOT, more - SLOT, cfg);
    var h, g := DecodeKey(t, p, keyed, room - SLOT, cfg), DecodeKey(t, p, keyed, more - SLOT, InPlace(cfg));
    if h.err != Ok { return; }
    DecodeInPlace(t, h.pos, limit - 1, h.room, g.room, cfg);
    var e, f := Decode(t, h.pos, limit - 1, h.room, cfg), Decode(t, h.pos, limit - 1, g.room, InPlace(cfg));
    if e.err != Ok { return; }
    DecodeMembersInPlace(t, e.pos, n - 1, keyed, limit, e.room, f.room, cfg);
  }
}
