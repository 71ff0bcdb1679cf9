/** Truncated and unsupported messages. */
module MsgPackPrefix {
  import opened Values
  import opened JsonGrammar
  import opened MsgPackGrammar
  import MsgPackRoundTrip

  lemma {:induction false} UnsignedCut(t: bytes, p: nat, w: nat, k: nat)
    requires p + w <= k <= |t|
    ensures Unsigned(t[..k], p, w) == Unsigned(t, p, w)
    decreases w
  {
    if w > 0 {
      UnsignedCut(t, p, w - 1, k);
    }
  }

  lemma NumbersCut(t: bytes, p: nat, k: nat)
    requires k <= |t|
    ensures forall w: nat :: p + w <= k ==> Unsigned(t[..k], p, w) == Unsigned(t, p, w)
  {
    forall w: nat | p + w <= k ensures Unsigned(t[..k], p, w) == Unsigned(t, p, w) {
      UnsignedCut(t, p, w, k);
    }
  }

  lemma LeafCut(t: bytes, p: nat, room: nat, cfg: Config, k: nat)
    requires p < k <= |t| && DecodeLeaf(t, p, room, cfg).err == Ok
    ensures var r, r' := DecodeLeaf(t, p, room, cfg), DecodeLeaf(t[..k], p, room, cfg);
            if r.pos <= k then r' == r else r'.err == IncompleteInput
  {
    NumbersCut(t, p + 1, k);
    assert t[..k][p] == t[p];
    if p + 9 <= k {
      assert t[..k][p + 1..p + 9] == t[p + 1..p + 9];
    }
    hide Unsigned;
  }

  lemma SizeCut(t: bytes, p: nat, c: byte, k: nat)
    requires p <= k <= |t|
    ensures var z, z' := TextSize(t, p, c), TextSize(t[..k], p, c);
            z.err == Ok ==> if z.pos <= k then z' == z else z'.err == IncompleteInput
    ensures var z, z' := ListSize(t, p, c), ListSize(t[..k], p, c);
            z.err == Ok ==> if z.pos <= k then z' == z else z'.err == IncompleteInput
  {
    NumbersCut(t, p, k);
    hide Unsigned;
  }

  lemma TextCut(t: bytes, p: nat, k: nat)
    requires p < k <= |t| && ReadText(t, TextSize(t, p + 1, t[p])).err == Ok
    ensures var z := TextSize(t, p + 1, t[p]);
            var z' := TextSize(t[..k], p + 1, t[p]);
            if z.pos + z.n <= k then z' == z && ReadText(t[..k], z') == ReadText(t, z)
            else ReadText(t[..k], z').err == IncompleteInput
  {
    hide TextSize, ListSize, CText;
    SizeCut(t, p + 1, t[p], k);
    var z := TextSize(t, p + 1, t[p]);
    if z.pos + z.n <= k {
      assert t[..k][z.pos..z.pos + z.n] == t[z.pos..z.pos + z.n];
    }
  }

  lemma KeyCut(t: bytes, p: nat, keyed: bool, room: nat, cfg: Config, k: nat)
    requires p <= k <= |t| && DecodeKey(t, p, keyed, room, cfg).err == Ok
    ensures var h, h' := DecodeKey(t, p, keyed, room, cfg), DecodeKey(t[..k], p, keyed, room, cfg);
            if h.pos <= k then h' == h else h'.err == IncompleteInput
  {
    hide TextSize, ReadText;
    KeyBehind(t, p, keyed, room, cfg);
    if keyed && p < k {
      assert t[..k][p] == t[p];
      TextCut(t, p, k);
      TextEnd(t, TextSize(t, p + 1, t[p]));
    }
  }

  lemma TextEnd(t: bytes, z: Size)
    requires ReadText(t, z).err == Ok
    ensures ReadText(t, z).pos == z.pos + z.n && z.err == Ok
  {
  }

  lemma {:induction false} DecodeCut(t: bytes, p: nat, limit: nat, room: nat, cfg: Config, k: nat)
    requires p <= k <= |t| && Decode(t, p, limit, room, cfg).err == Ok
    ensures var r, r' := Decode(t, p, limit, room, cfg), Decode(t[..k], p, limit, room, cfg);
            if r.pos <= k then r' == r else r'.err == IncompleteInput
    decreases limit, 1
  {
    hide DecodeLeaf, TextSize, ListSize, ReadText, DecodeMembers;
    ValueBehind(t, p, limit, room, cfg);
    if p == k { return; }
    assert t[..k][p] == t[p];
    if IsText(t[p]) {
      TextCut(t, p, k);
      TextEnd(t, TextSize(t, p + 1, t[p]));
      return;
    }
    if IsArray(t[p]) || IsObject(t[p]) {
      SizeCut(t, p + 1, t[p], k);
      var z := ListSize(t, p + 1, t[p]);
      if z.pos <= k {
        MembersCut(t, z.pos, z.n, IsObject(t[p]), limit, room, cfg, k);
      } else {
        MembersBehind(t, z.pos, z.n, IsObject(t[p]), limit, room, cfg);
      }
      return;
    }
    LeafCut(t, p, room, cfg, k);
  }

  lemma {:induction false} MembersBehind(t: bytes, p: nat, n: nat, keyed: bool, limit: nat, room: nat, cfg: Config)
    requires limit > 0 && DecodeMembers(t, p, n, keyed, limit, room, cfg).err == Ok
    ensures p <= DecodeMembers(t, p, n, keyed, limit, room, cfg).pos
    decreases limit, 0, n
  {
    hide Decode, DecodeKey, DecodeMembers;
    MsgPackRoundTrip.DecodeNone(t, p, keyed, limit, room, cfg);
    if n == 0 { return; }
    if room < SLOT {
      MsgPackRoundTrip.NoSlotLeft(t, p, n, keyed, limit, room, cfg);
      return;
    }
    MsgPackRoundTrip.DecodeRound(t, p, n, keyed, limit, room, cfg);
    var h := DecodeKey(t, p, keyed, room - SLOT, cfg);
    KeyBehind(t, p, keyed, room - SLOT, cfg);
    ValueBehind(t, h.pos, limit - 1, h.room, cfg);
    var e := Decode(t, h.pos, limit - 1, h.room, cfg);
    MembersBehind(t, e.pos, n - 1, keyed, limit, e.room, cfg);
  }

  lemma KeyBehind(t: bytes, p: nat, keyed: bool, room: nat, cfg: Config)
    requires DecodeKey(t, p, keyed, room, cfg).err == Ok
    ensures p <= DecodeKey(t, p, keyed, room, cfg).pos && (keyed ==> p < DecodeKey(t, p, keyed, room, cfg).pos)
  {
    hide Unsigned, CText;
  }

  lemma {:induction false} ValueBehind(t: bytes, p: nat, limit: nat, room: nat, cfg: Config)
    requires Decode(t, p, limit, room, cfg).err == Ok
    ensures p < Decode(t, p, limit, room, cfg).pos
    decreases limit, 1
  {
    hide Unsigned, CText, DecodeMembers;
    if !IsText(t[p]) && (IsArray(t[p]) || IsObject(t[p])) {
      var z := ListSize(t, p + 1, t[p]);
      MembersBehind(t, z.pos, z.n, IsObject(t[p]), limit, room, cfg);
    }
  }

  lemma {:induction false} MembersCut(t: bytes, p: nat, n: nat, keyed: bool, limit: nat, room: nat, cfg: Config, k: nat)
    requires limit > 0 && p <= k <= |t| && DecodeMembers(t, p, n, keyed, limit, room, cfg).err == Ok
    ensures var r, r' := DecodeMembers(t, p, n, keyed, limit, room, cfg),
                         DecodeMembers(t[..k], p, n, keyed, limit, room, cfg);
            if r.pos <= k then r' == r else r'.err == IncompleteInput
    decreases limit, 0, n
  {
    hide Decode, DecodeKey, DecodeMembers;
    var u := t[..k];
    MsgPackRoundTrip.DecodeNone(t, p, keyed, limit, room, cfg);
    MsgPackRoundTrip.DecodeNone(u, p, keyed, limit, room, cfg);
    if n == 0 { return; }
    if room < SLOT {
      MsgPackRoundTrip.NoSlotLeft(t, p, n, keyed, limit, room, cfg);
      return;
    }
    MsgPackRoundTrip.DecodeRound(t, p, n, keyed, limit, room, cfg);
    MsgPackRoundTrip.DecodeRound(u, p, n, keyed, limit, room, cfg);
    var h := DecodeKey(t, p, keyed, room - SLOT, cfg);
    var e := Decode(t, h.pos, limit - 1, h.room, cfg);
    ValueBehind(t, h.pos, limit - 1, h.room, cfg);
    MembersBehind(t, e.pos, n - 1, keyed, limit, e.room, cfg);
    KeyCut(t, p, keyed, room - SLOT, cfg, k);
    if h.pos > k { return; }
    DecodeCut(t, h.pos, limit - 1, h.room, cfg, k);
    if e.pos > k { return; }
    MembersCut(t, e.pos, n - 1, keyed, limit, e.room, cfg, k);
  }

  /** A message cut off anywhere before its end is IncompleteInput; behind its end it decodes as before. */
  lemma PrefixIsIncomplete(t: bytes, limit: nat, room: nat, cfg: Config, k: nat)
    requires Decode(t, 0, limit, room, cfg).err == Ok && k <= |t|
    ensures var r, r' := Decode(t, 0, limit, room, cfg), Decode(t[..k], 0, limit, room, cfg);
            if r.pos <= k then r' == r else r'.err == IncompleteInput
  {
    hide Decode;
    DecodeCut(t, 0, limit, room, cfg, k);
  }

  /** The unused tag, binary data, extensions and 64-bit integers are NotSupported. */
  lemma Unsupported(t: bytes, p: nat, limit: nat, room: nat, cfg: Config)
    requires p < |t|
    ensures t[p] == 0xC1 || 0xC4 <= t[p] <= 0xC9 || t[p] == 0xCF || 0xD3 <= t[p] <= 0xD8 ==>
              Decode(t, p, limit, room, cfg).err == NotSupported
  {
    hide Unsigned, DecodeMembers, TextSize, ListSize;
  }

  /** So is an object key that is no string. */
  lemma KeysAreStrings(t: bytes, p: nat, room: nat, cfg: Config)
    requires p < |t| && !(0xA0 <= t[p] < 0xC0) && !(0xD9 <= t[p] <= 0xDB)
    ensures DecodeKey(t, p, true, room, cfg).err == NotSupported
  {
  }
}
