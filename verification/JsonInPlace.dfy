/**
 Parsing in place refines parsing with copies: unless the copying parse runs out of memory, the
 in-place parse gives the same error code, the same document and the same position, with at least
 as many pool bytes left.
 */
module JsonInPlace {
  import opened Values
  import opened JsonGrammar

  function InPlace(cfg: Config): Config {
    cfg.(copying := false)
  }

  ghost predicate Same(c: Parsed, m: Parsed) {
    c.err != NoMemory ==> m.err == c.err && m.value == c.value && m.pos == c.pos && m.room >= c.room
  }

  ghost predicate SameMembers(c: ParsedMembers, m: ParsedMembers) {
    c.err != NoMemory ==> m.err == c.err && m.members == c.members && m.pos == c.pos && m.room >= c.room
  }

  lemma {:induction false} ParseInPlace(t: bytes, p: nat, limit: nat, room: nat, more: nat, cfg: Config)
    requires cfg.copying && room <= more
    ensures Same(Parse(t, p, limit, room, cfg), Parse(t, p, limit, more, InPlace(cfg)))
    decreases limit, 2, |t| - p
  {
    var s := Skip(t, p);
    if s.err == Ok && t[s.pos] == LBRACKET && limit > 0 {
      var b := Skip(t, s.pos + 1);
      if b.err == Ok && t[b.pos] != RBRACKET {
        ItemsInPlace(t, b.pos, limit, room, more, cfg);
      }
    } else if s.err == Ok && t[s.pos] == LBRACE && limit > 0 {
      var b := Skip(t, s.pos + 1);
      if b.err == Ok && t[b.pos] != RBRACE {
        MembersInPlace(t, b.pos, limit, room, more, cfg);
      }
    }
  }

  lemma {:induction false} ItemsInPlace(t: bytes, p: nat, limit: nat, room: nat, more: nat, cfg: Config)
    requires cfg.copying && room <= more && limit > 0
    ensures SameMembers(ParseItems(t, p, limit, room, cfg), ParseItems(t, p, limit, more, InPlace(cfg)))
    decreases limit, 0, |t| - p
  {
    hide Parse, ParseItems, AfterItem;
    if room < SLOT {
      NoRoom(t, p, limit, room, cfg);
      return;
    }
    ItemsRound(t, p, limit, room, cfg);
    ItemsRound(t, p, limit, more, InPlace(cfg));
    ParseInPlace(t, p, limit - 1, room - SLOT, more - SLOT, cfg);
    var e := Parse(t, p, limit - 1, room - SLOT, cfg);
    var m := Parse(t, p, limit - 1, more - SLOT, InPlace(cfg));
    if e.err != Ok { return; }
    var s := AfterItem(t, e.pos);
    if s.err != Ok || !s.more { return; }
    ItemsInPlace(t, s.pos, limit, e.room, m.room, cfg);
  }

  lemma NoRoom(t: bytes, p: nat, limit: nat, room: nat, cfg: Config)
    requires room < SLOT && limit > 0
    ensures ParseItems(t, p, limit, room, cfg).err == NoMemory && ParseMembers(t, p, limit, room, cfg).err == NoMemory
  {
  }

  lemma HeadInPlace(t: bytes, p: nat, room: nat, more: nat, cfg: Config)
    requires cfg.copying && room <= more
    ensures var h, g := ParseHead(t, p, room, cfg), ParseHead(t, p, more, InPlace(cfg));
            h.err != NoMemory ==> g.err == h.err && g.key == h.key && g.pos == h.pos && g.room >= h.room
  {
  }

  lemma {:induction false} MembersInPlace(t: bytes, p: nat, limit: nat, room: nat, more: nat, cfg: Config)
    requires cfg.copying && room <= more && limit > 0
    ensures SameMembers(ParseMembers(t, p, limit, room, cfg), ParseMembers(t, p, limit, more, InPlace(cfg)))
    decreases limit, 0, |t| - p
  {
    hide Parse, ParseMembers, AfterMember, ParseHead;
    if room < SLOT {
      NoRoom(t, p, limit, room, cfg);
      return;
    }
    MembersRound(t, p, limit, room, cfg);
    MembersRound(t, p, limit, more, InPlace(cfg));
    var h := ParseHead(t, p, room - SLOT, cfg);
    var g := ParseHead(t, p, more - SLOT, InPlace(cfg));
    HeadInPlace(t, p, room - SLOT, more - SLOT, cfg);
    if h.err != Ok { return; }
    ParseInPlace(t, h.pos, limit - 1, h.room, g.room, cfg);
    var e := Parse(t, h.pos, limit - 1, h.room, cfg);
    var m := Parse(t, h.pos, limit - 1, g.room, InPlace(cfg));
    if e.err != Ok { return; }
    var s := AfterMember(t, e.pos);
    if s.err != Ok || !s.more { return; }
    MembersInPlace(t, s.pos, limit, e.room, m.room, cfg);
  }
}
