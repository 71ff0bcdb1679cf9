/** The round trip on whole texts, and what it says about parsing, printing and parsing again. */
module JsonTheorems {
  import opened Values
  import opened JsonGrammar
  import opened JsonPrinter
  import opened JsonRoundTrip
  import opened JsonInPlace

  /** A document read back owns all its strings. */
  function Own(v: Value): Value
    decreases v, 1
  {
    match v
    case Str(s, _) => Str(s, false)
    case Array(ms) => Array(OwnMembers(ms))
    case Object(ms) => Object(OwnMembers(ms))
    case _ => v
  }

  function OwnKey(k: Key): Key {
    if k.Key? then Key(k.text, false) else NoKey
  }

  function OwnMembers(ms: seq<Member>): (r: seq<Member>)
    ensures |r| == |ms|
    decreases ms, 0
  {
    if ms == [] then []
    else
      var m := ms[0];
      assert m.value < m;
      [Member(OwnKey(m.key), Own(m.value))] + OwnMembers(ms[1..])
  }

  /** Ownership does not show in the text. */
  lemma {:induction false} ShowOwn(pr: Printer, v: Value, n: nat)
    ensures Show(pr, Own(v), n) == Show(pr, v, n)
    decreases v, 1
  {
    if v.Array? || v.Object? {
      ShowOwnMembers(pr, v.members, Deeper(n), v.Object?);
    }
  }

  lemma {:induction false} ShowOwnMembers(pr: Printer, ms: seq<Member>, n: nat, keyed: bool)
    ensures ShowMembers(pr, OwnMembers(ms), n, keyed) == ShowMembers(pr, ms, n, keyed)
    decreases ms, 0
  {
    if ms != [] {
      var m := ms[0];
      assert m.value < m;
      ShowOwn(pr, m.value, n);
      ShowOwnMembers(pr, ms[1..], n, keyed);
      assert OwnMembers(ms)[1..] == OwnMembers(ms[1..]);
    }
  }

  /**
   The round trip. A document whose strings may be linked or owned, written by either serializer and
   followed by any text that cannot lengthen a number or word, is read back with its strings owned,
   members in order and duplicate keys kept; it is TooDeep exactly when it nests beyond the limit.
   */
  lemma WriteThenParse(v: Value, post: bytes, limit: nat, room: nat, pr: Printer, cfg: Config)
    requires Plain(Own(v)) && room >= Cost(Own(v), cfg)
    requires v.Str? || v.Array? || v.Object? || post == [] || !IsWord(post[0])
    ensures var text := Show(pr, v, 0);
            var r := Parse(text + post, 0, limit, room, cfg);
            if Nesting(Own(v)) <= limit then r == Parsed(Ok, Own(v), |text|, room - Cost(Own(v), cfg))
            else r.err == TooDeep
  {
    ShowOwn(pr, v, 0);
    var text := Show(pr, v, 0);
    assert Has(text + post, 0, text);
    assert At(text + post, |text|) == At(post, 0);
    hide Show, Parse, Plain, Cost, Nesting, Has;
    RoundTrip(text + post, 0, Own(v), 0, limit, room, pr, cfg);
  }

  // ----- what the parser can produce

  ghost predicate NoFloat(v: Value)
    decreases v, 1
  {
    !v.Float? && ((v.Array? || v.Object?) ==> NoFloatMembers(v.members))
  }

  ghost predicate NoFloatMembers(ms: seq<Member>)
    decreases ms, 0
  {
    ms != [] ==>
      var m := ms[0];
      assert m.value < m;
      NoFloat(m.value) && NoFloatMembers(ms[1..])
  }

  lemma LeafPlain(s: bytes, cfg: Config)
    ensures var leaf := ParseToken(s, cfg); leaf.value.Float? || Plain(leaf.value)
  {
  }

  lemma PlainFront(m: Member, ms: seq<Member>, keyed: bool)
    ensures NoFloatMembers([m] + ms) <==> NoFloat(m.value) && NoFloatMembers(ms)
    ensures PlainMembers([m] + ms, keyed) <==> PlainKey(m.key, keyed) && Plain(m.value) && PlainMembers(ms, keyed)
  {
    assert ([m] + ms)[1..] == ms;
  }

  /** Whatever parses without producing a float is a document the text format can carry. */
  lemma {:induction false} ParsedIsPlain(t: bytes, p: nat, limit: nat, room: nat, cfg: Config)
    ensures var r := Parse(t, p, limit, room, cfg); r.err == Ok && NoFloat(r.value) ==> Plain(r.value)
    decreases limit, 2, |t| - p
  {
    hide ParseItems, ParseMembers, ParseToken, Skip;
    var s := Skip(t, p);
    if s.err != Ok { return; }
    if t[s.pos] == LBRACKET {
      if limit == 0 || Skip(t, s.pos + 1).err != Ok { return; }
      ItemsArePlain(t, Skip(t, s.pos + 1).pos, limit, room, cfg);
    } else if t[s.pos] == LBRACE {
      if limit == 0 || Skip(t, s.pos + 1).err != Ok { return; }
      MembersArePlain(t, Skip(t, s.pos + 1).pos, limit, room, cfg);
    } else {
      LeafPlain(t[s.pos..TokenEnd(t, s.pos)], cfg);
    }
  }

  lemma {:induction false} ItemsArePlain(t: bytes, p: nat, limit: nat, room: nat, cfg: Config)
    requires limit > 0
    ensures var r := ParseItems(t, p, limit, room, cfg);
            r.err == Ok && NoFloatMembers(r.members) ==> PlainMembers(r.members, false)
    decreases limit, 0, |t| - p
  {
    hide Parse, ParseItems, AfterItem, Plain, PlainMembers, NoFloat, NoFloatMembers;
    if room < SLOT {
      NoRoom(t, p, limit, room, cfg);
      return;
    }
    ItemsRound(t, p, limit, room, cfg);
    ParsedIsPlain(t, p, limit - 1, room - SLOT, cfg);
    var e := Parse(t, p, limit - 1, room - SLOT, cfg);
    if e.err != Ok { return; }
    PlainOne(Item(e.value), false);
    var s := AfterItem(t, e.pos);
    if s.err != Ok || !s.more { return; }
    ItemsArePlain(t, s.pos, limit, e.room, cfg);
    PlainFront(Item(e.value), ParseItems(t, s.pos, limit, e.room, cfg).members, false);
  }

  lemma PlainOne(m: Member, keyed: bool)
    ensures NoFloatMembers([m]) ==> NoFloat(m.value)
    ensures PlainKey(m.key, keyed) && Plain(m.value) ==> PlainMembers([m], keyed)
  {
    assert [m] == [m] + [];
    PlainFront(m, [], keyed);
  }

  lemma HeadIsPlain(t: bytes, p: nat, room: nat, cfg: Config)
    ensures var h := ParseHead(t, p, room, cfg); h.err == Ok ==> PlainKey(h.key, true)
  {
  }

  lemma {:induction false} MembersArePlain(t: bytes, p: nat, limit: nat, room: nat, cfg: Config)
    requires limit > 0
    ensures var r := ParseMembers(t, p, limit, room, cfg);
            r.err == Ok && NoFloatMembers(r.members) ==> PlainMembers(r.members, true)
    decreases limit, 0, |t| - p
  {
    hide Parse, ParseMembers, ParseHead, AfterMember, Plain, PlainMembers, NoFloat, NoFloatMembers;
    if room < SLOT {
      NoRoom(t, p, limit, room, cfg);
      return;
    }
    MembersRound(t, p, limit, room, cfg);
    HeadIsPlain(t, p, room - SLOT, cfg);
    var h := ParseHead(t, p, room - SLOT, cfg);
    if h.err != Ok { return; }
    ParsedIsPlain(t, h.pos, limit - 1, h.room, cfg);
    var e := Parse(t, h.pos, limit - 1, h.room, cfg);
    if e.err != Ok { return; }
    var m := Member(h.key, e.value);
    PlainOne(m, true);
    var s := AfterMember(t, e.pos);
    if s.err != Ok || !s.more { return; }
    MembersArePlain(t, s.pos, limit, e.room, cfg);
    PlainFront(m, ParseMembers(t, s.pos, limit, e.room, cfg).members, true);
  }

  /**
   Comments, unquoted keys, single quotes and spacing disappear in one step: printing what was parsed
   and parsing that gives the same document, in the same pool and nesting limit.
   */
  lemma Reparse(t: bytes, limit: nat, room: nat, pr: Printer, cfg: Config)
    requires Parse(t, 0, limit, room, cfg).err == Ok && NoFloat(Parse(t, 0, limit, room, cfg).value)
    ensures var r := Parse(t, 0, limit, room, cfg);
            var text := Show(pr, r.value, 0);
            Parse(text, 0, limit, room, cfg) == Parsed(Ok, r.value, |text|, r.room)
  {
    hide Parse, Plain, NoFloat, Show, Cost, Nesting;
    var r := Parse(t, 0, limit, room, cfg);
    ParsedIsPlain(t, 0, limit, room, cfg);
    var text := Show(pr, r.value, 0);
    assert Has(text, 0, text);
    RoundTrip(text, 0, r.value, 0, limit, room, pr, cfg);
  }

  /** A document without floats, within the limit and the pool, comes back if and only if the text can carry it. */
  lemma ComesBackExactly(v: Value, post: bytes, limit: nat, room: nat, pr: Printer, cfg: Config)
    requires NoFloat(Own(v)) && Nesting(Own(v)) <= limit && room >= Cost(Own(v), cfg)
    requires v.Str? || v.Array? || v.Object? || post == [] || !IsWord(post[0])
    ensures var text := Show(pr, v, 0);
            Parse(text + post, 0, limit, room, cfg) == Parsed(Ok, Own(v), |text|, room - Cost(Own(v), cfg))
            <==> Plain(Own(v))
  {
    hide Parse, Plain, NoFloat, Show, Cost, Nesting, Own;
    if Plain(Own(v)) {
      WriteThenParse(v, post, limit, room, pr, cfg);
    } else {
      ParsedIsPlain(Show(pr, v, 0) + post, 0, limit, room, cfg);
    }
  }
}
