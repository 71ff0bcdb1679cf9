/**
 JsonDeserializer as it runs: recursive descent over an input, filling variants and linking slots as it
 goes. Every method is proved against the functions of JsonGrammar, in both string modes.
 */
module JsonDeserializer {
  import opened Values
  import opened JsonGrammar
  import opened Document
  import opened DocumentLaws
  import opened TextInput

  /** The digit loop and the classification of parseNumber. */
  method ReadNumber(s: bytes) returns (n: Number)
    ensures n == ParseNumber(s)
  {
    var negative, i := false, 0;
    if |s| > 0 && s[0] == MINUS {
      negative, i := true, 1;
    } else if |s| > 0 && s[0] == PLUS {
      i := 1;
    }
    if i == |s| { return NotANumber; }
    if s[i] == 110 || s[i] == 78 || s[i] == 105 || s[i] == 73 { return Real; }
    if !IsDigit(s[i]) && s[i] != DOT { return NotANumber; }
    ghost var goal := ReadDigits(s[i..], 0);
    var mantissa: UInt := 0;
    while i < |s| && IsDigit(s[i])
      invariant i <= |s| && ReadDigits(s[i..], mantissa) == goal
    {
      assert s[i..][1..] == s[i + 1..];
      var digit := s[i] - 48;
      if mantissa > (UINT_RANGE - 1) / 10 { return Real; }
      mantissa := mantissa * 10;
      if mantissa > UINT_RANGE - 1 - digit { return Real; }
      mantissa := mantissa + digit;
      i := i + 1;
    }
    return if i == |s| then Whole(negative, mantissa) else Real;
  }

  /** The keywords and numbers of parseNumericValue. */
  method ReadLeaf(s: bytes, cfg: Config) returns (err: Code, d: Data)
    ensures var leaf := ParseToken(s, cfg); err == leaf.err && LeafIs([], d, leaf.value) && !leaf.value.Str?
  {
    if |s| > 0 && s[0] == 116 { return if |s| == 4 then Ok else IncompleteInput, Bool(true); }
    if |s| > 0 && s[0] == 102 { return if |s| == 5 then Ok else IncompleteInput, Bool(false); }
    if |s| > 0 && s[0] == 110 { return if |s| == 4 then Ok else IncompleteInput, Nothing; }
    var n := ReadNumber(s);
    match n {
      case NotANumber => return InvalidInput, Nothing;
      case Whole(negative, magnitude) => return Ok, Int(negative, magnitude);
      case Real => return Ok, FloatData(cfg.toFloat(s));
    }
  }

  class Deserializer {
    const input: Input
    var nestingLimit: nat

    constructor (input: Input, nestingLimit: nat)
      ensures this.input == input && this.nestingLimit == nestingLimit
    {
      this.input, this.nestingLimit := input, nestingLimit;
    }

    ghost function Now(): Snap
      reads input, input.doc
    {
      Snap(input.doc.slots, input.doc.root, input.store, input.Mark())
    }

    /** A null variant about to be parsed into. */
    ghost predicate Target(r: Ref)
      reads input, input.doc, input.chars, input.dst
    {
      input.Ready() && Has(Now(), r) && Pick(Now(), r) == Nothing
    }

    /** The outcome: the specified error, the limit restored, and the specified document, whole or partial. */
    ghost predicate Done(r: Ref, err: Code, p: Parsed, limit: nat, a: Snap)
      reads this, input, input.doc, input.chars, input.dst
    {
      && err == p.err && nestingLimit == limit
      && input.Valid() && Built(r, p.value, a, Now())
      && (err == Ok ==> input.Ready() && input.pos == p.pos && input.doc.Room() == p.room)
    }

    /** parseNumericValue. */
    method ParseNumericValue(r: Ref) returns (err: Code)
      requires Target(r) && input.pos < |input.text| && !IsQuote(input.text[input.pos])
      modifies input`current, input`loaded, input`pos, input`ptr, input.doc`slots, input.doc`root
      ensures Done(r, err,
                   ParseScalar(input.text, old(input.pos), old(input.doc.Room()), input.cfg),
                   nestingLimit, old(Now()))
    {
      hide ParseToken, TokenEnd, SameBytes, Input.Intact, Lay, Built;
      MarkBound(input);
      BytesSelf(input.store, input.Mark());
      var s := input.ReadToken();
      var d;
      err, d := ReadLeaf(s, input.cfg);
      input.doc.Set(r, d);
      LeafBuilt(r, ParseToken(s, input.cfg).value, old(Now()), Now());
    }

    method ParseStringValue(r: Ref) returns (err: Code)
      requires Target(r) && input.pos < |input.text| && IsQuote(input.text[input.pos])
      modifies input, input.doc, input.dst
      ensures Done(r, err,
                   ParseScalar(input.text, old(input.pos), old(input.doc.Room()), input.cfg),
                   nestingLimit, old(Now()))
    {
      hide Quoted, SameBytes, TextAt, Input.Intact, Lay, Built, TokenEnd;
      var at;
      err, at := input.ParseQuotedString();
      ghost var s := Quoted(input.text, old(input.pos) + 1, At(input.text, old(input.pos)));
      if err != Ok {
        LeafBuilt(r, Null, old(Now()), Now());
        return;
      }
      input.doc.Set(r, Owned(at));
      TextBuilt(r, s.text, old(Now()), Now());
    }

    method ParseValue(r: Ref) returns (err: Code)
      requires Target(r) && input.pos < |input.text|
      modifies input, input.doc, input.dst
      ensures Done(r, err,
                   ParseScalar(input.text, old(input.pos), old(input.doc.Room()), input.cfg),
                   nestingLimit, old(Now()))
    {
      hide ParseScalar, Input.Intact, Built;
      var c := input.Current();
      if IsQuote(c) {
        err := ParseStringValue(r);
      } else {
        err := ParseNumericValue(r);
      }
    }

    // ----- collections

    /** JsonDeserializer::parse. */
    method Parse(r: Ref) returns (err: Code)
      requires Target(r)
      modifies this, input, input.doc, input.dst
      ensures var pos, limit, room := old(input.pos), old(nestingLimit), old(input.doc.Room());
              Done(r, err, JsonGrammar.Parse(input.text, pos, limit, room, input.cfg), limit, old(Now()))
      decreases nestingLimit, 4
    {
      hide ParseScalar, JsonGrammar.ParseArray, JsonGrammar.ParseObject, Input.Intact, Built, SameBytes, Skip;
      MarkBound(input);
      BytesSelf(input.store, input.Mark());
      err := input.SkipSpacesAndComments();
      if err != Ok {
        LeafBuilt(r, Null, old(Now()), Now());
        return;
      }
      var c := input.Current();
      if c == LBRACKET {
        err := OpenArray(r);
      } else if c == LBRACE {
        err := OpenObject(r);
      } else {
        err := ParseValue(r);
      }
    }

    /** variant.toArray(), then parseArray. */
    method OpenArray(r: Ref) returns (err: Code)
      requires Target(r) && input.pos < |input.text| && input.text[input.pos] == LBRACKET
      modifies this, input, input.doc, input.dst
      ensures var pos, limit, room := old(input.pos), old(nestingLimit), old(input.doc.Room());
              Done(r, err, JsonGrammar.ParseArray(input.text, pos, limit, room, input.cfg), limit, old(Now()))
      decreases nestingLimit, 3
    {
      hide JsonGrammar.ParseArray, Input.Intact, Built, SameBytes;
      MarkBound(input);
      BytesSelf(input.store, input.Mark());
      input.doc.Set(r, Arr(NoSlot, NoSlot));
      err := ParseArray(r, old(Now()));
    }

    method OpenObject(r: Ref) returns (err: Code)
      requires Target(r) && input.pos < |input.text| && input.text[input.pos] == LBRACE
      modifies this, input, input.doc, input.dst
      ensures var pos, limit, room := old(input.pos), old(nestingLimit), old(input.doc.Room());
              Done(r, err, JsonGrammar.ParseObject(input.text, pos, limit, room, input.cfg), limit, old(Now()))
      decreases nestingLimit, 3
    {
      hide JsonGrammar.ParseObject, Input.Intact, Built, SameBytes;
      MarkBound(input);
      BytesSelf(input.store, input.Mark());
      input.doc.Set(r, Obj(NoSlot, NoSlot));
      err := ParseObject(r, old(Now()));
    }

    /** `r` has just been made an empty list; `a` is the state before that. */
    ghost predicate Opened(r: Ref, isArray: bool, a: Snap)
      reads this, input, input.doc, input.chars, input.dst
    {
      && input.Ready() && input.pos < |input.text|
      && Listed(r, [], isArray, a, Now())
    }

    method ParseArray(r: Ref, ghost a: Snap) returns (err: Code)
      requires Opened(r, true, a) && input.text[input.pos] == LBRACKET
      modifies this, input, input.doc, input.dst
      ensures var pos, limit, room := old(input.pos), old(nestingLimit), old(input.doc.Room());
              Done(r, err, JsonGrammar.ParseArray(input.text, pos, limit, room, input.cfg), limit, a)
      decreases nestingLimit, 2
    {
      hide Input.Intact, Built, SameBytes, Skip, Listed, ParseItems;
      ListedIsBuilt(r, [], true, a, Now());
      if nestingLimit == 0 { return TooDeep; }
      var eaten := input.Eat(LBRACKET);
      if !eaten { return InvalidInput; }
      err := input.SkipSpacesAndComments();
      if err != Ok { return; }
      eaten := input.Eat(RBRACKET);
      if eaten { return Ok; }
      err := ParseElements(r, a);
    }

    method ParseElements(r: Ref, ghost a: Snap) returns (err: Code)
      requires Opened(r, true, a) && nestingLimit > 0
      modifies this, input, input.doc, input.dst
      ensures var p := ParseItems(input.text, old(input.pos), old(nestingLimit), old(input.doc.Room()), input.cfg);
              Done(r, err, Parsed(p.err, Array(p.members), p.pos, p.room), old(nestingLimit), a)
      decreases nestingLimit, 1
    {
      hide Input.Intact, Built, SameBytes, Skip, Listed, ParseItems, JsonGrammar.Parse, AfterItem;
      ghost var ms: seq<Member> := [];
      ghost var goal := ParseItems(input.text, input.pos, nestingLimit, input.doc.Room(), input.cfg);
      assert goal == Then([], goal);
      while true
        invariant input.Ready() && nestingLimit == old(nestingLimit) && Listed(r, ms, true, a, Now())
        invariant goal == Then(ms, ParseItems(input.text, input.pos, nestingLimit, input.doc.Room(), input.cfg))
        decreases |input.text| - input.pos
      {
        ghost var room, p0, v := input.doc.Room(), input.pos, Null;
        var added;
        err, added, v := ParseElement(r, ms, a);
        if !added {
          NoSlotItems(p0, room);
          assert ms + [] == ms;
          ListedIsBuilt(r, ms, true, a, Now());
          return;
        }
        ItemsRound(input.text, p0, nestingLimit, room, input.cfg);
        ghost var e := JsonGrammar.Parse(input.text, p0, nestingLimit - 1, room - SLOT, input.cfg);
        ms := ms + [Item(v)];
        ListedIsBuilt(r, ms, true, a, Now());
        if err != Ok { return; }
        ThenOne(ms[..|ms| - 1], Item(v),
                ParseItems(input.text, AfterItem(input.text, e.pos).pos, nestingLimit, e.room, input.cfg));
        var more;
        err, more := ElementSeparator();
        if err != Ok || !more { return; }
      }
    }

    lemma NoSlotItems(p: nat, room: nat)
      requires room < SLOT && nestingLimit > 0
      ensures ParseItems(input.text, p, nestingLimit, room, input.cfg) == ParsedMembers(NoMemory, [], p, room)
    {
    }

    method ElementSeparator() returns (err: Code, more: bool)
      requires input.Ready()
      modifies input`current, input`loaded, input`pos, input`ptr
      ensures input.Valid()
      ensures var s := AfterItem(input.text, old(input.pos));
              err == s.err && (err == Ok ==> more == s.more && input.pos == s.pos && input.Ready())
    {
      hide Input.Intact, Skip;
      err := input.SkipSpacesAndComments();
      if err != Ok { return err, false; }
      var eaten := input.Eat(RBRACKET);
      if eaten { return Ok, false; }
      eaten := input.Eat(COMMA);
      if !eaten { return InvalidInput, false; }
      return Ok, true;
    }

    /** One new element: NoMemory without a slot, otherwise whatever parsing into it gives. */
    method ParseElement(r: Ref, ghost ms: seq<Member>, ghost a: Snap) returns (err: Code, added: bool, ghost v: Value)
      requires input.Ready() && nestingLimit > 0 && Listed(r, ms, true, a, Now())
      modifies this, input, input.doc, input.dst
      ensures input.Valid() && nestingLimit == old(nestingLimit)
      ensures added == (old(input.doc.Room()) >= SLOT)
      ensures !added ==> err == NoMemory && Listed(r, ms, true, a, Now())
      ensures added ==>
                var p := JsonGrammar.Parse(input.text, old(input.pos), nestingLimit - 1, old(input.doc.Room()) - SLOT,
                  input.cfg);
                && err == p.err && v == p.value && Listed(r, ms + [Item(v)], true, a, Now())
                && (err == Ok ==> input.Ready() && input.pos == p.pos && input.doc.Room() == p.room)
      decreases nestingLimit, 0
    {
      hide Input.Intact, Built, SameBytes, Listed, Added, Linked?, JsonGrammar.Parse;
      ghost var s := Now();
      ListedTail(r, ms, true, a, s);
      var slot := input.doc.AddSlot(r);
      if slot.NoSlot? { return NoMemory, false, Null; }
      ghost var s' := Now();
      FreshAdded(r, s, s');
      nestingLimit := nestingLimit - 1;
      err := Parse(Child(slot.slot));
      nestingLimit := nestingLimit + 1;
      added := true;
      v := JsonGrammar.Parse(input.text, old(input.pos), nestingLimit - 1, old(input.doc.Room()) - SLOT,
        input.cfg).value;
      MarkBound(input);
      Grow(r, ms, Item(v), true, a, s, s', Now());
    }

    method ParseObject(r: Ref, ghost a: Snap) returns (err: Code)
      requires Opened(r, false, a) && input.text[input.pos] == LBRACE
      modifies this, input, input.doc, input.dst
      ensures var pos, limit, room := old(input.pos), old(nestingLimit), old(input.doc.Room());
              Done(r, err, JsonGrammar.ParseObject(input.text, pos, limit, room, input.cfg), limit, a)
      decreases nestingLimit, 2
    {
      hide Input.Intact, Built, SameBytes, Skip, Listed, ParseMembers;
      ListedIsBuilt(r, [], false, a, Now());
      if nestingLimit == 0 { return TooDeep; }
      var eaten := input.Eat(LBRACE);
      if !eaten { return InvalidInput; }
      err := input.SkipSpacesAndComments();
      if err != Ok { return; }
      eaten := input.Eat(RBRACE);
      if eaten { return Ok; }
      err := ParsePairs(r, a);
    }

    method ParsePairs(r: Ref, ghost a: Snap) returns (err: Code)
      requires Opened(r, false, a) && nestingLimit > 0 && (!input.cfg.copying ==> input.writePtr < input.pos)
      modifies this, input, input.doc, input.dst
      ensures var p := ParseMembers(input.text, old(input.pos), old(nestingLimit), old(input.doc.Room()), input.cfg);
              Done(r, err, Parsed(p.err, Object(p.members), p.pos, p.room), old(nestingLimit), a)
      decreases nestingLimit, 1
    {
      hide Input.Intact, Built, SameBytes, Skip, Listed, ParseMembers, JsonGrammar.Parse, JsonGrammar.ParseHead,
        AfterMember;
      ghost var ms: seq<Member> := [];
      ghost var goal := ParseMembers(input.text, input.pos, nestingLimit, input.doc.Room(), input.cfg);
      assert goal == Then([], goal);
      while true
        invariant input.Ready() && nestingLimit == old(nestingLimit) && Listed(r, ms, false, a, Now())
        invariant !input.cfg.copying ==> input.writePtr < input.pos
        invariant goal == Then(ms, ParseMembers(input.text, input.pos, nestingLimit, input.doc.Room(), input.cfg))
        decreases |input.text| - input.pos
      {
        ghost var room, p0, m := input.doc.Room(), input.pos, Member(NoKey, Null);
        var added;
        err, added, m := ParsePair(r, ms, a);
        if !added {
          NoSlotMembers(p0, room);
          assert ms + [] == ms;
          ListedIsBuilt(r, ms, false, a, Now());
          return;
        }
        MembersRound(input.text, p0, nestingLimit, room, input.cfg);
        ghost var h := JsonGrammar.ParseHead(input.text, p0, room - SLOT, input.cfg);
        ghost var e := JsonGrammar.Parse(input.text, h.pos, nestingLimit - 1, h.room, input.cfg);
        ms := ms + [m];
        ListedIsBuilt(r, ms, false, a, Now());
        if err != Ok { return; }
        ThenOne(ms[..|ms| - 1], m,
                ParseMembers(input.text, AfterMember(input.text, e.pos).pos, nestingLimit, e.room, input.cfg));
        var more;
        err, more := PairSeparator();
        if err != Ok || !more { return; }
      }
    }

    lemma NoSlotMembers(p: nat, room: nat)
      requires room < SLOT && nestingLimit > 0
      ensures ParseMembers(input.text, p, nestingLimit, room, input.cfg) == ParsedMembers(NoMemory, [], p, room)
    {
    }

    method PairSeparator() returns (err: Code, more: bool)
      requires input.Ready()
      modifies input`current, input`loaded, input`pos, input`ptr
      ensures input.Valid()
      ensures var s := AfterMember(input.text, old(input.pos));
              err == s.err && (err == Ok ==> more == s.more && input.pos == s.pos && input.Ready())
    {
      hide Input.Intact, Skip;
      err := input.SkipSpacesAndComments();
      if err != Ok { return err, false; }
      var eaten := input.Eat(RBRACE);
      if eaten { return Ok, false; }
      eaten := input.Eat(COMMA);
      if !eaten { return InvalidInput, false; }
      err := input.SkipSpacesAndComments();
      return err, true;
    }

    /** One new member: slot, key, colon, value. */
    method ParsePair(r: Ref, ghost ms: seq<Member>, ghost a: Snap) returns (err: Code, added: bool, ghost m: Member)
      requires input.Ready() && nestingLimit > 0 && Listed(r, ms, false, a, Now())
      requires !input.cfg.copying ==> input.writePtr < input.pos
      modifies this, input, input.doc, input.dst
      ensures input.Valid() && nestingLimit == old(nestingLimit)
      ensures added == (old(input.doc.Room()) >= SLOT)
      ensures !added ==> err == NoMemory && Listed(r, ms, false, a, Now())
      ensures added ==>
                var h := JsonGrammar.ParseHead(input.text, old(input.pos), old(input.doc.Room()) - SLOT, input.cfg);
                var p := JsonGrammar.Parse(input.text, h.pos, nestingLimit - 1, h.room, input.cfg);
                && err == (if h.err != Ok then h.err else p.err)
                && m == Member(h.key, if h.err != Ok then Null else p.value)
                && Listed(r, ms + [m], false, a, Now())
                && (err == Ok ==> input.Ready() && input.pos == p.pos && input.doc.Room() == p.room)
      decreases nestingLimit, 0
    {
      hide Input.Intact, Built, SameBytes, Listed, Added, Linked?, JsonGrammar.Parse, JsonGrammar.ParseHead;
      ghost var s := Now();
      ListedTail(r, ms, false, a, s);
      var n;
      err, added, n := BeginPair(r);
      if !added { return NoMemory, false, Member(NoKey, Null); }
      ghost var h := JsonGrammar.ParseHead(input.text, old(input.pos), old(input.doc.Room()) - SLOT, input.cfg);
      ghost var s2 := Now();
      MarkBound(input);
      m := Member(h.key, Null);
      if err != Ok {
        NullBuilt(n, s2);
      } else {
        m := Member(h.key, JsonGrammar.Parse(input.text, h.pos, nestingLimit - 1, h.room, input.cfg).value);
        nestingLimit := nestingLimit - 1;
        err := Parse(Child(n));
        nestingLimit := nestingLimit + 1;
        MarkBound(input);
      }
      Grow(r, ms, m, false, a, s, s2, Now());
    }

    /** The slot of a new member and its key, up to and including the colon. */
    method BeginPair(r: Ref) returns (err: Code, added: bool, n: nat)
      requires input.Ready() && (!input.cfg.copying ==> input.writePtr < input.pos)
      requires Has(Now(), r) && Pick(Now(), r).List?() && input.Mark() <= |input.store|
      requires Pick(Now(), r).tail.To? ==> Pick(Now(), r).tail.slot < |input.doc.slots|
      modifies input, input.doc, input.dst
      ensures input.Valid() && added == (old(input.doc.Room()) >= SLOT)
      ensures !added ==> Now() == old(Now())
      ensures added ==>
                var h := JsonGrammar.ParseHead(input.text, old(input.pos), old(input.doc.Room()) - SLOT, input.cfg);
                && n == old(|input.doc.slots|) && err == h.err && Added(r, h.key, old(Now()), Now())
                && input.doc.Holds(Child(n)) && input.doc.slots[n].data == Nothing
                && (err == Ok ==> input.Ready() && input.pos == h.pos && input.doc.Room() == h.room)
    {
      hide Input.Intact, SameBytes, Added, Linked?, JsonGrammar.ParseHead;
      ghost var s := Now();
      var slot := input.doc.AddSlot(r);
      added := slot.To?;
      if !added { return NoMemory, false, 0; }
      n := slot.slot;
      ghost var s1 := Now();
      FreshAdded(r, s, s1);
      err := ParseHead(n);
      ghost var head := JsonGrammar.ParseHead(input.text, old(input.pos), old(input.doc.Room()) - SLOT, input.cfg);
      KeyedAdded(r, head.key, s, s1, Now());
    }

    /** parseKey, setOwnedKey and the colon. */
    method ParseHead(n: nat) returns (err: Code)
      requires input.Ready() && n < |input.doc.slots| && (!input.cfg.copying ==> input.writePtr < input.pos)
      modifies input, input.doc, input.dst
      ensures input.Valid()
      ensures input.doc.root == old(input.doc.root) && |input.doc.slots| == old(|input.doc.slots|)
      ensures forall i :: 0 <= i < |input.doc.slots| && i != n ==> input.doc.slots[i] == old(input.doc.slots)[i]
      ensures input.doc.slots[n].data == old(input.doc.slots[n].data)
              && input.doc.slots[n].next == old(input.doc.slots[n].next)
      ensures old(input.Mark()) <= input.Mark() && SameBytes(old(input.store), input.store, old(input.Mark()))
      ensures var h := JsonGrammar.ParseHead(input.text, old(input.pos), old(input.doc.Room()), input.cfg);
              && err == h.err
              && (old(input.doc.slots[n].key) == Unset ==>
                    0 <= LayKey(input.store, input.doc.slots[n].key, h.key, old(input.Mark())) <= input.Mark())
              && (err == Ok ==> input.Ready() && input.pos == h.pos && input.doc.Room() == h.room)
    {
      hide Input.Intact, SameBytes, TextAt, Skip, Quoted, Unquoted;
      var at;
      err, at := ParseKey();
      if err != Ok { return; }
      input.doc.SetOwnedKey(n, at);
      err := input.SkipSpacesAndComments();
      if err != Ok { return; }
      var eaten := input.Eat(COLON);
      if !eaten { return InvalidInput; }
    }

    method ParseKey() returns (err: Code, at: nat)
      requires input.Ready() && (!input.cfg.copying ==> input.writePtr < input.pos)
      modifies input, input.doc`left, input.dst
      ensures input.GotText(KeyText(input.text, old(input.pos)), err, at, old(input.doc.Room()), old(input.Mark()),
              old(input.store))
      ensures err == Ok ==> input.Ready()
    {
      hide Input.Intact, SameBytes, TextAt, Quoted, Unquoted;
      var c := input.Current();
      if IsQuote(c) {
        err, at := input.ParseQuotedString();
      } else {
        err, at := input.ParseNonQuotedString();
      }
    }
  }
}
