/**
 What the JSON deserializer computes, as functions of the whole text: the error code, the document
 built (also the partial one left behind by a failure), the position reached and the pool bytes left.
 */
module JsonGrammar {
  import opened Values

  const TAB: byte := 9
  const LF: byte := 10
  const CR: byte := 13
  const SPACE: byte := 32
  const DQUOTE: byte := 34
  const SQUOTE: byte := 39
  const STAR: byte := 42
  const PLUS: byte := 43
  const COMMA: byte := 44
  const MINUS: byte := 45
  const DOT: byte := 46
  const SLASH: byte := 47
  const COLON: byte := 58
  const LBRACKET: byte := 91
  const BACKSLASH: byte := 92
  const RBRACKET: byte := 93
  const LBRACE: byte := 123
  const RBRACE: byte := 125

  /** Parameters fixed for one parse: string storage and the float conversion (not modelled). */
  datatype Config = Config(copying: bool, toFloat: bytes -> UInt)

  /** current(): NUL once the input is used up. */
  function At(t: bytes, p: nat): byte {
    if p < |t| then t[p] else 0
  }

  predicate IsDigit(c: byte) { 48 <= c <= 57 }

  predicate IsQuote(c: byte) { c == SQUOTE || c == DQUOTE }

  predicate IsSpace(c: byte) { c == SPACE || c == TAB || c == CR || c == LF }

  /** canBeInNonQuotedString: 0-9, _ to z, A-Z, + - and the dot. */
  predicate IsWord(c: byte) {
    IsDigit(c) || 95 <= c <= 122 || 65 <= c <= 90 || c == PLUS || c == MINUS || c == DOT
  }

  /** unescapeChar: b f n r t name control characters, anything else stands for itself. */
  function Unescape(c: byte): byte {
    if c == 98 then 8
    else if c == 102 then 12
    else if c == 110 then LF
    else if c == 114 then CR
    else if c == 116 then TAB
    else c
  }

  // ----- white space and comments

  datatype Scan = Scan(err: Code, pos: nat)

  /** After the two characters opening a block comment. */
  function SkipBlock(t: bytes, p: nat, wasStar: bool): (r: Scan)
    ensures r.err == Ok ==> p < r.pos <= |t|
    ensures r.err == Ok || r.err == IncompleteInput
    decreases |t| - p
  {
    var c := At(t, p);
    if c == 0 then Scan(IncompleteInput, p)
    else if c == SLASH && wasStar then Scan(Ok, p + 1)
    else SkipBlock(t, p + 1, c == STAR)
  }

  /** After the two slashes: up to the line feed, which stays. */
  function SkipLine(t: bytes, p: nat): (r: Scan)
    ensures r.err == Ok ==> p <= r.pos < |t|
    ensures r.err == Ok || r.err == IncompleteInput
    decreases |t| - p
  {
    var c := At(t, p);
    if c == 0 then Scan(IncompleteInput, p)
    else if c == LF then Scan(Ok, p)
    else SkipLine(t, p + 1)
  }

  function Skip(t: bytes, p: nat): (r: Scan)
    ensures r.err == Ok ==> p <= r.pos < |t|
    ensures r.err == Ok || r.err == IncompleteInput || r.err == InvalidInput
    decreases |t| - p
  {
    var c := At(t, p);
    if c == 0 then Scan(IncompleteInput, p)
    else if IsSpace(c) then Skip(t, p + 1)
    else if c != SLASH then Scan(Ok, p)
    else if At(t, p + 1) == STAR then
      var b := SkipBlock(t, p + 2, false);
      if b.err != Ok then b else Skip(t, b.pos)
    else if At(t, p + 1) == SLASH then
      var l := SkipLine(t, p + 2);
      if l.err != Ok then l else Skip(t, l.pos)
    else Scan(InvalidInput, p + 1)
  }

  // ----- strings and words

  datatype Text = Text(err: Code, text: bytes, pos: nat)

  function Prepend(c: byte, r: Text): Text {
    Text(r.err, [c] + r.text, r.pos)
  }

  /** After the opening quote. */
  function Quoted(t: bytes, p: nat, stop: byte): (r: Text)
    requires stop != 0
    ensures r.err == Ok ==> p < r.pos <= |t|
    ensures r.err == Ok ==> |r.text| < r.pos - p
    ensures NulFree(r.text)
    ensures r.err != NoMemory && r.err != TooDeep
    decreases |t| - p
  {
    var c := At(t, p);
    if c == stop then Text(Ok, [], p + 1)
    else if c == 0 then Text(IncompleteInput, [], p)
    else if c == BACKSLASH then
      var d := At(t, p + 1);
      if d == 0 then Text(IncompleteInput, [], p)
      else if d == 117 then Text(NotSupported, [], p)
      else Prepend(Unescape(d), Quoted(t, p + 2, stop))
    else Prepend(c, Quoted(t, p + 1, stop))
  }

  /** The longest run of word characters. */
  function WordEnd(t: bytes, p: nat): (e: nat)
    ensures p <= e
    ensures p <= |t| ==> e <= |t|
    ensures forall i :: p <= i < e ==> i < |t| && IsWord(t[i])
    decreases |t| - p
  {
    if IsWord(At(t, p)) then WordEnd(t, p + 1) else p
  }

  /** parseNonQuotedString. */
  function Unquoted(t: bytes, p: nat): (r: Text)
    ensures r.err == Ok ==> p < r.pos <= |t|
    ensures r.err == Ok ==> r.text == t[p..r.pos]
    ensures NulFree(r.text)
    ensures r.err != NoMemory && r.err != TooDeep
  {
    var e := WordEnd(t, p);
    if At(t, p) == 0 then Text(IncompleteInput, [], p)
    else if e == p then Text(InvalidInput, [], p)
    else Text(Ok, t[p..e], e)
  }

  function KeyText(t: bytes, p: nat): (r: Text)
    ensures r.err == Ok ==> p < r.pos <= |t|
    ensures NulFree(r.text)
    ensures r.err != NoMemory && r.err != TooDeep
  {
    if IsQuote(At(t, p)) then Quoted(t, p + 1, At(t, p)) else Unquoted(t, p)
  }

  /** Storing a finished string: only the copier takes pool bytes, text and terminator. */
  predicate Fits(s: bytes, room: nat, cfg: Config) {
    cfg.copying ==> |s| + 1 <= room
  }

  function Stored(s: bytes, room: nat, cfg: Config): nat
    requires Fits(s, room, cfg)
  {
    if cfg.copying then room - (|s| + 1) else room
  }

  // ----- numbers

  /** The token buffer takes at most 63 characters. */
  const MAX_TOKEN: nat := 63

  function TokenEnd(t: bytes, p: nat): nat {
    var e := WordEnd(t, p);
    if e - p <= MAX_TOKEN then e else p + MAX_TOKEN
  }

  /** The digit loop of parseNumber: None when the UInt range would be left. */
  datatype Digits = Overflow | Digits(value: UInt, rest: bytes)

  function ReadDigits(s: bytes, m: UInt): Digits
    decreases |s|
  {
    if s == [] || !IsDigit(s[0]) then Digits(m, s)
    else if m > (UINT_RANGE - 1) / 10 then Overflow
    else if m * 10 > UINT_RANGE - 1 - (s[0] - 48) then Overflow
    else ReadDigits(s[1..], m * 10 + (s[0] - 48))
  }

  datatype Number = NotANumber | Whole(negative: bool, magnitude: UInt) | Real

  /** parseNumber: everything that starts like a number but is not a plain UInt becomes a float. */
  function ParseNumber(s: bytes): Number {
    var negative := s != [] && s[0] == MINUS;
    var u := if s != [] && (s[0] == MINUS || s[0] == PLUS) then s[1..] else s;
    if u == [] then NotANumber
    else if u[0] == 110 || u[0] == 78 || u[0] == 105 || u[0] == 73 then Real
    else if !IsDigit(u[0]) && u[0] != DOT then NotANumber
    else
      var d := ReadDigits(u, 0);
      if d.Digits? && d.rest == [] then Whole(negative, d.value) else Real
  }

  datatype Leaf = Leaf(err: Code, value: Value)

  /** parseNumericValue on a token: only the first letter and the length tell the keywords apart. */
  function ParseToken(s: bytes, cfg: Config): (r: Leaf)
    ensures r.err != NoMemory && r.err != TooDeep
    ensures r.err == Ok ==> s != []
    ensures Usage(r.value) == Nesting(r.value) == Slots(r.value) == 0
  {
    if s != [] && s[0] == 116 then Leaf(if |s| == 4 then Ok else IncompleteInput, Boolean(true))
    else if s != [] && s[0] == 102 then Leaf(if |s| == 5 then Ok else IncompleteInput, Boolean(false))
    else if s != [] && s[0] == 110 then Leaf(if |s| == 4 then Ok else IncompleteInput, Null)
    else
      match ParseNumber(s)
      case NotANumber => Leaf(InvalidInput, Null)
      case Whole(negative, magnitude) => Leaf(Ok, Integer(negative, magnitude))
      case Real => Leaf(Ok, Float(cfg.toFloat(s)))
  }

  // ----- values

  /** Pool bytes a document takes: in place, its strings stay in the input. */
  function Cost(v: Value, cfg: Config): nat {
    if cfg.copying then Usage(v) else SLOT * Slots(v)
  }

  function MemberCost(ms: seq<Member>, cfg: Config): nat {
    if cfg.copying then MemberUsage(ms) else SLOT * MemberSlots(ms)
  }

  lemma MemberCostFront(m: Member, ms: seq<Member>, cfg: Config)
    ensures MemberCost([m] + ms, cfg) ==
            SLOT + (if cfg.copying then KeyBytes(m.key) else 0) + Cost(m.value, cfg) + MemberCost(ms, cfg)
  {
    MemberSlotsFront(m, ms);
    assert ([m] + ms)[1..] == ms;
  }

  /** What a successful parse promises of its value: depth, and every pool byte accounted for. */
  ghost predicate Accounted(r: Parsed, limit: nat, room: nat, cfg: Config) {
    && r.room <= room
    && (r.err == Ok ==> Nesting(r.value) <= limit && r.room + Cost(r.value, cfg) == room)
  }

  ghost predicate AccountedMembers(r: ParsedMembers, limit: nat, room: nat, cfg: Config) {
    && r.room <= room
    && (r.err == Ok ==> MemberNesting(r.members) < limit && r.room + MemberCost(r.members, cfg) == room)
  }

  datatype Parsed = Parsed(err: Code, value: Value, pos: nat, room: nat)
  datatype ParsedMembers = ParsedMembers(err: Code, members: seq<Member>, pos: nat, room: nat)

  function ParseScalar(t: bytes, p: nat, room: nat, cfg: Config): (r: Parsed)
    requires p < |t|
    ensures r.err == Ok ==> p < r.pos <= |t|
    ensures r.err != TooDeep
  {
    if IsQuote(t[p]) then
      var s := Quoted(t, p + 1, t[p]);
      if s.err != Ok then Parsed(s.err, Null, s.pos, room)
      else if !Fits(s.text, room, cfg) then Parsed(NoMemory, Null, s.pos, room)
      else Parsed(Ok, Str(s.text, false), s.pos, Stored(s.text, room, cfg))
    else
      var e := TokenEnd(t, p);
      var leaf := ParseToken(t[p..e], cfg);
      Parsed(leaf.err, leaf.value, e, room)
  }

  /** JsonDeserializer::parse. */
  function Parse(t: bytes, p: nat, limit: nat, room: nat, cfg: Config): (r: Parsed)
    ensures r.err == Ok ==> p < r.pos <= |t|
    ensures Accounted(r, limit, room, cfg)
    decreases limit, 2, |t| - p
  {
    var s := Skip(t, p);
    if s.err != Ok then Parsed(s.err, Null, s.pos, room)
    else if t[s.pos] == LBRACKET then ParseArray(t, s.pos, limit, room, cfg)
    else if t[s.pos] == LBRACE then ParseObject(t, s.pos, limit, room, cfg)
    else ParseScalar(t, s.pos, room, cfg)
  }

  /** parseArray, at the opening bracket. */
  function ParseArray(t: bytes, p: nat, limit: nat, room: nat, cfg: Config): (r: Parsed)
    requires p < |t|
    ensures r.err == Ok ==> p < r.pos <= |t|
    ensures Accounted(r, limit, room, cfg)
    decreases limit, 1, |t| - p
  {
    if limit == 0 then Parsed(TooDeep, Array([]), p, room)
    else
      var s := Skip(t, p + 1);
      if s.err != Ok then Parsed(s.err, Array([]), s.pos, room)
      else if t[s.pos] == RBRACKET then Parsed(Ok, Array([]), s.pos + 1, room)
      else
        var r := ParseItems(t, s.pos, limit, room, cfg);
        Parsed(r.err, Array(r.members), r.pos, r.room)
  }

  function Item(v: Value): Member {
    Member(NoKey, v)
  }

  /** What follows an element or member: its closing character, or a comma and more. */
  datatype Sep = Sep(err: Code, more: bool, pos: nat)

  function AfterItem(t: bytes, p: nat): (r: Sep)
    ensures r.err == Ok ==> p < r.pos <= |t|
  {
    var s := Skip(t, p);
    if s.err != Ok then Sep(s.err, false, s.pos)
    else if t[s.pos] == RBRACKET then Sep(Ok, false, s.pos + 1)
    else if t[s.pos] != COMMA then Sep(InvalidInput, false, s.pos)
    else Sep(Ok, true, s.pos + 1)
  }

  function AfterMember(t: bytes, p: nat): (r: Sep)
    ensures r.err == Ok ==> p < r.pos <= |t|
  {
    var s := Skip(t, p);
    if s.err != Ok then Sep(s.err, false, s.pos)
    else if t[s.pos] == RBRACE then Sep(Ok, false, s.pos + 1)
    else if t[s.pos] != COMMA then Sep(InvalidInput, false, s.pos)
    else
      var n := Skip(t, s.pos + 1);
      Sep(n.err, true, n.pos)
  }

  /** One round of the element loop and all that follow. */
  function ParseItems(t: bytes, p: nat, limit: nat, room: nat, cfg: Config): (r: ParsedMembers)
    requires limit > 0
    ensures r.err == Ok ==> p < r.pos <= |t|
    ensures AccountedMembers(r, limit, room, cfg)
    decreases limit, 0, |t| - p
  {
    if room < SLOT then ParsedMembers(NoMemory, [], p, room)
    else
      var e := Parse(t, p, limit - 1, room - SLOT, cfg);
      MemberCostFront(Item(e.value), [], cfg);
      if e.err != Ok then ParsedMembers(e.err, [Item(e.value)], e.pos, e.room)
      else
        var s := AfterItem(t, e.pos);
        if s.err != Ok || !s.more then ParsedMembers(s.err, [Item(e.value)], s.pos, e.room)
        else
          var r := ParseItems(t, s.pos, limit, e.room, cfg);
          MemberCostFront(Item(e.value), r.members, cfg);
          ParsedMembers(r.err, [Item(e.value)] + r.members, r.pos, r.room)
  }

  /** parseObject, at the opening brace. */
  function ParseObject(t: bytes, p: nat, limit: nat, room: nat, cfg: Config): (r: Parsed)
    requires p < |t|
    ensures r.err == Ok ==> p < r.pos <= |t|
    ensures Accounted(r, limit, room, cfg)
    decreases limit, 1, |t| - p
  {
    if limit == 0 then Parsed(TooDeep, Object([]), p, room)
    else
      var s := Skip(t, p + 1);
      if s.err != Ok then Parsed(s.err, Object([]), s.pos, room)
      else if t[s.pos] == RBRACE then Parsed(Ok, Object([]), s.pos + 1, room)
      else
        var r := ParseMembers(t, s.pos, limit, room, cfg);
        Parsed(r.err, Object(r.members), r.pos, r.room)
  }

  /** Key and colon of one member: the slot is taken first, so a failure leaves a keyless one. */
  datatype Head = Head(err: Code, key: Key, pos: nat, room: nat)

  function ParseHead(t: bytes, p: nat, room: nat, cfg: Config): (r: Head)
    ensures r.err == Ok ==> p < r.pos <= |t|
    ensures r.err == Ok ==> r.key.Key? && !r.key.linked
    ensures r.err != TooDeep
  {
    var k := KeyText(t, p);
    if k.err != Ok then Head(k.err, NoKey, k.pos, room)
    else if !Fits(k.text, room, cfg) then Head(NoMemory, NoKey, k.pos, room)
    else
      var key := Key(k.text, false);
      var room' := Stored(k.text, room, cfg);
      var s := Skip(t, k.pos);
      if s.err != Ok then Head(s.err, key, s.pos, room')
      else if t[s.pos] != COLON then Head(InvalidInput, key, s.pos, room')
      else Head(Ok, key, s.pos + 1, room')
  }

  function ParseMembers(t: bytes, p: nat, limit: nat, room: nat, cfg: Config): (r: ParsedMembers)
    requires limit > 0
    ensures r.err == Ok ==> p < r.pos <= |t|
    ensures AccountedMembers(r, limit, room, cfg)
    decreases limit, 0, |t| - p
  {
    if room < SLOT then ParsedMembers(NoMemory, [], p, room)
    else
      var h := ParseHead(t, p, room - SLOT, cfg);
      if h.err != Ok then ParsedMembers(h.err, [Member(h.key, Null)], h.pos, h.room)
      else
        var e := Parse(t, h.pos, limit - 1, h.room, cfg);
        var m := Member(h.key, e.value);
        MemberCostFront(m, [], cfg);
        if e.err != Ok then ParsedMembers(e.err, [m], e.pos, e.room)
        else
          var s := AfterMember(t, e.pos);
          if s.err != Ok || !s.more then ParsedMembers(s.err, [m], s.pos, e.room)
          else
            var r := ParseMembers(t, s.pos, limit, e.room, cfg);
            MemberCostFront(m, r.members, cfg);
            ParsedMembers(r.err, [m] + r.members, r.pos, r.room)
  }

  // ----- one round of the collection loops

  ghost function Then(ms: seq<Member>, r: ParsedMembers): ParsedMembers {
    ParsedMembers(r.err, ms + r.members, r.pos, r.room)
  }

  lemma ThenOne(ms: seq<Member>, m: Member, r: ParsedMembers)
    ensures Then(ms, Then([m], r)) == Then(ms + [m], r)
  {
    assert ms + ([m] + r.members) == ms + [m] + r.members;
  }

  lemma ItemsRound(t: bytes, p: nat, limit: nat, room: nat, cfg: Config)
    requires limit > 0 && room >= SLOT
    ensures var e, r := Parse(t, p, limit - 1, room - SLOT, cfg), ParseItems(t, p, limit, room, cfg);
            if e.err != Ok then r == ParsedMembers(e.err, [Item(e.value)], e.pos, e.room)
            else
              var s := AfterItem(t, e.pos);
              if s.err != Ok || !s.more then r == ParsedMembers(s.err, [Item(e.value)], s.pos, e.room)
              else r == Then([Item(e.value)], ParseItems(t, s.pos, limit, e.room, cfg))
  {
    hide Parse, AfterItem;
  }

  lemma MembersRound(t: bytes, p: nat, limit: nat, room: nat, cfg: Config)
    requires limit > 0 && room >= SLOT
    ensures var h, r := ParseHead(t, p, room - SLOT, cfg), ParseMembers(t, p, limit, room, cfg);
            if h.err != Ok then r == ParsedMembers(h.err, [Member(h.key, Null)], h.pos, h.room)
            else
              var e := Parse(t, h.pos, limit - 1, h.room, cfg);
              if e.err != Ok then r == ParsedMembers(e.err, [Member(h.key, e.value)], e.pos, e.room)
              else
                var s := AfterMember(t, e.pos);
                if s.err != Ok || !s.more then r == ParsedMembers(s.err, [Member(h.key, e.value)], s.pos, e.room)
                else r == Then([Member(h.key, e.value)], ParseMembers(t, s.pos, limit, e.room, cfg))
  {
    hide Parse, AfterMember, ParseHead;
  }
}
