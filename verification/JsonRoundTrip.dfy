/** Parsing what either serializer wrote gives the document back, or TooDeep exactly when it nests too far. */
module JsonRoundTrip {
  import opened Values
  import opened JsonGrammar
  import opened JsonPrinter

  /** Documents the text format can carry: no floats, owned NUL-free strings, keyed members. */
  ghost predicate Plain(v: Value)
    decreases v, 1
  {
    match v
    case Null => true
    case Boolean(_) => true
    case Integer(_, _) => true
    case Float(_) => false
    case Str(s, linked) => NulFree(s) && !linked
    case Array(ms) => PlainMembers(ms, false)
    case Object(ms) => PlainMembers(ms, true)
  }

  ghost predicate PlainKey(k: Key, keyed: bool) {
    if keyed then k.Key? && NulFree(k.text) && !k.linked else k.NoKey?
  }

  ghost predicate PlainMembers(ms: seq<Member>, keyed: bool)
    decreases ms, 0
  {
    ms != [] ==>
      var m := ms[0];
      assert m.value < m;
      PlainKey(m.key, keyed) && Plain(m.value) && PlainMembers(ms[1..], keyed)
  }

  // ----- pieces of text

  ghost predicate Has(t: bytes, p: nat, s: bytes) {
    p + |s| <= |t| && forall i :: 0 <= i < |s| ==> t[p + i] == s[i]
  }

  lemma HasSplit(t: bytes, p: nat, a: bytes, b: bytes)
    requires Has(t, p, a + b)
    ensures Has(t, p, a) && Has(t, p + |a|, b)
  {
    forall i | 0 <= i < |a| ensures t[p + i] == a[i] {
      assert (a + b)[i] == a[i];
    }
    forall i | 0 <= i < |b| ensures t[p + |a| + i] == b[i] {
      assert (a + b)[|a| + i] == b[i];
    }
  }

  lemma HasAt(t: bytes, p: nat, s: bytes, i: nat)
    requires Has(t, p, s) && i < |s|
    ensures p + i < |t| && t[p + i] == s[i]
  {
  }

  ghost predicate Blank(t: bytes, a: nat, b: nat) {
    a <= b <= |t| && forall i :: a <= i < b ==> IsSpace(t[i])
  }

  lemma {:induction false} SkipBlank(t: bytes, a: nat, b: nat)
    requires Blank(t, a, b)
    ensures Skip(t, a) == Skip(t, b)
    decreases b - a
  {
    if a < b {
      SkipBlank(t, a + 1, b);
    }
  }

  ghost predicate AllSpace(s: bytes) {
    forall i :: 0 <= i < |s| ==> IsSpace(s[i])
  }

  lemma Layout(pr: Printer, n: nat)
    ensures AllSpace(Newline(pr)) && AllSpace(Indent(pr, n))
  {
  }

  lemma BlankHas(t: bytes, p: nat, s: bytes)
    requires Has(t, p, s) && AllSpace(s)
    ensures Blank(t, p, p + |s|)
  {
    forall i | p <= i < p + |s| ensures IsSpace(t[i]) {
      HasAt(t, p, s, i - p);
    }
  }

  /** A character that ends white space: the first one of a value or key, a separator or a bracket. */
  predicate Solid(c: byte) {
    c != 0 && !IsSpace(c) && c != SLASH
  }

  // ----- leaves

  /** One written character is read back. */
  lemma CharShown(t: bytes, p: nat, c: byte)
    requires c != 0 && Has(t, p, ShowChar(c))
    ensures Quoted(t, p, DQUOTE) == Prepend(c, Quoted(t, p + |ShowChar(c)|, DQUOTE))
  {
    HasAt(t, p, ShowChar(c), 0);
    if EscapeChar(c) != 0 {
      HasAt(t, p, ShowChar(c), 1);
      assert Unescape(EscapeChar(c)) == c;
    }
  }

  lemma QuoteShown(t: bytes, p: nat)
    requires Has(t, p, [DQUOTE])
    ensures Quoted(t, p, DQUOTE) == Text(Ok, [], p + 1)
  {
    HasAt(t, p, [DQUOTE], 0);
  }

  lemma ShowCharsFront(s: bytes)
    requires s != []
    ensures ShowChars(s) + [DQUOTE] == ShowChar(s[0]) + (ShowChars(s[1..]) + [DQUOTE])
    ensures |ShowChars(s)| == |ShowChar(s[0])| + |ShowChars(s[1..])|
    ensures [s[0]] + s[1..] == s
    ensures NulFree(s) ==> s[0] != 0 && NulFree(s[1..])
  {
  }

  lemma ShowCharsEmpty()
    ensures ShowChars([]) + [DQUOTE] == [DQUOTE] && |ShowChars([])| == 0
  {
  }

  lemma {:induction false} QuotedShown(t: bytes, p: nat, s: bytes)
    requires NulFree(s) && Has(t, p, ShowChars(s) + [DQUOTE])
    ensures Quoted(t, p, DQUOTE) == Text(Ok, s, p + |ShowChars(s)| + 1)
    decreases |s|
  {
    hide Quoted, Has, ShowChars, ShowChar, NulFree;
    if s == [] {
      ShowCharsEmpty();
      QuoteShown(t, p);
    } else {
      ShowCharsFront(s);
      HasSplit(t, p, ShowChar(s[0]), ShowChars(s[1..]) + [DQUOTE]);
      CharShown(t, p, s[0]);
      QuotedShown(t, p + |ShowChar(s[0])|, s[1..]);
    }
  }

  lemma {:induction false} WordShown(t: bytes, p: nat, s: bytes)
    requires Has(t, p, s) && !IsWord(At(t, p + |s|))
    requires forall i :: 0 <= i < |s| ==> IsWord(s[i])
    ensures WordEnd(t, p) == p + |s|
    decreases |s|
  {
    if s != [] {
      HasAt(t, p, s, 0);
      assert s == s[..1] + s[1..];
      HasSplit(t, p, s[..1], s[1..]);
      WordShown(t, p + 1, s[1..]);
    }
  }

  function Pow10(k: nat): nat {
    if k == 0 then 1 else 10 * Pow10(k - 1)
  }

  lemma {:induction false} DecimalShape(n: nat, k: nat)
    requires k > 0 && n < Pow10(k)
    ensures 1 <= |Decimal(n)| <= k
    ensures forall i :: 0 <= i < |Decimal(n)| ==> IsDigit(Decimal(n)[i])
    decreases k
  {
    if n >= 10 {
      assert k > 1;
      DecimalShape(n / 10, k - 1);
    }
  }

  /** The digit loop undoes the digit writer anywhere in the UInt range, whatever follows. */
  lemma {:induction false} ReadDecimal(n: UInt, rest: bytes)
    ensures ReadDigits(Decimal(n) + rest, 0) == ReadDigits(rest, n)
    decreases n
  {
    if n < 10 {
      assert (Decimal(n) + rest)[1..] == rest;
    } else {
      var d := [48 + n % 10] + rest;
      assert Decimal(n) + rest == Decimal(n / 10) + d;
      ReadDecimal(n / 10, d);
      assert d[1..] == rest;
    }
  }

  lemma NumberShown(negative: bool, n: UInt, cfg: Config)
    ensures var s := (if negative then [MINUS] else []) + Decimal(n);
            && 1 <= |s| <= 11
            && (forall i :: 0 <= i < |s| ==> IsWord(s[i]))
            && ParseToken(s, cfg) == Leaf(Ok, Integer(negative, n))
  {
    assert Pow10(10) == 10000000000;
    DecimalShape(n, 10);
    ReadDecimal(n, []);
    assert Decimal(n) + [] == Decimal(n);
    var s := (if negative then [MINUS] else []) + Decimal(n);
    if negative {
      assert s[1..] == Decimal(n);
    } else {
      assert s == Decimal(n);
    }
  }

  /** Length, alphabet and first character of a written leaf. */
  lemma LeafShape(pr: Printer, v: Value, cfg: Config)
    requires Plain(v) && !v.Collection?()
    ensures var s := ShowLeaf(pr, v);
            && s != [] && Solid(s[0]) && s[0] != LBRACKET && s[0] != LBRACE
            && s[0] != RBRACKET && s[0] != RBRACE
            && (v.Str? || (!IsQuote(s[0]) && |s| <= MAX_TOKEN && (forall i :: 0 <= i < |s| ==> IsWord(s[i]))
                           && ParseToken(s, cfg) == Leaf(Ok, v)))
  {
    if v.Integer? {
      NumberShown(v.negative, v.magnitude, cfg);
    }
  }

  lemma TextRoundTrip(t: bytes, p: nat, v: Value, limit: nat, room: nat, pr: Printer, cfg: Config)
    requires v.Str? && Plain(v) && Has(t, p, ShowLeaf(pr, v)) && room >= Cost(v, cfg)
    ensures Parse(t, p, limit, room, cfg) == Parsed(Ok, v, p + |ShowLeaf(pr, v)|, room - Cost(v, cfg))
  {
    hide Quoted, ShowChars, Has;
    HasSplit(t, p, [DQUOTE], ShowChars(v.text) + [DQUOTE]);
    HasAt(t, p, [DQUOTE], 0);
    QuotedShown(t, p + 1, v.text);
  }

  lemma WordRoundTrip(t: bytes, p: nat, v: Value, limit: nat, room: nat, pr: Printer, cfg: Config)
    requires Plain(v) && !v.Collection?() && !v.Str? && Has(t, p, ShowLeaf(pr, v))
    requires !IsWord(At(t, p + |ShowLeaf(pr, v)|))
    ensures Parse(t, p, limit, room, cfg) == Parsed(Ok, v, p + |ShowLeaf(pr, v)|, room)
  {
    var s := ShowLeaf(pr, v);
    LeafShape(pr, v, cfg);
    HasAt(t, p, s, 0);
    WordShown(t, p, s);
    assert t[p..p + |s|] == s;
  }

  lemma LeafRoundTrip(t: bytes, p: nat, v: Value, limit: nat, room: nat, pr: Printer, cfg: Config)
    requires Plain(v) && !v.Collection?() && Has(t, p, ShowLeaf(pr, v))
    requires v.Str? || !IsWord(At(t, p + |ShowLeaf(pr, v)|))
    requires room >= Cost(v, cfg)
    ensures Parse(t, p, limit, room, cfg) == Parsed(Ok, v, p + |ShowLeaf(pr, v)|, room - Cost(v, cfg))
  {
    if v.Str? {
      TextRoundTrip(t, p, v, limit, room, pr, cfg);
    } else {
      WordRoundTrip(t, p, v, limit, room, pr, cfg);
    }
  }

  // ----- collections

  lemma ShowStarts(pr: Printer, v: Value, n: nat, cfg: Config)
    requires Plain(v)
    ensures var s := Show(pr, v, n); s != [] && Solid(s[0]) && s[0] != RBRACKET && s[0] != RBRACE
  {
    if !v.Collection?() {
      LeafShape(pr, v, cfg);
    }
  }

  /** The result the round trip promises. */
  ghost predicate Recovered(r: Parsed, v: Value, end: nat, limit: nat, room: nat, cfg: Config)
  {
    if Nesting(v) <= limit then room >= Cost(v, cfg) && r == Parsed(Ok, v, end, room - Cost(v, cfg))
    else r.err == TooDeep
  }

  ghost predicate RecoveredMembers(r: ParsedMembers, ms: seq<Member>, end: nat, limit: nat, room: nat, cfg: Config)
  {
    if MemberNesting(ms) < limit then
      room >= MemberCost(ms, cfg) && r == ParsedMembers(Ok, ms, end, room - MemberCost(ms, cfg))
    else r.err == TooDeep
  }

  lemma HasFour(t: bytes, p: nat, a: bytes, b: bytes, c: bytes, d: bytes)
    requires Has(t, p, a + (b + (c + d)))
    ensures Has(t, p, a) && Has(t, p + |a|, b) && Has(t, p + |a| + |b|, c) && Has(t, p + |a| + |b| + |c|, d)
  {
    hide *;
    HasSplit(t, p, a, b + (c + d));
    HasSplit(t, p + |a|, b, c + d);
    HasSplit(t, p + |a| + |b|, c, d);
  }

  lemma MembersText(pr: Printer, ms: seq<Member>, n: nat, keyed: bool)
    requires ms != []
    ensures ShowMembers(pr, ms, n, keyed) ==
            Indent(pr, n) + (Label(pr, ms[0], keyed) + (Show(pr, ms[0].value, n) +
              (Comma(ms) + (Newline(pr) + ShowMembers(pr, ms[1..], n, keyed)))))
  {
    hide Indent, Label, Newline, Show;
  }

  lemma CollectionText(pr: Printer, v: Value, n: nat)
    requires (v.Array? || v.Object?) && v.members != []
    ensures Show(pr, v, n) ==
            [if v.Array? then LBRACKET else LBRACE] + (Newline(pr) +
              (ShowMembers(pr, v.members, Deeper(n), v.Object?)
                + (Indent(pr, n) + [if v.Array? then RBRACKET else RBRACE])))
  {
    hide Indent, Newline, ShowMembers;
  }

  function Comma(ms: seq<Member>): bytes {
    if |ms| > 1 then [COMMA] else []
  }

  lemma CommaText(ms: seq<Member>)
    ensures Comma(ms) == if |ms| > 1 then [COMMA] else []
  {
  }

  /** Where the pieces of the first member lie: indent, label, value, comma, line end, the rest. */
  lemma SplitMember(t: bytes, p: nat, pr: Printer, ms: seq<Member>, n: nat, keyed: bool)
    returns (head: nat, value: nat, comma: nat, rest: nat)
    requires ms != [] && Has(t, p, ShowMembers(pr, ms, n, keyed))
    ensures Blank(t, p, head) && head == p + |Indent(pr, n)|
    ensures Has(t, head, Label(pr, ms[0], keyed)) && value == head + |Label(pr, ms[0], keyed)|
    ensures Has(t, value, Show(pr, ms[0].value, n)) && comma == value + |Show(pr, ms[0].value, n)|
    ensures |ms| == 1 ==> Blank(t, comma, rest)
    ensures |ms| > 1 ==> comma < |t| && t[comma] == COMMA && Blank(t, comma + 1, rest)
    ensures Has(t, rest, ShowMembers(pr, ms[1..], n, keyed))
    ensures p + |ShowMembers(pr, ms, n, keyed)| == rest + |ShowMembers(pr, ms[1..], n, keyed)|
  {
    hide *;
    CommaText(ms);
    Layout(pr, n);
    var indent, tag, shown, sep, nl := Indent(pr, n), Label(pr, ms[0], keyed), Show(pr, ms[0].value, n), Comma(ms),
      Newline(pr);
    var more := ShowMembers(pr, ms[1..], n, keyed);
    var tail := sep + (nl + more);
    assert ShowMembers(pr, ms, n, keyed) == indent + (tag + (shown + tail)) by { MembersText(pr, ms, n, keyed); }
    HasFour(t, p, indent, tag, shown, tail);
    head, value, comma := p + |indent|, p + |indent| + |tag|, p + |indent| + |tag| + |shown|;
    rest := comma + |sep| + |nl|;
    HasSplit(t, comma, sep, nl + more);
    HasSplit(t, comma + |sep|, nl, more);
    BlankHas(t, p, indent);
    BlankHas(t, comma + |sep|, nl);
    if |ms| > 1 { HasAt(t, comma, sep, 0); }
  }

  /** A collection's text: bracket, blank, members, blank, bracket. */
  lemma SplitCollection(t: bytes, p: nat, pr: Printer, v: Value, n: nat)
    returns (first: nat, last: nat, close: nat)
    requires (v.Array? || v.Object?) && v.members != [] && Has(t, p, Show(pr, v, n))
    ensures p < |t| && t[p] == (if v.Array? then LBRACKET else LBRACE)
    ensures Blank(t, p + 1, first)
    ensures Has(t, first, ShowMembers(pr, v.members, Deeper(n), v.Object?))
    ensures last == first + |ShowMembers(pr, v.members, Deeper(n), v.Object?)|
    ensures Blank(t, last, close) && close < |t| && t[close] == (if v.Array? then RBRACKET else RBRACE)
    ensures p + |Show(pr, v, n)| == close + 1
  {
    hide *;
    Layout(pr, n);
    var open := [if v.Array? then LBRACKET else LBRACE];
    var end := [if v.Array? then RBRACKET else RBRACE];
    var body, nl, indent := ShowMembers(pr, v.members, Deeper(n), v.Object?), Newline(pr), Indent(pr, n);
    var tail := indent + end;
    assert Show(pr, v, n) == open + (nl + (body + tail)) by { CollectionText(pr, v, n); }
    HasFour(t, p, open, nl, body, tail);
    first, last, close := p + 1 + |nl|, p + 1 + |nl| + |body|, p + 1 + |nl| + |body| + |indent|;
    HasSplit(t, last, indent, end);
    BlankHas(t, p + 1, nl);
    BlankHas(t, last, indent);
    HasAt(t, p, open, 0);
    HasAt(t, close, end, 0);
  }

  lemma ParseBlank(t: bytes, a: nat, b: nat, limit: nat, room: nat, cfg: Config)
    requires Blank(t, a, b)
    ensures Parse(t, a, limit, room, cfg) == Parse(t, b, limit, room, cfg)
  {
    SkipBlank(t, a, b);
  }

  /** A blank stretch and then a solid character: the scanner stops there. */
  lemma SkipTo(t: bytes, a: nat, b: nat)
    requires Blank(t, a, b) && b < |t| && Solid(t[b])
    ensures Skip(t, a) == Scan(Ok, b)
  {
    SkipBlank(t, a, b);
  }

  lemma BlankJoin(t: bytes, a: nat, b: nat, c: nat)
    requires Blank(t, a, b) && Blank(t, b, c)
    ensures Blank(t, a, c)
  {
  }

  /** Key and colon of a written member are read back. */
  lemma HeadShown(t: bytes, p: nat, m: Member, room: nat, pr: Printer, cfg: Config)
    requires PlainKey(m.key, true) && Has(t, p, Label(pr, m, true)) && Fits(m.key.text, room, cfg)
    ensures var h := ParseHead(t, p, room, cfg);
            && h.err == Ok && h.key == m.key && h.room == Stored(m.key.text, room, cfg)
            && Blank(t, h.pos, p + |Label(pr, m, true)|)
    ensures p < |t| && t[p] == DQUOTE
  {
    hide Quoted, ShowChars, Has, Blank;
    var colon := if pr.pretty then [COLON, SPACE] else [COLON];
    var text := ShowChars(m.key.text) + [DQUOTE];
    HasSplit(t, p, [DQUOTE] + text, colon);
    HasSplit(t, p, [DQUOTE], text);
    HasAt(t, p, [DQUOTE], 0);
    QuotedShown(t, p + 1, m.key.text);
    var q := p + 1 + |text|;
    HasAt(t, q, colon, 0);
    BlankSelf(t, q);
    SkipTo(t, q, q);
    ColonBlank(t, q, colon);
  }

  lemma ColonBlank(t: bytes, q: nat, colon: bytes)
    requires Has(t, q, colon) && (colon == [COLON] || colon == [COLON, SPACE])
    ensures Blank(t, q + 1, q + |colon|)
  {
    if |colon| == 2 { HasAt(t, q, colon, 1); }
  }

  // ----- one unfolding of each parser, as the proof below needs it

  lemma ParseOpen(t: bytes, p: nat, b: nat, limit: nat, room: nat, cfg: Config)
    requires p < b < |t| && (t[p] == LBRACKET || t[p] == LBRACE) && Blank(t, p + 1, b) && Solid(t[b])
    requires t[b] != RBRACKET && t[b] != RBRACE
    ensures limit == 0 ==> Parse(t, p, limit, room, cfg).err == TooDeep
    ensures limit > 0 && t[p] == LBRACKET ==>
              var r := ParseItems(t, b, limit, room, cfg);
              Parse(t, p, limit, room, cfg) == Parsed(r.err, Array(r.members), r.pos, r.room)
    ensures limit > 0 && t[p] == LBRACE ==>
              var r := ParseMembers(t, b, limit, room, cfg);
              Parse(t, p, limit, room, cfg) == Parsed(r.err, Object(r.members), r.pos, r.room)
  {
    SkipTo(t, p, p);
    SkipTo(t, p + 1, b);
  }

  lemma ParseEmpty(t: bytes, p: nat, limit: nat, room: nat, cfg: Config)
    requires p + 1 < |t|
    ensures t[p] == LBRACKET && t[p + 1] == RBRACKET ==>
              Parse(t, p, limit, room, cfg) ==
              if limit == 0 then Parsed(TooDeep, Array([]), p, room) else Parsed(Ok, Array([]), p + 2, room)
    ensures t[p] == LBRACE && t[p + 1] == RBRACE ==>
              Parse(t, p, limit, room, cfg) ==
              if limit == 0 then Parsed(TooDeep, Object([]), p, room) else Parsed(Ok, Object([]), p + 2, room)
  {
  }

  lemma EmptyRoundTrip(t: bytes, p: nat, v: Value, n: nat, limit: nat, room: nat, pr: Printer, cfg: Config)
    requires v.Collection?() && v.members == [] && Has(t, p, Show(pr, v, n))
    ensures Recovered(Parse(t, p, limit, room, cfg), v, p + |Show(pr, v, n)|, limit, room, cfg)
  {
    HasAt(t, p, Show(pr, v, n), 0);
    HasAt(t, p, Show(pr, v, n), 1);
    ParseEmpty(t, p, limit, room, cfg);
  }

  /** The first piece of a member list, where the parser must stop after the bracket. */
  lemma FirstSolid(t: bytes, head: nat, value: nat, pr: Printer, ms: seq<Member>, n: nat, keyed: bool, cfg: Config)
    requires ms != [] && PlainMembers(ms, keyed)
    requires Has(t, head, Label(pr, ms[0], keyed)) && value == head + |Label(pr, ms[0], keyed)|
    requires Has(t, value, Show(pr, ms[0].value, n))
    ensures !keyed ==> head == value
    ensures head < |t| && Solid(t[head]) && t[head] != RBRACKET && t[head] != RBRACE
  {
    ShowStarts(pr, ms[0].value, n, cfg);
    HasAt(t, value, Show(pr, ms[0].value, n), 0);
    if keyed {
      HasAt(t, head, Label(pr, ms[0], keyed), 0);
    }
  }

  lemma {:induction false} RoundTrip(t: bytes, p: nat, v: Value, n: nat, limit: nat, room: nat, pr: Printer,
                                     cfg: Config)
    requires Plain(v) && Has(t, p, Show(pr, v, n)) && room >= Cost(v, cfg)
    requires v.Str? || v.Array? || v.Object? || !IsWord(At(t, p + |Show(pr, v, n)|))
    ensures Recovered(Parse(t, p, limit, room, cfg), v, p + |Show(pr, v, n)|, limit, room, cfg)
    decreases v, 1
  {
    hide Parse, Has, Blank, ShowMembers, ParseItems, ParseMembers, PlainMembers, MemberNesting, MemberUsage,
      MemberSlots, ShowLeaf;
    if !v.Array? && !v.Object? {
      LeafRoundTrip(t, p, v, limit, room, pr, cfg);
    } else if v.members == [] {
      EmptyRoundTrip(t, p, v, n, limit, room, pr, cfg);
    } else {
      var first, last, close := SplitCollection(t, p, pr, v, n);
      var head, value, comma, rest := SplitMember(t, first, pr, v.members, Deeper(n), v.Object?);
      BlankJoin(t, p + 1, first, head);
      FirstSolid(t, head, value, pr, v.members, Deeper(n), v.Object?, cfg);
      ParseOpen(t, p, head, limit, room, cfg);
      if limit > 0 && v.Array? {
        BlankSelf(t, head);
        ItemsRoundTrip(t, first, head, v.members, Deeper(n), close, limit, room, pr, cfg);
      } else if limit > 0 {
        MembersRoundTrip(t, first, v.members, Deeper(n), close, limit, room, pr, cfg);
      }
    }
  }

  lemma BlankSelf(t: bytes, p: nat)
    requires p < |t|
    ensures Blank(t, p, p)
  {
  }

  lemma CommaNext(t: bytes, comma: nat)
    requires comma < |t| && t[comma] == COMMA
    ensures AfterItem(t, comma) == Sep(Ok, true, comma + 1)
  {
  }

  lemma ItemsEnd(t: bytes, p: nat, close: nat)
    requires Blank(t, p, close) && close < |t| && t[close] == RBRACKET
    ensures AfterItem(t, p) == Sep(Ok, false, close + 1)
  {
    SkipTo(t, p, close);
  }

  /** The separator after a value: never a word character. */
  lemma NoWordAfter(t: bytes, comma: nat, rest: nat, close: nat, more: bool)
    requires if more then comma < |t| && t[comma] == COMMA
             else Blank(t, comma, close) && close < |t| && (t[close] == RBRACKET || t[close] == RBRACE)
    ensures !IsWord(At(t, comma))
  {
  }

  lemma MembersFacts(ms: seq<Member>, keyed: bool, cfg: Config)
    requires ms != []
    ensures ms == [ms[0]] + ms[1..]
    ensures MemberNesting(ms) == Max(Nesting(ms[0].value), MemberNesting(ms[1..]))
    ensures PlainMembers(ms, keyed) ==> PlainKey(ms[0].key, keyed) && Plain(ms[0].value) && PlainMembers(ms[1..], keyed)
    ensures MemberCost(ms, cfg) ==
            SLOT + (if cfg.copying then KeyBytes(ms[0].key) else 0) + Cost(ms[0].value, cfg) + MemberCost(ms[1..], cfg)
  {
    assert ms == [ms[0]] + ms[1..];
    MemberCostFront(ms[0], ms[1..], cfg);
  }

  /** Parsing may start anywhere in the blanks before the first element. */
  lemma {:induction false} ItemsRoundTrip(t: bytes, p: nat, from: nat, ms: seq<Member>, n: nat, close: nat,
                                          limit: nat, room: nat, pr: Printer, cfg: Config)
    requires ms != [] && PlainMembers(ms, false) && limit > 0 && room >= MemberCost(ms, cfg)
    requires Has(t, p, ShowMembers(pr, ms, n, false)) && Blank(t, from, p + |Indent(pr, n)|)
    requires Blank(t, p + |ShowMembers(pr, ms, n, false)|, close) && close < |t| && t[close] == RBRACKET
    ensures RecoveredMembers(ParseItems(t, from, limit, room, cfg), ms, close + 1, limit, room, cfg)
    decreases ms, 0
  {
    hide Parse, ParseItems, AfterItem, Has, Blank, Show, ShowMembers, Label, Indent, PlainMembers, Plain,
      MemberNesting, Nesting, MemberCost, Cost;
    var m := ms[0];
    assert m.value < m;
    MembersFacts(ms, false, cfg);
    var head, value, comma, rest := SplitMember(t, p, pr, ms, n, false);
    FirstSolid(t, head, value, pr, ms, n, false, cfg);
    if |ms| == 1 {
      ShowNone(pr, ms[1..], n, false, cfg);
      BlankJoin(t, comma, rest, close);
    }
    NoWordAfter(t, comma, rest, close, |ms| > 1);
    ParseBlank(t, from, value, limit - 1, room - SLOT, cfg);
    RoundTrip(t, value, m.value, n, limit - 1, room - SLOT, pr, cfg);
    ItemsRound(t, from, limit, room, cfg);
    var e := Parse(t, from, limit - 1, room - SLOT, cfg);
    if e.err != Ok { return; }
    if |ms| == 1 {
      ItemsEnd(t, comma, close);
    } else {
      CommaNext(t, comma);
      var h2, v2, c2, r2 := SplitMember(t, rest, pr, ms[1..], n, false);
      BlankJoin(t, comma + 1, rest, h2);
      ItemsRoundTrip(t, rest, comma + 1, ms[1..], n, close, limit, e.room, pr, cfg);
    }
  }

  lemma ShowNone(pr: Printer, ms: seq<Member>, n: nat, keyed: bool, cfg: Config)
    requires ms == []
    ensures ShowMembers(pr, ms, n, keyed) == [] && MemberCost(ms, cfg) == 0 && MemberNesting(ms) == 0
  {
  }

  lemma CommaNextMember(t: bytes, comma: nat, head: nat)
    requires comma < |t| && t[comma] == COMMA && Blank(t, comma + 1, head) && head < |t| && Solid(t[head])
    ensures AfterMember(t, comma) == Sep(Ok, true, head)
  {
    SkipTo(t, comma + 1, head);
  }

  lemma MembersEnd(t: bytes, p: nat, close: nat)
    requires Blank(t, p, close) && close < |t| && t[close] == RBRACE
    ensures AfterMember(t, p) == Sep(Ok, false, close + 1)
  {
    SkipTo(t, p, close);
  }

  lemma {:induction false} MembersRoundTrip(t: bytes, p: nat, ms: seq<Member>, n: nat, close: nat,
                                            limit: nat, room: nat, pr: Printer, cfg: Config)
    requires ms != [] && PlainMembers(ms, true) && limit > 0 && room >= MemberCost(ms, cfg)
    requires Has(t, p, ShowMembers(pr, ms, n, true))
    requires Blank(t, p + |ShowMembers(pr, ms, n, true)|, close) && close < |t| && t[close] == RBRACE
    ensures RecoveredMembers(ParseMembers(t, p + |Indent(pr, n)|, limit, room, cfg), ms, close + 1, limit, room, cfg)
    decreases ms, 0
  {
    hide Parse, ParseMembers, ParseHead, AfterMember, Has, Blank, Show, ShowMembers, Label, Indent, PlainMembers, Plain,
      MemberNesting, Nesting, MemberCost, Cost;
    var m := ms[0];
    assert m.value < m;
    MembersFacts(ms, true, cfg);
    var head, value, comma, rest := SplitMember(t, p, pr, ms, n, true);
    if |ms| == 1 {
      ShowNone(pr, ms[1..], n, true, cfg);
      BlankJoin(t, comma, rest, close);
    }
    NoWordAfter(t, comma, rest, close, |ms| > 1);
    HeadShown(t, head, m, room - SLOT, pr, cfg);
    var h := ParseHead(t, head, room - SLOT, cfg);
    ParseBlank(t, h.pos, value, limit - 1, h.room, cfg);
    RoundTrip(t, value, m.value, n, limit - 1, h.room, pr, cfg);
    MembersRound(t, head, limit, room, cfg);
    var e := Parse(t, h.pos, limit - 1, h.room, cfg);
    if e.err != Ok { return; }
    if |ms| == 1 {
      MembersEnd(t, comma, close);
    } else {
      var h2, v2, c2, r2 := SplitMember(t, rest, pr, ms[1..], n, true);
      BlankJoin(t, comma + 1, rest, h2);
      FirstSolid(t, h2, v2, pr, ms[1..], n, true, cfg);
      CommaNextMember(t, comma, h2);
      MembersRoundTrip(t, rest, ms[1..], n, close, limit, e.room, pr, cfg);
    }
  }
}
