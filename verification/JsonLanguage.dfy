/** The parser accepts exactly the texts of documents, and gives the document of which it read the text. */
module JsonLanguage {
  import opened Values
  import opened JsonGrammar
  import opened JsonText
  import JsonRoundTrip

  // ----- gaps

  lemma {:induction false} BlockSkips(t: bytes, a: nat, m: nat, p: nat)
    requires BlockComment(t, a, m) && a + 2 <= p <= m
    ensures SkipBlock(t, p, p > a + 2 && t[p - 1] == STAR) == Scan(Ok, m + 2)
    decreases m - p
  {
    if p == m {
      assert SkipBlock(t, m + 1, true) == Scan(Ok, m + 2);
      if m > a + 2 && t[m - 1] == STAR {
        assert t[m] != SLASH;
      }
    } else {
      BlockSkips(t, a, m, p + 1);
      if p > a + 2 && t[p - 1] == STAR {
        assert t[p - 1] != 0 && !(t[p - 1] == 0x2A && t[p] == 0x2F);
      }
    }
  }

  lemma {:induction false} LineSkips(t: bytes, a: nat, m: nat, p: nat)
    requires LineComment(t, a, m) && a + 2 <= p <= m
    ensures SkipLine(t, p) == Scan(Ok, m)
    decreases m - p
  {
    if p < m {
      LineSkips(t, a, m, p + 1);
    }
  }

  /** A gap is passed over. */
  lemma {:induction false} GapSkips(t: bytes, a: nat, b: nat)
    requires Gap(t, a, b)
    ensures Skip(t, a) == Skip(t, b)
    decreases b - a
  {
    if a == b { return; }
    if IsSpace(t[a]) && Gap(t, a + 1, b) {
      GapSkips(t, a + 1, b);
      return;
    }
    if m: nat :| BlockComment(t, a, m) && m + 2 <= b && Gap(t, m + 2, b) {
      BlockCommentSkips(t, a, m);
      GapSkips(t, m + 2, b);
      return;
    }
    var m: nat :| LineComment(t, a, m) && m + 1 <= b && Gap(t, m + 1, b);
    LineCommentSkips(t, a, m);
    GapSkips(t, m + 1, b);
  }

  lemma BlockCommentSkips(t: bytes, a: nat, m: nat)
    requires BlockComment(t, a, m)
    ensures Skip(t, a) == Skip(t, m + 2)
  {
    hide SkipLine;
    BlockSkips(t, a, m, a + 2);
  }

  lemma LineCommentSkips(t: bytes, a: nat, m: nat)
    requires LineComment(t, a, m)
    ensures Skip(t, a) == Skip(t, m + 1)
  {
    LineSkips(t, a, m, a + 2);
    hide SkipLine;
  }

  /** A character that ends a gap. */
  predicate Solid(c: byte) {
    c != 0 && !IsSpace(c) && c != SLASH
  }

  lemma GapThenSolid(t: bytes, a: nat, b: nat)
    requires Gap(t, a, b) && b < |t| && Solid(t[b])
    ensures Skip(t, a) == Scan(Ok, b)
  {
    GapSkips(t, a, b);
  }

  lemma {:induction false} SkippedBlock(t: bytes, a: nat, p: nat)
    requires a + 2 <= p && a + 1 < |t| && t[a] == SLASH && t[a + 1] == STAR
    requires forall i :: a + 2 <= i < p && i < |t| ==> t[i] != 0
    requires forall i :: a + 2 <= i < p - 1 && i + 1 < |t| ==> !(t[i] == STAR && t[i + 1] == SLASH)
    requires p <= |t|
    ensures var r := SkipBlock(t, p, p > a + 2 && t[p - 1] == STAR);
            r.err == Ok ==> a + 4 <= r.pos <= |t| && BlockComment(t, a, r.pos - 2)
    decreases |t| - p
  {
    var star := p > a + 2 && t[p - 1] == STAR;
    if p == |t| || t[p] == 0 {
      return;
    }
    if t[p] == SLASH && star {
      assert BlockComment(t, a, p - 1);
    } else {
      SkippedBlock(t, a, p + 1);
    }
  }

  lemma {:induction false} SkippedLine(t: bytes, a: nat, p: nat)
    requires a + 2 <= p <= |t| && t[a] == SLASH && t[a + 1] == SLASH
    requires forall i :: a + 2 <= i < p ==> t[i] != 0 && t[i] != LF
    ensures var r := SkipLine(t, p); r.err == Ok ==> LineComment(t, a, r.pos)
    decreases |t| - p
  {
    if p < |t| && t[p] != 0 && t[p] != LF {
      SkippedLine(t, a, p + 1);
    }
  }

  /** Only gaps are passed over. */
  lemma {:induction false} SkippedIsGap(t: bytes, a: nat)
    ensures var s := Skip(t, a); s.err == Ok ==> a <= s.pos < |t| && Gap(t, a, s.pos) && Solid(t[s.pos])
    decreases |t| - a
  {
    if a >= |t| || Skip(t, a).err != Ok { return; }
    var e := Skip(t, a).pos;
    if IsSpace(t[a]) {
      SkippedIsGap(t, a + 1);
    } else if t[a] == SLASH && At(t, a + 1) == STAR {
      SkippedBlock(t, a, a + 2);
      var m := SkipBlock(t, a + 2, false).pos - 2;
      SkippedIsGap(t, m + 2);
      assert BlockComment(t, a, m) && Gap(t, m + 2, e);
    } else if t[a] == SLASH {
      SkippedLine(t, a, a + 2);
      var m := SkipLine(t, a + 2).pos;
      assert LineComment(t, a, m);
      assert Skip(t, m) == Skip(t, m + 1);
      SkippedIsGap(t, m + 1);
      assert Gap(t, m + 1, e);
    }
  }

  // ----- strings

  lemma EscapesAgree(c: byte)
    ensures Unescape(c) == Escaped(c)
  {
  }

  lemma {:induction false} CharsRead(t: bytes, a: nat, b: nat, q: byte, s: bytes)
    requires Chars(t, a, b, q, s) && b < |t| && t[b] == q && (q == DQUOTE || q == SQUOTE)
    ensures Quoted(t, a, q) == Text(Ok, s, b + 1)
    decreases |s|
  {
    if s == [] { return; }
    assert [s[0]] + s[1..] == s;
    if t[a] == s[0] && t[a] != 0 && t[a] != q && t[a] != 0x5C && Chars(t, a + 1, b, q, s[1..]) {
      CharsRead(t, a + 1, b, q, s[1..]);
      return;
    }
    EscapesAgree(t[a + 1]);
    CharsRead(t, a + 2, b, q, s[1..]);
  }

  lemma {:induction false} ReadIsChars(t: bytes, a: nat, q: byte)
    requires q == DQUOTE || q == SQUOTE
    ensures var r := Quoted(t, a, q);
            r.err == Ok ==> r.pos <= |t| && a < r.pos && t[r.pos - 1] == q && Chars(t, a, r.pos - 1, q, r.text)
    decreases |t| - a
  {
    var r := Quoted(t, a, q);
    if a >= |t| || r.err != Ok || t[a] == q { return; }
    if t[a] == BACKSLASH {
      ReadIsChars(t, a + 2, q);
      EscapesAgree(t[a + 1]);
      assert r.text[1..] == Quoted(t, a + 2, q).text;
    } else {
      ReadIsChars(t, a + 1, q);
      assert r.text[1..] == Quoted(t, a + 1, q).text;
    }
  }

  // ----- words

  lemma WordsAgree(c: byte)
    ensures IsWord(c) == WordByte(c) && (IsQuote(c) <==> c == 0x22 || c == 0x27)
    ensures IsWord(c) ==> Solid(c) && !IsQuote(c) && c != LBRACKET && c != LBRACE
  {
  }

  lemma {:induction false} WordEndIs(t: bytes, a: nat, p: nat)
    requires a <= p <= |t| && forall i :: a <= i < p ==> WordByte(t[i])
    ensures var e := WordEnd(t, p); p <= e <= |t| && (forall i :: a <= i < e ==> WordByte(t[i])) && WordStops(t, e)
    decreases |t| - p
  {
    if p < |t| {
      WordsAgree(t[p]);
      if WordByte(t[p]) {
        WordEndIs(t, a, p + 1);
      }
    }
  }

  lemma {:induction false} MagnitudeGrows(s: bytes, k: nat)
    requires AllDigits(s) && k <= |s|
    ensures Magnitude(s) >= Magnitude(s[..k])
    decreases |s|
  {
    if k < |s| {
      MagnitudeGrows(s[..|s| - 1], k);
      assert s[..|s| - 1][..k] == s[..k];
    } else {
      assert s[..k] == s;
    }
  }

  /** The digit loop, after `k` digits. */
  lemma {:induction false} DigitsAre(s: bytes, k: nat)
    requires k <= |s| && AllDigits(s[..k]) && Magnitude(s[..k]) < UINT_RANGE
    ensures var d := ReadDigits(s[k..], Magnitude(s[..k]));
            (d.Digits? && d.rest == [] <==> AllDigits(s) && Magnitude(s) < UINT_RANGE)
            && (d.Digits? && d.rest == [] ==> d.value == Magnitude(s))
    decreases |s| - k
  {
    if k == |s| {
      assert s[..k] == s && s[k..] == [];
      return;
    }
    var m := Magnitude(s[..k]);
    assert s[k..][0] == s[k] && s[k..][1..] == s[k + 1..];
    if !IsDigit(s[k]) {
      return;
    }
    assert s[..k + 1][..k] == s[..k];
    assert Magnitude(s[..k + 1]) == m * 10 + (s[k] - 48);
    if Magnitude(s[..k + 1]) < UINT_RANGE {
      DigitsAre(s, k + 1);
    } else if AllDigits(s) {
      MagnitudeGrows(s, k + 1);
    }
  }

  /** Words are classified as described. */
  lemma WordMeansToken(w: bytes, v: Value, cfg: Config)
    requires w != []
    ensures WordMeans(w, v, cfg.toFloat) <==> ParseToken(w, cfg) == Leaf(Ok, v)
  {
    var u := Bare(w);
    DigitsAre(u, 0);
    assert u[..0] == [] && u[0..] == u;
    hide Magnitude, ReadDigits;
  }

  // ----- a text of a document is read as that document

  /** The value itself at its cost, or the one thing that is short: nesting levels or pool bytes. */
  ghost predicate Outcome(r: Parsed, v: Value, end: nat, limit: nat, room: nat, cfg: Config) {
    if Nesting(v) <= limit then
      if Cost(v, cfg) <= room then r == Parsed(Ok, v, end, room - Cost(v, cfg)) else r.err == NoMemory
    else r.err == TooDeep || (r.err == NoMemory && Cost(v, cfg) > room)
  }

  ghost predicate OutcomeMembers(r: ParsedMembers, ms: seq<Member>, end: nat, limit: nat, room: nat, cfg: Config) {
    if MemberNesting(ms) < limit then
      if MemberCost(ms, cfg) <= room then r == ParsedMembers(Ok, ms, end, room - MemberCost(ms, cfg))
      else r.err == NoMemory
    else r.err == TooDeep || (r.err == NoMemory && MemberCost(ms, cfg) > room)
  }

  lemma TextStarts(t: bytes, a: nat, b: nat, v: Value, toFloat: bytes -> UInt)
    requires TextOf(t, a, b, v, toFloat)
    ensures a < b <= |t| && Solid(t[a]) && t[a] != RBRACKET && t[a] != RBRACE
    ensures if v.Array? then t[a] == LBRACKET
            else if v.Object? then t[a] == LBRACE
            else t[a] != LBRACKET && t[a] != LBRACE && (IsQuote(t[a]) <==> v.Str?)
  {
    hide ItemsOf, MembersOf, Gap, Chars, WordMeans;
    if !v.Str? && !v.Array? && !v.Object? {
      WordsAgree(t[a]);
    }
  }

  lemma StringParses(t: bytes, a: nat, b: nat, v: Value, limit: nat, room: nat, cfg: Config)
    requires v.Str? && TextOf(t, a, b, v, cfg.toFloat)
    ensures Outcome(Parse(t, a, limit, room, cfg), v, b, limit, room, cfg)
  {
    hide Chars, Quoted;
    TextStarts(t, a, b, v, cfg.toFloat);
    CharsRead(t, a + 1, b - 1, t[a], v.text);
  }

  lemma WordParses(t: bytes, a: nat, b: nat, v: Value, limit: nat, room: nat, cfg: Config)
    requires !v.Str? && !v.Array? && !v.Object? && TextOf(t, a, b, v, cfg.toFloat)
    ensures Outcome(Parse(t, a, limit, room, cfg), v, b, limit, room, cfg)
  {
    hide WordMeans, ParseToken, Usage;
    TextStarts(t, a, b, v, cfg.toFloat);
    TokenEndIs(t, a, b);
    WordMeansToken(t[a..b], v, cfg);
    LeafCost(v, cfg);
  }

  lemma LeafCost(v: Value, cfg: Config)
    requires !v.Str? && !v.Array? && !v.Object?
    ensures Cost(v, cfg) == 0 && Nesting(v) == 0
  {
  }

  /** A word that stops, or fills the token buffer, is the token. */
  lemma TokenEndIs(t: bytes, a: nat, b: nat)
    requires AllWord(t, a, b) && b - a <= MAX_TOKEN && (b - a == MAX_TOKEN || WordStops(t, b))
    ensures TokenEnd(t, a) == b
  {
    WordRuns(t, a, b);
  }

  lemma {:induction false} WordRuns(t: bytes, a: nat, b: nat)
    requires a <= b <= |t| && forall i :: a <= i < b ==> WordByte(t[i])
    ensures WordEnd(t, a) >= b && (WordStops(t, b) ==> WordEnd(t, a) == b)
    decreases b - a
  {
    if a < b {
      WordsAgree(t[a]);
      WordRuns(t, a + 1, b);
    } else if b < |t| {
      WordsAgree(t[b]);
    }
  }

  lemma {:induction false} TextParses(t: bytes, p: nat, a: nat, b: nat, v: Value, limit: nat, room: nat, cfg: Config)
    requires Gap(t, p, a) && TextOf(t, a, b, v, cfg.toFloat)
    ensures Outcome(Parse(t, p, limit, room, cfg), v, b, limit, room, cfg)
    decreases v, 1
  {
    hide Gap, TextOf, ItemsOf, MembersOf, ParseItems, ParseMembers, ParseScalar, Skip, MemberUsage, MemberSlots;
    TextStarts(t, a, b, v, cfg.toFloat);
    GapThenSolid(t, p, a);
    NoGap(t, a);
    GapThenSolid(t, a, a);
    if v.Str? {
      StringParses(t, a, b, v, limit, room, cfg);
      return;
    }
    if !v.Array? && !v.Object? {
      WordParses(t, a, b, v, limit, room, cfg);
      return;
    }
    var ms := v.members;
    if ms == [] {
      EmptyParses(t, a, b, v, limit, room, cfg);
      return;
    }
    var h := CollectionOpens(t, a, b, v, limit, room, cfg);
    if limit == 0 { return; }
    if v.Array? {
      ItemsParse(t, h, a + 1, b - 1, ms, limit, room, cfg);
    } else {
      MembersParse(t, h, a + 1, b - 1, ms, limit, room, cfg);
    }
  }

  lemma NoGap(t: bytes, a: nat)
    requires a <= |t|
    ensures Gap(t, a, a)
  {
  }

  lemma EmptyParses(t: bytes, a: nat, b: nat, v: Value, limit: nat, room: nat, cfg: Config)
    requires (v.Array? || v.Object?) && v.members == [] && TextOf(t, a, b, v, cfg.toFloat)
    ensures Outcome(Parse(t, a, limit, room, cfg), v, b, limit, room, cfg)
  {
    hide Gap;
    NoGap(t, a);
    GapThenSolid(t, a, a);
    GapThenSolid(t, a + 1, b - 1);
  }

  /** Behind the bracket the scanner stops at the first element or key, at `h`. */
  lemma CollectionOpens(t: bytes, a: nat, b: nat, v: Value, limit: nat, room: nat, cfg: Config) returns (h: nat)
    requires (v.Array? || v.Object?) && v.members != [] && TextOf(t, a, b, v, cfg.toFloat)
    ensures b <= |t| && a + 2 <= b && Gap(t, a + 1, h) && h < |t| && Solid(t[h])
    ensures Skip(t, a + 1) == Skip(t, h) == Scan(Ok, h)
    ensures v.Array? ==> ItemsOf(t, a + 1, b - 1, v.members, cfg.toFloat) && t[b - 1] == RBRACKET
    ensures v.Object? ==> MembersOf(t, a + 1, b - 1, v.members, cfg.toFloat) && t[b - 1] == RBRACE
    ensures limit == 0 ==> Parse(t, a, limit, room, cfg).err == TooDeep
    ensures limit > 0 && v.Array? ==>
              var r := ParseItems(t, h, limit, room, cfg);
              Parse(t, a, limit, room, cfg) == Parsed(r.err, Array(r.members), r.pos, r.room)
    ensures limit > 0 && v.Object? ==>
              var r := ParseMembers(t, h, limit, room, cfg);
              Parse(t, a, limit, room, cfg) == Parsed(r.err, Object(r.members), r.pos, r.room)
  {
    hide Gap, ItemsOf, MembersOf, ParseItems, ParseMembers, ParseScalar;
    TextStarts(t, a, b, v, cfg.toFloat);
    NoGap(t, a);
    GapThenSolid(t, a, a);
    h := FirstStarts(t, a + 1, b - 1, v.members, v.Object?, cfg.toFloat);
    GapThenSolid(t, a + 1, h);
    NoGap(t, h);
    GapThenSolid(t, h, h);
  }

  lemma FirstStarts(t: bytes, a: nat, b: nat, ms: seq<Member>, keyed: bool, toFloat: bytes -> UInt) returns (h: nat)
    requires ms != []
    requires if keyed then MembersOf(t, a, b, ms, toFloat) else ItemsOf(t, a, b, ms, toFloat)
    ensures Gap(t, a, h) && h < |t| && Solid(t[h]) && t[h] != RBRACKET && t[h] != RBRACE
  {
    hide Gap, TextOf, KeyOf;
    if keyed {
      var g, h', c, i, j, k := OneMember(t, a, b, ms, toFloat);
      KeyStarts(t, g, h', ms[0].key);
      h := g;
    } else {
      var i, j, k := OneItem(t, a, b, ms, toFloat);
      TextStarts(t, i, j, ms[0].value, toFloat);
      h := i;
    }
  }

  lemma OneItem(t: bytes, a: nat, b: nat, ms: seq<Member>, toFloat: bytes -> UInt) returns (i: nat, j: nat, k: nat)
    requires ms != [] && ItemsOf(t, a, b, ms, toFloat)
    ensures var last := |ms| == 1;
            && ItemAt(t, a, i, j, k, b, ms[0], last) && TextOf(t, i, j, ms[0].value, toFloat)
            && (!last ==> ItemsOf(t, k + 1, b, ms[1..], toFloat))
  {
    hide TextOf, ItemAt;
    var last := |ms| == 1;
    i, j, k :| ItemAt(t, a, i, j, k, b, ms[0], last) && TextOf(t, i, j, ms[0].value, toFloat)
               && (!last ==> ItemsOf(t, k + 1, b, ms[1..], toFloat));
  }

  lemma OneMember(t: bytes, a: nat, b: nat, ms: seq<Member>, toFloat: bytes -> UInt)
    returns (g: nat, h: nat, c: nat, i: nat, j: nat, k: nat)
    requires ms != [] && MembersOf(t, a, b, ms, toFloat)
    ensures var last := |ms| == 1;
            && NameAt(t, a, g, h, c, ms[0].key) && ValueAt(t, c, i, j, k, b, last)
            && TextOf(t, i, j, ms[0].value, toFloat) && (!last ==> MembersOf(t, k + 1, b, ms[1..], toFloat))
  {
    hide TextOf, NameAt, ValueAt;
    var last := |ms| == 1;
    c, i, j, k :| NameOf(t, a, c, ms[0].key) && ValueAt(t, c, i, j, k, b, last)
                  && TextOf(t, i, j, ms[0].value, toFloat)
                  && (!last ==> MembersOf(t, k + 1, b, ms[1..], toFloat));
    g, h :| NameAt(t, a, g, h, c, ms[0].key);
  }

  lemma KeyStarts(t: bytes, a: nat, b: nat, key: Key)
    requires KeyOf(t, a, b, key)
    ensures a < b <= |t| && Solid(t[a]) && t[a] != RBRACKET && t[a] != RBRACE && key.Key? && !key.linked
  {
    hide Chars;
    if AllWord(t, a, b) {
      WordsAgree(t[a]);
    }
  }

  lemma {:induction false} KeyParses(t: bytes, a: nat, b: nat, key: Key)
    requires KeyOf(t, a, b, key)
    ensures KeyText(t, a) == Text(Ok, key.text, b)
  {
    hide Chars, Quoted;
    KeyStarts(t, a, b, key);
    if QuotedText(t, a, b, key.text) {
      CharsRead(t, a + 1, b - 1, t[a], key.text);
    } else {
      WordsAgree(t[a]);
      WordRuns(t, a, b);
    }
  }

  lemma HeadParses(t: bytes, p: nat, h: nat, c: nat, key: Key, room: nat, cfg: Config)
    requires KeyOf(t, p, h, key) && Gap(t, h, c) && c < |t| && t[c] == COLON
    ensures ParseHead(t, p, room, cfg) ==
            if Fits(key.text, room, cfg) then Head(Ok, key, c + 1, Stored(key.text, room, cfg))
            else Head(NoMemory, NoKey, h, room)
  {
    hide Gap, KeyText;
    KeyParses(t, p, h, key);
    GapThenSolid(t, h, c);
  }

  lemma Separator(t: bytes, j: nat, k: nat, last: bool, close: byte)
    requires Gap(t, j, k) && k < |t| && t[k] == (if last then close else COMMA)
    requires close == RBRACKET || close == RBRACE
    ensures close == RBRACKET ==> AfterItem(t, j) == Sep(Ok, !last, k + 1)
    ensures close == RBRACE && last ==> AfterMember(t, j) == Sep(Ok, false, k + 1)
    ensures close == RBRACE && !last ==> AfterMember(t, j) == Sep(Skip(t, k + 1).err, true, Skip(t, k + 1).pos)
  {
    hide Gap;
    GapThenSolid(t, j, k);
  }

  lemma {:induction false} ItemsParse(t: bytes, p: nat, a: nat, b: nat, ms: seq<Member>, limit: nat, room: nat,
                                      cfg: Config)
    requires ms != [] && limit > 0 && ItemsOf(t, a, b, ms, cfg.toFloat) && b < |t| && t[b] == RBRACKET
    requires Gap(t, a, p) && Skip(t, a) == Skip(t, p)
    ensures OutcomeMembers(ParseItems(t, p, limit, room, cfg), ms, b + 1, limit, room, cfg)
    decreases ms, 0
  {
    hide Gap, TextOf, ItemsOf, Parse, ParseItems, AfterItem, Skip, MemberNesting, Nesting, MemberCost, Cost;
    var m := ms[0];
    assert m.value < m;
    JsonRoundTrip.MembersFacts(ms, false, cfg);
    if room < SLOT {
      ItemsNoRoom(t, p, limit, room, cfg);
      return;
    }
    var i, j, k := OneItem(t, a, b, ms, cfg.toFloat);
    TextParses(t, a, i, j, m.value, limit - 1, room - SLOT, cfg);
    SameParse(t, a, p, limit - 1, room - SLOT, cfg);
    ItemsRound(t, p, limit, room, cfg);
    var e := Parse(t, p, limit - 1, room - SLOT, cfg);
    if e.err != Ok { return; }
    var last := |ms| == 1;
    Separator(t, j, k, last, RBRACKET);
    if last {
      NoMembers(ms[1..], cfg);
      return;
    }
    NoGap(t, k + 1);
    ItemsParse(t, k + 1, k + 1, b, ms[1..], limit, e.room, cfg);
  }

  lemma ItemsNoRoom(t: bytes, p: nat, limit: nat, room: nat, cfg: Config)
    requires limit > 0 && room < SLOT
    ensures ParseItems(t, p, limit, room, cfg).err == NoMemory && ParseMembers(t, p, limit, room, cfg).err == NoMemory
  {
  }

  lemma SameParse(t: bytes, a: nat, p: nat, limit: nat, room: nat, cfg: Config)
    requires Skip(t, a) == Skip(t, p)
    ensures Parse(t, a, limit, room, cfg) == Parse(t, p, limit, room, cfg)
  {
    hide Skip, ParseArray, ParseObject, ParseScalar;
  }

  lemma NoMembers(ms: seq<Member>, cfg: Config)
    requires ms == []
    ensures MemberCost(ms, cfg) == 0 && MemberNesting(ms) == 0
  {
  }

  lemma {:induction false} MembersParse(t: bytes, p: nat, a: nat, b: nat, ms: seq<Member>, limit: nat, room: nat,
                                        cfg: Config)
    requires ms != [] && limit > 0 && MembersOf(t, a, b, ms, cfg.toFloat) && b < |t| && t[b] == RBRACE
    requires Skip(t, a) == Scan(Ok, p)
    ensures OutcomeMembers(ParseMembers(t, p, limit, room, cfg), ms, b + 1, limit, room, cfg)
    decreases ms, 0
  {
    hide Gap, TextOf, MembersOf, KeyOf, Parse, ParseMembers, ParseHead, AfterMember, Skip, MemberNesting, Nesting,
      MemberCost, Cost;
    var m := ms[0];
    assert m.value < m;
    JsonRoundTrip.MembersFacts(ms, true, cfg);
    if room < SLOT {
      ItemsNoRoom(t, p, limit, room, cfg);
      return;
    }
    var g, h, c, i, j, k := OneMember(t, a, b, ms, cfg.toFloat);
    KeyStarts(t, g, h, m.key);
    GapThenSolid(t, a, g);
    HeadParses(t, p, h, c, m.key, room - SLOT, cfg);
    MembersRound(t, p, limit, room, cfg);
    if !Fits(m.key.text, room - SLOT, cfg) { return; }
    var room' := Stored(m.key.text, room - SLOT, cfg);
    TextParses(t, c + 1, i, j, m.value, limit - 1, room', cfg);
    var e := Parse(t, c + 1, limit - 1, room', cfg);
    if e.err != Ok { return; }
    var last := |ms| == 1;
    Separator(t, j, k, last, RBRACE);
    if last {
      NoMembers(ms[1..], cfg);
      return;
    }
    var g2 := FirstStarts(t, k + 1, b, ms[1..], true, cfg.toFloat);
    GapThenSolid(t, k + 1, g2);
    MembersParse(t, g2, k + 1, b, ms[1..], limit, e.room, cfg);
  }

  // ----- what is read is a text of the document

  lemma {:induction false} GapJoin(t: bytes, a: nat, b: nat, c: nat)
    requires Gap(t, a, b) && Gap(t, b, c)
    ensures Gap(t, a, c)
    decreases b - a
  {
    if a == b { return; }
    if (t[a] == 0x20 || t[a] == 0x09 || t[a] == 0x0A || t[a] == 0x0D) && Gap(t, a + 1, b) {
      GapJoin(t, a + 1, b, c);
    } else if m: nat :| BlockComment(t, a, m) && m + 2 <= b && Gap(t, m + 2, b) {
      GapJoin(t, m + 2, b, c);
      assert BlockComment(t, a, m) && Gap(t, m + 2, c);
    } else if m: nat :| LineComment(t, a, m) && m + 1 <= b && Gap(t, m + 1, b) {
      GapJoin(t, m + 1, b, c);
      assert LineComment(t, a, m) && Gap(t, m + 1, c);
    }
  }

  lemma TokenIsText(t: bytes, a: nat, limit: nat, room: nat, cfg: Config)
    requires a < |t| && !IsQuote(t[a]) && ParseScalar(t, a, room, cfg).err == Ok
    ensures var r := ParseScalar(t, a, room, cfg); TextOf(t, a, r.pos, r.value, cfg.toFloat)
  {
    hide WordMeans, ParseToken;
    var e := TokenEnd(t, a);
    WordEndIs(t, a, a);
    WordMeansToken(t[a..e], ParseToken(t[a..e], cfg).value, cfg);
    TokenIsLeaf(t[a..e], cfg);
  }

  lemma TokenIsLeaf(w: bytes, cfg: Config)
    ensures var v := ParseToken(w, cfg).value; !v.Str? && !v.Array? && !v.Object?
  {
  }

  lemma QuoteIsText(t: bytes, a: nat, room: nat, cfg: Config)
    requires a < |t| && IsQuote(t[a]) && ParseScalar(t, a, room, cfg).err == Ok
    ensures var r := ParseScalar(t, a, room, cfg); TextOf(t, a, r.pos, r.value, cfg.toFloat)
  {
    hide Quoted, Chars;
    ReadIsChars(t, a + 1, t[a]);
  }

  lemma {:induction false} ParsedIsText(t: bytes, p: nat, limit: nat, room: nat, cfg: Config) returns (a: nat)
    requires Parse(t, p, limit, room, cfg).err == Ok
    ensures var r := Parse(t, p, limit, room, cfg); Gap(t, p, a) && TextOf(t, a, r.pos, r.value, cfg.toFloat)
    decreases limit, 2, |t| - p
  {
    hide Gap, TextOf, ItemsOf, MembersOf, ParseItems, ParseMembers, ParseScalar, Skip;
    SkippedIsGap(t, p);
    a := Skip(t, p).pos;
    if t[a] == LBRACKET || t[a] == LBRACE {
      SkippedIsGap(t, a + 1);
      var q := Skip(t, a + 1).pos;
      if t[a] == LBRACKET && t[q] != RBRACKET {
        ParsedAreItems(t, a + 1, q, limit, room, cfg);
        var r := ParseItems(t, q, limit, room, cfg);
        CollectionText(t, a, r.members, r.pos, false, cfg.toFloat);
      } else if t[a] == LBRACE && t[q] != RBRACE {
        ParsedAreMembers(t, a + 1, q, limit, room, cfg);
        var r := ParseMembers(t, q, limit, room, cfg);
        CollectionText(t, a, r.members, r.pos, true, cfg.toFloat);
      } else {
        EmptyText(t, a, q + 1, t[a] == LBRACE, cfg.toFloat);
      }
    } else if IsQuote(t[a]) {
      QuoteIsText(t, a, room, cfg);
    } else {
      TokenIsText(t, a, limit, room, cfg);
    }
  }

  lemma EmptyText(t: bytes, a: nat, b: nat, keyed: bool, toFloat: bytes -> UInt)
    requires a + 2 <= b <= |t| && Gap(t, a + 1, b - 1)
    requires if keyed then t[a] == LBRACE && t[b - 1] == RBRACE else t[a] == LBRACKET && t[b - 1] == RBRACKET
    ensures TextOf(t, a, b, if keyed then Object([]) else Array([]), toFloat)
  {
    hide Gap;
  }

  lemma CollectionText(t: bytes, a: nat, ms: seq<Member>, b: nat, keyed: bool, toFloat: bytes -> UInt)
    requires ms != [] && a + 2 <= b <= |t|
    requires if keyed then t[a] == LBRACE && t[b - 1] == RBRACE && MembersOf(t, a + 1, b - 1, ms, toFloat)
             else t[a] == LBRACKET && t[b - 1] == RBRACKET && ItemsOf(t, a + 1, b - 1, ms, toFloat)
    ensures TextOf(t, a, b, if keyed then Object(ms) else Array(ms), toFloat)
  {
    hide Gap, ItemsOf, MembersOf;
  }

  lemma {:induction false} ParsedAreItems(t: bytes, a: nat, p: nat, limit: nat, room: nat, cfg: Config)
    requires limit > 0 && Gap(t, a, p) && ParseItems(t, p, limit, room, cfg).err == Ok
    ensures var r := ParseItems(t, p, limit, room, cfg);
            && a < r.pos <= |t| && t[r.pos - 1] == RBRACKET
            && r.members != [] && ItemsOf(t, a, r.pos - 1, r.members, cfg.toFloat)
    decreases limit, 0, |t| - p
  {
    hide Gap, TextOf, ItemsOf, Parse, ParseItems, Skip;
    if room < SLOT {
      ItemsNoRoom(t, p, limit, room, cfg);
      return;
    }
    ItemsRound(t, p, limit, room, cfg);
    var r, e := ParseItems(t, p, limit, room, cfg), Parse(t, p, limit - 1, room - SLOT, cfg);
    var i := ParsedIsText(t, p, limit - 1, room - SLOT, cfg);
    GapJoin(t, a, p, i);
    TextEnds(t, i, e.pos, e.value, cfg.toFloat);
    SkippedIsGap(t, e.pos);
    var k := Skip(t, e.pos).pos;
    var last := t[k] == RBRACKET;
    if last {
      ItemsText(t, a, i, e.pos, k, k, [Item(e.value)], cfg.toFloat);
    } else {
      NoGap(t, k + 1);
      ParsedAreItems(t, k + 1, k + 1, limit, e.room, cfg);
      var rest := ParseItems(t, k + 1, limit, e.room, cfg);
      assert r.members[1..] == rest.members;
      ItemsText(t, a, i, e.pos, k, r.pos - 1, r.members, cfg.toFloat);
    }
  }

  lemma TextEnds(t: bytes, a: nat, b: nat, v: Value, toFloat: bytes -> UInt)
    requires TextOf(t, a, b, v, toFloat)
    ensures a < b <= |t|
  {
    TextStarts(t, a, b, v, toFloat);
  }

  lemma ItemsText(t: bytes, a: nat, i: nat, j: nat, k: nat, b: nat, ms: seq<Member>, toFloat: bytes -> UInt)
    requires ms != [] && TextOf(t, i, j, ms[0].value, toFloat) && ms[0].key == NoKey
    requires Gap(t, a, i) && Gap(t, j, k) && a <= i <= j <= k <= b <= |t|
    requires if |ms| == 1 then k == b else k < b && t[k] == COMMA && ItemsOf(t, k + 1, b, ms[1..], toFloat)
    ensures ItemsOf(t, a, b, ms, toFloat)
  {
    hide TextOf, Gap;
    var last := |ms| == 1;
    assert ItemAt(t, a, i, j, k, b, ms[0], last);
  }

  lemma MembersText(t: bytes, a: nat, g: nat, h: nat, c: nat, i: nat, j: nat, k: nat, b: nat, ms: seq<Member>,
                    toFloat: bytes -> UInt)
    requires ms != [] && TextOf(t, i, j, ms[0].value, toFloat) && KeyOf(t, g, h, ms[0].key)
    requires a <= g <= h <= c < i <= j <= k <= b <= |t| && t[c] == COLON
    requires Gap(t, a, g) && Gap(t, h, c) && Gap(t, c + 1, i) && Gap(t, j, k)
    requires if |ms| == 1 then k == b else k < b && t[k] == COMMA && MembersOf(t, k + 1, b, ms[1..], toFloat)
    ensures MembersOf(t, a, b, ms, toFloat)
  {
    hide TextOf, Gap, KeyOf;
    var last := |ms| == 1;
    assert NameAt(t, a, g, h, c, ms[0].key);
    assert NameOf(t, a, c, ms[0].key);
    assert ValueAt(t, c, i, j, k, b, last);
  }

  lemma KeyIsText(t: bytes, p: nat)
    requires KeyText(t, p).err == Ok
    ensures var k := KeyText(t, p); KeyOf(t, p, k.pos, Key(k.text, false))
  {
    hide Quoted, Chars;
    if p < |t| {
      ReadIsChars(t, p + 1, if IsQuote(t[p]) then t[p] else DQUOTE);
      WordEndIs(t, p, p);
    }
  }

  lemma {:induction false} ParsedAreMembers(t: bytes, a: nat, p: nat, limit: nat, room: nat, cfg: Config)
    requires limit > 0 && Gap(t, a, p) && ParseMembers(t, p, limit, room, cfg).err == Ok
    ensures var r := ParseMembers(t, p, limit, room, cfg);
            && a < r.pos <= |t| && t[r.pos - 1] == RBRACE
            && r.members != [] && MembersOf(t, a, r.pos - 1, r.members, cfg.toFloat)
    decreases limit, 0, |t| - p
  {
    hide Gap, TextOf, MembersOf, KeyOf, KeyText, Parse, ParseMembers, Skip;
    if room < SLOT {
      ItemsNoRoom(t, p, limit, room, cfg);
      return;
    }
    MembersRound(t, p, limit, room, cfg);
    var r, h := ParseMembers(t, p, limit, room, cfg), ParseHead(t, p, room - SLOT, cfg);
    KeyIsText(t, p);
    var q := KeyText(t, p).pos;
    KeyEnds(t, p, q, h.key);
    SkippedIsGap(t, q);
    var c := Skip(t, q).pos;
    var e := Parse(t, h.pos, limit - 1, h.room, cfg);
    var i := ParsedIsText(t, h.pos, limit - 1, h.room, cfg);
    TextEnds(t, i, e.pos, e.value, cfg.toFloat);
    GapWithin(t, h.pos, i);
    GapWithin(t, a, p);
    SkippedIsGap(t, e.pos);
    var k := Skip(t, e.pos).pos;
    if t[k] == RBRACE {
      MembersText(t, a, p, q, c, i, e.pos, k, k, [Member(h.key, e.value)], cfg.toFloat);
    } else {
      SkippedIsGap(t, k + 1);
      var n := Skip(t, k + 1).pos;
      ParsedAreMembers(t, k + 1, n, limit, e.room, cfg);
      var rest := ParseMembers(t, n, limit, e.room, cfg);
      assert r.members[1..] == rest.members;
      MembersText(t, a, p, q, c, i, e.pos, k, r.pos - 1, r.members, cfg.toFloat);
    }
  }

  lemma KeyEnds(t: bytes, a: nat, b: nat, key: Key)
    requires KeyOf(t, a, b, key)
    ensures a < b <= |t|
  {
  }

  lemma GapWithin(t: bytes, a: nat, b: nat)
    requires Gap(t, a, b)
    ensures a <= b <= |t|
  {
  }

  // ----- the language of the parser

  /** Behind a gap, the bytes up to `e` are a text of `v`. */
  ghost predicate Spells(t: bytes, e: nat, v: Value, toFloat: bytes -> UInt) {
    exists a: nat :: Gap(t, 0, a) && TextOf(t, a, e, v, toFloat)
  }

  /**
   The parser returns a document at a position if and only if the input up to there is a text of that document, which
   nests within the limit and fits the pool.
   */
  lemma ParsesExactly(t: bytes, limit: nat, room: nat, cfg: Config, v: Value, e: nat)
    ensures Cost(v, cfg) <= room && Parse(t, 0, limit, room, cfg) == Parsed(Ok, v, e, room - Cost(v, cfg))
            <==> Spells(t, e, v, cfg.toFloat) && Nesting(v) <= limit && Cost(v, cfg) <= room
  {
    hide Parse, Gap, TextOf, Cost, Nesting;
    var r := Parse(t, 0, limit, room, cfg);
    if r.err == Ok {
      var a := ParsedIsText(t, 0, limit, room, cfg);
      ParsedWithin(t, limit, room, cfg);
    }
    if Spells(t, e, v, cfg.toFloat) {
      var a: nat :| Gap(t, 0, a) && TextOf(t, a, e, v, cfg.toFloat);
      TextParses(t, 0, a, e, v, limit, room, cfg);
    }
  }

  lemma ParsedWithin(t: bytes, limit: nat, room: nat, cfg: Config)
    ensures var r := Parse(t, 0, limit, room, cfg);
            r.err == Ok ==>
              Nesting(r.value) <= limit && r.room == room - Cost(r.value, cfg) && Cost(r.value, cfg) <= room
  {
  }

  /** A text of a document is refused for nothing but its depth or its size. */
  lemma RefusedOnlyForSize(t: bytes, limit: nat, room: nat, cfg: Config, v: Value, e: nat)
    requires Spells(t, e, v, cfg.toFloat)
    ensures Outcome(Parse(t, 0, limit, room, cfg), v, e, limit, room, cfg)
  {
    hide Parse, Gap, TextOf, Outcome;
    var a: nat :| Gap(t, 0, a) && TextOf(t, a, e, v, cfg.toFloat);
    TextParses(t, 0, a, e, v, limit, room, cfg);
  }
}
