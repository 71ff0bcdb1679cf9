/**
 Truncated input: a text cut off before its end is IncompleteInput, and what was complete before the cut is read as in
 the whole text.
 */
module JsonPrefix {
  import opened Values
  import opened JsonGrammar
  import opened JsonText
  import opened JsonLanguage

  /** The cut at `k` does not fall right behind a slash or a sign, where the parser cannot tell what is to come. */
  predicate FairCut(t: bytes, p: nat, k: nat) {
    p <= k <= |t| && (k > p ==> t[k - 1] != SLASH && t[k - 1] != PLUS && t[k - 1] != MINUS)
  }

  // ----- gaps

  lemma {:induction false} BlockCut(t: bytes, p: nat, star: bool, k: nat)
    requires p <= k <= |t|
    ensures var r, u := SkipBlock(t, p, star), t[..k];
            r.err == Ok ==> SkipBlock(u, p, star) == if r.pos <= k then r else Scan(IncompleteInput, k)
    decreases k - p
  {
    if p < k && t[p] != 0 && !(t[p] == SLASH && star) {
      BlockCut(t, p + 1, t[p] == STAR, k);
    }
  }

  lemma {:induction false} LineCut(t: bytes, p: nat, k: nat)
    requires p <= k <= |t|
    ensures var r, u := SkipLine(t, p), t[..k];
            r.err == Ok ==> SkipLine(u, p) == if r.pos < k then r else Scan(IncompleteInput, k)
    decreases k - p
  {
    if p < k && t[p] != 0 && t[p] != LF {
      LineCut(t, p + 1, k);
    }
  }

  /** The scanner stops where it did, or finds the end. */
  lemma {:induction false} SkipCut(t: bytes, p: nat, k: nat)
    requires p <= k <= |t| && Skip(t, p).err == Ok
    ensures Skip(t, p).pos < k ==> Skip(t[..k], p) == Skip(t, p)
    ensures Skip(t, p).pos >= k && FairCut(t, p, k) ==> Skip(t[..k], p).err == IncompleteInput
    decreases k - p
  {
    if p == k { return; }
    var u := t[..k];
    assert u[p] == t[p];
    if IsSpace(t[p]) {
      SkipCut(t, p + 1, k);
    } else if t[p] == SLASH && p + 1 < k {
      assert u[p + 1] == t[p + 1];
      if t[p + 1] == STAR {
        BlockCut(t, p + 2, false, k);
        if SkipBlock(t, p + 2, false).pos <= k {
          SkipCut(t, SkipBlock(t, p + 2, false).pos, k);
        }
      } else {
        LineCut(t, p + 2, k);
        if SkipLine(t, p + 2).pos < k {
          SkipCut(t, SkipLine(t, p + 2).pos, k);
        }
      }
    }
  }

  lemma SkipAtEnd(t: bytes, p: nat)
    requires p >= |t|
    ensures Skip(t, p).err == IncompleteInput
  {
  }

  // ----- strings and words

  lemma {:induction false} QuotedCut(t: bytes, p: nat, q: byte, k: nat)
    requires p <= k <= |t| && (q == DQUOTE || q == SQUOTE) && Quoted(t, p, q).err == Ok
    ensures if Quoted(t, p, q).pos <= k then Quoted(t[..k], p, q) == Quoted(t, p, q)
            else Quoted(t[..k], p, q).err == IncompleteInput
    decreases k - p
  {
    if p == k { return; }
    var u := t[..k];
    assert u[p] == t[p];
    if t[p] == q { return; }
    if t[p] == BACKSLASH {
      if p + 1 < k {
        assert u[p + 1] == t[p + 1];
        QuotedCut(t, p + 2, q, k);
      }
    } else {
      QuotedCut(t, p + 1, q, k);
    }
  }

  lemma {:induction false} WordCut(t: bytes, p: nat, k: nat)
    requires p <= k <= |t|
    ensures WordEnd(t[..k], p) == if WordEnd(t, p) <= k then WordEnd(t, p) else k
    decreases k - p
  {
    if p < k {
      assert t[..k][p] == t[p];
      if IsWord(t[p]) {
        WordCut(t, p + 1, k);
      }
    }
  }

  /** The beginning of a token is a token itself, or the beginning of a keyword. */
  lemma TokenCut(w: bytes, n: nat, cfg: Config)
    requires 0 < n <= |w| && ParseToken(w, cfg).err == Ok && w[n - 1] != PLUS && w[n - 1] != MINUS
    ensures var r := ParseToken(w[..n], cfg); r.err == Ok || r.err == IncompleteInput
  {
    hide ReadDigits;
    var x := w[..n];
    assert x[0] == w[0];
    if w[0] == MINUS || w[0] == PLUS {
      assert x[1..] != [] && x[1..][0] == w[1..][0];
    }
  }

  lemma ScalarCut(t: bytes, p: nat, room: nat, cfg: Config, k: nat)
    requires FairCut(t, p, k) && p < k && ParseScalar(t, p, room, cfg).err == Ok
    ensures var r, r' := ParseScalar(t, p, room, cfg), ParseScalar(t[..k], p, room, cfg);
            if r.pos <= k then r' == r
            else r'.err == IncompleteInput || (r'.err == Ok && r'.pos == k && !r.value.Str?)
  {
    hide Quoted, ParseToken, WordEnd;
    assert t[..k][p] == t[p];
    if IsQuote(t[p]) {
      QuotedCut(t, p + 1, t[p], k);
      return;
    }
    WordCut(t, p, k);
    var e := TokenEnd(t, p);
    TokenIsLeaf(t[p..e], cfg);
    if e <= k {
      assert t[..k][p..e] == t[p..e];
    } else {
      assert t[..k][p..k] == t[p..e][..k - p];
      TokenCut(t[p..e], k - p, cfg);
    }
  }

  // ----- values

  ghost predicate Cut(r: Parsed, r': Parsed, k: nat) {
    if r.pos <= k then r' == r
    else r'.err == IncompleteInput || (r'.err == Ok && r'.pos == k && !r.value.Str? && !r.value.Collection?())
  }

  ghost predicate CutMembers(r: ParsedMembers, r': ParsedMembers, k: nat) {
    if r.pos <= k then r' == r else r'.err == IncompleteInput
  }

  lemma {:induction false} ParseCut(t: bytes, p: nat, limit: nat, room: nat, cfg: Config, k: nat)
    requires p <= k <= |t| && Parse(t, p, limit, room, cfg).err == Ok
    requires FairCut(t, p, k) || Parse(t, p, limit, room, cfg).pos <= k
    ensures Cut(Parse(t, p, limit, room, cfg), Parse(t[..k], p, limit, room, cfg), k)
    decreases limit, 2, |t| - p
  {
    hide Skip, ParseScalar, ParseItems, ParseMembers;
    SkipCut(t, p, k);
    var a := Skip(t, p).pos;
    if a >= k { return; }
    assert t[..k][a] == t[a];
    if t[a] != LBRACKET && t[a] != LBRACE {
      ScalarWhole(t, a, room, cfg, k);
      return;
    }
    SkipCut(t, a + 1, k);
    var q := Skip(t, a + 1).pos;
    if q >= k { return; }
    assert t[..k][q] == t[q];
    if t[a] == LBRACKET && t[q] != RBRACKET {
      ItemsCut(t, q, limit, room, cfg, k);
    } else if t[a] == LBRACE && t[q] != RBRACE {
      MembersCut(t, q, limit, room, cfg, k);
    }
  }

  lemma ScalarWhole(t: bytes, p: nat, room: nat, cfg: Config, k: nat)
    requires p < k <= |t| && ParseScalar(t, p, room, cfg).err == Ok
    requires FairCut(t, p, k) || ParseScalar(t, p, room, cfg).pos <= k
    ensures Cut(ParseScalar(t, p, room, cfg), ParseScalar(t[..k], p, room, cfg), k)
  {
    hide Quoted, ParseToken, WordEnd;
    var e := TokenEnd(t, p);
    if FairCut(t, p, k) {
      ScalarCut(t, p, room, cfg, k);
      TokenIsLeaf(t[p..e], cfg);
      return;
    }
    assert t[..k][p] == t[p];
    if IsQuote(t[p]) {
      QuotedCut(t, p + 1, t[p], k);
    } else {
      WordCut(t, p, k);
      assert t[..k][p..e] == t[p..e];
    }
  }

  lemma AfterItemCut(t: bytes, p: nat, k: nat)
    requires p <= k <= |t| && AfterItem(t, p).err == Ok && (FairCut(t, p, k) || AfterItem(t, p).pos <= k)
    ensures if AfterItem(t, p).pos <= k then AfterItem(t[..k], p) == AfterItem(t, p)
            else AfterItem(t[..k], p).err == IncompleteInput
  {
    hide Skip;
    SkipCut(t, p, k);
  }

  lemma {:induction false} ItemsCut(t: bytes, p: nat, limit: nat, room: nat, cfg: Config, k: nat)
    requires limit > 0 && p <= k <= |t| && ParseItems(t, p, limit, room, cfg).err == Ok
    requires FairCut(t, p, k) || ParseItems(t, p, limit, room, cfg).pos <= k
    ensures CutMembers(ParseItems(t, p, limit, room, cfg), ParseItems(t[..k], p, limit, room, cfg), k)
    decreases limit, 0, |t| - p
  {
    hide Skip, Parse, ParseItems, AfterItem;
    if room < SLOT {
      ItemsNoRoom(t, p, limit, room, cfg);
      return;
    }
    var u := t[..k];
    ItemsRound(t, p, limit, room, cfg);
    ItemsRound(u, p, limit, room, cfg);
    var e := Parse(t, p, limit - 1, room - SLOT, cfg);
    var s := AfterItem(t, e.pos);
    if s.more {
      ItemsGoOn(t, s.pos, limit, e.room, cfg);
    }
    ParseCut(t, p, limit - 1, room - SLOT, cfg, k);
    if e.pos > k {
      AfterItemAtEnd(u, k);
      return;
    }
    AfterItemCut(t, e.pos, k);
    if s.pos <= k && s.more {
      ItemsCut(t, s.pos, limit, e.room, cfg, k);
    }
  }

  lemma ItemsGoOn(t: bytes, p: nat, limit: nat, room: nat, cfg: Config)
    requires limit > 0
    ensures ParseItems(t, p, limit, room, cfg).err == Ok ==> p < ParseItems(t, p, limit, room, cfg).pos
    ensures ParseMembers(t, p, limit, room, cfg).err == Ok ==> p < ParseMembers(t, p, limit, room, cfg).pos
  {
  }

  lemma AfterItemAtEnd(u: bytes, k: nat)
    requires k == |u|
    ensures AfterItem(u, k).err == IncompleteInput && AfterMember(u, k).err == IncompleteInput
  {
    SkipAtEnd(u, k);
  }

  lemma AfterMemberCut(t: bytes, p: nat, k: nat)
    requires p <= k <= |t| && AfterMember(t, p).err == Ok
    requires FairCut(t, p, k) || AfterMember(t, p).pos < k || (!AfterMember(t, p).more && AfterMember(t, p).pos <= k)
    ensures var s, s' := AfterMember(t, p), AfterMember(t[..k], p);
            if (if s.more then s.pos < k else s.pos <= k) then s' == s else s'.err == IncompleteInput
  {
    hide Skip;
    SkipCut(t, p, k);
    var q := Skip(t, p).pos;
    if q < k && t[q] == COMMA {
      SkipCut(t, q + 1, k);
    }
  }

  lemma KeyTextCut(t: bytes, p: nat, k: nat)
    requires p <= k <= |t| && KeyText(t, p).err == Ok
    ensures var s, s' := KeyText(t, p), KeyText(t[..k], p);
            if s.pos <= k then s' == s
            else s'.err == IncompleteInput || (s'.err == Ok && s'.pos == k && |s'.text| <= |s.text|)
  {
    hide Quoted, WordEnd;
    if p < k {
      assert t[..k][p] == t[p];
      if IsQuote(t[p]) {
        QuotedCut(t, p + 1, t[p], k);
      } else {
        WordCut(t, p, k);
        var e := WordEnd(t, p);
        if e <= k {
          assert t[..k][p..e] == t[p..e];
        }
      }
    }
  }

  lemma HeadCut(t: bytes, p: nat, room: nat, cfg: Config, k: nat)
    requires p <= k <= |t| && ParseHead(t, p, room, cfg).err == Ok
    requires FairCut(t, p, k) || ParseHead(t, p, room, cfg).pos <= k
    ensures var h, h' := ParseHead(t, p, room, cfg), ParseHead(t[..k], p, room, cfg);
            if h.pos <= k then h' == h else h'.err == IncompleteInput
  {
    hide Skip, KeyText;
    KeyTextCut(t, p, k);
    var q := KeyText(t, p).pos;
    if q <= k {
      SkipCut(t, q, k);
    } else {
      SkipAtEnd(t[..k], k);
    }
  }

  lemma {:induction false} MembersCut(t: bytes, p: nat, limit: nat, room: nat, cfg: Config, k: nat)
    requires limit > 0 && p <= k <= |t| && ParseMembers(t, p, limit, room, cfg).err == Ok
    requires FairCut(t, p, k) || ParseMembers(t, p, limit, room, cfg).pos <= k
    ensures CutMembers(ParseMembers(t, p, limit, room, cfg), ParseMembers(t[..k], p, limit, room, cfg), k)
    decreases limit, 0, |t| - p
  {
    hide Skip, Parse, ParseMembers, ParseHead, AfterMember;
    if room < SLOT {
      ItemsNoRoom(t, p, limit, room, cfg);
      return;
    }
    var u := t[..k];
    MembersRound(t, p, limit, room, cfg);
    MembersRound(u, p, limit, room, cfg);
    var h := ParseHead(t, p, room - SLOT, cfg);
    var e := Parse(t, h.pos, limit - 1, h.room, cfg);
    var s := AfterMember(t, e.pos);
    if s.more {
      ItemsGoOn(t, s.pos, limit, e.room, cfg);
    }
    HeadCut(t, p, room - SLOT, cfg, k);
    if h.pos > k { return; }
    ParseCut(t, h.pos, limit - 1, h.room, cfg, k);
    if e.pos > k {
      AfterItemAtEnd(u, k);
      return;
    }
    AfterMemberCut(t, e.pos, k);
    if s.pos <= k && s.more && s.pos < k {
      MembersCut(t, s.pos, limit, e.room, cfg, k);
    }
  }

  // ----- whole texts

  /**
   A text that parses to a string, array or object is IncompleteInput when cut off anywhere before its end, the cuts
   right behind a slash or a sign aside; cut off behind its end it parses as before.
   */
  lemma PrefixIsIncomplete(t: bytes, limit: nat, room: nat, cfg: Config, k: nat)
    requires Parse(t, 0, limit, room, cfg).err == Ok && k <= |t|
    ensures var r, r' := Parse(t, 0, limit, room, cfg), Parse(t[..k], 0, limit, room, cfg);
            && (r.pos <= k ==> r' == r)
            && (k < r.pos && FairCut(t, 0, k) && (r.value.Str? || r.value.Collection?()) ==> r'.err == IncompleteInput)
  {
    hide Parse;
    if FairCut(t, 0, k) || Parse(t, 0, limit, room, cfg).pos <= k {
      ParseCut(t, 0, limit, room, cfg, k);
    }
  }

  /** Behind a slash or a sign the verdict is InvalidInput. */
  lemma UnfairCuts(limit: nat, room: nat, cfg: Config)
    requires limit > 0 && room >= SLOT
    ensures Parse([LBRACKET, SLASH], 0, limit, room, cfg).err == InvalidInput
    ensures Parse([LBRACKET, MINUS], 0, limit, room, cfg).err == InvalidInput
  {
    var a, b := [LBRACKET, SLASH], [LBRACKET, MINUS];
    assert Skip(a, 0) == Scan(Ok, 0) && Skip(a, 1) == Scan(InvalidInput, 2);
    assert Skip(b, 0) == Scan(Ok, 0) && Skip(b, 1) == Scan(Ok, 1);
    assert WordEnd(b, 2) == 2 && WordEnd(b, 1) == 2;
    assert b[1..2] == [MINUS] && [MINUS][1..] == [];
    assert ParseToken([MINUS], cfg).err == InvalidInput;
    assert ParseScalar(b, 1, room - SLOT, cfg).err == InvalidInput;
    assert Parse(b, 1, limit - 1, room - SLOT, cfg).err == InvalidInput;
    assert ParseItems(b, 1, limit, room, cfg).err == InvalidInput;
  }

  // ----- refusals

  /** A value begins with a bracket, a brace, a quote or a word. */
  lemma WrongStart(t: bytes, p: nat, a: nat, limit: nat, room: nat, cfg: Config)
    requires Gap(t, p, a) && a < |t| && Solid(t[a]) && !WordByte(t[a])
    requires t[a] != 0x5B && t[a] != 0x7B && t[a] != 0x22 && t[a] != 0x27
    ensures Parse(t, p, limit, room, cfg).err == InvalidInput
  {
    hide Gap, Skip;
    GapThenSolid(t, p, a);
    WordsAgree(t[a]);
    assert t[a..a] == [];
  }

  lemma {:induction false} UnicodeCharacter(t: bytes, a: nat, m: nat, q: byte, s: bytes)
    requires Chars(t, a, m, q, s) && m + 1 < |t| && t[m] == 0x5C && t[m + 1] == 0x75 && (q == 0x22 || q == 0x27)
    ensures Quoted(t, a, q).err == NotSupported
    decreases |s|
  {
    if s == [] { return; }
    if t[a] == s[0] && t[a] != 0 && t[a] != q && t[a] != 0x5C && Chars(t, a + 1, m, q, s[1..]) {
      UnicodeCharacter(t, a + 1, m, q, s[1..]);
    } else {
      UnicodeCharacter(t, a + 2, m, q, s[1..]);
    }
  }

  /** A `\u` anywhere in a string is NotSupported. */
  lemma UnicodeIsNotSupported(t: bytes, p: nat, a: nat, m: nat, s: bytes, limit: nat, room: nat, cfg: Config)
    requires Gap(t, p, a) && a < |t| && (t[a] == 0x22 || t[a] == 0x27)
    requires Chars(t, a + 1, m, t[a], s) && m + 1 < |t| && t[m] == 0x5C && t[m + 1] == 0x75
    ensures Parse(t, p, limit, room, cfg).err == NotSupported
  {
    hide Gap, Skip, Chars, Quoted;
    GapThenSolid(t, p, a);
    UnicodeCharacter(t, a + 1, m, t[a], s);
  }

  /** Behind an element only a comma or the bracket may stand. */
  lemma WrongAfterElement(t: bytes, p: nat, a: nat, i: nat, j: nat, k: nat, v: Value, limit: nat, room: nat,
                          cfg: Config)
    requires Gap(t, p, a) && a < |t| && t[a] == 0x5B && Gap(t, a + 1, i) && TextOf(t, i, j, v, cfg.toFloat)
    requires Gap(t, j, k) && k < |t| && Solid(t[k]) && t[k] != 0x2C && t[k] != 0x5D
    requires Nesting(v) < limit && room >= SLOT + Cost(v, cfg)
    ensures Parse(t, p, limit, room, cfg).err == InvalidInput
  {
    hide Gap, Skip, TextOf, Parse, Nesting, Cost;
    TextStarts(t, i, j, v, cfg.toFloat);
    GapThenSolid(t, p, a);
    GapThenSolid(t, a + 1, i);
    GapThenSolid(t, j, k);
    NoGap(t, i);
    TextParses(t, i, i, j, v, limit - 1, room - SLOT, cfg);
    ItemsRound(t, i, limit, room, cfg);
    ArrayOpens(t, p, a, i, limit, room, cfg);
  }

  lemma ArrayOpens(t: bytes, p: nat, a: nat, i: nat, limit: nat, room: nat, cfg: Config)
    requires Skip(t, p) == Scan(Ok, a) && a < |t| && limit > 0 && Skip(t, a + 1) == Scan(Ok, i)
    requires (t[a] == LBRACKET && t[i] != RBRACKET) || (t[a] == LBRACE && t[i] != RBRACE)
    ensures t[a] == LBRACKET ==> Parse(t, p, limit, room, cfg).err == ParseItems(t, i, limit, room, cfg).err
    ensures t[a] == LBRACE ==> Parse(t, p, limit, room, cfg).err == ParseMembers(t, i, limit, room, cfg).err
  {
    hide Skip, ParseItems, ParseMembers;
  }

  /** Behind a key only a colon may stand. */
  lemma WrongAfterKey(t: bytes, p: nat, a: nat, g: nat, h: nat, c: nat, key: Key, limit: nat, room: nat, cfg: Config)
    requires Gap(t, p, a) && a < |t| && t[a] == 0x7B && Gap(t, a + 1, g) && KeyOf(t, g, h, key)
    requires Gap(t, h, c) && c < |t| && Solid(t[c]) && t[c] != 0x3A
    requires 0 < limit && room >= SLOT + |key.text| + 1
    ensures Parse(t, p, limit, room, cfg).err == InvalidInput
  {
    hide Gap, Skip, KeyOf, Parse, KeyText;
    KeyStarts(t, g, h, key);
    KeyParses(t, g, h, key);
    GapThenSolid(t, p, a);
    GapThenSolid(t, a + 1, g);
    GapThenSolid(t, h, c);
    MembersRound(t, g, limit, room, cfg);
    ArrayOpens(t, p, a, g, limit, room, cfg);
  }
}
