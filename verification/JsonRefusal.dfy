/**
 What the code of a failed parse tells about the text: every failure, wherever it happens, is explained by the
 characters where the reader stopped, by the nesting limit or by the pool.
 */
module JsonRefusal {
  import opened Values
  import opened JsonGrammar
  import opened JsonText

  /** Behind a word that begins like true, false or null and has another length. */
  predicate KeywordCut(t: bytes, pos: nat) {
    exists a :: 0 <= a < pos && pos <= |t| && AllWord(t, a, pos) && (t[a] == 0x74 || t[a] == 0x66 || t[a] == 0x6E)
                && pos - a != if t[a] == 0x66 then 5 else 4
  }

  /** The text, or a C string in it, is used up. */
  predicate Ended(t: bytes, pos: nat) {
    pos >= |t| || t[pos] == 0
  }

  /**
   The reader stopped at `pos`, `used` characters on. 17 bytes of pool for each character are always enough, and so is
   a nesting limit above the number of characters.
   */
  predicate Explained(t: bytes, err: Code, pos: nat, used: int, limit: nat, room: nat) {
    match err
    case Ok => true
    case IncompleteInput =>
      Ended(t, pos) || KeywordCut(t, pos) || (t[pos] == 0x5C && Ended(t, pos + 1))
    case InvalidInput =>
      || (!Ended(t, pos) && t[pos] != 0x20 && t[pos] != 0x09 && t[pos] != 0x0D && t[pos] != 0x0A)
      || (0 < pos <= |t| && (t[pos - 1] == 0x2F || WordByte(t[pos - 1])))
    case NotSupported => pos + 1 < |t| && t[pos] == 0x5C && t[pos + 1] == 0x75
    case TooDeep => limit <= used && pos < |t| && (t[pos] == 0x5B || t[pos] == 0x7B)
    case NoMemory => room < 17 * used && pos <= |t|
  }

  // ----- characters

  lemma {:induction false} BlockStops(t: bytes, p: nat, wasStar: bool)
    ensures var r := SkipBlock(t, p, wasStar); r.pos >= p && (r.err != Ok ==> Ended(t, r.pos))
    decreases |t| - p
  {
    var c := At(t, p);
    if c != 0 && !(c == SLASH && wasStar) { BlockStops(t, p + 1, c == STAR); }
  }

  lemma {:induction false} LineStops(t: bytes, p: nat)
    ensures var r := SkipLine(t, p); r.pos >= p && (r.err != Ok ==> Ended(t, r.pos))
    decreases |t| - p
  {
    if At(t, p) != 0 && At(t, p) != LF { LineStops(t, p + 1); }
  }

  predicate Blank(c: byte) {
    c == 0x20 || c == 0x09 || c == 0x0D || c == 0x0A
  }

  lemma {:induction false} SkipStops(t: bytes, p: nat)
    ensures var r := Skip(t, p);
            && r.pos >= p && (r.err == IncompleteInput ==> Ended(t, r.pos))
            && (r.err == InvalidInput ==> 0 < r.pos <= |t| && t[r.pos - 1] == 0x2F)
            && (r.err == Ok ==> !Ended(t, r.pos) && !Blank(t[r.pos]))
    decreases |t| - p
  {
    var c := At(t, p);
    if c == 0 { return; }
    if IsSpace(c) {
      SkipStops(t, p + 1);
    } else if c == SLASH && At(t, p + 1) == STAR {
      BlockStops(t, p + 2, false);
      var b := SkipBlock(t, p + 2, false);
      if b.err == Ok { SkipStops(t, b.pos); }
    } else if c == SLASH && At(t, p + 1) == SLASH {
      LineStops(t, p + 2);
      var l := SkipLine(t, p + 2);
      if l.err == Ok { SkipStops(t, l.pos); }
    }
  }

  lemma {:induction false} QuotedStops(t: bytes, p: nat, stop: byte)
    requires stop != 0
    ensures var r := Quoted(t, p, stop);
            && r.pos >= p && r.err != InvalidInput
            && (r.err == IncompleteInput ==> Ended(t, r.pos) || (t[r.pos] == 0x5C && Ended(t, r.pos + 1)))
            && (r.err == NotSupported ==> r.pos + 1 < |t| && t[r.pos] == 0x5C && t[r.pos + 1] == 0x75)
    decreases |t| - p
  {
    var c := At(t, p);
    if c == stop || c == 0 { return; }
    if c != BACKSLASH {
      QuotedStops(t, p + 1, stop);
    } else if At(t, p + 1) != 0 && At(t, p + 1) != 117 {
      QuotedStops(t, p + 2, stop);
    }
  }

  lemma WordBytes(c: byte)
    ensures IsWord(c) <==> WordByte(c)
  {
  }

  lemma {:induction false} KeyStops(t: bytes, p: nat)
    requires p < |t| && t[p] != 0 && !Blank(t[p])
    ensures var r := KeyText(t, p);
            && r.pos >= p && (r.err == Ok ==> |r.text| <= r.pos - p)
            && Explained(t, r.err, r.pos, 0, 1, 0)
  {
    if IsQuote(t[p]) {
      QuotedStops(t, p + 1, t[p]);
    }
  }

  // ----- scalars

  lemma {:induction false} TokenIsWord(t: bytes, p: nat)
    requires p <= |t|
    ensures TokenEnd(t, p) > p ==> AllWord(t, p, TokenEnd(t, p))
  {
    forall i | p <= i < TokenEnd(t, p) ensures WordByte(t[i]) { WordBytes(t[i]); }
  }

  lemma {:induction false} TokenStops(t: bytes, p: nat, cfg: Config)
    requires p < |t| && t[p] != 0 && !Blank(t[p])
    ensures var e := TokenEnd(t, p);
            && p <= e <= |t| && Explained(t, ParseToken(t[p..e], cfg).err, e, 0, 1, 0)
  {
    var e := TokenEnd(t, p);
    var s := t[p..e];
    TokenIsWord(t, p);
    if e > p {
      assert s[0] == t[p];
      WordBytes(t[e - 1]);
    }
    hide AllWord, ParseNumber;
  }

  lemma {:induction false} ScalarStops(t: bytes, p: nat, limit: nat, room: nat, cfg: Config)
    requires p < |t| && t[p] != 0 && !Blank(t[p])
    ensures var r := ParseScalar(t, p, room, cfg);
            && r.pos >= p && room <= r.room + 17 * (r.pos - p)
            && Explained(t, r.err, r.pos, r.pos - p, limit, room)
  {
    hide Quoted, ParseToken, KeywordCut;
    if IsQuote(t[p]) {
      QuotedStops(t, p + 1, t[p]);
    } else {
      TokenStops(t, p, cfg);
    }
  }

  // ----- values

  lemma {:induction false} AfterItemStops(t: bytes, p: nat)
    ensures var s := AfterItem(t, p);
            && s.pos >= p && (s.err == Ok ==> s.pos > p) && Explained(t, s.err, s.pos, 0, 1, 0)
  {
    hide Skip;
    SkipStops(t, p);
  }

  lemma {:induction false} AfterMemberStops(t: bytes, p: nat)
    ensures var s := AfterMember(t, p);
            && s.pos >= p && (s.err == Ok ==> s.pos > p) && Explained(t, s.err, s.pos, 0, 1, 0)
            && (s.err == Ok && s.more ==> s.pos < |t| && t[s.pos] != 0 && !Blank(t[s.pos]))
  {
    hide Skip;
    SkipStops(t, p);
    var s := Skip(t, p);
    if s.err == Ok { SkipStops(t, s.pos + 1); }
  }

  lemma {:induction false} HeadStops(t: bytes, p: nat, room: nat, cfg: Config)
    requires p < |t| && t[p] != 0 && !Blank(t[p])
    ensures var h := ParseHead(t, p, room, cfg);
            && h.pos >= p && room <= h.room + 17 * (h.pos - p)
            && (if h.err == NoMemory then room <= h.pos - p && h.pos <= |t| else Explained(t, h.err, h.pos, 0, 1, 0))
  {
    hide Skip, KeyText, KeywordCut;
    KeyStops(t, p);
    var k := KeyText(t, p);
    if k.err == Ok && Fits(k.text, room, cfg) { SkipStops(t, k.pos); }
  }

  /** A failure further on is explained from here as well. */
  lemma ExplainedFrom(t: bytes, err: Code, pos: nat, used: int, limit: nat, room: nat, used': int, limit': nat,
                      room': nat)
    requires Explained(t, err, pos, used, limit, room)
    requires err == TooDeep ==> limit - used >= limit' - used'
    requires err == NoMemory ==> room - 17 * used >= room' - 17 * used'
    ensures Explained(t, err, pos, used', limit', room')
  {
    hide KeywordCut, Ended;
  }

  /** The code of a failure, wherever in the text it happens. */
  lemma {:induction false} CodeTells(t: bytes, p: nat, limit: nat, room: nat, cfg: Config)
    ensures var r := Parse(t, p, limit, room, cfg);
            && r.pos >= p && room <= r.room + 17 * (r.pos - p)
            && Explained(t, r.err, r.pos, r.pos - p, limit, room)
    decreases limit, 1, |t| - p
  {
    hide Skip, ParseItems, ParseMembers, ParseScalar, KeywordCut, Ended;
    SkipStops(t, p);
    var s := Skip(t, p);
    if s.err != Ok { return; }
    if t[s.pos] != LBRACKET && t[s.pos] != LBRACE {
      EndedIs(t, s.pos);
      ScalarStops(t, s.pos, limit, room, cfg);
      var r := ParseScalar(t, s.pos, room, cfg);
      ExplainedFrom(t, r.err, r.pos, r.pos - s.pos, limit, room, r.pos - p, limit, room);
      return;
    }
    if limit == 0 { return; }
    SkipStops(t, s.pos + 1);
    var n := Skip(t, s.pos + 1);
    if n.err != Ok { return; }
    EndedIs(t, n.pos);
    if t[s.pos] == LBRACKET && t[n.pos] != RBRACKET {
      ItemsTell(t, n.pos, limit, room, cfg);
      var r := ParseItems(t, n.pos, limit, room, cfg);
      ExplainedFrom(t, r.err, r.pos, r.pos - n.pos + 1, limit, room, r.pos - p, limit, room);
    }
    if t[s.pos] == LBRACE && t[n.pos] != RBRACE {
      MembersTell(t, n.pos, limit, room, cfg);
      var r := ParseMembers(t, n.pos, limit, room, cfg);
      ExplainedFrom(t, r.err, r.pos, r.pos - n.pos + 1, limit, room, r.pos - p, limit, room);
    }
  }

  lemma EndedIs(t: bytes, pos: nat)
    ensures !Ended(t, pos) ==> pos < |t| && t[pos] != 0
  {
  }

  lemma {:induction false} ItemsTell(t: bytes, p: nat, limit: nat, room: nat, cfg: Config)
    requires limit > 0 && p <= |t|
    ensures var r := ParseItems(t, p, limit, room, cfg);
            && r.pos >= p && room <= r.room + 17 * (r.pos - p) + 16
            && Explained(t, r.err, r.pos, r.pos - p + 1, limit, room)
    decreases limit, 0, |t| - p
  {
    hide Parse, AfterItem, KeywordCut, Ended;
    if room < SLOT {
      assert Explained(t, NoMemory, p, 1, limit, room);
      return;
    }
    CodeTells(t, p, limit - 1, room - SLOT, cfg);
    var e := Parse(t, p, limit - 1, room - SLOT, cfg);
    if e.err != Ok {
      ExplainedFrom(t, e.err, e.pos, e.pos - p, limit - 1, room - SLOT, e.pos - p + 1, limit, room);
      return;
    }
    AfterItemStops(t, e.pos);
    var s := AfterItem(t, e.pos);
    if s.err != Ok {
      ExplainedFrom(t, s.err, s.pos, 0, 1, 0, s.pos - p + 1, limit, room);
    } else if s.more {
      ItemsTell(t, s.pos, limit, e.room, cfg);
      var r := ParseItems(t, s.pos, limit, e.room, cfg);
      ExplainedFrom(t, r.err, r.pos, r.pos - s.pos + 1, limit, e.room, r.pos - p + 1, limit, room);
    }
  }

  lemma {:induction false} MembersTell(t: bytes, p: nat, limit: nat, room: nat, cfg: Config)
    requires limit > 0 && p < |t| && t[p] != 0 && !Blank(t[p])
    ensures var r := ParseMembers(t, p, limit, room, cfg);
            && r.pos >= p && room <= r.room + 17 * (r.pos - p) + 16
            && Explained(t, r.err, r.pos, r.pos - p + 1, limit, room)
    decreases limit, 0, |t| - p
  {
    hide Parse, AfterMember, ParseHead, KeywordCut, Ended;
    if room < SLOT {
      assert Explained(t, NoMemory, p, 1, limit, room);
      return;
    }
    HeadStops(t, p, room - SLOT, cfg);
    var h := ParseHead(t, p, room - SLOT, cfg);
    if h.err != Ok {
      if h.err != NoMemory {
        ExplainedFrom(t, h.err, h.pos, 0, 1, 0, h.pos - p + 1, limit, room);
      }
      return;
    }
    CodeTells(t, h.pos, limit - 1, h.room, cfg);
    var e := Parse(t, h.pos, limit - 1, h.room, cfg);
    if e.err != Ok {
      ExplainedFrom(t, e.err, e.pos, e.pos - h.pos, limit - 1, h.room, e.pos - p + 1, limit, room);
      return;
    }
    AfterMemberStops(t, e.pos);
    var s := AfterMember(t, e.pos);
    if s.err != Ok {
      ExplainedFrom(t, s.err, s.pos, 0, 1, 0, s.pos - p + 1, limit, room);
    } else if s.more {
      MembersTell(t, s.pos, limit, e.room, cfg);
      var r := ParseMembers(t, s.pos, limit, e.room, cfg);
      ExplainedFrom(t, r.err, r.pos, r.pos - s.pos + 1, limit, e.room, r.pos - p + 1, limit, room);
    }
  }
}
