/**
 JsonSerializer and PrettyJsonSerializer as they run: visitors that follow a document's links and feed a
 writer. Both are proved to write the text JsonPrinter specifies, cut where the buffer ends.
 */
module JsonSerializer {
  import opened Values
  import opened JsonGrammar
  import opened JsonPrinter
  import opened Document
  import opened DocumentWalk
  import opened TextWriter

  function Power(k: nat): nat {
    if k == 0 then 1 else 10 * Power(k - 1)
  }

  /** The digits are produced last first, from the end of a 22-byte buffer; ten places are enough. */
  method DigitsOf(n: UInt) returns (digits: bytes)
    ensures digits == Decimal(n)
  {
    var buffer := new byte[22];
    var begin, value: nat := 22, n;
    assert Power(10) == 10000000000;
    begin := begin - 1;
    buffer[begin] := 48 + value % 10;
    value := value / 10;
    while value != 0
      invariant 11 < begin < 22 && value < Power(begin - 12)
      invariant Decimal(n) == (if value == 0 then [] else Decimal(value)) + buffer[begin..]
      decreases value
    {
      ghost var tail := buffer[begin..];
      begin := begin - 1;
      buffer[begin] := 48 + value % 10;
      assert buffer[begin..] == [48 + value % 10] + tail;
      DecimalStep(value, tail);
      value := value / 10;
    }
    digits := buffer[begin..];
  }

  lemma DecimalStep(value: nat, tail: bytes)
    requires value > 0
    ensures Decimal(value) + tail == (if value / 10 == 0 then [] else Decimal(value / 10)) + ([48 + value % 10] + tail)
  {
  }

  class Serializer {
    const pr: Printer
    /** The document written; serializers only read it. */
    const slots: seq<Slot>
    const mem: bytes
    const writer: StaticStringWriter
    /** Bytes the writer accepted. */
    var length: nat
    /** _nesting, a uint8_t. */
    var nesting: nat

    ghost predicate Valid()
      reads this, writer, writer.buf
    {
      writer.Valid() && length == writer.p && nesting < 0x100
    }

    constructor (pr: Printer, slots: seq<Slot>, mem: bytes, writer: StaticStringWriter)
      requires writer.Valid() && writer.all == []
      ensures Valid() && this.pr == pr && this.slots == slots && this.mem == mem && this.writer == writer
              && nesting == 0
    {
      this.pr, this.slots, this.mem, this.writer, length, nesting := pr, slots, mem, writer, 0, 0;
    }

    // ----- TextFormatter

    method WriteChar(c: byte)
      requires Valid()
      modifies `length, writer, writer.buf
      ensures Valid() && writer.all == old(writer.all) + [c]
    {
      var n := writer.WriteByte(c);
      length := length + n;
    }

    method WriteRaw(s: bytes)
      requires Valid()
      modifies `length, writer, writer.buf
      ensures Valid() && writer.all == old(writer.all) + s
    {
      var n := writer.Write(s);
      length := length + n;
    }

    method WriteEscaped(c: byte)
      requires Valid()
      modifies `length, writer, writer.buf
      ensures Valid() && writer.all == old(writer.all) + ShowChar(c)
    {
      var special := EscapeChar(c);
      if special != 0 {
        WriteChar(BACKSLASH);
        WriteChar(special);
      } else {
        WriteChar(c);
      }
    }

    /** Writing the next character brings the output closer to what the whole string owes. */
    lemma CharOwed(all: bytes, s: bytes, i: nat)
      requires i < |s|
      ensures all + ShowChars(s[i..]) == all + ShowChar(s[i]) + ShowChars(s[i + 1..])
    {
      assert s[i..][1..] == s[i + 1..];
    }

    lemma TextOwed(all: bytes, s: bytes)
      ensures s[|s|..] == [] && s[0..] == s && ShowChars([]) == []
      ensures all + [DQUOTE] + ShowChars(s) + [DQUOTE] == all + ShowText(s)
    {
      hide ShowChars, ShowText;
      QuotedText(s);
      NoChars();
      Assoc(all, [DQUOTE], ShowChars(s), [DQUOTE]);
    }

    lemma QuotedText(s: bytes)
      ensures ShowText(s) == [DQUOTE] + (ShowChars(s) + [DQUOTE])
    {
    }

    lemma NoChars()
      ensures ShowChars([]) == []
    {
    }

    lemma Assoc(a: bytes, b: bytes, c: bytes, d: bytes)
      ensures a + b + c + d == a + (b + (c + d))
    {
    }

    /** writeString on an owned C string. */
    method WriteOwned(at: nat, ghost s: bytes)
      requires Valid() && TextAt(mem, at, s)
      modifies `length, writer, writer.buf
      ensures Valid() && writer.all == old(writer.all) + ShowText(s)
    {
      hide StaticStringWriter.Valid, ShowChars, ShowChar, ShowText;
      TextOwed(old(writer.all), s);
      WriteChar(DQUOTE);
      var p := at;
      TextByte(mem, at, s, 0);
      while mem[p] != 0
        invariant Valid() && at <= p <= at + |s| && (mem[p] == 0 <==> p == at + |s|)
        invariant writer.all + ShowChars(s[p - at..]) == old(writer.all) + [DQUOTE] + ShowChars(s)
        decreases at + |s| - p
      {
        TextByte(mem, at, s, p - at);
        CharOwed(writer.all, s, p - at);
        WriteEscaped(mem[p]);
        p := p + 1;
        TextByte(mem, at, s, p - at);
      }
      assert writer.all + [] == writer.all;
      WriteChar(DQUOTE);
    }

    method WriteLinked(s: bytes)
      requires Valid()
      modifies `length, writer, writer.buf
      ensures Valid() && writer.all == old(writer.all) + ShowText(s)
    {
      hide StaticStringWriter.Valid, ShowChars, ShowChar, ShowText;
      TextOwed(old(writer.all), s);
      WriteChar(DQUOTE);
      var p := 0;
      while p < |s|
        invariant Valid() && p <= |s|
        invariant writer.all + ShowChars(s[p..]) == old(writer.all) + [DQUOTE] + ShowChars(s)
      {
        CharOwed(writer.all, s, p);
        WriteEscaped(s[p]);
        p := p + 1;
      }
      assert writer.all + [] == writer.all;
      WriteChar(DQUOTE);
    }

    method WriteKey(k: KeyRef, ghost key: Key)
      requires Valid() && KeyIs(mem, k, key)
      modifies `length, writer, writer.buf
      ensures Valid() && writer.all == old(writer.all) + ShowKey(key)
    {
      match k {
        case Unset => WriteRaw(NULL_TEXT);
        case OwnedKey(at) => WriteOwned(at, key.text);
        case LinkedKey(s) => WriteLinked(s);
      }
    }

    method WritePositiveInteger(n: UInt)
      requires Valid()
      modifies `length, writer, writer.buf
      ensures Valid() && writer.all == old(writer.all) + Decimal(n)
    {
      var digits := DigitsOf(n);
      WriteRaw(digits);
    }

    // ----- visitors

    function Comma(ms: seq<Member>, i: nat): bytes {
      if i + 1 < |ms| then [COMMA] else []
    }

    /** The text of the members from the i-th on, piece by piece as the visitors write it. */
    lemma MembersOwed(all: bytes, ms: seq<Member>, i: nat, n: nat, keyed: bool)
      requires i < |ms|
      ensures all + ShowMembers(pr, ms[i..], n, keyed) ==
              all + Indent(pr, n) + Label(pr, ms[i], keyed) + Show(pr, ms[i].value, n) + (Comma(ms, i) + Newline(pr))
                + ShowMembers(pr, ms[i + 1..], n, keyed)
    {
      hide ShowMembers, Show, Label, Indent, Newline;
      MembersPieces(ms, i, n, keyed);
      Regroup(all, Indent(pr, n), Label(pr, ms[i], keyed), Show(pr, ms[i].value, n), Comma(ms, i), Newline(pr),
              ShowMembers(pr, ms[i + 1..], n, keyed));
    }

    lemma MembersPieces(ms: seq<Member>, i: nat, n: nat, keyed: bool)
      requires i < |ms|
      ensures ShowMembers(pr, ms[i..], n, keyed) ==
              Indent(pr, n) + (Label(pr, ms[i], keyed) + (Show(pr, ms[i].value, n) +
                (Comma(ms, i) + (Newline(pr) + ShowMembers(pr, ms[i + 1..], n, keyed)))))
    {
      hide Show, Label, Indent, Newline;
      assert ms[i..][0] == ms[i] && ms[i..][1..] == ms[i + 1..];
    }

    lemma Regroup(all: bytes, a: bytes, b: bytes, c: bytes, d: bytes, e: bytes, f: bytes)
      ensures all + (a + (b + (c + (d + (e + f))))) == all + a + b + c + (d + e) + f
    {
    }

    lemma NoMembersOwed(all: bytes, ms: seq<Member>, n: nat, keyed: bool)
      ensures all + ShowMembers(pr, ms[|ms|..], n, keyed) == all
      ensures ms[0..] == ms
    {
    }

    /** VariantData::accept. */
    method Accept(d: Data, ghost v: Value, ghost n: nat)
      requires Valid() && Denotes(slots, mem, d, v) && n < 0x100 && (pr.pretty ==> n == nesting)
      modifies this, writer, writer.buf
      ensures Valid() && nesting == old(nesting) && writer.all == old(writer.all) + Show(pr, v, n)
      decreases v, 1
    {
      hide StaticStringWriter.Valid, ShowMembers, ShowText, Decimal, ListDenotes, TextAt;
      match d {
        case FloatData(bits) => WriteRaw(pr.showFloat(bits));
        case Arr(head, _) =>
          if pr.pretty { VisitPretty(head, v.members, false, n); } else { VisitCompact(head, v.members, false, n); }
        case Obj(head, _) =>
          if pr.pretty { VisitPretty(head, v.members, true, n); } else { VisitCompact(head, v.members, true, n); }
        case Owned(at) => WriteOwned(at, v.text);
        case Linked(s) => WriteLinked(s);
        case Int(negative, magnitude) =>
          if negative { WriteChar(MINUS); }
          WritePositiveInteger(magnitude);
        case Bool(b) => WriteRaw(if b then TRUE_TEXT else FALSE_TEXT);
        case Nothing => WriteRaw(NULL_TEXT);
      }
    }

    function Open(keyed: bool): byte { if keyed then LBRACE else LBRACKET }

    function Close(keyed: bool): byte { if keyed then RBRACE else RBRACKET }

    ghost function List(ms: seq<Member>, keyed: bool): Value {
      if keyed then Object(ms) else Array(ms)
    }

    lemma ListText(all: bytes, ms: seq<Member>, n: nat, keyed: bool)
      ensures ms == [] ==> all + [Open(keyed), Close(keyed)] == all + Show(pr, List(ms, keyed), n)
      ensures ms != [] ==>
                all + ([Open(keyed)] + Newline(pr)) + ShowMembers(pr, ms, Deeper(n), keyed) + Indent(pr, n)
                  + [Close(keyed)]
                == all + Show(pr, List(ms, keyed), n)
    {
      hide ShowMembers, Indent, Newline;
      if ms != [] {
        RegroupList(all, [Open(keyed)], Newline(pr), ShowMembers(pr, ms, Deeper(n), keyed), Indent(pr, n),
          [Close(keyed)]);
      }
    }

    lemma RegroupList(all: bytes, a: bytes, b: bytes, c: bytes, d: bytes, e: bytes)
      ensures all + (a + b) + c + d + e == all + (a + (b + (c + (d + e))))
    {
    }

    /** visitArray and visitObject of JsonSerializer. */
    method VisitCompact(head: Link, ghost ms: seq<Member>, keyed: bool, ghost n: nat)
      requires Valid() && !pr.pretty && ListDenotes(slots, mem, head, ms) && n < 0x100
      modifies this, writer, writer.buf
      ensures Valid() && nesting == old(nesting)
      ensures writer.all == old(writer.all) + Show(pr, List(ms, keyed), n)
      decreases ms, 1
    {
      hide StaticStringWriter.Valid, ShowMembers, Show, ListDenotes;
      ListText(old(writer.all), ms, n, keyed);
      WriteChar(Open(keyed));
      CompactMembers(head, ms, keyed, Deeper(n));
      WriteChar(Close(keyed));
      CompactClosed(old(writer.all), ms, n, keyed);
    }

    lemma CompactClosed(all: bytes, ms: seq<Member>, n: nat, keyed: bool)
      requires !pr.pretty
      ensures all + [Open(keyed)] + ShowMembers(pr, ms, Deeper(n), keyed) + [Close(keyed)] ==
              all + Show(pr, List(ms, keyed), n)
    {
      hide ShowMembers;
      ListText(all, ms, n, keyed);
      NoMembersOwed(all + [Open(keyed)], ms, Deeper(n), keyed);
      var body := ShowMembers(pr, ms, Deeper(n), keyed);
      assert [Open(keyed)] + Newline(pr) == [Open(keyed)];
      assert all + [Open(keyed)] + body + Indent(pr, n) == all + [Open(keyed)] + body;
    }

    /** The slot loop of JsonSerializer: a comma before every member but the first. */
    method CompactMembers(head: Link, ghost ms: seq<Member>, keyed: bool, ghost n: nat)
      requires Valid() && !pr.pretty && ListDenotes(slots, mem, head, ms) && n < 0x100
      modifies this, writer, writer.buf
      ensures Valid() && nesting == old(nesting)
      ensures writer.all == old(writer.all) + ShowMembers(pr, ms, n, keyed)
      decreases ms, 0
    {
      hide StaticStringWriter.Valid, ShowMembers, Show, ListDenotes, Denotes, KeyIs;
      ghost var i := 0;
      var slot := head;
      NoMembersOwed(old(writer.all), ms, n, keyed);
      while slot.To?
        invariant Valid() && nesting == old(nesting) && i <= |ms| && ListDenotes(slots, mem, slot, ms[i..])
        invariant writer.all + ShowMembers(pr, ms[i..], n, keyed) == old(writer.all) + ShowMembers(pr, ms, n, keyed)
        decreases |ms| - i
      {
        NextMember(slots, mem, slot, ms, i);
        MembersOwed(writer.all, ms, i, n, keyed);
        CompactPieces(writer.all, ms, i, n);
        WriteLabel(slots[slot.slot].key, ms[i], keyed);
        ghost var m := ms[i];
        assert m.value < m;
        Accept(slots[slot.slot].data, m.value, n);
        slot := Next(slots, slot.slot);
        i := i + 1;
        NextMember(slots, mem, slot, ms, i);
        if slot.NoSlot? { break; }
        WriteChar(COMMA);
      }
      NextMember(slots, mem, slot, ms, i);
      NoMembersOwed(writer.all, ms, n, keyed);
    }

    lemma CompactPieces(all: bytes, ms: seq<Member>, i: nat, n: nat)
      requires !pr.pretty
      ensures all + Indent(pr, n) == all
      ensures forall x: bytes :: x + (Comma(ms, i) + Newline(pr)) == x + Comma(ms, i)
    {
      forall x: bytes ensures x + (Comma(ms, i) + Newline(pr)) == x + Comma(ms, i) {
        assert Comma(ms, i) + Newline(pr) == Comma(ms, i);
      }
    }

    method WriteLabel(k: KeyRef, ghost m: Member, keyed: bool)
      requires Valid() && KeyIs(mem, k, m.key)
      modifies `length, writer, writer.buf
      ensures Valid() && writer.all == old(writer.all) + Label(pr, m, keyed)
    {
      hide StaticStringWriter.Valid, ShowKey, KeyIs;
      if keyed {
        WriteKey(k, m.key);
        WriteRaw(if pr.pretty then [COLON, SPACE] else [COLON]);
        LabelText(old(writer.all), m);
      } else {
        assert old(writer.all) + [] == old(writer.all);
      }
    }

    lemma LabelText(all: bytes, m: Member)
      ensures all + ShowKey(m.key) + (if pr.pretty then [COLON, SPACE] else [COLON]) == all + Label(pr, m, true)
    {
      hide ShowKey;
    }

    /** visitArray and visitObject of PrettyJsonSerializer. */
    method VisitPretty(head: Link, ghost ms: seq<Member>, keyed: bool, ghost n: nat)
      requires Valid() && pr.pretty && n == nesting && ListDenotes(slots, mem, head, ms)
      modifies this, writer, writer.buf
      ensures Valid() && nesting == old(nesting)
      ensures writer.all == old(writer.all) + Show(pr, List(ms, keyed), n)
      decreases ms, 1
    {
      hide StaticStringWriter.Valid, ShowMembers, Show, ListDenotes, Indent;
      ListText(old(writer.all), ms, n, keyed);
      WholeList(head, ms);
      if head.NoSlot? {
        WriteRaw([Open(keyed), Close(keyed)]);
        return;
      }
      WriteRaw([Open(keyed)] + [CR, LF]);
      nesting := (nesting + 1) % 0x100;
      PrettyMembers(head, ms, keyed);
      nesting := (nesting + 0xFF) % 0x100;
      WriteIndent();
      WriteChar(Close(keyed));
    }

    lemma WholeList(head: Link, ms: seq<Member>)
      requires ListDenotes(slots, mem, head, ms)
      ensures head.NoSlot? <==> ms == []
    {
    }

    /** The slot loop of PrettyJsonSerializer: every member on its own line. */
    method PrettyMembers(head: Link, ghost ms: seq<Member>, keyed: bool)
      requires Valid() && pr.pretty && ListDenotes(slots, mem, head, ms)
      modifies this, writer, writer.buf
      ensures Valid() && nesting == old(nesting)
      ensures writer.all == old(writer.all) + ShowMembers(pr, ms, nesting, keyed)
      decreases ms, 0
    {
      hide StaticStringWriter.Valid, ShowMembers, Show, ListDenotes, Denotes, KeyIs, Indent, Label;
      ghost var i := 0;
      var slot := head;
      NoMembersOwed(old(writer.all), ms, nesting, keyed);
      while slot.To?
        invariant Valid() && nesting == old(nesting) && i <= |ms| && ListDenotes(slots, mem, slot, ms[i..])
        invariant writer.all + ShowMembers(pr, ms[i..], nesting, keyed) ==
                  old(writer.all) + ShowMembers(pr, ms, nesting, keyed)
        decreases |ms| - i
      {
        NextMember(slots, mem, slot, ms, i);
        MembersOwed(writer.all, ms, i, nesting, keyed);
        WriteIndent();
        WriteLabel(slots[slot.slot].key, ms[i], keyed);
        ghost var m := ms[i];
        assert m.value < m;
        Accept(slots[slot.slot].data, m.value, nesting);
        slot := Next(slots, slot.slot);
        i := i + 1;
        NextMember(slots, mem, slot, ms, i);
        WriteRaw(if slot.To? then [COMMA, CR, LF] else [CR, LF]);
      }
      NextMember(slots, mem, slot, ms, i);
      NoMembersOwed(writer.all, ms, nesting, keyed);
    }

    /** indent(): a uint8_t counter up to _nesting. */
    method WriteIndent()
      requires Valid() && pr.pretty
      modifies `length, writer, writer.buf
      ensures Valid() && writer.all == old(writer.all) + Indent(pr, nesting)
    {
      hide StaticStringWriter.Valid;
      var i := 0;
      while i < nesting
        invariant Valid() && i <= nesting && writer.all == old(writer.all) + Spaces(2 * i)
      {
        ghost var all := writer.all;
        WriteRaw([SPACE, SPACE]);
        i := i + 1;
        assert Spaces(2 * i) == Spaces(2 * i - 2) + [SPACE, SPACE];
      }
    }
  }
}
