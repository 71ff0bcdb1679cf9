/**
 The two renderings of a document, byte by byte: the compact one as its parts joined by commas, the pretty one as
 lines with two spaces for each level.
 */
module JsonLayout {
  import opened Values
  import opened Sequences
  import opened JsonPrinter
  import JsonGrammar
  import JsonText

  // ----- leaves

  function Ascii(s: string): (r: bytes)
    requires forall i :: 0 <= i < |s| ==> s[i] < 128 as char
    ensures |r| == |s|
  {
    seq(|s|, i requires 0 <= i < |s| => s[i] as int)
  }

  /** RFC 8259 section 7: quote, backslash and the control characters with a letter of their own are escaped. */
  function EscapeOf(c: byte): bytes {
    match c
    case 0x22 => [0x5C, 0x22]
    case 0x5C => [0x5C, 0x5C]
    case 0x08 => [0x5C, 0x62]
    case 0x0C => [0x5C, 0x66]
    case 0x0A => [0x5C, 0x6E]
    case 0x0D => [0x5C, 0x72]
    case 0x09 => [0x5C, 0x74]
    case _ => [c]
  }

  function Escapes(s: bytes): bytes {
    if s == [] then [] else Escapes(s[..|s| - 1]) + EscapeOf(s[|s| - 1])
  }

  function QuotedOf(s: bytes): bytes {
    Ascii("\"") + Escapes(s) + Ascii("\"")
  }

  lemma {:induction false} EscapesFront(s: bytes)
    requires s != []
    ensures Escapes(s) == EscapeOf(s[0]) + Escapes(s[1..])
  {
    if |s| > 1 {
      var init := s[..|s| - 1];
      EscapesFront(init);
      assert init[1..] == s[1..][..|s[1..]| - 1];
    } else {
      assert s[..0] == [] && s[1..] == [];
    }
  }

  lemma {:induction false} ShowCharsIs(s: bytes)
    ensures ShowChars(s) == Escapes(s)
  {
    if s != [] {
      EscapesFront(s);
      ShowCharsIs(s[1..]);
    }
  }

  /** The decimal numeral: digits of that magnitude, without leading zeros. */
  lemma {:induction false} DecimalIs(n: nat)
    ensures var d := Decimal(n);
            && d != [] && JsonText.AllDigits(d) && JsonText.Magnitude(d) == n && (n > 0 ==> d[0] != 0x30)
            && (n < 10 ==> |d| == 1)
  {
    if n >= 10 {
      DecimalIs(n / 10);
      assert Decimal(n)[..|Decimal(n)| - 1] == Decimal(n / 10);
    } else {
      assert [48 + n][..0] == [];
      assert JsonText.Magnitude([]) == 0;
    }
  }

  /** No other string of digits without leading zeros has that magnitude. */
  lemma {:induction false} DecimalIsOnly(d: bytes)
    requires JsonText.AllDigits(d) && d != [] && (|d| > 1 ==> d[0] != 0x30)
    ensures d == Decimal(JsonText.Magnitude(d)) && (|d| > 1 ==> JsonText.Magnitude(d) >= 10)
    decreases |d|
  {
    var init, last := d[..|d| - 1], d[|d| - 1] - 0x30;
    if init == [] {
      assert JsonText.Magnitude([]) == 0;
    } else {
      DecimalIsOnly(init);
      var m := JsonText.Magnitude(init);
      if |init| == 1 {
        assert init[..0] == [];
        assert JsonText.Magnitude([]) == 0;
      }
      assert m >= 1 && (m * 10 + last) / 10 == m && (m * 10 + last) % 10 == last;
    }
  }

  function LeafOf(pr: Printer, v: Value): bytes
    requires !v.Array? && !v.Object?
  {
    match v
    case Null => Ascii("null")
    case Boolean(b) => if b then Ascii("true") else Ascii("false")
    case Integer(negative, n) => (if negative then Ascii("-") else []) + Decimal(n)
    case Float(bits) => pr.showFloat(bits)
    case Str(s, _) => QuotedOf(s)
  }

  function NameOf(k: Key): bytes {
    if k.Key? then QuotedOf(k.text) else Ascii("null")
  }

  lemma LeafIs(pr: Printer, v: Value)
    requires !v.Collection?()
    ensures ShowLeaf(pr, v) == LeafOf(pr, v)
  {
    if v.Str? {
      ShowCharsIs(v.text);
    }
  }

  lemma NameIs(k: Key)
    ensures ShowKey(k) == NameOf(k)
  {
    if k.Key? {
      ShowCharsIs(k.text);
    }
  }

  // ----- compact

  function Join(parts: seq<bytes>, sep: bytes): bytes {
    if parts == [] then []
    else if |parts| == 1 then parts[0]
    else parts[0] + sep + Join(parts[1..], sep)
  }

  function CompactOf(pr: Printer, v: Value): bytes
    decreases v, 1
  {
    match v
    case Array(ms) => Ascii("[") + Join(PartsOf(pr, ms, false), Ascii(",")) + Ascii("]")
    case Object(ms) => Ascii("{") + Join(PartsOf(pr, ms, true), Ascii(",")) + Ascii("}")
    case _ => LeafOf(pr, v)
  }

  function PartsOf(pr: Printer, ms: seq<Member>, keyed: bool): (r: seq<bytes>)
    ensures |r| == |ms|
    decreases ms, 0
  {
    if ms == [] then []
    else
      var m := ms[0];
      assert m.value < m;
      [(if keyed then NameOf(m.key) + Ascii(":") else []) + CompactOf(pr, m.value)] + PartsOf(pr, ms[1..], keyed)
  }

  /** The compact rendering, at any nesting. */
  lemma {:induction false} CompactIs(pr: Printer, v: Value, n: nat)
    requires !pr.pretty
    ensures Show(pr, v, n) == CompactOf(pr, v)
    decreases v, 1
  {
    hide ShowLeaf, LeafOf, ShowMembers, PartsOf;
    if !v.Collection?() {
      LeafIs(pr, v);
    } else if v.members == [] {
      assert PartsOf(pr, [], v.Object?) == [];
    } else {
      PartsAre(pr, v.members, Deeper(n), v.Object?);
      Around(Show(pr, v, n), v.Array?, ShowMembers(pr, v.members, Deeper(n), v.Object?));
    }
  }

  lemma Around(s: bytes, array': bool, x: bytes)
    requires s == [if array' then JsonGrammar.LBRACKET else JsonGrammar.LBRACE]
                  + ([] + (x + ([] + [if array' then JsonGrammar.RBRACKET else JsonGrammar.RBRACE])))
    ensures s == (if array' then Ascii("[") else Ascii("{")) + x + (if array' then Ascii("]") else Ascii("}"))
  {
  }

  lemma {:induction false} PartsAre(pr: Printer, ms: seq<Member>, n: nat, keyed: bool)
    requires !pr.pretty && ms != []
    ensures ShowMembers(pr, ms, n, keyed) == Join(PartsOf(pr, ms, keyed), Ascii(","))
    decreases ms, 0
  {
    hide Show, CompactOf, ShowKey, NameOf;
    var m := ms[0];
    assert m.value < m;
    NameIs(m.key);
    CompactIs(pr, m.value, n);
    var head := Label(pr, m, keyed) + Show(pr, m.value, n);
    var parts := PartsOf(pr, ms, keyed);
    assert parts[0] == head;
    assert parts[1..] == PartsOf(pr, ms[1..], keyed);
    if |ms| > 1 {
      PartsAre(pr, ms[1..], n, keyed);
      assert Ascii(",") == [JsonGrammar.COMMA];
      assert ShowMembers(pr, ms, n, keyed) == head + [JsonGrammar.COMMA] + ShowMembers(pr, ms[1..], n, keyed);
    } else {
      assert ShowMembers(pr, ms[1..], n, keyed) == [];
      assert ShowMembers(pr, ms, n, keyed) == head;
    }
  }

  // ----- pretty

  function Margin(n: nat): (r: bytes)
    ensures |r| == 2 * n && forall i :: 0 <= i < |r| ==> r[i] == 0x20
  {
    seq(2 * n, _ => 0x20)
  }

  /** Lines with `head` in front of the first and `tail` behind the last. */
  function Framed(head: bytes, lines: seq<bytes>, tail: bytes): (r: seq<bytes>)
    ensures |r| == |lines|
  {
    var l := if lines == [] then [] else lines[0 := head + lines[0]];
    if l == [] then [] else l[|l| - 1 := l[|l| - 1] + tail]
  }

  /**
   The lines of a value at depth `n`: brackets of a collection that is not empty on lines of their own, its members in
   between, each starting a line one level deeper and followed by a comma unless it is the last.
   */
  function LinesOf(pr: Printer, v: Value, n: nat): (r: seq<bytes>)
    ensures r != []
    decreases v, 1
  {
    match v
    case Array(ms) =>
      if ms == [] then [Ascii("[]")] else [Ascii("[")] + MemberLines(pr, ms, n + 1, false) + [Margin(n) + Ascii("]")]
    case Object(ms) =>
      if ms == [] then [Ascii("{}")] else [Ascii("{")] + MemberLines(pr, ms, n + 1, true) + [Margin(n) + Ascii("}")]
    case _ => [LeafOf(pr, v)]
  }

  function MemberLines(pr: Printer, ms: seq<Member>, n: nat, keyed: bool): (r: seq<bytes>)
    ensures ms != [] ==> r != []
    decreases ms, 0
  {
    if ms == [] then []
    else
      var m := ms[0];
      assert m.value < m;
      Framed(Margin(n) + (if keyed then NameOf(m.key) + Ascii(": ") else []), LinesOf(pr, m.value, n),
             if |ms| > 1 then Ascii(",") else [])
      + MemberLines(pr, ms[1..], n, keyed)
  }

  /** Carriage return and line feed. */
  const CRLF: bytes := [0x0D, 0x0A]

  lemma {:induction false} JoinAppend(a: seq<bytes>, b: seq<bytes>, sep: bytes)
    requires a != [] && b != []
    ensures Join(a + b, sep) == Join(a, sep) + sep + Join(b, sep)
  {
    if |a| == 1 {
      assert (a + b)[0] == a[0] && (a + b)[1..] == b;
    } else {
      JoinAppend(a[1..], b, sep);
      assert (a + b)[0] == a[0] && (a + b)[1..] == a[1..] + b;
      assert a[0] + sep + (Join(a[1..], sep) + sep + Join(b, sep))
          == a[0] + sep + Join(a[1..], sep) + sep + Join(b, sep);
    }
  }

  lemma {:induction false} JoinTail(lines: seq<bytes>, tail: bytes, sep: bytes)
    requires lines != []
    ensures Join(lines[|lines| - 1 := lines[|lines| - 1] + tail], sep) == Join(lines, sep) + tail
  {
    var n := |lines| - 1;
    var front, l := lines[..n], lines[n := lines[n] + tail];
    assert lines == front + [lines[n]] && l == front + [lines[n] + tail];
    JoinOne(lines[n], sep);
    JoinOne(lines[n] + tail, sep);
    if front != [] {
      hide Join;
      JoinAppend(front, [lines[n]], sep);
      JoinAppend(front, [lines[n] + tail], sep);
      Assoc(Join(front, sep) + sep, lines[n], tail);
    } else {
      assert l == [lines[n] + tail];
    }
  }

  lemma JoinOne(line: bytes, sep: bytes)
    ensures Join([line], sep) == line
  {
  }

  lemma JoinFramed(head: bytes, lines: seq<bytes>, tail: bytes, sep: bytes)
    requires lines != []
    ensures Join(Framed(head, lines, tail), sep) == head + Join(lines, sep) + tail
  {
    var l := lines[0 := head + lines[0]];
    JoinTail(l, tail, sep);
    assert l[1..] == lines[1..];
  }

  lemma MarginIs(pr: Printer, n: nat)
    requires pr.pretty
    ensures Indent(pr, n) == Margin(n) && Newline(pr) == CRLF
  {
  }

  /** A leaf or an empty collection takes one line. */
  lemma OneLine(pr: Printer, v: Value, n: nat)
    requires !v.Collection?() || v.members == []
    ensures LinesOf(pr, v, n) == [Show(pr, v, n)]
  {
    hide ShowLeaf, LeafOf, Ascii;
    if v.Collection?() {
      BracketsAre();
    } else {
      LeafIs(pr, v);
    }
  }

  /** The bracket, what is inside and the bracket, on both sides. */
  lemma BracketLines(pr: Printer, v: Value, n: nat)
    requires v.Collection?() && v.members != [] && n + 1 < 0x100
    ensures var open, close := if v.Array? then Ascii("[") else Ascii("{"), if v.Array? then Ascii("]") else Ascii("}");
            && Show(pr, v, n) == open + (Newline(pr) + (ShowMembers(pr, v.members, n + 1, v.Object?)
                                                        + (Indent(pr, n) + close)))
            && LinesOf(pr, v, n) == [open] + (MemberLines(pr, v.members, n + 1, v.Object?) + [Margin(n) + close])
  {
    hide ShowMembers, MemberLines, Indent, Newline, Margin, Ascii;
    BracketsAre();
  }

  /** The pretty rendering, while the depth fits the counter. */
  lemma {:induction false} PrettyIs(pr: Printer, v: Value, n: nat)
    requires pr.pretty && n + Nesting(v) < 0x100
    ensures Show(pr, v, n) == Join(LinesOf(pr, v, n), CRLF)
    decreases v, 1
  {
    hide Show, LinesOf, Join, ShowMembers, MemberLines, MemberNesting, Indent, Newline, Margin, Ascii;
    if !v.Collection?() || v.members == [] {
      OneLine(pr, v, n);
      JoinOne(Show(pr, v, n), CRLF);
      return;
    }
    MarginIs(pr, n);
    LinesAre(pr, v.members, n + 1, v.Object?);
    BracketLines(pr, v, n);
    var open, close := if v.Array? then Ascii("[") else Ascii("{"), if v.Array? then Ascii("]") else Ascii("}");
    var inner := MemberLines(pr, v.members, n + 1, v.Object?);
    JoinAppend([open], inner + [Margin(n) + close], CRLF);
    JoinAppend(inner, [Margin(n) + close], CRLF);
    JoinOne(open, CRLF);
    JoinOne(Margin(n) + close, CRLF);
    Regroup(open, CRLF, Join(inner, CRLF), Margin(n), close);
  }

  lemma BracketsAre()
    ensures Ascii("[") == [JsonGrammar.LBRACKET] && Ascii("]") == [JsonGrammar.RBRACKET]
    ensures Ascii("{") == [JsonGrammar.LBRACE] && Ascii("}") == [JsonGrammar.RBRACE]
    ensures Ascii("[]") == [JsonGrammar.LBRACKET, JsonGrammar.RBRACKET]
    ensures Ascii("{}") == [JsonGrammar.LBRACE, JsonGrammar.RBRACE]
    ensures Ascii(",") == [JsonGrammar.COMMA] && Ascii(": ") == [JsonGrammar.COLON, JsonGrammar.SPACE]
  {
  }

  lemma Regroup(a: bytes, b: bytes, c: bytes, d: bytes, e: bytes)
    ensures a + b + (c + b + (d + e)) == a + (b + ((c + b) + (d + e)))
  {
  }

  lemma {:induction false} LinesAre(pr: Printer, ms: seq<Member>, n: nat, keyed: bool)
    requires pr.pretty && ms != [] && n + MemberNesting(ms) < 0x100
    ensures ShowMembers(pr, ms, n, keyed) == Join(MemberLines(pr, ms, n, keyed), CRLF) + CRLF
    decreases ms, 0
  {
    hide Show, LinesOf, ShowKey, NameOf, Nesting, Indent, Newline, Margin;
    var m := ms[0];
    assert m.value < m;
    MarginIs(pr, n);
    NameIs(m.key);
    BracketsAre();
    PrettyIs(pr, m.value, n);
    var lines, tail := LinesOf(pr, m.value, n), if |ms| > 1 then Ascii(",") else [];
    var head := Margin(n) + (if keyed then NameOf(m.key) + Ascii(": ") else []);
    JoinFramed(head, lines, tail, CRLF);
    var first := Framed(head, lines, tail);
    if |ms| > 1 {
      LinesAre(pr, ms[1..], n, keyed);
      JoinAppend(first, MemberLines(pr, ms[1..], n, keyed), CRLF);
      OneMember(pr, ms, n, keyed, Join(first, CRLF));
    } else {
      assert MemberLines(pr, ms[1..], n, keyed) == [];
      assert MemberLines(pr, ms, n, keyed) == first;
      assert ShowMembers(pr, ms[1..], n, keyed) == [];
      OneMember(pr, ms, n, keyed, Join(first, CRLF));
    }
  }

  lemma OneMember(pr: Printer, ms: seq<Member>, n: nat, keyed: bool, first: bytes)
    requires ms != [] && first == Indent(pr, n) + Label(pr, ms[0], keyed) + Show(pr, ms[0].value, n)
                                  + (if |ms| > 1 then [JsonGrammar.COMMA] else [])
    ensures ShowMembers(pr, ms, n, keyed) == first + Newline(pr) + ShowMembers(pr, ms[1..], n, keyed)
  {
    hide Show, Label, Indent, Newline;
  }
}
