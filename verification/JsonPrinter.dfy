/**
 What JsonSerializer and PrettyJsonSerializer write, as functions of the document. The two differ
 only in the white space between tokens, so one definition serves both.
 */
module JsonPrinter {
  import opened Values
  import opened JsonGrammar

  /** The float formatting is not modelled, it is a parameter. */
  datatype Printer = Printer(pretty: bool, showFloat: UInt -> bytes)

  const NULL_TEXT: bytes := [110, 117, 108, 108]
  const TRUE_TEXT: bytes := [116, 114, 117, 101]
  const FALSE_TEXT: bytes := [102, 97, 108, 115, 101]

  /** escapeChar: the letter after the backslash, or 0 for a character written as it is. */
  function EscapeChar(c: byte): byte {
    if c == DQUOTE || c == BACKSLASH then c
    else if c == 8 then 98
    else if c == 12 then 102
    else if c == LF then 110
    else if c == CR then 114
    else if c == TAB then 116
    else 0
  }

  function ShowChar(c: byte): bytes {
    if EscapeChar(c) != 0 then [BACKSLASH, EscapeChar(c)] else [c]
  }

  function ShowChars(s: bytes): bytes {
    if s == [] then [] else ShowChar(s[0]) + ShowChars(s[1..])
  }

  /** writeString on a C string. */
  function ShowText(s: bytes): bytes {
    [DQUOTE] + (ShowChars(s) + [DQUOTE])
  }

  function Decimal(n: nat): bytes {
    if n < 10 then [48 + n] else Decimal(n / 10) + [48 + n % 10]
  }

  function ShowKey(k: Key): bytes {
    if k.NoKey? then NULL_TEXT else ShowText(k.text)
  }

  function Newline(pr: Printer): bytes {
    if pr.pretty then [CR, LF] else []
  }

  /** indent(): two spaces per level. */
  function Indent(pr: Printer, n: nat): bytes {
    if pr.pretty then Spaces(2 * n) else []
  }

  function Spaces(n: nat): (s: bytes)
    ensures |s| == n
    ensures forall i :: 0 <= i < n ==> s[i] == SPACE
  {
    seq(n, _ => SPACE)
  }

  /** _nesting is a uint8_t. */
  function Deeper(n: nat): nat {
    (n + 1) % 0x100
  }

  function Label(pr: Printer, m: Member, keyed: bool): bytes {
    if !keyed then []
    else ShowKey(m.key) + (if pr.pretty then [COLON, SPACE] else [COLON])
  }

  function ShowLeaf(pr: Printer, v: Value): bytes
    requires !v.Collection?()
  {
    match v
    case Null => NULL_TEXT
    case Boolean(b) => if b then TRUE_TEXT else FALSE_TEXT
    case Integer(negative, magnitude) => (if negative then [MINUS] else []) + Decimal(magnitude)
    case Float(bits) => pr.showFloat(bits)
    case Str(s, _) => ShowText(s)
  }

  function Show(pr: Printer, v: Value, n: nat): bytes
    decreases v, 1
  {
    if !v.Collection?() then ShowLeaf(pr, v)
    else
      var open := if v.Array? then LBRACKET else LBRACE;
      var close := if v.Array? then RBRACKET else RBRACE;
      if v.members == [] then [open, close]
      else
        [open] + (Newline(pr) + (ShowMembers(pr, v.members, Deeper(n), v.Object?) + (Indent(pr, n) + [close])))
  }

  function ShowMembers(pr: Printer, ms: seq<Member>, n: nat, keyed: bool): bytes
    decreases ms, 0
  {
    if ms == [] then []
    else
      var m := ms[0];
      assert m.value < m;
      Indent(pr, n) + (Label(pr, m, keyed) + (Show(pr, m.value, n) + (
        (if |ms| > 1 then [COMMA] else []) + (Newline(pr) + ShowMembers(pr, ms[1..], n, keyed)))))
  }
}
