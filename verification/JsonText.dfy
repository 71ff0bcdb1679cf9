/**
 The JSON texts of a document, as RFC 8259 and the extensions of the library describe them: which bytes may stand for
 a value, character by character, without reference to how they are parsed.
 */
module JsonText {
  import opened Values

  // ----- between tokens

  /** A block comment from `a`, its closing star at `m`. */
  predicate BlockComment(t: bytes, a: nat, m: nat) {
    && a + 2 <= m && m + 2 <= |t| && t[a] == 0x2F && t[a + 1] == 0x2A && t[m] == 0x2A && t[m + 1] == 0x2F
    && forall i :: a + 2 <= i < m ==> t[i] != 0 && !(t[i] == 0x2A && t[i + 1] == 0x2F)
  }

  /** A line comment from `a`, its line feed at `m`. */
  predicate LineComment(t: bytes, a: nat, m: nat) {
    && a + 2 <= m < |t| && t[a] == 0x2F && t[a + 1] == 0x2F && t[m] == 0x0A
    && forall i :: a + 2 <= i < m ==> t[i] != 0 && t[i] != 0x0A
  }

  /** Spaces, tabs, line feeds, carriage returns and comments, in any mix. */
  ghost predicate Gap(t: bytes, a: nat, b: nat)
    decreases b - a
  {
    && a <= b <= |t|
    && (|| a == b
        || (a < b && (t[a] == 0x20 || t[a] == 0x09 || t[a] == 0x0A || t[a] == 0x0D) && Gap(t, a + 1, b))
        || (exists m: nat :: BlockComment(t, a, m) && m + 2 <= b && Gap(t, m + 2, b))
        || (exists m: nat :: LineComment(t, a, m) && m + 1 <= b && Gap(t, m + 1, b)))
  }

  // ----- strings

  /** What a backslash and `c` stand for; RFC 8259 section 7, any other character standing for itself. */
  function Escaped(c: byte): byte {
    match c
    case 0x62 => 0x08
    case 0x66 => 0x0C
    case 0x6E => 0x0A
    case 0x72 => 0x0D
    case 0x74 => 0x09
    case _ => c
  }

  /** The characters of `s` between quotes `q`, each as it is or escaped. */
  predicate Chars(t: bytes, a: nat, b: nat, q: byte, s: bytes)
    decreases |s|
  {
    && a <= b <= |t|
    && if s == [] then a == b
       else
         || (a < b && t[a] == s[0] && t[a] != 0 && t[a] != q && t[a] != 0x5C && Chars(t, a + 1, b, q, s[1..]))
         || (&& a + 1 < b && t[a] == 0x5C && t[a + 1] != 0 && t[a + 1] != 0x75 && Escaped(t[a + 1]) == s[0]
             && Chars(t, a + 2, b, q, s[1..]))
  }

  predicate QuotedText(t: bytes, a: nat, b: nat, s: bytes) {
    && a + 2 <= b <= |t| && (t[a] == 0x22 || t[a] == 0x27) && t[b - 1] == t[a]
    && Chars(t, a + 1, b - 1, t[a], s)
  }

  // ----- words

  /** Digits, letters, plus, minus, dot, underscore and backquote. */
  predicate WordByte(c: byte) {
    || 0x30 <= c <= 0x39 || 0x41 <= c <= 0x5A || 0x61 <= c <= 0x7A
    || c == 0x2B || c == 0x2D || c == 0x2E || c == 0x5F || c == 0x60
  }

  predicate AllWord(t: bytes, a: nat, b: nat) {
    a < b <= |t| && forall i :: a <= i < b ==> WordByte(t[i])
  }

  predicate WordStops(t: bytes, b: nat) {
    b < |t| ==> !WordByte(t[b])
  }

  predicate AllDigits(s: bytes) {
    forall i :: 0 <= i < |s| ==> 0x30 <= s[i] <= 0x39
  }

  /** The number that decimal digits denote. */
  function Magnitude(s: bytes): nat
    requires AllDigits(s)
  {
    if s == [] then 0 else Magnitude(s[..|s| - 1]) * 10 + (s[|s| - 1] - 0x30)
  }

  /** Without the sign. */
  function Bare(w: bytes): bytes {
    if w != [] && (w[0] == 0x2B || w[0] == 0x2D) then w[1..] else w
  }

  /**
   What a word means: a keyword by its first letter and length, a 32-bit integer, or, if it begins like a number, what
   the float conversion makes of it.
   */
  predicate WordMeans(w: bytes, v: Value, toFloat: bytes -> UInt)
    requires w != []
  {
    if w[0] == 0x74 then |w| == 4 && v == Boolean(true)
    else if w[0] == 0x66 then |w| == 5 && v == Boolean(false)
    else if w[0] == 0x6E then |w| == 4 && v == Null
    else
      var u := Bare(w);
      && u != []
      && if AllDigits(u) && Magnitude(u) < 0x1_0000_0000 then v == Integer(w[0] == 0x2D, Magnitude(u))
         else
           && (0x30 <= u[0] <= 0x39 || u[0] == 0x2E || u[0] == 0x6E || u[0] == 0x4E || u[0] == 0x69 || u[0] == 0x49)
           && v == Float(toFloat(w))
  }

  // ----- values

  /** The bytes from `a` up to `b` are a text of `v`, which owns its strings. */
  ghost predicate TextOf(t: bytes, a: nat, b: nat, v: Value, toFloat: bytes -> UInt)
    decreases v, 1
  {
    match v
    case Str(s, linked) => !linked && QuotedText(t, a, b, s)
    case Array(ms) =>
      && a + 2 <= b <= |t| && t[a] == 0x5B && t[b - 1] == 0x5D
      && if ms == [] then Gap(t, a + 1, b - 1) else ItemsOf(t, a + 1, b - 1, ms, toFloat)
    case Object(ms) =>
      && a + 2 <= b <= |t| && t[a] == 0x7B && t[b - 1] == 0x7D
      && if ms == [] then Gap(t, a + 1, b - 1) else MembersOf(t, a + 1, b - 1, ms, toFloat)
    case _ =>
      && AllWord(t, a, b) && b - a <= 63 && (b - a == 63 || WordStops(t, b)) && WordMeans(t[a..b], v, toFloat)
  }

  /** Elements separated by commas, with gaps around each. */
  ghost predicate ItemsOf(t: bytes, a: nat, b: nat, ms: seq<Member>, toFloat: bytes -> UInt)
    requires ms != []
    decreases ms, 0
  {
    var m := ms[0];
    assert m.value < m;
    var last := |ms| == 1;
    exists i: nat, j: nat, k: nat ::
      && ItemAt(t, a, i, j, k, b, m, last) && TextOf(t, i, j, m.value, toFloat)
      && (!last ==> ItemsOf(t, k + 1, b, ms[1..], toFloat))
  }

  /** Gap, value from `i` to `j`, gap, and at `k` the end or a comma. */
  ghost predicate ItemAt(t: bytes, a: nat, i: nat, j: nat, k: nat, b: nat, m: Member, last: bool) {
    m.key == NoKey && a <= i <= j <= k <= b <= |t| && Gap(t, a, i) && Gap(t, j, k)
    && (if last then k == b else k < b && t[k] == 0x2C)
  }

  /** A key is a quoted string or a bare word. */
  predicate KeyOf(t: bytes, a: nat, b: nat, key: Key) {
    && key.Key? && !key.linked
    && (QuotedText(t, a, b, key.text) || (AllWord(t, a, b) && WordStops(t, b) && key.text == t[a..b]))
  }

  ghost predicate MembersOf(t: bytes, a: nat, b: nat, ms: seq<Member>, toFloat: bytes -> UInt)
    requires ms != []
    decreases ms, 0
  {
    var m := ms[0];
    assert m.value < m;
    var last := |ms| == 1;
    exists c: nat, i: nat, j: nat, k: nat ::
      && NameOf(t, a, c, m.key) && ValueAt(t, c, i, j, k, b, last) && TextOf(t, i, j, m.value, toFloat)
      && (!last ==> MembersOf(t, k + 1, b, ms[1..], toFloat))
  }

  ghost predicate NameOf(t: bytes, a: nat, c: nat, key: Key) {
    exists g: nat, h: nat :: NameAt(t, a, g, h, c, key)
  }

  /** Gap, key from `g` to `h`, gap, and at `c` a colon. */
  ghost predicate NameAt(t: bytes, a: nat, g: nat, h: nat, c: nat, key: Key) {
    a <= g <= h <= c < |t| && Gap(t, a, g) && KeyOf(t, g, h, key) && Gap(t, h, c) && t[c] == 0x3A
  }

  ghost predicate ValueAt(t: bytes, c: nat, i: nat, j: nat, k: nat, b: nat, last: bool) {
    && c + 1 <= i <= j <= k <= b <= |t| && Gap(t, c + 1, i) && Gap(t, j, k)
    && (if last then k == b else k < b && t[k] == 0x2C)
  }
}
