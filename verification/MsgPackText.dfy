/**
 The MessagePack messages of a document, as the Formats section of the MessagePack specification describes them: every
 form a value may take, whether the encoder of the library uses it or not.
 */
module MsgPackText {
  import opened Values

  /** An unsigned big-endian number of 1, 2 or 4 bytes. */
  function BigEndian(t: bytes, a: nat, w: nat): nat
    requires (w == 1 || w == 2 || w == 4) && a + w <= |t|
  {
    var b0: nat := t[a];
    if w == 1 then b0
    else
      var b1: nat := t[a + 1];
      if w == 2 then 0x100 * b0 + b1
      else
        var b2: nat, b3: nat := t[a + 2], t[a + 3];
        0x100_0000 * b0 + 0x1_0000 * b1 + 0x100 * b2 + b3
  }

  /** A tag and the big-endian number behind it. */
  predicate Tagged(t: bytes, a: nat, b: nat, tag: byte, w: nat, n: nat)
    requires w == 1 || w == 2 || w == 4
  {
    a + 1 + w == b <= |t| && t[a] == tag && BigEndian(t, a + 1, w) == n
  }

  /** The same for a number in two's complement. */
  predicate TaggedSigned(t: bytes, a: nat, b: nat, tag: byte, w: nat, x: int)
    requires w == 1 || w == 2 || w == 4
  {
    && a + 1 + w == b <= |t| && t[a] == tag
    && var n, range := BigEndian(t, a + 1, w), if w == 1 then 0x100 else if w == 2 then 0x1_0000 else 0x1_0000_0000;
       x == if n < range / 2 then n else n - range
  }

  /** positive and negative fixint, uint 8 to 32, int 8 to 32. */
  predicate IntegerAt(t: bytes, a: nat, b: nat, x: int) {
    || (a + 1 == b <= |t| && t[a] < 0x80 && x == t[a])
    || (a + 1 == b <= |t| && t[a] >= 0xE0 && x + 0x100 == t[a])
    || (x >= 0 && (Tagged(t, a, b, 0xCC, 1, x) || Tagged(t, a, b, 0xCD, 2, x) || Tagged(t, a, b, 0xCE, 4, x)))
    || TaggedSigned(t, a, b, 0xD0, 1, x) || TaggedSigned(t, a, b, 0xD1, 2, x) || TaggedSigned(t, a, b, 0xD2, 4, x)
  }

  function Amount(negative: bool, n: nat): int {
    var m: int := n;
    if negative then -m else m
  }

  /** fixstr, str 8, 16 and 32: the header ends at `h` and announces `raw` bytes. */
  predicate TextHeader(t: bytes, a: nat, h: nat, raw: nat) {
    || (a + 1 == h <= |t| && 0xA0 <= t[a] < 0xC0 && raw == t[a] - 0xA0)
    || Tagged(t, a, h, 0xD9, 1, raw) || Tagged(t, a, h, 0xDA, 2, raw) || Tagged(t, a, h, 0xDB, 4, raw)
  }

  /** A string of `raw` bytes, of which the document keeps those before the first NUL. */
  predicate TextFrom(t: bytes, a: nat, h: nat, b: nat, s: bytes) {
    && h <= b <= |t| && TextHeader(t, a, h, b - h)
    && |s| <= b - h && t[h..h + |s|] == s && NulFree(s) && (|s| < b - h ==> t[h + |s|] == 0)
  }

  /** fixarray, array 16 and 32; fixmap, map 16 and 32. */
  predicate ListHeader(t: bytes, a: nat, h: nat, n: nat, keyed: bool) {
    if keyed then
      || (a + 1 == h <= |t| && 0x80 <= t[a] < 0x90 && n == t[a] - 0x80)
      || Tagged(t, a, h, 0xDE, 2, n) || Tagged(t, a, h, 0xDF, 4, n)
    else
      || (a + 1 == h <= |t| && 0x90 <= t[a] < 0xA0 && n == t[a] - 0x90)
      || Tagged(t, a, h, 0xDC, 2, n) || Tagged(t, a, h, 0xDD, 4, n)
  }

  /** float 32 bit by bit, float 64 by the conversion. */
  predicate FloatAt(t: bytes, a: nat, b: nat, bits: UInt, toFloat: bytes -> UInt) {
    || Tagged(t, a, b, 0xCA, 4, bits)
    || (a + 9 == b <= |t| && t[a] == 0xCB && bits == toFloat(t[a + 1..a + 9]))
  }

  /** The bytes from `a` up to `b` are a message of `v`, which needs `pool` bytes when strings are copied. */
  ghost predicate MessageOf(t: bytes, a: nat, b: nat, v: Value, pool: nat, toFloat: bytes -> UInt)
    decreases v, 1
  {
    match v
    case Null => a + 1 == b <= |t| && t[a] == 0xC0 && pool == 0
    case Boolean(x) => a + 1 == b <= |t| && t[a] == (if x then 0xC3 else 0xC2) && pool == 0
    case Integer(negative, n) => (negative ==> n > 0) && IntegerAt(t, a, b, Amount(negative, n)) && pool == 0
    case Float(bits) => FloatAt(t, a, b, bits, toFloat) && pool == 0
    case Str(s, linked) => !linked && exists h: nat :: TextFrom(t, a, h, b, s) && pool == b - h + 1
    case Array(ms) =>
      && |ms| < 0x1_0000_0000
      && exists h: nat :: ListHeader(t, a, h, |ms|, false) && MembersOf(t, h, b, ms, false, pool, toFloat)
    case Object(ms) =>
      && |ms| < 0x1_0000_0000
      && exists h: nat :: ListHeader(t, a, h, |ms|, true) && MembersOf(t, h, b, ms, true, pool, toFloat)
  }

  /** Members one behind the other; 16 pool bytes each, and those of the key. */
  ghost predicate MembersOf(t: bytes, a: nat, b: nat, ms: seq<Member>, keyed: bool, pool: nat, toFloat: bytes -> UInt)
    decreases ms, 0
  {
    if ms == [] then a == b <= |t| && pool == 0
    else
      var m := ms[0];
      assert m.value < m;
      exists c: nat, d: nat, x: nat, y: nat ::
        && KeyAt(t, a, c, m.key, keyed, x) && MessageOf(t, c, d, m.value, y, toFloat) && pool >= 16 + x + y
        && MembersOf(t, d, b, ms[1..], keyed, pool - 16 - x - y, toFloat)
  }

  ghost predicate KeyAt(t: bytes, a: nat, c: nat, key: Key, keyed: bool, pool: nat) {
    if keyed then key.Key? && !key.linked && exists h: nat :: TextFrom(t, a, h, c, key.text) && pool == c - h + 1
    else key == NoKey && a == c && pool == 0
  }
}
