/** The encoder writes the shortest message there is for a document. */
module MsgPackShortest {
  import opened Values
  import opened MsgPackGrammar
  import opened MsgPackText
  import opened MsgPackLanguage
  import MsgPackRoundTrip
  import MsgPackTheorems
  import JsonTheorems
  import JsonGrammar

  /** Integers that are not negative are written in the unsigned forms, by magnitude. */
  lemma PositiveForm(n: UInt)
    ensures var t := EncodePositive(n);
            if n < 0x80 then t == [n]
            else if n < 0x100 then Tagged(t, 0, |t|, 0xCC, 1, n)
            else if n < 0x1_0000 then Tagged(t, 0, |t|, 0xCD, 2, n)
            else Tagged(t, 0, |t|, 0xCE, 4, n)
  {
    Bytes4(n);
  }

  lemma Bytes4(n: UInt)
    ensures n == 0x100_0000 * (n / 0x1_0000 / 0x100 % 0x100) + 0x1_0000 * (n / 0x1_0000 % 0x100)
                 + 0x100 * (n % 0x1_0000 / 0x100 % 0x100) + n % 0x1_0000 % 0x100
  {
    assert n == 0x1_0000 * (n / 0x1_0000) + n % 0x1_0000;
  }

  /** Negative integers in the signed forms, by magnitude. */
  lemma NegativeForm(n: UInt)
    requires 1 <= n <= 0x8000_0000
    ensures var t := EncodeNegative(n);
            if n <= 0x20 then t == [0x100 - n]
            else if n <= 0x80 then TaggedSigned(t, 0, |t|, 0xD0, 1, -(n as int))
            else if n <= 0x8000 then TaggedSigned(t, 0, |t|, 0xD1, 2, -(n as int))
            else TaggedSigned(t, 0, |t|, 0xD2, 4, -(n as int))
  {
    var m := UINT_RANGE - n;
    Modulo(n);
    Bytes4(m);
  }

  lemma Modulo(n: UInt)
    requires 1 <= n <= 0x8000_0000
    ensures var m := UINT_RANGE - n;
            && m % UINT_RANGE == m
            && (n <= 0x80 ==> m % 0x100 == 0x100 - n)
            && (n <= 0x8000 ==> m % 0x1_0000 == 0x1_0000 - n)
  {
  }

  lemma IntegerShortest(t: bytes, a: nat, b: nat, negative: bool, n: UInt)
    requires (negative ==> n > 0) && IntegerAt(t, a, b, Amount(negative, n))
    ensures |Encode(Integer(negative, n))| <= b - a
  {
    RangeOf(t, a, b, Amount(negative, n));
    hide BigEndian, Tagged, TaggedSigned;
  }

  /** The forms of `k` bytes hold no more than `k` bytes can. */
  lemma RangeOf(t: bytes, a: nat, b: nat, x: int)
    requires IntegerAt(t, a, b, x)
    ensures a < b && (b == a + 1 ==> -0x20 <= x < 0x80) && (b == a + 2 ==> -0x80 <= x < 0x100)
    ensures b < a + 5 ==> b <= a + 3
    ensures b == a + 3 ==> -0x8000 <= x < 0x1_0000
    ensures -0x8000_0000 <= x
  {
    NumbersAre(t, a + 1);
    hide BigEndian, Unsigned;
  }

  lemma TextShortest(t: bytes, a: nat, h: nat, b: nat, s: bytes)
    requires TextFrom(t, a, h, b, s)
    ensures |EncodeText(s)| <= b - a
  {
    NumbersAre(t, a + 1);
    hide BigEndian, Unsigned;
  }

  lemma ListShortest(t: bytes, a: nat, h: nat, n: nat, keyed: bool)
    requires ListHeader(t, a, h, n, keyed)
    ensures |if keyed then ObjectHead(n) else ArrayHead(n)| <= h - a
  {
    NumbersAre(t, a + 1);
    hide BigEndian, Unsigned;
  }

  /** Every message of a document is at least as long as its encoding. */
  lemma {:induction false} EncodingIsShortest(t: bytes, a: nat, b: nat, v: Value, pool: nat, toFloat: bytes -> UInt)
    requires MessageOf(t, a, b, v, pool, toFloat)
    ensures |Encode(v)| <= b - a
    decreases v, 1
  {
    hide IntegerAt, TextFrom, ListHeader, MembersOf, EncodeText, EncodePositive, EncodeNegative, EncodeMembers,
      ObjectHead, ArrayHead, BigEndian;
    match v
    case Integer(negative, n) => IntegerShortest(t, a, b, negative, n);
    case Str(s, linked) =>
      var h: nat :| TextFrom(t, a, h, b, s) && pool == b - h + 1;
      TextShortest(t, a, h, b, s);
    case Array(ms) =>
      var h: nat :| ListHeader(t, a, h, |ms|, false) && MembersOf(t, h, b, ms, false, pool, toFloat);
      ListShortest(t, a, h, |ms|, false);
      MembersShortest(t, h, b, ms, false, pool, toFloat);
    case Object(ms) =>
      var h: nat :| ListHeader(t, a, h, |ms|, true) && MembersOf(t, h, b, ms, true, pool, toFloat);
      ListShortest(t, a, h, |ms|, true);
      MembersShortest(t, h, b, ms, true, pool, toFloat);
    case _ =>
  }

  lemma {:induction false} MembersShortest(t: bytes, a: nat, b: nat, ms: seq<Member>, keyed: bool, pool: nat,
                                           toFloat: bytes -> UInt)
    requires MembersOf(t, a, b, ms, keyed, pool, toFloat)
    ensures |EncodeMembers(ms, keyed)| <= b - a
    decreases ms, 0
  {
    hide MessageOf, MembersOf, KeyAt, Encode, EncodeKey;
    if ms == [] {
      NoMembers(t, a, b, keyed, pool, toFloat);
      return;
    }
    var m := ms[0];
    assert m.value < m;
    var c, d, x, y := OneMember(t, a, b, ms, keyed, pool, toFloat);
    KeyShortest(t, a, c, m.key, keyed, x);
    EncodingIsShortest(t, c, d, m.value, y, toFloat);
    MembersShortest(t, d, b, ms[1..], keyed, pool - 16 - x - y, toFloat);
  }

  lemma KeyShortest(t: bytes, a: nat, c: nat, key: Key, keyed: bool, x: nat)
    requires KeyAt(t, a, c, key, keyed, x)
    ensures a <= c && (keyed ==> |EncodeKey(key)| <= c - a)
  {
    hide TextFrom, EncodeText;
    if keyed {
      var h: nat :| TextFrom(t, a, h, c, key.text) && x == c - h + 1;
      TextShortest(t, a, h, c, key.text);
    }
  }

  /** And the encoding is one of them. */
  lemma EncodingIsMessage(v: Value, toFloat: bytes -> UInt)
    requires MsgPackRoundTrip.Encodable(JsonTheorems.Own(v))
    ensures exists pool: nat :: MessageOf(Encode(v), 0, |Encode(v)|, JsonTheorems.Own(v), pool, toFloat)
  {
    hide Encode, MsgPackRoundTrip.Encodable, JsonTheorems.Own, MessageOf, Nesting;
    var w := JsonTheorems.Own(v);
    var cfg := JsonGrammar.Config(true, toFloat);
    assert Encode(v) + [] == Encode(v);
    var room := JsonGrammar.Cost(w, cfg);
    MsgPackTheorems.EncodeThenDecode(v, [], Nesting(w), room, cfg);
    DecodesExactly(Encode(v), Nesting(w), room, cfg, w, |Encode(v)|, 0);
  }
}
