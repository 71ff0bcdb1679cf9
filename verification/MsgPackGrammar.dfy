/**
 What the MessagePack encoder writes and the decoder reads, as functions: the encoding of a document, and
 the error code, document, position and pool bytes a decode ends with.
 */
module MsgPackGrammar {
  import opened Values
  import opened JsonGrammar

  // ----- encoding

  /** Big-endian bytes, after fixEndianess. */
  function Be2(n: nat): bytes {
    [n / 0x100 % 0x100, n % 0x100]
  }

  function Be4(n: nat): bytes {
    Be2(n / 0x1_0000) + Be2(n % 0x1_0000)
  }

  /** A size header: short form below `short`, then the 8-bit form if there is one, then 16 and 32 bits. */
  function TextHead(n: nat): bytes {
    if n < 0x20 then [0xA0 + n]
    else if n < 0x100 then [0xD9, n]
    else if n < 0x1_0000 then [0xDA] + Be2(n)
    else [0xDB] + Be4(n)
  }

  function ArrayHead(n: nat): bytes {
    if n < 0x10 then [0x90 + n] else if n < 0x1_0000 then [0xDC] + Be2(n) else [0xDD] + Be4(n)
  }

  function ObjectHead(n: nat): bytes {
    if n < 0x10 then [0x80 + n] else if n < 0x1_0000 then [0xDE] + Be2(n) else [0xDF] + Be4(n)
  }

  function EncodePositive(n: UInt): bytes {
    if n <= 0x7F then [n]
    else if n <= 0xFF then [0xCC, n]
    else if n <= 0xFFFF then [0xCD] + Be2(n)
    else [0xCE] + Be4(n)
  }

  /** visitNegativeInteger on the magnitude; above 2^31 nothing is written. */
  function EncodeNegative(n: UInt): bytes {
    var negated := (UINT_RANGE - n) % UINT_RANGE;
    if n <= 0x20 then [negated % 0x100]
    else if n <= 0x80 then [0xD0, negated % 0x100]
    else if n <= 0x8000 then [0xD1] + Be2(negated % 0x1_0000)
    else if n <= 0x8000_0000 then [0xD2] + Be4(negated)
    else []
  }

  function EncodeText(s: bytes): bytes {
    TextHead(|s|) + s
  }

  function EncodeKey(k: Key): bytes {
    if k.NoKey? then [0xC0] else EncodeText(k.text)
  }

  function Encode(v: Value): bytes
    decreases v, 1
  {
    match v
    case Null => [0xC0]
    case Boolean(b) => [if b then 0xC3 else 0xC2]
    case Integer(negative, n) => if negative then EncodeNegative(n) else EncodePositive(n)
    case Float(bits) => [0xCA] + Be4(bits)
    case Str(s, _) => EncodeText(s)
    case Array(ms) => ArrayHead(|ms|) + EncodeMembers(ms, false)
    case Object(ms) => ObjectHead(|ms|) + EncodeMembers(ms, true)
  }

  function EncodeMembers(ms: seq<Member>, keyed: bool): bytes
    decreases ms, 0
  {
    if ms == [] then []
    else
      var m := ms[0];
      assert m.value < m;
      (if keyed then EncodeKey(m.key) else []) + (Encode(m.value) + EncodeMembers(ms[1..], keyed))
  }

  // ----- decoding

  /** readInteger: `w` bytes, big-endian. */
  function Unsigned(t: bytes, p: nat, w: nat): nat
    requires p + w <= |t|
  {
    if w == 0 then 0 else Unsigned(t, p, w - 1) * 0x100 + t[p + w - 1]
  }

  predicate Available(t: bytes, p: nat, w: nat) {
    p + w <= |t|
  }

  /** setInteger of a signed integer of `w` bytes. */
  function Signed(n: nat, range: nat): Value
    requires n < range <= UINT_RANGE
  {
    if n < range / 2 then Integer(false, n) else Integer(true, range - n)
  }

  lemma {:induction false} UnsignedBound(t: bytes, p: nat, w: nat, range: nat)
    requires p + w <= |t|
    requires (w == 1 && range == 0x100) || (w == 2 && range == 0x1_0000) || (w == 4 && range == UINT_RANGE)
    ensures Unsigned(t, p, w) < range
  {
    assert w >= 2 ==> Unsigned(t, p, 2) == (Unsigned(t, p, 0) * 0x100 + t[p]) * 0x100 + t[p + 1];
    assert w == 4 ==> Unsigned(t, p, 4) == (Unsigned(t, p, 2) * 0x100 + t[p + 2]) * 0x100 + t[p + 3];
  }

  function ReadUnsigned(t: bytes, p: nat, w: nat, room: nat): Parsed
    requires w == 1 || w == 2 || w == 4
  {
    if !Available(t, p, w) then Parsed(IncompleteInput, Null, p, room)
    else
      UnsignedBound(t, p, w, if w == 1 then 0x100 else if w == 2 then 0x1_0000 else UINT_RANGE);
      Parsed(Ok, Integer(false, Unsigned(t, p, w)), p + w, room)
  }

  function ReadSigned(t: bytes, p: nat, w: nat, room: nat): Parsed
    requires w == 1 || w == 2 || w == 4
  {
    if !Available(t, p, w) then Parsed(IncompleteInput, Null, p, room)
    else
      var range := if w == 1 then 0x100 else if w == 2 then 0x1_0000 else UINT_RANGE;
      UnsignedBound(t, p, w, range);
      Parsed(Ok, Signed(Unsigned(t, p, w), range), p + w, room)
  }

  function ReadFloat(t: bytes, p: nat, room: nat): Parsed {
    if !Available(t, p, 4) then Parsed(IncompleteInput, Null, p, room)
    else
      UnsignedBound(t, p, 4, UINT_RANGE);
      Parsed(Ok, Float(Unsigned(t, p, 4)), p + 4, room)
  }

  /** A double is narrowed to Float; the conversion is not modelled. */
  function ReadDouble(t: bytes, p: nat, room: nat, cfg: Config): Parsed {
    if !Available(t, p, 8) then Parsed(IncompleteInput, Null, p, room)
    else Parsed(Ok, Float(cfg.toFloat(t[p..p + 8])), p + 8, room)
  }

  /** What a size or a text takes: error, the size or where the text ends. */
  datatype Size = Size(err: Code, n: nat, pos: nat)

  function ReadSize(t: bytes, p: nat, w: nat): Size {
    if !Available(t, p, w) then Size(IncompleteInput, 0, p) else Size(Ok, Unsigned(t, p, w), p + w)
  }

  /** Length and start of a string whose first byte is `c`, or that it is no string. */
  function TextSize(t: bytes, p: nat, c: byte): Size {
    if 0xA0 <= c < 0xC0 then Size(Ok, c - 0xA0, p)
    else if c == 0xD9 then ReadSize(t, p, 1)
    else if c == 0xDA then ReadSize(t, p, 2)
    else if c == 0xDB then ReadSize(t, p, 4)
    else Size(NotSupported, 0, p)
  }

  predicate IsText(c: byte) {
    0xA0 <= c < 0xC0 || c == 0xD9 || c == 0xDA || c == 0xDB
  }

  /** readString, after the size. */
  function ReadText(t: bytes, z: Size): (r: Text)
    ensures r.err == Ok ==> z.err == Ok && r.pos == z.pos + z.n <= |t|
    ensures NulFree(r.text)
    ensures r.err != NoMemory ==> z.err != NoMemory
  {
    if z.err != Ok then Text(z.err, [], z.pos)
    else if !Available(t, z.pos, z.n) then Text(IncompleteInput, [], z.pos)
    else Text(Ok, CText(t[z.pos..z.pos + z.n]), z.pos + z.n)
  }

  /** The copier stores all the bytes, even those behind an embedded NUL. */
  predicate FitsRaw(z: Size, room: nat, cfg: Config) {
    cfg.copying ==> z.n + 1 <= room
  }

  function ReadString(t: bytes, z: Size, room: nat, cfg: Config): (r: Parsed)
  {
    var s := ReadText(t, z);
    if s.err != Ok then Parsed(s.err, Null, s.pos, room)
    else if !FitsRaw(z, room, cfg) then Parsed(NoMemory, Null, s.pos, room)
    else Parsed(Ok, Str(s.text, false), s.pos, if cfg.copying then room - (z.n + 1) else room)
  }

  /** parseKey. */
  function ReadKey(t: bytes, p: nat, room: nat, cfg: Config): (h: Head)
    ensures h.err == Ok ==> h.pos <= |t|
  {
    if p >= |t| then Head(IncompleteInput, NoKey, p, room)
    else
      var z := TextSize(t, p + 1, t[p]);
      var s := ReadText(t, z);
      if s.err != Ok then Head(s.err, NoKey, s.pos, room)
      else if !FitsRaw(z, room, cfg) then Head(NoMemory, NoKey, s.pos, room)
      else Head(Ok, Key(s.text, false), s.pos, if cfg.copying then room - (z.n + 1) else room)
  }

  /** Number of elements announced by a collection header, and whether it is an array. */
  function ListSize(t: bytes, p: nat, c: byte): Size {
    if 0x80 <= c < 0x90 then Size(Ok, c - 0x80, p)
    else if 0x90 <= c < 0xA0 then Size(Ok, c - 0x90, p)
    else if c == 0xDC || c == 0xDE then ReadSize(t, p, 2)
    else ReadSize(t, p, 4)
  }

  predicate IsArray(c: byte) { 0x90 <= c < 0xA0 || c == 0xDC || c == 0xDD }

  predicate IsObject(c: byte) { 0x80 <= c < 0x90 || c == 0xDE || c == 0xDF }

  /** Everything but collections and strings. */
  function DecodeLeaf(t: bytes, p: nat, room: nat, cfg: Config): Parsed
    requires p < |t|
  {
    var c := t[p];
    if c < 0x80 then Parsed(Ok, Integer(false, c), p + 1, room)
    else if c >= 0xE0 then Parsed(Ok, Integer(true, 0x100 - c), p + 1, room)
    else if c == 0xC0 then Parsed(Ok, Null, p + 1, room)
    else if c == 0xC2 || c == 0xC3 then Parsed(Ok, Boolean(c == 0xC3), p + 1, room)
    else if c == 0xCC then ReadUnsigned(t, p + 1, 1, room)
    else if c == 0xCD then ReadUnsigned(t, p + 1, 2, room)
    else if c == 0xCE then ReadUnsigned(t, p + 1, 4, room)
    else if c == 0xD0 then ReadSigned(t, p + 1, 1, room)
    else if c == 0xD1 then ReadSigned(t, p + 1, 2, room)
    else if c == 0xD2 then ReadSigned(t, p + 1, 4, room)
    else if c == 0xCA then ReadFloat(t, p + 1, room)
    else if c == 0xCB then ReadDouble(t, p + 1, room, cfg)
    else Parsed(NotSupported, Null, p + 1, room)
  }

  /** MsgPackDeserializer::parse. */
  function Decode(t: bytes, p: nat, limit: nat, room: nat, cfg: Config): (r: Parsed)
    ensures r.room <= room && (r.err == Ok ==> r.pos <= |t| && Nesting(r.value) <= limit)
    ensures r.err == Ok ==>
              if cfg.copying then r.room + Usage(r.value) <= room else r.room + SLOT * Slots(r.value) == room
    decreases limit, 1
  {
    if p >= |t| then Parsed(IncompleteInput, Null, p, room)
    else if IsText(t[p]) then ReadString(t, TextSize(t, p + 1, t[p]), room, cfg)
    else if IsArray(t[p]) || IsObject(t[p]) then
      var keyed := IsObject(t[p]);
      var z := ListSize(t, p + 1, t[p]);
      if z.err != Ok then Parsed(z.err, List([], keyed), z.pos, room)
      else if limit == 0 then Parsed(TooDeep, List([], keyed), z.pos, room)
      else
        var r := DecodeMembers(t, z.pos, z.n, keyed, limit, room, cfg);
        Parsed(r.err, List(r.members, keyed), r.pos, r.room)
    else DecodeLeaf(t, p, room, cfg)
  }

  function List(ms: seq<Member>, keyed: bool): Value {
    if keyed then Object(ms) else Array(ms)
  }

  function DecodeKey(t: bytes, p: nat, keyed: bool, room: nat, cfg: Config): Head {
    if keyed then ReadKey(t, p, room, cfg) else Head(Ok, NoKey, p, room)
  }

  /** The loop of readArray and readObject: `n` more members. */
  function DecodeMembers(t: bytes, p: nat, n: nat, keyed: bool, limit: nat, room: nat, cfg: Config): (r: ParsedMembers)
    requires limit > 0
    ensures r.room <= room && (r.err == Ok && p <= |t| ==> r.pos <= |t|)
            && (r.err == Ok ==> MemberNesting(r.members) < limit)
    ensures r.err == Ok ==>
              if cfg.copying then r.room + MemberUsage(r.members) <= room
              else r.room + SLOT * MemberSlots(r.members) == room
    decreases limit, 0, n
  {
    if n == 0 then ParsedMembers(Ok, [], p, room)
    else if room < SLOT then ParsedMembers(NoMemory, [], p, room)
    else
      var h := DecodeKey(t, p, keyed, room - SLOT, cfg);
      if h.err != Ok then ParsedMembers(h.err, [Member(h.key, Null)], h.pos, h.room)
      else
        var e := Decode(t, h.pos, limit - 1, h.room, cfg);
        var m := Member(h.key, e.value);
        if e.err != Ok then ParsedMembers(e.err, [m], e.pos, e.room)
        else
          var r := DecodeMembers(t, e.pos, n - 1, keyed, limit, e.room, cfg);
          MemberCostFront(m, r.members, cfg);
          ParsedMembers(r.err, [m] + r.members, r.pos, r.room)
  }

  // ----- the nesting limit after an error

  /** Collections still open when decoding ends, by which the nesting limit stays lowered. */
  function OpenLevels(t: bytes, p: nat, limit: nat, room: nat, cfg: Config): (n: nat)
    ensures n <= limit && (Decode(t, p, limit, room, cfg).err == Ok ==> n == 0)
    decreases limit, 1
  {
    if p >= |t| || IsText(t[p]) || !(IsArray(t[p]) || IsObject(t[p])) || Decode(t, p, limit, room, cfg).err == Ok then 0
    else
      var z := ListSize(t, p + 1, t[p]);
      if z.err != Ok || limit == 0 then 0 else 1 + OpenMembers(t, z.pos, z.n, IsObject(t[p]), limit, room, cfg)
  }

  function OpenMembers(t: bytes, p: nat, n: nat, keyed: bool, limit: nat, room: nat, cfg: Config): (r: nat)
    requires limit > 0
    ensures r < limit && (DecodeMembers(t, p, n, keyed, limit, room, cfg).err == Ok ==> r == 0)
    decreases limit, 0, n
  {
    if n == 0 || room < SLOT then 0
    else
      var h := DecodeKey(t, p, keyed, room - SLOT, cfg);
      if h.err != Ok then 0
      else
        var e := Decode(t, h.pos, limit - 1, h.room, cfg);
        if e.err != Ok then OpenLevels(t, h.pos, limit - 1, h.room, cfg)
        else OpenMembers(t, e.pos, n - 1, keyed, limit, e.room, cfg)
  }
}
