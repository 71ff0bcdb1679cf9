/** deserializeMsgPack and serializeMsgPack on whole documents, and the two string modes side by side. */
module MsgPackApi {
  import opened Values
  import opened JsonGrammar
  import opened MsgPackGrammar
  import opened MsgPackTheorems
  import opened Document
  import opened DocumentLaws
  import opened TextInput
  import opened JsonTheorems
  import MsgPackRoundTrip
  import MsgPackDeserializer
  import MsgPackSerializer
  import TextWriter

  /** Result of decoding `text` into the empty document `doc`, whose strings live in `store`. */
  ghost predicate Decoded?(doc: JsonDocument, store: bytes, text: bytes, limit: nat, cfg: Config, err: Code)
    reads doc
  {
    var p := Decode(text, 0, limit, doc.capacity, cfg);
    && doc.Valid() && err == p.err
    && Denotes(doc.slots, store, doc.root, p.value)
    && |doc.slots| == Slots(p.value)
    && (err == Ok ==> doc.Room() == p.room)
  }

  /** deserializeMsgPack(doc, input, size), copying strings or moving them within the input. */
  method DeserializeMsgPack(doc: JsonDocument, input: array<byte>, len: nat, limit: nat, cfg: Config)
    returns (err: Code)
    requires doc.mem.Length == doc.capacity <= MAX_CAPACITY && input != doc.mem && len <= input.Length
    modifies doc, doc.mem, input
    ensures Decoded?(doc, if cfg.copying then doc.mem[..] else input[..], old(input[..len]), limit, cfg, err)
    ensures cfg.copying ==> input[..] == old(input[..])
    ensures !cfg.copying ==> doc.mem[..] == old(doc.mem[..])
  {
    hide Decode, Denotes, Lay, Input.Intact;
    doc.left, doc.right, doc.slots, doc.root := 0, doc.capacity, [], Nothing;
    var io := new Input(doc, cfg, input, len, true);
    var d := new MsgPackDeserializer.Deserializer(io, limit);
    err := Run(d);
  }

  method Run(d: MsgPackDeserializer.Deserializer) returns (err: Code)
    requires d.Target(Root) && d.input.ptr == 0 && d.input.doc.slots == [] && d.input.Mark() == 0
    requires d.input.doc.Room() == d.input.doc.capacity
    modifies d, d.input, d.input.doc, d.input.dst
    ensures d.input.store == d.input.dst[..]
    ensures Decoded?(d.input.doc, d.input.store, d.input.text, old(d.nestingLimit), d.input.cfg, err)
  {
    hide Decode, Denotes, Lay, Input.Intact;
    err := d.Parse(Root);
    LayDenotes(d.input.doc.slots, d.input.store, d.input.doc.root,
               Decode(d.input.text, 0, old(d.nestingLimit), d.input.doc.capacity, d.input.cfg).value, 0, 0);
    StoreIs(d.input);
  }

  /** Decoding in place refines decoding with copies, as for JSON. */
  method DecodeBothWays(copy: JsonDocument, moved: JsonDocument, source: array<byte>, buffer: array<byte>, len: nat,
                        limit: nat, toFloat: bytes -> UInt)
    returns (err1: Code, err2: Code, ghost v: Value)
    requires copy != moved && copy.mem != moved.mem && source != buffer
    requires source !in {copy.mem, moved.mem} && buffer !in {copy.mem, moved.mem}
    requires copy.mem.Length == copy.capacity <= moved.capacity == moved.mem.Length <= MAX_CAPACITY
    requires len <= source.Length && len <= buffer.Length && source[..len] == buffer[..len]
    modifies copy, copy.mem, moved, moved.mem, source, buffer
    ensures source[..] == old(source[..])
    ensures Denotes(copy.slots, copy.mem[..], copy.root, v)
    ensures err1 != NoMemory ==> err2 == err1 && Denotes(moved.slots, buffer[..], moved.root, v)
  {
    hide Decode, Denotes;
    var cfg := Config(true, toFloat);
    v := Decode(source[..len], 0, limit, copy.capacity, cfg).value;
    err1 := DeserializeMsgPack(copy, source, len, limit, cfg);
    err2 := DeserializeMsgPack(moved, buffer, len, limit, Config(false, toFloat));
    DecodeInPlace(old(source[..len]), 0, limit, copy.capacity, moved.capacity, cfg);
  }

  /** serializeMsgPack into a fixed buffer. */
  method SerializeMsgPack(doc: JsonDocument, store: array<byte>, ghost v: Value, buf: array<byte>) returns (n: nat)
    requires Denotes(doc.slots, store[..], doc.root, v) && buf.Length >= 1 && buf != store
    modifies buf
    ensures n == TextWriter.Min(|Encode(v)|, buf.Length - 1)
    ensures buf[..n] == Encode(v)[..n] && buf[n] == 0
  {
    hide Encode, Denotes;
    var w := new TextWriter.StaticStringWriter(buf);
    var s := new MsgPackSerializer.Serializer(doc.slots, store[..], w);
    s.Accept(doc.root, v);
    assert [] + Encode(v) == Encode(v);
    return s.written;
  }

  /**
   The whole way round, in memory: encoded into a buffer that holds it and decoded from there, the document is the same,
   its strings now owned.
   */
  method EncodeAndDecode(doc: JsonDocument, store: array<byte>, ghost v: Value, buf: array<byte>,
                         into: JsonDocument, limit: nat, cfg: Config) returns (err: Code)
    requires Denotes(doc.slots, store[..], doc.root, v) && MsgPackRoundTrip.Encodable(Own(v))
    requires |Encode(v)| < buf.Length && buf != store && buf != into.mem
    requires into.mem.Length == into.capacity <= MAX_CAPACITY && into.capacity >= Cost(Own(v), cfg)
    modifies buf, into, into.mem
    ensures if Nesting(Own(v)) <= limit then
              && err == Ok && Denotes(into.slots, if cfg.copying then into.mem[..] else buf[..], into.root, Own(v))
              && into.Valid() && into.capacity - into.Room() == Cost(Own(v), cfg)
            else err == TooDeep
  {
    hide Decode, Denotes, Encode, MsgPackRoundTrip.Encodable, Nesting, Cost, Own;
    var n := SerializeMsgPack(doc, store, v, buf);
    assert buf[..n] == Encode(v);
    assert Encode(v) + [] == Encode(v);
    EncodeThenDecode(v, [], limit, into.capacity, cfg);
    err := DeserializeMsgPack(into, buf, n, limit, cfg);
  }
}
