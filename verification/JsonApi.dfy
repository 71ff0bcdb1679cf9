/** deserializeJson and serializeJson on whole documents, and the two string modes side by side. */
module JsonApi {
  import opened Values
  import opened JsonGrammar
  import opened JsonInPlace
  import opened JsonPrinter
  import opened Document
  import opened DocumentLaws
  import opened Footprint
  import opened TextInput
  import opened JsonTheorems
  import JsonRoundTrip
  import JsonDeserializer
  import JsonSerializer
  import TextWriter

  /** Result of a parse of `text` into the empty document `doc`, whose strings live in `store`. */
  ghost predicate Parsed?(doc: JsonDocument, store: bytes, text: bytes, limit: nat, cfg: Config, err: Code)
    reads doc
  {
    var p := Parse(text, 0, limit, doc.capacity, cfg);
    && doc.Valid() && err == p.err
    && Denotes(doc.slots, store, doc.root, p.value)
    && |doc.slots| == Slots(p.value)
    && 0 <= Lay(doc.slots, store, doc.root, p.value, 0, 0) <= (if cfg.copying then doc.left else |store|)
    && (err == Ok ==> doc.Room() == p.room)
  }

  /**
   deserializeJson: clears the document and parses. With an end (`bounded`) or a terminator at `len`;
   copying strings or, in place, moving them within the input.
   */
  method DeserializeJson(doc: JsonDocument, input: array<byte>, len: nat, bounded: bool, limit: nat, cfg: Config)
    returns (err: Code)
    requires doc.mem.Length == doc.capacity <= MAX_CAPACITY && input != doc.mem
    requires if bounded then len <= input.Length else len < input.Length && input[len] == 0
    modifies doc, doc.mem, input
    ensures Parsed?(doc, if cfg.copying then doc.mem[..] else input[..], old(input[..len]), limit, cfg, err)
    ensures cfg.copying ==> input[..] == old(input[..])
    ensures !cfg.copying ==> doc.mem[..] == old(doc.mem[..])
  {
    hide JsonGrammar.Parse, Denotes, Lay, Input.Intact;
    doc.left, doc.right, doc.slots, doc.root := 0, doc.capacity, [], Nothing;
    var io := new Input(doc, cfg, input, len, bounded);
    var d := new JsonDeserializer.Deserializer(io, limit);
    err := Run(d);
  }

  method Run(d: JsonDeserializer.Deserializer) returns (err: Code)
    requires d.Target(Root) && d.input.pos == 0 && d.input.doc.slots == [] && d.input.Mark() == 0
    requires d.input.doc.Room() == d.input.doc.capacity
    modifies d, d.input, d.input.doc, d.input.dst
    ensures d.input.store == d.input.dst[..]
            && Parsed?(d.input.doc, d.input.store, d.input.text, old(d.nestingLimit), d.input.cfg, err)
  {
    hide JsonGrammar.Parse, Denotes, Lay, Input.Intact;
    err := d.Parse(Root);
    LayDenotes(d.input.doc.slots, d.input.store, d.input.doc.root,
               Parse(d.input.text, 0, old(d.nestingLimit), d.input.doc.capacity, d.input.cfg).value, 0, 0);
    StoreIs(d.input);
    MarkBound(d.input);
  }

  /**
   Throughout: after any parse, successful or not, the two ends of the pool have not crossed, every slot
   allocated is used exactly once, and the strings lie one behind the other.
   */
  lemma NothingOverlaps(doc: JsonDocument, store: bytes, text: bytes, limit: nat, cfg: Config, err: Code)
    requires Parsed?(doc, store, text, limit, cfg, err)
    ensures doc.left <= doc.right <= doc.capacity
    ensures var v := Parse(text, 0, limit, doc.capacity, cfg).value;
            && SlotsOf(doc.slots, doc.root, v) == Range(0, |doc.slots|)
            && InOrder(TextsOf(doc.slots, doc.root, v), 0, if cfg.copying then doc.left else |store|)
  {
    hide JsonGrammar.Parse, Denotes, Lay;
    var v := Parse(text, 0, limit, doc.capacity, cfg).value;
    LaySlots(doc.slots, store, doc.root, v, 0, 0);
    LayTexts(doc.slots, store, doc.root, v, 0, 0);
  }

  /** pool.size(). */
  ghost function PoolSize(doc: JsonDocument): nat
    requires doc.Valid()
    reads doc
  {
    doc.capacity - doc.Room()
  }

  /**
   After a successful parse the pool holds exactly what memoryUsage() reports: all of it when strings
   are copied, just the slots when they stay in the input; and the document nests within the limit.
   */
  lemma PoolIsAccountedFor(doc: JsonDocument, store: bytes, text: bytes, limit: nat, cfg: Config)
    requires Parsed?(doc, store, text, limit, cfg, Ok)
    ensures var v := Parse(text, 0, limit, doc.capacity, cfg).value;
            PoolSize(doc) == (if cfg.copying then Usage(v) else SLOT * Slots(v)) && Nesting(v) <= limit
  {
    hide JsonGrammar.Parse, Denotes;
  }

  /**
   The in-place parser refines the copying one. Both get the same terminated text; unless the first
   reports NoMemory, the second, with a pool no smaller, gives the same code and the same document.
   */
  method ParseBothWays(copy: JsonDocument, moved: JsonDocument, source: array<byte>, buffer: array<byte>, len: nat,
                       limit: nat, toFloat: bytes -> UInt)
    returns (err1: Code, err2: Code, ghost v: Value)
    requires copy != moved && copy.mem != moved.mem && source != buffer
    requires source !in {copy.mem, moved.mem} && buffer !in {copy.mem, moved.mem}
    requires copy.mem.Length == copy.capacity <= moved.capacity == moved.mem.Length <= MAX_CAPACITY
    requires len < source.Length && len < buffer.Length && source[..len] == buffer[..len]
    requires source[len] == 0 && buffer[len] == 0
    modifies copy, copy.mem, moved, moved.mem, source, buffer
    ensures source[..] == old(source[..])
    ensures Denotes(copy.slots, copy.mem[..], copy.root, v)
    ensures err1 != NoMemory ==> err2 == err1 && Denotes(moved.slots, buffer[..], moved.root, v)
  {
    hide JsonGrammar.Parse, Denotes;
    var cfg := Config(true, toFloat);
    v := Parse(source[..len], 0, limit, copy.capacity, cfg).value;
    err1 := DeserializeJson(copy, source, len, false, limit, cfg);
    err2 := DeserializeJson(moved, buffer, len, false, limit, Config(false, toFloat));
    ParseInPlace(old(source[..len]), 0, limit, copy.capacity, moved.capacity, cfg);
  }

  /** serializeJson and serializeJsonPretty into a fixed buffer. */
  method SerializeJson(doc: JsonDocument, store: array<byte>, ghost v: Value, pr: Printer, buf: array<byte>)
    returns (n: nat)
    requires Denotes(doc.slots, store[..], doc.root, v) && buf.Length >= 1 && buf != store
    modifies buf
    ensures n == TextWriter.Min(|Show(pr, v, 0)|, buf.Length - 1)
    ensures buf[..n] == Show(pr, v, 0)[..n] && buf[n] == 0
  {
    hide Show, Denotes;
    var w := new TextWriter.StaticStringWriter(buf);
    var s := new JsonSerializer.Serializer(pr, doc.slots, store[..], w);
    s.Accept(doc.root, v, 0);
    assert [] + Show(pr, v, 0) == Show(pr, v, 0);
    return s.length;
  }

  /**
   The whole way round, in memory: a document printed into a buffer that holds it, compact or pretty, and parsed from
   there into another pool, with or without copying, denotes the same value, its strings now owned.
   */
  method PrintAndParse(doc: JsonDocument, store: array<byte>, ghost v: Value, pr: Printer, buf: array<byte>,
                       into: JsonDocument, limit: nat, cfg: Config) returns (err: Code)
    requires Denotes(doc.slots, store[..], doc.root, v) && JsonRoundTrip.Plain(Own(v))
    requires |Show(pr, v, 0)| < buf.Length && buf != store && buf != into.mem
    requires into.mem.Length == into.capacity <= MAX_CAPACITY && into.capacity >= Cost(Own(v), cfg)
    modifies buf, into, into.mem
    ensures if Nesting(Own(v)) <= limit then
              && err == Ok && Denotes(into.slots, if cfg.copying then into.mem[..] else buf[..], into.root, Own(v))
              && into.Valid() && PoolSize(into) == Cost(Own(v), cfg)
            else err == TooDeep
  {
    hide JsonGrammar.Parse, Denotes, Show, JsonRoundTrip.Plain, Own, Lay, Nesting, Cost;
    var n := SerializeJson(doc, store, v, pr, buf);
    assert buf[..n] == Show(pr, v, 0);
    assert Show(pr, v, 0) + [] == Show(pr, v, 0);
    WriteThenParse(v, [], limit, into.capacity, pr, cfg);
    err := DeserializeJson(into, buf, n, false, limit, cfg);
  }
}
