/**
 SLIP framing on the serial line (RFC 1055): ESPLoader.write and slip_reader. The reader gets the bytes in whatever
 chunks the port delivers.
 */
module Slip {
  import opened Values
  import opened Sequences

  const END: byte := 0xc0
  const ESC: byte := 0xdb
  const ESC_END: byte := 0xdc
  const ESC_ESC: byte := 0xdd

  // ----- writing

  /** bytes.replace for a pattern of one byte. */
  function Replace(s: bytes, old': byte, new': bytes): bytes {
    if s == [] then [] else (if s[0] == old' then new' else [s[0]]) + Replace(s[1..], old', new')
  }

  /** write: escape the escape, then the frame end, and put frame ends around. */
  function Frame(packet: bytes): bytes {
    [END] + Replace(Replace(packet, ESC, [ESC, ESC_ESC]), END, [ESC, ESC_END]) + [END]
  }

  /** The escape of one byte, as RFC 1055 gives it. */
  function Escaped(b: byte): bytes {
    if b == END then [ESC, ESC_END] else if b == ESC then [ESC, ESC_ESC] else [b]
  }

  function Escape(packet: bytes): bytes {
    if packet == [] then [] else Escaped(packet[0]) + Escape(packet[1..])
  }

  lemma {:induction false} ReplaceConcat(a: bytes, b: bytes, old': byte, new': bytes)
    ensures Replace(a + b, old', new') == Replace(a, old', new') + Replace(b, old', new')
  {
    if a == [] {
      assert a + b == b;
    } else {
      ReplaceConcat(a[1..], b, old', new');
      assert (a + b)[0] == a[0] && (a + b)[1..] == a[1..] + b;
      Assoc(if a[0] == old' then new' else [a[0]], Replace(a[1..], old', new'), Replace(b, old', new'));
    }
  }

  lemma ReplaceOne(b: byte, old': byte, new': bytes)
    ensures Replace([b], old', new') == if b == old' then new' else [b]
  {
    assert Replace([], old', new') == [];
    assert [b][1..] == [];
  }

  /** The second replacement does not touch what the first one put in: together they escape byte by byte. */
  lemma {:induction false} TwoReplacesEscape(s: bytes)
    ensures Replace(Replace(s, ESC, [ESC, ESC_ESC]), END, [ESC, ESC_END]) == Escape(s)
  {
    if s != [] {
      TwoReplacesEscape(s[1..]);
      var head, tail := if s[0] == ESC then [ESC, ESC_ESC] else [s[0]], Replace(s[1..], ESC, [ESC, ESC_ESC]);
      assert Replace(s, ESC, [ESC, ESC_ESC]) == head + tail;
      ReplaceConcat(head, tail, END, [ESC, ESC_END]);
      if s[0] == ESC {
        assert head == [ESC] + [ESC_ESC];
        ReplaceConcat([ESC], [ESC_ESC], END, [ESC, ESC_END]);
        ReplaceOne(ESC, END, [ESC, ESC_END]);
        ReplaceOne(ESC_ESC, END, [ESC, ESC_END]);
      } else {
        ReplaceOne(s[0], END, [ESC, ESC_END]);
      }
    }
  }

  function Frames(packets: seq<bytes>): bytes {
    if packets == [] then [] else Frames(packets[..|packets| - 1]) + Frame(packets[|packets| - 1])
  }

  // ----- reading

  datatype Error = InvalidHead(b: byte) | InvalidEscape(b: byte) | TimedOut(header: bool)

  datatype Partial = NoPacket | Partial(data: bytes)

  /** Where the reader stands: the packets it has yielded, the one it is in, or the error that ended it. */
  datatype State = State(yielded: seq<bytes>, partial: Partial, escape: bool) | Dead(yielded: seq<bytes>, error: Error)

  const INITIAL: State := State([], NoPacket, false)

  function Next(s: State, b: byte): State {
    if s.Dead? then s
    else if s.partial.NoPacket? then
      if b == END then s.(partial := Partial([])) else Dead(s.yielded, InvalidHead(b))
    else if s.escape then
      if b == ESC_END then s.(partial := Partial(s.partial.data + [END]), escape := false)
      else if b == ESC_ESC then s.(partial := Partial(s.partial.data + [ESC]), escape := false)
      else Dead(s.yielded, InvalidEscape(b))
    else if b == ESC then s.(escape := true)
    else if b == END then State(s.yielded + [s.partial.data], NoPacket, s.escape)
    else s.(partial := Partial(s.partial.data + [b]))
  }

  function Reads(s: State, input: bytes): State {
    if input == [] then s else Next(Reads(s, input[..|input| - 1]), input[|input| - 1])
  }

  lemma {:induction false} ReadsConcat(s: State, a: bytes, b: bytes)
    ensures Reads(s, a + b) == Reads(Reads(s, a), b)
  {
    if b == [] {
      assert a + b == a;
    } else {
      var init, last := b[..|b| - 1], b[|b| - 1];
      ReadsConcat(s, a, init);
      assert (a + b)[..|a + b| - 1] == a + init && (a + b)[|a + b| - 1] == last;
    }
  }

  /** slip_reader, one chunk at a time. */
  class Reader {
    var yielded: seq<bytes>
    var partial: Partial
    var inEscape: bool
    /** The exception that ended the reader. */
    var error: seq<Error>

    predicate Valid()
      reads this
    {
      |error| <= 1 && (partial.NoPacket? ==> !inEscape)
    }

    ghost function Now(): State
      reads this
    {
      if error != [] then Dead(yielded, error[0]) else State(yielded, partial, inEscape)
    }

    constructor ()
      ensures Valid() && Now() == INITIAL
    {
      yielded, partial, inEscape, error := [], NoPacket, false, [];
    }

    /** What read() returned: nothing means a timeout. */
    method Feed(chunk: bytes)
      requires Valid() && error == []
      modifies this
      ensures Valid()
      ensures Now() == if chunk == [] then Dead(old(yielded), TimedOut(old(partial).NoPacket?))
              else Reads(old(Now()), chunk)
    {
      if chunk == [] {
        error := [TimedOut(partial.NoPacket?)];
        return;
      }
      var i := 0;
      while i < |chunk| && error == []
        invariant 0 <= i <= |chunk| && Valid()
        invariant Now() == Reads(old(Now()), chunk[..i])
      {
        assert chunk[..i + 1][..i] == chunk[..i];
        var b := chunk[i];
        if partial == NoPacket {
          if b == END {
            partial := Partial([]);
          } else {
            error := [InvalidHead(b)];
          }
        } else if inEscape {
          inEscape := false;
          if b == ESC_END {
            partial := Partial(partial.data + [END]);
          } else if b == ESC_ESC {
            partial := Partial(partial.data + [ESC]);
          } else {
            error := [InvalidEscape(b)];
          }
        } else if b == ESC {
          inEscape := true;
        } else if b == END {
          yielded := yielded + [partial.data];
          partial := NoPacket;
        } else {
          partial := Partial(partial.data + [b]);
        }
        i := i + 1;
      }
      if error != [] {
        DeadStays(old(Now()), chunk, i);
      }
      assert chunk[..|chunk|] == chunk;
    }
  }

  lemma {:induction false} DeadReads(s: State, input: bytes)
    requires s.Dead?
    ensures Reads(s, input) == s
  {
    if input != [] {
      DeadReads(s, input[..|input| - 1]);
    }
  }

  lemma DeadStays(s: State, input: bytes, i: nat)
    requires i <= |input| && Reads(s, input[..i]).Dead?
    ensures Reads(s, input) == Reads(s, input[..i])
  {
    assert input == input[..i] + input[i..];
    ReadsConcat(s, input[..i], input[i..]);
    DeadReads(Reads(s, input[..i]), input[i..]);
  }

  // ----- the frames are read back, and nothing else is

  lemma {:induction false} EscapeAppend(d: bytes, b: byte)
    ensures Escape(d + [b]) == Escape(d) + Escaped(b)
  {
    if d == [] {
      assert d + [b] == [b] && [b][1..] == [];
      assert Escape([b]) == Escaped(b) + Escape([]);
    } else {
      EscapeAppend(d[1..], b);
      assert (d + [b])[0] == d[0] && (d + [b])[1..] == d[1..] + [b];
    }
  }

  /** The bytes of the packet being read. */
  function Unfinished(p: Partial, escape: bool): bytes {
    if p.NoPacket? then [] else [END] + Escape(p.data) + (if escape then [ESC] else [])
  }

  lemma FrameIs(packet: bytes)
    ensures Frame(packet) == [END] + Escape(packet) + [END]
  {
    TwoReplacesEscape(packet);
  }

  /** One byte more keeps the account of what has been read. */
  lemma NextConsumes(s: State, b: byte)
    requires s.State? && (s.partial.NoPacket? ==> !s.escape) && Next(s, b).State?
    ensures var t := Next(s, b);
            && (t.partial.NoPacket? ==> !t.escape)
            && Frames(t.yielded) + Unfinished(t.partial, t.escape) ==
               Frames(s.yielded) + Unfinished(s.partial, s.escape) + [b]
  {
    hide Escape, Frames, Frame;
    var t, before := Next(s, b), Frames(s.yielded);
    if s.partial.NoPacket? {
      EscapeNone();
      assert Unfinished(t.partial, t.escape) == [END];
      return;
    }
    var d := s.partial.data;
    EscapeAppend(d, END);
    EscapeAppend(d, ESC);
    EscapeAppend(d, b);
    if s.escape || b == ESC {
      assert Unfinished(t.partial, t.escape) == Unfinished(s.partial, s.escape) + [b];
      Assoc(before, Unfinished(s.partial, s.escape), [b]);
      return;
    }
    if b == END {
      FrameIs(d);
      FramesMore(s.yielded, d);
      assert Frame(d) == Unfinished(s.partial, s.escape) + [b];
    } else {
      assert Unfinished(t.partial, t.escape) == Unfinished(s.partial, s.escape) + [b];
    }
    Assoc(before, Unfinished(s.partial, s.escape), [b]);
  }

  lemma EscapeNone()
    ensures Escape([]) == []
  {
  }

  lemma FramesMore(ps: seq<bytes>, p: bytes)
    ensures Frames(ps + [p]) == Frames(ps) + Frame(p)
  {
    assert (ps + [p])[..|ps|] == ps;
  }

  /** As long as there is no error, the input read is the frames of the packets yielded and the start of one more. */
  lemma {:induction false} Consumed(input: bytes)
    ensures var s := Reads(INITIAL, input);
            s.State? ==>
              && (s.partial.NoPacket? ==> !s.escape)
              && input == Frames(s.yielded) + Unfinished(s.partial, s.escape)
  {
    hide Frames, Unfinished, Next;
    if input == [] {
      NothingConsumed();
      return;
    }
    var init, last := input[..|input| - 1], input[|input| - 1];
    Consumed(init);
    var s := Reads(INITIAL, init);
    if s.State? && Next(s, last).State? {
      NextConsumes(s, last);
      assert input == init + [last];
    } else {
      DeadNext(s, last);
    }
  }

  lemma NothingConsumed()
    ensures Frames([]) + Unfinished(NoPacket, false) == []
  {
  }

  lemma DeadNext(s: State, b: byte)
    ensures s.Dead? ==> Next(s, b) == s
  {
  }

  lemma {:induction false} ReadsEscape(y: seq<bytes>, d: bytes, e: bytes)
    ensures Reads(State(y, Partial(d), false), Escape(e)) == State(y, Partial(d + e), false)
    decreases |e|
  {
    hide Next, Escaped;
    if e == [] {
      assert d + e == d;
      return;
    }
    var s := State(y, Partial(d), false);
    ReadsConcat(s, Escaped(e[0]), Escape(e[1..]));
    ReadsEscaped(s, e[0]);
    ReadsEscape(y, d + [e[0]], e[1..]);
    assert d + [e[0]] + e[1..] == d + e;
  }

  lemma ReadsOne(s: State, b: byte)
    ensures Reads(s, [b]) == Next(s, b)
  {
    assert [b][..0] == [];
    assert Reads(s, []) == s;
  }

  lemma ReadsEscaped(s: State, b: byte)
    requires s.State? && s.partial.Partial? && !s.escape
    ensures Reads(s, Escaped(b)) == s.(partial := Partial(s.partial.data + [b]))
  {
    var x := Escaped(b);
    ReadsOne(s, x[0]);
    if |x| == 2 {
      assert x == [x[0]] + [x[1]];
      ReadsConcat(s, [x[0]], [x[1]]);
      ReadsOne(Next(s, x[0]), x[1]);
    } else {
      assert x == [x[0]];
    }
  }

  lemma ReadsFrame(y: seq<bytes>, packet: bytes)
    ensures Reads(State(y, NoPacket, false), Frame(packet)) == State(y + [packet], NoPacket, false)
  {
    hide Reads, Escape, Frame;
    var s := State(y, NoPacket, false);
    FrameIs(packet);
    ReadsConcat(s, [END] + Escape(packet), [END]);
    ReadsConcat(s, [END], Escape(packet));
    ReadsOne(s, END);
    ReadsEscape(y, [], packet);
    assert [] + packet == packet;
    ReadsOne(State(y, Partial(packet), false), END);
  }

  lemma {:induction false} ReadsFrames(packets: seq<bytes>)
    ensures Reads(INITIAL, Frames(packets)) == State(packets, NoPacket, false)
  {
    hide Frame, Next;
    if packets != [] {
      var init, last := packets[..|packets| - 1], packets[|packets| - 1];
      ReadsFrames(init);
      ReadsConcat(INITIAL, Frames(init), Frame(last));
      ReadsFrame(init, last);
      assert packets == init + [last];
    }
  }

  /** The reader yields exactly these packets, with nothing left over, if and only if the input is their frames. */
  lemma ReadsExactly(input: bytes, packets: seq<bytes>)
    ensures Reads(INITIAL, input) == State(packets, NoPacket, false) <==> input == Frames(packets)
  {
    hide Reads, Frames;
    ReadsFrames(packets);
    Consumed(input);
    assert Frames(packets) + [] == Frames(packets);
  }

  // ----- the bytes of a frame

  /** `b` is spelled in the bytes of `wire` from `from` to `to`. */
  predicate Spelled(wire: bytes, from: nat, to: nat, b: byte) {
    && from < to < |wire|
    && if b == 0xC0 then to == from + 2 && wire[from] == 0xDB && wire[from + 1] == 0xDC
       else if b == 0xDB then to == from + 2 && wire[from] == 0xDB && wire[from + 1] == 0xDD
       else to == from + 1 && wire[from] == b
  }

  /** Between two frame ends each byte of the packet is spelled where the one before it ends. */
  predicate FrameShown(wire: bytes, packet: bytes, cuts: seq<nat>) {
    && |cuts| == |packet| + 1 && cuts[0] == 1 && |wire| == cuts[|packet|] + 1 && wire[0] == wire[|wire| - 1] == 0xC0
    && forall i :: 0 <= i < |packet| ==> Spelled(wire, cuts[i], cuts[i + 1], packet[i])
  }

  lemma SpelledStill(wire: bytes, more: bytes, from: nat, to: nat, b: byte)
    requires Spelled(wire, from, to, b) && |wire| <= |more| && wire[..|wire| - 1] == more[..|wire| - 1]
    ensures Spelled(more, from, to, b)
  {
    forall k | from <= k < to ensures more[k] == wire[k] {
      assert wire[..|wire| - 1][k] == more[..|wire| - 1][k];
    }
  }

  lemma EscapedIsSpelled(wire: bytes, front: bytes, b: byte)
    requires wire == front + Escaped(b) + [END]
    ensures Spelled(wire, |front|, |front| + |Escaped(b)|, b)
  {
  }

  lemma OneMoreEscaped(init: bytes, b: byte)
    ensures var front := [END] + Escape(init);
            && [END] + Escape(init + [b]) + [END] == front + Escaped(b) + [END]
            && (front + [END])[..|front|] == (front + Escaped(b) + [END])[..|front|]
  {
    hide Escape, Escaped;
    EscapeAppend(init, b);
    var front := [END] + Escape(init);
    Assoc([END], Escape(init), Escaped(b));
    SameFront(front, [END], Escaped(b) + [END]);
    Assoc(front, Escaped(b), [END]);
  }

  lemma SameFront(front: bytes, a: bytes, b: bytes)
    ensures (front + a)[..|front|] == (front + b)[..|front|]
  {
  }

  /** Every packet is framed as shown. */
  lemma {:induction false} FrameShows(packet: bytes) returns (cuts: seq<nat>)
    ensures FrameShown(Frame(packet), packet, cuts)
  {
    FrameIs(packet);
    hide Frame, Spelled;
    if packet == [] {
      cuts := [1];
      EscapeNone();
      return;
    }
    hide Escape, Escaped;
    var n := |packet| - 1;
    var init, b := packet[..n], packet[n];
    var front, wire := [END] + Escape(init), Frame(packet);
    FrameIs(init);
    var before := FrameShows(init);
    assert packet == init + [b];
    OneMoreEscaped(init, b);
    EscapedIsSpelled(wire, front, b);
    cuts := OneMoreCut(Frame(init), wire, init, b, before, |Escaped(b)|);
  }

  lemma {:induction false} OneMoreCut(shorter: bytes, wire: bytes, init: bytes, b: byte, before: seq<nat>, k: nat)
    returns (cuts: seq<nat>)
    requires FrameShown(shorter, init, before) && |wire| == |shorter| + k && wire[|wire| - 1] == 0xC0 && |shorter| >= 2
    requires wire[..|shorter| - 1] == shorter[..|shorter| - 1]
    requires Spelled(wire, |shorter| - 1, |shorter| - 1 + k, b)
    ensures FrameShown(wire, init + [b], cuts)
  {
    hide Spelled;
    var n, packet := |init|, init + [b];
    cuts := before + [|shorter| - 1 + k];
    assert wire[0] == wire[..|shorter| - 1][0];
    forall i | 0 <= i < |packet| ensures Spelled(wire, cuts[i], cuts[i + 1], packet[i]) {
      if i < n {
        SpelledStill(shorter, wire, before[i], before[i + 1], init[i]);
      }
    }
  }

  // ----- every outcome

  /** The reader is inside a packet exactly when the input is frames and the start of one more. */
  lemma UnfinishedExactly(input: bytes, packets: seq<bytes>, data: bytes, escape: bool)
    ensures Reads(INITIAL, input) == State(packets, Partial(data), escape) <==>
            input == Frames(packets) + ([0xC0] + Escape(data) + if escape then [0xDB] else [])
  {
    hide Reads, Frames, Escape;
    Consumed(input);
    var start := [END] + Escape(data);
    var s := State(packets, Partial(data), false);
    ReadsFrames(packets);
    ReadsConcat(INITIAL, Frames(packets), start);
    ReadsStart(packets, data);
    ReadsConcat(INITIAL, Frames(packets) + start, [ESC]);
    ReadsOne(s, ESC);
    Assoc(Frames(packets), start, [ESC]);
    assert start + [] == start;
  }

  lemma ReadsStart(y: seq<bytes>, data: bytes)
    ensures Reads(State(y, NoPacket, false), [END] + Escape(data)) == State(y, Partial(data), false)
  {
    hide Reads, Escape;
    ReadsConcat(State(y, NoPacket, false), [END], Escape(data));
    ReadsOne(State(y, NoPacket, false), END);
    ReadsEscape(y, [], data);
    assert [] + data == data;
  }

  /** The byte at which the reader dies. */
  lemma {:induction false} DiesAt(input: bytes) returns (i: nat)
    requires Reads(INITIAL, input).Dead?
    ensures i < |input| && Reads(INITIAL, input[..i]).State?
    ensures Reads(INITIAL, input) == Next(Reads(INITIAL, input[..i]), input[i])
  {
    hide Next;
    var init, last := input[..|input| - 1], input[|input| - 1];
    if Reads(INITIAL, init).State? {
      i := |init|;
    } else {
      i := DiesAt(init);
      DeadNext(Reads(INITIAL, init), last);
      assert init[..i] == input[..i];
    }
  }

  /** What follows a dead reader is never looked at. */
  lemma DeadForGood(input: bytes, front: bytes, b: byte)
    requires front + [b] <= input && Next(Reads(INITIAL, front), b).Dead?
    ensures Reads(INITIAL, input) == Next(Reads(INITIAL, front), b)
  {
    hide Reads, Next;
    ReadsConcat(INITIAL, front, [b]);
    ReadsOne(Reads(INITIAL, front), b);
    assert input[..|front| + 1] == front + [b];
    DeadStays(INITIAL, input, |front| + 1);
  }

  lemma {:induction false} NeverTimesOut(input: bytes)
    ensures var s := Reads(INITIAL, input); s.Dead? ==> !s.error.TimedOut?
  {
    if Reads(INITIAL, input).Dead? {
      hide Reads;
      var i := DiesAt(input);
    }
  }

  /** A bad head is a byte other than 0xC0 behind the frames. */
  lemma {:induction false} BadHeadExactly(input: bytes, packets: seq<bytes>, b: byte)
    ensures Reads(INITIAL, input) == Dead(packets, InvalidHead(b)) <==> b != 0xC0 && Frames(packets) + [b] <= input
  {
    hide Reads, Frames, Escape;
    if Reads(INITIAL, input) == Dead(packets, InvalidHead(b)) {
      var i := DiesAt(input);
      Consumed(input[..i]);
      assert input[..i] + [input[i]] <= input;
      assert Frames(packets) + [] == Frames(packets);
    }
    if b != 0xC0 && Frames(packets) + [b] <= input {
      ReadsFrames(packets);
      DeadForGood(input, Frames(packets), b);
    }
  }

  /** The start of a frame of a packet, up to an escape. */
  function UpToEscape(packets: seq<bytes>, data: bytes): bytes {
    Frames(packets) + ([0xC0] + Escape(data) + [0xDB])
  }

  /** A bad escape is 0xDB inside a frame with something other than 0xDC and 0xDD behind it. */
  lemma {:induction false} BadEscapeExactly(input: bytes, packets: seq<bytes>, b: byte)
    ensures Reads(INITIAL, input) == Dead(packets, InvalidEscape(b)) <==>
            b != 0xDC && b != 0xDD && exists data :: UpToEscape(packets, data) + [b] <= input
  {
    hide Reads, Frames, Escape;
    if Reads(INITIAL, input) == Dead(packets, InvalidEscape(b)) {
      var i := DiesAt(input);
      var s := Reads(INITIAL, input[..i]);
      UnfinishedExactly(input[..i], packets, s.partial.data, true);
      assert UpToEscape(packets, s.partial.data) == input[..i];
      assert input[..i] + [input[i]] <= input;
    }
    if b != 0xDC && b != 0xDD {
      if data :| UpToEscape(packets, data) + [b] <= input {
        UnfinishedExactly(UpToEscape(packets, data), packets, data, true);
        DeadForGood(input, UpToEscape(packets, data), b);
      }
    }
  }

  // ----- any chunks

  function Joined(chunks: seq<bytes>): bytes {
    if chunks == [] then [] else Joined(chunks[..|chunks| - 1]) + chunks[|chunks| - 1]
  }

  /** All packets and the outcome of reading what the port delivers. */
  method Receive(chunks: seq<bytes>) returns (packets: seq<bytes>, partial: Partial, error: seq<Error>)
    requires forall i :: 0 <= i < |chunks| ==> chunks[i] != []
    ensures forall ps: seq<bytes> :: packets == ps && partial == NoPacket && error == [] <==>
            Joined(chunks) == Frames(ps)
    ensures forall b: byte :: error == [InvalidHead(b)] <==> b != 0xC0 && Frames(packets) + [b] <= Joined(chunks)
    ensures forall b: byte :: error == [InvalidEscape(b)] <==>
            b != 0xDC && b != 0xDD && exists data :: UpToEscape(packets, data) + [b] <= Joined(chunks)
    ensures forall b: bool :: error != [TimedOut(b)]
  {
    hide Reads, Frames, Next;
    var reader := new Reader();
    ReadsNone();
    var i := 0;
    while i < |chunks| && reader.error == []
      invariant 0 <= i <= |chunks| && reader.Valid() && reader.Now() == Reads(INITIAL, Joined(chunks[..i]))
      decreases |chunks| - i
    {
      reader.Feed(chunks[i]);
      assert chunks[..i + 1][..i] == chunks[..i];
      ReadsConcat(INITIAL, Joined(chunks[..i]), chunks[i]);
      i := i + 1;
    }
    packets, partial, error := reader.yielded, reader.partial, reader.error;
    if i < |chunks| {
      JoinedSplit(chunks, i);
      ReadsConcat(INITIAL, Joined(chunks[..i]), Joined(chunks[i..]));
      DeadReads(reader.Now(), Joined(chunks[i..]));
    } else {
      assert chunks[..i] == chunks;
    }
    forall ps: seq<bytes>
      ensures packets == ps && partial == NoPacket && error == [] <==> Joined(chunks) == Frames(ps)
    {
      ReadsExactly(Joined(chunks), ps);
    }
    NeverTimesOut(Joined(chunks));
    forall b: byte
      ensures error == [InvalidHead(b)] <==> b != 0xC0 && Frames(packets) + [b] <= Joined(chunks)
      ensures error == [InvalidEscape(b)] <==>
              b != 0xDC && b != 0xDD && exists data :: UpToEscape(packets, data) + [b] <= Joined(chunks)
    {
      BadHeadExactly(Joined(chunks), packets, b);
      BadEscapeExactly(Joined(chunks), packets, b);
    }
  }

  lemma ReadsNone()
    ensures Reads(INITIAL, Joined([])) == INITIAL
  {
  }

  lemma {:induction false} JoinedSplit(chunks: seq<bytes>, i: nat)
    requires i <= |chunks|
    ensures Joined(chunks) == Joined(chunks[..i]) + Joined(chunks[i..])
  {
    if i == |chunks| {
      assert chunks[..i] == chunks && chunks[i..] == [];
    } else {
      var init := chunks[..|chunks| - 1];
      JoinedSplit(init, i);
      assert init[..i] == chunks[..i] && chunks[i..][..|chunks[i..]| - 1] == init[i..];
    }
  }
}
