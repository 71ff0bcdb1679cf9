/**
 The I2C command stream a queue of transactions asks for, independent of how it is cut into windows of the
 16-slot hardware command list.
 */
module I2cPlan {
  datatype Op = RStart | Write | Read | Stop | End

  /** One hardware command; byte counts are 8 bits wide. */
  datatype Cmd = Cmd(op: Op, bytes: nat, ackVal: bool, ackCheck: bool)

  const START: Cmd := Cmd(RStart, 0, false, false)
  const STOP: Cmd := Cmd(Stop, 0, false, false)
  const END: Cmd := Cmd(End, 0, false, false)
  /** The last byte of a read is answered with NAK. */
  const LAST_READ: Cmd := Cmd(Read, 1, true, false)

  /** A queue entry: the transaction and how far its commands have been issued. */
  datatype Entry = Entry(
    read: bool, stop: bool, addrBytes: nat, length: nat,
    needed: nat, startSent: bool, addrSent: bool, dataSent: bool, stopSent: bool)

  function Mode(e: Entry): nat {
    if e.read then 1 else 0
  }

  /** The next data block: at most 255 bytes, and a read keeps its last byte back. */
  function Block(e: Entry): nat
    requires e.needed > Mode(e)
  {
    if e.needed > 255 then 255 else e.needed - Mode(e)
  }

  function BlockCmd(read: bool, n: nat): Cmd {
    if read then Cmd(Read, n, false, false) else Cmd(Write, n, false, true)
  }

  /** Data commands still owed. */
  function Data(read: bool, needed: nat): seq<Cmd>
    decreases needed
  {
    var mode := if read then 1 else 0;
    if needed > mode then
      var n := if needed > 255 then 255 else needed - mode;
      [BlockCmd(read, n)] + Data(read, needed - n)
    else if needed == 1 then [LAST_READ]
    else []
  }

  /** Everything an entry still owes. */
  function Rest(e: Entry): seq<Cmd> {
    if e.stopSent then []
    else
      (if e.startSent then [] else [START])
      + (if e.addrSent then [] else [Cmd(Write, e.addrBytes, false, true)])
      + Data(e.read, e.needed)
      + (if e.stop then [STOP] else [])
  }

  function Pending(q: seq<Entry>): seq<Cmd> {
    if q == [] then [] else Rest(q[0]) + Pending(q[1..])
  }

  /** Flags are set in order, and nothing is needed before the address or beyond the data. */
  predicate Sane(e: Entry) {
    && 1 <= e.addrBytes <= 2
    && (e.addrSent ==> e.startSent)
    && (!e.addrSent ==> e.needed == e.length)
    && (e.stopSent ==> e.needed == 0 && e.addrSent)
  }

  predicate Fresh(e: Entry) {
    !e.startSent && !e.addrSent && !e.stopSent && e.needed == e.length
  }

  /** The same transaction, further along. */
  predicate SameJob(e: Entry, f: Entry) {
    e.read == f.read && e.stop == f.stop && e.addrBytes == f.addrBytes && e.length == f.length
  }

  // ----- what a plan consists of

  /** The commands of a whole transaction. */
  function Plan(e: Entry): seq<Cmd> {
    [START, Cmd(Write, e.addrBytes, false, true)] + Data(e.read, e.length) + (if e.stop then [STOP] else [])
  }

  function DataBytes(s: seq<Cmd>): nat {
    if s == [] then 0 else s[0].bytes + DataBytes(s[1..])
  }

  /**
   The only way to cut `length` bytes into data commands: blocks of 255 and one last block of 1 to 255, for a read one
   last block of 1 to 255 and then a single byte, the only one that is not acknowledged. Writes check the acknowledge.
   */
  predicate Blocks(s: seq<Cmd>, read: bool, length: nat) {
    && DataBytes(s) == length
    && (forall i :: 0 <= i < |s| ==> 1 <= s[i].bytes <= 255 && s[i].op == (if read then Read else Write))
    && (forall i :: 0 <= i < |s| ==> s[i].ackVal == (read && i == |s| - 1) && s[i].ackCheck == !read)
    && (forall i :: 0 <= i < |s| - (if read then 2 else 1) ==> s[i].bytes == 255)
    && (read && s != [] ==> s[|s| - 1].bytes == 1)
  }

  lemma {:induction false} DataIsExact(read: bool, needed: nat)
    ensures Blocks(Data(read, needed), read, needed)
    decreases needed
  {
    var mode := if read then 1 else 0;
    if needed > mode {
      var n := if needed > 255 then 255 else needed - mode;
      DataIsExact(read, needed - n);
      var s := Data(read, needed);
      var rest := Data(read, needed - n);
      assert s[1..] == rest;
      DataLength(read, needed - n);
      if needed <= 255 { assert needed - n == mode; }
    } else if needed == 1 {
      assert DataBytes([LAST_READ][1..]) == 0;
    }
  }

  /** How many data commands are left, as far as cutting needs it. */
  lemma {:induction false} DataLength(read: bool, needed: nat)
    ensures var n := |Data(read, needed)|;
            (needed == 0 <==> n == 0) && (read && needed == 1 ==> n == 1) && (needed > 1 && read ==> n >= 2)
    decreases needed
  {
    var mode := if read then 1 else 0;
    if needed > mode {
      DataLength(read, needed - if needed > 255 then 255 else needed - mode);
    }
  }

  lemma {:induction false} AtLeastOneEach(s: seq<Cmd>)
    requires forall i :: 0 <= i < |s| ==> s[i].bytes >= 1
    ensures DataBytes(s) >= |s|
  {
    if s != [] { AtLeastOneEach(s[1..]); }
  }

  lemma BlocksBehind(s: seq<Cmd>, read: bool, length: nat)
    requires Blocks(s, read, length) && s != []
    ensures length >= s[0].bytes && Blocks(s[1..], read, length - s[0].bytes)
  {
  }

  /** There is no other way. */
  lemma {:induction false} BlocksAreData(s: seq<Cmd>, read: bool, length: nat)
    requires Blocks(s, read, length)
    ensures s == Data(read, length)
    decreases |s|
  {
    if s == [] { return; }
    BlocksBehind(s, read, length);
    BlocksAreData(s[1..], read, length - s[0].bytes);
    AtLeastOneEach(s[1..]);
    assert s[0] == Cmd(s[0].op, s[0].bytes, s[0].ackVal, s[0].ackCheck);
    assert s == [s[0]] + s[1..];
  }

  /** START, the address, the data and, if the transaction ends the bus cycle, STOP. */
  lemma {:induction false} PlanIsExact(e: Entry)
    ensures var s := Plan(e);
            var n := |s| - if e.stop then 1 else 0;
            && n >= 2 && s[0] == Cmd(RStart, 0, false, false) && s[1] == Cmd(Write, e.addrBytes, false, true)
            && Blocks(s[2..n], e.read, e.length) && (e.stop ==> s[n] == Cmd(Stop, 0, false, false))
  {
    DataIsExact(e.read, e.length);
    hide Data, Blocks;
    var s := Plan(e);
    var n := |s| - if e.stop then 1 else 0;
    assert s[2..n] == Data(e.read, e.length);
  }

  /** END is only a continuation mark, and a read or write of no bytes only fills a slot. */
  predicate Filler(c: Cmd) {
    c.op == End || ((c.op == Read || c.op == Write) && c.bytes == 0)
  }

  function Erase(s: seq<Cmd>): seq<Cmd> {
    if s == [] then [] else (if Filler(s[0]) then [] else [s[0]]) + Erase(s[1..])
  }

  lemma {:induction false} EraseConcat(a: seq<Cmd>, b: seq<Cmd>)
    ensures Erase(a + b) == Erase(a) + Erase(b)
  {
    if a == [] {
      assert a + b == b;
    } else {
      EraseConcat(a[1..], b);
      assert (a + b)[1..] == a[1..] + b && (a + b)[0] == a[0];
    }
  }

  predicate Clean(s: seq<Cmd>) {
    forall i :: 0 <= i < |s| ==> !Filler(s[i])
  }

  lemma {:induction false} EraseClean(s: seq<Cmd>)
    requires Clean(s)
    ensures Erase(s) == s
  {
    if s != [] {
      EraseClean(s[1..]);
    }
  }

  lemma FreshRest(e: Entry)
    requires Fresh(e)
    ensures Rest(e) == Plan(e)
  {
    assert [START] + [Cmd(Write, e.addrBytes, false, true)] == [START, Cmd(Write, e.addrBytes, false, true)];
  }

  // ----- one command at a time

  /** From window `w` and entry `e`, the next commands owed went out in order. */
  ghost predicate Emits(w: seq<Cmd>, e: Entry, w': seq<Cmd>, e': Entry) {
    && SameJob(e, e') && Sane(e')
    && w' + Rest(e') == w + Rest(e) && |w| <= |w'|
    && w' [..|w|] == w
  }

  lemma EmitsTrans(w: seq<Cmd>, e: Entry, w1: seq<Cmd>, e1: Entry, w2: seq<Cmd>, e2: Entry)
    requires Emits(w, e, w1, e1) && Emits(w1, e1, w2, e2)
    ensures Emits(w, e, w2, e2)
  {
    hide Rest, Sane;
    assert w2[..|w|] == w2[..|w1|][..|w|];
  }

  /** A first command and the rest of what an entry owes. */
  lemma EmitsOne(w: seq<Cmd>, e: Entry, c: Cmd, e': Entry)
    requires SameJob(e, e') && Sane(e') && Rest(e) == [c] + Rest(e')
    ensures Emits(w, e, w + [c], e')
  {
    hide Rest, Sane;
    Appended(w, c, Rest(e'));
  }

  lemma Appended(w: seq<Cmd>, c: Cmd, r: seq<Cmd>)
    ensures w + [c] + r == w + ([c] + r) && (w + [c])[..|w|] == w
  {
  }

  lemma StartOwed(e: Entry)
    requires Sane(e) && !e.startSent && !e.stopSent
    ensures Sane(e.(startSent := true)) && Rest(e) == [START] + Rest(e.(startSent := true))
  {
    hide Data;
    var addr := if e.addrSent then [] else [Cmd(Write, e.addrBytes, false, true)];
    Assoc([START], addr, Data(e.read, e.needed), if e.stop then [STOP] else []);
    assert [] + addr == addr;
  }

  lemma Assoc(a: seq<Cmd>, b: seq<Cmd>, c: seq<Cmd>, d: seq<Cmd>)
    ensures a + b + c + d == a + (b + c + d)
  {
  }

  lemma AddressOwed(e: Entry)
    requires Sane(e) && e.startSent && !e.addrSent && !e.stopSent
    ensures Sane(e.(addrSent := true))
    ensures Rest(e) == [Cmd(Write, e.addrBytes, false, true)] + Rest(e.(addrSent := true))
  {
    hide Data;
    var a := [Cmd(Write, e.addrBytes, false, true)];
    var d := if e.stop then [STOP] else [];
    assert Rest(e) == a + Data(e.read, e.needed) + d;
    assert Rest(e.(addrSent := true)) == Data(e.read, e.needed) + d;
    Assoc(a, [], Data(e.read, e.needed), d);
  }

  lemma AddressedRest(e: Entry)
    requires e.startSent && e.addrSent && !e.stopSent
    ensures Rest(e) == Data(e.read, e.needed) + (if e.stop then [STOP] else [])
  {
    hide Data;
  }

  lemma BlockOwed(e: Entry)
    requires Sane(e) && e.addrSent && !e.stopSent && e.needed > Mode(e)
    ensures Sane(e.(needed := e.needed - Block(e)))
    ensures Rest(e) == [BlockCmd(e.read, Block(e))] + Rest(e.(needed := e.needed - Block(e)))
  {
    var f := e.(needed := e.needed - Block(e));
    AddressedRest(e);
    AddressedRest(f);
    assert Data(e.read, e.needed) == [BlockCmd(e.read, Block(e))] + Data(e.read, f.needed);
    hide Data, Rest;
    Assoc([BlockCmd(e.read, Block(e))], [], Data(e.read, f.needed), if e.stop then [STOP] else []);
  }

  lemma LastReadOwed(e: Entry)
    requires Sane(e) && e.addrSent && !e.stopSent && e.read && e.needed == 1
    ensures Sane(e.(needed := 0)) && Rest(e) == [LAST_READ] + Rest(e.(needed := 0))
  {
    AddressedRest(e);
    AddressedRest(e.(needed := 0));
    assert Data(true, 1) == [LAST_READ] && Data(true, 0) == [];
  }

  lemma StopOwed(e: Entry)
    requires Sane(e) && e.addrSent && !e.stopSent && e.needed == 0
    ensures Sane(e.(stopSent := true)) && Rest(e.(stopSent := true)) == []
    ensures Rest(e) == if e.stop then [STOP] else []
  {
    AddressedRest(e);
    assert Data(e.read, 0) == [];
  }

  // ----- whole queues

  lemma {:induction false} PendingFrom(q: seq<Entry>, n: nat)
    requires n <= |q| && forall i :: 0 <= i < n ==> q[i].stopSent
    ensures Pending(q) == Pending(q[n..])
    decreases n
  {
    hide Data;
    if n == 0 {
      assert q[0..] == q;
    } else {
      assert forall i :: 0 <= i < n - 1 ==> q[1..][i] == q[i + 1];
      PendingFrom(q[1..], n - 1);
      assert q[1..][n - 1..] == q[n..];
    }
  }

  /** What one entry issued, the queue issued. */
  lemma PendingStep(w: seq<Cmd>, q: seq<Entry>, n: nat, w': seq<Cmd>, e: Entry)
    requires n < |q| && forall i :: 0 <= i < n ==> q[i].stopSent
    requires w' + Rest(e) == w + Rest(q[n])
    ensures w' + Pending(q[n := e]) == w + Pending(q)
  {
    hide Rest;
    var p := q[n := e];
    PendingFrom(q, n);
    PendingFrom(p, n);
    assert q[n..][1..] == q[n + 1..] && p[n..][1..] == q[n + 1..];
    assert Pending(q) == Rest(q[n]) + Pending(q[n + 1..]);
    assert Pending(p) == Rest(e) + Pending(q[n + 1..]);
    Regroup(w, Rest(q[n]), w', Rest(e), Pending(q[n + 1..]));
  }

  lemma Regroup(w: seq<Cmd>, a: seq<Cmd>, w': seq<Cmd>, b: seq<Cmd>, t: seq<Cmd>)
    requires w + a == w' + b
    ensures w + (a + t) == w' + (b + t)
  {
    assert w + (a + t) == (w + a) + t && w' + (b + t) == (w' + b) + t;
  }

  /** An unfinished last entry with STOP set still owes at least that STOP, and nothing after it. */
  lemma {:induction false} LastStop(q: seq<Entry>)
    requires q != [] && q[|q| - 1].stop && !q[|q| - 1].stopSent
    ensures Pending(q) != [] && Pending(q)[|Pending(q)| - 1] == STOP
  {
    hide Rest;
    if |q| > 1 {
      LastStop(q[1..]);
    } else {
      OwesStop(q[0]);
      assert Pending(q[1..]) == [];
    }
  }

  lemma OwesStop(e: Entry)
    requires e.stop && !e.stopSent
    ensures Rest(e) != [] && Rest(e)[|Rest(e)| - 1] == STOP
  {
    hide Data;
  }

  /** An entry at the end of the queue adds its commands at the end of the stream. */
  lemma {:induction false} PendingMore(q: seq<Entry>, e: Entry)
    ensures Pending(q + [e]) == Pending(q) + Rest(e)
  {
    hide Rest;
    if q == [] {
      assert (q + [e])[1..] == [] && (q + [e])[0] == e;
    } else {
      PendingMore(q[1..], e);
      assert (q + [e])[1..] == q[1..] + [e];
    }
  }

  /** The commands of whole transactions, one after the other. */
  function Plans(q: seq<Entry>): seq<Cmd> {
    if q == [] then [] else Plan(q[0]) + Plans(q[1..])
  }

  lemma {:induction false} FreshPending(q: seq<Entry>)
    requires forall i :: 0 <= i < |q| ==> Fresh(q[i])
    ensures Pending(q) == Plans(q)
  {
    hide Rest, Plan;
    if q != [] {
      FreshRest(q[0]);
      FreshPending(q[1..]);
    }
  }

  // ----- the shape of the stream

  /** A transfer follows every START and a START every STOP; nothing is filler and byte counts fit. */
  predicate Shaped(s: seq<Cmd>) {
    && (forall i :: 0 <= i < |s| ==> !Filler(s[i]) && s[i].bytes <= 255)
    && (forall i {:trigger s[i]} :: 0 <= i < |s| - 1 ==> Follows(s[i], s[i + 1]))
  }

  predicate Follows(c: Cmd, d: Cmd) {
    (c.op == RStart ==> Moves(d)) && (c.op == Stop ==> d.op == RStart)
  }

  lemma ShapedJoin(a: seq<Cmd>, b: seq<Cmd>)
    requires Shaped(a) && Shaped(b)
    requires a != [] && b != [] ==> Follows(a[|a| - 1], b[0])
    ensures Shaped(a + b)
  {
    var s := a + b;
    forall i | 0 <= i < |s| - 1 ensures Follows(s[i], s[i + 1]) {
      if i < |a| {
        assert s[i] == a[i];
      } else {
        assert s[i] == b[i - |a|];
      }
    }
  }

  function Tail(e: Entry): seq<Cmd> {
    Data(e.read, e.needed) + (if e.stop then [STOP] else [])
  }

  lemma TailIsShaped(e: Entry)
    ensures var s := Tail(e); Shaped(s) && forall i :: 0 <= i < |s| ==> s[i].op != RStart
  {
    DataIsExact(e.read, e.needed);
    hide Data;
    ShapedJoin(Data(e.read, e.needed), if e.stop then [STOP] else []);
  }

  function Head(e: Entry): seq<Cmd> {
    [START, Cmd(Write, e.addrBytes, false, true)]
  }

  lemma HeadTail(e: Entry)
    requires Sane(e) && e.startSent == e.addrSent && !e.stopSent
    ensures Rest(e) == if e.addrSent then Tail(e) else Head(e) + Tail(e)
  {
    hide Data;
    if e.addrSent {
      AddressedRest(e);
    } else {
      assert [START] + [Cmd(Write, e.addrBytes, false, true)] == Head(e);
    }
  }

  /** What an entry owes is shaped, does not end in START, and begins with START when it is untouched. */
  lemma RestIsShaped(e: Entry)
    requires Sane(e) && e.startSent == e.addrSent
    ensures var s := Rest(e); Shaped(s) && (s != [] ==> s[|s| - 1].op != RStart)
                              && (Fresh(e) ==> s != [] && s[0] == START)
    ensures e.stopSent ==> Rest(e) == []
  {
    if e.stopSent { return; }
    hide Rest, Tail, Data;
    TailIsShaped(e);
    HeadTail(e);
    ShapedJoin(Head(e), Tail(e));
  }

  lemma {:induction false} PendingIsShaped(q: seq<Entry>)
    requires forall i :: 0 <= i < |q| ==> Sane(q[i]) && q[i].startSent == q[i].addrSent
    requires forall i, j :: 0 <= i < j < |q| && !q[i].stopSent ==> Fresh(q[j])
    ensures Shaped(Pending(q))
    ensures q != [] && Fresh(q[0]) ==> Pending(q) != [] && Pending(q)[0] == START
  {
    hide Rest, Shaped, Data;
    if q == [] {
      NoneIsShaped();
    } else {
      PendingIsShaped(q[1..]);
      RestIsShaped(q[0]);
      assert q[1..] != [] ==> q[1..][0] == q[1];
      ShapedJoin(Rest(q[0]), Pending(q[1..]));
    }
  }

  lemma NoneIsShaped()
    ensures Shaped([])
  {
  }

  lemma ShapedPrefix(s: seq<Cmd>, n: nat)
    requires Shaped(s) && n <= |s|
    ensures Shaped(s[..n])
  {
  }

  /** Any three commands of the stream include a transfer. */
  lemma SomeTransfer(w: seq<Cmd>)
    requires Shaped(w) && |w| >= 3
    ensures exists i :: 0 <= i < |w| && Moves(w[i])
  {
    assert Follows(w[0], w[1]) && Follows(w[1], w[2]);
    if !Moves(w[0]) {
      assert !Filler(w[0]) && !Filler(w[1]);
      assert Moves(w[1]) || Moves(w[2]);
    }
  }

  /**
   A window the hardware can run: at most 16 commands, a continuation mark in slot 15 and nowhere else, and every
   START directly followed by a transfer, so none stands right before the continuation mark.
   */
  predicate Window(w: seq<Cmd>) {
    && |w| <= 16
    && (forall i :: 0 <= i < |w| ==> (w[i].op == End <==> i == 15) && w[i].bytes <= 255)
    && (forall i :: 0 <= i < |w| && w[i].op == RStart ==> i + 1 < |w| && Moves(w[i + 1]))
  }

  predicate Moves(c: Cmd) {
    c.op == Read || c.op == Write
  }

  /** START is never in slot 14, where END would follow it. */
  lemma NoStartBeforeEnd(w: seq<Cmd>)
    requires Window(w)
    ensures forall i :: 0 <= i < |w| && w[i].op == RStart ==> i < 14
  {
    if |w| == 16 && w[14].op == RStart {
      assert Moves(w[15]);
      assert w[15].op == End;
    }
  }

  /** A shaped piece of the stream makes a window, alone or, when it has 15 commands, with END behind it. */
  lemma ShapedIsWindow(w: seq<Cmd>)
    requires Shaped(w) && |w| <= 15 && (w != [] ==> w[|w| - 1].op != RStart)
    ensures Window(w) && (|w| == 15 ==> Window(w + [END]))
  {
    forall i | 0 <= i < |w| && w[i].op == RStart ensures i + 1 < |w| && Moves(w[i + 1]) {
      if i + 1 < |w| {
        assert Follows(w[i], w[i + 1]);
      }
    }
    if |w| == 15 {
      EndAppended(w);
    }
  }

  lemma EndAppended(w: seq<Cmd>)
    requires Window(w) && |w| == 15
    ensures Window(w + [END])
  {
    var z := w + [END];
    forall i | 0 <= i < 16 && z[i].op == RStart ensures i + 1 < 16 && Moves(z[i + 1]) {
      assert z[i] == w[i];
      assert z[i + 1] == w[i + 1];
    }
  }

  lemma StretchedIsWindow(w: seq<Cmd>, i: nat)
    requires Shaped(w) && |w| == 14 && w[13].op != RStart && i < 14 && Moves(w[i])
    ensures Window(Doubled(w, i) + [END])
  {
    var z := Doubled(w, i);
    assert forall k :: 0 <= k < 13 ==> Follows(w[k], w[k + 1]);
    forall k | 0 <= k < 15
      ensures z[k].op != End && z[k].bytes <= 255 && (z[k].op == RStart ==> k < 14 && Moves(z[k + 1]))
    {
      if k < i {
        assert z[k] == w[k] && Follows(w[k], w[k + 1]);
        assert z[k + 1].op == w[k + 1].op;
      } else if k > i {
        assert z[k] == w[k - 1];
        if k < 14 {
          assert Follows(w[k - 1], w[k]) && z[k + 1] == w[k];
        }
      }
    }
  }

  /** The transfer in slot `i` twice, the first time with no bytes. */
  function Doubled(w: seq<Cmd>, i: nat): seq<Cmd>
    requires i < |w|
  {
    w[..i] + [w[i].(bytes := 0)] + w[i..]
  }

  lemma DoubledMeaning(w: seq<Cmd>, i: nat)
    requires i < |w| && Moves(w[i])
    ensures Erase(Doubled(w, i)) == Erase(w)
  {
    hide Erase;
    var z := [w[i].(bytes := 0)];
    EraseFiller(w[i].(bytes := 0));
    EraseConcat(w[..i] + z, w[i..]);
    EraseConcat(w[..i], z);
    EraseConcat(w[..i], w[i..]);
    assert w == w[..i] + w[i..];
  }

  lemma EraseFiller(c: Cmd)
    ensures Erase([c]) == if Filler(c) then [] else [c]
  {
  }

  function Flatten(ws: seq<seq<Cmd>>): seq<Cmd> {
    if ws == [] then [] else Flatten(ws[..|ws| - 1]) + ws[|ws| - 1]
  }
}
