/**
 fillCmdQueue: cutting the command stream of a queue into windows of the hardware command list, slots 0 to 14
 for commands and slot 15 for a continuation.
 */
module I2cQueue {
  import opened I2cPlan

  class I2c {
    const command: array<Cmd>
    var dq: seq<Entry>
    /** All entries before it are completely issued. */
    var queuePos: nat

    ghost predicate Valid()
      reads this
    {
      command.Length == 16 && queuePos <= |dq| && Queue(dq) && Finished(dq, queuePos)
    }

    constructor ()
      ensures Valid() && dq == [] && fresh(command)
    {
      command := new Cmd[16](_ => END);
      dq, queuePos := [], 0;
    }

    /** i2cAddQueue for a transaction with its own START and address: its commands join the stream at the end. */
    method AddQueue(read: bool, addr: nat, length: nat, stop: bool)
      requires Valid() && addr < 0x1_0000 && length < 0x1_0000
      modifies `dq
      ensures Valid() && |dq| == |old(dq)| + 1 && dq[..|old(dq)|] == old(dq)
      ensures var e := dq[|old(dq)|];
              && Fresh(e) && Sane(e) && e.read == read && e.stop == stop && e.length == length
              && e.addrBytes == (if 0x7800 <= addr < 0x7C00 then 2 else 1)
              && Pending(dq) == Pending(old(dq)) + Plan(e)
    {
      hide Rest, Plan;
      var addrBytes := if addr / 0x400 == 0x1E then 2 else 1;
      var e := Entry(read, stop, addrBytes, length, length, false, false, false, false);
      PendingMore(dq, e);
      FreshRest(e);
      dq := dq + [e];
    }

    // ----- the commands of one entry

    /** i2cSetCmd into the next free slot. */
    method SetCmd(idx: nat, c: Cmd)
      requires command.Length == 16 && idx < 16
      modifies command
      ensures command[..idx + 1] == old(command[..idx]) + [c]
      ensures forall i :: 0 <= i < 16 && i != idx ==> command[i] == old(command[i])
    {
      command[idx] := c;
    }

    /** The current window and the state of entry `q`, relative to how an iteration found them. */
    ghost predicate Issued(w: seq<Cmd>, q0: seq<Entry>, q: nat, idx: nat)
      reads this, command
    {
      && command.Length == 16 && |w| <= idx <= 15 && |q0| == |dq| && q < |dq|
      && dq == q0[q := dq[q]] && Emits(w, q0[q], command[..idx], dq[q])
    }

    lemma IssuedOne(w: seq<Cmd>, w1: seq<Cmd>, c: Cmd, e0: Entry, e: Entry, f: Entry)
      requires Emits(w, e0, w1, e) && SameJob(e, f) && Sane(f) && Rest(e) == [c] + Rest(f)
      ensures Emits(w, e0, w1 + [c], f)
    {
      hide Rest, Sane, Emits;
      EmitsOne(w1, e, c, f);
      EmitsTrans(w, e0, w1, e, w1 + [c], f);
    }

    /** START, unless it would land in slot 14, and the address. */
    method IssueHead(idx0: nat, q: nat) returns (idx: nat)
      requires command.Length == 16 && q < |dq| && idx0 <= 14 && Sane(dq[q]) && !dq[q].stopSent
      requires dq[q].startSent == dq[q].addrSent
      modifies `dq, command
      ensures Issued(old(command[..idx0]), old(dq), q, idx) && Sane(dq[q]) && !dq[q].stopSent
      ensures dq[q].startSent == dq[q].addrSent
      ensures if !old(dq[q].startSent) && idx0 == 14 then idx == 14 && dq == old(dq) else dq[q].addrSent
      ensures idx == idx0 || command[idx - 1].op == Write
    {
      hide Rest, Emits;
      ghost var w, q0 := command[..idx0], dq;
      EmitsNone(w, dq[q]);
      idx := idx0;
      if !dq[q].startSent && idx < 14 {
        StartOwed(dq[q]);
        IssuedOne(w, command[..idx], START, q0[q], dq[q], dq[q].(startSent := true));
        SetCmd(idx, START);
        idx := idx + 1;
        dq := dq[q := dq[q].(startSent := true)];
      }
      if dq[q].startSent && !dq[q].addrSent {
        AddressOwed(dq[q]);
        IssuedOne(w, command[..idx], Cmd(Write, dq[q].addrBytes, false, true), q0[q], dq[q], dq[q].(addrSent := true));
        SetCmd(idx, Cmd(Write, dq[q].addrBytes, false, true));
        idx := idx + 1;
        dq := dq[q := dq[q].(addrSent := true)];
      }
    }

    /** The data blocks that still fit. */
    method IssueBlocks(idx0: nat, q: nat) returns (idx: nat)
      requires command.Length == 16 && q < |dq| && idx0 <= 14 && Sane(dq[q]) && dq[q].addrSent && !dq[q].stopSent
      modifies `dq, command
      ensures Issued(old(command[..idx0]), old(dq), q, idx) && Sane(dq[q]) && dq[q].addrSent && !dq[q].stopSent
      ensures idx <= 14 ==> dq[q].needed <= Mode(dq[q])
      ensures forall i :: idx0 <= i < idx ==> Moves(command[i])
    {
      hide Rest, Emits;
      ghost var w, q0 := command[..idx0], dq;
      EmitsNone(w, dq[q]);
      idx := idx0;
      while dq[q].needed > Mode(dq[q]) && idx <= 14
        invariant Issued(w, q0, q, idx) && idx0 <= idx && Sane(dq[q]) && dq[q].addrSent && !dq[q].stopSent
        invariant forall i :: idx0 <= i < idx ==> Moves(command[i])
        decreases 15 - idx
      {
        var c := BlockCmd(dq[q].read, Block(dq[q]));
        BlockOwed(dq[q]);
        IssuedOne(w, command[..idx], c, q0[q], dq[q], dq[q].(needed := dq[q].needed - Block(dq[q])));
        SetCmd(idx, c);
        idx := idx + 1;
        dq := dq[q := dq[q].(needed := dq[q].needed - Block(dq[q]))];
      }
    }

    /** Data, the NAK read and the STOP, as far as slot 14. */
    method IssueData(idx0: nat, q: nat) returns (idx: nat)
      requires command.Length == 16 && q < |dq| && idx0 <= 14 && Sane(dq[q]) && dq[q].addrSent && !dq[q].stopSent
      modifies `dq, command
      ensures Issued(old(command[..idx0]), old(dq), q, idx) && Sane(dq[q]) && dq[q].addrSent
      ensures idx <= 14 ==> dq[q].stopSent
      ensures forall i :: idx0 <= i < idx ==> command[i].op != RStart
      ensures idx <= 14 && dq[q].stop ==> idx > 0 && command[idx - 1] == STOP
    {
      hide Rest, Emits;
      ghost var w, q0 := command[..idx0], dq;
      idx := IssueBlocks(idx0, q);
      if idx <= 14 && dq[q].read && dq[q].needed == 1 {
        LastReadOwed(dq[q]);
        IssuedOne(w, command[..idx], LAST_READ, q0[q], dq[q], dq[q].(needed := 0));
        SetCmd(idx, LAST_READ);
        idx := idx + 1;
        dq := dq[q := dq[q].(needed := 0)];
      }
      NoteData(w, command[..idx], q0[q], dq[q]);
      dq := dq[q := dq[q].(dataSent := dq[q].needed == 0)];
      if idx <= 14 {
        idx := IssueStop(w, q0, idx, q);
      }
    }

    lemma NoteData(w: seq<Cmd>, w1: seq<Cmd>, e: Entry, f: Entry)
      requires Emits(w, e, w1, f)
      ensures Emits(w, e, w1, f.(dataSent := f.needed == 0))
    {
      hide Data;
    }

    method IssueStop(ghost w: seq<Cmd>, ghost q0: seq<Entry>, idx0: nat, q: nat) returns (idx: nat)
      requires Issued(w, q0, q, idx0) && idx0 <= 14 && Sane(dq[q]) && dq[q].addrSent && !dq[q].stopSent
               && dq[q].needed == 0
      modifies `dq, command
      ensures Issued(w, q0, q, idx) && Sane(dq[q]) && dq[q].addrSent && dq[q].stopSent && idx0 <= idx <= idx0 + 1
      ensures forall i :: 0 <= i < idx0 ==> command[i] == old(command[i])
      ensures idx > idx0 ==> command[idx0] == STOP
      ensures dq[q].stop ==> idx == idx0 + 1
    {
      hide Rest, Emits;
      StopOwed(dq[q]);
      ghost var f := dq[q].(stopSent := true);
      idx := idx0;
      if dq[q].stop {
        assert [STOP] + Rest(f) == [STOP];
        IssuedOne(w, command[..idx], STOP, q0[q], dq[q], f);
        SetCmd(idx, STOP);
        idx := idx + 1;
      } else {
        NothingOwed(w, command[..idx], q0[q], dq[q], f);
      }
      dq := dq[q := dq[q].(stopSent := true)];
    }

    lemma NothingOwed(w: seq<Cmd>, w1: seq<Cmd>, e: Entry, f: Entry, g: Entry)
      requires Emits(w, e, w1, f) && SameJob(f, g) && Sane(g) && Rest(f) == Rest(g)
      ensures Emits(w, e, w1, g)
    {
      hide Rest, Sane;
    }

    lemma EmitsNone(w: seq<Cmd>, e: Entry)
      requires Sane(e)
      ensures Emits(w, e, w, e)
    {
    }

    // ----- the window

    /**
     A START would stand in slot 14: the last transfer before it is doubled, its first copy moving no bytes, and
     everything behind moves down one slot.
     */
    method Stretch()
      requires command.Length == 16 && exists i :: 0 <= i < 14 && Moves(command[i])
      modifies command
      ensures exists i :: 0 <= i < 14 && Moves(old(command[i]))
                && command[..15] == Doubled(old(command[..14]), i)
    {
      ghost var w := command[..14];
      var i := 13;
      while !Moves(command[i])
        invariant 0 <= i < 14 && exists k :: 0 <= k <= i && Moves(command[k])
        invariant forall k :: 0 <= k <= i ==> command[k] == w[k]
        invariant forall k :: i + 1 < k < 15 ==> command[k] == w[k - 1]
        decreases i
      {
        command[i + 1] := command[i];
        i := i - 1;
      }
      command[i + 1] := command[i];
      command[i] := command[i].(bytes := 0);
      DoubledAt(w, i, command[..15]);
    }

    lemma DoubledAt(w: seq<Cmd>, i: nat, z: seq<Cmd>)
      requires |w| == 14 && i < 14 && |z| == 15
      requires forall k :: 0 <= k < i ==> z[k] == w[k]
      requires z[i] == w[i].(bytes := 0) && forall k :: i < k < 15 ==> z[k] == w[k - 1]
      ensures z == Doubled(w, i)
    {
    }

    /** Looking for commands of entry `q`, all of those before it and `idx` slots being full. */
    ghost predicate Filling(q0: seq<Entry>, idx: nat, q: nat)
      reads this, command
    {
      && command.Length == 16 && idx <= 14 && q <= |dq| && Queue(dq) && Queue(q0) && Finished(dq, q) && SameJobs(q0, dq)
      && command[..idx] + Pending(dq) == Pending(q0) && (idx > 0 ==> command[idx - 1].op != RStart)
    }

    /** The window is complete, with END in slot 15. */
    ghost predicate Full(q0: seq<Entry>)
      reads this, command
    {
      && command.Length == 16 && Queue(dq) && SameJobs(q0, dq)
      && Window(command[..16]) && Erase(command[..16]) + Pending(dq) == Pending(q0) && Erase(command[..16]) != []
    }

    /** One round: what fits of entry `q`, and END once 15 slots are full. */
    method FillEntry(ghost q0: seq<Entry>, idx0: nat, q: nat) returns (idx: nat)
      requires Filling(q0, idx0, q) && q < |dq| && !dq[q].stopSent
      modifies `dq, command
      ensures |dq| == old(|dq|) && dq == old(dq)[q := dq[q]]
      ensures if idx <= 14 then Filling(q0, idx, q + 1) else idx == 16 && Full(q0)
      ensures 0 < idx <= 14 && dq[q].stop ==> command[idx - 1] == STOP
    {
      hide Rest, Queue, Emits, Pending;
      ghost var w, was := command[..idx0], dq;
      QueueAt(dq, q);
      idx := IssueHead(idx0, q);
      EmitsKeeps(w, was[q], command[..idx], dq[q]);
      assert idx > 0 ==> command[idx - 1].op != RStart;
      if idx <= 14 && dq[q].addrSent {
        ghost var w1, e1 := command[..idx], dq[q];
        idx := IssueData(idx, q);
        EmitsKeeps(w1, e1, command[..idx], dq[q]);
        EmitsTrans(w, was[q], w1, e1, command[..idx], dq[q]);
        assert idx > 0 ==> command[idx - 1].op != RStart;
      }
      assert dq == was[q := dq[q]];
      RoundDone(q0, was, q, w, command[..idx], dq[q]);
      if idx == 14 && !dq[q].startSent {
        ghost var w2 := command[..14];
        StretchIsSafe(q0, dq, w2);
        Stretch();
        idx := 15;
      } else if idx == 15 {
        EndIsSafe(q0, dq, command[..15]);
      }
      if idx == 15 {
        SetCmd(15, END);
        idx := 16;
      }
    }

    /**
     The next window holds the next commands owed, in order: exactly the stream once END and zero-byte fillers are
     erased. A window without END leaves all entries finished, and ends in STOP if the last one asks for it.
     */
    method FillCmdQueue() returns (n: nat)
      requires Valid()
      modifies `dq, command
      ensures Valid() && SameJobs(old(dq), dq)
      ensures n <= 16 && Window(command[..n])
      ensures Erase(command[..n]) + Pending(dq) == Pending(old(dq))
      ensures Pending(old(dq)) != [] ==> Erase(command[..n]) != []
      ensures if n < 16 then Finished(dq, |dq|) && Pending(dq) == [] else Erase(command[..n]) != []
      ensures 0 < n < 16 && Closed(dq) ==> command[n - 1] == STOP
    {
      hide Queue, Pending, Erase, Window, SameJob;
      ghost var q0 := dq;
      var qp: nat := queuePos;
      while qp < |dq| && dq[qp].stopSent
        invariant queuePos <= qp <= |dq| && Finished(dq, qp)
      {
        qp := qp + 1;
      }
      n := 0;
      SameJobsItself(q0);
      Untouched(q0, qp);
      while n <= 14 && qp < |dq|
        invariant if n <= 14 then Filling(q0, n, qp) else n == 16 && Full(q0)
        invariant queuePos <= qp <= |dq| == |q0| && forall i :: 0 <= i < queuePos ==> dq[i].stopSent
        invariant forall i :: qp <= i < |dq| ==> !dq[i].stopSent
        invariant 0 < n <= 14 && qp == |dq| && Closed(dq) ==> command[n - 1] == STOP
        decreases n <= 14, |dq| - qp
      {
        n := FillEntry(q0, n, qp);
        qp := qp + 1;
      }
      if n <= 14 {
        AllFinished(dq);
        LastWindow(q0, dq, command[..n]);
      }
    }

    /**
     Windows are filled until all entries are finished, as each continuation interrupt asks for the next one; meanwhile
     the interrupt handler moves queuePos on, never past an unfinished entry. Together the windows carry exactly
     the commands of the queued transactions.
     */
    method RunQueue() returns (windows: seq<seq<Cmd>>)
      requires Valid()
      modifies `dq, `queuePos, command
      ensures Valid() && SameJobs(old(dq), dq) && Finished(dq, |dq|)
      ensures Erase(Flatten(windows)) == Pending(old(dq))
      ensures (forall i :: 0 <= i < |old(dq)| ==> Fresh(old(dq)[i])) ==> Erase(Flatten(windows)) == Plans(old(dq))
      ensures Windows(windows, false) && (Closed(old(dq)) ==> Stopped(windows))
    {
      hide Queue, Pending, Erase, Window, SameJobs, Windows, Stopped, Flatten, Done, Closed, Finished;
      ghost var q0 := dq;
      SameJobsItself(q0);
      windows := [];
      NothingYet(q0);
      DoneMeans(dq);
      while !Done(dq)
        invariant Valid() && SameJobs(q0, dq) && (Done(dq) <==> Finished(dq, |dq|))
        invariant Erase(Flatten(windows)) + Pending(dq) == Pending(q0)
        invariant Windows(windows, !Done(dq)) && (Closed(q0) ==> Stopped(windows))
        decreases |Pending(dq)|, !Done(dq)
      {
        ghost var was, ws := dq, windows;
        DoneMeans(was);
        var n := FillCmdQueue();
        windows := windows + [command[..n]];
        DoneMeans(dq);
        OneMore(ws, command[..n], Pending(dq), Pending(was));
        WindowAdded(ws, command[..n], !Done(dq));
        SameJobsTrans(q0, was, dq);
        if Closed(q0) {
          ClosedKept(q0, was);
          ClosedKept(q0, dq);
          StoppedMore(ws, command[..n]);
        }
        FinishedUpTo(dq, queuePos);
        var pos: nat :| pos <= |dq| && Finished(dq, pos);
        queuePos := pos;
      }
      AllFinished(dq);
      if forall i :: 0 <= i < |q0| ==> Fresh(q0[i]) {
        FreshPending(q0);
      }
    }
  }

  /** At most one entry is in progress; those behind it are untouched. */
  ghost predicate Queue(q: seq<Entry>) {
    && (forall i :: 0 <= i < |q| ==> Sane(q[i]) && q[i].startSent == q[i].addrSent)
    && (forall i, j :: 0 <= i < j < |q| && !q[i].stopSent ==> Fresh(q[j]))
  }

  predicate Finished(q: seq<Entry>, n: nat)
    requires n <= |q|
  {
    forall i :: 0 <= i < n ==> q[i].stopSent
  }

  /** The last transaction releases the bus. */
  ghost predicate Closed(q: seq<Entry>) {
    q != [] ==> q[|q| - 1].stop
  }

  ghost predicate SameJobs(q: seq<Entry>, p: seq<Entry>) {
    |q| == |p| && forall i :: 0 <= i < |q| ==> SameJob(q[i], p[i])
  }

  lemma EmitsKeeps(w: seq<Cmd>, e: Entry, w': seq<Cmd>, e': Entry)
    requires Emits(w, e, w', e')
    ensures |w| <= |w'| && forall i :: 0 <= i < |w| ==> w'[i] == w[i]
  {
    assert forall i :: 0 <= i < |w| ==> w'[..|w|][i] == w'[i];
  }

  lemma QueueAt(q: seq<Entry>, n: nat)
    requires Queue(q) && n < |q|
    ensures Sane(q[n]) && q[n].startSent == q[n].addrSent
  {
  }

  /** Progress on the first unfinished entry keeps the queue in order. */
  lemma RoundDone(q0: seq<Entry>, p: seq<Entry>, n: nat, w: seq<Cmd>, w': seq<Cmd>, e: Entry)
    requires Queue(q0) && Queue(p) && n < |p| && Finished(p, n) && SameJobs(q0, p)
    requires Emits(w, p[n], w', e) && e.startSent == e.addrSent && !p[n].stopSent
    requires w + Pending(p) == Pending(q0)
    ensures Queue(p[n := e]) && Finished(p[n := e], n) && SameJobs(q0, p[n := e])
    ensures w' + Pending(p[n := e]) == Pending(q0)
  {
    hide Rest;
    PendingStep(w, p, n, w', e);
    hide Pending;
  }

  lemma PrefixIsShaped(q0: seq<Entry>, p: seq<Entry>, w: seq<Cmd>)
    requires Queue(q0) && w + Pending(p) == Pending(q0)
    ensures Shaped(w) && Erase(w) == w
  {
    hide Pending, Erase, Rest;
    PendingIsShaped(q0);
    ShapedPrefix(Pending(q0), |w|);
    assert Pending(q0)[..|w|] == w;
    EraseClean(w);
  }

  lemma EndIsSafe(q0: seq<Entry>, p: seq<Entry>, w: seq<Cmd>)
    requires Queue(q0) && w + Pending(p) == Pending(q0) && |w| == 15 && w[14].op != RStart
    ensures Window(w + [END]) && Erase(w + [END]) == w
  {
    hide Pending, Rest;
    PrefixIsShaped(q0, p, w);
    EraseConcat(w, [END]);
    EraseFiller(END);
    ShapedIsWindow(w);
  }

  /** Whichever transfer is doubled to fill slot 14, the window is well formed and means the same. */
  lemma StretchIsSafe(q0: seq<Entry>, p: seq<Entry>, w: seq<Cmd>)
    requires Queue(q0) && w + Pending(p) == Pending(q0) && |w| == 14 && w[13].op != RStart
    ensures exists i :: 0 <= i < 14 && Moves(w[i])
    ensures forall i :: 0 <= i < 14 && Moves(w[i]) ==>
            Window(Doubled(w, i) + [END]) && Erase(Doubled(w, i) + [END]) == w
  {
    hide Pending, Erase, Rest, Window;
    PrefixIsShaped(q0, p, w);
    SomeTransfer(w);
    EraseFiller(END);
    forall i | 0 <= i < 14 && Moves(w[i]) ensures Window(Doubled(w, i) + [END]) && Erase(Doubled(w, i) + [END]) == w {
      StretchedIsWindow(w, i);
      EraseConcat(Doubled(w, i), [END]);
      DoubledMeaning(w, i);
    }
  }

  lemma SameJobsItself(q: seq<Entry>)
    ensures SameJobs(q, q)
  {
  }

  lemma Untouched(q: seq<Entry>, n: nat)
    requires Queue(q) && (n < |q| ==> !q[n].stopSent)
    ensures forall i :: n <= i < |q| ==> !q[i].stopSent
  {
  }

  lemma ClosedKept(q: seq<Entry>, p: seq<Entry>)
    requires SameJobs(q, p) && Closed(q)
    ensures Closed(p)
  {
  }

  lemma AllFinished(q: seq<Entry>)
    requires Finished(q, |q|)
    ensures Pending(q) == []
  {
    PendingFrom(q, |q|);
  }

  lemma LastWindow(q0: seq<Entry>, p: seq<Entry>, w: seq<Cmd>)
    requires Queue(q0) && w + Pending(p) == Pending(q0) && |w| <= 14 && (w != [] ==> w[|w| - 1].op != RStart)
    ensures Window(w) && Erase(w) == w
  {
    hide Pending, Erase, Window, Rest;
    PrefixIsShaped(q0, p, w);
    ShapedIsWindow(w);
  }

  /** The queue is done when its last entry is. */
  predicate Done(q: seq<Entry>) {
    q == [] || q[|q| - 1].stopSent
  }

  lemma {:induction false} DoneMeans(q: seq<Entry>)
    requires Queue(q)
    ensures Done(q) <==> Finished(q, |q|)
    ensures Closed(q) ==> (Done(q) <==> Pending(q) == [])
  {
    if Done(q) {
      forall i | 0 <= i < |q| ensures q[i].stopSent {
        if !q[i].stopSent && i < |q| - 1 {
          assert false;
        }
      }
      AllFinished(q);
    } else if Closed(q) {
      LastStop(q);
    }
  }

  lemma FinishedUpTo(q: seq<Entry>, n: nat)
    ensures n <= |q| && Finished(q, n) ==> exists m: nat :: m <= |q| && Finished(q, m)
  {
  }

  /**
   Well-formed windows; all but the last, and the last too while `more` is to come, carry something and are continued
   by END.
   */
  ghost predicate Windows(ws: seq<seq<Cmd>>, more: bool) {
    && (forall i :: 0 <= i < |ws| ==> Window(ws[i]))
    && (forall i :: 0 <= i < |ws| && (i < |ws| - 1 || more) ==> |ws[i]| == 16 && Erase(ws[i]) != [])
  }

  /** The last window carries something, and without continuation it ends in STOP. */
  ghost predicate Stopped(ws: seq<seq<Cmd>>) {
    ws != [] ==>
      var w := ws[|ws| - 1];
      Erase(w) != [] && (|w| < 16 ==> w != [] && w[|w| - 1] == STOP)
  }

  lemma StoppedMore(ws: seq<seq<Cmd>>, w: seq<Cmd>)
    requires Erase(w) != [] && (0 < |w| < 16 ==> w[|w| - 1] == STOP)
    ensures Stopped(ws + [w])
  {
  }

  lemma WindowAdded(ws: seq<seq<Cmd>>, w: seq<Cmd>, more: bool)
    requires Windows(ws, true) && Window(w) && (more ==> |w| == 16 && Erase(w) != [])
    ensures Windows(ws + [w], more)
  {
    hide Window, Erase;
  }

  lemma NothingYet(q: seq<Entry>)
    ensures Erase(Flatten([])) + Pending(q) == Pending(q) && Windows([], true) && Windows([], false) && Stopped([])
  {
    hide Pending;
  }

  lemma OneMore(ws: seq<seq<Cmd>>, w: seq<Cmd>, p: seq<Cmd>, p0: seq<Cmd>)
    requires Erase(w) + p == p0
    ensures Erase(Flatten(ws + [w])) + p == Erase(Flatten(ws)) + p0
    ensures Erase(w) != [] ==> |p| < |p0|
  {
    hide Erase;
    assert (ws + [w])[..|ws|] == ws;
    EraseConcat(Flatten(ws), w);
    assert Erase(Flatten(ws)) + Erase(w) + p == Erase(Flatten(ws)) + (Erase(w) + p);
  }

  lemma SameJobsTrans(a: seq<Entry>, b: seq<Entry>, c: seq<Entry>)
    requires SameJobs(a, b) && SameJobs(b, c)
    ensures SameJobs(a, c)
  {
    forall i | 0 <= i < |a| ensures SameJob(a[i], c[i]) {
      assert SameJob(a[i], b[i]);
    }
  }
}
