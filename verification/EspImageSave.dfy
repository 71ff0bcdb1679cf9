/**
 ESP32FirmwareImage.save: RAM segments, split where needed, and zeros fill the gaps that bring every flash segment
 to its place in the file.
 */
module EspImageSave {
  import opened Values
  import opened LittleEndian
  import opened Sequences
  import opened StableSort
  import opened EspImage
  import opened EspImageFile
  import opened EspImageContents
  import opened EspImageLayout

  datatype Result = Saved(file: bytes) | Failed(why: Failure)

  // ----- flash and RAM segments in address order

  function Addr(s: Segment): int {
    s.addr
  }

  function Select(s: seq<Segment>, flash: bool): seq<Segment> {
    if s == [] then []
    else
      var r, last := Select(s[..|s| - 1], flash), s[|s| - 1];
      if FlashAddr(last.addr) == flash then r + [last] else r
  }

  lemma {:induction false} SelectKeepsOrder(s: seq<Segment>, flash: bool, bound: int)
    requires Ordered(s, Addr) && UpTo(s, Addr, bound)
    ensures Ordered(Select(s, flash), Addr) && UpTo(Select(s, flash), Addr, bound)
  {
    hide Ordered, UpTo;
    NoneOrdered(Addr, bound);
    if s != [] {
      LastBounds(s, Addr);
      LastWithin(s, Addr, bound);
      var last := s[|s| - 1];
      SelectKeepsOrder(s[..|s| - 1], flash, last.addr);
      OneMoreOrdered(Select(s[..|s| - 1], flash), last, Addr, bound);
      Looser(Select(s[..|s| - 1], flash), Addr, last.addr, bound);
    }
  }

  lemma {:induction false} SelectKeeps(s: seq<Segment>, flash: bool, x: Segment)
    ensures multiset(Select(s, flash))[x] == if FlashAddr(x.addr) == flash then multiset(s)[x] else 0
  {
    if s != [] {
      SelectKeeps(s[..|s| - 1], flash, x);
      assert s == s[..|s| - 1] + [s[|s| - 1]];
    }
  }

  lemma Parts(f: multiset<Segment>, r: multiset<Segment>, m: multiset<Segment>)
    requires forall x :: && f[x] == (if FlashAddr(x.addr) then m[x] else 0)
                         && r[x] == (if FlashAddr(x.addr) then 0 else m[x])
    ensures f + r == m
  {
    hide FlashAddr;
  }

  lemma OnlyKind(s: seq<Segment>, flash: bool, x: Segment)
    requires x in Select(s, flash)
    ensures FlashAddr(x.addr) == flash
  {
    SelectKeeps(s, flash, x);
    assert multiset(Select(s, flash))[x] > 0;
  }

  lemma MappedIsFlash(addr: nat)
    ensures FlashAddr(addr) <==> Mapped(addr)
  {
  }

  /** Flash and RAM segments share out the given ones, each list in address order. */
  lemma SharedOut(s: seq<Segment>)
    ensures Ordered(FlashOf(s), Addr) && Ordered(RamOf(s), Addr)
    ensures multiset(FlashOf(s)) + multiset(RamOf(s)) == multiset(s)
    ensures forall x :: (x in FlashOf(s) ==> Mapped(x.addr)) && (x in RamOf(s) ==> !Mapped(x.addr))
  {
    hide Ordered, UpTo, Select, Sorted, FlashAddr;
    SortedIsSorted(s, Addr);
    var bound := SomeBound(Sorted(s, Addr), Addr);
    SelectKeepsOrder(Sorted(s, Addr), true, bound);
    SelectKeepsOrder(Sorted(s, Addr), false, bound);
    forall x
      ensures multiset(FlashOf(s))[x] == (if FlashAddr(x.addr) then multiset(s)[x] else 0)
      ensures multiset(RamOf(s))[x] == (if FlashAddr(x.addr) then 0 else multiset(s)[x])
    {
      SelectKeeps(Sorted(s, Addr), true, x);
      SelectKeeps(Sorted(s, Addr), false, x);
    }
    Parts(multiset(FlashOf(s)), multiset(RamOf(s)), multiset(s));
    forall x ensures (x in FlashOf(s) ==> Mapped(x.addr)) && (x in RamOf(s) ==> !Mapped(x.addr)) {
      MappedIsFlash(x.addr);
      if x in FlashOf(s) { OnlyKind(Sorted(s, Addr), true, x); }
      if x in RamOf(s) { OnlyKind(Sorted(s, Addr), false, x); }
    }
  }

  /** Neighbours in one page. */
  predicate Collide(flash: seq<Segment>) {
    exists i :: 0 <= i < |flash| - 1 && flash[i].addr / PAGE == flash[i + 1].addr / PAGE
  }

  /** In address order, comparing neighbours finds any two segments that share a page. */
  lemma NeighboursSuffice(flash: seq<Segment>)
    requires Ordered(flash, Addr) && !Collide(flash)
    ensures forall i, j :: 0 <= i < j < |flash| ==> flash[i].addr / PAGE != flash[j].addr / PAGE
  {
    forall i, j | 0 <= i < j < |flash| ensures flash[i].addr / PAGE != flash[j].addr / PAGE {
      assert flash[i].addr / PAGE != flash[i + 1].addr / PAGE;
      assert flash[i].addr <= flash[i + 1].addr;
      assert flash[i + 1].addr <= flash[j].addr || i + 1 == j;
    }
  }

  /** Two of the segments are mapped into one page. */
  predicate SharePage(s: seq<Segment>) {
    exists i, j :: 0 <= i < j < |s| && Mapped(s[i].addr) && Mapped(s[j].addr)
                   && s[i].addr / 0x1_0000 == s[j].addr / 0x1_0000
  }

  lemma {:induction false} CollisionIsShared(s: seq<Segment>)
    requires Collide(FlashOf(s))
    ensures SharePage(s)
  {
    hide Sorted, Select, Ordered, FlashAddr, Mapped, FlashOf, RamOf;
    SharedOut(s);
    var flash := FlashOf(s);
    var k :| 0 <= k < |flash| - 1 && flash[k].addr / PAGE == flash[k + 1].addr / PAGE;
    BothThere(flash, k, k + 1);
    assert flash[k] in flash && flash[k + 1] in flash;
    var i, j := TwoPlaces(s, flash[k], flash[k + 1]);
    SamePair(s[i], s[j], flash[k], flash[k + 1]);
  }

  lemma {:induction false} SharedIsFlash(s: seq<Segment>, x: Segment, y: Segment)
    requires multiset{x, y} <= multiset(s) && Mapped(x.addr) && Mapped(y.addr)
    ensures multiset{x, y} <= multiset(FlashOf(s))
  {
    hide Sorted, Select, Ordered, FlashAddr, Mapped, FlashOf, RamOf;
    SharedOut(s);
    assert x !in RamOf(s) && y !in RamOf(s);
    assert multiset(RamOf(s))[x] == 0 && multiset(RamOf(s))[y] == 0;
  }

  /** Of the flash segments in address order, two neighbours are in one page exactly when any two segments are. */
  lemma {:induction false} CollisionExactly(s: seq<Segment>)
    ensures Collide(FlashOf(s)) <==> SharePage(s)
  {
    hide Sorted, Select, Ordered, FlashAddr, Mapped, FlashOf, RamOf;
    var flash := FlashOf(s);
    if Collide(flash) {
      CollisionIsShared(s);
      return;
    }
    if SharePage(s) {
      var i, j :| 0 <= i < j < |s| && Mapped(s[i].addr) && Mapped(s[j].addr)
                  && s[i].addr / 0x1_0000 == s[j].addr / 0x1_0000;
      BothThere(s, i, j);
      SharedIsFlash(s, s[i], s[j]);
      var a, b := TwoPlaces(flash, s[i], s[j]);
      SamePair(flash[a], flash[b], s[i], s[j]);
      SharedOut(s);
      NeighboursSuffice(flash);
      assert false;
    }
  }

  function FlashOf(s: seq<Segment>): seq<Segment> {
    Select(Sorted(s, Addr), true)
  }

  function RamOf(s: seq<Segment>): seq<Segment> {
    Select(Sorted(s, Addr), false)
  }

  // ----- writing

  method ChecksumOf(data: bytes, state0: byte) returns (state: byte)
    ensures state == Checksum(data, state0)
  {
    state := state0;
    for i := 0 to |data|
      invariant state == Checksum(data[..i], state0)
    {
      assert data[..i + 1][..i] == data[..i];
      state := Xor(state, data[i]);
    }
    assert data[..|data|] == data;
  }

  /** The file and the running checksum belong to the pieces written so far. */
  ghost predicate Written(hdr: bytes, out: seq<Piece>, f: bytes, sum: byte) {
    |hdr| == HEADER && AllPack(out) && f == hdr + Body(out) && sum == ChecksumAll(out)
  }

  method SaveSegment(f0: bytes, s: Segment, sum0: byte, kind: Kind, ghost hdr: bytes, ghost out: seq<Piece>)
    returns (ok: bool, f: bytes, sum: byte)
    requires Written(hdr, out, f0, sum0)
    ensures ok == Packs(s)
    ensures ok ==> Written(hdr, out + [Piece(kind, s)], f, sum)
  {
    hide Body, ChecksumAll, End, OfKind, Checksum;
    ok, f, sum := Packs(s), f0, sum0;
    if ok {
      Grows(out, Piece(kind, s));
      f := f0 + Le32(s.addr) + Le32(|s.data|) + s.data;
      assert f == f0 + SegmentBytes(s);
      sum := ChecksumOf(s.data, sum0);
    }
  }

  /**
   The first `n` bytes, or all if there are fewer, and the rest; the load address of the rest moves by `n` in either
   case.
   */
  method SplitImage(s: Segment, n: nat) returns (head: Segment, rest: Segment)
    ensures head.addr == s.addr && rest.addr == s.addr + n && head.data + rest.data == s.data
    ensures |head.data| == if n <= |s.data| then n else |s.data|
    ensures n <= |s.data| ==> head == First(s, n) && rest == Rest(s, n)
    ensures n > |s.data| ==> head == s && rest.data == []
  {
    var k := if n <= |s.data| then n else |s.data|;
    head := Segment(s.addr, s.data[..k]);
    rest := Segment(s.addr + n, s.data[k..]);
  }

  /** What has been written and what is left account for all segments. */
  ghost predicate Accounted(out: seq<Piece>, flash0: seq<Segment>, flash: seq<Segment>, ram0: seq<Segment>,
                            ram: seq<Segment>) {
    && WellPlaced(out)
    && |flash| <= |flash0| && flash == flash0[|flash0| - |flash|..]
    && AllExtend(OfKind(out, Flash), flash0[..|flash0| - |flash|])
    && CutOf(OfKind(out, Ram) + ram, ram0)
  }

  lemma PadAccounted(out: seq<Piece>, flash0: seq<Segment>, flash: seq<Segment>, ram0: seq<Segment>, ram: seq<Segment>,
                     n: nat)
    requires Accounted(out, flash0, flash, ram0, ram)
    ensures Accounted(out + [Piece(Padding, Segment(0, Zeros(n)))], flash0, flash, ram0, ram)
  {
    hide CutOf, AllExtend, WellPlaced, OfKind, End, Body, AllPack;
    var p := Piece(Padding, Segment(0, Zeros(n)));
    Grows(out, p);
    assert (out + [p])[|out|] == p;
    StaysPlaced(out, p);
  }

  lemma RamAccounted(out: seq<Piece>, flash0: seq<Segment>, flash: seq<Segment>, ram0: seq<Segment>, ram: seq<Segment>,
                     n: nat)
    requires Accounted(out, flash0, flash, ram0, ram) && ram != [] && n <= |ram[0].data|
    ensures Accounted(out + [Piece(Ram, First(ram[0], n))], flash0, flash, ram0,
                      if n < |ram[0].data| then [Rest(ram[0], n)] + ram[1..] else ram[1..])
  {
    hide CutOf, AllExtend, WellPlaced, OfKind, End, Body, AllPack, Zeros;
    var p := Piece(Ram, First(ram[0], n));
    var a := OfKind(out, Ram);
    Grows(out, p);
    assert (out + [p])[|out|] == p;
    StaysPlaced(out, p);
    assert a + ram == a + [ram[0]] + ram[1..];
    if n < |ram[0].data| {
      CutAgain(a, ram[0], ram[1..], n, ram0);
      assert a + [p.seg] + ([Rest(ram[0], n)] + ram[1..]) == a + [p.seg, Rest(ram[0], n)] + ram[1..];
    } else {
      assert First(ram[0], n) == ram[0];
    }
  }

  lemma FlashAccounted(out: seq<Piece>, flash0: seq<Segment>, flash: seq<Segment>, ram0: seq<Segment>,
                       ram: seq<Segment>, s: Segment)
    requires Accounted(out, flash0, flash, ram0, ram) && flash != [] && OnPage(End(out), flash[0].addr)
    requires s == Segment(flash[0].addr, flash[0].data + Zeros(Overhang(End(out), |flash[0].data|)))
    ensures Accounted(out + [Piece(Flash, s)], flash0, flash[1..], ram0, ram)
  {
    hide CutOf, WellPlaced, OfKind, End, Body, AllPack, OnPage, AllExtend, Placed, Overhang, EndsInPage, Zeros, Extends;
    FlashKinds(out, s);
    FlashPlaced(out, s);
    StaysPlaced(out, Piece(Flash, s));
    FlashExtends(flash[0], Overhang(End(out), |flash[0].data|), s);
    var k := |flash0| - |flash|;
    NextFlash(flash0, flash);
    ExtendMore(OfKind(out, Flash), flash0[..k], s, flash[0]);
  }

  lemma FlashKinds(out: seq<Piece>, s: Segment)
    ensures OfKind(out + [Piece(Flash, s)], Flash) == OfKind(out, Flash) + [s]
    ensures OfKind(out + [Piece(Flash, s)], Ram) == OfKind(out, Ram)
  {
    hide OfKind, End, Body, AllPack, ChecksumAll;
    Grows(out, Piece(Flash, s));
  }

  lemma FlashExtends(s: Segment, z: nat, p: Segment)
    requires z <= 0x24 && p == Segment(s.addr, s.data + Zeros(z))
    ensures Extends(p, s)
  {
  }

  lemma NextFlash(flash0: seq<Segment>, flash: seq<Segment>)
    requires 0 < |flash| <= |flash0| && flash == flash0[|flash0| - |flash|..]
    ensures var k := |flash0| - |flash|; flash0[..k + 1] == flash0[..k] + [flash[0]] && flash[1..] == flash0[k + 1..]
  {
  }

  lemma FlashPlaced(out: seq<Piece>, s: Segment)
    requires OnPage(End(out), s.addr) && EndsInPage(End(out) + SEG_HEADER + |s.data|)
    ensures Placed(out + [Piece(Flash, s)], |out|)
  {
    hide End, OnPage, OfKind, Body, AllPack, WellPlaced, EndsInPage;
    Grows(out, Piece(Flash, s));
    var more := out + [Piece(Flash, s)];
    assert more[|out|] == Piece(Flash, s) && more[..|out|] == out && more[..|out| + 1] == more;
  }

  lemma ExtendMore(ps: seq<Segment>, ss: seq<Segment>, p: Segment, s: Segment)
    requires AllExtend(ps, ss) && Extends(p, s)
    ensures AllExtend(ps + [p], ss + [s])
  {
    hide Extends;
  }

  // ----- the layout loop

  /**
   Pieces written, and the most that are still to come: one for the padding before a flash segment is already saved when
   it is on its page.
   */
  predicate Budget(out: seq<Piece>, flash: seq<Segment>, ram: seq<Segment>, limit: nat) {
    |out| + |ram| + 2 * |flash| <= limit + (if flash != [] && OnPage(End(out), flash[0].addr) then 1 else 0)
  }

  /** All there is to know between two pieces. */
  ghost predicate Laying(hdr: bytes, out: seq<Piece>, f: bytes, sum: byte, flash0: seq<Segment>, flash: seq<Segment>,
                         ram0: seq<Segment>, ram: seq<Segment>) {
    && Written(hdr, out, f, sum) && |f| == End(out)
    && Accounted(out, flash0, flash, ram0, ram)
    && Budget(out, flash, ram, 2 * |flash0| + |ram0|)
    && (AllInMemory(ram0) ==> AllInMemory(ram))
  }

  /** The beginning of a RAM segment as padding. */
  method SaveRamPiece(padLen: nat, ghost hdr: bytes, ghost out: seq<Piece>, f0: bytes, sum0: byte,
                      ghost flash0: seq<Segment>, ghost flash: seq<Segment>, ghost ram0: seq<Segment>,
                      ram1: seq<Segment>)
    returns (ok: bool, f: bytes, sum: byte, ram: seq<Segment>, ghost p: Piece)
    requires Laying(hdr, out, f0, sum0, flash0, flash, ram0, ram1) && flash != [] && ram1 != []
    requires padLen == AlignmentDataNeeded(|f0|, flash[0].addr) > 0
    ensures ok ==> Laying(hdr, out + [p], f, sum, flash0, flash, ram0, ram) && Size(ram) < Size(ram1)
    ensures var n := if padLen <= |ram1[0].data| then padLen else |ram1[0].data|;
            p == Piece(Ram, First(ram1[0], n)) && ram == AfterSplit(ram1, n) && ok == Packs(p.seg)
    ensures !ok ==> !AllInMemory(ram0)
  {
    hide Accounted, Body, ChecksumAll, End, OfKind, AllPack, Written, AlignmentDataNeeded, OnPage, Size, Budget,
      AllInMemory, Packs;
    var pad, rest := SplitImage(ram1[0], padLen);
    ghost var n := |pad.data|;
    p := Piece(Ram, pad);
    ram := if |rest.data| == 0 then ram1[1..] else [rest] + ram1[1..];
    assert ram == AfterSplit(ram1, n);
    RamAccounted(out, flash0, flash, ram0, ram1, n);
    SplitShrinks(ram1, n);
    PaddingBudget(out, p, flash, ram1, ram, 2 * |flash0| + |ram0|);
    ok, f, sum := SaveSegment(f0, pad, sum0, Ram, hdr, out);
    if ok {
      WrittenLength(hdr, out + [p], f, sum);
    }
  }

  /** A piece of padding either uses up a RAM segment or brings the next flash segment to its page. */
  lemma PaddingBudget(out: seq<Piece>, p: Piece, flash: seq<Segment>, ram: seq<Segment>, ram': seq<Segment>, limit: nat)
    requires Budget(out, flash, ram, limit) && flash != [] && AlignmentDataNeeded(End(out), flash[0].addr) > 0
    requires |ram'| < |ram| || (|ram'| == |ram| && |p.seg.data| == AlignmentDataNeeded(End(out), flash[0].addr))
    ensures Budget(out + [p], flash, ram', limit)
    ensures |ram'| == |ram| ==> OnPage(End(out + [p]), flash[0].addr)
  {
    hide OfKind, Body, AllPack, End, AlignmentDataNeeded, OnPage;
    Grows(out, p);
  }

  /** A segment of zeros as padding. */
  method SaveZeros(padLen: nat, ghost hdr: bytes, ghost out: seq<Piece>, f0: bytes, sum0: byte,
                   ghost flash0: seq<Segment>, ghost flash: seq<Segment>, ghost ram0: seq<Segment>,
                   ghost ram: seq<Segment>)
    returns (f: bytes, sum: byte)
    requires Laying(hdr, out, f0, sum0, flash0, flash, ram0, ram) && flash != []
    requires padLen == AlignmentDataNeeded(|f0|, flash[0].addr) > 0
    ensures Laying(hdr, out + [ZeroPiece(padLen)], f, sum, flash0, flash, ram0, ram)
    ensures OnPage(End(out + [ZeroPiece(padLen)]), flash[0].addr)
  {
    hide Accounted, Body, ChecksumAll, End, OfKind, AllPack, Written, AlignmentDataNeeded, OnPage, Budget, AllInMemory;
    var pad := Segment(0, Zeros(padLen));
    ghost var p := Piece(Padding, pad);
    PadAccounted(out, flash0, flash, ram0, ram, padLen);
    PaddingBudget(out, p, flash, ram, ram, 2 * |flash0| + |ram0|);
    var ok;
    ok, f, sum := SaveSegment(f0, pad, sum0, Padding, hdr, out);
    WrittenLength(hdr, out + [p], f, sum);
  }

  /** save_flash_segment. */
  method SaveFlashSegment(s: Segment, ghost hdr: bytes, ghost out: seq<Piece>, f0: bytes, sum0: byte,
                          ghost flash0: seq<Segment>, ghost flash: seq<Segment>, ghost ram0: seq<Segment>,
                          ghost ram: seq<Segment>)
    returns (ok: bool, f: bytes, sum: byte, ghost p: Piece)
    requires Laying(hdr, out, f0, sum0, flash0, flash, ram0, ram) && flash != [] && s == flash[0]
             && OnPage(End(out), s.addr)
    ensures ok ==> Laying(hdr, out + [p], f, sum, flash0, flash[1..], ram0, ram)
    ensures p == FlashPiece(s, End(out)) && ok == Packs(p.seg)
    ensures !ok ==> !AllInMemory(flash0)
  {
    hide Accounted, Body, ChecksumAll, End, OfKind, AllPack, Written, OnPage, Budget, AllInMemory;
    var segmentEnd := |f0| + |s.data| + SEG_HEADER;
    var remainder := segmentEnd % PAGE;
    var z := if remainder < 0x24 then 0x24 - remainder else 0;
    assert z == Overhang(End(out), |s.data|);
    var data := s.data + Zeros(z);
    p := Piece(Flash, Segment(s.addr, data));
    FlashAccounted(out, flash0, flash, ram0, ram, p.seg);
    FlashBudget(out, p, flash, ram, 2 * |flash0| + |ram0|);
    NextInMemory(out, flash0, flash, ram0, ram);
    ok, f, sum := SaveSegment(f0, Segment(s.addr, data), sum0, Flash, hdr, out);
    if ok {
      WrittenLength(hdr, out + [p], f, sum);
    }
  }

  lemma FlashBudget(out: seq<Piece>, p: Piece, flash: seq<Segment>, ram: seq<Segment>, limit: nat)
    requires Budget(out, flash, ram, limit) && flash != []
    ensures Budget(out + [p], flash[1..], ram, limit)
  {
    hide End, OnPage;
  }

  lemma NextInMemory(out: seq<Piece>, flash0: seq<Segment>, flash: seq<Segment>, ram0: seq<Segment>, ram: seq<Segment>)
    requires Accounted(out, flash0, flash, ram0, ram) && flash != []
    ensures AllInMemory(flash0) ==> InMemory(flash[0])
  {
    hide WellPlaced, AllExtend, CutOf, InMemory;
    assert flash[0] == flash0[|flash0| - |flash|];
  }

  lemma WrittenLength(hdr: bytes, out: seq<Piece>, f: bytes, sum: byte)
    requires Written(hdr, out, f, sum)
    ensures |f| == End(out)
  {
  }

  /**
   Places all flash segments. The loop ends because every round writes a flash segment, uses up RAM data or a RAM
   segment, or brings the next flash segment to its page. It stops at the alignment assertion exactly when only a
   header fits before that segment.
   */
  method LayOut(hdr: bytes, flash0: seq<Segment>, ram0: seq<Segment>)
    returns (failure: Failure, f: bytes, sum: byte, total: nat, ram: seq<Segment>, ghost out: seq<Piece>,
             ghost flash: seq<Segment>)
    requires |hdr| == HEADER
    ensures Laying(hdr, out, f, sum, flash0, flash, ram0, ram) && total == |out|
    ensures Run([], flash0, ram0) == if failure == NoFailure then Complete(out, ram) else Stuck(failure, out)
    ensures failure == NoFailure <==> flash == []
    ensures failure != NoFailure ==> failure == Misaligned || failure == BadStruct
    ensures failure == Misaligned ==> MissesByOneHeader(End(out), flash[0].addr)
    ensures failure == BadStruct ==> !AllInMemory(flash0) || !AllInMemory(ram0)
  {
    hide Accounted, Body, ChecksumAll, End, OfKind, AllPack, Written, Budget, AllInMemory, Size, AlignmentDataNeeded,
      OnPage, MissesByOneHeader, Run, FlashPiece, ZeroPiece, Packs;
    var todo := flash0;
    failure, f, sum, total, ram, out := NoFailure, hdr, CHECKSUM_MAGIC, 0, ram0, [];
    NothingLaid(hdr, flash0, ram0);
    flash := todo;
    while todo != []
      invariant Laying(hdr, out, f, sum, flash0, todo, ram0, ram) && total == |out| && failure == NoFailure
                && flash == todo
      invariant Run(out, todo, ram) == Run([], flash0, ram0)
      decreases |todo|, Size(ram), !OnPage(End(out), if todo == [] then 0 else todo[0].addr)
    {
      var segment := todo[0];
      Step(out, todo, ram);
      var padLen := AlignmentDataNeeded(|f|, segment.addr);
      ghost var p;
      if padLen > 0 {
        if |ram| > 0 && padLen > SEG_HEADER {
          var ok, f', sum', ram';
          ok, f', sum', ram', p := SaveRamPiece(padLen, hdr, out, f, sum, flash0, todo, ram0, ram);
          if !ok {
            failure := BadStruct;
            return;
          }
          f, sum, ram := f', sum', ram';
        } else {
          AlignmentMeans(End(out), segment.addr);
          f, sum := SaveZeros(padLen, hdr, out, f, sum, flash0, todo, ram0, ram);
          p := ZeroPiece(padLen);
        }
      } else {
        AlignmentMeans(End(out), segment.addr);
        if !OnPage(|f|, segment.addr) {
          failure := Misaligned;
          return;
        }
        var ok, f', sum';
        ok, f', sum', p := SaveFlashSegment(segment, hdr, out, f, sum, flash0, todo, ram0, ram);
        if !ok {
          failure := BadStruct;
          return;
        }
        f, sum, todo := f', sum', todo[1..];
        flash := todo;
      }
      out, total := out + [p], total + 1;
    }
    RunEnds(out, ram);
  }

  lemma NothingLaid(hdr: bytes, flash: seq<Segment>, ram: seq<Segment>)
    requires |hdr| == HEADER
    ensures Laying(hdr, [], hdr, CHECKSUM_MAGIC, flash, flash, ram, ram)
  {
    CutItself(ram);
    hide CutOf;
    assert OfKind([], Ram) + ram == ram;
    assert flash[0..] == flash;
  }

  function RamPieces(ram: seq<Segment>): seq<Piece> {
    seq(|ram|, i requires 0 <= i < |ram| => Piece(Ram, ram[i]))
  }

  /** Everything a save writes. */
  function Pieces(cfg: Settings, flash: seq<Segment>, ram: seq<Segment>): seq<Piece> {
    var l := Run([], flash, ram);
    var out := if l.Complete? then l.out + RamPieces(l.ram) else l.out;
    if cfg.securePad then Secured(out) else out
  }

  function Secured(out: seq<Piece>): seq<Piece> {
    out + [ZeroPiece(SecurePad(End(out)))]
  }

  /** The RAM segments not used as padding follow. */
  method SaveRest(ghost hdr: bytes, ghost out0: seq<Piece>, f0: bytes, sum0: byte, total0: nat,
                  ghost flash0: seq<Segment>, ghost ram0: seq<Segment>, ram1: seq<Segment>)
    returns (ok: bool, f: bytes, sum: byte, total: nat, ghost out: seq<Piece>)
    requires Laying(hdr, out0, f0, sum0, flash0, [], ram0, ram1) && total0 == |out0|
    ensures ok ==> Laying(hdr, out, f, sum, flash0, [], ram0, []) && total == |out|
    ensures ok ==> out == out0 + RamPieces(ram1)
    ensures !ok ==> !AllInMemory(ram0)
  {
    hide Accounted, Body, ChecksumAll, End, OfKind, AllPack, Written, Budget, AllInMemory;
    ok, f, sum, total, out := true, f0, sum0, total0, out0;
    for i := 0 to |ram1|
      invariant Laying(hdr, out, f, sum, flash0, [], ram0, ram1[i..]) && total == |out| && ok
      invariant out == out0 + RamPieces(ram1)[..i]
    {
      var left, s := ram1[i..], ram1[i];
      assert left[0] == s && left[1..] == ram1[i + 1..] && First(s, |s.data|) == s;
      RamAccounted(out, flash0, [], ram0, left, |s.data|);
      RestBudget(out, Piece(Ram, s), left, 2 * |flash0| + |ram0|);
      RestInMemory(left);
      ok, f, sum := SaveSegment(f, s, sum, Ram, hdr, out);
      if !ok {
        return;
      }
      out, total := out + [Piece(Ram, s)], total + 1;
      WrittenLength(hdr, out, f, sum);
    }
    assert ram1[|ram1|..] == [];
  }

  lemma RestBudget(out: seq<Piece>, p: Piece, ram: seq<Segment>, limit: nat)
    requires Budget(out, [], ram, limit) && ram != []
    ensures Budget(out + [p], [], ram[1..], limit)
  {
    hide End, OnPage;
  }

  lemma RestInMemory(ram: seq<Segment>)
    requires ram != []
    ensures AllInMemory(ram) ==> Packs(ram[0]) && AllInMemory(ram[1..])
  {
    if AllInMemory(ram) {
      assert InMemory(ram[0]);
    }
  }

  /** A finished layout of the given segments. */
  ghost predicate LaidOut(out: seq<Piece>, flash: seq<Segment>, ram: seq<Segment>) {
    && WellPlaced(out) && AllExtend(OfKind(out, Flash), flash) && CutOf(OfKind(out, Ram), ram)
  }

  lemma Finished(out: seq<Piece>, flash: seq<Segment>, ram: seq<Segment>)
    requires Accounted(out, flash, [], ram, [])
    ensures LaidOut(out, flash, ram)
  {
    hide WellPlaced, AllExtend, CutOf, OfKind;
    assert flash[..|flash|] == flash && OfKind(out, Ram) + [] == OfKind(out, Ram);
  }

  lemma StillLaidOut(out: seq<Piece>, flash: seq<Segment>, ram: seq<Segment>, n: nat)
    requires LaidOut(out, flash, ram)
    ensures LaidOut(out + [Piece(Padding, Segment(0, Zeros(n)))], flash, ram)
  {
    hide AllExtend, CutOf, OfKind, WellPlaced, End, Body, AllPack;
    var p := Piece(Padding, Segment(0, Zeros(n)));
    Grows(out, p);
    assert (out + [p])[|out|] == p;
    StaysPlaced(out, p);
  }

  /** The zero segment that lets a signed image end on a page. */
  method SaveSecurePad(ghost hdr: bytes, ghost out0: seq<Piece>, f0: bytes, sum0: byte, ghost flash: seq<Segment>,
                       ghost ram: seq<Segment>)
    returns (f: bytes, sum: byte)
    requires Written(hdr, out0, f0, sum0) && LaidOut(out0, flash, ram)
    ensures Written(hdr, Secured(out0), f, sum) && LaidOut(Secured(out0), flash, ram)
    ensures AlignGap(End(Secured(out0))) == 15 && (End(Secured(out0)) + 16 + 112) % PAGE == 0
  {
    hide LaidOut, Written, Body, End, OfKind, AllPack, ChecksumAll;
    WrittenLength(hdr, out0, f0, sum0);
    var alignPast := (|f0| + SEG_HEADER) % PAGE;
    var padLen := (PAGE - alignPast - 16 - (32 + 4 + 64 + 12)) % PAGE;
    assert padLen == SecurePad(End(out0));
    StillLaidOut(out0, flash, ram, padLen);
    Grows(out0, ZeroPiece(padLen));
    SecurePadLands(End(out0));
    var ok;
    ok, f, sum := SaveSegment(f0, Segment(0, Zeros(padLen)), sum0, Padding, hdr, out0);
  }

  /** The patched count makes the header that of the pieces written. */
  lemma Patched(cfg: Settings, count: byte, total: byte, rest: bytes)
    ensures (Header(cfg, count) + rest)[1 := total] == Header(cfg, total) + rest
  {
    assert Header(cfg, count)[1 := total] == Header(cfg, total);
    hide Header;
    var a, b := Header(cfg, count), Header(cfg, total);
    assert (a + rest)[1 := total] == a[1 := total] + rest;
  }

  /** append_checksum and the count. */
  method Seal(cfg: Settings, count: byte, total: byte, f0: bytes, sum: byte, ghost out: seq<Piece>) returns (f: bytes)
    requires Written(Header(cfg, count), out, f0, sum) && total == |out|
    ensures f == Image(cfg, out) && |f| % 16 == 0 && |f| == End(out) + AlignGap(End(out)) + 1
  {
    hide Body, End, AllPack, ChecksumAll, Header;
    WrittenLength(Header(cfg, count), out, f0, sum);
    f := f0 + Zeros(AlignGap(|f0|)) + [sum];
    ghost var rest := Body(out) + Zeros(AlignGap(|f0|)) + [sum];
    assert f == Header(cfg, count) + rest;
    Patched(cfg, count, total, rest);
    f := f[1 := total];
  }

  /** The check for two sections in one flash mapping. */
  method FindCollision(flash: seq<Segment>) returns (found: bool)
    ensures found == Collide(flash)
  {
    if |flash| > 0 {
      var lastAddr := flash[0].addr;
      for i := 1 to |flash|
        invariant lastAddr == flash[i - 1].addr
        invariant forall k :: 0 <= k < i - 1 ==> flash[k].addr / PAGE != flash[k + 1].addr / PAGE
      {
        if flash[i].addr / PAGE == lastAddr / PAGE {
          return true;
        }
        lastAddr := flash[i].addr;
      }
    }
    found := false;
  }

  /** What every saved image satisfies. */
  ghost predicate GoodImage(cfg: Settings, segments: seq<Segment>, out: seq<Piece>) {
    && |out| < 0x100 && AllPack(out) && LaidOut(out, FlashOf(segments), RamOf(segments))
    && |out| <= 2 * |FlashOf(segments)| + |RamOf(segments)| + (if cfg.securePad then 1 else 0)
    && |Image(cfg, out)| % 16 == 0 && (cfg.securePad ==> (|Image(cfg, out)| + 112) % PAGE == 0)
  }

  /** Why a save may fail, as far as it can be told beforehand. */
  ghost predicate Excuse(why: Failure, cfg: Settings, segments: seq<Segment>) {
    match why
    case NoFailure => false
    case SamePage => SharePage(segments)
    case Misaligned => exists s :: s in FlashOf(segments) && s.addr % PAGE < 2 * SEG_HEADER
    case NoDigest => cfg.securePad && !cfg.appendDigest
    case BadStruct =>
      || 2 * |FlashOf(segments)| + |RamOf(segments)| + (if cfg.securePad then 1 else 0) > 0xff
      || !AllInMemory(FlashOf(segments)) || !AllInMemory(RamOf(segments))
  }

  lemma SegmentCount(s: seq<Segment>)
    ensures |s| <= |FlashOf(s)| + |RamOf(s)|
  {
    SharedOut(s);
    assert |multiset(s)| == |s| && |multiset(FlashOf(s))| == |FlashOf(s)| && |multiset(RamOf(s))| == |RamOf(s)|;
  }

  lemma MisalignedExcuse(out: seq<Piece>, flash0: seq<Segment>, flash: seq<Segment>, ram0: seq<Segment>,
                         ram: seq<Segment>)
    requires Accounted(out, flash0, flash, ram0, ram) && flash != [] && MissesByOneHeader(End(out), flash[0].addr)
    ensures flash[0] in flash0 && flash[0].addr % PAGE < 2 * SEG_HEADER
  {
    hide WellPlaced, AllExtend, CutOf, End;
    assert flash[0] == flash0[|flash0| - |flash|];
  }

  lemma SavedHolds(cfg: Settings, segments: seq<Segment>, out: seq<Piece>, sha256: bytes -> bytes)
    requires GoodImage(cfg, segments, out)
    ensures FileHolds(ImageFile(cfg, out, sha256), cfg, segments, sha256)
  {
    hide FlashOf, RamOf, Holds, FileShows, Image, ImageFile, WellPlaced, AllExtend, CutOf, Ordered, OfKind, AllPack;
    var flash, ram := FlashOf(segments), RamOf(segments);
    SharedOut(segments);
    var places := LayoutHolds(out, flash, ram);
    assert multiset(flash + ram) == multiset(segments);
    assert HoldsAll(Segments(out), segments);
    ImageShows(cfg, out, sha256);
  }

  /**
   save. The file is the sealed image of the pieces, and the pieces are a good layout of the segments; it refuses
   two flash segments in one page and fails otherwise only for an excuse.
   */
  method Save(cfg: Settings, segments: seq<Segment>, sha256: bytes -> bytes) returns (r: Result, ghost out: seq<Piece>)
    ensures r.Saved? ==> GoodImage(cfg, segments, out) && r.file == ImageFile(cfg, out, sha256)
    ensures r.Saved? ==> out == Pieces(cfg, FlashOf(segments), RamOf(segments))
    ensures r.Saved? ==> FileHolds(r.file, cfg, segments, sha256)
    ensures r.Failed? ==> Excuse(r.why, cfg, segments)
    ensures r == Failed(SamePage) <==> |segments| < 0x100 && SharePage(segments)
    ensures r == Failed(Misaligned) <==>
            |segments| < 0x100 && !SharePage(segments) && Fails(HEADER, FlashOf(segments), RamOf(segments))
  {
    hide Accounted, Body, ChecksumAll, End, OfKind, AllPack, Written, Budget, AllInMemory, Select, Sorted, Header,
      LaidOut, MissesByOneHeader, Collide, Image, Run, Fails, SharePage, FileHolds;
    out := [];
    CollisionExactly(segments);
    SegmentCount(segments);
    if |segments| > 0xff {
      return Failed(BadStruct), out;
    }
    var hdr := Header(cfg, |segments|);
    var flash, ram := FlashOf(segments), RamOf(segments);
    AssertionFailsExactly(flash, ram);
    var collision := FindCollision(flash);
    if collision {
      return Failed(SamePage), out;
    }
    var failure, f, sum, total, left;
    ghost var todo;
    failure, f, sum, total, left, out, todo := LayOut(hdr, flash, ram);
    if failure != NoFailure {
      if failure == Misaligned {
        MisalignedExcuse(out, flash, todo, ram, left);
      }
      return Failed(failure), out;
    }
    var ok;
    ok, f, sum, total, out := SaveRest(hdr, out, f, sum, total, flash, ram, left);
    if !ok {
      return Failed(BadStruct), out;
    }
    Finished(out, flash, ram);
    BudgetMet(out, 2 * |flash| + |ram|);
    if cfg.securePad {
      if !cfg.appendDigest {
        return Failed(NoDigest), out;
      }
      f, sum := SaveSecurePad(hdr, out, f, sum, flash, ram);
      out, total := Secured(out), total + 1;
    }
    if total > 0xff {
      return Failed(BadStruct), out;
    }
    WrittenPacks(hdr, out, f, sum);
    f := Seal(cfg, |segments|, total, f, sum, out);
    if cfg.appendDigest {
      f := f + sha256(f);
    }
    r := Saved(f);
    SavedHolds(cfg, segments, out, sha256);
  }

  lemma BudgetMet(out: seq<Piece>, limit: nat)
    requires Budget(out, [], [], limit)
    ensures |out| <= limit
  {
  }

  lemma WrittenPacks(hdr: bytes, out: seq<Piece>, f: bytes, sum: byte)
    requires Written(hdr, out, f, sum)
    ensures AllPack(out)
  {
  }
}
