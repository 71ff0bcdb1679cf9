/**
 The layout loop of ESP32FirmwareImage.save on its own: what it writes, and exactly when it stops at its alignment
 assertion.
 */
module EspImageLayout {
  import opened Values
  import opened LittleEndian
  import opened EspImage

  datatype Failure =
    | NoFailure
    | SamePage      // two flash segments in one 64 KiB mapping
    | Misaligned    // the alignment assertion
    | NoDigest      // secure padding of an image without digest
    | BadStruct     // a number too large for its field

  // ----- the loop

  function Size(ram: seq<Segment>): nat {
    if ram == [] then 0 else |ram[0].data| + 1 + Size(ram[1..])
  }

  /** The segment lies in the 32-bit address space, with room for the zeros behind a flash segment. */
  predicate InMemory(s: Segment) {
    s.addr + |s.data| < UINT_RANGE - 0x24
  }

  predicate AllInMemory(ram: seq<Segment>) {
    forall i :: 0 <= i < |ram| ==> InMemory(ram[i])
  }

  datatype Layout = Complete(out: seq<Piece>, ram: seq<Segment>) | Stuck(why: Failure, out: seq<Piece>)

  /** The layout loop from any point on. */
  function Run(out: seq<Piece>, flash: seq<Segment>, ram: seq<Segment>): Layout
    decreases |flash|, Size(ram), flash != [] && !OnPage(End(out), flash[0].addr)
  {
    if flash == [] then Complete(out, ram)
    else
      var pad := AlignmentDataNeeded(End(out), flash[0].addr);
      if pad > 0 then
        if ram != [] && pad > SEG_HEADER then
          var n := if pad <= |ram[0].data| then pad else |ram[0].data|;
          SplitShrinks(ram, n);
          if Packs(First(ram[0], n)) then Run(out + [Piece(Ram, First(ram[0], n))], flash, AfterSplit(ram, n))
          else Stuck(BadStruct, out)
        else
          Grows(out, ZeroPiece(pad));
          Run(out + [ZeroPiece(pad)], flash, ram)
      else if !OnPage(End(out), flash[0].addr) then Stuck(Misaligned, out)
      else
        var p := FlashPiece(flash[0], End(out));
        if Packs(p.seg) then Run(out + [p], flash[1..], ram) else Stuck(BadStruct, out)
  }

  function ZeroPiece(n: nat): Piece {
    Piece(Padding, Segment(0, Zeros(n)))
  }

  function FlashPiece(s: Segment, pos: nat): Piece {
    Piece(Flash, Segment(s.addr, s.data + Zeros(Overhang(pos, |s.data|))))
  }

  function AfterSplit(ram: seq<Segment>, n: nat): seq<Segment>
    requires ram != [] && n <= |ram[0].data|
  {
    if n < |ram[0].data| then [Rest(ram[0], n)] + ram[1..] else ram[1..]
  }

  lemma SplitShrinks(ram: seq<Segment>, n: nat)
    requires ram != [] && n <= |ram[0].data| && (n == 0 ==> ram[0].data == [])
    ensures Size(AfterSplit(ram, n)) < Size(ram)
    ensures AllInMemory(ram) ==> Packs(First(ram[0], n)) && AllInMemory(AfterSplit(ram, n))
  {
    if n < |ram[0].data| {
      assert AfterSplit(ram, n)[1..] == ram[1..];
    }
    if AllInMemory(ram) {
      assert InMemory(ram[0]);
    }
  }

  /** One round of the loop. */
  lemma Step(out: seq<Piece>, flash: seq<Segment>, ram: seq<Segment>)
    requires flash != []
    ensures var pad := AlignmentDataNeeded(End(out), flash[0].addr);
            Run(out, flash, ram) ==
            if pad > 0 && ram != [] && pad > SEG_HEADER then
              var n := if pad <= |ram[0].data| then pad else |ram[0].data|;
              if Packs(First(ram[0], n)) then Run(out + [Piece(Ram, First(ram[0], n))], flash, AfterSplit(ram, n))
              else Stuck(BadStruct, out)
            else if pad > 0 then Run(out + [ZeroPiece(pad)], flash, ram)
            else if !OnPage(End(out), flash[0].addr) then Stuck(Misaligned, out)
            else if Packs(FlashPiece(flash[0], End(out)).seg) then
              Run(out + [FlashPiece(flash[0], End(out))], flash[1..], ram)
            else Stuck(BadStruct, out)
  {
  }

  lemma RunEnds(out: seq<Piece>, ram: seq<Segment>)
    ensures Run(out, [], ram) == Complete(out, ram)
  {
  }

  lemma AlignmentMeans(pos: nat, addr: nat)
    ensures AlignmentDataNeeded(pos, addr) == 0 <==> OnPage(pos, addr) || MissesByOneHeader(pos, addr)
  {
  }

  /** The layout of these segments ends in a failure. */
  predicate Stops(flash: seq<Segment>, ram: seq<Segment>, why: Failure) {
    var l := Run([], flash, ram);
    l.Stuck? && l.why == why
  }

  // ----- exactly when the alignment assertion fails

  /**
   The RAM segments in front of a flash address run out one header short of it: each is used up because the gap
   asks for more, until the gap has room for a header only.
   */
  predicate Short(pos: nat, addr: nat, ram: seq<Segment>)
    decreases |ram|
  {
    var pad := AlignmentDataNeeded(pos, addr);
    || MissesByOneHeader(pos, addr)
    || (ram != [] && pad > SEG_HEADER && |ram[0].data| < pad && Packs(ram[0])
        && Short(pos + SEG_HEADER + |ram[0].data|, addr, ram[1..]))
  }

  /** The address is reached, and the headers of the RAM segments used on the way can be packed. */
  predicate Reached(pos: nat, addr: nat, ram: seq<Segment>)
    decreases |ram|
  {
    var pad := AlignmentDataNeeded(pos, addr);
    if pad <= SEG_HEADER || ram == [] then !MissesByOneHeader(pos, addr)
    else if |ram[0].data| < pad then Packs(ram[0]) && Reached(pos + SEG_HEADER + |ram[0].data|, addr, ram[1..])
    else ram[0].addr < UINT_RANGE
  }

  /** The RAM that is left when the address is reached. */
  function Left(pos: nat, addr: nat, ram: seq<Segment>): seq<Segment>
    decreases |ram|
  {
    var pad := AlignmentDataNeeded(pos, addr);
    if pad <= SEG_HEADER || ram == [] then ram
    else if |ram[0].data| < pad then Left(pos + SEG_HEADER + |ram[0].data|, addr, ram[1..])
    else AfterSplit(ram, pad)
  }

  /** Zeros behind a flash segment, which depend on its address and length alone. */
  function Tail(s: Segment): nat {
    var rest := (s.addr + |s.data|) % PAGE;
    if rest < 0x24 then 0x24 - rest else 0
  }

  /** The file position behind a flash segment, modulo a page. */
  function AfterFlash(s: Segment): nat {
    s.addr + |s.data| + Tail(s)
  }

  predicate FlashFits(s: Segment) {
    s.addr < UINT_RANGE && |s.data| + Tail(s) < UINT_RANGE
  }

  /** In front of some flash segment the RAM runs out one header short, all segments before it being placed. */
  predicate Fails(pos: nat, flash: seq<Segment>, ram: seq<Segment>)
    decreases |flash|
  {
    && flash != []
    && (|| Short(pos, flash[0].addr, ram)
        || (&& Reached(pos, flash[0].addr, ram) && FlashFits(flash[0])
            && Fails(AfterFlash(flash[0]), flash[1..], Left(pos, flash[0].addr, ram))))
  }

  /** Alignment depends on the position modulo a page. */
  lemma SamePlace(pos: nat, at: nat, addr: nat)
    requires pos % PAGE == at % PAGE
    ensures AlignmentDataNeeded(pos, addr) == AlignmentDataNeeded(at, addr)
    ensures OnPage(pos, addr) == OnPage(at, addr) && MissesByOneHeader(pos, addr) == MissesByOneHeader(at, addr)
  {
    Congruent(pos, at, SEG_HEADER);
    Congruent(pos, at, 2 * SEG_HEADER);
  }

  lemma MissIsOffPage(pos: nat, addr: nat)
    ensures MissesByOneHeader(pos, addr) ==> !OnPage(pos, addr)
  {
  }

  /** The rounds in front of one flash segment. */
  lemma {:induction false} Approach(out: seq<Piece>, pos: nat, flash: seq<Segment>, ram: seq<Segment>)
    returns (there: seq<Piece>)
    requires flash != [] && End(out) % PAGE == pos % PAGE
    ensures var l, addr := Run(out, flash, ram), flash[0].addr;
            if Short(pos, addr, ram) then l.Stuck? && l.why == Misaligned
            else if !Reached(pos, addr, ram) then l.Stuck? && l.why == BadStruct
            else OnPage(End(there), addr) && l == Run(there, flash, Left(pos, addr, ram))
    decreases |ram|
  {
    hide Run, AlignmentDataNeeded, OnPage, MissesByOneHeader, End, OfKind, Body, AllPack, FlashPiece, Zeros;
    var addr := flash[0].addr;
    var pad := AlignmentDataNeeded(pos, addr);
    there := out;
    SamePlace(End(out), pos, addr);
    AlignmentMeans(pos, addr);
    MissIsOffPage(pos, addr);
    Step(out, flash, ram);
    if pad == 0 {
      return;
    }
    if pad <= SEG_HEADER || ram == [] {
      there := out + [ZeroPiece(pad)];
      Grows(out, ZeroPiece(pad));
      return;
    }
    if pad <= |ram[0].data| {
      there := out + [Piece(Ram, First(ram[0], pad))];
      Grows(out, Piece(Ram, First(ram[0], pad)));
      return;
    }
    WholeFirst(ram);
    if Packs(ram[0]) {
      Grows(out, Piece(Ram, ram[0]));
      Congruent(End(out), pos, SEG_HEADER + |ram[0].data|);
      there := Approach(out + [Piece(Ram, ram[0])], pos + SEG_HEADER + |ram[0].data|, flash, ram[1..]);
    }
  }

  lemma WholeFirst(ram: seq<Segment>)
    requires ram != []
    ensures First(ram[0], |ram[0].data|) == ram[0] && AfterSplit(ram, |ram[0].data|) == ram[1..]
  {
  }

  /** Behind a flash segment on its page the file goes on at AfterFlash. */
  lemma Behind(s: Segment, pos: nat)
    requires OnPage(pos, s.addr)
    ensures var p := FlashPiece(s, pos);
            |p.seg.data| == |s.data| + Tail(s) && (pos + SEG_HEADER + |p.seg.data|) % PAGE == AfterFlash(s) % PAGE
  {
    Congruent(pos + SEG_HEADER, s.addr, |s.data|);
    Congruent(pos + SEG_HEADER, s.addr, |s.data| + Tail(s));
  }

  lemma {:induction false} FailsFrom(out: seq<Piece>, pos: nat, flash: seq<Segment>, ram: seq<Segment>)
    requires End(out) % PAGE == pos % PAGE
    ensures var l := Run(out, flash, ram); (l.Stuck? && l.why == Misaligned) <==> Fails(pos, flash, ram)
    decreases |flash|
  {
    hide Run, AlignmentDataNeeded, OnPage, MissesByOneHeader, End, OfKind, Body, AllPack, FlashPiece, Short, Reached,
      Left, AfterFlash, Tail, Zeros;
    if flash == [] {
      RunEnds(out, ram);
      return;
    }
    var s := flash[0];
    var there := Approach(out, pos, flash, ram);
    if Reached(pos, s.addr, ram) {
      ShortIsNotReached(pos, s.addr, ram);
      var left := Left(pos, s.addr, ram);
      var p := FlashPiece(s, End(there));
      AlignmentMeans(End(there), s.addr);
      Step(there, flash, left);
      Behind(s, End(there));
      FlashPieceAddr(s, End(there));
      Grows(there, p);
      FailsFrom(there + [p], AfterFlash(s), flash[1..], left);
    }
  }

  lemma FlashPieceAddr(s: Segment, pos: nat)
    ensures FlashPiece(s, pos).seg.addr == s.addr
  {
  }

  lemma {:induction false} ShortIsNotReached(pos: nat, addr: nat, ram: seq<Segment>)
    requires Reached(pos, addr, ram)
    ensures !Short(pos, addr, ram)
    decreases |ram|
  {
    hide AlignmentDataNeeded, MissesByOneHeader, OnPage;
    AlignmentMeans(pos, addr);
    if ram != [] && |ram[0].data| < AlignmentDataNeeded(pos, addr) && AlignmentDataNeeded(pos, addr) > SEG_HEADER {
      ShortIsNotReached(pos + SEG_HEADER + |ram[0].data|, addr, ram[1..]);
    }
  }

  /** The assertion fails if and only if in front of some flash segment the RAM runs out one header short. */
  lemma AssertionFailsExactly(flash: seq<Segment>, ram: seq<Segment>)
    ensures Stops(flash, ram, Misaligned) <==> Fails(HEADER, flash, ram)
  {
    hide Run, Fails;
    assert End([]) == HEADER;
    FailsFrom([], HEADER, flash, ram);
  }

  // ----- segments within the 32-bit address space

  lemma {:induction false} InMemoryReached(pos: nat, addr: nat, ram: seq<Segment>)
    requires AllInMemory(ram)
    ensures Reached(pos, addr, ram) <==> !Short(pos, addr, ram)
    ensures AllInMemory(Left(pos, addr, ram))
    decreases |ram|
  {
    hide AlignmentDataNeeded, MissesByOneHeader, OnPage;
    AlignmentMeans(pos, addr);
    var pad := AlignmentDataNeeded(pos, addr);
    if ram != [] && pad > SEG_HEADER {
      assert InMemory(ram[0]);
      if |ram[0].data| < pad {
        InMemoryReached(pos + SEG_HEADER + |ram[0].data|, addr, ram[1..]);
      } else {
        SplitShrinks(ram, pad);
      }
    }
  }

  /** There only the RAM in front of each flash segment counts. */
  lemma FailsInMemory(pos: nat, flash: seq<Segment>, ram: seq<Segment>)
    requires flash != [] && AllInMemory(flash) && AllInMemory(ram)
    ensures var addr := flash[0].addr;
            Fails(pos, flash, ram) <==>
            Short(pos, addr, ram) || Fails(AfterFlash(flash[0]), flash[1..], Left(pos, addr, ram))
  {
    hide Short, Reached, Left, AfterFlash;
    InMemoryReached(pos, flash[0].addr, ram);
    assert InMemory(flash[0]);
  }

  /** The gap between a flash segment and the one before it has room for a header only. */
  predicate Clash(flash: seq<Segment>, k: int) {
    && 1 <= k < |flash| && flash[k].addr % PAGE < 2 * SEG_HEADER
    && (flash[k - 1].addr + |flash[k - 1].data| + 2 * SEG_HEADER) % PAGE == flash[k].addr % PAGE
  }

  lemma ClashIsMiss(flash: seq<Segment>)
    requires |flash| >= 2
    ensures Clash(flash, 1) <==> MissesByOneHeader(AfterFlash(flash[0]), flash[1].addr)
  {
    TailIsNoMiss(flash[0].addr + |flash[0].data|, Tail(flash[0]), flash[1].addr);
  }

  lemma TailIsNoMiss(end: nat, z: nat, addr: nat)
    requires z == if end % PAGE < 0x24 then 0x24 - end % PAGE else 0
    ensures MissesByOneHeader(end + z, addr) <==> MissesByOneHeader(end, addr)
  {
    if z > 0 {
      assert (end + z) % PAGE == 0x24;
      Congruent(end + z, 0x24, 16);
      Congruent(end, end % PAGE, 16);
      assert 16 <= (end + 16) % PAGE;
    }
  }

  lemma ClashTail(flash: seq<Segment>, k: int)
    requires flash != [] && 1 < k
    ensures Clash(flash, k) <==> Clash(flash[1..], k - 1)
  {
  }

  lemma {:induction false} ClashFails(pos: nat, flash: seq<Segment>, ram: seq<Segment>, k: int)
    requires Clash(flash, k) && AllInMemory(flash) && AllInMemory(ram)
    ensures Fails(pos, flash, ram)
    decreases |flash|
  {
    hide Short, Reached, Left, AfterFlash, Fails, MissesByOneHeader, InMemory;
    var addr := flash[0].addr;
    var left := Left(pos, addr, ram);
    InMemoryReached(pos, addr, ram);
    FailsInMemory(pos, flash, ram);
    if k == 1 {
      ClashIsMiss(flash);
      MissIsShort(AfterFlash(flash[0]), flash[1].addr, left);
      FailsInMemory(AfterFlash(flash[0]), flash[1..], left);
    } else {
      ClashTail(flash, k);
      ClashFails(AfterFlash(flash[0]), flash[1..], left, k - 1);
    }
  }

  lemma MissIsShort(pos: nat, addr: nat, ram: seq<Segment>)
    requires MissesByOneHeader(pos, addr)
    ensures Short(pos, addr, ram)
  {
  }

  /** Whatever RAM there is to pad with, a clash cannot be laid out, and in memory the assertion is what stops it. */
  lemma ClashNeverLaid(flash: seq<Segment>, ram: seq<Segment>, k: int)
    requires Clash(flash, k)
    ensures Run([], flash, ram).Stuck?
    ensures AllInMemory(flash) && AllInMemory(ram) ==> Stops(flash, ram, Misaligned)
  {
    hide Run, Fails, Clash, AllInMemory;
    assert End([]) == HEADER;
    ClashIsStuck([], HEADER, flash, ram, k);
    if AllInMemory(flash) && AllInMemory(ram) {
      ClashFails(HEADER, flash, ram, k);
      AssertionFailsExactly(flash, ram);
    }
  }

  lemma {:induction false} ClashIsStuck(out: seq<Piece>, pos: nat, flash: seq<Segment>, ram: seq<Segment>, k: int)
    requires Clash(flash, k) && End(out) % PAGE == pos % PAGE
    ensures Run(out, flash, ram).Stuck?
    decreases |flash|
  {
    hide Run, AlignmentDataNeeded, OnPage, MissesByOneHeader, End, OfKind, Body, AllPack, FlashPiece, Short, Reached,
      Left, AfterFlash, Tail, Zeros, Packs;
    var s := flash[0];
    var there := Approach(out, pos, flash, ram);
    if Reached(pos, s.addr, ram) {
      ShortIsNotReached(pos, s.addr, ram);
      var left, p := Left(pos, s.addr, ram), FlashPiece(s, End(there));
      AlignmentMeans(End(there), s.addr);
      Step(there, flash, left);
      Behind(s, End(there));
      Grows(there, p);
      if k == 1 {
        ClashIsMiss(flash);
        MissIsShort(AfterFlash(s), flash[1].addr, left);
        var _ := Approach(there + [p], AfterFlash(s), flash[1..], left);
      } else {
        ClashTail(flash, k);
        ClashIsStuck(there + [p], AfterFlash(s), flash[1..], left, k - 1);
      }
    }
  }

  lemma {:induction false} FailsWithoutRam(pos: nat, flash: seq<Segment>)
    requires AllInMemory(flash)
    ensures Fails(pos, flash, []) <==>
            flash != [] && (MissesByOneHeader(pos, flash[0].addr) || exists k :: Clash(flash, k))
    decreases |flash|
  {
    hide MissesByOneHeader, AfterFlash, InMemory, Clash, AlignmentDataNeeded;
    if flash == [] {
      return;
    }
    FailsInMemory(pos, flash, []);
    var next := AfterFlash(flash[0]);
    FailsWithoutRam(next, flash[1..]);
    if |flash| > 1 {
      ClashIsMiss(flash);
    }
    if exists k :: Clash(flash[1..], k) {
      var k :| Clash(flash[1..], k);
      ClashAt(flash[1..], k);
      ClashTail(flash, k + 1);
    }
    if exists k :: Clash(flash, k) {
      var k :| Clash(flash, k);
      ClashAt(flash, k);
      if k > 1 {
        ClashTail(flash, k);
      }
    }
  }

  lemma ClashAt(flash: seq<Segment>, k: int)
    ensures Clash(flash, k) ==> 1 <= k < |flash|
  {
  }

  /** Without RAM segments the assertion fails if and only if two neighbouring flash segments clash. */
  lemma WithoutRam(flash: seq<Segment>)
    requires AllInMemory(flash)
    ensures Stops(flash, [], Misaligned) <==> exists k :: Clash(flash, k)
  {
    hide Stops, Fails, Clash, AllInMemory;
    AssertionFailsExactly(flash, []);
    FailsWithoutRam(HEADER, flash);
    forall k ensures Clash(flash, k) ==> flash != [] {
      ClashAt(flash, k);
    }
  }

  /** A legal pair of sections that cannot be saved: 65488 bytes of constants in front of code at a page start. */
  lemma {:induction false} AssertionCanFail()
    ensures var flash := [Segment(0x3F400020, Zeros(65488)), Segment(0x400D0000, Zeros(4))];
            forall ram :: AllInMemory(ram) ==> Stops(flash, ram, Misaligned)
  {
    hide Stops;
    var flash := [Segment(0x3F400020, Zeros(65488)), Segment(0x400D0000, Zeros(4))];
    assert Clash(flash, 1);
    forall ram | AllInMemory(ram) ensures Stops(flash, ram, Misaligned) {
      ClashNeverLaid(flash, ram, 1);
    }
  }

  /** One with a single flash section, which 65488 bytes of RAM data leave one header short of its page. */
  lemma {:induction false} RamCanFail()
    ensures var flash, ram := [Segment(0x400D0000, Zeros(4))], [Segment(0x3FFB0000, Zeros(65488))];
            (forall k :: !Clash(flash, k)) && Stops(flash, ram, Misaligned)
  {
    hide Stops;
    var flash, ram := [Segment(0x400D0000, Zeros(4))], [Segment(0x3FFB0000, Zeros(65488))];
    assert AlignmentDataNeeded(HEADER, 0x400D0000) == 65496;
    assert MissesByOneHeader(HEADER + SEG_HEADER + 65488, 0x400D0000);
    MissIsShort(HEADER + SEG_HEADER + 65488, 0x400D0000, ram[1..]);
    AssertionFailsExactly(flash, ram);
  }
}
