/**
 The ESP32 firmware image: segments, the file they make, and what a good layout is. Flash segments are mapped in
 pages of 64 KiB, so each must lie in the file at its own address modulo the page size.
 */
module EspImage {
  import opened Values
  import opened LittleEndian

  const PAGE: nat := 65536
  /** Common header and extended header. */
  const HEADER: nat := 24
  const SEG_HEADER: nat := 8

  datatype Segment = Segment(addr: nat, data: bytes)

  datatype Kind = Flash | Ram | Padding

  /** A segment as written, and what it was written for. */
  datatype Piece = Piece(kind: Kind, seg: Segment)

  /** IROM or DROM. */
  predicate FlashAddr(addr: nat) {
    0x400d0000 <= addr < 0x40400000 || 0x3F400000 <= addr < 0x3F800000
  }

  // ----- the file

  /** A segment whose header can be packed. */
  predicate Packs(s: Segment) {
    s.addr < UINT_RANGE && |s.data| < UINT_RANGE
  }

  function SegmentBytes(s: Segment): (r: bytes)
    requires Packs(s)
    ensures |r| == SEG_HEADER + |s.data|
  {
    Le32(s.addr) + Le32(|s.data|) + s.data
  }

  predicate AllPack(out: seq<Piece>) {
    forall i :: 0 <= i < |out| ==> Packs(out[i].seg)
  }

  /** The segments one after the other. */
  function Body(out: seq<Piece>): (r: bytes)
    requires AllPack(out)
    ensures HEADER + |r| == End(out)
  {
    if out == [] then [] else Body(out[..|out| - 1]) + SegmentBytes(out[|out| - 1].seg)
  }

  /** File position behind the pieces. */
  function End(out: seq<Piece>): nat {
    if out == [] then HEADER else End(out[..|out| - 1]) + SEG_HEADER + |out[|out| - 1].seg.data|
  }

  function Pow2(w: nat): nat {
    if w == 0 then 1 else 2 * Pow2(w - 1)
  }

  /** Exclusive or of the last `w` bits. */
  function XorBits(a: nat, b: nat, w: nat): (r: nat)
    ensures r < Pow2(w)
  {
    if w == 0 then 0 else (a + b) % 2 + 2 * XorBits(a / 2, b / 2, w - 1)
  }

  function Xor(a: byte, b: byte): byte {
    assert Pow2(8) == 0x100;
    XorBits(a, b, 8)
  }

  function Checksum(data: bytes, state: byte): byte {
    if data == [] then state else Xor(Checksum(data[..|data| - 1], state), data[|data| - 1])
  }

  const CHECKSUM_MAGIC: byte := 0xef

  function ChecksumAll(out: seq<Piece>): byte {
    if out == [] then CHECKSUM_MAGIC else Checksum(out[|out| - 1].seg.data, ChecksumAll(out[..|out| - 1]))
  }

  // ----- alignment

  lemma Congruent(a: nat, b: nat, n: nat)
    requires a % PAGE == b % PAGE
    ensures (a + n) % PAGE == (b + n) % PAGE
  {
  }

  /** Data bytes a padding segment needs so that the segment behind it lands on its address modulo a page. */
  function AlignmentDataNeeded(pos: nat, addr: nat): (r: nat)
    ensures r == 0 <==> OnPage(pos, addr) || MissesByOneHeader(pos, addr)
    ensures r > 0 ==> OnPage(pos + SEG_HEADER + r, addr) && r < 2 * PAGE
  {
    AlignArithmetic(pos % PAGE, addr % PAGE);
    Congruent(pos, pos % PAGE, SEG_HEADER);
    Congruent(pos, pos % PAGE, 2 * SEG_HEADER);
    var alignPast := addr % PAGE - SEG_HEADER;
    var padLen := PAGE - pos % PAGE + alignPast;
    if padLen == 0 || padLen == PAGE then 0
    else
      var less := padLen - SEG_HEADER;
      var r := if less < 0 then less + PAGE else less;
      Congruent(pos, pos % PAGE, SEG_HEADER + r + SEG_HEADER);
      r
  }

  lemma AlignArithmetic(p: nat, a: nat)
    requires p < PAGE && a < PAGE
    ensures var pad := PAGE - p + a - 8;
            && ((p + 8) % PAGE == a <==> pad == 0 || pad == PAGE)
            && (pad == 8 <==> a < 16 && (p + 16) % PAGE == a)
            && (pad >= 8 ==> (p + 8 + (pad - 8) + 8) % PAGE == a)
            && (pad < 8 ==> (p + 8 + (pad - 8 + PAGE) + 8) % PAGE == a)
  {
  }

  predicate OnPage(pos: nat, addr: nat) {
    (pos + SEG_HEADER) % PAGE == addr % PAGE
  }

  /** Room for the header of a padding segment and nothing else: the one case that ends in a failed assertion. */
  predicate MissesByOneHeader(pos: nat, addr: nat) {
    addr % PAGE < 2 * SEG_HEADER && (pos + 2 * SEG_HEADER) % PAGE == addr % PAGE
  }

  /** Far enough into its last page for the boot loader to map that page. */
  predicate EndsInPage(end: nat) {
    end % PAGE >= 0x24
  }

  /** Zeros added so that a flash segment ends at least 0x24 bytes into its last page. */
  function Overhang(pos: nat, len: nat): (r: nat)
    ensures EndsInPage(pos + SEG_HEADER + len + r) && r <= 0x24
    ensures r > 0 ==> (pos + SEG_HEADER + len) % PAGE < 0x24
  {
    var rest := (pos + SEG_HEADER + len) % PAGE;
    if rest < 0x24 then 0x24 - rest else 0
  }

  /** Data bytes that bring the signed image to the end of a page. */
  function SecurePad(pos: nat): (r: nat)
    ensures r < PAGE && (pos + SEG_HEADER + r + 16 + 112) % PAGE == 0
  {
    (PAGE - (pos + SEG_HEADER) % PAGE - 16 - 112) % PAGE
  }

  /** Seeking to the last byte of a 16-byte block. */
  function AlignGap(pos: nat): (r: nat)
    ensures r < 16 && (pos + r + 1) % 16 == 0
  {
    15 - pos % 16
  }

  /** With the secure padding the checksum takes exactly 16 bytes, so the image and what signing adds fill the page. */
  lemma SecurePadLands(pos: nat)
    ensures var p := pos + SEG_HEADER + SecurePad(pos);
            AlignGap(p) == 15 && (p + AlignGap(p) + 1 + 112) % PAGE == 0
  {
    hide SecurePad, AlignGap;
    var p := pos + SEG_HEADER + SecurePad(pos);
    PageIsBlocks(p + 128);
    WholeBlock(p);
  }

  lemma WholeBlock(p: nat)
    requires (p + 128) % 16 == 0
    ensures AlignGap(p) == 15
  {
  }

  lemma PageIsBlocks(n: nat)
    requires n % PAGE == 0
    ensures n % 16 == 0
  {
    assert n == 16 * (4096 * (n / PAGE));
  }

  // ----- conservation

  function OfKind(out: seq<Piece>, kind: Kind): (r: seq<Segment>)
    ensures |r| <= |out|
  {
    if out == [] then []
    else
      var init, last := OfKind(out[..|out| - 1], kind), out[|out| - 1];
      if last.kind == kind then init + [last.seg] else init
  }

  /**
   `pieces` are `segs` cut up: each segment comes out as consecutive pieces whose addresses follow each other and
   whose data joins up to its own.
   */
  predicate CutOf(pieces: seq<Segment>, segs: seq<Segment>)
    decreases |pieces|
  {
    if pieces == [] || segs == [] then pieces == [] && segs == []
    else
      var p, s := pieces[0], segs[0];
      && p.addr == s.addr && |p.data| <= |s.data| && p.data == s.data[..|p.data|]
      && CutOf(pieces[1..], if |p.data| == |s.data| then segs[1..] else [Rest(s, |p.data|)] + segs[1..])
  }

  function Rest(s: Segment, n: nat): Segment
    requires n <= |s.data|
  {
    Segment(s.addr + n, s.data[n..])
  }

  function First(s: Segment, n: nat): Segment
    requires n <= |s.data|
  {
    Segment(s.addr, s.data[..n])
  }

  lemma {:induction false} CutItself(segs: seq<Segment>)
    ensures CutOf(segs, segs)
    decreases |segs|
  {
    if segs != [] {
      CutItself(segs[1..]);
    }
  }

  lemma {:induction false} CutFirst(s: Segment, b: seq<Segment>, n: nat, segs: seq<Segment>)
    requires CutOf([s] + b, segs) && n < |s.data|
    ensures CutOf([First(s, n), Rest(s, n)] + b, segs)
  {
    var old', new' := [s] + b, [First(s, n), Rest(s, n)] + b;
    assert old'[1..] == b && new'[1..] == [Rest(s, n)] + b && new'[1..][1..] == b;
    var next := [Rest(segs[0], n)] + segs[1..];
    assert next[1..] == segs[1..];
    if |s.data| != |segs[0].data| {
      assert Rest(next[0], |s.data| - n) == Rest(segs[0], |s.data|);
    }
    assert CutOf(new'[1..], next);
  }

  /** Cutting one of the pieces again. */
  lemma {:induction false} CutAgain(a: seq<Segment>, s: Segment, b: seq<Segment>, n: nat, segs: seq<Segment>)
    requires CutOf(a + [s] + b, segs) && n < |s.data|
    ensures CutOf(a + [First(s, n), Rest(s, n)] + b, segs)
    decreases |a|
  {
    var old', new' := a + [s] + b, a + [First(s, n), Rest(s, n)] + b;
    if a == [] {
      assert old' == [s] + b && new' == [First(s, n), Rest(s, n)] + b;
      CutFirst(s, b, n, segs);
    } else {
      assert old'[0] == a[0] && old'[1..] == a[1..] + [s] + b;
      assert new'[0] == a[0] && new'[1..] == a[1..] + [First(s, n), Rest(s, n)] + b;
      CutAgain(a[1..], s, b, n,
               if |a[0].data| == |segs[0].data| then segs[1..] else [Rest(segs[0], |a[0].data|)] + segs[1..]);
    }
  }

  function Joined(g: seq<Segment>): bytes {
    if g == [] then [] else g[0].data + Joined(g[1..])
  }

  function Flat(groups: seq<seq<Segment>>): seq<Segment> {
    if groups == [] then [] else groups[0] + Flat(groups[1..])
  }

  /** A run of pieces that make up one segment. */
  predicate RunOf(g: seq<Segment>, s: Segment) {
    && g != [] && g[0].addr == s.addr && Joined(g) == s.data
    && forall k :: 0 <= k < |g| - 1 ==> g[k + 1].addr == g[k].addr + |g[k].data|
  }

  /** The pieces of a cut fall into one run per segment, in order. */
  lemma {:induction false} CutMeans(pieces: seq<Segment>, segs: seq<Segment>) returns (groups: seq<seq<Segment>>)
    requires CutOf(pieces, segs)
    ensures |groups| == |segs| && Flat(groups) == pieces
    ensures forall i :: 0 <= i < |segs| ==> RunOf(groups[i], segs[i])
    decreases |pieces|
  {
    if pieces == [] {
      groups := [];
      return;
    }
    var p, s := pieces[0], segs[0];
    if |p.data| == |s.data| {
      var rest := CutMeans(pieces[1..], segs[1..]);
      groups := [[p]] + rest;
      assert Joined([p]) == p.data + Joined([]);
      assert groups[1..] == rest;
    } else {
      var next := [Rest(s, |p.data|)] + segs[1..];
      var rest := CutMeans(pieces[1..], next);
      var g := [p] + rest[0];
      groups := [g] + rest[1..];
      LongerRun(p, rest[0], s);
      assert groups[1..] == rest[1..];
      assert Flat(groups) == [p] + (rest[0] + Flat(rest[1..]));
      forall i | 0 <= i < |segs| ensures RunOf(groups[i], segs[i]) {
        if i > 0 {
          assert RunOf(rest[i], next[i]);
        }
      }
    }
  }

  lemma LongerRun(p: Segment, g: seq<Segment>, s: Segment)
    requires |p.data| <= |s.data| && p == First(s, |p.data|) && RunOf(g, Rest(s, |p.data|))
    ensures RunOf([p] + g, s)
  {
    var h := [p] + g;
    assert h[1..] == g;
    assert Joined(h) == s.data[..|p.data|] + s.data[|p.data|..];
    forall k | 0 <= k < |h| - 1 ensures h[k + 1].addr == h[k].addr + |h[k].data| {
      if k > 0 {
        assert g[k].addr == g[k - 1].addr + |g[k - 1].data|;
      }
    }
  }

  // ----- a growing image

  predicate Placed(out: seq<Piece>, i: nat)
    requires i < |out|
  {
    match out[i].kind
    case Flash => OnPage(End(out[..i]), out[i].seg.addr) && EndsInPage(End(out[..i + 1]))
    case Padding => out[i].seg == Segment(0, Zeros(|out[i].seg.data|))
    case Ram => true
  }

  /** Every flash segment is at its place in the file, and all padding is zeros. */
  predicate WellPlaced(out: seq<Piece>) {
    forall i :: 0 <= i < |out| ==> Placed(out, i)
  }

  lemma Grows(out: seq<Piece>, p: Piece)
    ensures (out + [p])[..|out|] == out
    ensures End(out + [p]) == End(out) + SEG_HEADER + |p.seg.data|
    ensures forall k :: OfKind(out + [p], k) == if p.kind == k then OfKind(out, k) + [p.seg] else OfKind(out, k)
    ensures AllPack(out) && Packs(p.seg) ==> AllPack(out + [p]) && Body(out + [p]) == Body(out) + SegmentBytes(p.seg)
    ensures ChecksumAll(out + [p]) == Checksum(p.seg.data, ChecksumAll(out))
  {
    assert (out + [p])[..|out|] == out;
  }

  lemma StaysPlaced(out: seq<Piece>, p: Piece)
    requires WellPlaced(out) && Placed(out + [p], |out|)
    ensures WellPlaced(out + [p])
  {
    hide End, OnPage;
    var more := out + [p];
    forall i | 0 <= i < |more| ensures Placed(more, i) {
      if i < |out| {
        assert Placed(out, i);
        assert more[..i] == out[..i] && more[..i + 1] == out[..i + 1];
      }
    }
  }

  /** A flash segment as written: itself and a few zeros. */
  predicate Extends(p: Segment, s: Segment) {
    && p.addr == s.addr && |s.data| <= |p.data| <= |s.data| + 0x24
    && p.data == s.data + Zeros(|p.data| - |s.data|)
  }

  predicate AllExtend(ps: seq<Segment>, ss: seq<Segment>) {
    |ps| == |ss| && forall i :: 0 <= i < |ps| ==> Extends(ps[i], ss[i])
  }
}
