/**
 What an image file holds, told from its bytes and the addresses of the segments: where each segment stands, and the
 fields of every header.
 */
module EspImageContents {
  import opened Values
  import opened LittleEndian
  import opened EspImage
  import opened EspImageFile

  // ----- segments by address

  /** The flash mappings: DROM and IROM. */
  predicate Mapped(addr: nat) {
    0x3F40_0000 <= addr < 0x3F80_0000 || 0x400D_0000 <= addr < 0x4040_0000
  }

  /** File offset of the data of segment `i`: 24 bytes of image header, and 8 in front of each segment. */
  function DataAt(w: seq<Segment>, i: nat): nat
    requires i <= |w|
  {
    if i == 0 then 32 else DataAt(w, i - 1) + |w[i - 1].data| + 8
  }

  /** Unsplit, at its own address modulo 64 KiB, at most 0x24 zeros behind it, and at least 0x24 into its last page. */
  predicate Standing(w: seq<Segment>, i: nat, s: Segment) {
    && i < |w| && w[i].addr == s.addr
    && |s.data| <= |w[i].data| <= |s.data| + 0x24 && w[i].data[..|s.data|] == s.data
    && (forall k :: |s.data| <= k < |w[i].data| ==> w[i].data[k] == 0)
    && DataAt(w, i) % 0x1_0000 == s.addr % 0x1_0000
    && (DataAt(w, i) + |w[i].data|) % 0x1_0000 >= 0x24
  }

  predicate Increasing(idx: seq<nat>, n: nat) {
    (forall k :: 0 <= k < |idx| ==> idx[k] < n) && (forall k, l :: 0 <= k < l < |idx| ==> idx[k] < idx[l])
  }

  function Picked(w: seq<Segment>, idx: seq<nat>): (r: seq<Segment>)
    requires forall k :: 0 <= k < |idx| ==> idx[k] < |w|
    ensures |r| == |idx|
  {
    seq(|idx|, k requires 0 <= k < |idx| => w[idx[k]])
  }

  /** A flash segment stands unsplit; any other is a run of pieces, in file order, whose addresses follow each other. */
  predicate Stored(w: seq<Segment>, idx: seq<nat>, s: Segment) {
    && Increasing(idx, |w|)
    && if Mapped(s.addr) then |idx| == 1 && Standing(w, idx[0], s) else RunOf(Picked(w, idx), s)
  }

  predicate Nothing(s: Segment) {
    s.addr == 0 && forall k :: 0 <= k < |s.data| ==> s.data[k] == 0
  }

  /** Every part is stored, no piece serves two, and the pieces that serve none are zeros without an address. */
  predicate Holds(w: seq<Segment>, parts: seq<Segment>, places: seq<seq<nat>>) {
    && |places| == |parts|
    && (forall k :: 0 <= k < |parts| ==> Stored(w, places[k], parts[k]))
    && (forall k: nat, l: nat, i: nat :: k < l < |parts| && i in places[k] ==> i !in places[l])
    && (forall i :: 0 <= i < |w| ==> Nothing(w[i]) || Served(places, i))
  }

  predicate Served(places: seq<seq<nat>>, i: nat) {
    exists k :: 0 <= k < |places| && i in places[k]
  }

  // ----- from the layout

  function Segments(out: seq<Piece>): (r: seq<Segment>)
    ensures |r| == |out|
  {
    seq(|out|, i requires 0 <= i < |out| => out[i].seg)
  }

  /** Positions of the pieces of a kind. */
  function Positions(out: seq<Piece>, kind: Kind): (r: seq<nat>)
    ensures Increasing(r, |out|)
    ensures forall i: nat :: i in r <==> i < |out| && out[i].kind == kind
  {
    if out == [] then []
    else
      var init := out[..|out| - 1];
      var r := Positions(init, kind);
      assert forall i: nat :: i in r <==> i < |init| && out[i].kind == kind;
      if out[|out| - 1].kind == kind then r + [|out| - 1] else r
  }

  lemma {:induction false} PositionsPick(out: seq<Piece>, kind: Kind)
    ensures OfKind(out, kind) == Picked(Segments(out), Positions(out, kind))
  {
    if out != [] {
      var init := out[..|out| - 1];
      PositionsPick(init, kind);
      assert Segments(init) == Segments(out)[..|out| - 1];
      assert Picked(Segments(init), Positions(init, kind)) == Picked(Segments(out), Positions(init, kind));
    }
  }

  lemma {:induction false} DataAtEnd(out: seq<Piece>, i: nat)
    requires i <= |out|
    ensures DataAt(Segments(out), i) == End(out[..i]) + 8
    decreases i
  {
    if i > 0 {
      DataAtEnd(out, i - 1);
      assert out[..i][..i - 1] == out[..i - 1];
    }
  }

  lemma {:induction false} FlashStands(out: seq<Piece>, i: nat, s: Segment)
    requires WellPlaced(out) && i < |out| && out[i].kind == Flash && Extends(out[i].seg, s)
    ensures Standing(Segments(out), i, s)
  {
    var p := out[i].seg;
    assert Placed(out, i);
    DataAtEnd(out, i);
    EndBehind(out, i);
    hide End;
    assert p.data[..|s.data|] == s.data;
    forall k | |s.data| <= k < |p.data| ensures p.data[k] == 0 {
      assert p.data[k] == Zeros(|p.data| - |s.data|)[k - |s.data|];
    }
  }

  lemma EndBehind(out: seq<Piece>, i: nat)
    requires i < |out|
    ensures End(out[..i + 1]) == End(out[..i]) + 8 + |out[i].seg.data|
  {
    assert out[..i + 1][..i] == out[..i];
  }

  /** The positions of one run after the other. */
  function Dealt(idx: seq<nat>, groups: seq<seq<Segment>>): (r: seq<seq<nat>>)
    requires |idx| == |Flat(groups)|
    ensures |r| == |groups|
    decreases |groups|
  {
    if groups == [] then []
    else
      var n := |groups[0]|;
      [idx[..n]] + Dealt(idx[n..], groups[1..])
  }

  lemma PickedParts(w: seq<Segment>, idx: seq<nat>, n: nat)
    requires Increasing(idx, |w|) && n <= |idx|
    ensures Increasing(idx[..n], |w|) && Increasing(idx[n..], |w|)
    ensures Picked(w, idx[..n]) == Picked(w, idx)[..n] && Picked(w, idx[n..]) == Picked(w, idx)[n..]
  {
  }

  lemma {:induction false} DealtRuns(w: seq<Segment>, idx: seq<nat>, groups: seq<seq<Segment>>)
    requires Increasing(idx, |w|) && Picked(w, idx) == Flat(groups)
    ensures forall k :: 0 <= k < |groups| ==>
              Increasing(Dealt(idx, groups)[k], |w|) && Picked(w, Dealt(idx, groups)[k]) == groups[k]
    decreases |groups|
  {
    if groups != [] {
      var n := |groups[0]|;
      PickedParts(w, idx, n);
      assert Picked(w, idx)[..n] == groups[0] && Picked(w, idx)[n..] == Flat(groups[1..]);
      DealtRuns(w, idx[n..], groups[1..]);
    }
  }

  /** Exactly the positions of `idx`, none of them twice. */
  predicate Deals(d: seq<seq<nat>>, idx: seq<nat>) {
    && (forall i: nat :: i in idx ==> Served(d, i))
    && (forall k: nat, i: nat :: k < |d| && i in d[k] ==> i in idx)
    && (forall k: nat, l: nat, i: nat :: k < l < |d| && i in d[k] ==> i !in d[l])
  }

  /** No position is dealt twice and none is left over. */
  lemma {:induction false} DealtOnce(idx: seq<nat>, groups: seq<seq<Segment>>)
    requires |idx| == |Flat(groups)| && forall k, l :: 0 <= k < l < |idx| ==> idx[k] < idx[l]
    ensures Deals(Dealt(idx, groups), idx)
    decreases |groups|
  {
    var d := Dealt(idx, groups);
    if groups == [] { return; }
    var n := |groups[0]|;
    var rest := Dealt(idx[n..], groups[1..]);
    DealtOnce(idx[n..], groups[1..]);
    assert d[0] == idx[..n] && d[1..] == rest;
    assert forall x: nat :: x in idx[..n] ==> x !in idx[n..];
    forall i: nat | i in idx ensures Served(d, i) {
      if i in idx[..n] {
        assert i in d[0];
      } else {
        assert i in idx[n..];
        var k :| 0 <= k < |rest| && i in rest[k];
        assert i in d[k + 1];
      }
    }
    forall k: nat, i: nat | k < |d| && i in d[k] ensures i in idx {
      if k > 0 {
        assert i in rest[k - 1];
        assert i in idx[n..];
      }
    }
    forall k: nat, l: nat, i: nat | k < l < |d| && i in d[k] ensures i !in d[l] {
      if k > 0 {
        assert i in rest[k - 1] && d[l] == rest[l - 1];
      } else {
        assert d[l] == rest[l - 1];
      }
    }
  }

  /** Where the flash segments are: one position each. */
  function Singles(idx: seq<nat>): (r: seq<seq<nat>>)
    ensures |r| == |idx|
  {
    seq(|idx|, k requires 0 <= k < |idx| => [idx[k]])
  }

  lemma {:induction false} FlashPlaces(out: seq<Piece>, flash: seq<Segment>)
    requires WellPlaced(out) && AllExtend(OfKind(out, Flash), flash)
    requires forall k :: 0 <= k < |flash| ==> Mapped(flash[k].addr)
    ensures |Positions(out, Flash)| == |flash|
    ensures forall k :: 0 <= k < |flash| ==> Stored(Segments(out), Singles(Positions(out, Flash))[k], flash[k])
  {
    PositionsPick(out, Flash);
    hide Standing, WellPlaced;
    var idx, w := Positions(out, Flash), Segments(out);
    forall k | 0 <= k < |flash| ensures Stored(w, Singles(idx)[k], flash[k]) {
      assert idx[k] in idx;
      assert OfKind(out, Flash)[k] == out[idx[k]].seg;
      assert Extends(OfKind(out, Flash)[k], flash[k]);
      FlashStands(out, idx[k], flash[k]);
    }
  }

  lemma {:induction false} RamPlaces(out: seq<Piece>, ram: seq<Segment>) returns (groups: seq<seq<Segment>>)
    requires CutOf(OfKind(out, Ram), ram) && forall k :: 0 <= k < |ram| ==> !Mapped(ram[k].addr)
    ensures |groups| == |ram| && |Positions(out, Ram)| == |Flat(groups)|
    ensures forall k :: 0 <= k < |ram| ==> Stored(Segments(out), Dealt(Positions(out, Ram), groups)[k], ram[k])
  {
    hide CutOf, RunOf;
    PositionsPick(out, Ram);
    groups := CutMeans(OfKind(out, Ram), ram);
    DealtRuns(Segments(out), Positions(out, Ram), groups);
  }

  /** A good layout holds its segments. */
  lemma {:induction false} LayoutHolds(out: seq<Piece>, flash: seq<Segment>, ram: seq<Segment>)
    returns (places: seq<seq<nat>>)
    requires WellPlaced(out) && AllExtend(OfKind(out, Flash), flash) && CutOf(OfKind(out, Ram), ram)
    requires forall k :: 0 <= k < |flash| ==> Mapped(flash[k].addr)
    requires forall k :: 0 <= k < |ram| ==> !Mapped(ram[k].addr)
    ensures Holds(Segments(out), flash + ram, places)
  {
    hide CutOf, AllExtend, OfKind, Stored, WellPlaced, Placed, Deals, Dealt, Nothing;
    FlashPlaces(out, flash);
    var groups := RamPlaces(out, ram);
    var idx := Positions(out, Ram);
    DealtOnce(idx, groups);
    var a, b := Singles(Positions(out, Flash)), Dealt(idx, groups);
    places := a + b;
    forall i | 0 <= i < |out| ensures Nothing(Segments(out)[i]) || Served(places, i) {
      ServedOrNothing(out, i, a, b);
    }
    forall k: nat, l: nat, i: nat | k < l < |places| && i in places[k] ensures i !in places[l] {
      OnlyOnce(out, a, b, k, l, i);
    }
  }

  lemma {:induction false} ServedOrNothing(out: seq<Piece>, i: nat, a: seq<seq<nat>>, b: seq<seq<nat>>)
    requires WellPlaced(out) && i < |out| && a == Singles(Positions(out, Flash))
    requires Deals(b, Positions(out, Ram))
    ensures Nothing(out[i].seg) || Served(a + b, i)
  {
    hide Positions;
    assert Placed(out, i);
    match out[i].kind
    case Flash =>
      assert i in Positions(out, Flash);
      var k :| 0 <= k < |Positions(out, Flash)| && Positions(out, Flash)[k] == i;
      assert i in (a + b)[k];
    case Ram =>
      assert i in Positions(out, Ram);
      var k :| 0 <= k < |b| && i in b[k];
      assert i in (a + b)[|a| + k];
    case Padding =>
  }

  lemma {:induction false} OnlyOnce(out: seq<Piece>, a: seq<seq<nat>>, b: seq<seq<nat>>, k: nat, l: nat, i: nat)
    requires a == Singles(Positions(out, Flash)) && k < l < |a + b| && i in (a + b)[k]
    requires Deals(b, Positions(out, Ram))
    ensures i !in (a + b)[l]
  {
    hide Positions;
    var f := Positions(out, Flash);
    assert Increasing(f, |out|);
    if k < |a| {
      assert (a + b)[k] == a[k] == [f[k]] && i == f[k] && i in f;
      if l < |a| {
        assert (a + b)[l] == [f[l]];
      } else {
        assert (a + b)[l] == b[l - |a|];
        assert i !in Positions(out, Ram);
      }
    } else {
      assert (a + b)[k] == b[k - |a|] && (a + b)[l] == b[l - |a|];
    }
  }

  // ----- the bytes of the file

  /** Load address, length and data of segment `i`. */
  predicate SegmentShown(file: bytes, w: seq<Segment>, i: nat)
    requires i < |w|
  {
    var at := DataAt(w, i);
    && at >= 8 && at + |w[i].data| <= |file| && Little(file, at - 8, w[i].addr) && Little(file, at - 4, |w[i].data|)
    && file[at..at + |w[i].data|] == w[i].data
  }

  /** The common and the extended header. */
  predicate HeaderShown(file: bytes, cfg: Settings, count: nat) {
    && |file| >= 24 && file[0] == 0xE9 && file[1] == count && file[2] == cfg.flashMode && file[3] == cfg.flashSizeFreq
    && Little(file, 4, cfg.entrypoint) && file[8] == cfg.wpPin
    && file[9] == cfg.clkDrv % 16 + 16 * (cfg.qDrv % 16) && file[10] == cfg.dDrv % 16 + 16 * (cfg.csDrv % 16)
    && file[11] == cfg.hdDrv % 16 + 16 * (cfg.wpDrv % 16)
    && (forall i :: 12 <= i < 23 ==> file[i] == 0) && file[23] == (if cfg.appendDigest then 1 else 0)
  }

  function Bit(n: nat, k: nat): nat {
    if k == 0 then n % 2 else Bit(n / 2, k - 1)
  }

  /** How many bytes have bit `k` set. */
  function CountBits(data: bytes, k: nat): nat {
    if data == [] then 0 else CountBits(data[..|data| - 1], k) + Bit(data[|data| - 1], k)
  }

  function CountAll(w: seq<Segment>, k: nat): nat {
    if w == [] then 0 else CountAll(w[..|w| - 1], k) + CountBits(w[|w| - 1].data, k)
  }

  /**
   The last byte of the image of `end` bytes, a multiple of 16 behind the segments: bit `k` is that of 0xEF, flipped by
   every data byte that has bit `k` set. Between are zeros.
   */
  predicate SumShown(file: bytes, w: seq<Segment>, end: nat) {
    var last := DataAt(w, |w|) - 8;
    && last < end <= last + 16 && end % 16 == 0 && end <= |file| && (forall i :: last <= i < end - 1 ==> file[i] == 0)
    && forall k :: 0 <= k < 8 ==> Bit(file[end - 1], k) == (Bit(0xEF, k) + CountAll(w, k)) % 2
  }

  /** The whole file: headers, segments, checksum, and the digest of all that if there is one. */
  predicate FileShows(file: bytes, cfg: Settings, w: seq<Segment>, end: nat, sha256: bytes -> bytes) {
    && HeaderShown(file, cfg, |w|) && (forall i :: 0 <= i < |w| ==> SegmentShown(file, w, i)) && SumShown(file, w, end)
    && file[end..] == if cfg.appendDigest then sha256(file[..end]) else []
  }

  /** Some arrangement of the segments, each of them once. */
  ghost predicate HoldsAll(w: seq<Segment>, segments: seq<Segment>) {
    exists parts, places :: Holds(w, parts, places) && multiset(parts) == multiset(segments)
  }

  /** An image of the segments: of `end` bytes before the digest, 112 short of whole pages if it is to be signed. */
  ghost predicate FileHolds(file: bytes, cfg: Settings, segments: seq<Segment>, sha256: bytes -> bytes) {
    exists w, end :: FileShows(file, cfg, w, end, sha256) && HoldsAll(w, segments)
                     && (cfg.securePad ==> (end + 112) % 0x1_0000 == 0)
  }

  lemma {:induction false} BitsOfXor(a: nat, b: nat, w: nat, k: nat)
    requires k < w
    ensures Bit(XorBits(a, b, w), k) == (Bit(a, k) + Bit(b, k)) % 2
    decreases w
  {
    if k > 0 {
      BitsOfXor(a / 2, b / 2, w - 1, k - 1);
    }
  }

  lemma {:induction false} BitIsBit(n: nat, k: nat)
    ensures Bit(n, k) < 2
    decreases k
  {
    if k > 0 { BitIsBit(n / 2, k - 1); }
  }

  lemma {:induction false} BitsOfChecksum(data: bytes, state: byte, k: nat)
    requires k < 8
    ensures Bit(Checksum(data, state), k) == (Bit(state, k) + CountBits(data, k)) % 2
  {
    hide Bit, XorBits;
    BitIsBit(state, k);
    if data != [] {
      var init, last := data[..|data| - 1], data[|data| - 1];
      BitsOfChecksum(init, state, k);
      BitsOfXor(Checksum(init, state), last, 8, k);
    }
  }

  lemma {:induction false} BitsOfAll(out: seq<Piece>, k: nat)
    requires k < 8
    ensures Bit(ChecksumAll(out), k) == (Bit(0xEF, k) + CountAll(Segments(out), k)) % 2
  {
    hide Bit, Checksum, CountBits;
    BitIsBit(0xEF, k);
    if out != [] {
      var init, last := out[..|out| - 1], out[|out| - 1].seg;
      BitsOfAll(init, k);
      BitsOfChecksum(last.data, ChecksumAll(init), k);
      assert Segments(out)[..|out| - 1] == Segments(init);
    }
  }

  lemma {:induction false} SegmentInBody(out: seq<Piece>, i: nat)
    requires AllPack(out) && i < |out|
    ensures var at, s := End(out[..i]) - 24, out[i].seg;
            at >= 0 && at + 8 + |s.data| <= |Body(out)| && Body(out)[at..at + 8 + |s.data|] == SegmentBytes(s)
    decreases |out|
  {
    hide SegmentBytes;
    EndAtLeast(out[..i]);
    var init := out[..|out| - 1];
    if i < |init| {
      SegmentInBody(init, i);
      assert init[..i] == out[..i];
      var at, s := End(out[..i]) - 24, out[i].seg;
      assert Body(out)[at..at + 8 + |s.data|] == Body(init)[at..at + 8 + |s.data|];
    }
  }

  lemma {:induction false} EndAtLeast(out: seq<Piece>)
    ensures End(out) >= 24
  {
    if out != [] { EndAtLeast(out[..|out| - 1]); }
  }

  lemma {:induction false} SegmentBytesShow(file: bytes, w: seq<Segment>, i: nat)
    requires i < |w| && Packs(w[i]) && DataAt(w, i) >= 8 && DataAt(w, i) + |w[i].data| <= |file|
    requires file[DataAt(w, i) - 8..DataAt(w, i) + |w[i].data|] == SegmentBytes(w[i])
    ensures SegmentShown(file, w, i)
  {
    hide DataAt, Le32, Little;
    var at, s := DataAt(w, i), w[i];
    var x := file[at - 8..at + |s.data|];
    assert file[at - 8..at - 4] == x[..4] == Le32(s.addr);
    assert file[at - 4..at] == x[4..8] == Le32(|s.data|);
    WordShows(file, at - 8, s.addr);
    WordShows(file, at - 4, |s.data|);
    assert file[at..at + |s.data|] == x[8..] == s.data;
  }

  lemma HeaderShows(cfg: Settings, count: byte, rest: bytes)
    ensures HeaderShown(Header(cfg, count) + rest, cfg, count)
  {
    var h := Header(cfg, count);
    forall i | 12 <= i < 23 ensures h[i] == 0 {
      assert h[i] == Zeros(11)[i - 12];
    }
    assert h[4..8] == Le32(cfg.entrypoint);
    assert h[4] == h[4..8][0] && h[5] == h[4..8][1] && h[6] == h[4..8][2] && h[7] == h[4..8][3];
  }

  /** An image file shows its pieces. */
  lemma {:induction false} ImageShows(cfg: Settings, out: seq<Piece>, sha256: bytes -> bytes)
    requires AllPack(out) && |out| < 0x100
    ensures FileShows(ImageFile(cfg, out, sha256), cfg, Segments(out), |Image(cfg, out)|, sha256)
  {
    hide Header, Body, End, ChecksumAll, SegmentShown, SumShown, HeaderShown, DataAt, Segments, AlignGap, AllPack;
    var h, b, n := Header(cfg, |out|), Body(out), End(out);
    var tail := Zeros(AlignGap(n)) + [ChecksumAll(out)];
    var image := Image(cfg, out);
    var file := ImageFile(cfg, out, sha256);
    var digest := if cfg.appendDigest then sha256(image) else [];
    ImageParts(h, b, tail, digest);
    assert image == h + b + tail && file == h + b + tail + digest;
    HeaderShows(cfg, |out|, b + tail + digest);
    forall i | 0 <= i < |out| ensures SegmentShown(file, Segments(out), i) {
      OneShows(out, i, h, tail + digest, file);
    }
    SumShows(out, h + b, tail, digest);
  }

  lemma ImageParts(h: bytes, b: bytes, tail: bytes, digest: bytes)
    ensures var file := h + b + tail + digest;
            && file == h + (b + tail + digest) && file == h + b + (tail + digest)
            && file[|h + b + tail|..] == digest && file[..|h + b + tail|] == h + b + tail
  {
  }

  lemma {:induction false} OneShows(out: seq<Piece>, i: nat, h: bytes, rest: bytes, file: bytes)
    requires AllPack(out) && i < |out| && |h| == 24 && file == h + Body(out) + rest
    ensures SegmentShown(file, Segments(out), i)
  {
    hide Body, End, SegmentBytes, DataAt, SegmentShown;
    SegmentInBody(out, i);
    DataAtEnd(out, i);
    var at, s, b := End(out[..i]), out[i].seg, Body(out);
    Within(h, b, rest, at - 24, 8 + |s.data|);
    SegmentBytesShow(file, Segments(out), i);
  }

  lemma Within(h: bytes, b: bytes, rest: bytes, at: nat, n: nat)
    requires at + n <= |b|
    ensures (h + b + rest)[|h| + at..|h| + at + n] == b[at..at + n]
  {
  }

  lemma {:induction false} SumShows(out: seq<Piece>, front: bytes, tail: bytes, digest: bytes)
    requires |front| == End(out) && tail == Zeros(AlignGap(End(out))) + [ChecksumAll(out)]
    ensures SumShown(front + tail + digest, Segments(out), |front + tail|)
  {
    hide End, ChecksumAll, DataAt, CountAll, Bit;
    var n, file := End(out), front + tail + digest;
    DataAtEnd(out, |out|);
    assert out[..|out|] == out;
    var end := |front + tail|;
    assert file[end - 1] == ChecksumAll(out);
    forall i | n <= i < end - 1 ensures file[i] == 0 {
      assert file[i] == Zeros(AlignGap(n))[i - n];
    }
    forall k | 0 <= k < 8 ensures Bit(file[end - 1], k) == (Bit(0xEF, k) + CountAll(Segments(out), k)) % 2 {
      BitsOfAll(out, k);
    }
  }
}
