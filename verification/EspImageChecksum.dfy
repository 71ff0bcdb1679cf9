/**
 The checksum does not depend on the layout: splitting RAM segments, reordering, and padding with zeros leave it what
 it was for the segments as given.
 */
module EspImageChecksum {
  import opened Values
  import opened LittleEndian
  import opened StableSort
  import opened EspImage
  import opened EspImageLayout
  import opened EspImageFile
  import opened EspImageSave
  import opened EspImageLoad

  // ----- exclusive or

  lemma {:induction false} BitsComm(a: nat, b: nat, w: nat)
    ensures XorBits(a, b, w) == XorBits(b, a, w)
  {
    if w > 0 {
      BitsComm(a / 2, b / 2, w - 1);
    }
  }

  lemma {:induction false} BitsZero(a: nat, w: nat)
    requires a < Pow2(w)
    ensures XorBits(a, 0, w) == a
  {
    if w > 0 {
      BitsZero(a / 2, w - 1);
    }
  }

  lemma BitsStep(a: nat, b: nat, w: nat)
    requires w > 0
    ensures XorBits(a, b, w) % 2 == (a + b) % 2 && XorBits(a, b, w) / 2 == XorBits(a / 2, b / 2, w - 1)
  {
  }

  lemma {:induction false} BitsAssoc(a: nat, b: nat, c: nat, w: nat)
    ensures XorBits(XorBits(a, b, w), c, w) == XorBits(a, XorBits(b, c, w), w)
  {
    hide XorBits;
    if w > 0 {
      var x, y := XorBits(a, b, w), XorBits(b, c, w);
      BitsAssoc(a / 2, b / 2, c / 2, w - 1);
      BitsStep(a, b, w);
      BitsStep(b, c, w);
      Parity(x, a + b, c);
      Parity(y, b + c, a);
      BitsOf(x, c, w);
      BitsOf(a, y, w);
    }
  }

  lemma BitsOf(a: nat, b: nat, w: nat)
    requires w > 0
    ensures XorBits(a, b, w) == (a + b) % 2 + 2 * XorBits(a / 2, b / 2, w - 1)
  {
  }

  lemma Parity(x: nat, y: nat, z: nat)
    requires x % 2 == y % 2
    ensures (x + z) % 2 == (y + z) % 2
  {
  }

  lemma XorLaws(a: byte, b: byte, c: byte)
    ensures Xor(a, b) == Xor(b, a) && Xor(Xor(a, b), c) == Xor(a, Xor(b, c)) && Xor(a, 0) == a
  {
    assert Pow2(8) == 0x100;
    BitsComm(a, b, 8);
    BitsAssoc(a, b, c, 8);
    BitsZero(a, 8);
  }

  /** The middle two of four may change places. */
  lemma XorSwap(a: byte, b: byte, c: byte, d: byte)
    ensures Xor(Xor(a, b), Xor(c, d)) == Xor(Xor(a, c), Xor(b, d))
  {
    hide Xor;
    XorLaws(a, b, Xor(c, d));
    XorLaws(b, c, d);
    XorLaws(c, b, d);
    XorLaws(a, c, Xor(b, d));
  }

  // ----- sums

  /** All bytes together. */
  function Sum(data: bytes): byte {
    Checksum(data, 0)
  }

  lemma {:induction false} ChecksumFrom(data: bytes, s: byte)
    ensures Checksum(data, s) == Xor(s, Sum(data))
  {
    hide Xor;
    if data == [] {
      XorLaws(s, 0, 0);
    } else {
      var init, last := data[..|data| - 1], data[|data| - 1];
      ChecksumFrom(init, s);
      XorLaws(s, Sum(init), last);
    }
  }

  lemma {:induction false} SumJoin(a: bytes, b: bytes)
    ensures Sum(a + b) == Xor(Sum(a), Sum(b))
  {
    hide Xor;
    if b == [] {
      assert a + b == a;
      XorLaws(Sum(a), 0, 0);
    } else {
      var init, last := b[..|b| - 1], b[|b| - 1];
      SumJoin(a, init);
      assert (a + b)[..|a + b| - 1] == a + init;
      XorLaws(Sum(a), Sum(init), last);
    }
  }

  lemma {:induction false} SumZeros(n: nat)
    ensures Sum(Zeros(n)) == 0
  {
    hide Xor;
    if n > 0 {
      SumZeros(n - 1);
      assert Zeros(n)[..n - 1] == Zeros(n - 1);
      XorLaws(0, 0, 0);
    }
  }

  function Total(s: seq<Segment>): byte {
    if s == [] then 0 else Xor(Total(s[..|s| - 1]), Sum(s[|s| - 1].data))
  }

  lemma TotalMore(s: seq<Segment>, x: Segment)
    ensures Total(s + [x]) == Xor(Total(s), Sum(x.data))
  {
    hide Xor, Sum;
    assert (s + [x])[..|s|] == s;
  }

  lemma {:induction false} TotalJoin(a: seq<Segment>, b: seq<Segment>)
    ensures Total(a + b) == Xor(Total(a), Total(b))
  {
    hide Xor, Sum;
    if b == [] {
      assert a + b == a;
      XorLaws(Total(a), 0, 0);
    } else {
      var init, last := b[..|b| - 1], b[|b| - 1];
      TotalJoin(a, init);
      assert (a + b)[..|a + b| - 1] == a + init;
      XorLaws(Total(a), Total(init), Sum(last.data));
    }
  }

  lemma {:induction false} SumOfIsTotal(s: seq<Segment>)
    ensures SumOf(s) == Xor(CHECKSUM_MAGIC, Total(s))
  {
    hide Xor, Sum, Checksum;
    if s == [] {
      XorLaws(CHECKSUM_MAGIC, 0, 0);
    } else {
      var init, last := s[..|s| - 1], s[|s| - 1];
      SumOfIsTotal(init);
      ChecksumFrom(last.data, SumOf(init));
      XorLaws(CHECKSUM_MAGIC, Total(init), Sum(last.data));
    }
  }

  // ----- sorting and selecting

  lemma {:induction false} TotalInsert(s: seq<Segment>, x: Segment)
    ensures Total(Insert(s, x, Addr)) == Xor(Total(s), Sum(x.data))
  {
    hide Xor, Sum;
    TotalMore(s, x);
    if s != [] && s[|s| - 1].addr > x.addr {
      var init, last := s[..|s| - 1], s[|s| - 1];
      TotalInsert(init, x);
      TotalMore(Insert(init, x, Addr), last);
      XorLaws(Total(init), Sum(x.data), Sum(last.data));
      XorLaws(Sum(x.data), Sum(last.data), 0);
      XorLaws(Total(init), Sum(last.data), Sum(x.data));
    }
  }

  lemma {:induction false} TotalSorted(s: seq<Segment>)
    ensures Total(Sorted(s, Addr)) == Total(s)
  {
    hide Xor, Sum;
    if s != [] {
      TotalSorted(s[..|s| - 1]);
      TotalInsert(Sorted(s[..|s| - 1], Addr), s[|s| - 1]);
    }
  }

  lemma {:induction false} TotalSelect(s: seq<Segment>)
    ensures Xor(Total(Select(s, true)), Total(Select(s, false))) == Total(s)
  {
    hide Xor, Sum;
    if s == [] {
      XorLaws(0, 0, 0);
    } else {
      var init, last := s[..|s| - 1], s[|s| - 1];
      var f, r, x := Total(Select(init, true)), Total(Select(init, false)), Sum(last.data);
      TotalSelect(init);
      TotalMore(Select(init, true), last);
      TotalMore(Select(init, false), last);
      XorLaws(f, r, x);
      XorSwap(f, x, r, 0);
      XorLaws(r, 0, 0);
      XorLaws(x, 0, 0);
    }
  }

  // ----- the layout

  lemma {:induction false} CutTotal(pieces: seq<Segment>, segs: seq<Segment>)
    requires CutOf(pieces, segs)
    ensures Total(pieces) == Total(segs)
    decreases |pieces|
  {
    hide Xor, Sum;
    if pieces == [] {
      return;
    }
    var p, s := pieces[0], segs[0];
    HeadTotal(pieces);
    HeadTotal(segs);
    if |p.data| == |s.data| {
      assert p.data == s.data;
      CutTotal(pieces[1..], segs[1..]);
    } else {
      var rest := Rest(s, |p.data|);
      var next := [rest] + segs[1..];
      CutTotal(pieces[1..], next);
      HeadTotal(next);
      assert next[1..] == segs[1..];
      assert s.data == p.data + rest.data;
      SumJoin(p.data, rest.data);
      XorLaws(Sum(p.data), Sum(rest.data), Total(segs[1..]));
    }
  }

  lemma HeadTotal(s: seq<Segment>)
    requires s != []
    ensures Total(s) == Xor(Sum(s[0].data), Total(s[1..]))
  {
    hide Xor, Sum;
    assert s == [s[0]] + s[1..];
    TotalJoin([s[0]], s[1..]);
    TotalMore([], s[0]);
    assert [] + [s[0]] == [s[0]];
    XorLaws(0, Sum(s[0].data), 0);
    XorLaws(Sum(s[0].data), 0, 0);
  }

  lemma {:induction false} ExtendTotal(ps: seq<Segment>, ss: seq<Segment>)
    requires AllExtend(ps, ss)
    ensures Total(ps) == Total(ss)
  {
    hide Xor, Sum;
    if ps != [] {
      var p, s := ps[|ps| - 1], ss[|ss| - 1];
      assert Extends(p, s);
      ExtendTotal(ps[..|ps| - 1], ss[..|ss| - 1]);
      SumJoin(s.data, Zeros(|p.data| - |s.data|));
      SumZeros(|p.data| - |s.data|);
      XorLaws(Sum(s.data), 0, 0);
    }
  }

  lemma {:induction false} PiecesTotal(out: seq<Piece>)
    requires WellPlaced(out)
    ensures ChecksumAll(out) == Xor(CHECKSUM_MAGIC, Xor(Total(OfKind(out, Flash)), Total(OfKind(out, Ram))))
  {
    hide Xor, Sum, Checksum, OnPage, EndsInPage, End;
    if out == [] {
      XorLaws(CHECKSUM_MAGIC, 0, 0);
      XorLaws(0, 0, 0);
      return;
    }
    var init, last := out[..|out| - 1], out[|out| - 1];
    InitPlaced(out);
    PiecesTotal(init);
    var f, r, x := Total(OfKind(init, Flash)), Total(OfKind(init, Ram)), Sum(last.seg.data);
    ChecksumFrom(last.seg.data, ChecksumAll(init));
    XorLaws(CHECKSUM_MAGIC, Xor(f, r), x);
    TotalMore(OfKind(init, Flash), last.seg);
    TotalMore(OfKind(init, Ram), last.seg);
    match last.kind
    case Flash =>
      XorSwap(f, x, r, 0);
      XorLaws(r, 0, 0);
      XorLaws(x, 0, 0);
    case Ram =>
      XorLaws(f, r, x);
    case Padding =>
      assert Placed(out, |out| - 1);
      SumZeros(|last.seg.data|);
      XorLaws(Xor(f, r), 0, 0);
  }

  lemma InitPlaced(out: seq<Piece>)
    requires WellPlaced(out) && out != []
    ensures WellPlaced(out[..|out| - 1])
  {
    hide OnPage, EndsInPage, End;
    var init := out[..|out| - 1];
    forall i | 0 <= i < |init| ensures Placed(init, i) {
      assert Placed(out, i);
      assert init[..i] == out[..i] && init[..i + 1] == out[..i + 1];
    }
  }

  /** The checksum in a saved image is calculate_checksum() of the segments given, in their own order. */
  lemma ChecksumIgnoresLayout(segments: seq<Segment>, out: seq<Piece>)
    requires LaidOut(out, FlashOf(segments), RamOf(segments))
    ensures ChecksumAll(out) == SumOf(segments)
  {
    hide Xor, Total, SumOf, ChecksumAll, CutOf, AllExtend, WellPlaced, OfKind, Select, Sorted;
    PiecesTotal(out);
    ExtendTotal(OfKind(out, Flash), FlashOf(segments));
    CutTotal(OfKind(out, Ram), RamOf(segments));
    TotalSelect(Sorted(segments, Addr));
    TotalSorted(segments);
    SumOfIsTotal(segments);
  }
}
