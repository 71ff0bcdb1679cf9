/**
 The binary partition table told from its bytes: what each field of an entry is, what a table looks like, and which
 files hold one.
 */
module PartitionBytes {
  import opened Values
  import opened LittleEndian
  import opened Sequences
  import opened Partitions
  import opened PartitionBinary

  // ----- what is written

  /** The entry at `at`, with bit 0 of the flags for encryption. */
  predicate EntryShown(b: bytes, at: nat, p: Partition) {
    && at + 32 <= |b| && b[at] == 0xAA && b[at + 1] == 0x50 && b[at + 2] == p.ptype && b[at + 3] == p.subtype
    && p.offset >= 0 && Little(b, at + 4, p.offset) && p.size >= 0 && Little(b, at + 8, p.size)
    && (forall k :: 0 <= k < 16 && k < |p.name| ==> b[at + 12 + k] == p.name[k])
    && (forall k :: at + 12 + |p.name| <= k < at + 28 ==> b[k] == 0)
    && b[at + 28] == (if p.encrypted then 1 else 0) && b[at + 29] == b[at + 30] == b[at + 31] == 0
  }

  predicate DigestShown(b: bytes, at: nat, digest: bytes) {
    && at + 32 <= |b| && b[at] == b[at + 1] == 0xEB && b[at + 16..at + 32] == digest
  }

  predicate Erased(b: bytes, from: nat, to: nat) {
    to <= |b| && forall k :: from <= k < to ==> b[k] == 0xFF
  }

  /** 3072 bytes: the entries, the digest of their bytes if there is one, and 0xFF. */
  predicate TableShown(b: bytes, t: seq<Partition>, md5sum: bool, md5: bytes -> bytes) {
    var n := 32 * |t|;
    && |b| == 3072 && n + 32 <= 3072 && (forall i :: 0 <= i < |t| ==> EntryShown(b, 32 * i, t[i]))
    && if md5sum then
         && n + 64 <= 3072 && DigestShown(b, n, md5(b[..n])) && Erased(b, n + 2, n + 16) && Erased(b, n + 32, 3072)
       else Erased(b, n, 3072)
  }

  lemma NameShows(name: bytes, k: nat)
    requires k < 16
    ensures NameField(name)[k] == if k < |name| then name[k] else 0
  {
  }

  /** The parts of an entry, in place. */
  lemma EntryParts(b: bytes, at: nat, p: Partition)
    requires Packs(p) && at + 32 <= |b| && b[at..at + 32] == EntryBytes(p)
    ensures b[at] == 0xAA && b[at + 1] == 0x50 && b[at + 2] == p.ptype && b[at + 3] == p.subtype
    ensures b[at + 4..at + 8] == Le32(p.offset) && b[at + 8..at + 12] == Le32(p.size)
    ensures b[at + 12..at + 28] == NameField(p.name) && b[at + 28..at + 32] == Le32(if p.encrypted then 1 else 0)
  {
    hide Le32, NameField;
    var d := b[at..at + 32];
    SliceOfSlice(b, at, 32, 4, 8);
    SliceOfSlice(b, at, 32, 8, 12);
    SliceOfSlice(b, at, 32, 12, 28);
    SliceOfSlice(b, at, 32, 28, 32);
    assert d[0] == b[at] && d[1] == b[at + 1] && d[2] == b[at + 2] && d[3] == b[at + 3];
  }

  lemma {:induction false} EntryShows(b: bytes, at: nat, p: Partition)
    requires Packs(p) && at + 32 <= |b| && b[at..at + 32] == EntryBytes(p)
    ensures EntryShown(b, at, p)
  {
    hide Le32, Little, NameField, EntryBytes;
    var flags := if p.encrypted then 1 else 0;
    EntryParts(b, at, p);
    WordShows(b, at + 4, p.offset);
    WordShows(b, at + 8, p.size);
    WordShows(b, at + 28, flags);
    FlagShows(b, at + 28, flags);
    var name := b[at + 12..at + 28];
    forall k | 0 <= k < 16 && k < |p.name| ensures b[at + 12 + k] == p.name[k] {
      NameShows(p.name, k);
      assert name[k] == b[at + 12 + k];
    }
    forall k | at + 12 + |p.name| <= k < at + 28 ensures b[k] == 0 {
      NameShows(p.name, k - at - 12);
      assert name[k - at - 12] == b[k];
    }
  }

  lemma FlagShows(b: bytes, at: nat, flags: nat)
    requires Little(b, at, flags) && flags < 2
    ensures b[at] == flags && b[at + 1] == b[at + 2] == b[at + 3] == 0
  {
  }

  /** An accepted table is written as shown. */
  lemma {:induction false} ToBinaryShows(t: seq<Partition>, md5sum: bool, md5: bytes -> bytes)
    requires (forall s :: |md5(s)| == 16) && ToBinary(t, md5sum, md5).Bytes?
    ensures TableShown(ToBinary(t, md5sum, md5).b, t, md5sum, md5)
  {
    hide Entries, EntryShown;
    var b, e, n := ToBinary(t, md5sum, md5).b, Entries(t), 32 * |t|;
    var row := if md5sum then Md5Row(md5(e)) else [];
    var tail := Fill(3072 - |e + row|);
    assert b == e + row + tail;
    forall i | 0 <= i < |t| ensures EntryShown(b, 32 * i, t[i]) {
      EntryAt(t, i);
      assert b[32 * i..32 * i + 32] == e[32 * i..32 * i + 32];
      EntryShows(b, 32 * i, t[i]);
    }
    assert b[..n] == e;
    if md5sum {
      RowShows(b, n, md5(e));
      assert Erased(b, n + 32, 3072) by {
        forall k | n + 32 <= k < 3072 ensures b[k] == 0xFF {
          assert b[k] == tail[k - n - 32];
        }
      }
    } else {
      forall k | n <= k < 3072 ensures b[k] == 0xFF {
        assert b[k] == tail[k - n];
      }
    }
  }

  lemma RowShows(b: bytes, n: nat, digest: bytes)
    requires |digest| == 16 && n + 32 <= |b| && b[n..n + 32] == Md5Row(digest)
    ensures DigestShown(b, n, digest) && Erased(b, n + 2, n + 16)
  {
    var d := b[n..n + 32];
    assert d[0] == b[n] && d[1] == b[n + 1] && d[16..32] == b[n + 16..n + 32];
    forall k | n + 2 <= k < n + 16 ensures b[k] == 0xFF {
      assert d[k - n] == b[k] && d[k - n] == Fill(14)[k - n - 2];
    }
  }

  // ----- what is read

  /** An entry read from any 32 bytes: the name ends at the first NUL, and only bit 0 of the flags matters. */
  predicate EntryMeans(b: bytes, at: nat, p: Partition) {
    && at + 32 <= |b| && b[at] == 0xAA && b[at + 1] == 0x50 && p.ptype == b[at + 2] && p.subtype == b[at + 3]
    && p.offset >= 0 && Little(b, at + 4, p.offset) && p.size >= 0 && Little(b, at + 8, p.size)
    && |p.name| <= 16 && p.name == b[at + 12..at + 12 + |p.name|] && NulFree(p.name)
    && (|p.name| < 16 ==> b[at + 12 + |p.name|] == 0)
    && p.encrypted == (b[at + 28] % 2 == 1)
  }

  lemma {:induction false} CTextEnds(s: bytes)
    ensures s[..|CText(s)|] == CText(s) && (|CText(s)| < |s| ==> s[|CText(s)|] == 0)
  {
    if s != [] && s[0] != 0 {
      CTextEnds(s[1..]);
      assert s[..|CText(s)|] == [s[0]] + s[1..][..|CText(s[1..])|];
    }
  }

  lemma {:induction false} CTextOnly(s: bytes, n: nat)
    requires n <= |s| && NulFree(s[..n]) && (n < |s| ==> s[n] == 0)
    ensures CText(s) == s[..n]
    decreases n
  {
    if n > 0 {
      assert s[..n][0] == s[0];
      assert s[1..][..n - 1] == s[..n][1..];
      CTextOnly(s[1..], n - 1);
      assert [s[0]] + s[..n][1..] == s[..n];
    }
  }

  lemma FlagBit(s: bytes)
    requires |s| == 4
    ensures Read32(s) % 2 == s[0] % 2
  {
  }

  lemma {:induction false} EntryIsRead(b: bytes, at: nat, p: Partition)
    requires at + 32 <= |b|
    ensures EntryMeans(b, at, p) <==> b[at] == 0xAA && b[at + 1] == 0x50 && p == ReadEntry(b[at..at + 32])
  {
    hide CText, Read32, Little, NulFree;
    var d := b[at..at + 32];
    var name := b[at + 12..at + 28];
    assert d[2] == b[at + 2] && d[3] == b[at + 3];
    SliceOfSlice(b, at, 32, 4, 8);
    SliceOfSlice(b, at, 32, 8, 12);
    SliceOfSlice(b, at, 32, 12, 28);
    SliceOfSlice(b, at, 32, 28, 32);
    FlagBit(d[28..32]);
    CTextEnds(name);
    if EntryMeans(b, at, p) {
      LittleReads(b, at + 4, p.offset);
      LittleReads(b, at + 8, p.size);
      SliceOfSlice(b, at + 12, 16, 0, |p.name|);
      CTextOnly(name, |p.name|);
    } else {
      LittleIsRead(b, at + 4, Read32(d[4..8]));
      LittleIsRead(b, at + 8, Read32(d[8..12]));
      SliceOfSlice(b, at + 12, 16, 0, |CText(name)|);
    }
  }

  lemma LittleReads(b: bytes, at: nat, n: nat)
    requires Little(b, at, n)
    ensures n < 0x1_0000_0000 && Read32(b[at..at + 4]) == n
  {
    assert n < 0x1_0000_0000;
    LittleIsRead(b, at, n);
  }

  /** How many of the rows are entries. */
  function Count(kinds: seq<bool>): nat {
    if kinds == [] then 0 else Count(kinds[..|kinds| - 1]) + if kinds[|kinds| - 1] then 1 else 0
  }

  /** The bytes of those rows that are entries. */
  function Hashed(b: bytes, kinds: seq<bool>): bytes
    requires 32 * |kinds| <= |b|
  {
    if kinds == [] then []
    else
      var n := |kinds| - 1;
      Hashed(b, kinds[..n]) + if kinds[n] then b[32 * n..32 * n + 32] else []
  }

  /** A row is the next entry of the table, or the right digest of the entries before it. */
  predicate RowMeans(b: bytes, kinds: seq<bool>, i: nat, t: seq<Partition>, md5sum: bool, md5: bytes -> bytes)
    requires i < |kinds| && 32 * |kinds| <= |b|
  {
    if kinds[i] then Count(kinds[..i]) < |t| && EntryMeans(b, 32 * i, t[Count(kinds[..i])])
    else md5sum && DigestShown(b, 32 * i, md5(Hashed(b, kinds[..i])))
  }

  /** The first rows of a file, and the entries among them. */
  predicate RowsMean(b: bytes, kinds: seq<bool>, t: seq<Partition>, md5sum: bool, md5: bytes -> bytes) {
    && 32 * |kinds| <= |b| && |t| == Count(kinds)
    && forall i :: 0 <= i < |kinds| ==> RowMeans(b, kinds, i, t, md5sum, md5)
  }

  lemma {:induction false} CountGrows(kinds: seq<bool>, i: nat)
    requires i < |kinds|
    ensures Count(kinds[..i]) <= Count(kinds) && (kinds[i] ==> Count(kinds[..i]) < Count(kinds))
    decreases |kinds|
  {
    var init := kinds[..|kinds| - 1];
    if i < |init| {
      CountGrows(init, i);
      assert init[..i] == kinds[..i];
    } else {
      assert init == kinds[..i];
    }
  }

  /** All but the last row. */
  lemma {:induction false} RowsFewer(b: bytes, kinds: seq<bool>, t: seq<Partition>, md5sum: bool, md5: bytes -> bytes)
    requires RowsMean(b, kinds, t, md5sum, md5) && kinds != []
    ensures var n := |kinds| - 1;
            RowsMean(b, kinds[..n], t[..Count(kinds[..n])], md5sum, md5)
  {
    hide EntryMeans, DigestShown, Hashed;
    var n := |kinds| - 1;
    var init := kinds[..n];
    var u := t[..Count(init)];
    forall i | 0 <= i < n ensures RowMeans(b, init, i, u, md5sum, md5) {
      assert RowMeans(b, kinds, i, t, md5sum, md5);
      assert init[..i] == kinds[..i] && init[i] == kinds[i];
      CountGrows(init, i);
    }
  }

  /** A row that is none of the three. */
  predicate Unknown(b: bytes, o: nat, md5sum: bool) {
    && o + 32 <= |b| && !Erased(b, o, o + 32) && !(b[o] == 0xAA && b[o + 1] == 0x50)
    && !(md5sum && b[o] == b[o + 1] == 0xEB)
  }

  lemma DecodesRow(b: bytes, o: nat, hashed: bytes, md5sum: bool, md5: bytes -> bytes, t: seq<Partition>)
    requires o + 32 <= |b|
    ensures var r := Behind(t, Decode(b, o, hashed, md5sum, md5));
            && (forall p :: EntryMeans(b, o, p) ==>
                  r == Behind(t + [p], Decode(b, o + 32, hashed + b[o..o + 32], md5sum, md5)))
            && (md5sum && DigestShown(b, o, md5(hashed)) ==> r == Behind(t, Decode(b, o + 32, hashed, md5sum, md5)))
            && (Erased(b, o, o + 32) ==> r == Table(t))
            && (md5sum && b[o] == b[o + 1] == 0xEB && !DigestShown(b, o, md5(hashed)) ==> r == BadDigest)
            && (Unknown(b, o, md5sum) ==> r == PartitionBinary.BadMagic)
  {
    hide Decode, ReadEntry, EntryMeans;
    DecodeStep(b, o, hashed, md5sum, md5, t);
    RowStart(b, o);
    forall p | EntryMeans(b, o, p)
      ensures Behind(t, Decode(b, o, hashed, md5sum, md5))
           == Behind(t + [p], Decode(b, o + 32, hashed + b[o..o + 32], md5sum, md5))
    {
      EntryIsRead(b, o, p);
    }
  }

  lemma RowStart(b: bytes, o: nat)
    requires o + 32 <= |b|
    ensures var d := b[o..o + 32];
            && d[16..] == b[o + 16..o + 32]
            && (d[..2] == [0xAA, 0x50] <==> b[o] == 0xAA && b[o + 1] == 0x50)
            && (d[..2] == [0xEB, 0xEB] <==> b[o] == 0xEB && b[o + 1] == 0xEB)
            && (d == Fill(32) <==> Erased(b, o, o + 32))
            && (b[o] != 0xFF ==> !Erased(b, o, o + 32))
  {
    var d := b[o..o + 32];
    assert d[0] == b[o] && d[1] == b[o + 1];
    assert d[..2] == [b[o], b[o + 1]];
    if d == Fill(32) {
      forall k | o <= k < o + 32 ensures b[k] == 0xFF {
        assert d[k - o] == b[k];
      }
    }
  }

  /** Rows that mean something are read as that. */
  lemma {:induction false} RowsAreRead(b: bytes, kinds: seq<bool>, t: seq<Partition>, md5sum: bool,
                                       md5: bytes -> bytes)
    requires RowsMean(b, kinds, t, md5sum, md5)
    ensures Decode(b, 0, [], md5sum, md5) ==
            Behind(t, Decode(b, 32 * |kinds|, Hashed(b, kinds), md5sum, md5))
    decreases |kinds|
  {
    hide Decode, EntryMeans, DigestShown, Erased;
    if kinds == [] {
      DecodeStart(Decode(b, 0, [], md5sum, md5));
      return;
    }
    var n := |kinds| - 1;
    var u := t[..Count(kinds[..n])];
    RowsFewer(b, kinds, t, md5sum, md5);
    RowsAreRead(b, kinds[..n], u, md5sum, md5);
    assert RowMeans(b, kinds, n, t, md5sum, md5);
    DecodesRow(b, 32 * n, Hashed(b, kinds[..n]), md5sum, md5, u);
    if kinds[n] {
      assert t == u + [t[|u|]];
    } else {
      assert t == u;
      assert Hashed(b, kinds[..n]) + [] == Hashed(b, kinds[..n]);
    }
  }

  lemma {:induction false} RowsMore(b: bytes, kinds: seq<bool>, t: seq<Partition>, kind: bool, p: Partition,
                                    md5sum: bool, md5: bytes -> bytes)
    requires RowsMean(b, kinds, t, md5sum, md5) && 32 * |kinds| + 32 <= |b|
    requires if kind then EntryMeans(b, 32 * |kinds|, p)
             else md5sum && DigestShown(b, 32 * |kinds|, md5(Hashed(b, kinds)))
    ensures RowsMean(b, kinds + [kind], if kind then t + [p] else t, md5sum, md5)
    ensures Hashed(b, kinds + [kind]) ==
            Hashed(b, kinds) + if kind then b[32 * |kinds|..32 * |kinds| + 32] else []
  {
    hide EntryMeans, DigestShown;
    var more, u := kinds + [kind], if kind then t + [p] else t;
    assert more[..|kinds|] == kinds;
    forall i | 0 <= i < |more| ensures RowMeans(b, more, i, u, md5sum, md5) {
      if i < |kinds| {
        assert RowMeans(b, kinds, i, t, md5sum, md5);
        assert more[..i] == kinds[..i];
      }
    }
  }

  /** Whatever is read is meant by the rows. */
  lemma {:induction false} ReadIsMeant(b: bytes, kinds: seq<bool>, t: seq<Partition>, md5sum: bool,
                                       md5: bytes -> bytes) returns (all: seq<bool>, whole: seq<Partition>)
    requires RowsMean(b, kinds, t, md5sum, md5)
    requires Decode(b, 32 * |kinds|, Hashed(b, kinds), md5sum, md5).Table?
    ensures RowsMean(b, all, whole, md5sum, md5) && Erased(b, 32 * |all|, 32 * |all| + 32)
    decreases |b| - 32 * |kinds|
  {
    hide EntryMeans, DigestShown, Erased, RowsMean, ReadEntry;
    var o, h := 32 * |kinds|, Hashed(b, kinds);
    RowStart(b, o);
    EntryIsRead(b, o, ReadEntry(b[o..o + 32]));
    if Erased(b, o, o + 32) {
      all, whole := kinds, t;
    } else if b[o] == 0xAA && b[o + 1] == 0x50 {
      var p := ReadEntry(b[o..o + 32]);
      RowsMore(b, kinds, t, true, p, md5sum, md5);
      all, whole := ReadIsMeant(b, kinds + [true], t + [p], md5sum, md5);
    } else {
      assert md5sum && DigestShown(b, o, md5(h)) by { DigestIs(b, o, md5(h)); }
      RowsMore(b, kinds, t, false, Partition([], 0, 0, 0, 0, false), md5sum, md5);
      assert h + [] == h;
      all, whole := ReadIsMeant(b, kinds + [false], t, md5sum, md5);
    }
  }

  lemma DigestIs(b: bytes, o: nat, digest: bytes)
    requires o + 32 <= |b|
    ensures DigestShown(b, o, digest) <==> b[o] == b[o + 1] == 0xEB && b[o + 16..o + 32] == digest
  {
  }

  /**
   The files that hold a table: rows that mean its entries, with any number of right digests among them, and an erased
   one.
   */
  lemma {:induction false} DecodesExactly(b: bytes, t: seq<Partition>, md5sum: bool, md5: bytes -> bytes)
    ensures Decode(b, 0, [], md5sum, md5) == Table(t) <==>
            exists kinds :: RowsMean(b, kinds, t, md5sum, md5) && Erased(b, 32 * |kinds|, 32 * |kinds| + 32)
  {
    hide Decode, EntryMeans, DigestShown, Erased, RowsMean;
    if Decode(b, 0, [], md5sum, md5) == Table(t) {
      NoRows(b, md5sum, md5);
      var kinds, u := ReadIsMeant(b, [], [], md5sum, md5);
      ErasedEnds(b, kinds, u, md5sum, md5);
    }
    if kinds :| RowsMean(b, kinds, t, md5sum, md5) && Erased(b, 32 * |kinds|, 32 * |kinds| + 32) {
      ErasedEnds(b, kinds, t, md5sum, md5);
    }
  }

  lemma NoRows(b: bytes, md5sum: bool, md5: bytes -> bytes)
    ensures RowsMean(b, [], [], md5sum, md5) && Hashed(b, []) == []
  {
  }

  lemma {:induction false} ErasedEnds(b: bytes, kinds: seq<bool>, t: seq<Partition>, md5sum: bool,
                                      md5: bytes -> bytes)
    requires RowsMean(b, kinds, t, md5sum, md5) && Erased(b, 32 * |kinds|, 32 * |kinds| + 32)
    ensures Decode(b, 0, [], md5sum, md5) == Table(t)
  {
    hide Decode, EntryMeans, DigestShown, RowMeans, Hashed;
    RowsAreRead(b, kinds, t, md5sum, md5);
    DecodesRow(b, 32 * |kinds|, Hashed(b, kinds), md5sum, md5, t);
  }

  /** What refuses a file is the first row that is no entry, no right digest and not erased, or the end of the file. */
  lemma {:induction false} Refusals(b: bytes, kinds: seq<bool>, t: seq<Partition>, md5sum: bool, md5: bytes -> bytes)
    requires RowsMean(b, kinds, t, md5sum, md5)
    ensures var o, r := 32 * |kinds|, Decode(b, 0, [], md5sum, md5);
            && (o == |b| ==> r == NoEndMarker)
            && (o < |b| < o + 32 ==> r == BadLength)
            && (o + 32 <= |b| && md5sum && b[o] == b[o + 1] == 0xEB && !DigestShown(b, o, md5(Hashed(b, kinds))) ==>
                  r == BadDigest)
            && (Unknown(b, o, md5sum) ==> r == PartitionBinary.BadMagic)
  {
    hide Decode, EntryMeans, DigestShown, RowMeans, Hashed, Erased;
    var o := 32 * |kinds|;
    RowsAreRead(b, kinds, t, md5sum, md5);
    if o + 32 <= |b| {
      DecodesRow(b, o, Hashed(b, kinds), md5sum, md5, t);
    } else {
      DecodeEnds(b, o, Hashed(b, kinds), md5sum, md5, t);
    }
  }
}
