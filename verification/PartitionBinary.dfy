/**
 The binary partition table: 32-byte entries, an optional MD5 row, and 0xFF up to 0xC00 bytes. The hash is any function
 to 16 bytes.
 */
module PartitionBinary {
  import opened Values
  import opened LittleEndian
  import opened Partitions

  const MAX_LENGTH: nat := 0xC00
  const ENTRY: nat := 32

  // ----- one entry

  /** What struct.pack accepts. */
  predicate Packs(p: Partition) {
    0 <= p.ptype < 0x100 && 0 <= p.subtype < 0x100 && 0 <= p.offset < UINT_RANGE && 0 <= p.size < UINT_RANGE
  }

  /** A 16-byte field: longer names are cut, shorter ones filled with NUL. */
  function NameField(name: bytes): (r: bytes)
    ensures |r| == 16
  {
    if |name| >= 16 then name[..16] else name + Zeros(16 - |name|)
  }

  function EntryBytes(p: Partition): (r: bytes)
    requires Packs(p)
    ensures |r| == ENTRY && r[..2] == [0xAA, 0x50]
  {
    [0xAA, 0x50, p.ptype, p.subtype] + Le32(p.offset) + Le32(p.size) + NameField(p.name)
      + Le32(if p.encrypted then 1 else 0)
  }

  function ReadEntry(d: bytes): Partition
    requires |d| == ENTRY
  {
    Partition(CText(d[12..28]), d[2], d[3], Read32(d[4..8]), Read32(d[8..12]), Read32(d[28..32]) % 2 == 1)
  }

  /** What an entry keeps of a name. */
  function StoredName(name: bytes): bytes {
    CText(if |name| >= 16 then name[..16] else name)
  }

  lemma {:induction false} CTextZeros(s: bytes, n: nat)
    ensures CText(s + Zeros(n)) == CText(s)
  {
    if s == [] {
      assert s + Zeros(n) == Zeros(n);
    } else {
      CTextZeros(s[1..], n);
      assert (s + Zeros(n))[0] == s[0] && (s + Zeros(n))[1..] == s[1..] + Zeros(n);
    }
  }

  /** A name survives exactly when it is at most 16 bytes and free of NUL. */
  lemma NameSurvives(name: bytes)
    ensures StoredName(name) == name <==> |name| <= 16 && NulFree(name)
  {
    if |name| >= 16 {
      assert |name| == 16 ==> name[..16] == name;
    }
  }

  lemma ReadWritten(p: Partition)
    requires Packs(p)
    ensures ReadEntry(EntryBytes(p)) == p.(name := StoredName(p.name))
  {
    hide Le32, Read32, CText;
    var d := EntryBytes(p);
    assert d[2] == p.ptype && d[3] == p.subtype;
    assert d[4..8] == Le32(p.offset);
    assert d[8..12] == Le32(p.size);
    assert d[12..28] == NameField(p.name);
    assert d[28..32] == Le32(if p.encrypted then 1 else 0);
    Le32RoundTrip(p.offset);
    Le32RoundTrip(p.size);
    Le32RoundTrip(if p.encrypted then 1 else 0);
    if |p.name| < 16 {
      CTextZeros(p.name, 16 - |p.name|);
    }
  }

  // ----- the table

  function Fill(n: nat): (r: bytes)
    ensures |r| == n && forall i :: 0 <= i < n ==> r[i] == 0xFF
  {
    seq(n, _ => 0xFF)
  }

  function Md5Row(digest: bytes): (r: bytes)
    ensures |r| == 16 + |digest| && r[..2] == [0xEB, 0xEB] && r[16..] == digest
  {
    var r := [0xEB, 0xEB] + Fill(14) + digest;
    assert |[0xEB, 0xEB] + Fill(14)| == 16;
    r
  }

  predicate AllPack(t: seq<Partition>) {
    forall i :: 0 <= i < |t| ==> Packs(t[i])
  }

  function Entries(t: seq<Partition>): (r: bytes)
    requires AllPack(t)
    ensures |r| == ENTRY * |t|
  {
    if t == [] then [] else Entries(t[..|t| - 1]) + EntryBytes(t[|t| - 1])
  }

  datatype Encoded = Bytes(b: bytes) | StructError | TooLong

  function ToBinary(t: seq<Partition>, md5sum: bool, md5: bytes -> bytes): (r: Encoded)
    ensures r.Bytes? ==> |r.b| == MAX_LENGTH
  {
    if !AllPack(t) then StructError
    else
      var result := if md5sum then Entries(t) + Md5Row(md5(Entries(t))) else Entries(t);
      if |result| >= MAX_LENGTH then TooLong
      else Bytes(result + Fill(MAX_LENGTH - |result|))
  }

  datatype Decoded = Table(t: seq<Partition>) | BadLength | BadDigest | BadMagic | NoEndMarker

  /** Reading from `o` on, with `hashed` the entries that went into the running hash. */
  function Decode(b: bytes, o: nat, hashed: bytes, md5sum: bool, md5: bytes -> bytes): Decoded
    decreases |b| - o
  {
    if o >= |b| then NoEndMarker
    else if o + ENTRY > |b| then BadLength
    else
      var d := b[o..o + ENTRY];
      if d == Fill(ENTRY) then Table([])
      else if md5sum && d[..2] == [0xEB, 0xEB] then
        if d[16..] == md5(hashed) then Decode(b, o + ENTRY, hashed, md5sum, md5) else BadDigest
      else if d[..2] != [0xAA, 0x50] then BadMagic
      else
        var rest := Decode(b, o + ENTRY, hashed + d, md5sum, md5);
        if rest.Table? then Table([ReadEntry(d)] + rest.t) else rest
  }

  function Behind(t: seq<Partition>, r: Decoded): Decoded {
    if r.Table? then Table(t + r.t) else r
  }

  lemma DecodeStep(b: bytes, o: nat, hashed: bytes, md5sum: bool, md5: bytes -> bytes, t: seq<Partition>)
    requires o + ENTRY <= |b|
    ensures var d := b[o..o + ENTRY];
            Behind(t, Decode(b, o, hashed, md5sum, md5)) ==
            if d == Fill(ENTRY) then Table(t)
            else if md5sum && d[..2] == [0xEB, 0xEB] then
              if d[16..] == md5(hashed) then Behind(t, Decode(b, o + ENTRY, hashed, md5sum, md5)) else BadDigest
            else if d[..2] != [0xAA, 0x50] then BadMagic
            else Behind(t + [ReadEntry(d)], Decode(b, o + ENTRY, hashed + d, md5sum, md5))
  {
    hide ReadEntry, Fill;
    var d := b[o..o + ENTRY];
    var rest := Decode(b, o + ENTRY, hashed + d, md5sum, md5);
    if rest.Table? {
      assert t + ([ReadEntry(d)] + rest.t) == t + [ReadEntry(d)] + rest.t;
    }
    assert t + [] == t;
  }

  lemma DecodeStart(r: Decoded)
    ensures Behind([], r) == r
  {
  }

  /** from_binary. */
  method FromBinary(b: bytes, md5sum: bool, md5: bytes -> bytes) returns (r: Decoded)
    ensures r == Decode(b, 0, [], md5sum, md5)
  {
    hide Decode, ReadEntry, Fill, Behind;
    var t: seq<Partition>, o: nat, hashed: bytes := [], 0, [];
    DecodeStart(Decode(b, 0, [], md5sum, md5));
    while o < |b|
      invariant Decode(b, 0, [], md5sum, md5) == Behind(t, Decode(b, o, hashed, md5sum, md5))
      decreases |b| - o
    {
      if |b| - o < ENTRY {
        DecodeEnds(b, o, hashed, md5sum, md5, t);
        return BadLength;
      }
      var d := b[o..o + ENTRY];
      DecodeStep(b, o, hashed, md5sum, md5, t);
      if d == Fill(ENTRY) {
        return Table(t);
      }
      if md5sum && d[..2] == [0xEB, 0xEB] {
        if d[16..] != md5(hashed) {
          return BadDigest;
        }
      } else {
        hashed := hashed + d;
        if d[..2] != [0xAA, 0x50] {
          return BadMagic;
        }
        t := t + [ReadEntry(d)];
      }
      o := o + ENTRY;
    }
    DecodeEnds(b, o, hashed, md5sum, md5, t);
    r := NoEndMarker;
  }

  lemma DecodeEnds(b: bytes, o: nat, hashed: bytes, md5sum: bool, md5: bytes -> bytes, t: seq<Partition>)
    requires o + ENTRY > |b|
    ensures Behind(t, Decode(b, o, hashed, md5sum, md5)) == if o >= |b| then NoEndMarker else BadLength
  {
  }

  // ----- round trip

  function Stored(p: Partition): Partition {
    p.(name := StoredName(p.name))
  }

  function StoredTable(t: seq<Partition>): (r: seq<Partition>)
    ensures |r| == |t| && forall i :: 0 <= i < |t| ==> r[i] == Stored(t[i])
  {
    seq(|t|, i requires 0 <= i < |t| => Stored(t[i]))
  }

  lemma {:induction false} EntryAt(t: seq<Partition>, i: nat)
    requires AllPack(t) && i < |t|
    ensures ENTRY * i + ENTRY <= |Entries(t)| && Entries(t)[ENTRY * i..ENTRY * i + ENTRY] == EntryBytes(t[i])
    decreases |t|
  {
    hide EntryBytes;
    var init, last := t[..|t| - 1], t[|t| - 1];
    if i < |init| {
      EntryAt(init, i);
      var e := Entries(init);
      assert (e + EntryBytes(last))[ENTRY * i..ENTRY * i + ENTRY] == e[ENTRY * i..ENTRY * i + ENTRY];
    }
  }

  lemma EntriesMore(t: seq<Partition>, i: nat)
    requires AllPack(t) && i < |t|
    ensures Entries(t[..i + 1]) == Entries(t[..i]) + EntryBytes(t[i])
  {
    hide EntryBytes;
    assert t[..i + 1][..i] == t[..i];
  }

  lemma NotFiller(p: Partition)
    requires Packs(p)
    ensures EntryBytes(p) != Fill(ENTRY)
  {
    hide EntryBytes;
    assert EntryBytes(p)[..2][0] == 0xAA;
  }

  lemma {:induction false} DecodeFrom(b: bytes, t: seq<Partition>, i: nat, tail: bytes, md5sum: bool,
                                      md5: bytes -> bytes)
    requires AllPack(t) && i <= |t| && b == Entries(t) + tail
    requires Decode(b, ENTRY * |t|, Entries(t), md5sum, md5) == Table([])
    ensures Decode(b, ENTRY * i, Entries(t[..i]), md5sum, md5) == Table(StoredTable(t)[i..])
    decreases |t| - i
  {
    hide Decode, EntryBytes, Entries, Fill, ReadEntry, Stored;
    if i == |t| {
      assert t[..i] == t && StoredTable(t)[i..] == [];
      return;
    }
    EntryAt(t, i);
    EntriesMore(t, i);
    DecodeFrom(b, t, i + 1, tail, md5sum, md5);
    var o := ENTRY * i;
    assert b[o..o + ENTRY] == Entries(t)[o..o + ENTRY];
    NotFiller(t[i]);
    DecodeOne(b, o, Entries(t[..i]), md5sum, md5, t[i]);
    assert [Stored(t[i])] + StoredTable(t)[i + 1..] == StoredTable(t)[i..];
  }

  lemma DecodeOne(b: bytes, o: nat, hashed: bytes, md5sum: bool, md5: bytes -> bytes, p: Partition)
    requires Packs(p) && o + ENTRY <= |b| && b[o..o + ENTRY] == EntryBytes(p)
    ensures Decode(b, o, hashed, md5sum, md5) ==
            Behind([Stored(p)], Decode(b, o + ENTRY, hashed + EntryBytes(p), md5sum, md5))
  {
    hide Decode, EntryBytes, Fill, ReadEntry;
    NotFiller(p);
    ReadWritten(p);
    DecodeStep(b, o, hashed, md5sum, md5, []);
    DecodeStart(Decode(b, o, hashed, md5sum, md5));
    assert [] + [Stored(p)] == [Stored(p)];
  }

  /** The filler that pads the table holds the end marker. */
  lemma DecodeFill(b: bytes, o: nat, hashed: bytes, md5sum: bool, md5: bytes -> bytes)
    requires o + ENTRY <= |b| && forall i :: o <= i < |b| ==> b[i] == 0xFF
    ensures Decode(b, o, hashed, md5sum, md5) == Table([])
  {
    assert b[o..o + ENTRY] == Fill(ENTRY);
  }

  lemma DecodeMd5(b: bytes, o: nat, hashed: bytes, md5: bytes -> bytes)
    requires |md5(hashed)| == 16 && o + ENTRY <= |b| && b[o..o + ENTRY] == Md5Row(md5(hashed))
    ensures Decode(b, o, hashed, true, md5) == Decode(b, o + ENTRY, hashed, true, md5)
  {
    var d := b[o..o + ENTRY];
    assert d[..2][0] == 0xEB;
    assert d[0] == 0xEB;
  }

  /** The rows a table may have. */
  function Capacity(md5sum: bool): nat {
    if md5sum then 94 else 95
  }

  /**
   to_binary accepts exactly the tables whose fields are in range and that leave room for an end marker, and reading
   its output gives the table back, names as far as the entries keep them.
   */
  lemma RoundTrip(t: seq<Partition>, md5sum: bool, md5: bytes -> bytes)
    requires forall s :: |md5(s)| == 16
    ensures ToBinary(t, md5sum, md5).Bytes? <==> AllPack(t) && |t| <= Capacity(md5sum)
    ensures var e := ToBinary(t, md5sum, md5); e.Bytes? ==> Decode(e.b, 0, [], md5sum, md5) == Table(StoredTable(t))
  {
    hide Decode, Entries, Md5Row, Fill, Packs, StoredTable;
    if !AllPack(t) || |t| > Capacity(md5sum) {
      return;
    }
    var n := ENTRY * |t|;
    var tail := if md5sum then Md5Row(md5(Entries(t))) + Fill(MAX_LENGTH - n - ENTRY) else Fill(MAX_LENGTH - n);
    var b := ToBinary(t, md5sum, md5).b;
    assert b == Entries(t) + tail;
    if md5sum {
      assert b[n..n + ENTRY] == Md5Row(md5(Entries(t)));
      DecodeMd5(b, n, Entries(t), md5);
      DecodeFill(b, n + ENTRY, Entries(t), true, md5);
    } else {
      DecodeFill(b, n, Entries(t), false, md5);
    }
    DecodeFrom(b, t, 0, tail, md5sum, md5);
    NoEntries(t);
  }

  lemma NoEntries(t: seq<Partition>)
    requires AllPack(t)
    ensures AllPack(t[..0]) && Entries(t[..0]) == [] && StoredTable(t)[0..] == StoredTable(t)
  {
  }

  /** The table itself comes back, flags included, if and only if every name fits its field. */
  lemma RoundTripExactly(t: seq<Partition>, md5sum: bool, md5: bytes -> bytes)
    requires (forall s :: |md5(s)| == 16) && ToBinary(t, md5sum, md5).Bytes?
    ensures Decode(ToBinary(t, md5sum, md5).b, 0, [], md5sum, md5) == Table(t)
            <==> forall i :: 0 <= i < |t| ==> |t[i].name| <= 16 && NulFree(t[i].name)
  {
    hide Decode, ToBinary, StoredName, NulFree;
    RoundTrip(t, md5sum, md5);
    forall i | 0 <= i < |t| ensures Stored(t[i]) == t[i] <==> |t[i].name| <= 16 && NulFree(t[i].name) {
      NameSurvives(t[i].name);
    }
    if StoredTable(t) == t {
      forall i | 0 <= i < |t| ensures Stored(t[i]) == t[i] {
        assert StoredTable(t)[i] == t[i];
      }
    }
  }
}
