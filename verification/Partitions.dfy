/**
 gen_esp32part.py: placing the partitions of a table, checking it, and its binary form.
 */
module Partitions {
  import opened Values
  import opened LittleEndian
  import opened StableSort

  const TABLE_SIZE: int := 0x1000
  const APP_TYPE: int := 0

  datatype Option<T> = None | Some(value: T)

  /** A row of the CSV file: the offset may be missing, and a negative size gives the end of the partition. */
  datatype Row = Row(name: bytes, ptype: int, subtype: int, offset: Option<int>, size: int, encrypted: bool)

  datatype Partition = Partition(name: bytes, ptype: int, subtype: int, offset: int, size: int, encrypted: bool)

  function Alignment(ptype: int): (r: int)
    ensures r > 0
  {
    if ptype == APP_TYPE then 0x10000 else 4
  }

  datatype PlaceResult = Placed(table: seq<Partition>) | FirstOverlapsTable(at: nat) | Overlap(at: nat)

  // ----- from_csv: missing offsets and negative sizes

  /** The lowest aligned offset from `from` on. */
  predicate Least(offset: int, from: int, align: int)
    requires align > 0
  {
    from <= offset && offset % align == 0 && forall x :: from <= x < offset ==> x % align != 0
  }

  function AlignUp(n: int, align: int): int
    requires align > 0
  {
    if n % align != 0 then n + (align - n % align) else n
  }

  lemma AlignUpIsLeast(n: int, align: int)
    requires align > 0
    ensures Least(AlignUp(n, align), n, align)
  {
    var q, r := n / align, n % align;
    assert n == align * q + r;
    if r == 0 {
      return;
    }
    Multiple(align, q + 1);
    assert AlignUp(n, align) == align * (q + 1);
    forall x | n <= x < AlignUp(n, align) ensures x % align != 0 {
      Remainder(align, q, x - align * q);
    }
  }

  lemma Multiple(align: int, k: int)
    requires align > 0
    ensures align * k % align == 0
  {
    Remainder(align, k, 0);
  }

  lemma Remainder(align: int, k: int, r: int)
    requires 0 <= r < align
    ensures (align * k + r) % align == r
  {
    var x := align * k + r;
    var q, s := x / align, x % align;
    assert align * (k - q) == s - r;
    Times(align, k - q);
  }

  lemma Times(a: int, b: int)
    requires a > 0
    ensures (b >= 1 ==> a * b >= a) && (b <= -1 ==> a * b <= -a)
  {
  }

  /** A partition is where its row puts it, given the end of the one before. */
  predicate PlacedAs(p: Partition, row: Row, lastEnd: int) {
    && p.name == row.name && p.ptype == row.ptype && p.subtype == row.subtype && p.encrypted == row.encrypted
    && (match row.offset
        case Some(o) => p.offset == o && lastEnd <= o
        case None => Least(p.offset, lastEnd, Alignment(row.ptype)))
    && p.size == (if row.size < 0 then -row.size - p.offset else row.size)
  }

  /** The end of partition `i - 1`, or of the partition table itself. */
  function EndBefore(table: seq<Partition>, tableOffset: int, i: nat): int
    requires i <= |table|
  {
    if i == 0 then tableOffset + TABLE_SIZE else table[i - 1].offset + table[i - 1].size
  }

  ghost predicate AllPlaced(table: seq<Partition>, rows: seq<Row>, tableOffset: int) {
    |table| <= |rows| && forall i :: 0 <= i < |table| ==> PlacedAs(table[i], rows[i], EndBefore(table, tableOffset, i))
  }

  /** __eq__ does not look at the flags. */
  predicate SamePartition(p: Partition, row: Row) {
    && p.name == row.name && p.ptype == row.ptype && p.subtype == row.subtype
    && row.offset == Some(p.offset) && p.size == row.size
  }

  /**
   Every row is placed at its own offset, or at the lowest aligned one behind the row before; the first row whose
   offset lies before that stops it.
   */
  method FromCsv(rows: seq<Row>, tableOffset: int) returns (r: PlaceResult)
    ensures r.Placed? ==> |r.table| == |rows| && AllPlaced(r.table, rows, tableOffset)
    ensures r.FirstOverlapsTable? || r.Overlap? ==>
              r.at < |rows| && exists table :: |table| == r.at && AllPlaced(table, rows, tableOffset)
                                              && rows[r.at].offset.Some?
                                              && rows[r.at].offset.value < EndBefore(table, tableOffset, r.at)
    ensures r.Overlap? ==> r.at > 0
  {
    var table: seq<Partition>, lastEnd := [], tableOffset + TABLE_SIZE;
    for i := 0 to |rows|
      invariant |table| == i && AllPlaced(table, rows, tableOffset) && lastEnd == EndBefore(table, tableOffset, i)
    {
      var e := rows[i];
      if e.offset.Some? && e.offset.value < lastEnd {
        if i == 0 || SamePartition(table[0], e) {
          return FirstOverlapsTable(i);
        }
        return Overlap(i);
      }
      var offset := if e.offset.Some? then e.offset.value else AlignUp(lastEnd, Alignment(e.ptype));
      AlignUpIsLeast(lastEnd, Alignment(e.ptype));
      var size := if e.size < 0 then -e.size - offset else e.size;
      var p := Partition(e.name, e.ptype, e.subtype, offset, size, e.encrypted);
      PlaceOne(table, rows, tableOffset, p);
      table, lastEnd := table + [p], offset + size;
    }
    r := Placed(table);
  }

  lemma PlaceOne(table: seq<Partition>, rows: seq<Row>, tableOffset: int, p: Partition)
    requires AllPlaced(table, rows, tableOffset) && |table| < |rows|
    requires PlacedAs(p, rows[|table|], EndBefore(table, tableOffset, |table|))
    ensures AllPlaced(table + [p], rows, tableOffset)
  {
    hide PlacedAs;
    var more := table + [p];
    forall i | 0 <= i < |more| ensures PlacedAs(more[i], rows[i], EndBefore(more, tableOffset, i)) {
      assert EndBefore(more, tableOffset, i) == EndBefore(table, tableOffset, i);
      assert i < |table| ==> more[i] == table[i];
    }
  }

  // ----- verify

  function Offset(p: Partition): int {
    p.offset
  }

  predicate Aligned(p: Partition, secure: bool) {
    p.offset % Alignment(p.ptype) == 0 && (secure ==> p.size % Alignment(p.ptype) == 0)
  }

  predicate NamesDiffer(table: seq<Partition>) {
    forall i, j :: 0 <= i < j < |table| ==> table[i].name != table[j].name
  }

  /** The check of neighbours, on a list in order. */
  predicate NeighboursApart(s: seq<Partition>) {
    forall i {:trigger s[i]} :: 0 < i < |s| ==> s[i - 1].offset + s[i - 1].size <= s[i].offset
  }

  predicate BehindTable(s: seq<Partition>, tableOffset: int) {
    forall i :: 0 <= i < |s| ==> tableOffset + TABLE_SIZE <= s[i].offset
  }

  datatype Verdict = Good | Misaligned(at: nat) | DuplicateNames | BelowTable | Overlapping

  /** All the checks. */
  predicate Passes(table: seq<Partition>, tableOffset: int, secure: bool) {
    && (forall i :: 0 <= i < |table| ==> Aligned(table[i], secure)) && NamesDiffer(table)
    && BehindTable(Sorted(table, Offset), tableOffset) && NeighboursApart(Sorted(table, Offset))
  }

  method Verify(table: seq<Partition>, tableOffset: int, secure: bool) returns (v: Verdict)
    ensures v.Good? <==> Passes(table, tableOffset, secure)
    ensures v.Misaligned? ==>
              && v.at < |table| && !Aligned(table[v.at], secure)
              && forall i :: 0 <= i < v.at ==> Aligned(table[i], secure)
    ensures v.DuplicateNames? ==> !NamesDiffer(table)
    ensures v.BelowTable? ==> !BehindTable(Sorted(table, Offset), tableOffset)
    ensures v.Overlapping? ==> !NeighboursApart(Sorted(table, Offset))
  {
    hide Sorted, Insert, Aligned, Alignment, NamesDiffer;
    for i := 0 to |table|
      invariant forall k :: 0 <= k < i ==> Aligned(table[k], secure)
    {
      if !Aligned(table[i], secure) {
        return Misaligned(i);
      }
    }
    if !NamesDiffer(table) {
      return DuplicateNames;
    }
    var sorted := Sorted(table, Offset);
    for i := 0 to |sorted|
      invariant forall k :: 0 <= k < i ==> tableOffset + TABLE_SIZE <= sorted[k].offset
      invariant forall k {:trigger sorted[k]} :: 0 < k < i ==>
                sorted[k - 1].offset + sorted[k - 1].size <= sorted[k].offset
    {
      var p := sorted[i];
      if p.offset < tableOffset + TABLE_SIZE {
        return BelowTable;
      }
      if i > 0 && p.offset < sorted[i - 1].offset + sorted[i - 1].size {
        return Overlapping;
      }
    }
    v := Good;
  }

  // ----- what the checks mean

  predicate Disjoint(p: Partition, q: Partition) {
    p.offset + p.size <= q.offset || q.offset + q.size <= p.offset
  }

  predicate AllDisjoint(s: seq<Partition>) {
    forall i, j :: 0 <= i < j < |s| ==> Disjoint(s[i], s[j])
  }

  predicate DisjointFrom(s: seq<Partition>, x: Partition) {
    forall i :: 0 <= i < |s| ==> Disjoint(s[i], x)
  }

  lemma DisjointMore(s: seq<Partition>, x: Partition, y: Partition)
    ensures AllDisjoint(s + [x]) <==> AllDisjoint(s) && DisjointFrom(s, x)
    ensures DisjointFrom(s + [x], y) <==> DisjointFrom(s, y) && Disjoint(x, y)
  {
    hide Disjoint;
    var t := s + [x];
    if AllDisjoint(t) {
      forall i, j | 0 <= i < j < |s| ensures Disjoint(s[i], s[j]) { assert t[i] == s[i] && t[j] == s[j]; }
      forall i | 0 <= i < |s| ensures Disjoint(s[i], x) { assert t[i] == s[i] && t[|s|] == x; }
    }
    if DisjointFrom(t, y) {
      assert t[|s|] == x;
      forall i | 0 <= i < |s| ensures Disjoint(s[i], y) { assert t[i] == s[i]; }
    }
  }

  lemma {:induction false} InsertDisjointFrom(s: seq<Partition>, x: Partition, y: Partition)
    ensures DisjointFrom(Insert(s, x, Offset), y) <==> DisjointFrom(s, y) && Disjoint(x, y)
  {
    hide DisjointFrom, AllDisjoint, Disjoint;
    if s == [] || s[|s| - 1].offset <= x.offset {
      DisjointMore(s, x, y);
    } else {
      var init, last := s[..|s| - 1], s[|s| - 1];
      InsertDisjointFrom(init, x, y);
      DisjointMore(Insert(init, x, Offset), last, y);
      DisjointMore(init, last, y);
      assert s == init + [last];
    }
  }

  lemma Symmetric(p: Partition, q: Partition)
    ensures Disjoint(p, q) <==> Disjoint(q, p)
  {
  }

  lemma {:induction false} InsertDisjoint(s: seq<Partition>, x: Partition)
    ensures AllDisjoint(Insert(s, x, Offset)) <==> AllDisjoint(s) && DisjointFrom(s, x)
  {
    hide DisjointFrom, AllDisjoint, Disjoint;
    if s == [] || s[|s| - 1].offset <= x.offset {
      DisjointMore(s, x, x);
    } else {
      var init, last := s[..|s| - 1], s[|s| - 1];
      InsertDisjoint(init, x);
      InsertDisjointFrom(init, x, last);
      DisjointMore(Insert(init, x, Offset), last, last);
      DisjointMore(init, last, x);
      assert s == init + [last];
      Symmetric(x, last);
    }
  }

  lemma {:induction false} SortedDisjointFrom(s: seq<Partition>, y: Partition)
    ensures DisjointFrom(Sorted(s, Offset), y) <==> DisjointFrom(s, y)
  {
    hide AllDisjoint, Disjoint;
    if s != [] {
      var init, last := s[..|s| - 1], s[|s| - 1];
      SortedDisjointFrom(init, y);
      InsertDisjointFrom(Sorted(init, Offset), last, y);
      DisjointMore(init, last, y);
      assert s == init + [last];
    }
  }

  /** Sorting does not change which partitions overlap. */
  lemma {:induction false} SortedDisjoint(s: seq<Partition>)
    ensures AllDisjoint(Sorted(s, Offset)) <==> AllDisjoint(s)
  {
    hide DisjointFrom, Disjoint;
    if s != [] {
      var init, last := s[..|s| - 1], s[|s| - 1];
      SortedDisjoint(init);
      InsertDisjoint(Sorted(init, Offset), last);
      SortedDisjointFrom(init, last);
      DisjointMore(init, last, last);
      assert s == init + [last];
    }
  }

  /**
   A table that passes the check of neighbours has no two overlapping partitions, and with sizes above zero the check
   refuses no other.
   */
  lemma {:induction false} NeighboursDecide(table: seq<Partition>)
    ensures NeighboursApart(Sorted(table, Offset)) ==> AllDisjoint(table)
    ensures (forall i :: 0 <= i < |table| ==> table[i].size > 0) ==>
              (NeighboursApart(Sorted(table, Offset)) <==> AllDisjoint(table))
  {
    hide Sorted, Insert, Disjoint;
    var s := Sorted(table, Offset);
    SortedIsSorted(table, Offset);
    SortedDisjoint(table);
    if NeighboursApart(s) {
      ApartIsDisjoint(s);
    } else if AllDisjoint(table) && forall i :: 0 <= i < |table| ==> table[i].size > 0 {
      forall i | 0 <= i < |s| ensures s[i].size > 0 {
        assert s[i] in multiset(s);
        assert s[i] in table;
      }
      DisjointIsApart(s);
    }
  }

  /** The first address behind the partition table, which takes 4 KiB. */
  predicate AboveTable(table: seq<Partition>, tableOffset: int) {
    forall i :: 0 <= i < |table| ==> tableOffset + 0x1000 <= table[i].offset
  }

  /** Multiples of 64 KiB for applications and of 4 for everything else; sizes too if the image is secured. */
  predicate OnBoundary(p: Partition, secure: bool) {
    if p.ptype == 0 then p.offset % 0x1_0000 == 0 && (secure ==> p.size % 0x1_0000 == 0)
    else p.offset % 4 == 0 && (secure ==> p.size % 4 == 0)
  }

  predicate AllOnBoundary(table: seq<Partition>, secure: bool) {
    forall i :: 0 <= i < |table| ==> OnBoundary(table[i], secure)
  }

  /** The order does not matter for what lies behind the table. */
  lemma {:induction false} AboveInAnyOrder(table: seq<Partition>, tableOffset: int)
    ensures BehindTable(Sorted(table, Offset), tableOffset) <==> AboveTable(table, tableOffset)
  {
    hide Sorted, Insert, Ordered;
    var s := Sorted(table, Offset);
    SortedIsSorted(table, Offset);
    if BehindTable(s, tableOffset) {
      forall i | 0 <= i < |table| ensures tableOffset + 0x1000 <= table[i].offset {
        assert table[i] in multiset(table);
        assert table[i] in s;
      }
    }
    if AboveTable(table, tableOffset) {
      forall i | 0 <= i < |s| ensures tableOffset + 0x1000 <= s[i].offset {
        assert s[i] in multiset(s);
        assert s[i] in table;
      }
    }
  }

  lemma BoundaryIsAligned(table: seq<Partition>, secure: bool)
    ensures (forall i :: 0 <= i < |table| ==> Aligned(table[i], secure)) <==> AllOnBoundary(table, secure)
  {
    forall i | 0 <= i < |table| ensures Aligned(table[i], secure) <==> OnBoundary(table[i], secure) {}
    if AllOnBoundary(table, secure) {
      forall i | 0 <= i < |table| ensures Aligned(table[i], secure) { assert OnBoundary(table[i], secure); }
    }
  }

  /**
   A table passes only if its partitions are on their boundaries, have different names, lie above the partition table
   and do not overlap; with sizes above zero, every such table passes.
   */
  lemma {:induction false} PassesExactly(table: seq<Partition>, tableOffset: int, secure: bool)
    ensures Passes(table, tableOffset, secure) ==>
              AllOnBoundary(table, secure) && NamesDiffer(table) && AboveTable(table, tableOffset) && AllDisjoint(table)
    ensures (forall i :: 0 <= i < |table| ==> table[i].size > 0) ==>
              (Passes(table, tableOffset, secure) <==>
              AllOnBoundary(table, secure) && NamesDiffer(table) && AboveTable(table, tableOffset)
              && AllDisjoint(table))
  {
    hide Sorted, Aligned, AllOnBoundary, NamesDiffer, BehindTable, AboveTable, AllDisjoint, NeighboursApart;
    BoundaryIsAligned(table, secure);
    AboveInAnyOrder(table, tableOffset);
    NeighboursDecide(table);
  }

  lemma ApartIsDisjoint(s: seq<Partition>)
    requires Ordered(s, Offset) && NeighboursApart(s)
    ensures AllDisjoint(s)
  {
    forall i, j | 0 <= i < j < |s| ensures Disjoint(s[i], s[j]) {
      assert s[i].offset + s[i].size <= s[i + 1].offset;
      assert i + 1 < j ==> Offset(s[i + 1]) <= Offset(s[j]);
    }
  }

  lemma DisjointIsApart(s: seq<Partition>)
    requires Ordered(s, Offset) && AllDisjoint(s) && forall i :: 0 <= i < |s| ==> s[i].size > 0
    ensures NeighboursApart(s)
  {
    forall i | 0 < i < |s| ensures s[i - 1].offset + s[i - 1].size <= s[i].offset {
      assert Disjoint(s[i - 1], s[i]);
      assert Offset(s[i - 1]) <= Offset(s[i]);
    }
  }

  /** Placement is sound: without negative sizes the rows come out in order, behind the table and apart. */
  lemma {:induction false} PlacementIsSound(table: seq<Partition>, rows: seq<Row>, tableOffset: int)
    requires AllPlaced(table, rows, tableOffset) && forall i :: 0 <= i < |table| ==> table[i].size >= 0
    ensures Sorted(table, Offset) == table
    ensures BehindTable(Sorted(table, Offset), tableOffset) && NeighboursApart(Sorted(table, Offset))
    ensures AllDisjoint(table)
  {
    hide Sorted, Insert;
    InOrder(table, rows, tableOffset);
    Climbs(table, tableOffset);
    OrderedStays(table, Offset);
    NeighboursDecide(table);
  }

  lemma InOrder(table: seq<Partition>, rows: seq<Row>, tableOffset: int)
    requires AllPlaced(table, rows, tableOffset)
    ensures forall i :: 0 <= i < |table| ==> EndBefore(table, tableOffset, i) <= table[i].offset
    ensures NeighboursApart(table)
  {
    forall i | 0 <= i < |table| ensures EndBefore(table, tableOffset, i) <= table[i].offset {
      assert PlacedAs(table[i], rows[i], EndBefore(table, tableOffset, i));
    }
    forall i | 0 < i < |table| ensures table[i - 1].offset + table[i - 1].size <= table[i].offset {
      assert EndBefore(table, tableOffset, i) <= table[i].offset;
    }
  }

  lemma {:induction false} Climbs(table: seq<Partition>, tableOffset: int)
    requires NeighboursApart(table) && forall i :: 0 <= i < |table| ==> table[i].size >= 0
    requires table != [] ==> tableOffset + TABLE_SIZE <= table[0].offset
    ensures Ordered(table, Offset) && BehindTable(table, tableOffset)
  {
    hide Ordered, BehindTable;
    if table == [] {
      NothingClimbs(tableOffset);
      return;
    }
    var init, last := table[..|table| - 1], table[|table| - 1];
    InitApart(table);
    Climbs(init, tableOffset);
    assert table == init + [last];
    ClimbsOn(init, last, tableOffset);
  }

  lemma NothingClimbs(tableOffset: int)
    ensures Ordered<Partition>([], Offset) && BehindTable([], tableOffset)
  {
  }

  lemma InitApart(table: seq<Partition>)
    requires NeighboursApart(table) && table != []
    ensures NeighboursApart(table[..|table| - 1])
    ensures |table| > 1 ==> table[|table| - 2].offset + table[|table| - 2].size <= table[|table| - 1].offset
  {
    var n := |table| - 1;
    assert n > 0 ==> table[n - 1].offset + table[n - 1].size <= table[n].offset;
    forall i | 0 < i < n ensures table[..n][i - 1].offset + table[..n][i - 1].size <= table[..n][i].offset {
      assert table[i - 1].offset + table[i - 1].size <= table[i].offset;
    }
  }

  lemma ClimbsOn(s: seq<Partition>, x: Partition, tableOffset: int)
    requires Ordered(s, Offset) && BehindTable(s, tableOffset)
    requires if s == [] then tableOffset + TABLE_SIZE <= x.offset else s[|s| - 1].offset <= x.offset
    ensures Ordered(s + [x], Offset) && BehindTable(s + [x], tableOffset)
  {
    forall i | 0 <= i < |s| ensures s[i].offset <= x.offset {
      assert i < |s| - 1 ==> Offset(s[i]) <= Offset(s[|s| - 1]);
    }
    OneMoreOrdered(s, x, Offset, x.offset);
  }

  lemma LeastIsUnique(offset: int, from: int, align: int)
    requires align > 0 && Least(offset, from, align)
    ensures offset == AlignUp(from, align)
  {
    AlignUpIsLeast(from, align);
    hide AlignUp;
  }

  /** Where a row is going to start. */
  function Start(row: Row, lastEnd: int): int {
    match row.offset
    case Some(o) => o
    case None => AlignUp(lastEnd, Alignment(row.ptype))
  }

  /** Where a placed partition begins and ends, told from its row and what comes before it. */
  predicate FollowsOn(p: Partition, row: Row, lastEnd: int) {
    && (row.offset.Some? ==> p.offset == row.offset.value >= lastEnd)
    && (row.offset.None? ==>
          var a := if row.ptype == 0 then 0x1_0000 else 4;
          p.offset % a == 0 && lastEnd <= p.offset < lastEnd + a)
    && (if row.size < 0 then p.offset + p.size == -row.size else p.size == row.size)
  }

  /**
   Placing is exactly this: each row at its own offset, not before the end of the one before, or at the next multiple
   of 64 KiB for an application and of 4 for anything else; the first one follows the 4 KiB of the partition table.
   */
  lemma {:induction false} PlacedExactly(p: Partition, row: Row, table: seq<Partition>, tableOffset: int, i: nat)
    requires i <= |table|
    ensures var lastEnd := if i == 0 then tableOffset + 0x1000 else table[i - 1].offset + table[i - 1].size;
            PlacedAs(p, row, EndBefore(table, tableOffset, i)) <==>
            && p.name == row.name && p.ptype == row.ptype && p.subtype == row.subtype && p.encrypted == row.encrypted
            && FollowsOn(p, row, lastEnd)
  {
    var from, align := EndBefore(table, tableOffset, i), Alignment(row.ptype);
    AlignUpIsLeast(from, align);
    if row.offset.None? {
      if Least(p.offset, from, align) {
        LeastIsUnique(p.offset, from, align);
      }
      if p.offset % align == 0 && from <= p.offset < from + align {
        NextMultiple(p.offset, from, align);
      }
    }
  }

  lemma {:induction false} NextMultiple(x: int, from: int, align: int)
    requires align > 0 && x % align == 0 && from <= x < from + align
    ensures Least(x, from, align)
  {
    var q := x / align;
    assert x == align * q;
    forall y | from <= y < x ensures y % align != 0 {
      assert align * (q - 1) == align * q - align;
      Remainder(align, q - 1, y - align * (q - 1));
    }
  }

  /** A placed size is negative exactly when the row asks for an end before its own start. */
  lemma NegativeSize(p: Partition, row: Row, lastEnd: int)
    requires PlacedAs(p, row, lastEnd)
    ensures p.offset == Start(row, lastEnd)
    ensures p.size < 0 <==> row.size < 0 && -row.size < Start(row, lastEnd)
  {
    if row.offset.None? {
      LeastIsUnique(p.offset, lastEnd, Alignment(row.ptype));
    }
  }

  /**
   No placed size is negative, which makes the placement sound, exactly when no row asks for an end before its start.
   */
  lemma NoNegativeSize(table: seq<Partition>, rows: seq<Row>, tableOffset: int)
    requires AllPlaced(table, rows, tableOffset)
    ensures (forall i :: 0 <= i < |table| ==> table[i].size >= 0) <==>
            (forall i :: 0 <= i < |table| ==> rows[i].size >= 0
                                              || Start(rows[i], EndBefore(table, tableOffset, i)) <= -rows[i].size)
  {
    forall i | 0 <= i < |table|
      ensures table[i].size >= 0 <==>
              rows[i].size >= 0 || Start(rows[i], EndBefore(table, tableOffset, i)) <= -rows[i].size
    {
      NegativeSize(table[i], rows[i], EndBefore(table, tableOffset, i));
    }
  }

  /** With a negative size the next row may be placed over an earlier one. */
  lemma NegativeSizeOverlaps()
    ensures exists rows, table ::
              AllPlaced(table, rows, 0x8000) && |table| == |rows| && !NeighboursApart(Sorted(table, Offset))
  {
    hide Sorted, Insert;
    var rows := [Row([97], 1, 0, None, 0x1000, false), Row([98], 1, 0, None, -0x9800, false),
      Row([99], 1, 0, None, 0x100, false)];
    var table := [Partition([97], 1, 0, 0x9000, 0x1000, false), Partition([98], 1, 0, 0xA000, -0x800, false),
      Partition([99], 1, 0, 0x9800, 0x100, false)];
    assert Least(0x9000, 0x9000, 4) && Least(0xA000, 0xA000, 4) && Least(0x9800, 0x9800, 4);
    assert PlacedAs(table[0], rows[0], EndBefore(table, 0x8000, 0));
    assert PlacedAs(table[1], rows[1], EndBefore(table, 0x8000, 1));
    assert PlacedAs(table[2], rows[2], EndBefore(table, 0x8000, 2));
    assert AllPlaced(table, rows, 0x8000);
    assert !Disjoint(table[0], table[2]);
    NeighboursDecide(table);
  }
}
