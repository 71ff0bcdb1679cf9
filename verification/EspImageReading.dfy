/**
 Which files the ESP32FirmwareImage constructor opens, and what it makes of them, told from the bytes of the file: any
 file, not only one that was saved.
 */
module EspImageReading {
  import opened Values
  import opened LittleEndian
  import opened EspImage
  import opened EspImageFile
  import opened EspImageContents
  import opened EspImageLoad

  predicate AllShown(file: bytes, w: seq<Segment>) {
    forall i :: 0 <= i < |w| ==> SegmentShown(file, w, i)
  }

  /** Where the checksum is: the last byte of the 16 that follow the segments, or of those they end in. */
  function SumAt(w: seq<Segment>): nat {
    DataAt(w, |w|) - 8 + (15 - (DataAt(w, |w|) - 8) % 16)
  }

  /** A file that announces the segments `w` and contains them, and a checksum. */
  predicate Contains(file: bytes, w: seq<Segment>) {
    && |file| >= 24 && file[0] == 0xE9 && file[23] <= 1 && |w| == file[1] && AllShown(file, w) && SumAt(w) < |file|
  }

  /** Data of segments with an address is padded with zeros to words. */
  predicate Worded(s: Segment, raw: Segment) {
    && s.addr == raw.addr && |raw.data| <= |s.data| && s.data[..|raw.data|] == raw.data
    && (forall k :: |raw.data| <= k < |s.data| ==> s.data[k] == 0)
    && if raw.addr == 0 then |s.data| == |raw.data| else |s.data| % 4 == 0 && |s.data| < |raw.data| + 4
  }

  predicate AllWorded(segments: seq<Segment>, w: seq<Segment>) {
    |segments| == |w| && forall i :: 0 <= i < |w| ==> Worded(segments[i], w[i])
  }

  /** The settings in the header: drive strengths two to a byte, the first in the low half. */
  predicate SettingsShown(file: bytes, cfg: Settings)
    requires |file| >= 24
  {
    && file[2] == cfg.flashMode && file[3] == cfg.flashSizeFreq && Little(file, 4, cfg.entrypoint)
    && file[8] == cfg.wpPin && cfg.appendDigest == (file[23] == 1) && !cfg.securePad
    && file[9] == cfg.clkDrv + 16 * cfg.qDrv && file[10] == cfg.dDrv + 16 * cfg.csDrv
    && file[11] == cfg.hdDrv + 16 * cfg.wpDrv
    && cfg.clkDrv < 16 && cfg.dDrv < 16 && cfg.hdDrv < 16
  }

  /** What opening a file means: its segments and settings, its checksum byte, and the digest stored behind that. */
  ghost predicate Means(file: bytes, w: seq<Segment>, image: Loaded, sha256: bytes -> bytes)
    requires Contains(file, w)
  {
    var end := SumAt(w) + 1;
    && AllWorded(image.segments, w) && SettingsShown(file, image.cfg) && image.checksum == file[end - 1]
    && if file[23] == 1 then
         && image.calculated == sha256(file[..end])
         && image.stored == file[end..if end + 32 <= |file| then end + 32 else |file|]
       else image.stored == [] && image.calculated == []
  }

  // ----- segments

  lemma {:induction false} MakeIsWorded(raw: Segment)
    ensures Worded(MakeSegment(raw.addr, raw.data), raw)
  {
  }

  lemma {:induction false} OneShown(file: bytes, w: seq<Segment>, i: nat)
    requires i < |w| && DataAt(w, i) >= 8
    ensures var pos := DataAt(w, i) - 8;
            SegmentShown(file, w, i) <==>
            && pos + 8 <= |file| && Packs(w[i]) && w[i].addr == Read32(file[pos..pos + 4])
            && |w[i].data| == Read32(file[pos + 4..pos + 8])
            && pos + 8 + |w[i].data| <= |file| && file[pos + 8..pos + 8 + |w[i].data|] == w[i].data
  {
    hide DataAt, Read32, Little;
    var pos := DataAt(w, i) - 8;
    if pos + 8 <= |file| {
      LittlePacks(file, pos, w[i].addr);
      LittlePacks(file, pos + 4, |w[i].data|);
      if Packs(w[i]) {
        LittleIsRead(file, pos, w[i].addr);
        LittleIsRead(file, pos + 4, |w[i].data|);
      }
    }
  }

  lemma LittlePacks(file: bytes, pos: nat, n: nat)
    ensures Little(file, pos, n) ==> n < 0x1_0000_0000
  {
  }

  lemma {:induction false} DataAtPrefix(w: seq<Segment>, v: seq<Segment>, i: nat)
    requires i <= |w| && w <= v
    ensures DataAt(w, i) == DataAt(v, i) && DataAt(v, i) >= 32
    decreases i
  {
    if i > 0 { DataAtPrefix(w, v, i - 1); }
  }

  lemma {:induction false} ShownMore(file: bytes, w: seq<Segment>, s: Segment)
    requires AllShown(file, w) && SegmentShown(file, w + [s], |w|)
    ensures AllShown(file, w + [s])
  {
    hide DataAt, Little;
    var v := w + [s];
    forall i | 0 <= i < |v| ensures SegmentShown(file, v, i) {
      if i < |w| {
        assert SegmentShown(file, w, i);
        DataAtPrefix(w, v, i);
        assert v[i] == w[i];
      }
    }
  }

  /** Reading on behind segments that are shown. */
  lemma {:induction false} ReadIsShown(file: bytes, w: seq<Segment>, count: nat) returns (v: seq<Segment>)
    requires AllShown(file, w) && ReadSegments(file, DataAt(w, |w|) - 8, count).Read?
    requires DataAt(w, |w|) >= 8
    ensures |v| == |w| + count && AllShown(file, v)
    decreases count
  {
    hide Read32, MakeSegment, AllShown, SegmentShown, DataAt;
    v := w;
    if count > 0 {
      var pos: nat := DataAt(w, |w|) - 8;
      var addr, size := Read32(file[pos..pos + 4]), Read32(file[pos + 4..pos + 8]);
      var s := Segment(addr, file[pos + 8..pos + 8 + size]);
      var more := w + [s];
      DataAtPrefix(w, more, |w|);
      OneShown(file, more, |w|);
      ShownMore(file, w, s);
      DataBehind(more, |w|);
      v := ReadIsShown(file, more, count - 1);
    }
  }

  lemma DataBehind(w: seq<Segment>, i: nat)
    requires i < |w|
    ensures DataAt(w, i + 1) == DataAt(w, i) + |w[i].data| + 8
  {
  }

  /** Segments that are shown are read. */
  lemma {:induction false} ShownIsRead(file: bytes, w: seq<Segment>, i: nat)
    requires AllShown(file, w) && i <= |w| && DataAt(w, i) >= 8
    ensures var r := ReadSegments(file, DataAt(w, i) - 8, |w| - i);
            && r.Read? && r.pos == DataAt(w, |w|) - 8 && AllWorded(r.segments, w[i..])
    decreases |w| - i
  {
    hide Read32, MakeSegment, SegmentShown, DataAt, Worded;
    if i < |w| {
      OneShown(file, w, i);
      DataBehind(w, i);
      assert SegmentShown(file, w, i);
      ShownIsRead(file, w, i + 1);
      var pos: nat := DataAt(w, i) - 8;
      var rest := ReadSegments(file, pos + 8 + |w[i].data|, |w| - i - 1);
      MakeIsWorded(w[i]);
      var s := MakeSegment(w[i].addr, w[i].data);
      assert [w[i]] + w[i + 1..] == w[i..];
      WordedMore(s, rest.segments, w[i], w[i + 1..]);
    }
  }

  lemma WordedMore(s: Segment, segments: seq<Segment>, raw: Segment, w: seq<Segment>)
    requires Worded(s, raw) && AllWorded(segments, w)
    ensures AllWorded([s] + segments, [raw] + w)
  {
    hide Worded;
  }

  // ----- whole files

  lemma {:induction false} SettingsAre(file: bytes)
    requires |file| >= 24
    ensures SettingsShown(file, HeaderSettings(file))
  {
    LittleIsRead(file, 4, Read32(file[4..8]));
  }

  /** What a file with up to 16 segments opens as; more are refused. */
  lemma {:induction false} ContainedIsOpened(file: bytes, w: seq<Segment>, sha256: bytes -> bytes)
    requires Contains(file, w)
    ensures var r := LoadImage(file, sha256);
            if |w| > 16 then r == Refused(TooManySegments) else r.Opened? && Means(file, w, r.image, sha256)
  {
    hide ReadSegments, AllWorded, SettingsShown, HeaderSettings, AllShown, DataAt;
    SettingsAre(file);
    DataAtPrefix(w, w, 0);
    DataAtStart(w);
    ShownIsRead(file, w, 0);
    assert w[0..] == w;
  }

  lemma DataAtStart(w: seq<Segment>)
    ensures DataAt(w, 0) == 32
  {
  }

  /** The files that open are those that contain as many segments as they announce, no more than 16. */
  lemma {:induction false} OpensExactly(file: bytes, sha256: bytes -> bytes)
    ensures LoadImage(file, sha256).Opened? <==> exists w :: Contains(file, w) && |w| <= 16
  {
    hide ReadSegments, HeaderSettings, AllShown, DataAt, AllWorded, SettingsShown;
    if LoadImage(file, sha256).Opened? {
      DataAtStart([]);
      NothingShown(file);
      var w := ReadIsShown(file, [], file[1]);
      DataAtPrefix(w, w, 0);
      DataAtStart(w);
      ShownIsRead(file, w, 0);
      assert Contains(file, w);
    }
    if w :| Contains(file, w) && |w| <= 16 {
      ContainedIsOpened(file, w, sha256);
    }
  }

  lemma NothingShown(file: bytes)
    ensures AllShown(file, [])
  {
  }
}
