/**
 Reading an image back: the ESP32FirmwareImage constructor, and the round trip through save.
 */
module EspImageLoad {
  import opened Values
  import opened LittleEndian
  import opened EspImage
  import opened EspImageLayout
  import opened EspImageFile
  import opened EspImageContents
  import opened EspImageSave

  datatype LoadError = ShortRead | BadMagic | BadDigestField | EndOfFile | TooManySegments

  datatype Loaded = Loaded(cfg: Settings, segments: seq<Segment>, checksum: byte, stored: bytes, calculated: bytes)

  datatype LoadResult = Opened(image: Loaded) | Refused(error: LoadError)

  /** An ImageSegment with an address has its data padded to words. */
  function MakeSegment(addr: nat, data: bytes): Segment {
    if addr != 0 && |data| % 4 != 0 then Segment(addr, data + Zeros(4 - |data| % 4)) else Segment(addr, data)
  }

  datatype Reading = Read(segments: seq<Segment>, pos: nat) | Broken(error: LoadError)

  /** `count` segments from `pos` on. */
  function ReadSegments(file: bytes, pos: nat, count: nat): (r: Reading)
    ensures r.Read? ==> |r.segments| == count && (pos <= |file| ==> pos <= r.pos <= |file|)
    decreases count
  {
    if count == 0 then Read([], pos)
    else if pos + SEG_HEADER > |file| then Broken(ShortRead)
    else
      var addr, size := Read32(file[pos..pos + 4]), Read32(file[pos + 4..pos + 8]);
      if pos + SEG_HEADER + size > |file| then Broken(EndOfFile)
      else
        var rest := ReadSegments(file, pos + SEG_HEADER + size, count - 1);
        if rest.Broken? then rest
        else Read([MakeSegment(addr, file[pos + SEG_HEADER..pos + SEG_HEADER + size])] + rest.segments, rest.pos)
  }

  function Behind(segments: seq<Segment>, r: Reading): Reading {
    if r.Broken? then r else Read(segments + r.segments, r.pos)
  }

  lemma ReadStep(file: bytes, pos: nat, count: nat, segments: seq<Segment>)
    requires count > 0
    ensures Behind(segments, ReadSegments(file, pos, count)) ==
            if pos + SEG_HEADER > |file| then Broken(ShortRead)
            else
              var addr, size := Read32(file[pos..pos + 4]), Read32(file[pos + 4..pos + 8]);
              if pos + SEG_HEADER + size > |file| then Broken(EndOfFile)
              else
                var s := MakeSegment(addr, file[pos + SEG_HEADER..pos + SEG_HEADER + size]);
                Behind(segments + [s], ReadSegments(file, pos + SEG_HEADER + size, count - 1))
  {
    hide Read32, MakeSegment;
    if pos + SEG_HEADER <= |file| {
      var addr, size := Read32(file[pos..pos + 4]), Read32(file[pos + 4..pos + 8]);
      if pos + SEG_HEADER + size <= |file| {
        var s := MakeSegment(addr, file[pos + SEG_HEADER..pos + SEG_HEADER + size]);
        var rest := ReadSegments(file, pos + SEG_HEADER + size, count - 1);
        if rest.Read? {
          assert segments + ([s] + rest.segments) == segments + [s] + rest.segments;
        }
      }
    }
  }

  lemma ReadNone(file: bytes, pos: nat, count: nat, segments: seq<Segment>)
    ensures Behind(segments, ReadSegments(file, pos, 0)) == Read(segments, pos)
    ensures Behind([], ReadSegments(file, pos, count)) == ReadSegments(file, pos, count)
  {
    assert segments + [] == segments;
  }

  /** load_segment, for each segment announced. */
  method LoadSegments(file: bytes, pos0: nat, count: nat) returns (r: Reading)
    ensures r == ReadSegments(file, pos0, count)
  {
    hide Read32, MakeSegment, ReadSegments, Behind;
    var segments: seq<Segment>, pos: nat := [], pos0;
    ReadNone(file, pos, count, segments);
    for i := 0 to count
      invariant ReadSegments(file, pos0, count) == Behind(segments, ReadSegments(file, pos, count - i))
    {
      ReadStep(file, pos, count - i, segments);
      if pos + SEG_HEADER > |file| {
        return Broken(ShortRead);
      }
      var addr, size := Read32(file[pos..pos + 4]), Read32(file[pos + 4..pos + 8]);
      if pos + SEG_HEADER + size > |file| {
        return Broken(EndOfFile);
      }
      var s := MakeSegment(addr, file[pos + SEG_HEADER..pos + SEG_HEADER + size]);
      segments, pos := segments + [s], pos + SEG_HEADER + size;
    }
    ReadNone(file, pos, count, segments);
    r := Read(segments, pos);
  }

  /** calculate_checksum. */
  function SumOf(segments: seq<Segment>): byte {
    if segments == [] then CHECKSUM_MAGIC
    else Checksum(segments[|segments| - 1].data, SumOf(segments[..|segments| - 1]))
  }

  method CalculateChecksum(segments: seq<Segment>) returns (sum: byte)
    ensures sum == SumOf(segments)
  {
    sum := CHECKSUM_MAGIC;
    for i := 0 to |segments|
      invariant sum == SumOf(segments[..i])
    {
      assert segments[..i + 1][..i] == segments[..i];
      sum := ChecksumOf(segments[i].data, sum);
    }
    assert segments[..|segments|] == segments;
  }

  /** The settings a header carries. */
  function HeaderSettings(h: bytes): Settings
    requires |h| >= HEADER
  {
    Settings(h[2], h[3], Read32(h[4..8]), h[8], h[9] % 16, h[9] / 16, h[10] % 16, h[10] / 16, h[11] % 16, h[11] / 16,
             h[23] == 1, false)
  }

  function LoadImage(file: bytes, sha256: bytes -> bytes): LoadResult {
    if |file| < 8 then Refused(ShortRead)
    else if file[0] != 0xe9 then Refused(BadMagic)
    else if |file| < HEADER then Refused(ShortRead)
    else if file[23] > 1 then Refused(BadDigestField)
    else
      var body := ReadSegments(file, HEADER, file[1]);
      if body.Broken? then Refused(body.error)
      else
        var at := body.pos + AlignGap(body.pos);
        if at >= |file| then Refused(ShortRead)
        else
          var end := at + 1;
          var digest := file[23] == 1;
          var stored := if !digest then [] else if end + 32 <= |file| then file[end..end + 32] else file[end..];
          if file[1] > 16 then Refused(TooManySegments)
          else
            var calculated := if digest then sha256(file[..end]) else [];
            Opened(Loaded(HeaderSettings(file), body.segments, file[at], stored, calculated))
  }

  /** ESP32FirmwareImage(load_file). */
  method Load(file: bytes, sha256: bytes -> bytes) returns (r: LoadResult)
    ensures r == LoadImage(file, sha256)
  {
    hide ReadSegments, Read32, AlignGap, HeaderSettings;
    if |file| < 8 {
      return Refused(ShortRead);
    }
    if file[0] != 0xe9 {
      return Refused(BadMagic);
    }
    if |file| < HEADER {
      return Refused(ShortRead);
    }
    if file[23] > 1 {
      return Refused(BadDigestField);
    }
    var body := LoadSegments(file, HEADER, file[1]);
    if body.Broken? {
      return Refused(body.error);
    }
    var at := body.pos + AlignGap(body.pos);
    if at >= |file| {
      return Refused(ShortRead);
    }
    var stored, calculated := [], [];
    if file[23] == 1 {
      stored := if at + 33 <= |file| then file[at + 1..at + 33] else file[at + 1..];
      calculated := sha256(file[..at + 1]);
    }
    if |body.segments| > 16 {
      return Refused(TooManySegments);
    }
    r := Opened(Loaded(HeaderSettings(file), body.segments, file[at], stored, calculated));
  }

  // ----- reading what was written

  /** Pieces that reading does not pad any further. */
  predicate Words(out: seq<Piece>) {
    forall i :: 0 <= i < |out| ==> |out[i].seg.data| % 4 == 0
  }

  /** A file that continues with the bytes `s` at `pos`. */
  predicate At(file: bytes, pos: nat, s: bytes) {
    pos + |s| <= |file| && file[pos..pos + |s|] == s
  }

  lemma AtParts(file: bytes, pos: nat, a: bytes, b: bytes)
    requires At(file, pos, a + b)
    ensures At(file, pos, a) && At(file, pos + |a|, b)
  {
    var n := |a| + |b|;
    assert file[pos..pos + |a|] == file[pos..pos + n][..|a|];
    assert file[pos + |a|..pos + n] == file[pos..pos + n][|a|..];
  }

  lemma ReadOne(file: bytes, pos: nat, s: Segment)
    requires Packs(s) && |s.data| % 4 == 0 && At(file, pos, SegmentBytes(s))
    ensures var next := pos + SEG_HEADER + |s.data|;
            && next <= |file| && Read32(file[pos..pos + 4]) == s.addr && Read32(file[pos + 4..pos + 8]) == |s.data|
            && MakeSegment(s.addr, file[pos + 8..next]) == s
  {
    hide Le32, Read32;
    var a, n := Le32(s.addr), Le32(|s.data|);
    AtParts(file, pos, a + n, s.data);
    AtParts(file, pos, a, n);
    Le32RoundTrip(s.addr);
    Le32RoundTrip(|s.data|);
  }

  /** The bytes of the last pieces. */
  function BodyFrom(out: seq<Piece>, i: nat): bytes
    requires AllPack(out) && i <= |out|
    decreases |out| - i
  {
    if i == |out| then [] else SegmentBytes(out[i].seg) + BodyFrom(out, i + 1)
  }

  lemma {:induction false} BodySplit(out: seq<Piece>, i: nat)
    requires AllPack(out) && i <= |out|
    ensures Body(out) == Body(out[..i]) + BodyFrom(out, i)
    decreases |out| - i
  {
    hide SegmentBytes;
    if i == |out| {
      assert out[..i] == out;
    } else {
      BodySplit(out, i + 1);
      assert out[..i + 1][..i] == out[..i];
      assert Body(out[..i]) + SegmentBytes(out[i].seg) + BodyFrom(out, i + 1)
          == Body(out[..i]) + (SegmentBytes(out[i].seg) + BodyFrom(out, i + 1));
    }
  }

  lemma {:induction false} ReadPieces(file: bytes, pos: nat, out: seq<Piece>, i: nat)
    requires AllPack(out) && Words(out) && i <= |out| && At(file, pos, BodyFrom(out, i))
    ensures ReadSegments(file, pos, |out| - i) == Read(Segments(out)[i..], pos + |BodyFrom(out, i)|)
    decreases |out| - i
  {
    hide SegmentBytes, Read32, MakeSegment, At;
    if i < |out| {
      var s := out[i].seg;
      AtParts(file, pos, SegmentBytes(s), BodyFrom(out, i + 1));
      ReadOne(file, pos, s);
      ReadPieces(file, pos + SEG_HEADER + |s.data|, out, i + 1);
      assert [s] + Segments(out)[i + 1..] == Segments(out)[i..];
    }
  }

  /** What loading makes of the settings: the drive strengths are four bits wide, and secure padding leaves no trace. */
  function Stored(cfg: Settings): Settings {
    cfg.(clkDrv := cfg.clkDrv % 16, qDrv := cfg.qDrv % 16, dDrv := cfg.dDrv % 16, csDrv := cfg.csDrv % 16,
      hdDrv := cfg.hdDrv % 16, wpDrv := cfg.wpDrv % 16, securePad := false)
  }

  lemma HeaderRoundTrip(cfg: Settings, count: byte, rest: bytes)
    ensures var h := Header(cfg, count) + rest;
            && |h| >= HEADER && h[0] == 0xe9 && h[1] == count && h[23] == (if cfg.appendDigest then 1 else 0)
            && HeaderSettings(h) == Stored(cfg)
  {
    hide Le32, Read32;
    var h := Header(cfg, count) + rest;
    assert h[4..8] == Le32(cfg.entrypoint);
    Le32RoundTrip(cfg.entrypoint);
    JoinSplit(cfg.clkDrv, cfg.qDrv);
    JoinSplit(cfg.dDrv, cfg.csDrv);
    JoinSplit(cfg.hdDrv, cfg.wpDrv);
  }

  lemma JoinSplit(low: nat, high: nat)
    ensures JoinByte(low, high) % 16 == low % 16 && JoinByte(low, high) / 16 == high % 16
  {
  }

  lemma {:induction false} SumsAgree(out: seq<Piece>)
    ensures SumOf(Segments(out)) == ChecksumAll(out)
  {
    hide Checksum;
    if out != [] {
      SumsAgree(out[..|out| - 1]);
      assert Segments(out)[..|out| - 1] == Segments(out[..|out| - 1]);
    }
  }

  /** A saved image loads as the pieces written, and its checksum and digest are right. */
  lemma LoadSaved(cfg: Settings, out: seq<Piece>, sha256: bytes -> bytes)
    requires AllPack(out) && |out| < 0x100 && Words(out) && |sha256(Image(cfg, out))| == 32
    ensures var digest := if cfg.appendDigest then sha256(Image(cfg, out)) else [];
            LoadImage(ImageFile(cfg, out, sha256), sha256) ==
            if |out| > 16 then Refused(TooManySegments)
            else Opened(Loaded(Stored(cfg), Segments(out), SumOf(Segments(out)), digest, digest))
  {
    hide Header, Body, ReadSegments, HeaderSettings, ChecksumAll, Checksum, End, SumOf, AlignGap, BodyFrom, AllPack,
      Words, Zeros, At, Stored, Segments, LoadImage;
    var h, b, n := Header(cfg, |out|), Body(out), End(out);
    var gap, sum := Zeros(AlignGap(n)), ChecksumAll(out);
    var image := h + b + gap + [sum];
    var digest := if cfg.appendDigest then sha256(image) else [];
    var file := ImageFile(cfg, out, sha256);
    WholeBody(out);
    FileParts(h, b, gap, sum, digest);
    HeaderRoundTrip(cfg, |out|, b + (gap + [sum] + digest));
    ReadPieces(file, HEADER, out, 0);
    AllSegments(out);
    SumsAgree(out);
    LoadParts(file, |out|, cfg.appendDigest, Segments(out), n, sha256, digest);
  }

  lemma LoadParts(file: bytes, count: byte, digested: bool, segments: seq<Segment>, n: nat, sha256: bytes -> bytes,
                  digest: bytes)
    requires |file| >= HEADER && file[0] == 0xe9 && file[1] == count && file[23] == (if digested then 1 else 0)
    requires ReadSegments(file, HEADER, count) == Read(segments, n)
    requires var at := n + AlignGap(n);
             && at < |file| && digest == (if digested then sha256(file[..at + 1]) else [])
             && (digested ==> at + 33 == |file| && file[at + 1..at + 33] == digest)
    ensures LoadImage(file, sha256) ==
            if count > 16 then Refused(TooManySegments)
            else Opened(Loaded(HeaderSettings(file), segments, file[n + AlignGap(n)], digest, digest))
  {
    hide ReadSegments, AlignGap, HeaderSettings;
  }

  lemma AllSegments(out: seq<Piece>)
    ensures Segments(out)[0..] == Segments(out)
  {
  }

  lemma FileParts(h: bytes, b: bytes, gap: bytes, sum: byte, digest: bytes)
    requires |h| == HEADER && (|digest| == 32 || digest == [])
    ensures var file, at := h + b + gap + [sum] + digest, HEADER + |b| + |gap|;
            && file == h + (b + (gap + [sum] + digest))
            && At(file, HEADER, b) && at < |file| && file[at] == sum && file[..at + 1] == h + b + gap + [sum]
            && (digest == [] || (at + 33 == |file| && file[at + 1..at + 33] == digest))
  {
  }

  lemma WholeBody(out: seq<Piece>)
    requires AllPack(out)
    ensures BodyFrom(out, 0) == Body(out) && HEADER + |Body(out)| == End(out)
  {
    BodySplit(out, 0);
    assert out[..0] == [];
    assert [] + BodyFrom(out, 0) == BodyFrom(out, 0);
  }

  // ----- word-aligned input gives word-aligned pieces

  predicate Word(s: Segment) {
    s.addr % 4 == 0 && |s.data| % 4 == 0
  }

  predicate AllWord(s: seq<Segment>) {
    forall i :: 0 <= i < |s| ==> Word(s[i])
  }

  lemma WordsGrow(out: seq<Piece>, p: Piece)
    requires Words(out) && |p.seg.data| % 4 == 0
    ensures Words(out + [p])
  {
  }

  lemma {:induction false} WordEnd(out: seq<Piece>)
    requires Words(out)
    ensures End(out) % 4 == 0
  {
    if out != [] {
      WordEnd(out[..|out| - 1]);
    }
  }

  lemma WordPad(pos: nat, addr: nat)
    requires pos % 4 == 0 && addr % 4 == 0
    ensures AlignmentDataNeeded(pos, addr) % 4 == 0
  {
    hide AlignmentDataNeeded, OnPage;
    var r := AlignmentDataNeeded(pos, addr);
    if r > 0 {
      OnPageWord(pos + SEG_HEADER + r, addr);
      WordGap(pos, r);
    }
  }

  lemma WordGap(pos: nat, r: nat)
    requires pos % 4 == 0 && (pos + SEG_HEADER + r) % 4 == 0
    ensures r % 4 == 0
  {
  }

  lemma OnPageWord(pos: nat, addr: nat)
    requires OnPage(pos, addr) && addr % 4 == 0
    ensures pos % 4 == 0
  {
    PageWords(pos + SEG_HEADER);
    PageWords(addr);
  }

  lemma PageWords(n: nat)
    ensures n % PAGE % 4 == n % 4
  {
    assert n == n % PAGE + 4 * (16384 * (n / PAGE));
  }

  lemma WordOverhang(pos: nat, len: nat)
    requires pos % 4 == 0 && len % 4 == 0
    ensures (len + Overhang(pos, len)) % 4 == 0
  {
    PageWords(pos + SEG_HEADER + len);
  }

  lemma WordSplit(ram: seq<Segment>, n: nat)
    requires AllWord(ram) && ram != [] && n <= |ram[0].data| && n % 4 == 0
    ensures AllWord(AfterSplit(ram, n))
  {
  }

  lemma {:induction false} RunWords(out: seq<Piece>, flash: seq<Segment>, ram: seq<Segment>)
    requires Words(out) && AllWord(flash) && AllWord(ram)
    ensures var l := Run(out, flash, ram); Words(l.out) && (l.Complete? ==> AllWord(l.ram))
    decreases |flash|, Size(ram), flash != [] && !OnPage(End(out), flash[0].addr)
  {
    hide Run, Words, AllWord, AlignmentDataNeeded, End, OnPage, Overhang, Packs, Size, AfterSplit, Body, AllPack,
      OfKind;
    if flash == [] {
      RunEnds(out, ram);
      return;
    }
    Step(out, flash, ram);
    WordEnd(out);
    WordAt(flash);
    WordPad(End(out), flash[0].addr);
    var pad := AlignmentDataNeeded(End(out), flash[0].addr);
    if pad > 0 && ram != [] && pad > SEG_HEADER {
      WordAt(ram);
      var n := if pad <= |ram[0].data| then pad else |ram[0].data|;
      SplitShrinks(ram, n);
      if Packs(First(ram[0], n)) {
        WordsGrow(out, Piece(Ram, First(ram[0], n)));
        WordSplit(ram, n);
        RunWords(out + [Piece(Ram, First(ram[0], n))], flash, AfterSplit(ram, n));
      }
      return;
    }
    if pad > 0 {
      Grows(out, ZeroPiece(pad));
      WordsGrow(out, ZeroPiece(pad));
      RunWords(out + [ZeroPiece(pad)], flash, ram);
      return;
    }
    var p := FlashPiece(flash[0], End(out));
    if OnPage(End(out), flash[0].addr) && Packs(p.seg) {
      WordOverhang(End(out), |flash[0].data|);
      WordsGrow(out, p);
      RunWords(out + [p], flash[1..], ram);
    }
  }

  lemma WordAt(s: seq<Segment>)
    requires AllWord(s) && s != []
    ensures Word(s[0]) && AllWord(s[1..])
  {
  }

  lemma PiecesAreWords(cfg: Settings, flash: seq<Segment>, ram: seq<Segment>)
    requires AllWord(flash) && AllWord(ram)
    ensures Words(Pieces(cfg, flash, ram))
  {
    hide Run, End;
    RunWords([], flash, ram);
    var l := Run([], flash, ram);
    var out := if l.Complete? then l.out + RamPieces(l.ram) else l.out;
    if l.Complete? {
      RestAreWords(l.out, l.ram);
    }
    if cfg.securePad {
      WordEnd(out);
      WordSecurePad(End(out));
      WordsGrow(out, ZeroPiece(SecurePad(End(out))));
    }
  }

  lemma RestAreWords(out: seq<Piece>, ram: seq<Segment>)
    requires Words(out) && AllWord(ram)
    ensures Words(out + RamPieces(ram))
  {
  }

  lemma WordSecurePad(pos: nat)
    requires pos % 4 == 0
    ensures SecurePad(pos) % 4 == 0
  {
    hide SecurePad;
    PageWords(pos + SEG_HEADER + SecurePad(pos) + 16 + 112);
  }

  /**
   Saving word-aligned segments and loading the file gives the pieces of a good layout, the checksum stored is the
   one calculated from what was loaded, and the digests agree. More than 16 segments are refused.
   */
  method SaveThenLoad(cfg: Settings, segments: seq<Segment>, sha256: bytes -> bytes)
    returns (saved: Result, loaded: LoadResult, sum: byte, ghost out: seq<Piece>)
    requires AllWord(segments) && forall s :: |sha256(s)| == 32
    ensures saved.Saved? ==> GoodImage(cfg, segments, out) && loaded.Opened? == (|out| <= 16)
    ensures saved.Saved? && |out| <= 16 ==>
              && loaded.image.segments == Segments(out) && loaded.image.cfg == Stored(cfg)
              && loaded.image.checksum == sum == SumOf(loaded.image.segments)
              && loaded.image.stored == loaded.image.calculated
    ensures saved.Failed? ==> Excuse(saved.why, cfg, segments)
  {
    hide GoodImage, Pieces, Run, Stored, LoadImage, AllWord, Words, ImageFile, Image, Collide, SumOf;
    saved, out := Save(cfg, segments, sha256);
    loaded, sum := Refused(EndOfFile), 0;
    if saved.Saved? {
      PartsAreWords(segments);
      PiecesAreWords(cfg, FlashOf(segments), RamOf(segments));
      GoodPacks(cfg, segments, out);
      LoadSaved(cfg, out, sha256);
      loaded := Load(saved.file, sha256);
      if loaded.Opened? {
        sum := CalculateChecksum(loaded.image.segments);
      }
    }
  }

  lemma GoodPacks(cfg: Settings, segments: seq<Segment>, out: seq<Piece>)
    requires GoodImage(cfg, segments, out)
    ensures AllPack(out) && |out| < 0x100
  {
  }

  lemma PartsAreWords(segments: seq<Segment>)
    requires AllWord(segments)
    ensures AllWord(FlashOf(segments)) && AllWord(RamOf(segments))
  {
    hide FlashOf, RamOf;
    SharedOut(segments);
    var f, r := FlashOf(segments), RamOf(segments);
    forall i | 0 <= i < |f| ensures Word(f[i]) {
      assert f[i] in multiset(f) + multiset(r);
      assert f[i] in multiset(segments);
    }
    forall i | 0 <= i < |r| ensures Word(r[i]) {
      assert r[i] in multiset(f) + multiset(r);
      assert r[i] in multiset(segments);
    }
  }
}
