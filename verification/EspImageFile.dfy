/** The image file that pieces make: headers, segments, checksum and digest. */
module EspImageFile {
  import opened Values
  import opened LittleEndian
  import opened EspImage

  datatype Settings = Settings(
    flashMode: byte, flashSizeFreq: byte, entrypoint: UInt, wpPin: byte,
    clkDrv: nat, qDrv: nat, dDrv: nat, csDrv: nat, hdDrv: nat, wpDrv: nat,
    appendDigest: bool, securePad: bool)

  function JoinByte(low: nat, high: nat): byte {
    low % 16 + high % 16 * 16
  }

  function Header(cfg: Settings, count: byte): (r: bytes)
    ensures |r| == HEADER && r[1] == count
  {
    [0xe9, count, cfg.flashMode, cfg.flashSizeFreq] + Le32(cfg.entrypoint)
    + [cfg.wpPin, JoinByte(cfg.clkDrv, cfg.qDrv), JoinByte(cfg.dDrv, cfg.csDrv), JoinByte(cfg.hdDrv, cfg.wpDrv)]
    + Zeros(11) + [if cfg.appendDigest then 1 else 0]
  }

  /** A complete image, up to and including the checksum byte. */
  function Image(cfg: Settings, out: seq<Piece>): bytes
    requires AllPack(out) && |out| < 0x100
  {
    Header(cfg, |out|) + Body(out) + Zeros(AlignGap(End(out))) + [ChecksumAll(out)]
  }

  function ImageFile(cfg: Settings, out: seq<Piece>, sha256: bytes -> bytes): bytes
    requires AllPack(out) && |out| < 0x100
  {
    Image(cfg, out) + (if cfg.appendDigest then sha256(Image(cfg, out)) else [])
  }
}
