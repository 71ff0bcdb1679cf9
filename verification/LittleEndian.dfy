/** Byte strings as struct.pack makes them. */
module LittleEndian {
  import opened Values

  function Zeros(n: nat): (r: bytes)
    ensures |r| == n && forall i :: 0 <= i < n ==> r[i] == 0
  {
    seq(n, _ => 0)
  }

  function Le32(n: UInt): (r: bytes)
    ensures |r| == 4
  {
    [n % 0x100, n / 0x100 % 0x100, n / 0x1_0000 % 0x100, n / 0x100_0000]
  }

  function Read32(s: bytes): (r: UInt)
    requires |s| == 4
  {
    var a: int, b: int, c: int, d: int := s[0], s[1], s[2], s[3];
    a + 0x100 * b + 0x1_0000 * c + 0x100_0000 * d
  }

  lemma Le32RoundTrip(n: UInt)
    ensures Read32(Le32(n)) == n
  {
    assert n / 0x1_0000 == n / 0x100 / 0x100 && n / 0x100_0000 == n / 0x1_0000 / 0x100;
  }

  /** `n` at `pos` in four bytes, the low one first. */
  predicate Little(file: bytes, pos: nat, n: nat) {
    && pos + 4 <= |file| && file[pos] == n % 0x100 && file[pos + 1] == n / 0x100 % 0x100
    && file[pos + 2] == n / 0x1_0000 % 0x100 && file[pos + 3] == n / 0x100_0000
  }

  lemma WordShows(file: bytes, at: nat, n: UInt)
    requires at + 4 <= |file| && file[at..at + 4] == Le32(n)
    ensures Little(file, at, n)
  {
    var x := file[at..at + 4];
    assert x[0] == file[at] && x[1] == file[at + 1] && x[2] == file[at + 2] && x[3] == file[at + 3];
  }

  /** The bytes at `pos` stand for exactly one number, and it is the one read. */
  lemma LittleIsRead(file: bytes, pos: nat, n: UInt)
    requires pos + 4 <= |file|
    ensures Little(file, pos, n) <==> Read32(file[pos..pos + 4]) == n
  {
    var s := file[pos..pos + 4];
    assert s[0] == file[pos] && s[1] == file[pos + 1] && s[2] == file[pos + 2] && s[3] == file[pos + 3];
    var a: int, b: int, c: int, d: int := s[0], s[1], s[2], s[3];
    Digits(a, b, c, d);
    if Little(file, pos, n) {
      Digits(n % 0x100, n / 0x100 % 0x100, n / 0x1_0000 % 0x100, n / 0x100_0000);
      assert n / 0x1_0000 == n / 0x100 / 0x100 && n / 0x100_0000 == n / 0x1_0000 / 0x100;
    }
  }

  lemma Digits(a: int, b: int, c: int, d: int)
    requires 0 <= a < 0x100 && 0 <= b < 0x100 && 0 <= c < 0x100 && 0 <= d < 0x100
    ensures var n := a + 0x100 * b + 0x1_0000 * c + 0x100_0000 * d;
            n % 0x100 == a && n / 0x100 % 0x100 == b && n / 0x1_0000 % 0x100 == c && n / 0x100_0000 == d
  {
    var n := a + 0x100 * b + 0x1_0000 * c + 0x100_0000 * d;
    assert n / 0x100 == b + 0x100 * c + 0x1_0000 * d;
    assert n / 0x1_0000 == c + 0x100 * d;
  }
}
