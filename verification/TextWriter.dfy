/** StaticStringWriter: output into a fixed buffer, cut off where it is full, always NUL-terminated. */
module TextWriter {
  import opened Values

  function Min(a: nat, b: nat): nat {
    if a < b then a else b
  }

  class StaticStringWriter {
    const buf: array<byte>
    var p: nat
    /** Everything written so far, including what was cut off. */
    ghost var all: bytes

    /** The buffer holds the longest prefix of the output that leaves room for the terminator. */
    ghost predicate Valid()
      reads this, buf
    {
      && buf.Length >= 1
      && p == Min(|all|, buf.Length - 1)
      && buf[..p] == all[..p] && buf[p] == 0
    }

    constructor (buf: array<byte>)
      requires buf.Length >= 1
      modifies buf
      ensures Valid() && all == [] && this.buf == buf && p == 0
    {
      this.buf, p, all := buf, 0, [];
      new;
      buf[0] := 0;
    }

    method WriteByte(c: byte) returns (n: nat)
      requires Valid()
      modifies this, buf
      ensures Valid() && all == old(all) + [c] && n == p - old(p) && p >= old(p)
    {
      all := all + [c];
      if p >= buf.Length - 1 { return 0; }
      buf[p] := c;
      p := p + 1;
      buf[p] := 0;
      assert buf[..p] == old(buf[..p]) + [c];
      return 1;
    }

    method Write(s: bytes) returns (n: nat)
      requires Valid()
      modifies this, buf
      ensures Valid() && all == old(all) + s && n == p - old(p) && p >= old(p)
    {
      var begin, i := p, 0;
      while p < buf.Length - 1 && i < |s|
        invariant i <= |s| && p == begin + i < buf.Length
        invariant all == old(all) + s[..i] && p == Min(|all|, buf.Length - 1) && buf[..p] == all[..p]
      {
        buf[p] := s[i];
        p, i, all := p + 1, i + 1, all + [s[i]];
        assert buf[..p] == buf[..p - 1] + [s[i - 1]];
      }
      buf[p] := 0;
      all := old(all) + s;
      return p - begin;
    }
  }
}
