/**
 cbuf: a circular buffer with one slot always free, as a bounded first-in first-out queue.
 */
module CircularBuffer {
  import opened Values
  import opened Sequences

  // ----- the queue

  /** `size` counts the free slot, so a queue holds at most size - 1 bytes. */
  datatype Fifo = Fifo(contents: bytes, size: nat)

  function Room(f: Fifo): int {
    f.size - |f.contents| - 1
  }

  function Min(a: nat, b: nat): (r: nat)
    ensures r <= a && r <= b && (r == a || r == b)
  {
    if a < b then a else b
  }

  function WriteOne(f: Fifo, c: byte): Fifo {
    if Room(f) <= 0 then f else f.(contents := f.contents + [c])
  }

  function WriteEach(f: Fifo, src: bytes): Fifo {
    if src == [] then f else WriteOne(WriteEach(f, src[..|src| - 1]), src[|src| - 1])
  }

  /** What a bulk write leaves. */
  function WriteAll(f: Fifo, src: bytes): Fifo
    requires Room(f) >= 0
  {
    f.(contents := f.contents + src[..Min(|src|, Room(f))])
  }

  /** A bulk write is as many single writes, the last of which may find the queue full. */
  lemma {:induction false} WriteAllIsEach(f: Fifo, src: bytes)
    requires Room(f) >= 0
    ensures WriteEach(f, src) == WriteAll(f, src)
  {
    if src != [] {
      var init, last := src[..|src| - 1], src[|src| - 1];
      WriteAllIsEach(f, init);
      assert src == init + [last];
      if |src| <= Room(f) {
        assert f.contents + init[..|init|] + [last] == f.contents + src[..|src|];
      } else {
        assert init[..Room(f)] == src[..Room(f)];
      }
    } else {
      assert f.contents + src[..0] == f.contents;
    }
  }

  function ReadOne(f: Fifo): Fifo {
    if f.contents == [] then f else f.(contents := f.contents[1..])
  }

  /** The bytes of `n` single reads and what they leave. */
  function ReadEach(f: Fifo, n: nat): (bytes, Fifo) {
    if n == 0 then ([], f)
    else
      var (got, g) := ReadEach(f, n - 1);
      (if g.contents == [] then got else got + [g.contents[0]], ReadOne(g))
  }

  lemma {:induction false} ReadAllIsEach(f: Fifo, n: nat)
    ensures var k := Min(n, |f.contents|); ReadEach(f, n) == (f.contents[..k], f.(contents := f.contents[k..]))
  {
    if n > 0 {
      ReadAllIsEach(f, n - 1);
      var k := Min(n - 1, |f.contents|);
      if k < |f.contents| {
        assert f.contents[k..][0] == f.contents[k] && f.contents[k..][1..] == f.contents[k + 1..];
        assert f.contents[..k] + [f.contents[k]] == f.contents[..k + 1];
      }
    }
  }

  // ----- a queue in a ring of bytes

  function Ring(b: bytes, begin: nat, end: nat): (s: bytes)
    requires begin < |b| && end < |b|
    ensures |s| == if end >= begin then end - begin else |b| - (begin - end)
  {
    if end >= begin then b[begin..end] else b[begin..] + b[..end]
  }

  function Wrap(p: nat, size: nat): nat {
    if p == size then 0 else p
  }

  /** Taking bytes that do not go around. */
  lemma TakeStraight(b: bytes, begin: nat, end: nat, n: nat)
    requires begin < |b| && end < |b| && n <= |Ring(b, begin, end)| && (end < begin ==> n <= |b| - begin)
    ensures begin + n <= |b| && Wrap(begin + n, |b|) < |b|
    ensures Ring(b, begin, end)[..n] == b[begin..begin + n]
    ensures Ring(b, Wrap(begin + n, |b|), end) == Ring(b, begin, end)[n..]
  {
  }

  /** Taking bytes from both ends of the buffer. */
  lemma TakeAround(b: bytes, begin: nat, end: nat, n: nat)
    requires end < begin < |b| && |b| - begin < n <= |Ring(b, begin, end)|
    ensures var rest := n - (|b| - begin);
            && rest < |b| && Ring(b, begin, end)[..n] == b[begin..] + b[..rest]
            && Wrap(rest, |b|) == rest && Ring(b, rest, end) == Ring(b, begin, end)[n..]
  {
  }

  lemma PutStraight(b: bytes, begin: nat, end: nat, data: bytes)
    requires begin < |b| && end < |b| && |Ring(b, begin, end)| + |data| < |b| && (end >= begin ==> end + |data| <= |b|)
    ensures end + |data| <= |b| && Wrap(end + |data|, |b|) < |b|
    ensures Ring(Patched(b, end, data), begin, Wrap(end + |data|, |b|)) == Ring(b, begin, end) + data
  {
    hide Patched, Ring;
    var c := Patched(b, end, data);
    PatchedParts(b, end, data);
    if end >= begin {
      PutBehind(b, c, begin, end, data);
    } else {
      PutBefore(b, c, begin, end, data);
    }
  }

  /** Putting bytes at both ends of the buffer. */
  lemma PutAround(b: bytes, begin: nat, end: nat, data: bytes, top: nat)
    requires begin <= end < |b| && top == |b| - end < |data| && |Ring(b, begin, end)| + |data| < |b|
    ensures var c := Patched(b, end, data[0..top]);
            && |c| == |b| && |data| - top < |b| && Wrap(|data| - top, |b|) == |data| - top
            && Ring(Patched(c, 0, data[top..|data|]), begin, |data| - top) == Ring(b, begin, end) + data
  {
    var a, d := data[0..top], data[top..|data|];
    assert a + d == data;
    hide Ring, Patched;
    PutStraight(b, begin, end, a);
    PatchedParts(b, end, a);
    PutStraight(Patched(b, end, a), begin, 0, d);
    Assoc(Ring(b, begin, end), a, d);
  }

  lemma PatchedParts(s: bytes, to: nat, data: bytes)
    requires to + |data| <= |s|
    ensures var c := Patched(s, to, data);
            |c| == |s| && c[..to] == s[..to] && c[to..to + |data|] == data && c[to + |data|..] == s[to + |data|..]
  {
  }

  lemma PutBehind(b: bytes, c: bytes, begin: nat, end: nat, data: bytes)
    requires begin <= end < |b| && end + |data| <= |b| && |Ring(b, begin, end)| + |data| < |b|
    requires |c| == |b| && c[..end] == b[..end] && c[end..end + |data|] == data
    ensures Ring(c, begin, Wrap(end + |data|, |b|)) == Ring(b, begin, end) + data
  {
    assert b[begin..end] == b[..end][begin..] && c[begin..end] == c[..end][begin..];
    assert c[begin..end + |data|] == c[begin..end] + c[end..end + |data|];
    if end + |data| == |b| {
      assert c[begin..] == c[begin..end + |data|];
    }
  }

  lemma PutBefore(b: bytes, c: bytes, begin: nat, end: nat, data: bytes)
    requires end < begin < |b| && end + |data| < begin
    requires |c| == |b| && c[..end] == b[..end] && c[end..end + |data|] == data
             && c[end + |data|..] == b[end + |data|..]
    ensures Ring(c, begin, Wrap(end + |data|, |b|)) == Ring(b, begin, end) + data
  {
    var m := end + |data|;
    assert Wrap(m, |b|) == m;
    SliceOf(c, m, begin);
    SliceOf(b, m, begin);
    JoinAt(c, end, m);
    Assoc(b[begin..], b[..end], data);
  }

  lemma SliceOf(s: bytes, m: nat, k: nat)
    requires m <= k <= |s|
    ensures s[k..] == s[m..][k - m..]
  {
  }

  lemma JoinAt(s: bytes, m: nat, k: nat)
    requires m <= k <= |s|
    ensures s[..k] == s[..m] + s[m..k]
  {
  }

  // ----- the buffer

  class Cbuf {
    var size: nat
    var buf: array<byte>
    var begin: nat
    var end: nat

    ghost predicate Valid()
      reads this
    {
      size >= 1 && buf.Length == size && begin < size && end < size
    }

    ghost function Contents(): (s: bytes)
      reads this, buf
      requires Valid()
      ensures |s| < size
    {
      Ring(buf[..], begin, end)
    }

    ghost function Queue(): Fifo
      reads this, buf
      requires Valid()
    {
      Fifo(Contents(), size)
    }

    constructor (capacity: nat)
      ensures Valid() && fresh(buf) && Queue() == Fifo([], capacity + 1)
    {
      size, begin, end := capacity + 1, 0, 0;
      buf := new byte[capacity + 1](_ => 0);
    }

    function WrapIfBufend(p: nat): nat
      reads this
    {
      if p == size then 0 else p
    }

    function Available(): (n: int)
      reads this
      requires Valid()
      ensures n == |Contents()|
    {
      if end >= begin then end - begin else size - (begin - end)
    }

    function RoomLeft(): (n: int)
      reads this
      requires Valid()
      ensures n == Room(Queue()) && Available() + n == size - 1
    {
      if end >= begin then size - (end - begin) - 1 else begin - end - 1
    }

    predicate Empty()
      reads this
      requires Valid()
      ensures Empty() <==> Contents() == []
    {
      begin == end
    }

    predicate Full()
      reads this
      requires Valid()
      ensures Full() <==> RoomLeft() == 0
    {
      WrapIfBufend(end + 1) == begin
    }

    method Peek() returns (c: int)
      requires Valid()
      ensures c == if Contents() == [] then -1 else Contents()[0]
    {
      if Empty() {
        return -1;
      }
      c := buf[begin];
    }

    method Read() returns (c: int)
      requires Valid()
      modifies `begin
      ensures Valid() && c == (if old(Contents()) == [] then -1 else old(Contents())[0])
      ensures Queue() == ReadOne(old(Queue()))
    {
      if Empty() {
        return -1;
      }
      c := buf[begin];
      begin := WrapIfBufend(begin + 1);
    }

    method Write(c: byte) returns (n: nat)
      requires Valid()
      modifies `end, buf
      ensures Valid() && n == (if old(RoomLeft()) == 0 then 0 else 1)
      ensures Queue() == WriteOne(old(Queue()), c)
    {
      if Full() {
        return 0;
      }
      ghost var was := Contents();
      buf[end] := c;
      assert was == Contents();
      end := WrapIfBufend(end + 1);
      assert Contents() == was + [c];
      n := 1;
    }

    // ----- in bulk

    /** Copies the first `k` bytes out, in two parts when they go around, and says where the next one is. */
    method CopyFirst(dst: array<byte>, k: nat) returns (next: nat)
      requires Valid() && dst != buf && k <= |Contents()| && k <= dst.Length
      modifies dst
      ensures dst[..] == Contents()[..k] + old(dst[..])[k..]
      ensures next < size && Ring(buf[..], next, end) == Contents()[k..]
    {
      hide Ring, Patched;
      if end < begin && k > size - begin {
        var top := size - begin;
        ghost var b, d := buf[..], dst[..];
        TakeAround(b, begin, end, k);
        MemCopy(dst, 0, buf, begin, top);
        MemCopy(dst, top, buf, 0, k - top);
        assert b[begin..begin + top] == b[begin..] && b[0..k - top] == b[..k - top];
        PatchedTwice(d, b[begin..], b[..k - top]);
        next := WrapIfBufend(k - top);
      } else {
        ghost var b, d := buf[..], dst[..];
        TakeStraight(b, begin, end, k);
        MemCopy(dst, 0, buf, begin, k);
        PatchedOnce(d, b[begin..begin + k]);
        next := WrapIfBufend(begin + k);
      }
    }

    /** Copies the first bytes without removing them. */
    method PeekBytes(dst: array<byte>, n: nat) returns (count: nat)
      requires Valid() && dst != buf && Min(n, |Contents()|) <= dst.Length
      modifies dst
      ensures count == Min(n, |Contents()|) && dst[..] == Contents()[..count] + old(dst[..])[count..]
    {
      hide Ring;
      count := Min(n, Available());
      var _ := CopyFirst(dst, count);
    }

    /** Copies the first bytes out and removes them. */
    method ReadBytes(dst: array<byte>, n: nat) returns (count: nat)
      requires Valid() && dst != buf && Min(n, |Contents()|) <= dst.Length
      modifies `begin, dst
      ensures Valid() && count == Min(n, |old(Contents())|)
      ensures dst[..] == old(Contents())[..count] + old(dst[..])[count..]
      ensures Contents() == old(Contents())[count..]
    {
      hide Ring;
      count := Min(n, Available());
      begin := CopyFirst(dst, count);
    }

    method WriteBytes(src: array<byte>, n: nat) returns (count: nat)
      requires Valid() && src != buf && n <= src.Length
      modifies `end, buf
      ensures Valid() && count == Min(n, old(RoomLeft()))
      ensures Contents() == old(Contents()) + src[..count]
    {
      hide Ring, Min, Patched;
      count := Min(n, RoomLeft());
      ghost var data := src[..count];
      if end >= begin && count > size - end {
        var top := size - end;
        PutAround(buf[..], begin, end, data, top);
        assert src[..][0..top] == data[0..top] && src[..][top..count] == data[top..|data|];
        MemCopy(buf, end, src, 0, top);
        MemCopy(buf, 0, src, top, count - top);
        end := WrapIfBufend(count - top);
      } else {
        PutStraight(buf[..], begin, end, data);
        assert src[..][0..count] == data;
        MemCopy(buf, end, src, 0, count);
        end := WrapIfBufend(end + count);
      }
    }

    method Flush()
      requires Valid()
      modifies `begin, `end
      ensures Valid() && Contents() == []
    {
      begin, end := 0, 0;
    }

    /** Returns what is left; removing everything also resets the positions. */
    method Remove(n: nat) returns (left: nat)
      requires Valid()
      modifies `begin, `end
      ensures Valid() && Contents() == old(Contents())[Min(n, |old(Contents())|)..] && left == |Contents()|
    {
      if n >= Available() {
        Flush();
        return 0;
      }
      var toRemove := n;
      if end < begin && toRemove > size - begin {
        var top := size - begin;
        begin, toRemove := 0, toRemove - top;
      }
      begin := WrapIfBufend(begin + toRemove);
      left := Available();
    }

    /**
     Moves the bytes into a buffer for `n` bytes, unless it would not hold them. It also goes through when n + 1 is
     the number of bytes available, and only then leaves the end position outside the buffer.
     */
    method Resize(n: nat) returns (r: nat)
      requires Valid()
      modifies this
      ensures r == size
      ensures if n + 1 < |old(Contents())| || n + 1 == old(size) then
                size == old(size) && buf == old(buf) && begin == old(begin) && end == old(end)
              else
                && fresh(buf) && buf.Length == size == n + 1 && begin == 0 && end == |old(Contents())| <= size
                && buf[..end] == old(Contents()) && forall i :: end <= i < size ==> buf[i] == 0
      ensures Valid() <==> n + 1 != |old(Contents())|
      ensures Valid() ==> Contents() == old(Contents())
    {
      hide Ring;
      var bytesAvailable := Available();
      var newSize := n + 1;
      if newSize < bytesAvailable || newSize == size {
        return size;
      }
      var newbuf := new byte[newSize](_ => 0);
      ghost var all := Contents();
      var _ := ReadBytes(newbuf, bytesAvailable);
      assert newbuf[..bytesAvailable] == all;
      begin, end, size, buf := 0, bytesAvailable, newSize, newbuf;
      if end < size {
        RingStart(buf[..], end);
      }
      r := size;
    }

    /** Adds to the size, which already counts the free slot: room for one byte more than asked. */
    method ResizeAdd(n: nat) returns (r: nat)
      requires Valid()
      modifies this
      ensures Valid() && r == size == old(size) + n + 1 && Contents() == old(Contents())
      ensures fresh(buf)
    {
      r := Resize(size + n);
    }

    /** Any operation does to the buffer what it does to the queue. */
    method Perform(op: Op) returns (out: Out)
      requires Valid() && Allowed(Queue(), op)
      modifies this, buf
      ensures Valid() && (buf == old(buf) || fresh(buf))
      ensures Queue() == Next(old(Queue()), op) && out == Output(old(Queue()), op)
    {
      hide Ring;
      match op
      case DoRead =>
        var c := Read();
        out := Got(c);
      case DoPeek =>
        var c := Peek();
        out := Got(c);
      case DoWrite(c) =>
        var n := Write(c);
        out := Got(n);
      case DoReadBytes(n) =>
        out := PerformRead(n);
      case DoPeekBytes(n) =>
        var dst := new byte[Min(n, Available())](_ => 0);
        var k := PeekBytes(dst, n);
        out := Bytes(dst[..k]);
      case DoWriteBytes(src) =>
        out := PerformWrite(src);
      case DoRemove(n) =>
        var left := Remove(n);
        out := Got(left);
      case DoFlush =>
        Flush();
        out := Got(0);
      case DoResize(n) =>
        var size' := Resize(n);
        out := Got(size');
    }

    method PerformRead(n: nat) returns (out: Out)
      requires Valid()
      modifies `begin
      ensures Valid() && Queue() == Next(old(Queue()), DoReadBytes(n)) && out == Output(old(Queue()), DoReadBytes(n))
    {
      hide Ring;
      ReadAllIsEach(Queue(), n);
      var dst := new byte[Min(n, Available())](_ => 0);
      var k := ReadBytes(dst, n);
      out := Bytes(dst[..k]);
    }

    method PerformWrite(src: bytes) returns (out: Out)
      requires Valid()
      modifies `end, buf
      ensures Valid() && Queue() == Next(old(Queue()), DoWriteBytes(src))
              && out == Output(old(Queue()), DoWriteBytes(src))
    {
      hide Ring;
      WriteAllIsEach(Queue(), src);
      var s := new byte[|src|](i requires 0 <= i < |src| => src[i]);
      assert s[..] == src;
      var k := WriteBytes(s, |src|);
      out := Got(k);
      assert s[..k] == src[..k];
    }

    /** Over any run the buffer behaves as the queue. */
    method Run(ops: seq<Op>) returns (outs: seq<Out>)
      requires Valid() && AllAllowed(Queue(), ops)
      modifies this, buf
      ensures Valid() && (buf == old(buf) || fresh(buf))
      ensures Queue() == After(old(Queue()), ops) && outs == Outputs(old(Queue()), ops)
    {
      hide Ring, Next, Output, Allowed;
      outs := [];
      ghost var q0 := Queue();
      for i := 0 to |ops|
        invariant Valid() && (buf == old(buf) || fresh(buf))
        invariant Queue() == After(q0, ops[..i]) && outs == Outputs(q0, ops[..i])
      {
        AllowedAt(q0, ops, i);
        assert ops[..i + 1][..i] == ops[..i];
        var out := Perform(ops[i]);
        outs := outs + [out];
      }
      assert ops[..|ops|] == ops;
    }
  }

  lemma RingStart(b: bytes, end: nat)
    requires end < |b|
    ensures Ring(b, 0, end) == b[..end]
  {
  }

  // ----- runs

  datatype Op =
    | DoRead | DoPeek | DoWrite(c: byte)
    | DoReadBytes(n: nat) | DoPeekBytes(n: nat) | DoWriteBytes(src: bytes)
    | DoRemove(n: nat) | DoFlush | DoResize(n: nat)

  datatype Out = Got(c: int) | Bytes(b: bytes)

  /** All but the resize that would leave no free slot. */
  predicate Allowed(f: Fifo, op: Op) {
    op.DoResize? ==> op.n + 1 != |f.contents|
  }

  /** The queue after an operation; bulk operations are repeated single ones. */
  function Next(f: Fifo, op: Op): Fifo {
    match op
    case DoRead => ReadOne(f)
    case DoPeek => f
    case DoWrite(c) => WriteOne(f, c)
    case DoReadBytes(n) => ReadEach(f, n).1
    case DoPeekBytes(n) => f
    case DoWriteBytes(src) => WriteEach(f, src)
    case DoRemove(n) => f.(contents := f.contents[Min(n, |f.contents|)..])
    case DoFlush => f.(contents := [])
    case DoResize(n) => if n + 1 < |f.contents| then f else f.(size := n + 1)
  }

  function Output(f: Fifo, op: Op): Out {
    match op
    case DoRead => Got(if f.contents == [] then -1 else f.contents[0])
    case DoPeek => Got(if f.contents == [] then -1 else f.contents[0])
    case DoWrite(c) => Got(if Room(f) == 0 then 0 else 1)
    case DoReadBytes(n) => Bytes(ReadEach(f, n).0)
    case DoPeekBytes(n) => Bytes(f.contents[..Min(n, |f.contents|)])
    case DoWriteBytes(src) => Got(|WriteEach(f, src).contents| - |f.contents|)
    case DoRemove(n) => Got(|f.contents| - Min(n, |f.contents|))
    case DoFlush => Got(0)
    case DoResize(n) => Got(Next(f, op).size)
  }

  function After(f: Fifo, ops: seq<Op>): Fifo {
    if ops == [] then f else Next(After(f, ops[..|ops| - 1]), ops[|ops| - 1])
  }

  function Outputs(f: Fifo, ops: seq<Op>): seq<Out> {
    if ops == [] then [] else Outputs(f, ops[..|ops| - 1]) + [Output(After(f, ops[..|ops| - 1]), ops[|ops| - 1])]
  }

  ghost predicate AllAllowed(f: Fifo, ops: seq<Op>) {
    forall i :: 0 <= i < |ops| ==> Allowed(After(f, ops[..i]), ops[i])
  }

  lemma AllowedAt(f: Fifo, ops: seq<Op>, i: nat)
    requires AllAllowed(f, ops) && i < |ops|
    ensures Allowed(After(f, ops[..i]), ops[i])
  {
  }

  /** `data` put over part of `s`. */
  function Patched(s: bytes, to: nat, data: bytes): bytes
    requires to + |data| <= |s|
  {
    s[..to] + data + s[to + |data|..]
  }

  lemma PatchedTwice(s: bytes, a: bytes, b: bytes)
    requires |a| + |b| <= |s|
    ensures |Patched(s, 0, a)| == |s| && Patched(Patched(s, 0, a), |a|, b) == a + b + s[|a| + |b|..]
  {
  }

  lemma PatchedOnce(s: bytes, a: bytes)
    requires |a| <= |s|
    ensures Patched(s, 0, a) == a + s[|a|..]
  {
  }

  /** memcpy between different blocks. */
  method MemCopy(dst: array<byte>, to: nat, src: array<byte>, from: nat, n: nat)
    requires dst != src && to + n <= dst.Length && from + n <= src.Length
    modifies dst
    ensures dst[..] == Patched(old(dst[..]), to, src[..][from..from + n])
  {
    forall i | 0 <= i < n {
      dst[to + i] := src[from + i];
    }
  }
}
