/**
 The input of a parse: the reader, one character of look-ahead, and the string storage. In copying
 mode strings are built at the left end of the pool; in place they are written over characters of
 the input that have been read already.
 */
module TextInput {
  import opened Values
  import opened Sequences
  import opened JsonGrammar
  import opened Document

  class Input {
    const doc: JsonDocument
    const cfg: Config
    const chars: array<byte>
    /** Where strings are stored: the pool, or the input itself. */
    const dst: array<byte>
    /** A reader that knows its end, or one relying on a NUL terminator. */
    const bounded: bool
    const end: nat
    /** The input as it was: up to the end, or up to its terminator. */
    ghost const text: bytes

    /** Reader: next character to read. */
    var ptr: nat
    /** StringMover: next character to write. */
    var writePtr: nat
    /** The contents of `dst`. */
    ghost var store: bytes

    /** StringBuilder: where the string starts, its size, the room it has, and whether it still fits. */
    var start: nat
    var size: nat
    var avail: nat
    var fits: bool
    /** What has been appended. */
    ghost var acc: bytes

    /** Look-ahead: the current character once loaded, and its index in the text. */
    var current: byte
    var loaded: bool
    ghost var pos: nat

    /** Characters not yet read are as they were, and the writer has not overtaken the reader. */
    ghost predicate Intact()
      reads this, chars, dst
    {
      && store == dst[..]
      && chars != doc.mem && dst == (if cfg.copying then doc.mem else chars)
      && (bounded ==> end == |text|)
      && |text| + (if bounded then 0 else 1) <= chars.Length
      && ptr <= |text| + (if bounded then 0 else 1)
      && (!cfg.copying ==> writePtr <= ptr)
      && (forall i :: ptr <= i < |text| ==> chars[i] == text[i])
      && (!bounded && ptr <= |text| ==> chars[|text|] == 0)
    }

    ghost predicate Sound()
      reads this, doc, chars, dst
    {
      doc.Valid() && Intact()
    }

    ghost predicate Synced()
      reads this
    {
      && pos <= |text| + 1
      && (loaded ==> pos <= |text| && current == At(text, pos))
      && ptr == (if bounded && pos >= |text| then |text| else if loaded then pos + 1 else pos)
    }

    ghost predicate Valid()
      reads this, doc, chars, dst
    {
      Sound() && Synced()
    }

    /** First byte free for the next string. */
    ghost function Mark(): nat
      reads this, doc
    {
      if cfg.copying then doc.left else writePtr
    }

    constructor (doc: JsonDocument, cfg: Config, input: array<byte>, len: nat, bounded: bool)
      requires doc.Valid() && input != doc.mem
      requires if bounded then len <= input.Length else len < input.Length && input[len] == 0
      ensures Valid() && pos == 0 && ptr == 0 && writePtr == 0 && !loaded && text == input[..len]
      ensures this.doc == doc && this.cfg == cfg && chars == input && this.bounded == bounded
      ensures dst == if cfg.copying then doc.mem else input
    {
      this.doc, this.cfg, chars, this.bounded, end := doc, cfg, input, bounded, len;
      dst := if cfg.copying then doc.mem else input;
      text := input[..len];
      ptr, writePtr, start, size, avail, fits, acc := 0, 0, 0, 0, 0, true, [];
      current, loaded, pos := 0, false, 0;
      new;
      store := dst[..];
    }

    /** ended() then read(): NUL at the end of a bounded input. */
    method Next() returns (c: byte)
      requires Sound() && ptr <= |text|
      modifies `ptr
      ensures Sound()
      ensures c == At(text, old(ptr))
      ensures ptr == if bounded && old(ptr) == |text| then old(ptr) else old(ptr) + 1
    {
      if bounded && ptr == end { return 0; }
      c := chars[ptr];
      ptr := ptr + 1;
    }

    // ----- string builder

    /** A string under construction: the copier gives up for good once the pool is full. */
    ghost predicate Building()
      reads this, doc
    {
      if cfg.copying then
        && doc.left == doc.right && start + avail == doc.right <= |store|
        && (fits <==> |acc| <= avail)
        && (fits ==> size == |acc| && store[start..start + size] == acc)
      else
        fits && start + |acc| == writePtr <= ptr && writePtr <= |store| && store[start..writePtr] == acc
    }

    method StartString()
      requires Sound()
      modifies `start, `size, `avail, `fits, `acc, doc`left
      ensures Sound() && Building() && acc == [] && start == old(Mark()) <= |store|
      ensures if cfg.copying then avail == old(doc.Room()) else doc.left == old(doc.left)
    {
      start := if cfg.copying then doc.left else writePtr;
      size, avail, fits, acc := 0, doc.right - doc.left, true, [];
      if cfg.copying {
        doc.left := doc.right;
      }
    }

    /** StringMover: straight into the input. */
    method AppendMoved(c: byte)
      requires Sound() && Building() && !cfg.copying && writePtr < ptr
      modifies `writePtr, `acc, `store, dst
      ensures Sound() && Building() && acc == old(acc) + [c]
      ensures SameBytes(old(store), store, start)
    {
      dst[writePtr] := c;
      acc, store, writePtr := acc + [c], store[writePtr := c], writePtr + 1;
    }

    /** StringCopier: into the pool as long as there is room. */
    method AppendCopied(c: byte)
      requires Sound() && Building() && cfg.copying
      modifies `size, `fits, `acc, `store, dst
      ensures Sound() && Building() && acc == old(acc) + [c]
      ensures SameBytes(old(store), store, start)
    {
      acc := acc + [c];
      if !fits { return; }
      if size >= avail {
        fits := false;
      } else {
        dst[start + size] := c;
        store, size := store[start + size := c], size + 1;
      }
    }

    method Append(c: byte)
      requires Sound() && Building() && (!cfg.copying ==> writePtr < ptr)
      modifies `writePtr, `size, `fits, `acc, `store, dst
      ensures Sound() && Building() && acc == old(acc) + [c]
      ensures SameBytes(old(store), store, start)
    {
      hide Intact, Building, SameBytes;
      if cfg.copying {
        AppendCopied(c);
      } else {
        AppendMoved(c);
      }
    }

    method Complete() returns (ok: bool, at: nat)
      requires Sound() && Building() && (!cfg.copying ==> writePtr < ptr)
      modifies `writePtr, `size, `fits, `acc, `store, dst, doc`left
      ensures Sound() && SameBytes(old(store), store, start) && Mark() >= start
      ensures ok <==> cfg.copying ==> |old(acc)| + 1 <= avail
      ensures ok ==> at == start && RawAt(store, at, old(acc)) && Mark() == at + |old(acc)| + 1
      ensures !cfg.copying ==> doc.left == old(doc.left)
    {
      ghost var s := acc;
      Append(0);
      assert s == acc[..|s|] && acc[|s|] == 0;
      if !fits { return false, 0; }
      if cfg.copying {
        doc.left := doc.left - (avail - size);
      }
      assert store[start..start + |acc|] == acc;
      assert store[start..start + |s|] == s;
      return true, start;
    }

    // ----- one character of look-ahead

    method Current() returns (c: byte)
      requires Valid() && pos <= |text|
      modifies `current, `loaded, `ptr
      ensures Valid() && loaded && c == At(text, pos) && old(ptr) <= ptr
    {
      if !loaded {
        current := Next();
        loaded := true;
      }
      return current;
    }

    method Move()
      requires Valid() && loaded
      modifies `loaded, `pos
      ensures Valid() && !loaded && pos == old(pos) + 1
    {
      loaded, pos := false, pos + 1;
    }

    method Eat(c: byte) returns (eaten: bool)
      requires Valid() && pos <= |text| && c != 0
      modifies `current, `loaded, `pos, `ptr
      ensures Valid() && old(ptr) <= ptr && eaten == (At(text, old(pos)) == c)
      ensures pos == (if eaten then old(pos) + 1 else old(pos)) && pos <= |text|
    {
      var d := Current();
      if d != c { return false; }
      Move();
      return true;
    }

    // ----- white space and comments

    method SkipBlockComment() returns (err: Code)
      requires Valid() && pos <= |text|
      modifies `current, `loaded, `pos, `ptr
      ensures Valid() && old(pos) <= pos <= |text| && old(ptr) <= ptr
      ensures var s := SkipBlock(text, old(pos), false); err == s.err && (err == Ok ==> pos == s.pos)
    {
      hide Intact;
      var wasStar := false;
      while true
        invariant Valid() && old(pos) <= pos <= |text| && old(ptr) <= ptr
        invariant SkipBlock(text, pos, wasStar) == SkipBlock(text, old(pos), false)
        decreases |text| - pos
      {
        var c := Current();
        if c == 0 { return IncompleteInput; }
        if c == SLASH && wasStar {
          Move();
          return Ok;
        }
        wasStar := c == STAR;
        Move();
      }
    }

    /** At the second slash. */
    method SkipLineComment() returns (err: Code)
      requires Valid() && loaded && pos < |text|
      modifies `current, `loaded, `pos, `ptr
      ensures Valid() && old(pos) <= pos <= |text| && old(ptr) <= ptr
      ensures var s := SkipLine(text, old(pos) + 1); err == s.err && (err == Ok ==> pos == s.pos)
    {
      hide Intact;
      while true
        invariant Valid() && loaded && old(pos) <= pos < |text| && old(ptr) <= ptr
        invariant SkipLine(text, pos + 1) == SkipLine(text, old(pos) + 1)
        decreases |text| - pos
      {
        Move();
        var c := Current();
        if c == 0 { return IncompleteInput; }
        if c == LF { return Ok; }
      }
    }

    /** At a slash: the whole comment. */
    method SkipComment() returns (err: Code)
      requires Valid() && loaded && pos < |text| && text[pos] == SLASH
      modifies `current, `loaded, `pos, `ptr
      ensures Valid() && old(pos) < pos <= |text| && old(ptr) <= ptr
      ensures var s := Skip(text, old(pos));
              if err == Ok then s == Skip(text, pos) else s.err == err
    {
      hide Intact, SkipLine, SkipBlock;
      Move();
      var c := Current();
      if c == STAR {
        Move();
        err := SkipBlockComment();
      } else if c == SLASH {
        err := SkipLineComment();
      } else {
        err := InvalidInput;
      }
    }

    method SkipSpacesAndComments() returns (err: Code)
      requires Valid() && pos <= |text|
      modifies `current, `loaded, `pos, `ptr
      ensures Valid() && old(pos) <= pos <= |text| && old(ptr) <= ptr
      ensures var s := Skip(text, old(pos)); err == s.err && (err == Ok ==> pos == s.pos && loaded)
    {
      hide Intact, SkipLine, SkipBlock;
      while true
        invariant Valid() && old(pos) <= pos <= |text| && old(ptr) <= ptr
        invariant Skip(text, pos) == Skip(text, old(pos))
        decreases |text| - pos
      {
        var c := Current();
        if c == 0 { return IncompleteInput; }
        if IsSpace(c) {
          Move();
        } else if c == SLASH {
          err := SkipComment();
          if err != Ok { return; }
        } else {
          return Ok;
        }
      }
    }

    // ----- strings

    /** All the text before the current character is spoken for. */
    ghost predicate Ready()
      reads this, doc, chars, dst
    {
      Valid() && pos <= |text| && (!cfg.copying ==> writePtr <= pos)
    }

    /** Outcome of a string parser for scan `s`, started with `room` pool bytes, string mark and bytes as given. */
    ghost predicate GotText(s: Text, err: Code, at: nat, room: nat, mark: nat, bytes0: bytes)
      reads this, doc, chars, dst
    {
      && Valid() && mark <= Mark() && SameBytes(bytes0, store, mark)
      && err == (if s.err != Ok then s.err else if Fits(s.text, room, cfg) then Ok else NoMemory)
      && (err == Ok ==>
            && pos == s.pos && doc.Room() == Stored(s.text, room, cfg)
            && at == mark && TextAt(store, at, s.text) && Mark() == at + |s.text| + 1)
    }

    /** One character of a quoted string, escapes resolved; `done` at the closing quote. */
    method QuotedChar(stop: byte) returns (err: Code, done: bool, c: byte)
      requires Valid() && pos <= |text| && stop != 0
      modifies `current, `loaded, `pos, `ptr
      ensures Valid() && old(pos) < pos && old(ptr) <= ptr
      ensures var q := Quoted(text, old(pos), stop);
              && (err != Ok ==> q.err == err && err != NoMemory)
              && (err == Ok && done ==> q == Text(Ok, [], pos))
              && (err == Ok && !done ==> pos <= |text| && c != 0 && q == Prepend(c, Quoted(text, pos, stop)))
    {
      hide Intact;
      done := false;
      c := Current();
      Move();
      if c == stop { return Ok, true, c; }
      if c == 0 { return IncompleteInput, false, c; }
      if c == BACKSLASH {
        c := Current();
        if c == 0 { return IncompleteInput, false, c; }
        if c == 117 { return NotSupported, false, c; }
        c := Unescape(c);
        Move();
      }
      return Ok, false, c;
    }

    ghost function Joined(acc: bytes, r: Text): Text {
      Text(r.err, acc + r.text, r.pos)
    }

    lemma JoinedStep(acc: bytes, c: byte, r: Text)
      ensures Joined(acc, Prepend(c, r)) == Joined(acc + [c], r)
    {
      assert acc + ([c] + r.text) == acc + [c] + r.text;
    }

    /** A string under construction, with the reader ahead of the writer by at least one character. */
    ghost predicate Writing()
      reads this, doc, chars, dst
    {
      Valid() && Building() && NulFree(acc) && start <= |store| && (!cfg.copying ==> writePtr < pos)
    }

    method AppendChar(c: byte)
      requires Writing() && c != 0 && (!cfg.copying ==> writePtr + 1 < pos)
      modifies `writePtr, `size, `fits, `acc, `store, dst
      ensures Writing() && acc == old(acc) + [c] && SameBytes(old(store), store, start)
    {
      Append(c);
    }

    /** One character read and, unless it was the last or a failure, appended. */
    method QuotedStep(stop: byte) returns (err: Code, done: bool)
      requires Writing() && pos <= |text| && stop != 0
      modifies `current, `loaded, `pos, `ptr, `writePtr, `size, `fits, `acc, `store, dst
      ensures Valid() && old(pos) < pos && Mark() >= old(Mark()) && SameBytes(old(store), store, start)
      ensures var q := Quoted(text, old(pos), stop);
              && (err != Ok ==> q.err == err && err != NoMemory)
              && (err == Ok && done ==> Writing() && acc == old(acc) && q == Text(Ok, [], pos))
              && (err == Ok && !done ==>
                    && Writing() && pos <= |text| && |acc| > 0 && acc == old(acc) + [acc[|acc| - 1]]
                    && q == Prepend(acc[|acc| - 1], Quoted(text, pos, stop)))
    {
      hide Quoted, Intact, SameBytes;
      BytesSelf(store, start);
      var c;
      err, done, c := QuotedChar(stop);
      if err != Ok || done { return; }
      AppendChar(c);
    }

    method QuotedRest(stop: byte) returns (err: Code)
      requires Writing() && acc == [] && pos <= |text| && stop != 0
      modifies `current, `loaded, `pos, `ptr, `writePtr, `size, `fits, `acc, `store, dst
      ensures Valid() && Mark() >= old(Mark()) && SameBytes(old(store), store, start)
      ensures var q := Quoted(text, old(pos), stop);
              err == q.err && (err == Ok ==> Writing() && acc == q.text && pos == q.pos)
    {
      hide Quoted, Intact, SameBytes, Building;
      ghost var goal := Quoted(text, pos, stop);
      assert goal == Joined([], goal);
      BytesSelf(store, start);
      while true
        invariant Writing() && pos <= |text| && Mark() >= old(Mark())
        invariant goal == Joined(acc, Quoted(text, pos, stop))
        invariant SameBytes(old(store), store, start)
        decreases |text| - pos
      {
        ghost var store1, acc1 := store, acc;
        var e, done := QuotedStep(stop);
        SameBytesTrans(old(store), store1, store, start, start);
        if e != Ok { return e; }
        if done { return Ok; }
        JoinedStep(acc1, acc[|acc| - 1], Quoted(text, pos, stop));
      }
    }

    /** Completing a string whose scan succeeded. */
    method Finish(ghost s: Text, ghost room: nat, ghost bytes0: bytes) returns (err: Code, at: nat)
      requires Writing() && acc == s.text && s.err == Ok && pos == s.pos <= |text|
      requires SameBytes(bytes0, store, start) && (cfg.copying ==> avail == room)
               && (!cfg.copying ==> doc.Room() == room)
      modifies `writePtr, `size, `fits, `acc, `store, dst, doc`left
      ensures GotText(s, err, at, room, start, bytes0)
      ensures err == Ok && !cfg.copying ==> writePtr <= pos
      ensures !cfg.copying ==> doc.left == old(doc.left)
    {
      hide SameBytes, RawAt, Quoted;
      ghost var store1 := store;
      var ok;
      ok, at := Complete();
      SameBytesTrans(bytes0, store1, store, start, start);
      err := if ok then Ok else NoMemory;
    }

    method ParseQuotedString() returns (err: Code, at: nat)
      requires Ready() && IsQuote(At(text, pos))
      modifies this, doc`left, dst
      ensures GotText(Quoted(text, old(pos) + 1, At(text, old(pos))), err, at, old(doc.Room()), old(Mark()), old(store))
      ensures err == Ok ==> Ready()
      ensures !cfg.copying ==> doc.left == old(doc.left)
    {
      hide Quoted, SameBytes, TextAt, Intact;
      StartString();
      var stop := Current();
      Move();
      err := QuotedRest(stop);
      if err != Ok { return err, 0; }
      err, at := Finish(Quoted(text, old(pos) + 1, stop), old(doc.Room()), old(store));
    }

    method TakeChar(c: byte) returns (next: byte)
      requires Writing() && loaded && pos < |text| && c == text[pos] != 0
      modifies `current, `loaded, `pos, `ptr, `writePtr, `size, `fits, `acc, `store, dst
      ensures Writing() && loaded && pos == old(pos) + 1 && next == At(text, pos)
      ensures acc == old(acc) + [c] && SameBytes(old(store), store, start)
    {
      hide Intact, SameBytes;
      Move();
      AppendChar(c);
      next := Current();
    }

    /** Word characters into a string, up to the first other one. */
    method UnquotedRest() returns (last: byte)
      requires Writing() && acc == [] && pos <= |text|
      modifies `current, `loaded, `pos, `ptr, `writePtr, `size, `fits, `acc, `store, dst
      ensures Writing() && SameBytes(old(store), store, start)
      ensures pos == WordEnd(text, old(pos)) && acc == text[old(pos)..pos] && last == At(text, pos)
    {
      hide Intact, SameBytes, WordEnd;
      BytesSelf(store, start);
      last := Current();
      while IsWord(last)
        invariant Writing() && old(pos) <= pos <= |text| && loaded && last == At(text, pos)
        invariant acc == text[old(pos)..pos] && WordEnd(text, pos) == WordEnd(text, old(pos))
        invariant SameBytes(old(store), store, start)
        decreases |text| - pos
      {
        ghost var store1 := store;
        WordStep(text, pos);
        SliceStep(text, old(pos), pos);
        last := TakeChar(last);
        SameBytesTrans(old(store), store1, store, start, start);
      }
      WordStep(text, pos);
    }

    lemma WordStep(t: bytes, p: nat)
      ensures WordEnd(t, p) == if IsWord(At(t, p)) then WordEnd(t, p + 1) else p
    {
    }

    /** Keys only: something before the current character has been used up already. */
    method ParseNonQuotedString() returns (err: Code, at: nat)
      requires Ready() && (!cfg.copying ==> writePtr < pos)
      modifies this, doc`left, dst
      ensures GotText(Unquoted(text, old(pos)), err, at, old(doc.Room()), old(Mark()), old(store))
      ensures err == Ok ==> Ready()
      ensures !cfg.copying ==> doc.left == old(doc.left)
    {
      hide WordEnd, SameBytes, TextAt, Intact;
      WordStep(text, pos);
      StartString();
      BytesSelf(store, start);
      var c := Current();
      if c == 0 { return IncompleteInput, 0; }
      if !IsWord(c) { return InvalidInput, 0; }
      c := UnquotedRest();
      err, at := Finish(Unquoted(text, old(pos)), old(doc.Room()), old(store));
    }

    /** The token buffer of parseNumericValue: word characters, at most 63. */
    method ReadToken() returns (s: bytes)
      requires Valid() && pos <= |text|
      modifies `current, `loaded, `pos, `ptr
      ensures Valid() && loaded && pos == TokenEnd(text, old(pos)) <= |text| && s == text[old(pos)..pos]
              && old(ptr) <= ptr
    {
      hide Intact, WordEnd;
      s := [];
      var c := Current();
      while IsWord(c) && |s| < MAX_TOKEN
        invariant Valid() && old(pos) <= pos <= |text| && loaded && c == At(text, pos) && old(ptr) <= ptr
        invariant s == text[old(pos)..pos] && |s| <= MAX_TOKEN && WordEnd(text, pos) == WordEnd(text, old(pos))
        decreases |text| - pos
      {
        WordStep(text, pos);
        SliceStep(text, old(pos), pos);
        Move();
        s := s + [c];
        c := Current();
      }
      WordStep(text, pos);
    }
  }

  lemma StoreIs(io: Input)
    requires io.Intact()
    ensures io.store == io.dst[..]
  {
  }

  lemma MarkBound(io: Input)
    requires io.Sound()
    ensures io.Mark() <= |io.store|
  {
  }
}
