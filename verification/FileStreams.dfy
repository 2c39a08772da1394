/** FileReadStream and FileWriteStream over an abstract file: buffering is invisible. */
module FileStreams {
  import opened Bytes
  import opened Json

  class FileReadStream {
    /** The whole file, and how far fread has come in it. */
    const file: Text
    var filePos: nat
    const buffer: array<Byte>
    /** bufferLast_ and current_ as offsets into the buffer. */
    var bufferLast: int
    var current: nat
    var readCount: nat
    var count: nat
    var eof: bool

    /** The buffer holds a stretch of the file, with a terminator behind it once the end has been reached. */
    ghost predicate Valid()
      reads this, buffer
    {
      && buffer.Length >= 4 && count + readCount == filePos <= |file| && readCount <= buffer.Length
      && count % buffer.Length == 0 && buffer[..readCount] == file[count..filePos]
      && current <= bufferLast
      && if eof then readCount < buffer.Length && bufferLast == readCount && buffer[readCount] == NUL &&
         filePos == |file|
         else readCount == buffer.Length && bufferLast == readCount - 1
    }

    /** Tell. */
    function Tell(): nat
      reads this
    {
      count + current
    }

    constructor (file: Text, buffer: array<Byte>)
      requires buffer.Length >= 4
      modifies buffer
      ensures Valid() && this.file == file && this.buffer == buffer && Tell() == 0
    {
      this.file := file;
      this.buffer := buffer;
      filePos := 0;
      bufferLast := 0;
      current := 0;
      readCount := 0;
      count := 0;
      eof := false;
      new;
      Refill();
    }

    /** fread, short only at the end of the file. */
    method Fread()
      requires filePos <= |file|
      modifies this`filePos, this`readCount, buffer
      ensures readCount == Min(buffer.Length, |file| - old(filePos)) && filePos == old(filePos) + readCount
      ensures buffer[..readCount] == file[old(filePos)..filePos]
    {
      var n := Min(buffer.Length, |file| - filePos);
      var i := 0;
      while i < n
        invariant i <= n && filePos == old(filePos)
        invariant buffer[..i] == file[filePos..filePos + i]
      {
        buffer[i] := file[filePos + i];
        i := i + 1;
      }
      readCount := n;
      filePos := filePos + n;
    }

    /** The part of Read behind the last unit of the buffer. */
    method Refill()
      requires buffer.Length >= 4 && count + readCount == filePos <= |file| && !eof
      requires count % buffer.Length == 0 && (readCount == 0 || readCount == buffer.Length)
      modifies this, buffer
      ensures Valid() && Tell() == old(filePos)
    {
      assert (count + readCount) % buffer.Length == 0 by { NextBlock(count, buffer.Length); }
      count := count + readCount;
      Fread();
      bufferLast := readCount - 1;
      current := 0;
      if readCount < buffer.Length {
        buffer[readCount] := NUL;
        bufferLast := bufferLast + 1;
        eof := true;
      }
    }

    method Read()
      requires Valid()
      modifies this, buffer
      ensures Valid() && Tell() == Min(old(Tell()) + 1, |file|)
    {
      AtEnd();
      if current < bufferLast {
        current := current + 1;
      } else if !eof {
        Refill();
      }
    }

    /** The stream stands at the end of the file exactly at the terminator. */
    lemma AtEnd()
      requires Valid()
      ensures Tell() <= |file|
      ensures eof && current == bufferLast <==> Tell() == |file|
    {
    }

    /** The file's byte at the cursor, NUL at the end. */
    function Cur(): (c: Byte)
      requires Valid()
      reads this, buffer
      ensures c == Peek(file, Tell())
    {
      if current < readCount then
        assert buffer[current] == buffer[..readCount][current] == file[count..filePos][current];
        buffer[current]
      else
        buffer[current]
    }

    /** Take: the bytes of the file in order, and then NUL for ever, Tell standing still at the file's length. */
    method Take() returns (c: Byte)
      requires Valid()
      modifies this, buffer
      ensures Valid() && c == Peek(file, old(Tell())) && Tell() == Min(old(Tell()) + 1, |file|)
    {
      c := Cur();
      Read();
    }

    /** Peek4, for detecting the encoding at the start: the next four bytes, if the file has them and they do not
        reach the end of a block of the buffer's length. With a buffer of four bytes, though allowed, they always do. */
    method Peek4() returns (r: Option<Text>)
      requires Valid()
      ensures r.Some? ==> Tell() + 4 <= |file| && r.value == file[Tell()..Tell() + 4]
      ensures r.Some? <==> Tell() + 4 <= |file| && Tell() % buffer.Length + 4 < buffer.Length
    {
      WithinBlock(count, current, buffer.Length);
      if current + 4 <= bufferLast {
        Buffered(buffer[..readCount], file, count, current);
        assert buffer[current..current + 4] == buffer[..readCount][current..current + 4];
        r := Some(buffer[current..current + 4]);
      } else {
        r := None;
      }
    }
  }

  lemma NextBlock(count: nat, n: nat)
    requires n > 0 && count % n == 0
    ensures (count + n) % n == 0
  {
    BlockOf(count / n + 1, n, 0);
    assert count == count / n * n;
    assert count + n == (count / n + 1) * n + 0;
  }

  lemma WithinBlock(count: nat, current: nat, n: nat)
    requires n > 0 && count % n == 0 && current < n
    ensures (count + current) % n == current
  {
    BlockOf(count / n, n, current);
    assert count == count / n * n;
  }

  lemma BlockOf(k: nat, n: nat, r: nat)
    requires r < n
    ensures (k * n + r) % n == r
  {
    var q := (k * n + r) / n;
    assert k * n + r == q * n + (k * n + r) % n;
    Multiples(q + 1, k, n);
    Multiples(k + 1, q, n);
  }

  lemma Multiples(a: nat, b: nat, n: nat)
    ensures a <= b ==> a * n <= b * n
  {
  }

  /** Four bytes of the buffer are four bytes of the file. */
  lemma Buffered(held: Text, file: Text, count: nat, current: nat)
    requires count + |held| <= |file| && held == file[count..count + |held|] && current + 4 <= |held|
    ensures held[current..current + 4] == file[count + current..count + current + 4]
  {
    var a, b := held[current..current + 4], file[count + current..count + current + 4];
    forall i | 0 <= i < 4 ensures a[i] == b[i] {
      assert a[i] == held[current + i] == file[count + (current + i)] == b[i];
    }
  }

  /** What `n` Takes deliver from offset `p` on. */
  function Taken(file: Text, p: nat, n: nat): Text
    decreases n
  {
    if n == 0 then [] else [Peek(file, p)] + Taken(file, Min(p + 1, |file|), n - 1)
  }

  /** They are the rest of the file, followed by NUL. */
  lemma {:induction false} TakenIsFile(file: Text, p: nat, n: nat)
    requires p <= |file|
    ensures |Taken(file, p, n)| == n
    ensures forall i :: 0 <= i < n ==> Taken(file, p, n)[i] == if p + i < |file| then file[p + i] else NUL
    decreases n
  {
    if n > 0 {
      TakenIsFile(file, Min(p + 1, |file|), n - 1);
      var rest := Taken(file, Min(p + 1, |file|), n - 1);
      assert forall i :: 1 <= i < n ==> Taken(file, p, n)[i] == rest[i - 1];
    }
  }

  lemma TakenFirst(file: Text, p: nat, n: nat)
    requires n > 0
    ensures Taken(file, p, n) == [Peek(file, p)] + Taken(file, Min(p + 1, |file|), n - 1)
  {
  }

  method TakeAll(s: FileReadStream, n: nat) returns (r: Text)
    requires s.Valid()
    modifies s, s.buffer
    ensures s.Valid() && r == Taken(s.file, old(s.Tell()), n)
  {
    hide Taken, Peek;
    r := [];
    var i: nat := 0;
    s.AtEnd();
    assert [] + Taken(s.file, s.Tell(), n) == Taken(s.file, s.Tell(), n);
    while i < n
      invariant i <= n && s.Valid() && s.Tell() <= |s.file|
      invariant r + Taken(s.file, s.Tell(), n - i) == Taken(s.file, old(s.Tell()), n)
    {
      TakenFirst(s.file, s.Tell(), n - i);
      var c := s.Take();
      Assoc(r, [c], Taken(s.file, s.Tell(), n - i - 1));
      r := r + [c];
      i := i + 1;
    }
    TakenIsFile(s.file, s.Tell(), 0);
    assert r + [] == r;
  }

  class FileWriteStream {
    /** What fwrite has delivered. */
    var sink: Text
    const buffer: array<Byte>
    var current: nat

    ghost predicate Valid()
      reads this
    {
      buffer.Length > 0 && current <= buffer.Length
    }

    /** Everything that has been put: what is flushed and what is pending. */
    ghost function Content(): Text
      requires Valid()
      reads this, buffer
    {
      sink + buffer[..current]
    }

    constructor (buffer: array<Byte>)
      requires buffer.Length > 0
      ensures Valid() && this.buffer == buffer && Content() == []
    {
      this.buffer := buffer;
      sink := [];
      current := 0;
    }

    method Flush()
      requires Valid()
      modifies this
      ensures Valid() && current == 0 && sink == old(Content()) && Content() == old(Content())
    {
      if current != 0 {
        sink := sink + buffer[..current];
        current := 0;
      }
    }

    method Put(c: Byte)
      requires Valid()
      modifies this, buffer
      ensures Valid() && Content() == old(Content()) + [c]
    {
      if current >= buffer.Length {
        Flush();
      }
      buffer[current] := c;
      current := current + 1;
    }

    /** memset at the cursor. */
    method Fill(c: Byte, n: nat)
      requires Valid() && current + n <= buffer.Length
      modifies this`current, buffer
      ensures Valid() && current == old(current) + n && Content() == old(Content()) + Repeat(c, n)
    {
      var i, start := 0, current;
      while i < n
        invariant i <= n && current == start && buffer[..start + i] == old(buffer[..current]) + Repeat(c, i)
      {
        buffer[start + i] := c;
        assert Repeat(c, i + 1) == Repeat(c, i) + [c];
        i := i + 1;
      }
      current := current + n;
      Assoc(sink, old(buffer[..current]), Repeat(c, n));
    }

    /** PutN: a first round that finds the buffer full writes nothing and makes room. */
    method PutN(c: Byte, n: nat)
      requires Valid()
      modifies this, buffer
      ensures Valid() && Content() == old(Content()) + Repeat(c, n)
    {
      var rest: nat := n;
      var avail := buffer.Length - current;
      while rest > avail
        invariant Valid() && rest <= n && avail == buffer.Length - current
        invariant Content() == old(Content()) + Repeat(c, n - rest)
        decreases rest, if avail == 0 then 1 else 0
      {
        Fill(c, avail);
        Flush();
        RepeatedConcat(c, n - rest, avail, n - rest + avail);
        Assoc(old(Content()), Repeat(c, n - rest), Repeat(c, avail));
        rest := rest - avail;
        avail := buffer.Length - current;
      }
      if rest > 0 {
        Fill(c, rest);
        RepeatedConcat(c, n - rest, rest, n);
        Assoc(old(Content()), Repeat(c, n - rest), Repeat(c, rest));
      }
    }
  }

  lemma RepeatedConcat(c: Byte, m: nat, n: nat, total: nat)
    requires total == m + n
    ensures Repeat(c, total) == Repeat(c, m) + Repeat(c, n)
  {
  }
}
