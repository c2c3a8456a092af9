/** Length-prefixed framing: `Node.sendMessage` and `Node.receiveMessage`, and their copies
    `A.sendMessageKM` and `A.receiveMessageKM`, which run the same code on the pipe to the key
    manager. A pipe is seen from one end: the writer appends to a ByteSink, the reader walks a
    ByteSource whose bytes are all there and whose `read()` answers -1 once they are used up. */
module Framing {
  import opened Bytes
  import opened IntCodec

  /** The reading end of a pipe: its bytes and the read cursor. */
  class ByteSource {
    const data: Bytes
    var pos: nat

    ghost predicate Valid()
      reads this
    {
      pos <= |data|
    }

    constructor (data: Bytes)
      ensures Valid() && this.data == data && pos == 0
    {
      this.data := data;
      pos := 0;
    }

    /** `InputStream.read()`: the next byte as 0..255, or -1 at the end of the stream. */
    method Read() returns (r: int)
      requires Valid()
      modifies this
      ensures Valid()
      ensures old(pos) < |data| ==> r == data[old(pos)] && pos == old(pos) + 1
      ensures old(pos) == |data| ==> r == -1 && pos == old(pos)
    {
      if pos < |data| {
        r := data[pos];
        pos := pos + 1;
      } else {
        r := -1;
      }
    }
  }

  /** The writing end of a pipe: everything written so far. */
  class ByteSink {
    var written: Bytes

    constructor ()
      ensures written == []
    {
      written := [];
    }

    /** `OutputStream.write(bytes)`. */
    method Write(bytes: Bytes)
      modifies this
      ensures written == old(written) + bytes
    {
      written := written + bytes;
    }
  }

  /** The bytes `sendMessage(msg)` writes: `putInt(msg.size)` then the payload. */
  function Frame(msg: Bytes): (r: Bytes)
    ensures |r| == 4 + |msg|
  {
    PutInt(|msg|) + msg
  }

  /** The four bytes the header reads of `receiveMessage` see from position pos. */
  function Header(data: Bytes, pos: nat): (h: Bytes)
    ensures |h| == 4
  {
    Reads(data, pos, 4)
  }

  /** k successive `read()`s from position i, each turned into a byte by `toByte()`. */
  function Reads(data: Bytes, i: nat, k: nat): (r: Bytes)
    ensures |r| == k
    decreases k
  {
    if k == 0 then [] else [ByteAt(data, i)] + Reads(data, i + 1, k - 1)
  }

  /** One read: the byte at i, or 0xFF (-1 as a byte) past the end of the stream. */
  function ByteAt(data: Bytes, i: nat): Byte
  {
    if i < |data| then data[i] else 0xFF
  }

  /** The header is the four reads one after the other. */
  lemma {:induction false} HeaderReads(data: Bytes, pos: nat)
    ensures Header(data, pos) ==
      [ByteAt(data, pos), ByteAt(data, pos + 1), ByteAt(data, pos + 2), ByteAt(data, pos + 3)]
  {
    assert Reads(data, pos + 3, 1) == [ByteAt(data, pos + 3)];
    assert Reads(data, pos + 1, 3) == [ByteAt(data, pos + 1)] + Reads(data, pos + 2, 2);
  }

  /** Reads that stay inside the stream see its bytes unchanged. */
  lemma {:induction false} ReadsInside(data: Bytes, i: nat, k: nat)
    requires i + k <= |data|
    ensures Reads(data, i, k) == data[i .. i + k]
    decreases k
  {
    if k > 0 {
      ReadsInside(data, i + 1, k - 1);
      assert data[i .. i + k] == [data[i]] + data[i + 1 .. i + k];
    }
  }

  /** The length `receiveMessage` reads from its header. */
  function DeclaredSize(data: Bytes, pos: nat): int
  {
    GetInt(Header(data, pos))
  }

  /** How many payload bytes `receiveMessage` collects when the stream holds enough: the loop
      runs while `buffer.size < size - 1` (32-bit arithmetic) and one more byte is added after it. */
  function Wanted(size: int): (n: nat)
    ensures n >= 1
  {
    var limit := ToInt(size - 1);
    (if limit < 0 then 0 else limit) + 1
  }

  /** The payload length `receiveMessage` asks for, by declared length: the declared length
      itself when it is positive, one byte from -2^31+1 to 0, and 2^31 bytes for -2^31, whose
      `size - 1` wraps round to `Int.MAX_VALUE`. */
  lemma {:induction false} WantedByDeclared(size: int)
    requires IsInt32(size)
    ensures Wanted(size) == if size == -TwoTo31 then TwoTo31 else if size <= 0 then 1 else size
  {
    if size == -TwoTo31 {
      assert ToInt(size - 1) == TwoTo31 - 1;
    }
  }

  /** What `receiveMessage()` returns when the reader's cursor is at pos, and where the cursor
      is afterwards: the header, then the payload loop from where the header ends. */
  function Deframe(data: Bytes, pos: nat): (r: (Bytes, nat))
    requires pos <= |data|
    ensures pos <= r.1 <= |data|
  {
    Loop(data, Min(pos + 4, |data|), [], ToInt(DeclaredSize(data, pos) - 1))
  }

  /** The payload loop and the lines after it, from the read of the byte at `at` on: -1 (the
      end of the stream) gives an empty array, otherwise the byte is added to the buffer, and the
      loop goes on reading while the buffer holds fewer than `limit` bytes. */
  function Loop(data: Bytes, at: nat, buffer: Bytes, limit: int): (r: (Bytes, nat))
    requires at <= |data|
    ensures at <= r.1 <= |data|
    decreases |data| - at
  {
    if at == |data| then ([], |data|)
    else if |buffer| < limit then Loop(data, at + 1, buffer + [data[at]], limit)
    else (buffer + [data[at]], at + 1)
  }

  /** The loop in closed form: it adds the next max(limit - |buffer|, 0) + 1 bytes to the
      buffer if the stream still holds them all, and otherwise gives an empty array with the
      stream used up. */
  lemma {:induction false} LoopResult(data: Bytes, at: nat, buffer: Bytes, limit: int)
    requires at <= |data|
    ensures var n := (if limit < |buffer| then 0 else limit - |buffer|) + 1;
      Loop(data, at, buffer, limit) ==
        if at + n <= |data| then (buffer + data[at .. at + n], at + n) else ([], |data|)
    decreases |data| - at
  {
    if at < |data| && |buffer| >= limit {
      assert data[at .. at + 1] == [data[at]];
    } else if at < |data| {
      LoopResult(data, at + 1, buffer + [data[at]], limit);
      var n := limit - |buffer| + 1;
      if at + n <= |data| {
        assert (buffer + [data[at]]) + data[at + 1 .. at + n] == buffer + data[at .. at + n];
      }
    }
  }

  /** `sendMessage(msg)`: the four-byte big-endian length, then the payload. */
  method SendMessage(output: ByteSink, msg: Bytes)
    modifies output
    ensures output.written == old(output.written) + Frame(msg)
  {
    output.Write(PutInt(|msg|));
    output.Write(msg);
  }

  /** The header half of `receiveMessage()`: four reads, turned into bytes and read as an `Int`. */
  method ReadSize(input: ByteSource) returns (size: int)
    requires input.Valid()
    modifies input
    ensures input.Valid()
    ensures size == DeclaredSize(input.data, old(input.pos))
    ensures input.pos == Min(old(input.pos) + 4, |input.data|)
  {
    ghost var start := input.pos;
    var h0 := input.Read();
    var h1 := input.Read();
    var h2 := input.Read();
    var h3 := input.Read();
    var header := [IntToByte(h0), IntToByte(h1), IntToByte(h2), IntToByte(h3)];
    HeaderReads(input.data, start);
    assert header == Header(input.data, start);
    size := GetInt(header);
  }

  /** `receiveMessage()`: the header, then a byte-by-byte loop into a buffer. */
  method ReceiveMessage(input: ByteSource) returns (msg: Bytes)
    requires input.Valid()
    modifies input
    ensures input.Valid()
    ensures (msg, input.pos) == Deframe(input.data, old(input.pos))
  {
    var size := ReadSize(input);
    ghost var result := Loop(input.data, input.pos, [], ToInt(size - 1));
    assert result == Deframe(input.data, old(input.pos));
    var buffer: Bytes := [];
    var data := input.Read();
    while data != -1 && |buffer| < ToInt(size - 1)
      invariant input.Valid()
      invariant data != -1 ==>
        0 < input.pos && data == input.data[input.pos - 1] &&
        Loop(input.data, input.pos - 1, buffer, ToInt(size - 1)) == result
      invariant data == -1 ==> input.pos == |input.data| && result == ([], |input.data|)
      decreases |input.data| - input.pos, if data == -1 then 0 else 1
    {
      buffer := buffer + [data];
      data := input.Read();
    }
    if data == -1 {
      return [];
    }
    buffer := buffer + [data];
    return buffer;
  }

  /** `receiveMessage` in closed form: the wanted bytes right after the header if the stream
      still holds them all, and otherwise an empty array, with the stream used up. */
  lemma {:induction false} DeframeReads(data: Bytes, pos: nat)
    requires pos <= |data|
    ensures var p := Min(pos + 4, |data|);
      var n := Wanted(DeclaredSize(data, pos));
      Deframe(data, pos) == if p + n <= |data| then (data[p .. p + n], p + n) else ([], |data|)
  {
    var limit := ToInt(DeclaredSize(data, pos) - 1);
    LoopResult(data, Min(pos + 4, |data|), [], limit);
    var p := Min(pos + 4, |data|);
    var n := Wanted(DeclaredSize(data, pos));
    if p + n <= |data| {
      assert [] + data[p .. p + n] == data[p .. p + n];
    }
  }

  /** A frame of 1 to 2^31 - 1 bytes found at the reader's cursor reads back as its payload, and
      the cursor ends right after the frame, so whatever follows is left for the next read. */
  lemma {:induction false} DeframeAt(data: Bytes, pos: nat, msg: Bytes)
    requires 1 <= |msg| < TwoTo31
    requires pos + 4 + |msg| <= |data|
    requires data[pos .. pos + 4 + |msg|] == Frame(msg)
    ensures Deframe(data, pos) == (msg, pos + 4 + |msg|)
  {
    ReadsInside(data, pos, 4);
    assert data[pos .. pos + 4] == Frame(msg)[..4] == PutInt(|msg|);
    GetPutInt(|msg|);
    assert Wanted(DeclaredSize(data, pos)) == |msg|;
    DeframeReads(data, pos);
    assert data[pos + 4 .. pos + 4 + |msg|] == Frame(msg)[4..] == msg;
  }

  /** Framing round trip: a frame of 1 to 2^31 - 1 bytes, read from where it starts, gives the
      payload back and leaves the cursor exactly after it, whatever surrounds it. */
  lemma {:induction false} FramingRoundTrip(before: Bytes, msg: Bytes, after: Bytes)
    requires 1 <= |msg| < TwoTo31
    ensures Deframe(before + Frame(msg) + after, |before|) == (msg, |before| + 4 + |msg|)
  {
    var data := before + Frame(msg) + after;
    assert data[|before| .. |before| + 4 + |msg|] == Frame(msg);
    DeframeAt(data, |before|, msg);
  }

  /** A non-empty result is the data just before the new cursor, as long as `Wanted` says:
      one byte for a declared length from -2^31+1 to 0, and 2^31 bytes for -2^31. */
  lemma {:induction false} DeframeSlice(data: Bytes, pos: nat)
    requires pos <= |data|
    ensures Deframe(data, pos).0 != [] ==>
      var (msg, next) := Deframe(data, pos);
      |msg| == Wanted(DeclaredSize(data, pos)) && pos + 4 + |msg| == next &&
      msg == data[next - |msg| .. next]
  {
    DeframeReads(data, pos);
  }

  /** Early end of stream: once the header has been read, the result is empty exactly when
      fewer payload bytes than declared (at least one) remain; a stream that ends inside the
      header always gives an empty result. In both cases the stream is used up. */
  lemma {:induction false} EarlyEndOfStream(data: Bytes, pos: nat)
    requires pos <= |data|
    ensures pos + 4 > |data| ==> Deframe(data, pos) == ([], |data|)
    ensures pos + 4 <= |data| && 1 <= DeclaredSize(data, pos) ==>
      (Deframe(data, pos).0 == [] <==> |data| - (pos + 4) < DeclaredSize(data, pos))
    ensures Deframe(data, pos).0 == [] ==> Deframe(data, pos).1 == |data|
  {
    DeframeReads(data, pos);
  }

  /** A declared length of 0 does not read as an empty message: the loop still takes one
      payload byte, so the byte after an empty frame is swallowed as its content. */
  lemma {:induction false} EmptyFrameTakesNextByte(before: Bytes, x: Byte, after: Bytes)
    ensures Deframe(before + Frame([]) + [x] + after, |before|) == ([x], |before| + 5)
    ensures Deframe(before + Frame([]), |before|) == ([], |before| + 4)
  {
    var data := before + Frame([]) + [x] + after;
    var pos := |before|;
    ReadsInside(data, pos, 4);
    assert Header(data, pos) == PutInt(0);
    GetPutInt(0);
    assert data[pos + 4] == x;
    DeframeReads(data, pos);
    DeframeReads(before + Frame([]), pos);
    ReadsInside(before + Frame([]), pos, 4);
    assert Header(before + Frame([]), pos) == PutInt(0);
  }
}
