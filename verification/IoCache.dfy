// The buffered stream of my_sys.h. Pointers into a buffer are indices; `file` is what
// the descriptor of a read cache reads, `flushed` what a write cache has put on disk.
module IoCaches {
  import opened Bytes

  datatype CacheType = ReadCache | WriteCache

  /** my_b_EOF, which is INT_MIN and so no byte */
  const MY_B_EOF: int := -0x8000_0000

  class IoCache {
    var cacheType: CacheType
    var posInFile: nat
    var requestPos: nat
    var error: int

    var buffer: array<byte>
    var readPos: nat
    var readEnd: nat
    var file: seq<byte>

    var writeBuffer: array<byte>
    var writePos: nat
    var writeEnd: nat
    var startOffset: nat
    var flushed: seq<byte>

    /** How often a function behind the cache has met a hard error. */
    ghost var hardErrors: nat

    // ---- Positions ----

    /** my_b_tell */
    function Tell(): int
      reads this
    {
      if cacheType == WriteCache then posInFile + (writePos - requestPos) else posInFile + (readPos - requestPos)
    }

    /** my_b_write_tell; write_buffer has index 0 */
    function WriteTell(): int
      reads this
    {
      posInFile + writePos
    }

    /** my_b_bytes_in_cache */
    function BytesInCache(): int
      reads this
    {
      if cacheType == WriteCache then writeEnd - writePos else readEnd - readPos
    }

    /** my_b_get_bytes_in_buffer */
    function BytesInBuffer(): int
      reads this
    {
      readEnd - requestPos
    }

    // ---- Reading ----

    /** The buffer from request_pos to read_end is the file from pos_in_file on. */
    ghost predicate ReadValid()
      reads this, buffer
    {
      && cacheType == ReadCache
      && buffer.Length > 0
      && requestPos <= readPos <= readEnd <= buffer.Length
      && posInFile + (readEnd - requestPos) <= |file|
      && Window(buffer[..], file, requestPos, readEnd, posInFile)
    }

    /** Where the consumer stands in the file. */
    ghost function Offset(): (t: nat)
      requires ReadValid()
      reads this, buffer
      ensures t == Tell() && t + BytesInCache() <= |file|
    {
      posInFile + readPos - requestPos
    }

    /** Part of the assumed slow path: the buffer gets some of the file from `from` on, and some if there is any. */
    method Refill(from: nat)
      requires cacheType == ReadCache && buffer.Length > 0 && from <= |file|
      modifies this, buffer
      ensures ReadValid() && Offset() == from
      ensures file == old(file) && buffer == old(buffer) && hardErrors == old(hardErrors)
      ensures from < |file| ==> readPos < readEnd
    {
      var left := |file| - from;
      var room := if left < buffer.Length then left else buffer.Length;
      var n: nat :| n <= room && (room > 0 ==> n > 0);
      WindowFilled(buffer[..], file[from..from + n], file, from);
      Memcpy(buffer, 0, file[from..from + n]);
      posInFile, requestPos, readPos, readEnd := from, 0, 0, n;
    }

    /** Part of the assumed slow path: what the file still has of the next `count` bytes goes to the consumer, and
        the buffer is refilled from there. */
    method Deliver(out: array<byte>, at: nat, count: nat) returns (n: nat)
      requires ReadValid() && out != buffer && at + count <= out.Length
      modifies this, buffer, out
      ensures ReadValid() && file == old(file) && buffer == old(buffer) && hardErrors == old(hardErrors)
      ensures n == Min(count, |file| - old(Offset())) && Offset() == old(Offset()) + n
      ensures out[..] == Splice(old(out[..]), at, file[old(Offset())..old(Offset()) + n])
      ensures Offset() < |file| ==> readPos < readEnd
    {
      var here := posInFile + readPos - requestPos;
      n := Min(count, |file| - here);
      Memcpy(out, at, file[here..here + n]);
      Refill(here + n);
    }

    /** _my_b_read is declared only; its contract is an assumption. It delivers the next `count` bytes, or sets
        `error` to -1 on a hard error, or to the number of bytes delivered when the file ends first. With a
        count of 0 and everything consumed it refills the buffer unless the file has ended. */
    method SlowRead(out: array<byte>, at: nat, count: nat) returns (r: int)
      requires ReadValid() && out != buffer && at + count <= out.Length
      modifies this, buffer, out
      ensures ReadValid() && file == old(file) && buffer == old(buffer)
      ensures r == 0 || r == 1
      ensures hardErrors == old(hardErrors) + if r == 1 && error == -1 then 1 else 0
      ensures r == 0 ==> error == 0 && Offset() == old(Offset()) + count
      ensures r == 0 ==> out[..] == Splice(old(out[..]), at, file[old(Offset())..old(Offset()) + count])
      ensures r == 0 && count == 0 && old(readPos == readEnd) && old(Offset()) < |file| ==> readPos < readEnd
      ensures r == 1 && error != -1 ==> 0 <= error < count && old(Offset()) + error == |file| == Offset()
      ensures r == 1 && error != -1 ==> out[..] == Splice(old(out[..]), at, file[old(Offset())..])
    {
      var hardError: bool := *;
      if hardError {
        error, hardErrors := -1, hardErrors + 1;
        return 1;
      }
      var n := Deliver(out, at, count);
      if n < count {
        assert file[old(Offset())..old(Offset()) + n] == file[old(Offset())..];
        error := n;
        return 1;
      }
      error := 0;
      return 0;
    }

    /** my_b_read */
    method MyBRead(out: array<byte>, at: nat, count: nat) returns (r: int)
      requires ReadValid() && out != buffer && at + count <= out.Length
      modifies this, buffer, out
      ensures ReadValid() && file == old(file) && buffer == old(buffer)
      ensures r == 0 ==> Offset() == old(Offset()) + count
      ensures r == 0 ==> out[..] == Splice(old(out[..]), at, file[old(Offset())..old(Offset()) + count])
      ensures r == 0 || r == 1
      ensures r == 1 && error != -1 ==> 0 <= error < count && old(Offset()) + error == |file| == Offset()
      ensures r == 1 && error != -1 ==> out[..] == Splice(old(out[..]), at, file[old(Offset())..])
      ensures hardErrors == old(hardErrors) || (hardErrors == old(hardErrors) + 1 && r == 1 && error == -1)
      ensures r == 1 && error == -1 ==> hardErrors == old(hardErrors) + 1
      ensures old(readPos + count <= readEnd) ==>
                r == 0 && error == old(error) && posInFile + BytesInBuffer() == old(posInFile + BytesInBuffer())
    {
      if readPos + count <= readEnd {
        WindowPart(buffer[..], file, requestPos, readEnd, posInFile, readPos, count);
        Memcpy(out, at, buffer[readPos..readPos + count]);
        readPos := readPos + count;
        return 0;
      }
      r := SlowRead(out, at, count);
    }

    /** _my_b_get is declared only; taken to read one byte as _my_b_read does. */
    method SlowGet() returns (r: int)
      requires ReadValid()
      modifies this, buffer
      ensures ReadValid() && file == old(file) && buffer == old(buffer)
      ensures r != MY_B_EOF ==> old(Offset()) < |file| && r == file[old(Offset())] && Offset() == old(Offset()) + 1
      ensures r == MY_B_EOF ==> error == -1 || (error == 0 && old(Offset()) == |file| == Offset())
      ensures hardErrors == old(hardErrors) + if r == -0x8000_0000 && error == -1 then 1 else 0
    {
      var one := new byte[1];
      var failed := SlowRead(one, 0, 1);
      if failed != 0 {
        return MY_B_EOF;
      }
      r := one[0];
    }

    /** my_b_get */
    method MyBGet() returns (r: int)
      requires ReadValid()
      modifies this, buffer
      ensures ReadValid() && file == old(file) && buffer == old(buffer)
      ensures r != MY_B_EOF ==> old(Offset()) < |file| && r == file[old(Offset())] && Offset() == old(Offset()) + 1
      ensures r == MY_B_EOF ==> error == -1 || (error == 0 && old(Offset()) == |file| == Offset())
      ensures hardErrors == old(hardErrors) + if r == -0x8000_0000 && error == -1 then 1 else 0
      ensures old(readPos != readEnd) ==>
                r != MY_B_EOF && error == old(error) && posInFile + BytesInBuffer() == old(posInFile + BytesInBuffer())
    {
      if readPos != readEnd {
        readPos := readPos + 1;
        return buffer[readPos - 1];
      }
      r := SlowGet();
    }

    /** my_b_fill: what is left in the cache is passed over, whatever read_pos was. */
    method MyBFill() returns (n: nat)
      requires ReadValid()
      modifies this, buffer
      ensures ReadValid() && file == old(file) && buffer == old(buffer)
      ensures n > 0 ==> n == BytesInCache()
      ensures n > 0 || error != -1 ==> Offset() == old(Offset()) + old(BytesInCache())
      ensures n == 0 ==> error == -1 || Offset() == |file|
      ensures hardErrors == old(hardErrors) + if error == -1 then 1 else 0
      ensures error == -1 ==> n == 0
    {
      readPos := readEnd;
      var none := new byte[0];
      var failed := SlowRead(none, 0, 0);
      n := if failed != 0 then 0 else readEnd - readPos;
    }

    /** A loop of my_b_get up to my_b_EOF ends, with the whole rest of the file unless a hard error stopped it. */
    method DrainByGet() returns (rest: seq<byte>)
      requires ReadValid()
      modifies this, buffer
      ensures ReadValid() && file == old(file)
      ensures rest <= file[old(Offset())..]
      ensures error != -1 || hardErrors == old(hardErrors) ==> rest == file[old(Offset())..]
    {
      ghost var start, whole := Offset(), file;
      rest := [];
      var c := MyBGet();
      while c != MY_B_EOF
        invariant ReadValid() && file == whole && buffer == old(buffer)
        invariant start + |rest| <= |whole| && Matches(whole, start, rest)
        invariant c != MY_B_EOF ==> start + |rest| < |whole| && c == whole[start + |rest|]
        invariant c != MY_B_EOF ==> Offset() == start + |rest| + 1
        invariant c == MY_B_EOF ==> start + |rest| == |whole| || (error == -1 && hardErrors > old(hardErrors))
        invariant hardErrors >= old(hardErrors)
        decreases |whole| - start - |rest|
      {
        rest := rest + [c];
        c := MyBGet();
      }
      MatchesPrefix(whole, start, rest);
    }

    /** One operation of a consumer, and the bytes of the file it moved across. */
    method ReadStep(op: ReadOp) returns (chunk: Chunk, hardError: bool)
      requires ReadValid()
      modifies this, buffer
      ensures ReadValid() && file == old(file) && buffer == old(buffer)
      ensures !hardError ==> Fits(op, chunk, file, old(Offset())) && Offset() == old(Offset()) + |chunk.bytes|
      ensures !hardError && op.Fill? ==> |chunk.bytes| == old(BytesInCache())
      ensures hardError ==> error == -1
      ensures hardErrors == old(hardErrors) + if hardError then 1 else 0
    {
      match op {
        case Read(count) => chunk, hardError := ReadChunk(count);
        case Get => chunk, hardError := GetChunk();
        case Fill => chunk, hardError := FillChunk();
      }
    }

    method GetChunk() returns (chunk: Chunk, hardError: bool)
      requires ReadValid()
      modifies this, buffer
      ensures ReadValid() && file == old(file) && buffer == old(buffer)
      ensures !hardError ==> Fits(Get, chunk, file, old(Offset())) && Offset() == old(Offset()) + |chunk.bytes|
      ensures hardError ==> error == -1
      ensures hardErrors == old(hardErrors) + if hardError then 1 else 0
    {
      ghost var here := Offset();
      var c := MyBGet();
      hardError := c == MY_B_EOF && error == -1;
      chunk := Delivered(if 0 <= c < 256 then [c] else []);
      assert c != MY_B_EOF ==> [c] == file[here..here + 1];
    }

    method FillChunk() returns (chunk: Chunk, hardError: bool)
      requires ReadValid()
      modifies this, buffer
      ensures ReadValid() && file == old(file) && buffer == old(buffer)
      ensures !hardError ==> Fits(Fill, chunk, file, old(Offset())) && Offset() == old(Offset()) + |chunk.bytes|
      ensures |chunk.bytes| == old(BytesInCache())
      ensures hardError ==> error == -1
      ensures hardErrors == old(hardErrors) + if hardError then 1 else 0
    {
      ghost var here, unread := Offset(), readEnd - readPos;
      WindowPart(buffer[..], file, requestPos, readEnd, posInFile, readPos, unread);
      chunk := PassedOver(buffer[readPos..readEnd]);
      assert chunk.bytes == file[here..here + unread];
      var n := MyBFill();
      hardError := n == 0 && error == -1;
    }

    method ReadChunk(count: nat) returns (chunk: Chunk, hardError: bool)
      requires ReadValid()
      modifies this, buffer
      ensures ReadValid() && file == old(file) && buffer == old(buffer)
      ensures !hardError ==> Fits(Read(count), chunk, file, old(Offset())) && Offset() == old(Offset()) + |chunk.bytes|
      ensures hardError ==> error == -1
      ensures hardErrors == old(hardErrors) + if hardError then 1 else 0
    {
      ghost var here := Offset();
      var out := new byte[count](_ => 0);
      ghost var blank := out[..];
      var r := MyBRead(out, 0, count);
      hardError := r == 1 && error == -1;
      if hardError {
        return Delivered([]), true;
      }
      var n := if r == 0 then count else error;
      SplicedFront(blank, file[here..here + n]);
      chunk := Delivered(out[..n]);
    }

    /** Any interleaving of reads, gets and fills does what it would do on a plain byte sequence with an offset:
        each operation starts where the one before it ended and moves across exactly the bytes it should. */
    method Consume(ops: seq<ReadOp>) returns (chunks: seq<Chunk>, hardError: bool)
      requires ReadValid()
      modifies this, buffer
      ensures ReadValid() && file == old(file)
      ensures !hardError ==> Follows(ops, chunks, file, old(Offset()))
      ensures !hardError ==> Offset() == old(Offset()) + |Moved(chunks)|
      ensures !hardError ==> Moved(chunks) == file[old(Offset())..Offset()]
      ensures !hardError && NothingPassedOver(chunks) ==> Consumed(chunks) == file[old(Offset())..Offset()]
      ensures hardError ==> error == -1
      ensures hardErrors == old(hardErrors) + if hardError then 1 else 0
    {
      ghost var start, whole := Offset(), file;
      chunks, hardError := [], false;
      for i := 0 to |ops|
        invariant ReadValid() && file == whole && buffer == old(buffer) && !hardError && hardErrors == old(hardErrors)
        invariant Follows(ops[..i], chunks, whole, start) && Offset() == start + |Moved(chunks)|
      {
        chunks, hardError := ConsumeNext(ops, i, chunks, start);
        if hardError {
          return;
        }
      }
      assert ops[..|ops|] == ops;
      FollowsInOrder(ops, chunks, whole, start);
    }

    method ConsumeNext(ops: seq<ReadOp>, i: nat, chunks: seq<Chunk>, ghost start: nat)
        returns (more: seq<Chunk>, hardError: bool)
      requires i < |ops| && ReadValid()
      requires Follows(ops[..i], chunks, file, start) && Offset() == start + |Moved(chunks)|
      modifies this, buffer
      ensures ReadValid() && file == old(file) && buffer == old(buffer)
      ensures !hardError ==> Follows(ops[..i + 1], more, file, start) && Offset() == start + |Moved(more)|
      ensures hardError ==> error == -1
      ensures hardErrors == old(hardErrors) + if hardError then 1 else 0
    {
      ghost var whole, here := file, Offset();
      var chunk;
      chunk, hardError := ReadStep(ops[i]);
      more := chunks + [chunk];
      if !hardError {
        FollowsMore(ops, i, chunks, chunk, whole, start, here);
      }
    }

    // ---- Writing ----

    ghost predicate WriteValid()
      reads this
    {
      && cacheType == WriteCache
      && writePos <= writeEnd <= writeBuffer.Length
      && posInFile == startOffset + |flushed|
    }

    /** Everything written through the cache so far. */
    ghost function Written(): (w: seq<byte>)
      requires WriteValid()
      reads this, writeBuffer
      ensures WriteTell() == startOffset + |w|
    {
      flushed + writeBuffer[..writePos]
    }

    /** my_b_flush_io_cache is declared only; its contract is an assumption: on success nothing is lost and there
        is room for a byte, on a hard error `error` is -1. */
    method FlushIoCache() returns (r: int)
      requires WriteValid()
      modifies this
      ensures WriteValid() && writeBuffer == old(writeBuffer) && startOffset == old(startOffset)
      ensures r == 0 ==> Written() == old(Written()) && writePos < writeEnd
      ensures r != 0 ==> error == -1
      ensures hardErrors == old(hardErrors) + if r != 0 then 1 else 0
    {
      var hardError: bool := *;
      if hardError || writeBuffer.Length == 0 {
        error, hardErrors := -1, hardErrors + 1;
        return 1;
      }
      flushed := flushed + writeBuffer[..writePos];
      posInFile := posInFile + writePos;
      writePos := 0;
      var end: nat :| 0 < end <= writeBuffer.Length;
      writeEnd := end;
      return 0;
    }

    /** _my_b_write is declared only; its contract is an assumption: on success the data follows all earlier data. */
    method SlowWrite(data: seq<byte>) returns (r: int)
      requires WriteValid()
      modifies this
      ensures WriteValid() && writeBuffer == old(writeBuffer) && startOffset == old(startOffset)
      ensures r == 0 ==> Written() == old(Written()) + data
      ensures r != 0 ==> error == -1
      ensures hardErrors == old(hardErrors) + if r != 0 then 1 else 0
    {
      var hardError: bool := *;
      if hardError {
        error, hardErrors := -1, hardErrors + 1;
        return 1;
      }
      flushed := flushed + writeBuffer[..writePos] + data;
      posInFile := posInFile + writePos + |data|;
      writePos := 0;
      return 0;
    }

    /** my_b_write */
    method MyBWrite(data: seq<byte>) returns (r: int)
      requires WriteValid()
      modifies this, writeBuffer
      ensures WriteValid() && writeBuffer == old(writeBuffer) && startOffset == old(startOffset)
      ensures r == 0 ==> Written() == old(Written()) + data
      ensures r != 0 ==> error == -1
      ensures hardErrors == old(hardErrors) + if r != 0 then 1 else 0
      ensures old(writePos + |data| <= writeEnd) ==>
                && r == 0 && error == old(error)
                && flushed == old(flushed) && writePos == old(writePos) + |data| && writeEnd == old(writeEnd)
    {
      if writePos + |data| <= writeEnd {
        if |data| != 0 {
          Appended(writeBuffer[..], writePos, data);
          Memcpy(writeBuffer, writePos, data);
          writePos := writePos + |data|;
        }
        return 0;
      }
      r := SlowWrite(data);
    }

    /** my_b_write_byte */
    method MyBWriteByte(chr: byte) returns (r: int)
      requires WriteValid()
      modifies this, writeBuffer
      ensures WriteValid() && writeBuffer == old(writeBuffer) && startOffset == old(startOffset)
      ensures r == 0 ==> Written() == old(Written()) + [chr]
      ensures r != 0 ==> r == 1 && error == -1
      ensures hardErrors == old(hardErrors) + if r != 0 then 1 else 0
      ensures old(writePos < writeEnd) ==>
                && r == 0 && error == old(error)
                && flushed == old(flushed) && writePos == old(writePos) + 1 && writeEnd == old(writeEnd)
    {
      if writePos >= writeEnd {
        var failed := FlushIoCache();
        if failed != 0 {
          return 1;
        }
      }
      writeBuffer[writePos] := chr;
      writePos := writePos + 1;
      return 0;
    }

    /** After any writes that all succeed, what is on disk and in the buffer is all that was written, in order. */
    method Produce(ops: seq<WriteOp>) returns (failed: bool)
      requires WriteValid()
      modifies this, writeBuffer
      ensures WriteValid() && writeBuffer == old(writeBuffer) && startOffset == old(startOffset)
      ensures !failed ==> Written() == old(Written()) + Payload(ops)
      ensures !failed ==> WriteTell() == old(WriteTell()) + |Payload(ops)|
      ensures failed ==> error == -1
      ensures hardErrors == old(hardErrors) + if failed then 1 else 0
    {
      ghost var before := Written();
      for i := 0 to |ops|
        invariant WriteValid() && writeBuffer == old(writeBuffer) && startOffset == old(startOffset)
        invariant Written() == before + Payload(ops[..i]) && hardErrors == old(hardErrors)
      {
        var r;
        match ops[i] {
          case Write(data) => r := MyBWrite(data);
          case WriteByte(chr) => r := MyBWriteByte(chr);
        }
        if r != 0 {
          return true;
        }
        PayloadMore(ops, i, before);
      }
      assert ops[..|ops|] == ops;
      return false;
    }
  }

  datatype ReadOp = Read(count: nat) | Get | Fill

  datatype Chunk = Delivered(bytes: seq<byte>) | PassedOver(bytes: seq<byte>)

  /** All the bytes moved across, in order. */
  ghost function Moved(chunks: seq<Chunk>): seq<byte> {
    if chunks == [] then [] else Moved(chunks[..|chunks| - 1]) + chunks[|chunks| - 1].bytes
  }

  /** What one operation moves across when the consumer stands at `pos` of a plain file. A read or get delivers
      all it asked for unless the file ends first; a fill passes over bytes, how many the cache decides. */
  ghost predicate Fits(op: ReadOp, chunk: Chunk, file: seq<byte>, pos: nat) {
    && pos <= |file|
    && match op
       case Read(n) => chunk == Delivered(file[pos..pos + Min(n, |file| - pos)])
       case Get => chunk == Delivered(file[pos..pos + Min(1, |file| - pos)])
       case Fill => chunk.PassedOver? && pos + |chunk.bytes| <= |file| && chunk.bytes == file[pos..pos + |chunk.bytes|]
  }

  /** Every operation moves across what it should from where all the earlier ones ended. */
  ghost predicate Follows(ops: seq<ReadOp>, chunks: seq<Chunk>, file: seq<byte>, start: nat) {
    && |chunks| == |ops|
    && (ops != [] ==>
          var n := |ops| - 1;
          && Follows(ops[..n], chunks[..n], file, start)
          && Fits(ops[n], chunks[n], file, start + |Moved(chunks[..n])|))
  }

  lemma {:induction false} FollowsMore(ops: seq<ReadOp>, i: nat, chunks: seq<Chunk>, chunk: Chunk, file: seq<byte>,
                                       start: nat, here: nat)
    requires i < |ops| && Follows(ops[..i], chunks, file, start)
    requires here == start + |Moved(chunks)| && Fits(ops[i], chunk, file, here)
    ensures Follows(ops[..i + 1], chunks + [chunk], file, start)
    ensures Moved(chunks + [chunk]) == Moved(chunks) + chunk.bytes
  {
    assert ops[..i + 1][..i] == ops[..i] && (chunks + [chunk])[..i] == chunks;
  }

  lemma {:induction false} SlicesJoin<T>(s: seq<T>, i: nat, j: nat, k: nat)
    requires i <= j <= k <= |s|
    ensures s[i..j] + s[j..k] == s[i..k]
  {
  }

  lemma {:induction false} FitsSlice(op: ReadOp, chunk: Chunk, file: seq<byte>, pos: nat)
    requires Fits(op, chunk, file, pos)
    ensures pos + |chunk.bytes| <= |file| && chunk.bytes == file[pos..pos + |chunk.bytes|]
  {
  }

  lemma {:induction false} MovedInOrder(ops: seq<ReadOp>, chunks: seq<Chunk>, file: seq<byte>, start: nat)
    requires start <= |file| && Follows(ops, chunks, file, start)
    ensures start + |Moved(chunks)| <= |file|
    ensures Moved(chunks) == file[start..start + |Moved(chunks)|]
  {
    if ops != [] {
      var n := |ops| - 1;
      MovedInOrder(ops[..n], chunks[..n], file, start);
      var here, k := start + |Moved(chunks[..n])|, |chunks[n].bytes|;
      FitsSlice(ops[n], chunks[n], file, here);
      SlicesJoin(file, start, here, here + k);
    }
  }

  /** So together they move through the file in order, without gap or repetition. */
  lemma {:induction false} FollowsInOrder(ops: seq<ReadOp>, chunks: seq<Chunk>, file: seq<byte>, start: nat)
    requires start <= |file| && Follows(ops, chunks, file, start)
    ensures start + |Moved(chunks)| <= |file|
    ensures Moved(chunks) == file[start..start + |Moved(chunks)|]
    ensures NothingPassedOver(chunks) ==> Consumed(chunks) == Moved(chunks)
  {
    MovedInOrder(ops, chunks, file, start);
    AllDelivered(chunks);
  }

  function DeliveredBytes(chunk: Chunk): seq<byte> {
    match chunk
    case Delivered(bytes) => bytes
    case PassedOver(_) => []
  }

  /** The bytes handed to the consumer, in order. */
  ghost function Consumed(chunks: seq<Chunk>): seq<byte> {
    if chunks == [] then []
    else Consumed(chunks[..|chunks| - 1]) + DeliveredBytes(chunks[|chunks| - 1])
  }

  ghost predicate NothingPassedOver(chunks: seq<Chunk>) {
    forall i :: 0 <= i < |chunks| && chunks[i].PassedOver? ==> chunks[i].bytes == []
  }

  lemma {:induction false} AllDelivered(chunks: seq<Chunk>)
    ensures NothingPassedOver(chunks) ==> Consumed(chunks) == Moved(chunks)
  {
    if chunks != [] {
      AllDelivered(chunks[..|chunks| - 1]);
    }
  }

  datatype WriteOp = Write(data: seq<byte>) | WriteByte(chr: byte)

  function BytesOf(op: WriteOp): seq<byte> {
    match op
    case Write(data) => data
    case WriteByte(chr) => [chr]
  }

  /** The bytes of all the writes, in order. */
  function Payload(ops: seq<WriteOp>): seq<byte> {
    if ops == [] then [] else Payload(ops[..|ops| - 1]) + BytesOf(ops[|ops| - 1])
  }

  lemma {:induction false} PayloadMore(ops: seq<WriteOp>, i: nat, before: seq<byte>)
    requires i < |ops|
    ensures before + Payload(ops[..i + 1]) == before + Payload(ops[..i]) + BytesOf(ops[i])
  {
    assert ops[..i + 1][..i] == ops[..i];
  }

  /** On a read cache the position in the file plus the bytes cached is the position of the buffer plus its bytes. */
  lemma {:induction false} TellAndCache(c: IoCache)
    requires c.cacheType == ReadCache
    ensures c.Tell() + c.BytesInCache() == c.posInFile + c.BytesInBuffer()
  {
  }

  /** On a write cache my_b_tell counts from request_pos, so it is the position of all that was written when
      request_pos is the start of the buffer, as my_b_write_tell always is. */
  lemma {:induction false} TellOfWriteCache(c: IoCache)
    requires c.WriteValid()
    ensures c.Tell() == c.startOffset + |c.Written()| - c.requestPos
    ensures c.WriteTell() == c.startOffset + |c.Written()|
    ensures c.WriteTell() + c.BytesInCache() == c.posInFile + c.writeEnd
  {
  }

  /** part is the file from `start` on, as far as it goes. */
  ghost predicate Matches(file: seq<byte>, start: nat, part: seq<byte>) {
    start + |part| <= |file| && forall i :: 0 <= i < |part| ==> part[i] == file[start + i]
  }

  lemma {:induction false} MatchesPrefix(file: seq<byte>, start: nat, part: seq<byte>)
    requires Matches(file, start, part)
    ensures part <= file[start..]
    ensures start + |part| == |file| ==> part == file[start..]
  {
  }

  /** memcpy */
  method Memcpy(dst: array<byte>, at: nat, src: seq<byte>)
    requires at + |src| <= dst.Length
    modifies dst
    ensures dst[..] == Splice(old(dst[..]), at, src)
  {
    forall i | 0 <= i < |src| {
      dst[at + i] := src[i];
    }
  }

  lemma {:induction false} SplicedFront(blank: seq<byte>, bytes: seq<byte>)
    requires |bytes| <= |blank|
    ensures Splice(blank, 0, bytes)[..|bytes|] == bytes
  {
  }

  lemma {:induction false} Appended(buffer: seq<byte>, pos: nat, data: seq<byte>)
    requires pos + |data| <= |buffer|
    ensures Splice(buffer, pos, data)[..pos + |data|] == buffer[..pos] + data
  {
  }

  /** buffer[from..to] holds the file from `pos` on. */
  ghost predicate Window(buffer: seq<byte>, file: seq<byte>, from: nat, to: nat, pos: nat) {
    && from <= to <= |buffer|
    && pos + (to - from) <= |file|
    && forall j :: pos <= j < pos + (to - from) ==> file[j] == buffer[j - pos + from]
  }

  lemma {:induction false} WindowPart(buffer: seq<byte>, file: seq<byte>, from: nat, to: nat, pos: nat, at: nat, n: nat)
    requires Window(buffer, file, from, to, pos) && from <= at && at + n <= to
    ensures var t := pos + at - from; buffer[at..at + n] == file[t..t + n]
  {
    var t := pos + at - from;
    var x, y := buffer[at..at + n], file[t..t + n];
    forall i | 0 <= i < n
      ensures x[i] == y[i]
    {
      assert file[t + i] == buffer[at + i];
    }
  }

  lemma {:induction false} WindowFilled(buffer: seq<byte>, next: seq<byte>, file: seq<byte>, pos: nat)
    requires |next| <= |buffer| && pos + |next| <= |file| && next == file[pos..pos + |next|]
    ensures Window(Splice(buffer, 0, next), file, 0, |next|, pos)
  {
    forall j | pos <= j < pos + |next|
      ensures file[j] == Splice(buffer, 0, next)[j - pos]
    {
      assert file[j] == next[j - pos];
    }
  }
}
