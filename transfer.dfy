/**
 * The three transfer strategies of fast_copy.c: sendfile for large files, a
 * memory-mapped copy for medium files and a buffered read/write loop for small
 * ones. Each is a method over the source bytes and the oracle `Io`, proved equal
 * to a specification function; the lemmas say what those functions promise.
 *
 * The loop specifications SendRun and AioRun carry the loop state as fast_copy.c
 * keeps it: the file offset, the oracle values still to come and the bytes the
 * destination holds so far.
 */
module Transfer {
  import opened Types

  /** Both opens are issued before either result is checked. */
  predicate Opened(io: Io) {
    io.srcOpens && io.dstOpens
  }

  /**
   * The failed-open return: 0, and a destination that did open has already been
   * created or truncated to empty by O_CREAT | O_TRUNC.
   */
  function OpenFailure(io: Io): (r: Outcome)
    ensures !r.ok
    ensures r.dest == Untouched <==> !io.dstOpens
    ensures r.dest.Written? ==> r.dest.data == []
  {
    Outcome(false, if io.dstOpens then Written([]) else Untouched)
  }

  // ---------------------------------------------------------------------------
  // sendfile

  /** Bytes moved by one sendfile call that asked for `remaining` bytes, given the oracle value `v`. */
  function SendResult(v: int, remaining: nat): (r: int)
    ensures r < 0 <==> v < 0
    ensures r <= remaining
    ensures v > 0 && remaining > 0 ==> r > 0
  {
    if v < 0 then -1 else Min(v, remaining)
  }

  /**
   * The sendfile loop from file offset `offset`, the destination holding `dest`:
   * it runs while the offset is below the size, and a negative result stops it
   * with failure.
   */
  function SendRun(src: seq<byte>, offset: nat, sendResults: seq<int>, dest: seq<byte>): (t: LoopResult)
    requires offset <= |src| && NoStall(sendResults)
    ensures |dest| <= |t.data| <= |dest| + |src| - offset && t.data[..|dest|] == dest
    ensures t.ok ==> |t.data| == |dest| + |src| - offset
    decreases |src| - offset
  {
    if offset == |src| then LoopResult(true, dest)
    else
      var sent := SendResult(Head(sendResults, |src| - offset), |src| - offset);
      if sent < 0 then LoopResult(false, dest)
      else SendRun(src, offset + sent, Tail(sendResults), dest + src[offset..offset + sent])
  }

  function SendfileSpec(src: seq<byte>, io: Io): (r: Outcome)
    requires io.Valid()
    ensures r.dest == Untouched <==> !io.dstOpens
    ensures r.ok ==> Opened(io) && r.dest == Written(src)
    ensures r.dest.Written? ==> PrefixOf(r.dest.data, src)
  {
    if !Opened(io) then OpenFailure(io)
    else
      var t := SendRun(src, 0, io.sendResults, []);
      SendRunCopies(src, 0, io.sendResults, []);
      Outcome(t.ok, Written(t.data))
  }

  /**
   * Started with the destination holding the bytes before `offset`, the loop
   * leaves a prefix of the source, and the whole source when it ends normally.
   */
  lemma {:induction false} SendRunCopies(src: seq<byte>, offset: nat, sendResults: seq<int>, dest: seq<byte>)
    requires offset <= |src| && NoStall(sendResults) && dest == src[..offset]
    ensures PrefixOf(SendRun(src, offset, sendResults, dest).data, src)
    ensures SendRun(src, offset, sendResults, dest).ok ==> SendRun(src, offset, sendResults, dest).data == src
    decreases |src| - offset
  {
    if offset < |src| {
      var sent := SendResult(Head(sendResults, |src| - offset), |src| - offset);
      if sent >= 0 {
        assert dest + src[offset..offset + sent] == src[..offset + sent];
        SendRunCopies(src, offset + sent, Tail(sendResults), dest + src[offset..offset + sent]);
      }
    } else {
      assert dest == src;
    }
  }

  /** The loop fails only through a negative sendfile result: with none in the oracle it succeeds. */
  lemma {:induction false} SendRunFailure(src: seq<byte>, offset: nat, sendResults: seq<int>, dest: seq<byte>)
    requires offset <= |src| && NoStall(sendResults)
    ensures (forall i | 0 <= i < |sendResults| :: sendResults[i] > 0) ==> SendRun(src, offset, sendResults, dest).ok
    ensures !SendRun(src, offset, sendResults, dest).ok ==> exists i :: 0 <= i < |sendResults| && sendResults[i] < 0
    decreases |src| - offset
  {
    if offset < |src| {
      var sent := SendResult(Head(sendResults, |src| - offset), |src| - offset);
      if sent >= 0 {
        var rest := Tail(sendResults);
        SendRunFailure(src, offset + sent, rest, dest + src[offset..offset + sent]);
        if !SendRun(src, offset + sent, rest, dest + src[offset..offset + sent]).ok {
          var i :| 0 <= i < |rest| && rest[i] < 0;
          assert sendResults[i + 1] == rest[i];
        }
      } else {
        assert sendResults[0] < 0;
      }
    }
  }

  /**
   * Whatever the destination held before, the loop appends the source bytes
   * from `offset` on, in order; ending normally, it appends all of them.
   */
  lemma {:induction false} SendRunAppends(src: seq<byte>, offset: nat, sendResults: seq<int>, dest: seq<byte>, t: LoopResult)
    requires offset <= |src| && NoStall(sendResults) && t == SendRun(src, offset, sendResults, dest)
    ensures t.data == dest + src[offset..offset + |t.data| - |dest|]
    ensures t.ok ==> t.data == dest + src[offset..]
    decreases |src| - offset
  {
    if offset == |src| {
      assert t.data == dest && src[offset..offset] == [];
    } else {
      var sent := SendResult(Head(sendResults, |src| - offset), |src| - offset);
      if sent < 0 {
        assert t.data == dest && src[offset..offset] == [];
      } else {
        var more := dest + src[offset..offset + sent];
        SendRunAppends(src, offset + sent, Tail(sendResults), more, t);
        AppendStep(dest, src, offset, sent, t.data);
      }
    }
    if t.ok {
      assert offset + |t.data| - |dest| == |src|;
    }
  }

  /**
   * copy_file_sendfile: `offset` starts at 0 and advances only by what each call
   * moved; the loop runs until `offset` reaches the size, and a negative result
   * returns 0 at once, leaving what was sent so far.
   */
  method CopyFileSendfile(src: seq<byte>, io: Io) returns (r: Outcome)
    requires io.Valid()
    ensures r == SendfileSpec(src, io)
    ensures r.ok ==> r.dest == Written(src)
    ensures r.dest.Written? ==> PrefixOf(r.dest.data, src)
  {
    if !Opened(io) {
      return OpenFailure(io);
    }
    var size := |src|;
    var offset := 0;
    var dest: seq<byte> := [];
    var sendResults := io.sendResults;
    ghost var whole := SendRun(src, 0, io.sendResults, []);
    while offset < size
      invariant offset <= size && NoStall(sendResults)
      invariant dest == src[..offset]
      invariant whole == SendRun(src, offset, sendResults, dest)
      decreases size - offset
    {
      var sent := SendResult(Head(sendResults, size - offset), size - offset);
      if sent < 0 {
        return Outcome(false, Written(dest));
      }
      dest := dest + src[offset..offset + sent];
      offset := offset + sent;
      sendResults := Tail(sendResults);
    }
    return Outcome(true, Written(dest));
  }

  // ---------------------------------------------------------------------------
  // mmap

  /**
   * After the opens, ftruncate sizes the destination to the source length; a
   * mapping that fails (a zero-length mapping always does) returns 0 and leaves
   * that many zero bytes; otherwise one memcpy fills the whole region.
   */
  function MmapSpec(src: seq<byte>, io: Io): (r: Outcome)
    ensures r.dest == Untouched <==> !io.dstOpens
    ensures r.ok ==> r.dest == Written(src)
  {
    if !Opened(io) then OpenFailure(io)
    else if !io.srcMaps || !io.dstMaps || |src| == 0 then Outcome(false, Written(Zeros(|src|)))
    else Outcome(true, Written(src))
  }

  /** copy_file_mmap, with the writable destination mapping as an array. */
  method CopyFileMmap(src: seq<byte>, io: Io) returns (r: Outcome)
    ensures r == MmapSpec(src, io)
    ensures r.ok <==> Opened(io) && io.srcMaps && io.dstMaps && |src| > 0
    ensures r.ok ==> r.dest == Written(src)
    ensures Opened(io) ==> r.dest.Written? && |r.dest.data| == |src|
  {
    if !Opened(io) {
      return OpenFailure(io);
    }
    var size := |src|;
    var destMap := new byte[size](_ => 0);
    if !io.srcMaps || !io.dstMaps || size == 0 {
      assert destMap[..] == Zeros(size);
      return Outcome(false, Written(destMap[..]));
    }
    forall i | 0 <= i < size {
      destMap[i] := src[i];
    }
    assert destMap[..] == src;
    return Outcome(true, Written(destMap[..]));
  }

  // ---------------------------------------------------------------------------
  // buffered read/write ("aio")

  /** Bytes returned by one read of up to BUFFER_SIZE with `remaining` bytes left, given the oracle value `v`. */
  function ReadResult(v: int, remaining: nat): (r: int)
    ensures r <= remaining && r <= BUFFER_SIZE
  {
    if v < 0 then -1 else Min(Min(v, BUFFER_SIZE), remaining)
  }

  /** Bytes accepted by one write of `count` bytes, given the oracle value `v`. */
  function WriteResult(v: int, count: nat): (r: int)
    ensures r <= count
  {
    if v < 0 then -1 else Min(v, count)
  }

  /**
   * The read/write loop from file position `pos`, the destination holding
   * `dest`. A read result of zero or less ends the loop normally; a write that
   * accepts fewer bytes than were read ends it with failure, leaving the bytes
   * it did accept.
   */
  function AioRun(src: seq<byte>, pos: nat, readResults: seq<int>, writeResults: seq<int>, dest: seq<byte>): (t: LoopResult)
    requires pos <= |src|
    ensures |dest| <= |t.data| <= |dest| + |src| - pos
    decreases |src| - pos
  {
    var bytes := ReadResult(Head(readResults, BUFFER_SIZE), |src| - pos);
    if bytes <= 0 then LoopResult(true, dest)
    else
      var written := WriteResult(Head(writeResults, bytes), bytes);
      if written != bytes then LoopResult(false, dest + Accepted(src, pos, written))
      else AioRun(src, pos + bytes, Tail(readResults), Tail(writeResults), dest + src[pos..pos + bytes])
  }

  /** The bytes a write of the chunk at `pos` accepted: none when it failed. */
  function Accepted(src: seq<byte>, pos: nat, written: int): seq<byte>
    requires pos + written <= |src|
  {
    if written < 0 then [] else src[pos..pos + written]
  }

  /** The chunks the loop reads and writes in full, in order. */
  function AioChunks(src: seq<byte>, pos: nat, readResults: seq<int>, writeResults: seq<int>): seq<seq<byte>>
    requires pos <= |src|
    decreases |src| - pos
  {
    var bytes := ReadResult(Head(readResults, BUFFER_SIZE), |src| - pos);
    if bytes <= 0 || WriteResult(Head(writeResults, bytes), bytes) != bytes then []
    else [src[pos..pos + bytes]] + AioChunks(src, pos + bytes, Tail(readResults), Tail(writeResults))
  }

  function AioSpec(src: seq<byte>, io: Io): (r: Outcome)
    ensures r.dest == Untouched <==> !io.dstOpens
    ensures r.ok ==> Opened(io) && r.dest.Written?
    ensures r.dest.Written? ==> PrefixOf(r.dest.data, src)
  {
    if !Opened(io) then OpenFailure(io)
    else
      var t := AioRun(src, 0, io.readResults, io.writeResults, []);
      AioRunPrefix(src, 0, io.readResults, io.writeResults, []);
      Outcome(t.ok, Written(t.data))
  }

  /** Reads that never come back empty or failed before the end of the file. */
  predicate ReadsClean(readResults: seq<int>) {
    forall i | 0 <= i < |readResults| :: readResults[i] > 0
  }

  /** Writes that always accept a whole buffer. */
  predicate WritesFull(writeResults: seq<int>) {
    forall i | 0 <= i < |writeResults| :: writeResults[i] >= BUFFER_SIZE
  }

  /**
   * Whatever the destination held before, the loop only appends to it, and what
   * it appends is the source bytes from `pos` on, in order: the chunks written
   * in full and, after a short write, the part of the chunk that write accepted.
   */
  lemma {:induction false} AioRunAppends(src: seq<byte>, pos: nat, readResults: seq<int>, writeResults: seq<int>, dest: seq<byte>, t: LoopResult)
    requires pos <= |src| && t == AioRun(src, pos, readResults, writeResults, dest)
    ensures t.data == dest + src[pos..pos + |t.data| - |dest|]
    decreases |src| - pos
  {
    var bytes := ReadResult(Head(readResults, BUFFER_SIZE), |src| - pos);
    if bytes <= 0 {
      assert t.data == dest && src[pos..pos] == [];
    } else {
      var written := WriteResult(Head(writeResults, bytes), bytes);
      if written < 0 {
        assert t.data == dest && src[pos..pos] == [];
      } else if written < bytes {
        assert t.data == dest + src[pos..pos + written];
      } else {
        var more := dest + src[pos..pos + bytes];
        AioRunAppends(src, pos + bytes, Tail(readResults), Tail(writeResults), more, t);
        AppendStep(dest, src, pos, bytes, t.data);
      }
    }
  }

  /** Started with the destination holding the bytes before `pos`, the loop always leaves a prefix of the source. */
  lemma {:induction false} AioRunPrefix(src: seq<byte>, pos: nat, readResults: seq<int>, writeResults: seq<int>, dest: seq<byte>)
    requires pos <= |src| && dest == src[..pos]
    ensures PrefixOf(AioRun(src, pos, readResults, writeResults, dest).data, src)
    decreases |src| - pos
  {
    var bytes := ReadResult(Head(readResults, BUFFER_SIZE), |src| - pos);
    if bytes <= 0 {
    } else {
      var written := WriteResult(Head(writeResults, bytes), bytes);
      if written < 0 {
        assert dest + Accepted(src, pos, written) == dest;
      } else if written < bytes {
        assert dest + Accepted(src, pos, written) == src[..pos + written];
      } else {
        assert dest + src[pos..pos + bytes] == src[..pos + bytes];
        AioRunPrefix(src, pos + bytes, Tail(readResults), Tail(writeResults), dest + src[pos..pos + bytes]);
      }
    }
  }

  /** With clean reads and full writes the loop succeeds and the destination is the whole source. */
  lemma {:induction false} AioRunComplete(src: seq<byte>, pos: nat, readResults: seq<int>, writeResults: seq<int>, dest: seq<byte>)
    requires pos <= |src| && dest == src[..pos] && ReadsClean(readResults) && WritesFull(writeResults)
    ensures AioRun(src, pos, readResults, writeResults, dest) == LoopResult(true, src)
    decreases |src| - pos
  {
    var bytes := ReadResult(Head(readResults, BUFFER_SIZE), |src| - pos);
    if pos < |src| {
      assert Head(readResults, BUFFER_SIZE) > 0;
      assert WriteResult(Head(writeResults, bytes), bytes) == bytes;
      assert ReadsClean(Tail(readResults)) && WritesFull(Tail(writeResults));
      assert dest + src[pos..pos + bytes] == src[..pos + bytes];
      AioRunComplete(src, pos + bytes, Tail(readResults), Tail(writeResults), dest + src[pos..pos + bytes]);
    } else {
      assert dest == src;
    }
  }

  /** Under clean reads, a read that returns nothing happens only at the end of the file. */
  lemma CleanReadEndsAtEnd(src: seq<byte>, pos: nat, readResults: seq<int>)
    requires pos <= |src| && ReadsClean(readResults)
    requires ReadResult(Head(readResults, BUFFER_SIZE), |src| - pos) <= 0
    ensures pos == |src|
  {
    assert pos < |src| ==> Head(readResults, BUFFER_SIZE) > 0;
  }

  lemma CleanReadsTail(readResults: seq<int>)
    requires ReadsClean(readResults)
    ensures ReadsClean(Tail(readResults))
  {
    if readResults != [] {
      assert forall i | 0 <= i < |readResults| - 1 :: Tail(readResults)[i] == readResults[i + 1];
    }
  }

  /**
   * When no read fails or comes back empty early, a loop that ends normally has
   * copied the whole source.
   */
  lemma {:induction false} AioRunCleanReads(src: seq<byte>, pos: nat, readResults: seq<int>, writeResults: seq<int>, dest: seq<byte>)
    requires pos <= |src| && dest == src[..pos] && ReadsClean(readResults)
    ensures AioRun(src, pos, readResults, writeResults, dest).ok ==> AioRun(src, pos, readResults, writeResults, dest).data == src
    decreases |src| - pos
  {
    var bytes := ReadResult(Head(readResults, BUFFER_SIZE), |src| - pos);
    if bytes <= 0 {
      CleanReadEndsAtEnd(src, pos, readResults);
      assert dest == src;
    } else if WriteResult(Head(writeResults, bytes), bytes) == bytes {
      var more := dest + src[pos..pos + bytes];
      CleanReadsTail(readResults);
      assert more == src[..pos + bytes];
      AioRunCleanReads(src, pos + bytes, Tail(readResults), Tail(writeResults), more);
    }
  }

  /** The loop fails only through a short write, and a short write needs an oracle value below a full buffer. */
  lemma {:induction false} AioRunFailure(src: seq<byte>, pos: nat, readResults: seq<int>, writeResults: seq<int>, dest: seq<byte>)
    requires pos <= |src|
    ensures !AioRun(src, pos, readResults, writeResults, dest).ok ==> exists i :: 0 <= i < |writeResults| && writeResults[i] < BUFFER_SIZE
    decreases |src| - pos
  {
    var bytes := ReadResult(Head(readResults, BUFFER_SIZE), |src| - pos);
    if bytes > 0 {
      var written := WriteResult(Head(writeResults, bytes), bytes);
      if written != bytes {
        assert writeResults != [] && writeResults[0] < BUFFER_SIZE;
      } else {
        var rest := Tail(writeResults);
        var more := dest + src[pos..pos + bytes];
        AioRunFailure(src, pos + bytes, Tail(readResults), rest, more);
        if !AioRun(src, pos + bytes, Tail(readResults), rest, more).ok {
          var i :| 0 <= i < |rest| && rest[i] < BUFFER_SIZE;
          assert writeResults[i + 1] == rest[i];
        }
      }
    }
  }

  /** Every chunk the loop copies holds between 1 and BUFFER_SIZE bytes. */
  lemma {:induction false} AioChunkSizes(src: seq<byte>, pos: nat, readResults: seq<int>, writeResults: seq<int>)
    requires pos <= |src|
    ensures forall i | 0 <= i < |AioChunks(src, pos, readResults, writeResults)| ::
              0 < |AioChunks(src, pos, readResults, writeResults)[i]| <= BUFFER_SIZE
    decreases |src| - pos
  {
    var bytes := ReadResult(Head(readResults, BUFFER_SIZE), |src| - pos);
    if bytes <= 0 {
    } else if WriteResult(Head(writeResults, bytes), bytes) != bytes {
    } else {
      var rest := AioChunks(src, pos + bytes, Tail(readResults), Tail(writeResults));
      AioChunkSizes(src, pos + bytes, Tail(readResults), Tail(writeResults));
      var cs := AioChunks(src, pos, readResults, writeResults);
      assert cs == [src[pos..pos + bytes]] + rest;
      forall i | 0 < i < |cs|
        ensures 0 < |cs[i]| <= BUFFER_SIZE
      {
        assert cs[i] == rest[i - 1];
      }
    }
  }

  /** When the loop ends normally the destination gained exactly the chunks, in order. */
  lemma {:induction false} AioRunChunks(src: seq<byte>, pos: nat, readResults: seq<int>, writeResults: seq<int>, dest: seq<byte>)
    requires pos <= |src|
    ensures AioRun(src, pos, readResults, writeResults, dest).ok ==>
              AioRun(src, pos, readResults, writeResults, dest).data == dest + Concat(AioChunks(src, pos, readResults, writeResults))
    decreases |src| - pos
  {
    var bytes := ReadResult(Head(readResults, BUFFER_SIZE), |src| - pos);
    if bytes <= 0 {
      assert dest + [] == dest;
    } else if WriteResult(Head(writeResults, bytes), bytes) != bytes {
    } else {
      var chunk := src[pos..pos + bytes];
      var rest := AioChunks(src, pos + bytes, Tail(readResults), Tail(writeResults));
      AioRunChunks(src, pos + bytes, Tail(readResults), Tail(writeResults), dest + chunk);
      ConcatCons(chunk, rest);
      AppendAssoc(dest, chunk, Concat(rest));
    }
  }

  /**
   * A failed read is taken for the end of the file: the loop stops, returns
   * success, and the destination holds only what was copied before.
   */
  lemma ReadErrorCountsAsEnd(src: seq<byte>, io: Io)
    requires Opened(io) && |src| > 0 && io.readResults != [] && io.readResults[0] < 0
    ensures AioSpec(src, io) == Outcome(true, Written([]))
  {
  }

  /** A zero-byte source gives an empty destination and success, whatever the oracle says. */
  lemma AioEmptySource(io: Io)
    requires Opened(io)
    ensures AioSpec([], io) == Outcome(true, Written([]))
  {
  }

  /** One read: the next `n` source bytes from `pos` land at the start of `buffer`. */
  method ReadInto(buffer: array<byte>, src: seq<byte>, pos: nat, n: nat) returns (chunk: seq<byte>)
    requires pos + n <= |src| && n <= buffer.Length
    modifies buffer
    ensures chunk == buffer[..n] == src[pos..pos + n]
    ensures buffer[n..] == old(buffer[n..])
  {
    forall i | 0 <= i < n {
      buffer[i] := src[pos + i];
    }
    chunk := buffer[..n];
  }

  /**
   * The read/write loop of copy_file_aio on open descriptors: read up to
   * BUFFER_SIZE bytes into `buffer` and write them, until a read returns zero
   * or less; a short write stops it with failure.
   */
  method AioLoop(src: seq<byte>, buffer: array<byte>, readResults: seq<int>, writeResults: seq<int>) returns (t: LoopResult)
    requires buffer.Length == BUFFER_SIZE
    modifies buffer
    ensures t == AioRun(src, 0, readResults, writeResults, [])
  {
    var pos := 0;
    var dest: seq<byte> := [];
    var rs, ws := readResults, writeResults;
    ghost var whole := AioRun(src, 0, readResults, writeResults, []);
    var bytes := ReadResult(Head(rs, BUFFER_SIZE), |src| - pos);
    while bytes > 0
      invariant pos <= |src|
      invariant bytes == ReadResult(Head(rs, BUFFER_SIZE), |src| - pos)
      invariant whole == AioRun(src, pos, rs, ws, dest)
      decreases |src| - pos
    {
      var chunk := ReadInto(buffer, src, pos, bytes);
      var written := WriteResult(Head(ws, bytes), bytes);
      if written != bytes {
        assert written >= 0 ==> chunk[..written] == src[pos..pos + written];
        dest := dest + if written < 0 then [] else chunk[..written];
        return LoopResult(false, dest);
      }
      dest := dest + chunk;
      pos := pos + bytes;
      rs, ws := Tail(rs), Tail(ws);
      bytes := ReadResult(Head(rs, BUFFER_SIZE), |src| - pos);
    }
    return LoopResult(true, dest);
  }

  /** copy_file_aio: both opens, then the read/write loop. */
  method CopyFileAio(src: seq<byte>, io: Io) returns (r: Outcome)
    ensures r == AioSpec(src, io)
    ensures r.dest.Written? ==> PrefixOf(r.dest.data, src)
  {
    if !Opened(io) {
      return OpenFailure(io);
    }
    var buffer := new byte[BUFFER_SIZE];
    var t := AioLoop(src, buffer, io.readResults, io.writeResults);
    AioRunPrefix(src, 0, io.readResults, io.writeResults, []);
    r := Outcome(t.ok, Written(t.data));
  }
}
