/**
 * copy_file: stat the source, then hand the copy to exactly one strategy chosen
 * by the size band the file falls in, and return that strategy's result.
 */
module Selector {
  import opened Types
  import opened Transfer

  datatype Strategy = Sendfile | Mmap | Aio

  /** The size bands, tested in the order of fast_copy.c: above 100 MiB, above 64 KiB, the rest. */
  function SelectStrategy(size: nat): (s: Strategy)
    ensures s == Sendfile <==> size > LARGE_FILE_SIZE
    ensures s == Mmap <==> BUFFER_SIZE < size <= LARGE_FILE_SIZE
    ensures s == Aio <==> size <= BUFFER_SIZE
  {
    if size > LARGE_FILE_SIZE then Sendfile
    else if size > BUFFER_SIZE then Mmap
    else Aio
  }

  /** The position of a strategy in the order of growing size bands. */
  function Band(s: Strategy): nat {
    match s
    case Aio => 0
    case Mmap => 1
    case Sendfile => 2
  }

  /** A larger file never goes to a strategy of a smaller band. */
  lemma SelectMonotone(small: nat, large: nat)
    requires small <= large
    ensures Band(SelectStrategy(small)) <= Band(SelectStrategy(large))
  {
  }

  /** What running strategy `s` on the source bytes under `io` gives. */
  function StrategySpec(s: Strategy, src: seq<byte>, io: Io): (r: Outcome)
    requires io.Valid()
    ensures r.dest == Untouched <==> !io.dstOpens
    ensures r.ok ==> Opened(io) && r.dest.Written?
    ensures r.ok && s != Aio ==> r.dest == Written(src)
    ensures r.dest.Written? ==> PrefixOf(r.dest.data, src) || (s == Mmap && r.dest.data == Zeros(|src|))
  {
    match s
    case Sendfile => SendfileSpec(src, io)
    case Mmap => MmapSpec(src, io)
    case Aio => AioSpec(src, io)
  }

  /**
   * copy_file on the source tree `srcFs`: a path that is not there fails the
   * stat, which returns 0 before any destination is opened.
   */
  function CopyFileSpec(source: Path, srcFs: map<Path, seq<byte>>, io: Io): (r: Outcome)
    requires io.Valid()
    ensures r.dest.Written? <==> source in srcFs && io.dstOpens
    ensures r.ok ==> source in srcFs && Opened(io)
  {
    if source !in srcFs then Outcome(false, Untouched)
    else StrategySpec(SelectStrategy(|srcFs[source]|), srcFs[source], io)
  }

  method CopyFile(source: Path, srcFs: map<Path, seq<byte>>, io: Io) returns (r: Outcome)
    requires io.Valid()
    ensures r == CopyFileSpec(source, srcFs, io)
    ensures source !in srcFs ==> r == Outcome(false, Untouched)
    ensures source in srcFs ==> r == StrategySpec(SelectStrategy(|srcFs[source]|), srcFs[source], io)
    ensures r.dest.Written? ==> source in srcFs
    ensures r.ok ==> PrefixOf(r.dest.data, srcFs[source])
    ensures r.ok && source in srcFs && |srcFs[source]| > BUFFER_SIZE ==> r.dest == Written(srcFs[source])
  {
    if source !in srcFs {
      return Outcome(false, Untouched);
    }
    var src := srcFs[source];
    var size := |src|;
    if size > LARGE_FILE_SIZE {
      r := CopyFileSendfile(src, io);
    } else if size > BUFFER_SIZE {
      r := CopyFileMmap(src, io);
    } else {
      r := CopyFileAio(src, io);
    }
  }

  /** The results of a copy on which every open, mapping, transfer, read and write succeeds in full. */
  predicate Benign(io: Io) {
    && Opened(io) && io.srcMaps && io.dstMaps
    && (forall i | 0 <= i < |io.sendResults| :: io.sendResults[i] > 0)
    && ReadsClean(io.readResults) && WritesFull(io.writeResults)
  }

  lemma DefaultIoBenign()
    ensures Benign(DefaultIo) && DefaultIo.Valid()
  {
  }

  /**
   * What copy_file's return value promises: a success leaves a prefix of the
   * source at the destination, the whole source unless the buffered strategy
   * stopped at a failed read; a failure leaves a prefix too, or, in the mmap
   * band, the zero-filled file ftruncate made; a destination that did not open
   * is left alone.
   */
  lemma {:induction false} CopyFileSound(source: Path, srcFs: map<Path, seq<byte>>, io: Io)
    requires io.Valid()
    ensures CopyFileSpec(source, srcFs, io).ok ==> source in srcFs && CopyFileSpec(source, srcFs, io).dest.Written?
    ensures CopyFileSpec(source, srcFs, io).dest.Written? ==>
              && source in srcFs
              && (|| PrefixOf(CopyFileSpec(source, srcFs, io).dest.data, srcFs[source])
                  || (SelectStrategy(|srcFs[source]|) == Mmap && CopyFileSpec(source, srcFs, io).dest.data == Zeros(|srcFs[source]|)))
    ensures CopyFileSpec(source, srcFs, io).ok && (|srcFs[source]| > BUFFER_SIZE || ReadsClean(io.readResults)) ==>
              CopyFileSpec(source, srcFs, io).dest == Written(srcFs[source])
    ensures !io.dstOpens ==> CopyFileSpec(source, srcFs, io).dest == Untouched
  {
    if source in srcFs && Opened(io) && SelectStrategy(|srcFs[source]|) == Aio && ReadsClean(io.readResults) {
      AioRunCleanReads(srcFs[source], 0, io.readResults, io.writeResults, []);
    }
  }

  /** With every system call succeeding, copy_file copies every file it can stat, of any size, zero included. */
  lemma CopyFileComplete(source: Path, srcFs: map<Path, seq<byte>>, io: Io)
    requires io.Valid() && Benign(io) && source in srcFs
    ensures CopyFileSpec(source, srcFs, io) == Outcome(true, Written(srcFs[source]))
  {
    var src := srcFs[source];
    match SelectStrategy(|src|)
    case Sendfile =>
      SendRunFailure(src, 0, io.sendResults, []);
      SendRunCopies(src, 0, io.sendResults, []);
    case Mmap =>
    case Aio =>
      AioRunComplete(src, 0, io.readResults, io.writeResults, []);
  }
}
