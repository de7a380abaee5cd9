/**
 * Shared vocabulary of the fast_copy model: bytes and paths, the three tuning
 * constants, the copy task handed from the traversal to a worker, and the
 * oracle that stands for the results of the system calls a strategy makes.
 */
module Types {

  newtype byte = b: int | 0 <= b < 256

  type Path = string

  /** Chunk size of the buffered strategy, and the top of the buffered size band (64 KiB). */
  const BUFFER_SIZE: nat := 65536

  /** Sizes strictly above this go through sendfile (100 MiB). */
  const LARGE_FILE_SIZE: nat := 100 * 1024 * 1024

  /** Capacity of the worker batch. */
  const MAX_THREADS: nat := 8

  /** One unit of work: the joined source and destination paths of one non-directory entry. */
  datatype CopyTask = CopyTask(source: Path, destination: Path)

  /** What a copy leaves at its destination path: nothing (the destination never opened) or these bytes. */
  datatype DestEffect = Untouched | Written(data: seq<byte>)

  /** A strategy's return value (1 or 0 in fast_copy.c) together with its effect on the destination. */
  datatype Outcome = Outcome(ok: bool, dest: DestEffect)

  /** What a transfer loop returns: whether it reached its normal end, and the bytes it wrote. */
  datatype LoopResult = LoopResult(ok: bool, data: seq<byte>)

  /**
   * The results the operating system gives one copy. The flags say whether each
   * open and each mapping succeeds; `sendResults`, `readResults` and `writeResults` list the values
   * of successive sendfile, read and write calls (a negative value is an error,
   * any other value is capped by what the call asked for). Once a list is used up,
   * every further call moves everything it asked for.
   */
  datatype Io = Io(srcOpens: bool, dstOpens: bool, srcMaps: bool, dstMaps: bool,
                   sendResults: seq<int>, readResults: seq<int>, writeResults: seq<int>)
  {
    /** The progress assumption of the sendfile loop: no call moves zero bytes. */
    predicate Valid() {
      NoStall(sendResults)
    }
  }

  /** The results of a copy on which nothing goes wrong. */
  const DefaultIo: Io := Io(true, true, true, true, [], [], [])

  predicate NoStall(sendResults: seq<int>) {
    forall i | 0 <= i < |sendResults| :: sendResults[i] != 0
  }

  /** The next oracle value, or `default` once the oracle is used up. */
  function Head(s: seq<int>, default: int): int {
    if s == [] then default else s[0]
  }

  function Tail(s: seq<int>): seq<int> {
    if s == [] then [] else s[1..]
  }

  function Min(a: int, b: int): int {
    if a <= b then a else b
  }

  /** `d` is the first |d| bytes of `s`. */
  predicate PrefixOf(d: seq<byte>, s: seq<byte>) {
    |d| <= |s| && d == s[..|d|]
  }

  /** The bytes of the chunks, in order. */
  function Concat(cs: seq<seq<byte>>): seq<byte> {
    if cs == [] then [] else cs[0] + Concat(cs[1..])
  }

  lemma AppendAssoc<T>(a: seq<T>, b: seq<T>, c: seq<T>)
    ensures a + b + c == a + (b + c)
  {
  }

  /**
   * One step of a copy loop: if `data` is `dest` extended by `s[from..from + k]`
   * and then by the slice of `s` that follows, it is `dest` extended by one slice of `s`.
   */
  lemma AppendStep<T>(dest: seq<T>, s: seq<T>, from: nat, k: nat, data: seq<T>)
    requires from + k <= |s| && |dest| + k <= |data| <= |dest| + |s| - from
    requires data == (dest + s[from..from + k]) + s[from + k..from + k + |data| - |dest + s[from..from + k]|]
    ensures data == dest + s[from..from + |data| - |dest|]
  {
    var end := from + |data| - |dest|;
    assert s[from..from + k] + s[from + k..end] == s[from..end];
  }

  /**
   * A count kept modulo `MAX_THREADS`: advanced by `l` and then by `e`, it is the
   * start advanced by their sum `n`.
   */
  lemma ModShift(start: nat, l: nat, e: nat, n: nat, mid: nat, end: nat)
    requires mid == (start + l) % MAX_THREADS && end == (mid + e) % MAX_THREADS && n == l + e
    ensures end == (start + n) % MAX_THREADS
  {
    var q := (start + l) / MAX_THREADS;
    assert start + l == q * MAX_THREADS + mid;
    assert start + n == q * MAX_THREADS + (mid + e);
  }

  lemma UnionAssoc<T>(a: set<T>, b: set<T>, c: set<T>)
    ensures a + b + c == a + (b + c)
  {
  }

  lemma ConcatCons(c: seq<byte>, cs: seq<seq<byte>>)
    ensures Concat([c] + cs) == c + Concat(cs)
  {
    assert ([c] + cs)[0] == c && ([c] + cs)[1..] == cs;
  }

  /** What ftruncate leaves in a freshly truncated file extended to `n` bytes. */
  function Zeros(n: nat): seq<byte> {
    seq(n, _ => 0 as byte)
  }
}
