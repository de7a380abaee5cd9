/**
 * thread_worker and the state it touches: the destination file system, which
 * each finished copy updates, and the global success counter
 * total_files_copied, which each successful copy increments once.
 */
module Workers {
  import opened Types
  import opened Selector

  /**
   * The world the copies run in: the source files by path (a path missing here
   * fails its stat) and the system-call results of the successive copies, the
   * k-th submitted task using the k-th entry (and the benign DefaultIo once the
   * list is used up).
   */
  datatype Env = Env(srcFs: map<Path, seq<byte>>, ios: seq<Io>)
  {
    predicate Valid() {
      forall k | 0 <= k < |ios| :: ios[k].Valid()
    }

    function IoAt(k: nat): (io: Io)
      requires Valid()
      ensures io.Valid()
    {
      if k < |ios| then ios[k] else DefaultIo
    }
  }

  /** What copy_file does for task `t` when it is the k-th task submitted. */
  function TaskOutcome(env: Env, t: CopyTask, k: nat): Outcome
    requires env.Valid()
  {
    CopyFileSpec(t.source, env.srcFs, env.IoAt(k))
  }

  /** The destination files once a copy with effect `eff` on path `p` has finished. */
  function Store(files: map<Path, seq<byte>>, p: Path, eff: DestEffect): map<Path, seq<byte>> {
    match eff
    case Untouched => files
    case Written(data) => files[p := data]
  }

  /** What copy_file does for each of the tasks `ts`, the i-th of which ran as task i. */
  function Outcomes(env: Env, ts: seq<CopyTask>): (os: seq<Outcome>)
    requires env.Valid()
    ensures |os| == |ts|
  {
    seq(|ts|, i requires 0 <= i < |ts| => TaskOutcome(env, ts[i], i))
  }

  /**
   * The outcomes `os` are what copy_file did for the tasks `ts`, the i-th of
   * which ran as task i.
   */
  predicate RanAs(env: Env, ts: seq<CopyTask>, os: seq<Outcome>)
    requires env.Valid()
  {
    && |os| == |ts|
    && forall j {:trigger TaskOutcome(env, ts[j], j)} | 0 <= j < |ts| :: os[j] == TaskOutcome(env, ts[j], j)
  }

  /** The destination files once the copies of `ts`, with outcomes `os`, have landed in order. */
  function ApplyEffects(files: map<Path, seq<byte>>, ts: seq<CopyTask>, os: seq<Outcome>): map<Path, seq<byte>>
    requires |os| == |ts|
  {
    if ts == [] then files
    else
      var n := |ts| - 1;
      Store(ApplyEffects(files, ts[..n], os[..n]), ts[n].destination, os[n].dest)
  }

  /** How many of the outcomes `os` are successes, counted from the front as the joins go. */
  function CountSucceeded(os: seq<Outcome>): nat {
    if os == [] then 0
    else CountSucceeded(os[..|os| - 1]) + if os[|os| - 1].ok then 1 else 0
  }

  /** The destination files after the tasks `ts`, the i-th of which ran as task i, have all finished in order. */
  function ApplyAll(files: map<Path, seq<byte>>, env: Env, ts: seq<CopyTask>): map<Path, seq<byte>>
    requires env.Valid()
  {
    ApplyEffects(files, ts, Outcomes(env, ts))
  }

  /** total_files_copied once the tasks `ts` have all been joined. */
  function CountOk(env: Env, ts: seq<CopyTask>): nat
    requires env.Valid()
  {
    CountSucceeded(Outcomes(env, ts))
  }

  /** The positions of the tasks that succeed. */
  function Successes(env: Env, ts: seq<CopyTask>): set<nat>
    requires env.Valid()
  {
    set i: nat | i < |ts| && TaskOutcome(env, ts[i], i).ok
  }

  /** One more copy lands on top of the earlier ones. */
  lemma ApplyEffectsSnoc(files: map<Path, seq<byte>>, ts: seq<CopyTask>, os: seq<Outcome>, t: CopyTask, o: Outcome)
    requires |os| == |ts|
    ensures ApplyEffects(files, ts + [t], os + [o]) == Store(ApplyEffects(files, ts, os), t.destination, o.dest)
  {
    assert (ts + [t])[..|ts|] == ts;
    assert (os + [o])[..|os|] == os;
  }

  /** The next joined worker ran as task |ts|. */
  lemma RanAsSnoc(env: Env, ts: seq<CopyTask>, os: seq<Outcome>, t: CopyTask, o: Outcome)
    requires env.Valid() && RanAs(env, ts, os) && o == TaskOutcome(env, t, |ts|)
    ensures RanAs(env, ts + [t], os + [o])
  {
    forall j | 0 <= j < |ts| + 1
      ensures (os + [o])[j] == TaskOutcome(env, (ts + [t])[j], j)
    {
      if j < |ts| {
        assert (ts + [t])[j] == ts[j];
        assert (os + [o])[j] == os[j];
        assert os[j] == TaskOutcome(env, ts[j], j);
      }
    }
  }

  /** Outcomes recorded as the workers are joined are exactly those of the specification. */
  lemma RanAsOutcomes(env: Env, ts: seq<CopyTask>, os: seq<Outcome>)
    requires env.Valid() && RanAs(env, ts, os)
    ensures os == Outcomes(env, ts)
  {
    forall j | 0 <= j < |ts|
      ensures os[j] == Outcomes(env, ts)[j]
    {
      assert os[j] == TaskOutcome(env, ts[j], j);
    }
  }

  /** One more joined copy adds one to the count exactly when it succeeded. */
  lemma CountSucceededSnoc(os: seq<Outcome>, o: Outcome)
    ensures CountSucceeded(os + [o]) == CountSucceeded(os) + if o.ok then 1 else 0
  {
    assert (os + [o])[..|os|] == os;
  }

  lemma {:induction false} CountSucceededIsCard(os: seq<Outcome>)
    ensures CountSucceeded(os) == |set i: nat | i < |os| && os[i].ok|
  {
    if os != [] {
      var n := |os| - 1;
      CountSucceededIsCard(os[..n]);
      var before := set i: nat | i < n && os[..n][i].ok;
      assert before == set i: nat | i < n && os[i].ok;
      if os[n].ok {
        assert (set i: nat | i < |os| && os[i].ok) == before + {n};
      } else {
        assert (set i: nat | i < |os| && os[i].ok) == before;
      }
    }
  }

  lemma {:induction false} CountSucceededBound(os: seq<Outcome>)
    ensures CountSucceeded(os) <= |os|
  {
    if os != [] {
      CountSucceededBound(os[..|os| - 1]);
    }
  }

  lemma {:induction false} CountSucceededAll(os: seq<Outcome>)
    ensures CountSucceeded(os) == |os| <==> forall i | 0 <= i < |os| :: os[i].ok
  {
    if os != [] {
      var n := |os| - 1;
      CountSucceededAll(os[..n]);
      CountSucceededBound(os[..n]);
      assert forall i | 0 <= i < n :: os[..n][i] == os[i];
    }
  }

  /** The counter equals the number of successful tasks. */
  lemma CountOkIsSuccesses(env: Env, ts: seq<CopyTask>)
    requires env.Valid()
    ensures CountOk(env, ts) == |Successes(env, ts)|
  {
    var os := Outcomes(env, ts);
    CountSucceededIsCard(os);
    assert (set i: nat | i < |os| && os[i].ok) == Successes(env, ts);
  }

  /** The counter never exceeds the number of tasks. */
  lemma CountOkBound(env: Env, ts: seq<CopyTask>)
    requires env.Valid()
    ensures CountOk(env, ts) <= |ts|
  {
    CountSucceededBound(Outcomes(env, ts));
  }

  /** The counter reaches the number of tasks exactly when every task succeeds. */
  lemma CountOkAll(env: Env, ts: seq<CopyTask>)
    requires env.Valid()
    ensures CountOk(env, ts) == |ts| <==> forall i | 0 <= i < |ts| :: TaskOutcome(env, ts[i], i).ok
  {
    var os := Outcomes(env, ts);
    CountSucceededAll(os);
    assert forall i | 0 <= i < |ts| :: os[i] == TaskOutcome(env, ts[i], i);
  }

  lemma {:induction false} ApplyEffectsElsewhere(files: map<Path, seq<byte>>, ts: seq<CopyTask>, os: seq<Outcome>, p: Path)
    requires |os| == |ts|
    requires forall i | 0 <= i < |ts| :: ts[i].destination != p
    ensures p in ApplyEffects(files, ts, os) <==> p in files
    ensures p in files ==> ApplyEffects(files, ts, os)[p] == files[p]
  {
    if ts != [] {
      var n := |ts| - 1;
      assert forall i | 0 <= i < n :: ts[..n][i] == ts[i];
      ApplyEffectsElsewhere(files, ts[..n], os[..n], p);
    }
  }

  lemma {:induction false} ApplyEffectsOwner(files: map<Path, seq<byte>>, ts: seq<CopyTask>, os: seq<Outcome>, j: nat, data: seq<byte>)
    requires |os| == |ts| && j < |ts|
    requires forall i | 0 <= i < |ts| && i != j :: ts[i].destination != ts[j].destination
    requires os[j].dest == Written(data)
    ensures ts[j].destination in ApplyEffects(files, ts, os)
    ensures ApplyEffects(files, ts, os)[ts[j].destination] == data
  {
    var n := |ts| - 1;
    if j < n {
      assert ts[..n][j] == ts[j] && os[..n][j] == os[j];
      assert forall i | 0 <= i < n && i != j :: ts[..n][i] == ts[i];
      ApplyEffectsOwner(files, ts[..n], os[..n], j, data);
    }
  }

  /** A destination path no task writes to keeps what it held before. */
  lemma ApplyAllElsewhere(files: map<Path, seq<byte>>, env: Env, ts: seq<CopyTask>, p: Path)
    requires env.Valid()
    requires forall i | 0 <= i < |ts| :: ts[i].destination != p
    ensures p in ApplyAll(files, env, ts) <==> p in files
    ensures p in files ==> ApplyAll(files, env, ts)[p] == files[p]
  {
    ApplyEffectsElsewhere(files, ts, Outcomes(env, ts), p);
  }

  /**
   * A destination path written by exactly one task holds what that task left
   * there, whatever the other tasks did.
   */
  lemma ApplyAllOwner(files: map<Path, seq<byte>>, env: Env, ts: seq<CopyTask>, j: nat, data: seq<byte>)
    requires env.Valid() && j < |ts|
    requires forall i | 0 <= i < |ts| && i != j :: ts[i].destination != ts[j].destination
    requires TaskOutcome(env, ts[j], j).dest == Written(data)
    ensures ts[j].destination in ApplyAll(files, env, ts)
    ensures ApplyAll(files, env, ts)[ts[j].destination] == data
  {
    ApplyEffectsOwner(files, ts, Outcomes(env, ts), j, data);
  }

  /** The files the copies of `ts`, with outcomes `os`, leave behind, on an empty destination. */
  function Writes(ts: seq<CopyTask>, os: seq<Outcome>): map<Path, seq<byte>>
    requires |os| == |ts|
  {
    ApplyEffects(map[], ts, os)
  }

  /**
   * Every copy truncates and overwrites its destination rather than appending,
   * so landing the copies on any destination is merging their writes over it.
   */
  lemma {:induction false} ApplyIsMerge(files: map<Path, seq<byte>>, ts: seq<CopyTask>, os: seq<Outcome>)
    requires |os| == |ts|
    ensures ApplyEffects(files, ts, os) == files + Writes(ts, os)
    decreases |ts|
  {
    if ts != [] {
      var n := |ts| - 1;
      ApplyIsMerge(files, ts[..n], os[..n]);
      ApplyIsMerge(map[], ts[..n], os[..n]);
      assert ApplyEffects(map[], ts[..n], os[..n]) == Writes(ts[..n], os[..n]);
      match os[n].dest
      case Untouched =>
      case Written(data) =>
        var w := Writes(ts[..n], os[..n]);
        assert (files + w)[ts[n].destination := data] == files + w[ts[n].destination := data];
    }
  }

  /**
   * Copying the same tasks a second time, under the same system-call results,
   * leaves the destination files as the first time left them.
   */
  lemma {:induction false} ApplyAllIdempotent(files0: map<Path, seq<byte>>, env: Env, ts: seq<CopyTask>)
    requires env.Valid()
    ensures ApplyAll(ApplyAll(files0, env, ts), env, ts) == ApplyAll(files0, env, ts)
  {
    var os := Outcomes(env, ts);
    var w := Writes(ts, os);
    ApplyIsMerge(files0, ts, os);
    ApplyIsMerge(files0 + w, ts, os);
    assert (files0 + w) + w == files0 + w;
  }

  /**
   * The destination side of the file system: regular files by path, and the
   * paths passed to mkdir (whose result fast_copy.c never checks).
   */
  class FileSystem {
    var files: map<Path, seq<byte>>
    var dirs: set<Path>

    constructor (files0: map<Path, seq<byte>>, dirs0: set<Path>)
      ensures files == files0 && dirs == dirs0
    {
      files := files0;
      dirs := dirs0;
    }

    /** The destination path after a copy with effect `eff` closed its descriptors. */
    method Apply(p: Path, eff: DestEffect)
      modifies this
      ensures files == Store(old(files), p, eff)
      ensures eff.Written? ==> p in files && files[p] == eff.data
      ensures forall q | q != p :: (q in files <==> q in old(files)) && (q in files ==> files[q] == old(files)[q])
      ensures dirs == old(dirs)
    {
      if eff.Written? {
        files := files[p := eff.data];
      }
    }

    /**
     * mkdir(path, 0775): the path is recorded whether or not the call succeeds,
     * since fast_copy.c ignores its result.
     */
    method Mkdir(p: Path)
      modifies this
      ensures dirs == old(dirs) + {p}
      ensures files == old(files)
    {
      dirs := dirs + {p};
    }
  }

  /** total_files_copied. */
  class Counter {
    var total: nat

    constructor ()
      ensures total == 0
    {
      total := 0;
    }

    method Increment()
      modifies this
      ensures total == old(total) + 1
    {
      total := total + 1;
    }
  }

  /**
   * thread_worker for the k-th submitted task: run copy_file, let its effect
   * land at the task's destination, and count it when it returned nonzero.
   */
  method Worker(k: nat, t: CopyTask, env: Env, disk: FileSystem, counter: Counter) returns (ghost o: Outcome)
    requires env.Valid()
    modifies disk, counter
    ensures o == TaskOutcome(env, t, k)
    ensures disk.files == Store(old(disk.files), t.destination, o.dest)
    ensures disk.dirs == old(disk.dirs)
    ensures counter.total == old(counter.total) + if o.ok then 1 else 0
  {
    var r := CopyFile(t.source, env.srcFs, env.IoAt(k));
    o := r;
    disk.Apply(t.destination, r.dest);
    if r.ok {
      counter.Increment();
    }
  }

  /** Join the worker of the next task, the |ts|-th: its copy lands on top of those of `ts`. */
  method JoinNext(k: nat, ghost ts: seq<CopyTask>, ghost os: seq<Outcome>, t: CopyTask, env: Env,
                  ghost files0: map<Path, seq<byte>>, disk: FileSystem, counter: Counter) returns (ghost o: Outcome)
    requires env.Valid() && k == |ts| && RanAs(env, ts, os)
    requires disk.files == ApplyEffects(files0, ts, os) && counter.total == CountSucceeded(os)
    modifies disk, counter
    ensures RanAs(env, ts + [t], os + [o])
    ensures disk.files == ApplyEffects(files0, ts + [t], os + [o])
    ensures counter.total == CountSucceeded(os + [o])
    ensures disk.dirs == old(disk.dirs)
  {
    o := Worker(k, t, env, disk, counter);
    ApplyEffectsSnoc(files0, ts, os, t, o);
    CountSucceededSnoc(os, o);
    RanAsSnoc(env, ts, os, t, o);
  }
}
