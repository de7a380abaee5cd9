/**
 * The batch of in-flight copies shared by every level of traverse_and_copy:
 * main's threads[] array of MAX_THREADS slots and the counter *thread_count.
 * A submission fills the next slot; when the eighth slot is filled, all eight
 * workers are joined and the counter goes back to 0.
 *
 * Workers started in one batch run concurrently but are all joined before the
 * counter is reset, so their effects are applied here one after the other, in
 * slot order, when the batch is joined.
 */
module Scheduler {
  import opened Types
  import opened Workers

  class Batch {
    /** The slots; each holds the task its thread was started on. */
    const threads: array<CopyTask>
    /** *thread_count: how many slots are in flight. */
    var count: nat
    const disk: FileSystem
    const counter: Counter
    const env: Env
    /** How many tasks have been submitted: it picks each task's system-call results from `env`. */
    var started: nat
    /** The destination files before the first copy. */
    ghost const initFiles: map<Path, seq<byte>>
    /** Every task submitted so far, in submission order. */
    ghost var submitted: seq<CopyTask>
    /** The tasks whose workers have been joined: all but the last `count` submitted. */
    ghost var done: seq<CopyTask>
    /** What copy_file did for each joined task. */
    ghost var results: seq<Outcome>

    /** The slots in flight hold the submitted tasks after the joined ones, in order. */
    ghost predicate InFlight()
      reads this, threads
    {
      && threads.Length == MAX_THREADS
      && count <= MAX_THREADS
      && started == |submitted| == |done| + count
      && (forall j | 0 <= j < |done| :: done[j] == submitted[j])
      && (forall j | 0 <= j < count :: threads[j] == submitted[|done| + j])
    }

    /** Every joined task's copy has landed on the destination and been counted. */
    ghost predicate Joined()
      reads this, disk, counter
    {
      && env.Valid()
      && RanAs(env, done, results)
      && disk.files == ApplyEffects(initFiles, done, results)
      && counter.total == CountSucceeded(results)
    }

    /** The state between two submissions: fewer than MAX_THREADS in flight, all earlier ones joined. */
    ghost predicate Valid()
      reads this, threads, disk, counter
    {
      InFlight() && count < MAX_THREADS && Joined()
    }

    constructor (disk: FileSystem, counter: Counter, env: Env)
      requires env.Valid() && counter.total == 0
      ensures Valid()
      ensures this.disk == disk && this.counter == counter && this.env == env
      ensures count == 0 && submitted == [] && initFiles == disk.files
      ensures fresh(threads)
    {
      threads := new CopyTask[MAX_THREADS](_ => CopyTask("", ""));
      count := 0;
      started := 0;
      this.disk := disk;
      this.counter := counter;
      this.env := env;
      initFiles := disk.files;
      submitted := [];
      done := [];
      results := [];
    }

    /**
     * The pthread_join loop over the slots in flight: each joined worker's copy
     * lands on the destination and is counted, in slot order.
     */
    method JoinSlots() returns (ghost joined: seq<CopyTask>, ghost outs: seq<Outcome>)
      requires InFlight() && Joined()
      modifies disk, counter
      ensures joined == submitted && RanAs(env, joined, outs)
      ensures disk.files == ApplyEffects(initFiles, joined, outs)
      ensures counter.total == CountSucceeded(outs)
      ensures disk.dirs == old(disk.dirs)
    {
      var base := started - count;
      joined, outs := done, results;
      var i := 0;
      while i < count
        invariant i <= count
        invariant |joined| == base + i
        invariant forall j | 0 <= j < base + i :: joined[j] == submitted[j]
        invariant RanAs(env, joined, outs)
        invariant disk.files == ApplyEffects(initFiles, joined, outs)
        invariant counter.total == CountSucceeded(outs)
        invariant disk.dirs == old(disk.dirs)
      {
        var t := threads[i];
        ghost var o := JoinNext(base + i, joined, outs, t, env, initFiles, disk, counter);
        joined, outs := joined + [t], outs + [o];
        i := i + 1;
      }
      assert joined == submitted;
    }

    /** Join every slot in flight, then *thread_count = 0. */
    method Join()
      requires InFlight() && Joined()
      modifies this, disk, counter
      ensures Valid() && count == 0
      ensures submitted == old(submitted) && done == submitted
      ensures disk.dirs == old(disk.dirs)
    {
      done, results := JoinSlots();
      count := 0;
    }

    /**
     * Start a worker on `t` in the next free slot; when that fills the last
     * slot, join the whole batch and reset the counter.
     */
    method Submit(t: CopyTask)
      requires Valid()
      modifies this, threads, disk, counter
      ensures Valid()
      ensures submitted == old(submitted) + [t]
      ensures count == if old(count) + 1 == MAX_THREADS then 0 else old(count) + 1
      ensures disk.dirs == old(disk.dirs)
    {
      threads[count] := t;
      count := count + 1;
      started := started + 1;
      submitted := submitted + [t];
      if count == MAX_THREADS {
        Join();
      }
    }
  }
}
