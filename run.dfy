/**
 * main once the arguments are checked: walk the source tree with an empty
 * batch, join the workers still in flight and report total_files_copied.
 */
module FastCopy {
  import opened Types
  import opened Selector
  import opened Workers
  import opened Scheduler
  import opened Traversal

  /**
   * One run of the program on the tree `root` at `source`, copying to
   * `destination`: the reported count, and the destination files and
   * directories once every worker has been joined.
   */
  method Run(source: Path, destination: Path, root: Node, env: Env,
             files0: map<Path, seq<byte>>, dirs0: set<Path>)
    returns (total: nat, files: map<Path, seq<byte>>, dirs: set<Path>)
    requires env.Valid()
    ensures total == CountOk(env, Tasks(root, source, destination))
    ensures total <= FileCount(root)
    ensures files == ApplyAll(files0, env, Tasks(root, source, destination))
    ensures dirs == dirs0 + Dirs(root, source, destination)
  {
    var disk := new FileSystem(files0, dirs0);
    var counter := new Counter();
    var batch := new Batch(disk, counter, env);
    TraverseAndCopy(source, destination, root, batch);
    assert batch.submitted == Tasks(root, source, destination);
    batch.Join();
    RanAsOutcomes(env, batch.done, batch.results);
    total, files, dirs := counter.total, disk.files, disk.dirs;
    CountOkBound(env, Tasks(root, source, destination));
    TasksCount(root, source, destination);
  }

  /**
   * Running the program twice on the same trees, the second run starting from
   * what the first left and meeting the same system-call results, changes
   * nothing more: the destination files and directories after it are those
   * after the first run. (The total `Run` reports depends only on the tasks and
   * the system-call results, so it is the same too.)
   */
  lemma CopyTwiceSame(source: Path, destination: Path, root: Node, env: Env,
                      files0: map<Path, seq<byte>>, dirs0: set<Path>)
    requires env.Valid()
    ensures var ts := Tasks(root, source, destination);
            ApplyAll(ApplyAll(files0, env, ts), env, ts) == ApplyAll(files0, env, ts)
    ensures var ds := Dirs(root, source, destination);
            (dirs0 + ds) + ds == dirs0 + ds
  {
    ApplyAllIdempotent(files0, env, Tasks(root, source, destination));
  }

  /**
   * A subdirectory of the source root that opendir cannot open leaves no trace
   * in the destination: whatever the system-call results, a path below
   * destination/n, n being its name, is present after the run exactly when it was
   * before, with the same contents, and it is passed to mkdir only if it was
   * already recorded.
   */
  lemma UnreadableSubtreeUntouched(root: Node, source: Path, destination: Path, env: Env,
                                   files0: map<Path, seq<byte>>, dirs0: set<Path>, k: nat, p: Path)
    requires env.Valid() && WellFormed(root) && Opens(root)
    requires k < |root.entries| && root.entries[k].node.Dir? && !root.entries[k].node.readable
    requires |destination| < |p| && FirstComponent(p[|destination| + 1..]) == root.entries[k].name
    ensures p in ApplyAll(files0, env, Tasks(root, source, destination)) <==> p in files0
    ensures p in files0 ==> ApplyAll(files0, env, Tasks(root, source, destination))[p] == files0[p]
    ensures p in dirs0 + Dirs(root, source, destination) <==> p in dirs0
  {
    var ts := Tasks(root, source, destination);
    assert ts == ListingTasks(root, |root.entries|, source, destination);
    ListingNoTasks(root, |root.entries|, source, destination, k);
    ListingNoDirs(root, |root.entries|, source, destination, k);
    ApplyAllElsewhere(files0, env, ts, p);
  }

  /** Every system call succeeds. */
  predicate Smooth(env: Env) {
    forall k | 0 <= k < |env.ios| :: Benign(env.ios[k])
  }

  /**
   * When every system call succeeds and every file found in the walk can be
   * stat'ed, the count reported is the number of non-directory entries, and a
   * destination path only one task writes holds its source file's bytes.
   */
  lemma {:induction false} CopyTreeComplete(root: Node, source: Path, destination: Path, env: Env, files0: map<Path, seq<byte>>)
    requires env.Valid() && Smooth(env)
    requires forall i | 0 <= i < |Tasks(root, source, destination)| :: Tasks(root, source, destination)[i].source in env.srcFs
    ensures CountOk(env, Tasks(root, source, destination)) == FileCount(root)
    ensures forall i | 0 <= i < |Tasks(root, source, destination)| ::
              var ts := Tasks(root, source, destination);
              (forall j | 0 <= j < |ts| && j != i :: ts[j].destination != ts[i].destination) ==>
                && ts[i].destination in ApplyAll(files0, env, ts)
                && ApplyAll(files0, env, ts)[ts[i].destination] == env.srcFs[ts[i].source]
  {
    var ts := Tasks(root, source, destination);
    forall i | 0 <= i < |ts|
      ensures TaskOutcome(env, ts[i], i) == Outcome(true, Written(env.srcFs[ts[i].source]))
    {
      DefaultIoBenign();
      CopyFileComplete(ts[i].source, env.srcFs, env.IoAt(i));
    }
    CountOkAll(env, ts);
    TasksCount(root, source, destination);
    forall i | 0 <= i < |ts| && (forall j | 0 <= j < |ts| && j != i :: ts[j].destination != ts[i].destination)
      ensures ts[i].destination in ApplyAll(files0, env, ts)
      ensures ApplyAll(files0, env, ts)[ts[i].destination] == env.srcFs[ts[i].source]
    {
      ApplyAllOwner(files0, env, ts, i, env.srcFs[ts[i].source]);
    }
  }

  /**
   * On a tree readdir can return, with every system call succeeding and every
   * file found stat'able, the destination tree mirrors the source tree: for each
   * file at relative path r, destination + r holds the bytes of source + r.
   */
  lemma CopyTreeMirrors(root: Node, source: Path, destination: Path, env: Env, files0: map<Path, seq<byte>>)
    requires env.Valid() && Smooth(env) && WellFormed(root)
    requires forall i | 0 <= i < |Tasks(root, source, destination)| :: Tasks(root, source, destination)[i].source in env.srcFs
    ensures forall i | 0 <= i < |RelativePaths(root)| ::
              && source + RelativePaths(root)[i] in env.srcFs
              && destination + RelativePaths(root)[i] in ApplyAll(files0, env, Tasks(root, source, destination))
              && ApplyAll(files0, env, Tasks(root, source, destination))[destination + RelativePaths(root)[i]]
                 == env.srcFs[source + RelativePaths(root)[i]]
  {
    var ts := Tasks(root, source, destination);
    TasksDistinct(root, source, destination);
    CopyTreeComplete(root, source, destination, env, files0);
    TasksMirror(root, source, destination);
    forall i | 0 <= i < |ts|
      ensures forall j | 0 <= j < |ts| && j != i :: ts[j].destination != ts[i].destination
    {
      forall j | 0 <= j < |ts| && j != i
        ensures ts[j].destination != ts[i].destination
      {
        if j < i {
          assert ts[j].destination != ts[i].destination;
        } else {
          assert ts[i].destination != ts[j].destination;
        }
      }
    }
  }
}
