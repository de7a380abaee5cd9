/**
 * traverse_and_copy: the recursive walk of the source tree. A directory that
 * opens has its destination path passed to mkdir, then its entries are visited in
 * listing order; "." and ".." are skipped, a subdirectory is walked in turn
 * and every other entry becomes one copy task submitted to the shared batch.
 */
module Traversal {
  import opened Types
  import opened Workers
  import opened Scheduler

  /**
   * The source tree as stat and opendir see it. A directory that cannot be
   * opened is `Dir(false, _)`; anything that is not a directory is a `File`.
   */
  datatype Node = File | Dir(readable: bool, entries: seq<Entry>)

  /** One name readdir returns, with what the name denotes. */
  datatype Entry = Entry(name: string, node: Node)

  /** The path snprintf builds for an entry: parent, '/', name. */
  function Child(parent: Path, name: string): (p: Path)
    ensures |p| == |parent| + 1 + |name|
    ensures p[..|parent|] == parent && p[|parent|] == '/' && p[|parent| + 1..] == name
  {
    parent + "/" + name
  }

  predicate Skipped(name: string) {
    name == "." || name == ".."
  }

  predicate Opens(node: Node) {
    node.Dir? && node.readable
  }

  /** The copy tasks traverse_and_copy(src, dst) submits, in submission order. */
  function Tasks(node: Node, src: Path, dst: Path): seq<CopyTask>
    decreases node, 1
  {
    if Opens(node) then ListingTasks(node, |node.entries|, src, dst) else []
  }

  /** The tasks submitted for the first k entries of an open directory. */
  function ListingTasks(node: Node, k: nat, src: Path, dst: Path): seq<CopyTask>
    requires node.Dir? && k <= |node.entries|
    decreases node, 0, k
  {
    if k == 0 then []
    else ListingTasks(node, k - 1, src, dst) + EntryTasks(node.entries[k - 1], src, dst)
  }

  /** The tasks one entry of the directory src contributes. */
  function EntryTasks(e: Entry, src: Path, dst: Path): seq<CopyTask>
    decreases e, 2
  {
    if Skipped(e.name) then []
    else if e.node.Dir? then Tasks(e.node, Child(src, e.name), Child(dst, e.name))
    else [CopyTask(Child(src, e.name), Child(dst, e.name))]
  }

  /** The directories traverse_and_copy(src, dst) passes to mkdir. */
  function Dirs(node: Node, src: Path, dst: Path): set<Path>
    decreases node, 1
  {
    if Opens(node) then {dst} + ListingDirs(node, |node.entries|, src, dst) else {}
  }

  function ListingDirs(node: Node, k: nat, src: Path, dst: Path): set<Path>
    requires node.Dir? && k <= |node.entries|
    decreases node, 0, k
  {
    if k == 0 then {}
    else ListingDirs(node, k - 1, src, dst) + EntryDirs(node.entries[k - 1], src, dst)
  }

  function EntryDirs(e: Entry, src: Path, dst: Path): set<Path>
    decreases e, 2
  {
    if Skipped(e.name) || !e.node.Dir? then {}
    else Dirs(e.node, Child(src, e.name), Child(dst, e.name))
  }

  /**
   * The path of each copied file relative to the root of the walk: "/a/b" for
   * the file b in the subdirectory a.
   */
  function RelativePaths(node: Node): (rs: seq<Path>)
    ensures |rs| == |Tasks(node, "", "")|
  {
    var ts := Tasks(node, "", "");
    seq(|ts|, i requires 0 <= i < |ts| => ts[i].source)
  }

  /**
   * Source and destination mirror each other: the i-th task reads the same
   * relative path under the source root as it writes under the destination
   * root, and that path starts with '/', so it lies strictly below both roots.
   */
  lemma TasksMirror(node: Node, src: Path, dst: Path)
    ensures |Tasks(node, src, dst)| == |RelativePaths(node)|
    ensures forall i | 0 <= i < |RelativePaths(node)| ::
              && Tasks(node, src, dst)[i] == CopyTask(src + RelativePaths(node)[i], dst + RelativePaths(node)[i])
              && 0 < |RelativePaths(node)[i]| && RelativePaths(node)[i][0] == '/'
  {
    TasksShift(node, src, dst);
  }

  /** Moving both roots moves every task's two paths by the same amount. */
  lemma {:induction false} TasksShift(node: Node, src: Path, dst: Path)
    decreases node, 1
    ensures |Tasks(node, src, dst)| == |Tasks(node, "", "")|
    ensures forall i | 0 <= i < |Tasks(node, src, dst)| ::
              && Tasks(node, src, dst)[i].source == src + Tasks(node, "", "")[i].source
              && Tasks(node, src, dst)[i].destination == dst + Tasks(node, "", "")[i].source
    ensures forall i | 0 <= i < |Tasks(node, "", "")| ::
              0 < |Tasks(node, "", "")[i].source| && Tasks(node, "", "")[i].source[0] == '/'
  {
    if Opens(node) {
      ListingShift(node, |node.entries|, src, dst);
    }
  }

  lemma {:induction false} ListingShift(node: Node, k: nat, src: Path, dst: Path)
    requires node.Dir? && k <= |node.entries|
    decreases node, 0, k
    ensures |ListingTasks(node, k, src, dst)| == |ListingTasks(node, k, "", "")|
    ensures forall i | 0 <= i < |ListingTasks(node, k, src, dst)| ::
              && ListingTasks(node, k, src, dst)[i].source == src + ListingTasks(node, k, "", "")[i].source
              && ListingTasks(node, k, src, dst)[i].destination == dst + ListingTasks(node, k, "", "")[i].source
    ensures forall i | 0 <= i < |ListingTasks(node, k, "", "")| ::
              0 < |ListingTasks(node, k, "", "")[i].source| && ListingTasks(node, k, "", "")[i].source[0] == '/'
  {
    if k > 0 {
      ListingShift(node, k - 1, src, dst);
      EntryShift(node.entries[k - 1], src, dst);
    }
  }

  lemma JoinAssoc(root: Path, name: string, rel: Path)
    ensures (root + "/" + name) + rel == root + (("/" + name) + rel)
  {
    AppendAssoc(root + "/", name, rel);
    AppendAssoc(root, "/", name + rel);
    AppendAssoc("/", name, rel);
  }

  lemma {:induction false} EntryShift(e: Entry, src: Path, dst: Path)
    decreases e, 2
    ensures |EntryTasks(e, src, dst)| == |EntryTasks(e, "", "")|
    ensures forall i | 0 <= i < |EntryTasks(e, src, dst)| ::
              && EntryTasks(e, src, dst)[i].source == src + EntryTasks(e, "", "")[i].source
              && EntryTasks(e, src, dst)[i].destination == dst + EntryTasks(e, "", "")[i].source
    ensures forall i | 0 <= i < |EntryTasks(e, "", "")| ::
              0 < |EntryTasks(e, "", "")[i].source| && EntryTasks(e, "", "")[i].source[0] == '/'
  {
    if !Skipped(e.name) {
      var n := e.name;
      assert Child("", n) == "/" + n;
      if e.node.Dir? {
        var rel := Tasks(e.node, "", "");
        TasksShift(e.node, Child(src, n), Child(dst, n));
        TasksShift(e.node, "/" + n, "/" + n);
        TasksShift(e.node, "", "");
        forall i | 0 <= i < |rel|
          ensures (src + "/" + n) + rel[i].source == src + (("/" + n) + rel[i].source)
          ensures (dst + "/" + n) + rel[i].source == dst + (("/" + n) + rel[i].source)
        {
          JoinAssoc(src, n, rel[i].source);
          JoinAssoc(dst, n, rel[i].source);
        }
      } else {
        AppendAssoc(src, "/", n);
        AppendAssoc(dst, "/", n);
      }
    }
  }

  /** The number of non-directory entries below an open directory, "." and ".." left aside. */
  function FileCount(node: Node): nat
    decreases node, 1
  {
    if Opens(node) then ListingFileCount(node, |node.entries|) else 0
  }

  function ListingFileCount(node: Node, k: nat): nat
    requires node.Dir? && k <= |node.entries|
    decreases node, 0, k
  {
    if k == 0 then 0 else ListingFileCount(node, k - 1) + EntryFileCount(node.entries[k - 1])
  }

  function EntryFileCount(e: Entry): nat
    decreases e, 2
  {
    if Skipped(e.name) then 0
    else if e.node.Dir? then FileCount(e.node)
    else 1
  }

  /** One task per non-directory entry, whatever the two roots. */
  lemma {:induction false} TasksCount(node: Node, src: Path, dst: Path)
    decreases node, 1
    ensures |Tasks(node, src, dst)| == FileCount(node)
  {
    if Opens(node) {
      ListingCount(node, |node.entries|, src, dst);
    }
  }

  lemma {:induction false} ListingCount(node: Node, k: nat, src: Path, dst: Path)
    requires node.Dir? && k <= |node.entries|
    decreases node, 0, k
    ensures |ListingTasks(node, k, src, dst)| == ListingFileCount(node, k)
  {
    if k > 0 {
      ListingCount(node, k - 1, src, dst);
      EntryCount(node.entries[k - 1], src, dst);
    }
  }

  lemma {:induction false} EntryCount(e: Entry, src: Path, dst: Path)
    decreases e, 2
    ensures |EntryTasks(e, src, dst)| == EntryFileCount(e)
  {
    if !Skipped(e.name) && e.node.Dir? {
      TasksCount(e.node, Child(src, e.name), Child(dst, e.name));
    }
  }

  /** `p` is `root` itself or a path inside it: `root`, then '/', then more. */
  predicate Under(p: Path, root: Path) {
    p == root || (|root| < |p| && p[..|root|] == root && p[|root|] == '/')
  }

  /** A path inside root/name is inside root. */
  lemma UnderChild(p: Path, root: Path, name: string)
    requires Under(p, Child(root, name))
    ensures Under(p, root)
  {
    var c := Child(root, name);
    assert p[..|root|] == p[..|c|][..|root|];
    assert p[|root|] == p[..|c|][|root|];
  }

  /**
   * mkdir is called on the destination root exactly when the source opens,
   * and never on a path outside the destination root.
   */
  lemma {:induction false} DirsUnder(node: Node, src: Path, dst: Path)
    decreases node, 1
    ensures dst in Dirs(node, src, dst) <==> Opens(node)
    ensures forall p | p in Dirs(node, src, dst) :: Under(p, dst)
  {
    if Opens(node) {
      ListingDirsUnder(node, |node.entries|, src, dst);
    }
  }

  lemma {:induction false} ListingDirsUnder(node: Node, k: nat, src: Path, dst: Path)
    requires node.Dir? && k <= |node.entries|
    decreases node, 0, k
    ensures forall p | p in ListingDirs(node, k, src, dst) :: Under(p, dst)
  {
    if k > 0 {
      ListingDirsUnder(node, k - 1, src, dst);
      EntryDirsUnder(node.entries[k - 1], src, dst);
    }
  }

  lemma {:induction false} EntryDirsUnder(e: Entry, src: Path, dst: Path)
    decreases e, 2
    ensures forall p | p in EntryDirs(e, src, dst) :: Under(p, dst)
  {
    if !Skipped(e.name) && e.node.Dir? {
      DirsUnder(e.node, Child(src, e.name), Child(dst, e.name));
      forall p | p in EntryDirs(e, src, dst)
        ensures Under(p, dst)
      {
        UnderChild(p, dst, e.name);
      }
    }
  }

  // ---------------------------------------------------------------------------
  // distinct destinations

  /**
   * A listing as readdir returns it: every name non-empty and free of '/', no
   * name twice in one directory, and the same below.
   */
  predicate WellFormed(node: Node)
    decreases node, 1
  {
    node.Dir? ==>
      && (forall i, j | 0 <= i < j < |node.entries| :: node.entries[i].name != node.entries[j].name)
      && ListingWellFormed(node, |node.entries|)
  }

  predicate ListingWellFormed(node: Node, k: nat)
    requires node.Dir? && k <= |node.entries|
    decreases node, 0, k
  {
    k == 0 || (ListingWellFormed(node, k - 1) && EntryWellFormed(node.entries[k - 1]))
  }

  predicate EntryWellFormed(e: Entry)
    decreases e, 2
  {
    |e.name| > 0 && '/' !in e.name && WellFormed(e.node)
  }

  /** The first component of a relative path: everything before its first '/'. */
  function FirstComponent(p: Path): string {
    if p == [] || p[0] == '/' then [] else [p[0]] + FirstComponent(p[1..])
  }

  /** A name followed by nothing or by a '/' is the first component. */
  lemma {:induction false} FirstComponentOf(name: string, rest: Path)
    requires '/' !in name && (rest == [] || rest[0] == '/')
    ensures FirstComponent(name + rest) == name
  {
    if name != [] {
      assert (name + rest)[0] == name[0];
      assert (name + rest)[1..] == name[1..] + rest;
      FirstComponentOf(name[1..], rest);
    }
  }

  predicate DistinctDestinations(ts: seq<CopyTask>) {
    forall i, j | 0 <= i < j < |ts| :: ts[i].destination != ts[j].destination
  }

  /** Every destination lies below `dst` + "/", in an entry named in `names`. */
  predicate NamedBelow(ts: seq<CopyTask>, dst: Path, names: set<string>) {
    forall i | 0 <= i < |ts| ::
      |dst| < |ts[i].destination| && FirstComponent(ts[i].destination[|dst| + 1..]) in names
  }

  function ListingNames(node: Node, k: nat): set<string>
    requires node.Dir? && k <= |node.entries|
  {
    set j | 0 <= j < k :: node.entries[j].name
  }

  /** On a tree readdir can return, no two tasks of the walk write the same destination path. */
  lemma {:induction false} TasksDistinct(node: Node, src: Path, dst: Path)
    requires WellFormed(node)
    decreases node, 1
    ensures DistinctDestinations(Tasks(node, src, dst))
  {
    if Opens(node) {
      ListingDistinct(node, |node.entries|, src, dst);
    }
  }

  lemma {:induction false} ListingDistinct(node: Node, k: nat, src: Path, dst: Path)
    requires node.Dir? && k <= |node.entries| && ListingWellFormed(node, k)
    requires forall i, j | 0 <= i < j < |node.entries| :: node.entries[i].name != node.entries[j].name
    decreases node, 0, k
    ensures DistinctDestinations(ListingTasks(node, k, src, dst))
    ensures NamedBelow(ListingTasks(node, k, src, dst), dst, ListingNames(node, k))
  {
    if k > 0 {
      var e := node.entries[k - 1];
      var before := ListingTasks(node, k - 1, src, dst);
      var here := EntryTasks(e, src, dst);
      ListingDistinct(node, k - 1, src, dst);
      EntryDistinct(e, src, dst);
      var ts := ListingTasks(node, k, src, dst);
      assert ts == before + here;
      assert e.name !in ListingNames(node, k - 1);
      forall i | 0 <= i < |ts|
        ensures |dst| < |ts[i].destination|
        ensures FirstComponent(ts[i].destination[|dst| + 1..]) in ListingNames(node, k)
      {
        if i < |before| {
          assert ts[i] == before[i];
        } else {
          assert ts[i] == here[i - |before|];
        }
      }
      forall i, j | 0 <= i < j < |ts|
        ensures ts[i].destination != ts[j].destination
      {
        if j < |before| {
          assert ts[i] == before[i] && ts[j] == before[j];
        } else if |before| <= i {
          assert ts[i] == here[i - |before|] && ts[j] == here[j - |before|];
        } else {
          assert ts[i] == before[i] && ts[j] == here[j - |before|];
          assert FirstComponent(ts[i].destination[|dst| + 1..]) in ListingNames(node, k - 1);
          assert FirstComponent(ts[j].destination[|dst| + 1..]) == e.name;
        }
      }
    }
  }

  lemma {:induction false} EntryDistinct(e: Entry, src: Path, dst: Path)
    requires EntryWellFormed(e)
    decreases e, 2
    ensures DistinctDestinations(EntryTasks(e, src, dst))
    ensures NamedBelow(EntryTasks(e, src, dst), dst, {e.name})
  {
    var n := e.name;
    if Skipped(n) {
    } else if e.node.Dir? {
      var ts := Tasks(e.node, Child(src, n), Child(dst, n));
      TasksDistinct(e.node, Child(src, n), Child(dst, n));
      TasksShift(e.node, Child(src, n), Child(dst, n));
      forall i | 0 <= i < |ts|
        ensures |dst| < |ts[i].destination|
        ensures FirstComponent(ts[i].destination[|dst| + 1..]) == n
      {
        var rest := Tasks(e.node, "", "")[i].source;
        assert ts[i].destination == Child(dst, n) + rest;
        assert ts[i].destination[|dst| + 1..] == n + rest;
        FirstComponentOf(n, rest);
      }
    } else {
      var d := Child(dst, n);
      assert d[|dst| + 1..] == n + [];
      FirstComponentOf(n, []);
    }
  }

  // ---------------------------------------------------------------------------
  // unreadable subdirectories

  /** A path inside root/name, with name free of '/', has name as its first component below root. */
  lemma UnderChildComponent(p: Path, root: Path, name: string)
    requires '/' !in name && Under(p, Child(root, name))
    ensures |root| < |p| && FirstComponent(p[|root| + 1..]) == name
  {
    var c := Child(root, name);
    var rest := p[|c|..];
    assert p[..|c|] == c;
    assert p[|root| + 1..] == name + rest;
    FirstComponentOf(name, rest);
  }

  /**
   * The k-th entry of an open, well-formed directory is a subdirectory that
   * opendir cannot open: none of the tasks of the first m entries writes below
   * dst/n, n being that entry's name.
   */
  lemma {:induction false} ListingNoTasks(node: Node, m: nat, src: Path, dst: Path, k: nat)
    requires node.Dir? && m <= |node.entries| && ListingWellFormed(node, m)
    requires forall i, j | 0 <= i < j < |node.entries| :: node.entries[i].name != node.entries[j].name
    requires k < |node.entries| && node.entries[k].node.Dir? && !node.entries[k].node.readable
    decreases m
    ensures forall i | 0 <= i < |ListingTasks(node, m, src, dst)| ::
              && |dst| < |ListingTasks(node, m, src, dst)[i].destination|
              && FirstComponent(ListingTasks(node, m, src, dst)[i].destination[|dst| + 1..]) != node.entries[k].name
  {
    if m > 0 {
      var e := node.entries[m - 1];
      var before := ListingTasks(node, m - 1, src, dst);
      var here := EntryTasks(e, src, dst);
      ListingNoTasks(node, m - 1, src, dst, k);
      var ts := ListingTasks(node, m, src, dst);
      assert ts == before + here;
      if m - 1 == k {
        assert Tasks(e.node, Child(src, e.name), Child(dst, e.name)) == [];
        assert here == [];
      } else {
        EntryDistinct(e, src, dst);
        assert e.name != node.entries[k].name;
      }
      forall i | 0 <= i < |ts|
        ensures |dst| < |ts[i].destination|
        ensures FirstComponent(ts[i].destination[|dst| + 1..]) != node.entries[k].name
      {
        if i < |before| {
          assert ts[i] == before[i];
        } else {
          assert ts[i] == here[i - |before|];
        }
      }
    }
  }

  /**
   * Under the same conditions, none of the paths the first m entries pass to
   * mkdir lies in dst/n.
   */
  lemma {:induction false} ListingNoDirs(node: Node, m: nat, src: Path, dst: Path, k: nat)
    requires node.Dir? && m <= |node.entries| && ListingWellFormed(node, m)
    requires forall i, j | 0 <= i < j < |node.entries| :: node.entries[i].name != node.entries[j].name
    requires k < |node.entries| && node.entries[k].node.Dir? && !node.entries[k].node.readable
    decreases m
    ensures forall p | p in ListingDirs(node, m, src, dst) ::
              |dst| < |p| && FirstComponent(p[|dst| + 1..]) != node.entries[k].name
  {
    if m > 0 {
      var e := node.entries[m - 1];
      ListingNoDirs(node, m - 1, src, dst, k);
      assert ListingDirs(node, m, src, dst) == ListingDirs(node, m - 1, src, dst) + EntryDirs(e, src, dst);
      if m - 1 == k {
        assert EntryDirs(e, src, dst) == {};
      } else if !Skipped(e.name) && e.node.Dir? {
        assert EntryWellFormed(e) && e.name != node.entries[k].name;
        DirsUnder(e.node, Child(src, e.name), Child(dst, e.name));
        forall p | p in EntryDirs(e, src, dst)
          ensures |dst| < |p| && FirstComponent(p[|dst| + 1..]) == e.name
        {
          UnderChildComponent(p, dst, e.name);
        }
      }
    }
  }

  /**
   * traverse_and_copy(source, destination, threads, thread_count) on the tree
   * `node` found at `source`: the tasks it submits to the shared batch and the
   * paths it passes to mkdir are those of the walk.
   */
  method TraverseAndCopy(source: Path, destination: Path, node: Node, batch: Batch)
    requires batch.Valid()
    modifies batch, batch.threads, batch.disk, batch.counter
    decreases node, 2
    ensures batch.Valid()
    ensures batch.submitted == old(batch.submitted) + Tasks(node, source, destination)
    ensures batch.disk.dirs == old(batch.disk.dirs) + Dirs(node, source, destination)
    ensures batch.count == (old(batch.count) + |Tasks(node, source, destination)|) % MAX_THREADS
  {
    if !Opens(node) {
      return;
    }
    batch.disk.Mkdir(destination);
    VisitListing(source, destination, node, batch);
  }

  /** The readdir loop of an open directory, after its mkdir. */
  method VisitListing(source: Path, destination: Path, node: Node, batch: Batch)
    requires node.Dir? && batch.Valid()
    modifies batch, batch.threads, batch.disk, batch.counter
    decreases node, 1
    ensures batch.Valid()
    ensures batch.submitted == old(batch.submitted) + ListingTasks(node, |node.entries|, source, destination)
    ensures batch.disk.dirs == old(batch.disk.dirs) + ListingDirs(node, |node.entries|, source, destination)
    ensures batch.count == (old(batch.count) + |ListingTasks(node, |node.entries|, source, destination)|) % MAX_THREADS
  {
    var k := 0;
    while k < |node.entries|
      invariant k <= |node.entries|
      invariant batch.Valid()
      invariant batch.submitted == old(batch.submitted) + ListingTasks(node, k, source, destination)
      invariant batch.disk.dirs == old(batch.disk.dirs) + ListingDirs(node, k, source, destination)
      invariant batch.count == (old(batch.count) + |ListingTasks(node, k, source, destination)|) % MAX_THREADS
    {
      VisitNext(source, destination, node, k, batch, old(batch.submitted), old(batch.disk.dirs), old(batch.count));
      k := k + 1;
    }
  }

  /**
   * The `k`-th pass of the readdir loop: the batch, which started the loop at
   * `submitted0`, `dirs0` and `count0`, moves from the first `k` entries' work
   * to the first `k + 1` entries'.
   */
  method VisitNext(source: Path, destination: Path, node: Node, k: nat, batch: Batch,
                   ghost submitted0: seq<CopyTask>, ghost dirs0: set<Path>, ghost count0: nat)
    requires node.Dir? && k < |node.entries| && batch.Valid()
    requires batch.submitted == submitted0 + ListingTasks(node, k, source, destination)
    requires batch.disk.dirs == dirs0 + ListingDirs(node, k, source, destination)
    requires batch.count == (count0 + |ListingTasks(node, k, source, destination)|) % MAX_THREADS
    modifies batch, batch.threads, batch.disk, batch.counter
    decreases node, 0
    ensures batch.Valid()
    ensures batch.submitted == submitted0 + ListingTasks(node, k + 1, source, destination)
    ensures batch.disk.dirs == dirs0 + ListingDirs(node, k + 1, source, destination)
    ensures batch.count == (count0 + |ListingTasks(node, k + 1, source, destination)|) % MAX_THREADS
  {
    var e := node.entries[k];
    ghost var mid := batch.count;
    AppendAssoc(submitted0, ListingTasks(node, k, source, destination), EntryTasks(e, source, destination));
    UnionAssoc(dirs0, ListingDirs(node, k, source, destination), EntryDirs(e, source, destination));
    assert ListingTasks(node, k + 1, source, destination) == ListingTasks(node, k, source, destination) + EntryTasks(e, source, destination);
    assert ListingDirs(node, k + 1, source, destination) == ListingDirs(node, k, source, destination) + EntryDirs(e, source, destination);
    VisitEntry(source, destination, e, batch);
    ModShift(count0, |ListingTasks(node, k, source, destination)|, |EntryTasks(e, source, destination)|,
             |ListingTasks(node, k + 1, source, destination)|, mid, batch.count);
  }

  /** One pass of the readdir loop in the directory `source`. */
  method VisitEntry(source: Path, destination: Path, e: Entry, batch: Batch)
    requires batch.Valid()
    modifies batch, batch.threads, batch.disk, batch.counter
    decreases e, 3
    ensures batch.Valid()
    ensures batch.submitted == old(batch.submitted) + EntryTasks(e, source, destination)
    ensures batch.disk.dirs == old(batch.disk.dirs) + EntryDirs(e, source, destination)
    ensures batch.count == (old(batch.count) + |EntryTasks(e, source, destination)|) % MAX_THREADS
  {
    if Skipped(e.name) {
    } else if e.node.Dir? {
      TraverseAndCopy(Child(source, e.name), Child(destination, e.name), e.node, batch);
    } else {
      batch.Submit(CopyTask(Child(source, e.name), Child(destination, e.name)));
    }
  }
}
