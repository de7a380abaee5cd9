# fast_copy in Dafny

A model of the copy engine of `fast_copy.c`, a multi-threaded recursive directory
copier. The model covers the following:

- **Strategy selection.** `copy_file` stats the source and hands the file to exactly
  one of three strategies, chosen by size band:
  - above 100 MiB, `sendfile`;
  - above 64 KiB, a memory-mapped copy;
  - 64 KiB or less, zero included, a buffered read/write loop.
- **The three transfer loops.**
- **The traversal.** `traverse_and_copy` walks the source tree, calls mkdir for the destination
  directories, skips `.` and `..`, and turns every other non-directory entry into a copy
  task.
- **The batch.** A task goes into the shared `threads[]`/`*thread_count` batch of eight
  slots. The batch is joined when it fills, and `main` joins whatever is left.
- **The counter.** Each `thread_worker` bumps `total_files_copied` once per successful
  copy.

Files:

| File | Module | Contents |
|---|---|---|
| `types.dfy` | `Types` | Bytes, paths, the three constants, `CopyTask`, and the system-call oracle `Io` |
| `transfer.dfy` | `Transfer` | `copy_file_sendfile`, `copy_file_mmap` and `copy_file_aio` |
| `selector.dfy` | `Selector` | `copy_file` |
| `workers.dfy` | `Workers` | `thread_worker`; the destination file system and the success counter as classes |
| `scheduler.dfy` | `Scheduler` | The batch of in-flight workers, as class `Batch` |
| `traversal.dfy` | `Traversal` | `traverse_and_copy`, over a source-tree datatype |
| `run.dfy` | `FastCopy` | `main` from the walk to the count report |

**Transfers.** The sendfile and buffered transfers are methods with the source's loop. Each
is proved equal to a specification function that keeps the loop state as the code does:
the offset, the results still to come, and the bytes written so far. The mmap transfer has
no loop: it is a straight-line copy into an array standing for the destination mapping,
proved equal to `MmapSpec`. Lemmas then state what those functions promise.

**System-call results as inputs.** Each copy's system-call results are an input `Io`
with these parts:

- which opens and mappings succeed;
- the successive return values of `sendfile`, `read` and `write`.

A list that runs out means every further call moves all it asked for.

**Workers in submission order.** Workers started in one batch run concurrently. All of
them are joined before the batch is reused. So the model applies each worker's effect on
the destination when its slot is joined, in slot order, which is submission order. The
k-th task submitted uses the k-th `Io` of the environment `Env`.

## Model

| member | source | states |
|---|---|---|
| Selector.SelectStrategy | fast_copy.c:90-96 | The three size bands partition all sizes: sendfile exactly above 104857600 bytes, mmap exactly in (65536, 104857600], the buffered copy exactly at or below 65536, zero included |
| Selector.SelectMonotone | fast_copy.c:90-96 | A larger file never goes to a strategy of a smaller band |
| Selector.StrategySpec | fast_copy.c:90-96 | Running one strategy: the destination is untouched exactly when it did not open. A success needs both opens and leaves a written destination, the whole source for sendfile and mmap. Whatever is written is a prefix of the source, or for mmap the zero-filled file |
| Selector.CopyFileSpec | fast_copy.c:83-97 | copy_file as a function of the source files and the system-call results. The destination is written exactly when stat succeeds and the destination opens; a success needs stat and both opens to succeed |
| Selector.CopyFile | fast_copy.c:83-97 | A path that fails stat returns 0 and leaves the destination untouched. Otherwise the result is exactly that of the one strategy chosen by the size band. A success leaves a prefix of the source, and the whole source above 64 KiB |
| Selector.CopyFileSound | fast_copy.c:83-183 | A success has written the destination. Whatever is written is a prefix of the source, or in the mmap band the zero-filled file ftruncate made. A success is the whole source above 64 KiB, and below it when no read fails early. A destination that did not open is untouched |
| Selector.CopyFileComplete | fast_copy.c:83-183 | When every open, mapping, transfer, read and write succeeds, copy_file returns 1 with the destination equal to the source, for every size including 0 |
| Transfer.OpenFailure | fast_copy.c:101-106 | The failed-open return of every strategy (also fast_copy.c:130-135 and 161-166): it returns 0, leaves the destination untouched exactly when it did not open, and otherwise leaves it empty, as O_TRUNC made it |
| Transfer.SendResult | fast_copy.c:113 | One sendfile call fails exactly when the kernel reports an error, never moves more than is left, and moves something whenever it reports progress on a non-empty rest |
| Transfer.SendRun | fast_copy.c:111-120 | The sendfile loop from an offset: the bytes the destination held stay in front, at most the bytes left are added, and ending normally it has added exactly that many |
| Transfer.SendRunAppends | fast_copy.c:111-120 | Whatever the destination held, the loop appends the source bytes from the offset on, in order. Ending normally, it has appended exactly the bytes from the offset to the end |
| Transfer.SendfileSpec | fast_copy.c:100-126 | copy_file_sendfile as a function of the system-call results: the destination is untouched exactly when it did not open, a success needs both opens and leaves exactly the source, and anything written is a prefix of the source |
| Transfer.CopyFileSendfile | fast_copy.c:100-126 | Matches the sendfile specification. A success leaves exactly the source, and any written destination is a prefix of the source. A failed open returns 0 and leaves the destination only truncated |
| Transfer.SendRunCopies | fast_copy.c:111-125 | The offset advances by what was sent, so the destination is always a prefix of the source. The loop ends normally only with the whole source copied |
| Transfer.SendRunFailure | fast_copy.c:112-119 | The loop fails only through a negative sendfile result. With no negative result it succeeds |
| Transfer.MmapSpec | fast_copy.c:130-156 | The mmap copy as a function of the open and mapping results: the destination is untouched exactly when it did not open, and a success leaves exactly the source |
| Transfer.CopyFileMmap | fast_copy.c:129-157 | Matches the mmap specification. It returns 1 if and only if both opens and both mappings succeed on a non-empty source, and then the destination equals the source. After the opens the destination always has the source's length |
| Transfer.ReadResult | fast_copy.c:170 | One read returns at most BUFFER_SIZE bytes and never more than are left |
| Transfer.WriteResult | fast_copy.c:171 | One write accepts no more than it was given |
| Transfer.ReadInto | fast_copy.c:170 | A read of n bytes at position pos puts exactly those source bytes at the front of the buffer and leaves the rest of the buffer unchanged |
| Transfer.AioRun | fast_copy.c:168-177 | The read/write loop from a file position: the destination never shrinks, and grows by at most the bytes left in the file |
| Transfer.AioRunAppends | fast_copy.c:168-177 | Whatever the destination held, the loop only appends to it: the source bytes from the position on, in order, whether it ends normally or at a short write |
| Transfer.AioSpec | fast_copy.c:160-183 | copy_file_aio as a function of the system-call results: the destination is untouched exactly when it did not open, a success needs both opens and a written destination, and anything written is a prefix of the source |
| Transfer.AioLoop | fast_copy.c:168-177 | The read/write loop over the 64 KiB buffer computes exactly the loop specification |
| Transfer.CopyFileAio | fast_copy.c:160-183 | Matches the buffered-copy specification, and whatever it writes is a prefix of the source |
| Transfer.AioRunPrefix | fast_copy.c:168-177 | On every path, including a short or failed write, the destination holds a prefix of the source |
| Transfer.AioRunComplete | fast_copy.c:168-182 | With clean reads and full writes the loop returns success and the destination equals the source |
| Transfer.AioRunCleanReads | fast_copy.c:170-182 | When no read fails or returns empty early, a normal end means the whole source was copied |
| Transfer.AioRunFailure | fast_copy.c:171-176 | The loop fails only if some write result is below a full 64 KiB buffer, so when every write accepts a full buffer it never fails |
| Transfer.AioChunkSizes | fast_copy.c:168-171 | Every chunk copied holds between 1 and 65536 bytes |
| Transfer.AioRunChunks | fast_copy.c:168-177 | On success the destination is the chunks copied, concatenated in order |
| Transfer.ReadErrorCountsAsEnd | fast_copy.c:170 | A failed first read ends the loop with success and an empty destination |
| Transfer.AioEmptySource | fast_copy.c:170-182 | A zero-byte source gives an empty destination and a return of 1 |
| Workers.Worker | fast_copy.c:186-195 | thread_worker for the k-th task does three things. It runs copy_file under the k-th system-call results and lands its effect at the task's destination. It adds one to the counter exactly when the copy returned nonzero |
| Workers.FileSystem.constructor | fast_copy.c:244 | The destination starts with the given files and directories |
| Workers.FileSystem.Apply | fast_copy.c:101-102 | A finished copy changes only its own destination path: written bytes replace what was there, and an unopened destination keeps it |
| Workers.FileSystem.Mkdir | fast_copy.c:202 | The path passed to mkdir is recorded, and one recorded before stays; files are unchanged |
| Workers.Counter.constructor | fast_copy.c:29 | total_files_copied starts at 0 |
| Workers.Counter.Increment | fast_copy.c:189-191 | One increment under the mutex adds exactly one |
| Workers.JoinNext | fast_copy.c:223 | Joining the next worker adds its outcome to those recorded, its effect on top of the earlier ones, and its success to the count |
| Workers.RanAsSnoc | fast_copy.c:223 | The recorded outcomes stay those of copy_file when one more worker is joined |
| Workers.RanAsOutcomes | fast_copy.c:246 | Outcomes recorded as workers are joined are exactly copy_file's outcomes for the submitted tasks |
| Workers.ApplyEffectsSnoc | fast_copy.c:223 | Joining one more worker puts its effect on top of the earlier ones |
| Workers.CountSucceededSnoc | fast_copy.c:188-191 | One more joined worker adds one to the count exactly when its copy succeeded |
| Workers.CountSucceededIsCard | fast_copy.c:188-191 | The count of successes equals the size of the set of successful positions |
| Workers.CountSucceededBound | fast_copy.c:188-191 | The count never exceeds the number of outcomes |
| Workers.CountSucceededAll | fast_copy.c:188-191 | The count equals the number of outcomes if and only if all of them succeeded |
| Workers.CountOkIsSuccesses | fast_copy.c:248 | The final total_files_copied equals the number of tasks whose copy_file returned nonzero |
| Workers.CountOkBound | fast_copy.c:248 | The final total_files_copied is at most the number of tasks |
| Workers.CountOkAll | fast_copy.c:248 | The final total equals the number of tasks if and only if every copy succeeded |
| Workers.ApplyEffectsElsewhere | fast_copy.c:186-195 | A destination path no task writes keeps its contents and its presence |
| Workers.ApplyEffectsOwner | fast_copy.c:186-195 | A destination path written by exactly one task ends with that task's bytes |
| Workers.ApplyAllElsewhere | fast_copy.c:186-195 | Over every submitted task, a destination path no task writes keeps its contents |
| Workers.ApplyIsMerge | fast_copy.c:102 | Each copy opens its destination with O_TRUNC and writes it from the start (also fast_copy.c:131 and 162), so landing the copies on any destination is merging their writes over it |
| Workers.ApplyAllIdempotent | fast_copy.c:102 | Landing the same copies a second time, under the same system-call results, leaves the destination files unchanged from the first time |
| Workers.Store | fast_copy.c:186-195 | The destination files after one finished copy: written bytes replace that one path, and an untouched destination leaves them as they were (specification function; FileSystem.Apply is proved against it) |
| Workers.ApplyAll | fast_copy.c:186-195 | The destination files once every submitted task's copy has landed, in submission order (specification function; its properties are ApplyAllOwner, ApplyAllElsewhere, ApplyIsMerge and ApplyAllIdempotent) |
| Workers.CountOk | fast_copy.c:188-191 | The number of submitted tasks whose copy_file returned nonzero (specification function; its properties are CountOkIsSuccesses, CountOkBound and CountOkAll) |
| Workers.ApplyAllOwner | fast_copy.c:186-195 | Over every submitted task, a path one task alone writes holds what that task's copy left |
| Scheduler.Batch.constructor | fast_copy.c:240-241 | The batch starts empty (thread_count 0) over the given destination, counter and system-call results |
| Scheduler.Batch.JoinSlots | fast_copy.c:223 | Joining the slots in order brings every submitted task into the joined ones. Each outcome is copy_file's for its task, each effect has landed, and each success is counted; directories are unchanged |
| Scheduler.Batch.Join | fast_copy.c:222-224 | After the join nothing is in flight, every submitted task is joined, and the batch invariant holds again |
| Scheduler.Batch.Submit | fast_copy.c:217-225 | The task is appended to the submitted ones. thread_count grows by one and, on reaching MAX_THREADS, the batch is joined and the count returns to 0, so between submissions 0 <= thread_count < 8. Directories are unchanged |
| Traversal.Child | fast_copy.c:209-210 | The child path is the parent, one '/', then the name, and nothing else |
| Traversal.Skipped | fast_copy.c:206 | The names "." and ".." are skipped (a predicate with no contract of its own) |
| Traversal.Tasks | fast_copy.c:198-229 | The copy tasks of the walk in submission order (specification function; its properties are TasksMirror, TasksCount and TasksDistinct) |
| Traversal.Dirs | fast_copy.c:199-215 | The paths the walk passes to mkdir (specification function; its properties are DirsUnder and ListingNoDirs) |
| Traversal.TraverseAndCopy | fast_copy.c:198-229 | The walk submits exactly the task list of the tree and passes mkdir exactly its directory paths. An unopenable source submits nothing and calls no mkdir. The shared batch stays valid across the recursion, and *thread_count ends at its old value plus the number of tasks, modulo MAX_THREADS |
| Traversal.VisitListing | fast_copy.c:204-227 | The readdir loop submits the tasks of the entries in listing order and passes mkdir their directory paths; *thread_count advances by their number modulo MAX_THREADS |
| Traversal.VisitNext | fast_copy.c:205-226 | One pass of the readdir loop takes the submitted tasks, the mkdir paths and *thread_count from those of the first k entries to those of the first k + 1 |
| Traversal.VisitEntry | fast_copy.c:206-226 | One entry works as follows: "." and ".." do nothing, a directory is walked under source/name and destination/name, and anything else submits one task with that path pair. *thread_count advances by the entry's tasks modulo MAX_THREADS |
| Traversal.TasksMirror | fast_copy.c:208-219 | With `RelativePaths` giving one path per task, the i-th task reads source + r and writes destination + r for the same relative path r. That path starts with '/', so source and destination trees mirror each other |
| Traversal.TasksShift | fast_copy.c:208-219 | Changing the two roots shifts every task's source and destination by the same relative path |
| Traversal.ListingShift | fast_copy.c:204-219 | The same holds for the first k entries of a listing |
| Traversal.EntryShift | fast_copy.c:206-219 | The same holds for one entry: its path is parent + "/" + name |
| Traversal.TasksCount | fast_copy.c:205-220 | The walk emits exactly one task per non-directory entry below an openable directory |
| Traversal.ListingCount | fast_copy.c:205-220 | The same count for the first k entries of a listing |
| Traversal.EntryCount | fast_copy.c:206-220 | The same count for one entry |
| Traversal.DirsUnder | fast_copy.c:199-202 | mkdir is called on the destination root exactly when the source opens. Every path passed to mkdir is the destination root or lies inside it: the root, then '/', then more, so a sibling such as root + "x" is excluded |
| Traversal.ListingDirsUnder | fast_copy.c:209-215 | Every path passed to mkdir for a listing's entries is the destination root or lies inside it |
| Traversal.EntryDirsUnder | fast_copy.c:210-215 | Every path passed to mkdir for one entry is the destination root or lies inside it |
| Traversal.UnderChild | fast_copy.c:210 | A path inside destination + "/" + name lies inside the destination |
| Traversal.UnderChildComponent | fast_copy.c:210 | A path inside destination + "/" + name, with no '/' in name, has name as its first component below the destination |
| Traversal.FirstComponentOf | fast_copy.c:209-210 | A name without '/' followed by nothing or by '/' is the first component of the path, so parent + "/" + name + rest identifies the entry name |
| Traversal.TasksDistinct | fast_copy.c:205-220 | On a tree whose listings hold distinct non-empty names without '/', as readdir returns them, no two tasks of the walk share a destination path |
| Traversal.ListingDistinct | fast_copy.c:205-220 | The same for the first k entries of a listing; each of their destinations lies below destination + "/" in one of those entries' names |
| Traversal.EntryDistinct | fast_copy.c:206-220 | The same for one entry; each of its destinations lies below destination + "/" + name |
| Traversal.ListingNoTasks | fast_copy.c:199-220 | In an open directory as readdir returns it, if entry k is a subdirectory opendir cannot open, no task of the listing writes below destination + "/" + that name: the recursive call returns at once and submits nothing |
| Traversal.ListingNoDirs | fast_copy.c:199-215 | Under the same conditions, no path the listing passes to mkdir lies below destination + "/" + that name: mkdir comes only after a successful opendir |
| FastCopy.Run | fast_copy.c:240-248 | main walks with an empty batch, joins the remainder and reports a total. The total is the number of successful copies among the walk's tasks and at most the number of files. The destination holds every copy's effect in submission order, and the recorded directories are the paths the walk passed to mkdir |
| FastCopy.CopyTwiceSame | fast_copy.c:240-248 | Running the program a second time on what the first run left, under the same system-call results, gives the same destination files and the same recorded directories |
| FastCopy.UnreadableSubtreeUntouched | fast_copy.c:199-220 | A subdirectory of the source root that cannot be opened leaves no trace in the destination. Whatever the system-call results, a path below destination + "/" + its name is present after the run exactly when it was before, with the same bytes. It is among the recorded directories only if it already was |
| FastCopy.CopyTreeComplete | fast_copy.c:240-248 | When every system call succeeds and every file can be stat'ed, the reported total is the number of files. Every destination path written by one task alone holds its source file's bytes |
| FastCopy.CopyTreeMirrors | fast_copy.c:240-248 | On a tree readdir can return, with every system call succeeding and every file stat'able, the destination mirrors the source: for each file at relative path r, destination + r holds the bytes of source + r |

## Left out

- Logging (`setup_logging`, `log_message`, fast_copy.c:43-80) is not modelled: it is console and file output only.
- Real threads and the mutex are not modelled. Workers of one batch run concurrently in the source and are all joined before their slots are reused. The model therefore applies their effects in slot order at the join. Two tasks of one batch with the same destination path would race in the source, and the model picks slot order for them.
- System calls are inputs, not modelled. `open`, `sendfile`, `mmap`, `read`, `write`, `opendir`, `readdir` and `stat` are replaced by two things:
  - the source tree `Node` and the source files by path `Env.srcFs`, which do not change during the copy;
  - the per-copy results `Io`.
- Workers.FileSystem.Mkdir: the result of mkdir at fast_copy.c:202 is ignored, and the model records every path passed to it. A call that fails (a missing parent, a file already at the path, no permission) creates nothing in reality, so the `dirs` of `FastCopy.Run` are the attempted directories, not necessarily existing ones.
- Overlapping source and destination trees are not modelled: the source files `Env.srcFs` and the tree `Node` are fixed for the whole copy and separate from the destination. In reality `fast_copy d d` opens each file with O_TRUNC before reading it, so it empties the file it is copying, and a destination inside the source adds entries to the tree while it is being walked.
- `int total_files_copied` (fast_copy.c:29) and `int thread_count` (fast_copy.c:241) are unbounded `nat`s in the model. `thread_count` stays below MAX_THREADS, so only the total could overflow, on more than 2147483647 successful copies.
- Whether a destination open succeeds is an independent input. It does not depend on the destination directory having been made.
- Descriptor and mapping cleanup is not modelled. The source leaks a descriptor when only one open succeeds, and leaks everything on a failed mapping.
- Transfer.CopyFileSendfile: a sendfile result of 0 before the end would loop forever in the source. The model assumes no such result (`Io.Valid`) and caps each result at the bytes still to send.
- Transfer.CopyFileMmap: a zero-length mapping is taken to fail, as it does on Linux. Sizes that reach this strategy are all above 64 KiB.
- Transfer.CopyFileMmap: the unchecked `ftruncate` at fast_copy.c:139 is assumed to succeed. If it failed and both mappings still succeeded, the `memcpy` at fast_copy.c:149 would write past the end of the empty destination file and SIGBUS would end the whole program, which the model does not represent.
- Transfer.CopyFileSendfile and Transfer.CopyFileMmap: the unchecked `fstat` calls at fast_copy.c:109 and fast_copy.c:138 are assumed to succeed and to report the size the earlier `stat` saw.
- Transfer.CopyFileAio: a read error ends the loop exactly like end of file, with a return of 1, because the test at fast_copy.c:170 stops on any result of zero or less.
- The unchecked `stat` at fast_copy.c:212-213 is not modelled: an entry's type comes from the tree.
- `PATH_MAX` truncation by `snprintf`/`strncpy` is not modelled; paths are unbounded strings.
- The `argc` check and the exit status of `main`, fast_copy.c:233-236, are not modelled.
- Scheduler.Batch.Join: it also resets the count to 0, as the in-walk join at fast_copy.c:224 does. The final join at fast_copy.c:246 leaves `thread_count` unchanged, but the program exits right after.
- Traversal.TraverseAndCopy: mkdir is called only after opendir succeeds (fast_copy.c:199-202), so an unopenable directory gets none.
- Selector.CopyFile returns the outcome and its effect on the destination path; `Workers.Worker` applies that effect to the destination file system.
