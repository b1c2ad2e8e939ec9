# Jensame duplicate finder — a verified model

Jensame finds files with identical content under one or more directory trees
and writes them to an fdupes-style report. The report has one path per line,
and a blank line closes each group of duplicates. This project models the core
of `src/Main.java` in Dafny and proves what that code does.

The model has five modules:

- `FileWalk` (`walk.dfy`) models the walk of `hashFilesRecursive`.
  - The filesystem is a tree of `Entry` values. Each entry carries the answers
    to the questions the code asks: is it a symbolic link, a directory, a
    regular file, is it readable, how long is it, and what does
    `listFiles()` return.
  - The walk returns the files it submits for hashing, in depth-first
    listing order.
  - `ScanRoots` is the loop of `main` over its root arguments.
- `Fingerprint` (`fingerprint.dfy`) models the streaming hash of
  `getFileHash`.
  - A file is a `Stream` value: the chunks that successive reads return,
    then whether the stream ends or a read throws, and whether `close`
    throws.
  - `xx3` is the function parameter `mix`.
  - The buffer is a real `array` that is reused across reads. The whole
    buffer is mixed in on every read that returns a byte, so bytes left
    over from the previous chunk take part in the hash when the last read
    is short.
- `Report` (`report.dfy`) covers the rest of `main` at lines 88–114:
  - it inverts `fileHashes` into lists of files per hash;
  - it emits every list with more than one member into `fdupesContents`;
  - it counts those members in `duplicateFiles`.

  Java's `HashMap` iteration order is unspecified. Each loop therefore
  takes the order it visits keys in as a parameter, and every property is
  proved for all orders.
- `Helpers` (`helpers.dfy`) holds the small computations:
  - normalising the output path;
  - `getMaxThreads`;
  - the megabyte and megabyte-per-second figures, using Java's truncating
    `long` division.
- `Jensame` (`scanner.dfy`) holds the static fields of `Main` as the class
  `Scanner`.
  - Its methods update those fields in place.
  - `Run` is `main` after argument checking, with the thread pool made
    sequential. The walk queues tasks, the tasks then run one after another
    in submission order, and the report is built after that.

This version of the code has no size buckets that are promoted to hashing, no
quiescence barrier, no sorting of groups, no maximum file size, no
mount-boundary check and no 32 KiB minimum size. The model therefore has:

- no upper size bound;
- a minimum size of 131072 bytes;
- recursion into every directory that is not a symbolic link;
- groups in the order of map iteration;
- completion as a sequential run of all queued tasks.

## Model

| member | source | states |
|---|---|---|
| FileWalk.WalkFrom | src/Main.java:148-164 | every file submitted while visiting a listing from a given index is eligible: not a link, not a directory, regular, readable and at least 131072 bytes |
| FileWalk.Walk | src/Main.java:145-169 | every file `hashFilesRecursive(root)` submits is eligible |
| FileWalk.ScanRoots | src/Main.java:65-75 | every file queued for the root arguments is eligible |
| FileWalk.EmptyListingSubmitsNothing | src/Main.java:146-147 | a `null` or empty listing submits nothing |
| FileWalk.WalkIsFilteredTraversal | src/Main.java:148-164 | the walk submits exactly the eligible entries of the depth-first traversal that descends into every non-symlink directory, in the same order |
| FileWalk.WalkSelectsExactly | src/Main.java:149-157 | a file is submitted if and only if the traversal reaches it and it is eligible; there is no upper size bound |
| FileWalk.SymlinkNotFollowed | src/Main.java:149 | replacing what a symbolic link's listing holds never changes the files submitted for its parent: links are never followed |
| FileWalk.ScanRootsSelects | src/Main.java:65-75 | a file is queued if and only if the walk of some root argument that exists submits it; missing roots are skipped |
| FileWalk.ScanRootsAppend | src/Main.java:65-75 | walking one more root appends its files after those of the earlier roots |
| Fingerprint.Fold | src/Main.java:174-182 | the state after a sequence of reads always holds a 4096-byte buffer |
| Fingerprint.FoldBuffer | src/Main.java:174-180 | after the reads, byte `j` of the buffer is byte `j` of the last chunk that reached position `j`, or 0 when none did |
| Fingerprint.Overwrite | src/Main.java:178 | a read stores the chunk at the front of the buffer and keeps the buffer's old bytes after it |
| Fingerprint.FileHash | src/Main.java:171-191 | a hash is produced if and only if the file opens, the reads reach end of stream and `close` succeeds |
| Fingerprint.FoldMixesFullBuffers | src/Main.java:176-182 | the fingerprint is `mix` folded from seed 0 over one block per positive read; each block is the whole 4096-byte buffer as it stands after that read, stale bytes included |
| Fingerprint.EmptyFileHashesToZero | src/Main.java:176-182 | reads that return no bytes leave the buffer zero-filled and the hash at 0, so an empty file hashes to 0 |
| Fingerprint.StaleBytesCollide | src/Main.java:178-180 | when the last read is short, the fingerprint equals that of a longer stream whose last chunk is the whole buffer, for every `mix` |
| Fingerprint.ReadInto | src/Main.java:178 | `read` overwrites the front of the array with the chunk, leaves the rest unchanged and returns the chunk's length |
| Fingerprint.HashStream | src/Main.java:172-183 | the loop over a reused array computes exactly `FileHash`, and gives no hash when opening, a read or `close` throws |
| Report.GroupByHash | src/Main.java:89-97 | the inversion loop after a prefix of the iteration order; its properties are the lemmas below |
| Report.GroupsMembers | src/Main.java:89-97 | every visited file's hash has a list, and the list of a hash holds exactly the visited files with that hash |
| Report.GroupsDistinct | src/Main.java:89-97 | when each file is visited once, every list is non-empty and has no repeats |
| Report.GroupsPartition | src/Main.java:89-97 | the lists partition the visited files by hash: each file sits in the list of its own hash and in no other, and no list is empty or holds a file twice |
| Report.GroupsOfMap | src/Main.java:89-97 | after visiting every file of the map, the hashes with a list are exactly the map's hash values, and a list holds exactly the files the map gives that hash |
| Report.MembersLength | src/Main.java:100-102 | the concatenated lists of at least a given size are as long as the sum of their sizes |
| Report.MembersMultiplicity | src/Main.java:100-106 | with repeat-free lists and each path in at most one list, a path occurs once among the kept lists if one holds it, otherwise never |
| Report.EmitLines | src/Main.java:100-109 | the lines the emit loop appends; a non-empty result ends with `""` |
| Report.EmitNonBlank | src/Main.java:100-109 | the non-blank report lines are exactly the members of the lists with more than one member, in emit order |
| Report.EmitEnds | src/Main.java:100-109 | a non-empty report ends with `""`, and the report is empty exactly when no list has more than one member |
| Report.EmitShape | src/Main.java:100-109 | the non-blank lines are the members of the lists with more than one member; a non-empty report ends with `""`; the report is empty exactly when no such list exists |
| Report.SplitEmit | src/Main.java:100-109 | cutting the report at its blank lines gives exactly the lists with more than one member, whole and in emit order |
| Report.EmitDuplicates | src/Main.java:100-109 | the emit loop produces `EmitLines`, and its duplicate count is the sum of the emitted list sizes, which is the number of non-blank lines |
| Report.InvertHashes | src/Main.java:89-97 | the inversion loop produces `GroupByHash`; its keys are the hash values of `fileHashes`, and a list holds exactly the files with that hash |
| Report.EntriesPartitioned | src/Main.java:89-97 | in any iteration order, the lists together hold each hashed file exactly once, and their sizes sum to the number of entries |
| Report.DuplicatedIffInLargeGroup | src/Main.java:89-101 | a hashed file shares its hash with another file exactly when its list has more than one member |
| Report.ReportsExactlyDuplicates | src/Main.java:89-109 | a path is on exactly one report line when another hashed file shares its hash, and on none otherwise |
| Report.ReportSummary | src/Main.java:89-114 | for any iteration order: duplicated files appear once each and nothing else appears; the count equals the number of non-blank lines; the report is non-empty exactly when a duplicate exists, exactly when the count is positive; a non-empty report ends with `""` |
| Report.Enumerate | src/Main.java:90 | an iteration order of a map's keys lists each key exactly once |
| Helpers.NormalizeOutputPath | src/Main.java:50-52 | the result starts with `/` or `.`; an argument that already does is unchanged; any other gets `./` in front |
| Helpers.NormalizeIdempotent | src/Main.java:50-52 | normalising twice is the same as normalising once |
| Helpers.MaxThreads | src/Main.java:193-199 | the result is the smaller of the processor count and 8 |
| Helpers.JavaDiv | src/Main.java:117-121 | Java's `/` truncates toward zero: the quotient's magnitude is the magnitude of the dividend divided by that of the divisor, its sign is non-negative when the signs agree and non-positive when they differ, and on non-negative operands it is the floor quotient |
| Helpers.MbRead | src/Main.java:117 | dividing by 1000 twice gives `dataRead / 1000000`, the number of whole millions of bytes in `dataRead` |
| Helpers.MbPerSecond | src/Main.java:119-122 | the figure is `mbRead` when at most 1000 ms passed; otherwise it is the quotient of `mbRead` by a divisor of at least 1; it never exceeds `mbRead` |
| Helpers.QuotientAtMost | src/Main.java:121 | dividing a non-negative number by at least 1 gives a value between 0 and the number |
| Jensame.Record | src/Main.java:171-191 | one task adds its path to the hashed paths exactly when the file hashes, adds at most 1 to `filesRead` and never lowers `dataRead` |
| Jensame.RunTasks | src/Main.java:158-163 | running tasks in order never removes a hashed path, adds at most one to `filesRead` per task and never lowers `dataRead` |
| Jensame.RecordedPaths | src/Main.java:172-187 | after the tasks run, a path has a hash exactly when some task for that path finished without an exception |
| Jensame.RecordedHashes | src/Main.java:176-187 | every recorded hash is the fingerprint that some task for that path computed |
| Jensame.CountedFiles | src/Main.java:184-187 | `filesRead` is the number of tasks that finished without an exception and `dataRead` the sum of those files' lengths; `filesRead` lies between the number of recorded paths and the number of tasks |
| Jensame.Scanner.constructor | src/Main.java:36-42 | the static state starts with no tasks, no hashes, zero counters and an empty report |
| Jensame.Scanner.HashFilesRecursive | src/Main.java:145-169 | the method appends exactly `Walk(root)` to the queued tasks and changes nothing else |
| Jensame.Scanner.GetFileHash | src/Main.java:171-191 | on success it records one `path -> hash` entry, adds 1 to `filesRead` and the file's length to `dataRead`; on an exception it changes nothing |
| Jensame.Scanner.RunSubmitted | src/Main.java:158-163 | running every queued task in order leaves the results `RunTasks` describes |
| Jensame.Scanner.ReportDuplicates | src/Main.java:88-109 | it appends `EmitLines` of the inverted map to the report and adds the emitted list sizes to `duplicateFiles`, for the iteration orders it returns |
| Jensame.Scanner.ScanAll | src/Main.java:65-75 | the queued tasks become `ScanRoots(roots)` |
| Jensame.Scanner.Scan | src/Main.java:65-79 | after the walk of every existing root and the run of every queued task, the queue is `ScanRoots(roots)` and the hash results are those of its tasks |
| Jensame.Scanner.FinishReport | src/Main.java:88-114 | `fdupesContents` is the report of `fileHashes` for the iteration orders it returns, and cut at its blank lines it gives the lists with more than one member; the report is handed to the writer exactly when `duplicateFiles > 0`, exactly when two hashed files share a hash; each duplicated file is on one line and no other file is on any; the report ends with `""`; `duplicateFiles` is the number of non-blank lines |
| Jensame.Scanner.Run | src/Main.java:49-122 | `main` on a fresh state: the output path is the normalised argument and is anchored; the queue is `ScanRoots(roots)`; the hash results are those of its tasks; `fdupesContents` is the report of them; it is written exactly when `duplicateFiles > 0`, exactly when a duplicate exists, lists each duplicate once and ends with `""`; the figures are `MbRead` and `MbPerSecond` of the counters, with `0 <= mbPerSecond <= mbRead` |

## Left out

- The thread pool is not modelled (`Executors.newScheduledThreadPool`, `submit`, lines 64 and 158–163). Neither are the busy-wait on `getActiveCount` (78–79) and the two-second sleep (80–86). The tasks run one after another in submission order, after the walk. Interleavings of concurrent tasks, and the race in the busy-wait, are not captured.
- `writeArrayToFile` (128–143) is file I/O: the `.bak` rename and the `PrintWriter` output. The model stops at the line sequence handed to it, which is `FinishReport`'s `report`.
- The code asks the filesystem `exists`, `listFiles`, `isSymbolicLink`, `isDirectory`, `isRegularFile`, `canRead` and `length`. These answers are fields of `Entry`, fixed for the whole run. The parent-directory check at line 54 is not modelled.
- `LongHashFunction.xx3` is a foreign library. It is the function parameter `mix`, and nothing is assumed about it.
- `mountOf` (202–211) is not part of this model. It is never called, and it only queries `FileStore`.
- `System.currentTimeMillis` becomes the parameter `msSpent`. `System.out`, `printStackTrace` and `System.exit` are left out, and so are the argument-count exit at line 45 and the `null` checks on arguments at lines 49 and 67.
- `File.toString()` is the `Path` string of an entry. `File` keys of `fileHashes` compare as their paths.
- `HashMap` iteration order is left open. `Enumerate` chooses some order, and every property holds for any order. Neither the group order nor the member order is claimed to be sorted.
- Jensame.Scanner.GetFileHash: `dataRead` is an unbounded `nat`, so the wrap-around of Java's `AtomicLong` is not modelled. `filesRead` is modelled the same way, without the 32-bit wrap of `AtomicInteger`.
- Jensame.Scanner.Run: it returns the figures of the summary line rather than printing it. It requires the fresh static state that a new JVM gives.
- An `Entry` is a finite value, so every walk ends. A mount loop that makes the Java recursion run until `StackOverflowError` is not modelled.
- Jensame.Scanner.ReportDuplicates: `duplicateFiles` is an unbounded `int`, so the wrap-around of Java's 32-bit `int` is not modelled.
- Helpers.MaxThreads: the processor count is a parameter, not `Runtime.availableProcessors()`.
