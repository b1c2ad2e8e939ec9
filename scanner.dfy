/**
 The state `Main` keeps in static fields, and the run of `main` over it, with
 the thread pool made sequential: the walk queues hashing tasks in the order
 it submits them, the tasks then run one after another, and the report is
 built once they are all done.
 */
module Jensame {
  import opened Wrappers
  import opened FileWalk
  import opened Fingerprint
  import opened Report
  import opened Helpers

  /** What the hashing tasks have recorded: `fileHashes`, `filesRead` and `dataRead`. */
  datatype HashResults = HashResults(fileHashes: map<Path, Long>, filesRead: nat, dataRead: nat)

  /**
   One run of `getFileHash`: on success the file's hash is put under its
   path, one more file is counted and its length added to the bytes read;
   when an exception abandons the task nothing changes.
   */
  function Record(r: HashResults, file: Entry, s: Stream, mix: Mix): (r': HashResults)
    ensures r'.fileHashes.Keys == r.fileHashes.Keys + (if FileHash(mix, s).Some? then {file.path} else {})
    ensures r.filesRead <= r'.filesRead <= r.filesRead + 1
    ensures r.dataRead <= r'.dataRead
  {
    match FileHash(mix, s)
    case None => r
    case Some(h) => HashResults(r.fileHashes[file.path := h], r.filesRead + 1, r.dataRead + file.length)
  }

  /** The results after the tasks for `tasks` have run in order, each reading the stream `open` gives. */
  function RunTasks(r: HashResults, tasks: seq<Entry>, open: Entry -> Stream, mix: Mix): (r': HashResults)
    ensures r.fileHashes.Keys <= r'.fileHashes.Keys
    ensures r.filesRead <= r'.filesRead <= r.filesRead + |tasks|
    ensures r.dataRead <= r'.dataRead
  {
    if tasks == [] then r
    else
      var last := tasks[|tasks| - 1];
      Record(RunTasks(r, tasks[..|tasks| - 1], open, mix), last, open(last), mix)
  }

  /** Task `k` of `tasks` finishes without an exception. */
  predicate Succeeds(tasks: seq<Entry>, k: int, open: Entry -> Stream, mix: Mix)
    requires 0 <= k < |tasks|
  {
    FileHash(mix, open(tasks[k])).Some?
  }

  /** The results of the tasks run from a fresh state. */
  function RunFromFresh(tasks: seq<Entry>, open: Entry -> Stream, mix: Mix): HashResults
  {
    RunTasks(HashResults(map[], 0, 0), tasks, open, mix)
  }

  /** Starting from nothing, a path is recorded exactly when some task for it succeeds. */
  lemma {:induction false} RecordedPaths(tasks: seq<Entry>, open: Entry -> Stream, mix: Mix)
    ensures forall p: Path :: p in RunFromFresh(tasks, open, mix).fileHashes <==>
              exists k :: 0 <= k < |tasks| && tasks[k].path == p && Succeeds(tasks, k, open, mix)
  {
    if tasks != [] {
      var prefix := tasks[..|tasks| - 1];
      var last := tasks[|tasks| - 1];
      RecordedPaths(prefix, open, mix);
      forall p: Path ensures p in RunFromFresh(tasks, open, mix).fileHashes <==>
        exists k :: 0 <= k < |tasks| && tasks[k].path == p && Succeeds(tasks, k, open, mix)
      {
        if p in RunFromFresh(prefix, open, mix).fileHashes {
          var k :| 0 <= k < |prefix| && prefix[k].path == p && Succeeds(prefix, k, open, mix);
          assert tasks[k] == prefix[k];
        }
        if exists k :: 0 <= k < |tasks| && tasks[k].path == p && Succeeds(tasks, k, open, mix) {
          var k :| 0 <= k < |tasks| && tasks[k].path == p && Succeeds(tasks, k, open, mix);
          if k < |prefix| {
            assert prefix[k] == tasks[k];
            assert Succeeds(prefix, k, open, mix);
          }
        }
      }
    }
  }

  /** Starting from nothing, every recorded hash is the fingerprint some task for that path computed. */
  lemma {:induction false} RecordedHashes(tasks: seq<Entry>, open: Entry -> Stream, mix: Mix)
    ensures forall p: Path :: p in RunFromFresh(tasks, open, mix).fileHashes ==>
              exists k :: 0 <= k < |tasks| && tasks[k].path == p &&
                FileHash(mix, open(tasks[k])) == Some(RunFromFresh(tasks, open, mix).fileHashes[p])
  {
    if tasks != [] {
      var prefix := tasks[..|tasks| - 1];
      var last := tasks[|tasks| - 1];
      RecordedHashes(prefix, open, mix);
      var before := RunFromFresh(prefix, open, mix).fileHashes;
      var after := RunFromFresh(tasks, open, mix).fileHashes;
      forall p: Path | p in after
        ensures exists k :: 0 <= k < |tasks| && tasks[k].path == p && FileHash(mix, open(tasks[k])) == Some(after[p])
      {
        if FileHash(mix, open(last)).Some? && p == last.path {
          assert tasks[|tasks| - 1].path == p;
        } else {
          var k :| 0 <= k < |prefix| && prefix[k].path == p && FileHash(mix, open(prefix[k])) == Some(before[p]);
          assert tasks[k] == prefix[k];
        }
      }
    }
  }

  /** The tasks that finish without an exception, in order. */
  function Successful(tasks: seq<Entry>, open: Entry -> Stream, mix: Mix): seq<Entry>
  {
    if tasks == [] then []
    else
      var last := tasks[|tasks| - 1];
      Successful(tasks[..|tasks| - 1], open, mix) + if FileHash(mix, open(last)).Some? then [last] else []
  }

  /** The sum of the lengths of `files`. */
  function TotalLength(files: seq<Entry>): nat
  {
    if files == [] then 0 else TotalLength(files[..|files| - 1]) + files[|files| - 1].length
  }

  /** `files + [f]` is as long in total as `files` plus `f`. */
  lemma TotalLengthAppend(files: seq<Entry>, f: Entry)
    ensures TotalLength(files + [f]) == TotalLength(files) + f.length
  {
    assert (files + [f])[..|files|] == files;
  }

  /**
   Starting from nothing, `filesRead` is the number of tasks that finish
   without an exception and `dataRead` the sum of their lengths; `filesRead`
   is never less than the number of recorded paths (more when a file was
   submitted twice) and never more than the number of tasks.
   */
  lemma {:induction false} CountedFiles(tasks: seq<Entry>, open: Entry -> Stream, mix: Mix)
    ensures RunFromFresh(tasks, open, mix).filesRead == |Successful(tasks, open, mix)|
    ensures RunFromFresh(tasks, open, mix).dataRead == TotalLength(Successful(tasks, open, mix))
    ensures |RunFromFresh(tasks, open, mix).fileHashes| <= RunFromFresh(tasks, open, mix).filesRead <= |tasks|
  {
    if tasks != [] {
      var prefix := tasks[..|tasks| - 1];
      var last := tasks[|tasks| - 1];
      CountedFiles(prefix, open, mix);
      var m := RunFromFresh(prefix, open, mix).fileHashes;
      var before := RunFromFresh(prefix, open, mix);
      assert RunFromFresh(tasks, open, mix) == Record(before, last, open(last), mix);
      if FileHash(mix, open(last)).Some? {
        assert Successful(tasks, open, mix) == Successful(prefix, open, mix) + [last];
        TotalLengthAppend(Successful(prefix, open, mix), last);
        var m' := m[last.path := FileHash(mix, open(last)).value];
        assert m'.Keys == m.Keys + {last.path};
        assert |m'.Keys| <= |m.Keys| + |{last.path}|;
      } else {
        assert Successful(tasks, open, mix) == Successful(prefix, open, mix);
      }
    }
  }

  lemma AppendAssoc<T>(a: seq<T>, b: seq<T>, c: seq<T>)
    ensures (a + b) + c == a + (b + c)
  {
  }

  /** `Main`'s static state. */
  class Scanner {
    /** The hashing tasks handed to the thread pool, in submission order. */
    var submitted: seq<Entry>
    var fileHashes: map<Path, Long>
    var filesRead: nat
    var dataRead: nat
    var duplicateFiles: int
    var fdupesContents: seq<string>

    function Results(): HashResults
      reads this
    {
      HashResults(fileHashes, filesRead, dataRead)
    }

    /** The static initialisers: no task, no hash, zero counters, an empty report. */
    constructor ()
      ensures submitted == [] && Results() == HashResults(map[], 0, 0)
      ensures duplicateFiles == 0 && fdupesContents == []
    {
      submitted, fileHashes, filesRead, dataRead := [], map[], 0, 0;
      duplicateFiles, fdupesContents := 0, [];
    }

    /**
     `hashFilesRecursive`: queues a hashing task for every file the walk
     selects under `root`, in the order it meets them.
     */
    method HashFilesRecursive(root: Entry)
      modifies this`submitted
      ensures submitted == old(submitted) + Walk(root)
      decreases root
    {
      var files := Children(root);
      ghost var start := submitted;
      if |files| > 0 {
        for i := 0 to |files|
          invariant start + Walk(root) == submitted + WalkFrom(root, i)
        {
          var f := files[i];
          ghost var before := submitted;
          ghost var part := if f.isSymlink then [] else if f.isDirectory then Walk(f) else if Hashable(f) then [f] else [];
          if !f.isSymlink {
            if f.isDirectory {
              assert f in files;
              HashFilesRecursive(f);
            } else if f.isRegular && f.canRead && f.length >= MinHashSize {
              submitted := submitted + [f];
            }
          }
          assert submitted == before + part;
          WalkStep(root, i);
          AppendAssoc(before, part, WalkFrom(root, i + 1));
        }
      }
    }

    /**
     `getFileHash`: hashes the stream of `file`; only when no exception
     occurs is the hash recorded and are the two counters bumped.
     */
    method GetFileHash(file: Entry, s: Stream, mix: Mix)
      modifies this`fileHashes, this`filesRead, this`dataRead
      ensures Results() == Record(old(Results()), file, s, mix)
    {
      var hash := HashStream(mix, s);
      if hash.Some? {
        filesRead := filesRead + 1;
        dataRead := dataRead + file.length;
        fileHashes := fileHashes[file.path := hash.value];
      }
    }

    /** The thread pool, run to completion: every queued task, in submission order. */
    method RunSubmitted(open: Entry -> Stream, mix: Mix)
      modifies this`fileHashes, this`filesRead, this`dataRead
      ensures Results() == RunTasks(old(Results()), submitted, open, mix)
    {
      for i := 0 to |submitted|
        invariant Results() == RunTasks(old(Results()), submitted[..i], open, mix)
      {
        assert submitted[..i + 1][..i] == submitted[..i];
        GetFileHash(submitted[i], open(submitted[i]), mix);
      }
      assert submitted[..|submitted|] == submitted;
    }

    /**
     Lines 88-109 of `main`: inverts `fileHashes` and emits every list with
     more than one member. `fileOrder` and `hashOrder` are the orders the two
     hash maps happened to be iterated in.
     */
    method ReportDuplicates() returns (ghost fileOrder: seq<Path>, ghost hashOrder: seq<Long>)
      modifies this`duplicateFiles, this`fdupesContents
      ensures Enumerates(fileOrder, fileHashes.Keys)
      ensures Enumerates(hashOrder, GroupByHash(fileHashes, fileOrder).Keys)
      ensures fdupesContents == old(fdupesContents) + EmitLines(GroupByHash(fileHashes, fileOrder), hashOrder)
      ensures duplicateFiles == old(duplicateFiles) + SumSizes(GroupByHash(fileHashes, fileOrder), hashOrder, 2)
    {
      var files := Enumerate(fileHashes.Keys);
      var hashedFiles := InvertHashes(fileHashes, files);
      var hashes := Enumerate(hashedFiles.Keys);
      var lines, count := EmitDuplicates(hashedFiles, hashes);
      fdupesContents := fdupesContents + lines;
      duplicateFiles := duplicateFiles + count;
      fileOrder, hashOrder := files, hashes;
    }

    /** The loop of `main` over the scan roots: walks every root that exists, in argument order. */
    method ScanAll(roots: seq<Option<Entry>>)
      modifies this`submitted
      ensures submitted == old(submitted) + ScanRoots(roots)
    {
      ghost var start := submitted;
      for c := 0 to |roots|
        invariant submitted == start + ScanRoots(roots[..c])
      {
        assert roots[..c + 1] == roots[..c] + [roots[c]];
        ScanRootsAppend(roots[..c], roots[c]);
        if roots[c].Some? {
          HashFilesRecursive(roots[c].value);
          AppendAssoc(start, ScanRoots(roots[..c]), Walk(roots[c].value));
        }
      }
      assert roots[..|roots|] == roots;
    }

    /**
     Lines 88-114 of `main` on an empty report: builds the report and hands
     it to `writeArrayToFile` (`report` is `Some`) only when at least one
     duplicate was found. Each duplicated file is on exactly one line, no
     other file is on any, a non-empty report ends with a blank line, and
     the duplicate count is the number of non-blank lines.
     */
    method FinishReport() returns (report: Option<seq<string>>, ghost fileOrder: seq<Path>, ghost hashOrder: seq<Long>)
      requires duplicateFiles == 0 && fdupesContents == []
      modifies this`duplicateFiles, this`fdupesContents
      ensures Enumerates(fileOrder, fileHashes.Keys)
      ensures Enumerates(hashOrder, GroupByHash(fileHashes, fileOrder).Keys)
      ensures fdupesContents == ReportLines(fileHashes, fileOrder, hashOrder)
      ensures Split(fdupesContents, []) == Blocks(GroupByHash(fileHashes, fileOrder), hashOrder)
      ensures report.Some? <==> duplicateFiles > 0
      ensures report.Some? <==> exists p: Path :: Duplicated(fileHashes, p)
      ensures report.Some? ==> report.value == fdupesContents != [] && fdupesContents[|fdupesContents| - 1] == ""
      ensures forall p: Path :: multiset(NonBlank(fdupesContents))[p] == if Duplicated(fileHashes, p) then 1 else 0
      ensures duplicateFiles == |NonBlank(fdupesContents)|
    {
      fileOrder, hashOrder := ReportDuplicates();
      ReportSummary(fileHashes, fileOrder, hashOrder);
      SplitEmit(GroupByHash(fileHashes, fileOrder), hashOrder);
      assert fdupesContents == ReportLines(fileHashes, fileOrder, hashOrder);
      if duplicateFiles > 0 {
        report := Some(fdupesContents);
      } else {
        report := None;
      }
    }

    /**
     The hashing phase of `main` on a fresh state: walks every existing root,
     then runs every queued hashing task.
     */
    method Scan(roots: seq<Option<Entry>>, open: Entry -> Stream, mix: Mix)
      requires submitted == [] && Results() == HashResults(map[], 0, 0)
      modifies this`submitted, this`fileHashes, this`filesRead, this`dataRead
      ensures submitted == ScanRoots(roots)
      ensures Results() == RunFromFresh(submitted, open, mix)
    {
      ScanAll(roots);
      RunSubmitted(open, mix);
    }

    /**
     `main` after argument checking, on a fresh state: normalises the output
     path, walks every existing root, runs the hashing tasks, builds the
     report, and returns the figures of the summary line.
     */
    method Run(outArg: string, roots: seq<Option<Entry>>, open: Entry -> Stream, mix: Mix, msSpent: int)
      returns (outPath: string, report: Option<seq<string>>, mbRead: int, mbPerSecond: int,
               ghost fileOrder: seq<Path>, ghost hashOrder: seq<Long>)
      requires submitted == [] && Results() == HashResults(map[], 0, 0)
      requires duplicateFiles == 0 && fdupesContents == []
      modifies this
      ensures outPath == NormalizeOutputPath(outArg) && Anchored(outPath)
      ensures submitted == ScanRoots(roots)
      ensures Results() == RunFromFresh(submitted, open, mix)
      ensures Enumerates(fileOrder, fileHashes.Keys)
      ensures Enumerates(hashOrder, GroupByHash(fileHashes, fileOrder).Keys)
      ensures fdupesContents == ReportLines(fileHashes, fileOrder, hashOrder)
      ensures report.Some? <==> duplicateFiles > 0
      ensures report.Some? <==> exists p: Path :: Duplicated(fileHashes, p)
      ensures report.Some? ==> report.value == fdupesContents != [] && fdupesContents[|fdupesContents| - 1] == ""
      ensures forall p: Path :: multiset(NonBlank(fdupesContents))[p] == if Duplicated(fileHashes, p) then 1 else 0
      ensures duplicateFiles == |NonBlank(fdupesContents)|
      ensures mbRead == MbRead(dataRead) && mbPerSecond == MbPerSecond(mbRead, msSpent)
      ensures 0 <= mbPerSecond <= mbRead
    {
      outPath := NormalizeOutputPath(outArg);
      Scan(roots, open, mix);
      report, fileOrder, hashOrder := FinishReport();
      mbRead := MbRead(dataRead);
      mbPerSecond := MbPerSecond(mbRead, msSpent);
    }
  }
}
