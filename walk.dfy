/**
 The file-selection walk of `hashFilesRecursive`: a depth-first pass over a
 directory tree that submits every large, readable regular file for hashing.

 The filesystem is given as a value: each `Entry` carries the answers the
 source asks the filesystem for (`isSymbolicLink`, `isDirectory`,
 `isRegularFile`, `canRead`, `length`) and the result of `listFiles()`,
 where `None` stands for the `null` that Java returns for a non-directory or
 an unreadable directory.
 */
module FileWalk {
  import opened Wrappers

  /** A path as `File.toString()` prints it; never empty for a listed entry. */
  type Path = s: string | |s| > 0 witness "."

  datatype Entry = Entry(
    path: Path,
    isSymlink: bool,
    isDirectory: bool,
    isRegular: bool,
    canRead: bool,
    length: nat,
    listing: Listing)

  /** The result of `File.listFiles()`: `Unlisted` is Java's `null`. */
  datatype Listing = Unlisted | Listed(files: seq<Entry>)

  /** duperemove's default minimum block size, 128 KiB: smaller files are skipped. */
  const MinHashSize: int := 131072

  /** The test a non-symlink, non-directory entry must pass to be hashed. */
  predicate Hashable(f: Entry)
  {
    f.isRegular && f.canRead && f.length >= MinHashSize
  }

  /** An entry the walk submits when it meets it: neither a link nor a directory, and hashable. */
  predicate Eligible(f: Entry)
  {
    !f.isSymlink && !f.isDirectory && Hashable(f)
  }

  /** What `listFiles()` yields for `e`, with `null` read as no entries. */
  function Children(e: Entry): (r: seq<Entry>)
    ensures e.listing.Unlisted? ==> r == []
    ensures forall c :: c in r ==> c < e
  {
    match e.listing
    case Unlisted => []
    case Listed(files) => files
  }

  /**
   The files submitted while visiting the entries of `dir`'s listing from
   index `i` on, in listing order: a symbolic link is skipped outright, every
   other directory is recursed into, and any other entry is submitted when it
   is `Hashable`.
   */
  function WalkFrom(dir: Entry, i: nat): (r: seq<Entry>)
    requires i <= |Children(dir)|
    ensures forall f :: f in r ==> Eligible(f)
    decreases dir, |Children(dir)| - i
  {
    if i == |Children(dir)| then []
    else
      var f := Children(dir)[i];
      (if f.isSymlink then []
       else if f.isDirectory then WalkFrom(f, 0)
       else if Hashable(f) then [f]
       else [])
      + WalkFrom(dir, i + 1)
  }

  /** One step of the walk: the files submitted for entry `i`, then those for the entries after it. */
  lemma WalkStep(dir: Entry, i: nat)
    requires i < |Children(dir)|
    ensures var f := Children(dir)[i];
            WalkFrom(dir, i) ==
              (if f.isSymlink then []
               else if f.isDirectory then WalkFrom(f, 0)
               else if Hashable(f) then [f]
               else [])
              + WalkFrom(dir, i + 1)
  {
  }

  /** `hashFilesRecursive(root)`: the files submitted for `root`'s listing. */
  function Walk(root: Entry): (r: seq<Entry>)
    ensures forall f :: f in r ==> Eligible(f)
  {
    WalkFrom(root, 0)
  }

  /** A listing that is `null` or empty submits nothing. */
  lemma EmptyListingSubmitsNothing(root: Entry)
    requires root.listing.Unlisted? || root.listing == Listed([])
    ensures Walk(root) == []
  {
  }

  /**
   Independent reference: every entry the walk meets, in depth-first listing
   order, whether or not it is submitted. Directories that are not symbolic
   links are descended into; nothing else is.
   */
  function TraverseFrom(dir: Entry, i: nat): seq<Entry>
    requires i <= |Children(dir)|
    decreases dir, |Children(dir)| - i
  {
    if i == |Children(dir)| then []
    else
      var f := Children(dir)[i];
      [f]
      + (if !f.isSymlink && f.isDirectory then TraverseFrom(f, 0) else [])
      + TraverseFrom(dir, i + 1)
  }

  /** The eligible entries of `s`, in order. */
  function FilterEligible(s: seq<Entry>): (r: seq<Entry>)
  {
    if s == [] then [] else (if Eligible(s[0]) then [s[0]] else []) + FilterEligible(s[1..])
  }

  lemma {:induction false} FilterEligibleAppend(a: seq<Entry>, b: seq<Entry>)
    ensures FilterEligible(a + b) == FilterEligible(a) + FilterEligible(b)
  {
    if a != [] {
      assert (a + b)[0] == a[0] && (a + b)[1..] == a[1..] + b;
      FilterEligibleAppend(a[1..], b);
    } else {
      assert a + b == b;
    }
  }

  /** `x` occurs in `FilterEligible(s)` exactly when it occurs in `s` and is eligible. */
  lemma {:induction false} FilterEligibleMembership(s: seq<Entry>, x: Entry)
    ensures x in FilterEligible(s) <==> x in s && Eligible(x)
  {
    if s != [] {
      assert s == [s[0]] + s[1..];
      FilterEligibleMembership(s[1..], x);
    }
  }

  /**
   The walk submits exactly the eligible entries of the traversal, in the
   same order: no other file is ever submitted, and no eligible file the
   traversal reaches is missed.
   */
  lemma {:induction false} WalkIsFilteredTraversal(dir: Entry, i: nat)
    requires i <= |Children(dir)|
    ensures WalkFrom(dir, i) == FilterEligible(TraverseFrom(dir, i))
    decreases dir, |Children(dir)| - i
  {
    if i < |Children(dir)| {
      var f := Children(dir)[i];
      var descend := !f.isSymlink && f.isDirectory;
      var sub := if descend then TraverseFrom(f, 0) else [];
      var rest := TraverseFrom(dir, i + 1);
      var t := TraverseFrom(dir, i);
      assert t == [f] + (sub + rest);
      assert t[0] == f && t[1..] == sub + rest;
      assert FilterEligible(t) == (if Eligible(f) then [f] else []) + FilterEligible(sub + rest);
      FilterEligibleAppend(sub, rest);
      WalkIsFilteredTraversal(dir, i + 1);
      if descend {
        WalkIsFilteredTraversal(f, 0);
        assert FilterEligible(t) == FilterEligible(sub) + FilterEligible(rest);
      } else {
        assert FilterEligible(sub) == [];
      }
    }
  }

  /** The selection rule of `hashFilesRecursive`, both directions. */
  lemma WalkSelectsExactly(root: Entry, x: Entry)
    ensures x in Walk(root) <==> x in TraverseFrom(root, 0) && Eligible(x)
  {
    WalkIsFilteredTraversal(root, 0);
    FilterEligibleMembership(TraverseFrom(root, 0), x);
  }

  /**
   A symbolic link is never followed: whatever the link's own listing holds,
   the files submitted for its parent stay the same.
   */
  lemma {:induction false} SymlinkNotFollowed(dir: Entry, j: nat, other: Listing, i: nat)
    requires j < |Children(dir)| && Children(dir)[j].isSymlink
    requires i <= |Children(dir)|
    ensures var files := Children(dir);
            var dir' := dir.(listing := Listed(files[j := files[j].(listing := other)]));
            WalkFrom(dir', i) == WalkFrom(dir, i)
    decreases |Children(dir)| - i
  {
    var files := Children(dir);
    var dir' := dir.(listing := Listed(files[j := files[j].(listing := other)]));
    if i < |files| {
      SymlinkNotFollowed(dir, j, other, i + 1);
      if i != j {
        assert Children(dir')[i] == files[i];
      }
    }
  }

  /**
   The loop of `main` over the scan roots: a root that does not exist
   (`None`) is reported and skipped, every other root is walked, in argument
   order.
   */
  function ScanRoots(roots: seq<Option<Entry>>): (r: seq<Entry>)
    ensures forall f :: f in r ==> Eligible(f)
  {
    if roots == [] then []
    else (match roots[0] case None => [] case Some(root) => Walk(root)) + ScanRoots(roots[1..])
  }

  /** A file is queued exactly when the walk of some existing root submits it. */
  lemma {:induction false} ScanRootsSelects(roots: seq<Option<Entry>>)
    ensures forall x: Entry :: x in ScanRoots(roots) <==>
      exists k :: 0 <= k < |roots| && roots[k].Some? && x in Walk(roots[k].value)
  {
    if roots != [] {
      ScanRootsSelects(roots[1..]);
      assert forall k :: 1 <= k < |roots| ==> roots[k] == roots[1..][k - 1];
    }
  }

  /** Walking one more root appends its files after those of the earlier roots. */
  lemma {:induction false} ScanRootsAppend(roots: seq<Option<Entry>>, root: Option<Entry>)
    ensures ScanRoots(roots + [root]) == ScanRoots(roots) + (match root case None => [] case Some(e) => Walk(e))
  {
    if roots != [] {
      assert (roots + [root])[1..] == roots[1..] + [root];
      ScanRootsAppend(roots[1..], root);
    }
  }
}
