/**
 The end of `main`: the `file -> hash` map is inverted into `hash -> list of
 files`, and every list with more than one member is emitted into the fdupes
 report, one path per line and a blank line after each list.

 Java's `HashMap` iterates in an unspecified order. Each loop therefore takes
 the order it visits keys in as a parameter (`Enumerates` says it lists every
 key once); nothing below depends on which order that is, except the order
 of groups and of members within a group.
 */
module Report {
  import opened FileWalk
  import opened Fingerprint

  /** No element of `s` occurs twice. */
  ghost predicate Distinct<T>(s: seq<T>)
  {
    forall i, j :: 0 <= i < j < |s| ==> s[i] != s[j]
  }

  /** `order` lists every element of `keys` exactly once: an iteration order. */
  ghost predicate Enumerates<T(!new)>(order: seq<T>, keys: set<T>)
  {
    Distinct(order) && (forall x :: x in order <==> x in keys)
  }

  /** `p` shares its hash with some other hashed file. */
  ghost predicate Duplicated(hashes: map<Path, Long>, p: Path)
  {
    p in hashes && exists q :: q in hashes && q != p && hashes[q] == hashes[p]
  }

  /**
   The inversion loop after visiting the files of `order`: each visit
   appends the file to the list of its hash, creating the list on the first
   file with that hash.
   */
  function GroupByHash(hashes: map<Path, Long>, order: seq<Path>): (r: map<Long, seq<Path>>)
    requires forall f :: f in order ==> f in hashes
  {
    if order == [] then map[]
    else
      var groups := GroupByHash(hashes, order[..|order| - 1]);
      var f := order[|order| - 1];
      var h := hashes[f];
      groups[h := (if h in groups then groups[h] else []) + [f]]
  }

  /**
   The list of a hash holds exactly the visited files with that hash, and
   every visited file's hash has a list.
   */
  lemma {:induction false} GroupsMembers(hashes: map<Path, Long>, order: seq<Path>)
    requires forall f :: f in order ==> f in hashes
    ensures forall f: Path :: f in order ==> hashes[f] in GroupByHash(hashes, order)
    ensures forall h: Long, f: Path :: h in GroupByHash(hashes, order) ==>
              (f in GroupByHash(hashes, order)[h] <==> f in order && hashes[f] == h)
  {
    if order != [] {
      var prefix := order[..|order| - 1];
      var f := order[|order| - 1];
      assert order == prefix + [f];
      GroupsMembers(hashes, prefix);
      var groups := GroupByHash(hashes, prefix);
      var h := hashes[f];
      var prev := if h in groups then groups[h] else [];
      var result := groups[h := prev + [f]];
      assert forall g: Path :: g in order <==> g in prefix || g == f;
      forall g: Path | g in prev + [f] ensures g in order && hashes[g] == h {
        if g != f {
          assert g in prev;
        }
      }
      forall g: Path | g in order && hashes[g] == h ensures g in prev + [f] {
        if g != f {
          assert g in prefix && hashes[g] in groups;
          assert g in groups[h];
        }
      }
      forall k: Long, g: Path | k in result && k != h ensures g in result[k] <==> g in order && hashes[g] == k {
        assert result[k] == groups[k];
      }
    }
  }

  /** When no file is visited twice, every list is non-empty and free of repeats. */
  lemma {:induction false} GroupsDistinct(hashes: map<Path, Long>, order: seq<Path>)
    requires Distinct(order) && forall f :: f in order ==> f in hashes
    ensures forall h: Long :: h in GroupByHash(hashes, order) ==>
              |GroupByHash(hashes, order)[h]| > 0 && Distinct(GroupByHash(hashes, order)[h])
  {
    if order != [] {
      var prefix := order[..|order| - 1];
      var f := order[|order| - 1];
      assert order == prefix + [f];
      GroupsDistinct(hashes, prefix);
      GroupsMembers(hashes, prefix);
      var groups := GroupByHash(hashes, prefix);
      var h := hashes[f];
      assert f !in prefix by {
        forall k | 0 <= k < |prefix| ensures prefix[k] != f {
          assert order[k] == prefix[k];
        }
      }
      var list := (if h in groups then groups[h] else []) + [f];
      forall i, j | 0 <= i < j < |list| ensures list[i] != list[j] {
        if j == |list| - 1 {
          assert h in groups && list[i] == groups[h][i];
          assert list[i] in prefix;
        } else {
          assert list[i] == groups[h][i] && list[j] == groups[h][j];
        }
      }
    }
  }

  /**
   The lists partition the visited files by hash: every visited file's hash
   has a list, a file sits in the list of its own hash and in no other, and
   every list is non-empty and free of repeats (so a hash has a list only
   when some visited file has it).
   */
  lemma GroupsPartition(hashes: map<Path, Long>, order: seq<Path>)
    requires Distinct(order) && forall f :: f in order ==> f in hashes
    ensures forall f: Path :: f in order ==> hashes[f] in GroupByHash(hashes, order)
    ensures forall h: Long, f: Path :: h in GroupByHash(hashes, order) ==>
              (f in GroupByHash(hashes, order)[h] <==> f in order && hashes[f] == h)
    ensures forall h: Long :: h in GroupByHash(hashes, order) ==>
              |GroupByHash(hashes, order)[h]| > 0 && Distinct(GroupByHash(hashes, order)[h])
  {
    GroupsMembers(hashes, order);
    GroupsDistinct(hashes, order);
  }

  /** The lists of `groups` for the hashes of `order`, one after the other, keeping only lists of at least `least` members. */
  function Members(groups: map<Long, seq<Path>>, order: seq<Long>, least: nat): seq<Path>
    requires forall h :: h in order ==> h in groups
  {
    if order == [] then []
    else
      var g := groups[order[|order| - 1]];
      Members(groups, order[..|order| - 1], least) + if |g| >= least then g else []
  }

  /** The sum of the sizes of those lists. */
  function SumSizes(groups: map<Long, seq<Path>>, order: seq<Long>, least: nat): nat
    requires forall h :: h in order ==> h in groups
  {
    if order == [] then 0
    else
      var g := groups[order[|order| - 1]];
      SumSizes(groups, order[..|order| - 1], least) + if |g| >= least then |g| else 0
  }

  lemma {:induction false} MembersLength(groups: map<Long, seq<Path>>, order: seq<Long>, least: nat)
    requires forall h :: h in order ==> h in groups
    ensures |Members(groups, order, least)| == SumSizes(groups, order, least)
  {
    if order != [] {
      MembersLength(groups, order[..|order| - 1], least);
    }
  }

  lemma {:induction false} DistinctMultiplicity<T>(s: seq<T>, x: T)
    requires Distinct(s)
    ensures multiset(s)[x] == if x in s then 1 else 0
  {
    if s != [] {
      var prefix := s[..|s| - 1];
      assert s == prefix + [s[|s| - 1]];
      assert s[|s| - 1] !in prefix;
      DistinctMultiplicity(prefix, x);
    }
  }

  /**
   When the lists are repeat-free, the hashes of `order` distinct and a path
   lies in at most one list, the path occurs in `Members` once if one of the
   kept lists holds it, and not at all otherwise.
   */
  lemma {:induction false} MembersMultiplicity(groups: map<Long, seq<Path>>, order: seq<Long>, least: nat, p: Path)
    requires Distinct(order) && forall h :: h in order ==> h in groups
    requires forall h :: h in groups ==> Distinct(groups[h])
    requires forall h1, h2 :: h1 in groups && h2 in groups && p in groups[h1] && p in groups[h2] ==> h1 == h2
    ensures multiset(Members(groups, order, least))[p] ==
            if exists h :: h in order && |groups[h]| >= least && p in groups[h] then 1 else 0
  {
    if order != [] {
      var prefix := order[..|order| - 1];
      var last := order[|order| - 1];
      var g := groups[last];
      assert order == prefix + [last];
      assert last !in prefix by {
        forall k | 0 <= k < |prefix| ensures prefix[k] != last {
          assert order[k] == prefix[k];
        }
      }
      assert forall h :: h in prefix ==> h in order;
      MembersMultiplicity(groups, prefix, least, p);
      DistinctMultiplicity(g, p);
      var kept := if |g| >= least then g else [];
      assert multiset(Members(groups, order, least)) == multiset(Members(groups, prefix, least)) + multiset(kept);
    }
  }

  /** The report lines the emit loop appends for the hashes of `order`. */
  function EmitLines(groups: map<Long, seq<Path>>, order: seq<Long>): (r: seq<string>)
    requires forall h :: h in order ==> h in groups
    ensures r != [] ==> r[|r| - 1] == ""
  {
    if order == [] then []
    else
      var g := groups[order[|order| - 1]];
      EmitLines(groups, order[..|order| - 1]) + if |g| > 1 then g + [""] else []
  }

  /** The lines of `lines` that are not blank. */
  function NonBlank(lines: seq<string>): (r: seq<string>)
    ensures forall x :: x in r <==> x in lines && x != ""
  {
    if lines == [] then []
    else
      var prefix := lines[..|lines| - 1];
      assert forall x :: x in lines <==> x in prefix || x == lines[|lines| - 1];
      NonBlank(prefix) + if lines[|lines| - 1] == "" then [] else [lines[|lines| - 1]]
  }

  lemma {:induction false} NonBlankAppend(a: seq<string>, b: seq<string>)
    ensures NonBlank(a + b) == NonBlank(a) + NonBlank(b)
    decreases |b|
  {
    if b == [] {
      assert a + b == a;
    } else {
      var b' := b[..|b| - 1];
      assert (a + b)[..|a + b| - 1] == a + b';
      NonBlankAppend(a, b');
    }
  }

  lemma {:induction false} NonBlankOfPaths(s: seq<Path>)
    ensures NonBlank(s) == s
  {
    if s != [] {
      NonBlankOfPaths(s[..|s| - 1]);
    }
  }

  /** The non-blank lines of the report are the members of the lists with more than one member. */
  lemma {:induction false} EmitNonBlank(groups: map<Long, seq<Path>>, order: seq<Long>)
    requires forall h :: h in order ==> h in groups
    ensures NonBlank(EmitLines(groups, order)) == Members(groups, order, 2)
  {
    if order != [] {
      var prefix := order[..|order| - 1];
      var g := groups[order[|order| - 1]];
      EmitNonBlank(groups, prefix);
      if |g| > 1 {
        NonBlankAppend(EmitLines(groups, prefix), g + [""]);
        NonBlankAppend(g, [""]);
        NonBlankOfPaths(g);
        assert NonBlank([""]) == [];
      } else {
        assert EmitLines(groups, order) == EmitLines(groups, prefix);
        assert Members(groups, order, 2) == Members(groups, prefix, 2);
      }
    }
  }

  /**
   A non-empty report ends with a blank line, and the report is empty
   exactly when no list has more than one member.
   */
  lemma {:induction false} EmitEnds(groups: map<Long, seq<Path>>, order: seq<Long>)
    requires forall h :: h in order ==> h in groups
    ensures EmitLines(groups, order) != [] ==> EmitLines(groups, order)[|EmitLines(groups, order)| - 1] == ""
    ensures EmitLines(groups, order) == [] <==> SumSizes(groups, order, 2) == 0
  {
    if order != [] {
      EmitEnds(groups, order[..|order| - 1]);
    }
  }

  /**
   The report holds the members of the lists with more than one member,
   each list closed by one blank line: the non-blank lines are exactly those
   members, a non-empty report ends with a blank line, and the report is
   empty exactly when no list has more than one member.
   */
  lemma EmitShape(groups: map<Long, seq<Path>>, order: seq<Long>)
    requires forall h :: h in order ==> h in groups
    ensures NonBlank(EmitLines(groups, order)) == Members(groups, order, 2)
    ensures EmitLines(groups, order) != [] ==> EmitLines(groups, order)[|EmitLines(groups, order)| - 1] == ""
    ensures EmitLines(groups, order) == [] <==> SumSizes(groups, order, 2) == 0
  {
    EmitNonBlank(groups, order);
    EmitEnds(groups, order);
  }

  /**
   The emit loop: visits the hashes in `order`, and for each list with more
   than one member adds its size to the duplicate count and its paths and
   one blank line to the report. The count is the number of non-blank lines.
   */
  method EmitDuplicates(groups: map<Long, seq<Path>>, order: seq<Long>) returns (lines: seq<string>, count: int)
    requires forall h :: h in order ==> h in groups
    ensures lines == EmitLines(groups, order)
    ensures count == SumSizes(groups, order, 2) == |NonBlank(lines)|
  {
    lines, count := [], 0;
    for i := 0 to |order|
      invariant lines == EmitLines(groups, order[..i])
      invariant count == SumSizes(groups, order[..i], 2)
    {
      assert order[..i + 1][..i] == order[..i];
      var sameFiles := groups[order[i]];
      if |sameFiles| > 1 {
        count := count + |sameFiles|;
        for j := 0 to |sameFiles|
          invariant lines == EmitLines(groups, order[..i]) + sameFiles[..j]
        {
          lines := lines + [sameFiles[j]];
        }
        assert sameFiles[..|sameFiles|] == sameFiles;
        lines := lines + [""];
      }
    }
    assert order[..|order|] == order;
    EmitShape(groups, order);
    MembersLength(groups, order, 2);
  }

  /** One more iteration of the inversion loop appends the next file to the list of its hash. */
  lemma GroupStep(hashes: map<Path, Long>, order: seq<Path>, i: nat)
    requires i < |order| && forall f :: f in order ==> f in hashes
    ensures forall f :: f in order[..i + 1] ==> f in hashes
    ensures var groups := GroupByHash(hashes, order[..i]);
            var h := hashes[order[i]];
            GroupByHash(hashes, order[..i + 1]) == groups[h := (if h in groups then groups[h] else []) + [order[i]]]
  {
    assert order[..i + 1][..i] == order[..i];
  }

  /**
   The inversion loop over `fileHashes`, visiting its files in `order`.
   */
  method InvertHashes(hashes: map<Path, Long>, order: seq<Path>) returns (groups: map<Long, seq<Path>>)
    requires Enumerates(order, hashes.Keys)
    ensures groups == GroupByHash(hashes, order)
    ensures forall h: Long :: h in groups <==> h in hashes.Values
    ensures forall h: Long, f: Path :: h in groups ==> (f in groups[h] <==> f in hashes && hashes[f] == h)
  {
    groups := map[];
    for i := 0 to |order|
      invariant groups == GroupByHash(hashes, order[..i])
    {
      GroupStep(hashes, order, i);
      var file, hash := order[i], hashes[order[i]];
      var list: seq<Path> := [];
      if hash in groups {
        list := list + groups[hash];
        assert list == groups[hash];
      }
      list := list + [file];
      groups := groups[hash := list];
    }
    assert order[..|order|] == order;
    GroupsOfMap(hashes, order);
  }

  /**
   After visiting every file of the map, the hashes with a list are exactly
   the hash values of the map, and the list of a hash holds exactly the
   files the map gives that hash.
   */
  lemma GroupsOfMap(hashes: map<Path, Long>, order: seq<Path>)
    requires Enumerates(order, hashes.Keys)
    ensures forall h: Long :: h in GroupByHash(hashes, order) <==> h in hashes.Values
    ensures forall h: Long, f: Path :: h in GroupByHash(hashes, order) ==>
              (f in GroupByHash(hashes, order)[h] <==> f in hashes && hashes[f] == h)
  {
    var groups := GroupByHash(hashes, order);
    GroupsPartition(hashes, order);
    forall h: Long | h in hashes.Values ensures h in groups {
      var f: Path :| f in hashes && hashes[f] == h;
      assert f in order;
    }
    forall h: Long | h in groups ensures h in hashes.Values {
      var f: Path := groups[h][0];
      assert f in groups[h];
      assert f in hashes && hashes[f] == h;
    }
  }

  /**
   Every hashed file sits in exactly one list, so the lists, taken in any
   iteration order, hold the hashed files once each and their sizes sum to
   the number of entries.
   */
  lemma EntriesPartitioned(hashes: map<Path, Long>, fileOrder: seq<Path>, hashOrder: seq<Long>)
    requires Enumerates(fileOrder, hashes.Keys)
    requires Enumerates(hashOrder, GroupByHash(hashes, fileOrder).Keys)
    ensures multiset(Members(GroupByHash(hashes, fileOrder), hashOrder, 0)) == multiset(fileOrder)
    ensures SumSizes(GroupByHash(hashes, fileOrder), hashOrder, 0) == |hashes|
  {
    var groups := GroupByHash(hashes, fileOrder);
    GroupsPartition(hashes, fileOrder);
    forall p: Path ensures multiset(Members(groups, hashOrder, 0))[p] == multiset(fileOrder)[p] {
      MembersMultiplicity(groups, hashOrder, 0, p);
      DistinctMultiplicity(fileOrder, p);
      if p in fileOrder {
        assert hashes[p] in hashOrder && p in groups[hashes[p]];
      }
    }
    assert multiset(Members(groups, hashOrder, 0)) == multiset(fileOrder);
    MembersLength(groups, hashOrder, 0);
    DistinctCardinality(fileOrder, hashes.Keys);
  }

  lemma {:induction false} DistinctCardinality<T(!new)>(s: seq<T>, keys: set<T>)
    requires Enumerates(s, keys)
    ensures |s| == |keys|
  {
    if s != [] {
      var prefix := s[..|s| - 1];
      var last := s[|s| - 1];
      assert s == prefix + [last];
      assert last !in prefix;
      DistinctCardinality(prefix, keys - {last});
    } else {
      assert keys == {};
    }
  }

  /** A hashed file is duplicated exactly when the list of its hash has more than one member. */
  lemma DuplicatedIffInLargeGroup(hashes: map<Path, Long>, order: seq<Path>, p: Path)
    requires Enumerates(order, hashes.Keys)
    ensures Duplicated(hashes, p) <==>
            p in hashes && hashes[p] in GroupByHash(hashes, order) && |GroupByHash(hashes, order)[hashes[p]]| >= 2
  {
    var groups := GroupByHash(hashes, order);
    GroupsPartition(hashes, order);
    if Duplicated(hashes, p) {
      var q: Path :| q in hashes && q != p && hashes[q] == hashes[p];
      var g := groups[hashes[p]];
      assert p in g && q in g;
      var i :| 0 <= i < |g| && g[i] == p;
      var j :| 0 <= j < |g| && g[j] == q;
      assert i != j;
    }
    if p in hashes && hashes[p] in groups && |groups[hashes[p]]| >= 2 {
      var g := groups[hashes[p]];
      var q := if g[0] == p then g[1] else g[0];
      assert q in g && q != p;
      assert q in order && hashes[q] == hashes[p];
      assert q in hashes;
    }
  }

  /**
   What the report says about one path: it appears on exactly one line when
   another hashed file shares its hash, and on none otherwise.
   */
  lemma ReportsExactlyDuplicates(hashes: map<Path, Long>, fileOrder: seq<Path>, hashOrder: seq<Long>, p: Path)
    requires Enumerates(fileOrder, hashes.Keys)
    requires Enumerates(hashOrder, GroupByHash(hashes, fileOrder).Keys)
    ensures multiset(NonBlank(EmitLines(GroupByHash(hashes, fileOrder), hashOrder)))[p] ==
            if Duplicated(hashes, p) then 1 else 0
  {
    EmitNonBlank(GroupByHash(hashes, fileOrder), hashOrder);
    LargeGroupsHoldDuplicates(hashes, fileOrder, hashOrder, p);
  }

  /** Among the members of the lists with more than one member, a duplicated file occurs once and any other never. */
  lemma LargeGroupsHoldDuplicates(hashes: map<Path, Long>, fileOrder: seq<Path>, hashOrder: seq<Long>, p: Path)
    requires Enumerates(fileOrder, hashes.Keys)
    requires Enumerates(hashOrder, GroupByHash(hashes, fileOrder).Keys)
    ensures multiset(Members(GroupByHash(hashes, fileOrder), hashOrder, 2))[p] ==
            if Duplicated(hashes, p) then 1 else 0
  {
    var groups := GroupByHash(hashes, fileOrder);
    GroupsMembers(hashes, fileOrder);
    GroupsDistinct(hashes, fileOrder);
    assert forall h: Long :: h in groups && p in groups[h] ==> p in hashes && hashes[p] == h;
    MembersMultiplicity(groups, hashOrder, 2, p);
    DuplicatedIffInLargeGroup(hashes, fileOrder, p);
    var inLarge := exists h :: h in hashOrder && |groups[h]| >= 2 && p in groups[h];
    if inLarge {
      var h :| h in hashOrder && |groups[h]| >= 2 && p in groups[h];
      assert p in fileOrder && hashes[p] == h;
    }
    if Duplicated(hashes, p) {
      assert hashes[p] in hashOrder;
    }
  }

  /** The lists with more than one member, for the hashes of `order`, in that order. */
  function Blocks(groups: map<Long, seq<Path>>, order: seq<Long>): seq<seq<string>>
    requires forall h :: h in order ==> h in groups
  {
    if order == [] then []
    else
      var g := groups[order[|order| - 1]];
      Blocks(groups, order[..|order| - 1]) + if |g| > 1 then [g] else []
  }

  /**
   Reading a report back: the lines before each blank line form one block;
   `current` holds the lines read since the last blank line, and lines after
   the last blank line form a final block.
   */
  function Split(lines: seq<string>, current: seq<string>): seq<seq<string>>
  {
    if lines == [] then (if current == [] then [] else [current])
    else if lines[0] == "" then [current] + Split(lines[1..], [])
    else Split(lines[1..], current + [lines[0]])
  }

  /** A block of paths closed by a blank line reads back as that one block. */
  lemma {:induction false} SplitBlock(g: seq<Path>, current: seq<string>)
    ensures Split(g + [""], current) == [current + g]
  {
    if g == [] {
      assert g + [""] == [""] && [""][1..] == [];
      assert current + g == current;
    } else {
      assert (g + [""])[0] == g[0] && (g + [""])[1..] == g[1..] + [""];
      SplitBlock(g[1..], current + [g[0]]);
      assert current + [g[0]] + g[1..] == current + g;
    }
  }

  /** A prefix that ends with a blank line reads back independently of what follows. */
  lemma {:induction false} SplitAppend(a: seq<string>, b: seq<string>, current: seq<string>)
    requires |a| > 0 && a[|a| - 1] == ""
    ensures Split(a + b, current) == Split(a, current) + Split(b, [])
  {
    assert (a + b)[0] == a[0] && (a + b)[1..] == a[1..] + b;
    if |a| == 1 {
      assert a[1..] == [] && a[1..] + b == b;
    } else if a[0] == "" {
      SplitAppend(a[1..], b, []);
    } else {
      SplitAppend(a[1..], b, current + [a[0]]);
    }
  }

  /**
   The emitted report splits at its blank lines into exactly the lists with
   more than one member, in iteration order: no two lists run together and
   no list is cut in two.
   */
  lemma {:induction false} SplitEmit(groups: map<Long, seq<Path>>, order: seq<Long>)
    requires forall h :: h in order ==> h in groups
    ensures Split(EmitLines(groups, order), []) == Blocks(groups, order)
  {
    if order != [] {
      var prefix := order[..|order| - 1];
      var g := groups[order[|order| - 1]];
      SplitEmit(groups, prefix);
      var earlier := EmitLines(groups, prefix);
      if |g| > 1 {
        SplitBlock(g, []);
        assert [] + g == g;
        EmitEnds(groups, prefix);
        if earlier == [] {
          assert earlier + (g + [""]) == g + [""];
        } else {
          SplitAppend(earlier, g + [""], []);
        }
      } else {
        assert EmitLines(groups, order) == earlier;
      }
    }
  }

  /** The whole report for `hashes`, with the two maps iterated in `fileOrder` and `hashOrder`. */
  function ReportLines(hashes: map<Path, Long>, fileOrder: seq<Path>, hashOrder: seq<Long>): seq<string>
    requires Enumerates(fileOrder, hashes.Keys)
    requires Enumerates(hashOrder, GroupByHash(hashes, fileOrder).Keys)
  {
    EmitLines(GroupByHash(hashes, fileOrder), hashOrder)
  }

  /**
   The report as a whole, in whichever order the maps are iterated: each
   duplicated file on exactly one line and no other file on any; a
   non-empty report ends with a blank line; and the report, like the
   duplicate count, is empty exactly when no two files share a hash.
   */
  lemma ReportSummary(hashes: map<Path, Long>, fileOrder: seq<Path>, hashOrder: seq<Long>)
    requires Enumerates(fileOrder, hashes.Keys)
    requires Enumerates(hashOrder, GroupByHash(hashes, fileOrder).Keys)
    ensures forall p: Path :: multiset(NonBlank(ReportLines(hashes, fileOrder, hashOrder)))[p] ==
              if Duplicated(hashes, p) then 1 else 0
    ensures SumSizes(GroupByHash(hashes, fileOrder), hashOrder, 2) == |NonBlank(ReportLines(hashes, fileOrder, hashOrder))|
    ensures ReportLines(hashes, fileOrder, hashOrder) != [] <==> exists p: Path :: Duplicated(hashes, p)
    ensures ReportLines(hashes, fileOrder, hashOrder) != [] <==> SumSizes(GroupByHash(hashes, fileOrder), hashOrder, 2) > 0
    ensures ReportLines(hashes, fileOrder, hashOrder) != [] ==>
              ReportLines(hashes, fileOrder, hashOrder)[|ReportLines(hashes, fileOrder, hashOrder)| - 1] == ""
  {
    var groups := GroupByHash(hashes, fileOrder);
    var lines := ReportLines(hashes, fileOrder, hashOrder);
    EmitShape(groups, hashOrder);
    MembersLength(groups, hashOrder, 2);
    forall p: Path ensures multiset(NonBlank(lines))[p] == if Duplicated(hashes, p) then 1 else 0 {
      ReportsExactlyDuplicates(hashes, fileOrder, hashOrder, p);
    }
    if exists p: Path :: Duplicated(hashes, p) {
      var p: Path :| Duplicated(hashes, p);
      assert p in NonBlank(lines);
    }
    if NonBlank(lines) != [] {
      var p: Path := NonBlank(lines)[0];
      assert multiset(NonBlank(lines))[p] > 0;
    }
  }

  /**
   One iteration order of a Java `HashMap`'s keys: each key once, in an
   order the model leaves open.
   */
  method Enumerate<T(==,!new)>(keys: set<T>) returns (order: seq<T>)
    ensures Enumerates(order, keys)
  {
    order := [];
    var rest := keys;
    while rest != {}
      invariant rest <= keys
      invariant Distinct(order)
      invariant forall x :: x in order <==> x in keys && x !in rest
      decreases rest
    {
      var x :| x in rest;
      order := order + [x];
      rest := rest - {x};
    }
  }
}
