/**
  get_files: the depth-first walk that lists every directory in sorted
  order; remove_empty_dirs: the post-order pruning of the directories that
  a move run leaves empty.
 */
module Traversal {
  import opened FileTree
  import opened Ordering

  /** get_files(p): the paths the generator yields, in order. */
  function GetFiles(e: Entries, p: Path): (r: seq<Path>)
    requires IsDir(e, p)
    ensures forall q :: q in r ==> IsFile(e, q) && StrictlyUnder(p, q)
    decreases Subtree(e, p), 1
  {
    WalkEntries(e, p, SortedNames(Children(e, p)))
  }

  /** The for loop of get_files over the (sorted) names still to visit. */
  function WalkEntries(e: Entries, p: Path, names: seq<Name>): (r: seq<Path>)
    requires p in e && forall n :: n in names ==> p + [n] in e
    ensures forall q :: q in r ==> IsFile(e, q) && StrictlyUnder(p, q) && q[|p|] in names
    decreases Subtree(e, p), 0, |names|
  {
    if names == [] then []
    else EntryFiles(e, p, names[0]) + WalkEntries(e, p, names[1..])
  }

  /** One turn of that loop, for the entry n of p: the files below it when
      it is a directory, the entry itself otherwise. */
  function EntryFiles(e: Entries, p: Path, n: Name): (r: seq<Path>)
    requires p in e && p + [n] in e
    ensures forall q :: q in r ==> IsFile(e, q) && StrictlyUnder(p, q) && q[|p|] == n
    decreases Subtree(e, p), 0, 0
  {
    var c := p + [n];
    if IsDir(e, c) then
      SubtreeShrinks(e, p, n);
      var r := GetFiles(e, c);
      forall q | q in r ensures q[..|p|] == p && q[|p|] == n {
        BelowEntry(p, n, q);
      }
      r
    else
      [c]
  }

  lemma BelowEntry(p: Path, n: Name, q: Path)
    requires StrictlyUnder(p + [n], q)
    ensures q[..|p|] == p && q[|p|] == n
  {
    var c := p + [n];
    assert q[..|p|] == q[..|c|][..|p|];
    assert q[|p|] == q[..|c|][|p|];
  }

  /** The walk visits paths in strictly increasing component-wise order:
      each directory's entries in sorted order, and a subdirectory's files
      all before those of its next sibling. In particular nothing is
      yielded twice. */
  lemma {:induction false} GetFilesSorted(e: Entries, p: Path)
    requires IsDir(e, p)
    ensures PathsSorted(GetFiles(e, p))
    decreases Subtree(e, p), 1
  {
    WalkSorted(e, p, SortedNames(Children(e, p)));
  }

  lemma {:induction false} WalkSorted(e: Entries, p: Path, names: seq<Name>)
    requires p in e && forall n :: n in names ==> p + [n] in e
    requires StrictlySorted(names)
    ensures PathsSorted(WalkEntries(e, p, names))
    decreases Subtree(e, p), 0, |names|
  {
    if names != [] {
      var here := EntryFiles(e, p, names[0]);
      var rest := WalkEntries(e, p, names[1..]);
      EntrySorted(e, p, names[0]);
      assert StrictlySorted(names[1..]);
      WalkSorted(e, p, names[1..]);
      forall x, y | x in here && y in rest ensures PathBefore(x, y) {
        FirstBeforeRest(p, names, x, y);
      }
      ConcatSorted(here, rest);
    }
  }

  lemma {:induction false} EntrySorted(e: Entries, p: Path, n: Name)
    requires p in e && p + [n] in e
    ensures PathsSorted(EntryFiles(e, p, n))
    decreases Subtree(e, p), 0, 0
  {
    var c := p + [n];
    SubtreeShrinks(e, p, n);
    if IsDir(e, c) {
      GetFilesSorted(e, c);
    }
  }

  /** A path through the first of the sorted names comes before a path
      through any later one. */
  lemma FirstBeforeRest(p: Path, names: seq<Name>, x: Path, y: Path)
    requires StrictlySorted(names) && names != []
    requires StrictlyUnder(p, x) && StrictlyUnder(p, y)
    requires x[|p|] == names[0] && y[|p|] in names[1..]
    ensures PathBefore(x, y)
  {
    var k :| 0 <= k < |names| - 1 && names[1..][k] == y[|p|];
    assert Below(names[0], names[k + 1]);
    PathBeforeAt(x, y, |p|);
  }

  lemma ConcatSorted(a: seq<Path>, b: seq<Path>)
    requires PathsSorted(a) && PathsSorted(b)
    requires forall x, y :: x in a && y in b ==> PathBefore(x, y)
    ensures PathsSorted(a + b)
  {
    var r := a + b;
    forall i, j | 0 <= i < j < |r| ensures PathBefore(r[i], r[j]) {
      if j < |a| {
        assert r[i] == a[i] && r[j] == a[j];
      } else if i >= |a| {
        assert r[i] == b[i - |a|] && r[j] == b[j - |a|];
      } else {
        assert r[i] in a && r[j] in b;
      }
    }
  }

  /** Every regular file below p is yielded. */
  lemma {:induction false} GetFilesComplete(e: Entries, p: Path)
    requires WellFormed(e) && IsDir(e, p)
    ensures forall q :: IsFile(e, q) && StrictlyUnder(p, q) ==> q in GetFiles(e, p)
    decreases Subtree(e, p), 1
  {
    var names := SortedNames(Children(e, p));
    forall q | IsFile(e, q) && StrictlyUnder(p, q) ensures q[|p|] in names {
      ChildOnTheWay(e, p, q);
    }
    WalkComplete(e, p, names);
  }

  lemma {:induction false} WalkComplete(e: Entries, p: Path, names: seq<Name>)
    requires WellFormed(e) && p in e && forall n :: n in names ==> p + [n] in e
    ensures forall q :: IsFile(e, q) && StrictlyUnder(p, q) && q[|p|] in names ==> q in WalkEntries(e, p, names)
    decreases Subtree(e, p), 0, |names|
  {
    if names != [] {
      WalkComplete(e, p, names[1..]);
      EntryComplete(e, p, names[0]);
    }
  }

  lemma {:induction false} EntryComplete(e: Entries, p: Path, n: Name)
    requires WellFormed(e) && p in e && p + [n] in e
    ensures forall q :: IsFile(e, q) && StrictlyUnder(p, q) && q[|p|] == n ==> q in EntryFiles(e, p, n)
    decreases Subtree(e, p), 0, 0
  {
    var c := p + [n];
    SubtreeShrinks(e, p, n);
    if IsDir(e, c) {
      GetFilesComplete(e, c);
    }
    forall q | IsFile(e, q) && StrictlyUnder(p, q) && q[|p|] == n ensures q in EntryFiles(e, p, n) {
      ChildOnTheWay(e, p, q);
      if q != c {
        assert q[..|c|] == c;
        assert StrictlyUnder(c, q);
        AncestorsAreDirs(e, q, |c|);
      }
    }
  }

  /** The entry of p that lies on the way to q. */
  lemma ChildOnTheWay(e: Entries, p: Path, q: Path)
    requires WellFormed(e) && q in e && StrictlyUnder(p, q)
    ensures q[..|p| + 1] == p + [q[|p|]]
    ensures q[..|p| + 1] in e && q[|p|] in Children(e, p)
    ensures q[..|p| + 1] != q ==> IsDir(e, q[..|p| + 1])
  {
    assert q[..|p| + 1] == q[..|p|] + [q[|p|]];
    if |p| + 1 < |q| {
      AncestorsAreDirs(e, q, |p| + 1);
    } else {
      assert q[..|p| + 1] == q;
    }
  }

  /** What get_files(p) yields, in one statement: exactly the regular files
      below p, in strictly increasing path order. */
  lemma GetFilesSpec(e: Entries, p: Path)
    requires WellFormed(e) && IsDir(e, p)
    ensures forall q :: q in GetFiles(e, p) <==> IsFile(e, q) && StrictlyUnder(p, q)
    ensures PathsSorted(GetFiles(e, p))
  {
    GetFilesComplete(e, p);
    GetFilesSorted(e, p);
  }

  /** A directory strictly below p that has no regular file anywhere below
      it: what remove_empty_dirs(p) deletes. */
  ghost predicate Prunable(e: Entries, p: Path, q: Path)
  {
    StrictlyUnder(p, q) && IsDir(e, q) && !HasFileBelow(e, q)
  }

  /** a is b with exactly the prunable directories below p removed. */
  ghost predicate PrunedBelow(b: Entries, p: Path, a: Entries)
  {
    && (forall q :: q in a <==> q in b && !Prunable(b, p, q))
    && (forall q :: q in a ==> a[q] == b[q])
  }

  /** Loop invariant of remove_empty_dirs(p): the subtrees of the entries
      named in done are pruned, the others untouched. */
  ghost predicate PrunedFor(b: Entries, p: Path, done: seq<Name>, a: Entries)
  {
    && (forall q :: q in a <==> q in b && !(Prunable(b, p, q) && q[|p|] in done))
    && (forall q :: q in a ==> a[q] == b[q])
  }

  /** After pruning below c, c has an entry left exactly when some regular
      file lay below it. */
  lemma ChildrenAfterPrune(b: Entries, c: Path, a: Entries)
    requires WellFormed(b) && IsDir(b, c) && PrunedBelow(b, c, a)
    ensures Children(a, c) == {} <==> !HasFileBelow(b, c)
  {
    if HasFileBelow(b, c) {
      FileKeepsParentNonEmpty(b, c, a, c);
    }
    if Children(a, c) != {} {
      var n :| n in Children(a, c);
      var q := c + [n];
      assert StrictlyUnder(c, q);
      if IsDir(b, q) {
        var f :| IsFile(b, f) && StrictlyUnder(q, f);
        assert f[..|c|] == f[..|q|][..|c|];
        assert StrictlyUnder(c, f);
      }
    }
  }

  /** A directory at or below p with a regular file below it keeps an
      entry once p is pruned. */
  lemma FileKeepsParentNonEmpty(b: Entries, p: Path, a: Entries, q: Path)
    requires WellFormed(b) && PrunedBelow(b, p, a)
    requires q == p || StrictlyUnder(p, q)
    requires HasFileBelow(b, q)
    ensures Children(a, q) != {}
  {
    var f :| IsFile(b, f) && StrictlyUnder(q, f);
    ChildOnTheWay(b, q, f);
    var k := f[..|q| + 1];
    assert StrictlyUnder(p, k) by {
      PrefixTrans(p, q, k);
    }
    assert HasFileBelow(b, k) || IsFile(b, k) by {
      if k != f {
        assert StrictlyUnder(k, f);
      }
    }
    assert !Prunable(b, p, k);
    assert k in a;
    assert f[|q|] in Children(a, q);
  }

  /** After remove_empty_dirs(p), no directory strictly below p is empty. */
  lemma NoEmptyDirLeft(b: Entries, p: Path, a: Entries)
    requires WellFormed(b) && PrunedBelow(b, p, a)
    ensures forall q :: StrictlyUnder(p, q) && IsDir(a, q) ==> Children(a, q) != {}
  {
    forall q | StrictlyUnder(p, q) && IsDir(a, q) ensures Children(a, q) != {} {
      FileKeepsParentNonEmpty(b, p, a, q);
    }
  }

  /** The entries already pruned keep every regular file of e0. */
  lemma PrunedKeepsFiles(e0: Entries, p: Path, done: seq<Name>, e1: Entries)
    requires PrunedFor(e0, p, done, e1)
    ensures forall f :: IsFile(e1, f) <==> IsFile(e0, f)
    ensures forall q :: HasFileBelow(e1, q) <==> HasFileBelow(e0, q)
  {
    assert forall f :: IsFile(e1, f) <==> IsFile(e0, f);
    forall q ensures HasFileBelow(e1, q) <==> HasFileBelow(e0, q) {
      if HasFileBelow(e0, q) {
        var f :| IsFile(e0, f) && StrictlyUnder(q, f);
        assert IsFile(e1, f);
      }
    }
  }

  /** Below a child c of p that the loop has not reached yet, pruning c in
      the current state removes what pruning p in e0 would. */
  lemma PrunableBelowChild(e0: Entries, p: Path, done: seq<Name>, n: Name, e1: Entries, q: Path)
    requires PrunedFor(e0, p, done, e1) && n !in done
    requires StrictlyUnder(p + [n], q)
    ensures StrictlyUnder(p, q) && q[|p|] == n
    ensures Prunable(e1, p + [n], q) <==> Prunable(e0, p, q)
    ensures q in e1 <==> q in e0
  {
    var c := p + [n];
    PrefixTrans(p, c, q);
    assert q[|p|] == q[..|c|][|p|];
    PrunedKeepsFiles(e0, p, done, e1);
  }

  /** One turn of the loop in remove_empty_dirs(p) for a subdirectory c:
      prune below c, then remove c itself if that left it empty. */
  lemma PruneChildStep(e0: Entries, p: Path, done: seq<Name>, n: Name, e1: Entries, e2: Entries)
    requires WellFormed(e0) && WellFormed(e1) && PrunedFor(e0, p, done, e1)
    requires n !in done && IsDir(e1, p + [n])
    requires PrunedBelow(e1, p + [n], e2)
    ensures Children(e2, p + [n]) == {} <==> !HasFileBelow(e0, p + [n])
    ensures PrunedFor(e0, p, done + [n], if Children(e2, p + [n]) == {} then e2 - {p + [n]} else e2)
  {
    var c := p + [n];
    PrunedKeepsFiles(e0, p, done, e1);
    ChildrenAfterPrune(e1, c, e2);
    var e3 := if Children(e2, c) == {} then e2 - {c} else e2;
    assert StrictlyUnder(p, c) && c[|p|] == n;
    forall q ensures q in e3 <==> q in e0 && !(Prunable(e0, p, q) && q[|p|] in done + [n]) {
      if StrictlyUnder(c, q) {
        PrunableBelowChild(e0, p, done, n, e1, q);
      } else if q != c && StrictlyUnder(p, q) {
        assert q[|p|] != n by {
          assert q[..|c|] != c;
          assert q[..|c|] == q[..|p|] + [q[|p|]];
        }
      }
    }
  }

  /** One turn of the loop for an entry that is not a directory: nothing
      below it can be pruned. */
  lemma PruneFileStep(e0: Entries, p: Path, done: seq<Name>, n: Name, e1: Entries)
    requires WellFormed(e0) && PrunedFor(e0, p, done, e1)
    requires n !in done && p + [n] in e0 && !IsDir(e1, p + [n])
    ensures PrunedFor(e0, p, done + [n], e1)
  {
    var c := p + [n];
    assert c in e1 && e1[c] == e0[c];
    forall q | q in e0 && StrictlyUnder(p, q) && q[|p|] == n ensures !IsDir(e0, q) {
      ChildOnTheWay(e0, p, q);
    }
  }

  /** Once every entry of p has been visited, the loop invariant is the
      postcondition. */
  lemma PruneFinish(e0: Entries, p: Path, done: seq<Name>, e: Entries)
    requires WellFormed(e0) && PrunedFor(e0, p, done, e)
    requires forall n :: n in Children(e0, p) ==> n in done
    ensures PrunedBelow(e0, p, e)
  {
    forall q | q in e0 && StrictlyUnder(p, q) ensures q[|p|] in Children(e0, p) {
      ChildOnTheWay(e0, p, q);
    }
  }

  /** remove_empty_dirs(p): visit the entries of p in sorted order; for
      each subdirectory, prune it first and then remove it if nothing is
      left in it. p itself is never removed, nor is any regular file; the
      directories removed are exactly those below p with no regular file
      below them. */
  method RemoveEmptyDirs(fs: FileSystem, p: Path)
    requires fs.Valid() && IsDir(fs.entries, p)
    modifies fs
    ensures fs.Valid()
    ensures PrunedBelow(old(fs.entries), p, fs.entries)
    decreases Subtree(fs.entries, p), 0
  {
    ghost var e0 := fs.entries;
    var names := SortedNames(Children(fs.entries, p));
    ghost var done: seq<Name> := [];
    for i := 0 to |names|
      invariant fs.Valid()
      invariant done == names[..i]
      invariant PrunedFor(e0, p, done, fs.entries)
    {
      var n := names[i];
      assert n !in done by {
        forall j | 0 <= j < i ensures names[j] != n {
          BelowIrreflexive(n);
        }
      }
      assert Subtree(fs.entries, p + [n]) < Subtree(e0, p) by {
        SubtreeShrinks(e0, p, n);
      }
      PruneEntry(fs, p, n, e0, done);
      done := done + [n];
    }
    assert done == names;
    PruneFinish(e0, p, done, fs.entries);
  }

  /** One turn of the loop in remove_empty_dirs(p), for the entry n of p
      that the loop has not visited yet: a subdirectory is pruned and then
      removed if that left it empty; anything else is left alone. */
  method PruneEntry(fs: FileSystem, p: Path, n: Name, ghost e0: Entries, ghost done: seq<Name>)
    requires fs.Valid() && WellFormed(e0) && p + [n] in e0
    requires PrunedFor(e0, p, done, fs.entries) && n !in done
    modifies fs
    ensures fs.Valid()
    ensures PrunedFor(e0, p, done + [n], fs.entries)
    decreases Subtree(fs.entries, p + [n]), 1
  {
    var c := p + [n];
    if fs.IsDirectory(c) {
      ghost var e1 := fs.entries;
      RemoveEmptyDirs(fs, c);
      PruneChildStep(e0, p, done, n, e1, fs.entries);
      if Children(fs.entries, c) == {} {
        fs.RmDir(c);
      }
    } else {
      PruneFileStep(e0, p, done, n, fs.entries);
    }
  }
}
