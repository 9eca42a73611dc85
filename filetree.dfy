/**
  The filesystem the organizer works on. A path is the sequence of its
  name components below the root (the root itself is []); the state maps
  every existing path to what is there: a regular file with its bytes, or
  a directory. The os and shutil primitives the organizer calls are the
  methods of class FileSystem.
 */
module FileTree {

  type Name = string
  type Path = seq<Name>
  type Bytes = seq<bv8>

  datatype Entry = File(data: Bytes) | Dir

  type Entries = map<Path, Entry>

  function Parent(p: Path): Path
    requires p != []
  {
    p[..|p| - 1]
  }

  function Last(p: Path): Name
    requires p != []
  {
    p[|p| - 1]
  }

  /** q lies strictly below p. */
  predicate StrictlyUnder(p: Path, q: Path)
  {
    |p| < |q| && q[..|p|] == p
  }

  lemma PrefixTrans(p: Path, q: Path, f: Path)
    requires |p| <= |q| <= |f| && q[..|p|] == p && f[..|q|] == q
    ensures f[..|p|] == p
  {
    assert f[..|p|] == f[..|q|][..|p|];
  }

  predicate IsDir(e: Entries, p: Path)
  {
    p in e && e[p].Dir?
  }

  predicate IsFile(e: Entries, p: Path)
  {
    p in e && e[p].File?
  }

  /** A well-formed tree: the root is a directory and the parent of every
      other path that exists is an existing directory. */
  ghost predicate WellFormed(e: Entries)
  {
    && IsDir(e, [])
    && forall p {:trigger IsDir(e, Parent(p))} :: p in e && p != [] ==> IsDir(e, Parent(p))
  }

  /** Every prefix of an existing path is an existing directory. */
  lemma {:induction false} AncestorsAreDirs(e: Entries, p: Path, k: nat)
    requires WellFormed(e) && p in e && k < |p|
    ensures IsDir(e, p[..k])
    decreases |p| - k
  {
    if k + 1 < |p| {
      AncestorsAreDirs(e, p, k + 1);
      assert Parent(p[..k + 1]) == p[..k];
    } else {
      assert Parent(p) == p[..k];
    }
  }

  /** os.listdir(p), as a set of names. */
  function Children(e: Entries, p: Path): (names: set<Name>)
    ensures forall n :: n in names <==> p + [n] in e
  {
    var names := set q | q in e && |q| == |p| + 1 && q[..|p|] == p :: q[|p|];
    assert forall n :: p + [n] in e ==> (p + [n])[..|p|] == p && n in names;
    forall n | n in names ensures p + [n] in e {
      var q :| q in e && |q| == |p| + 1 && q[..|p|] == p && q[|p|] == n;
      assert q == q[..|p|] + [q[|p|]];
    }
    names
  }

  /** Everything that exists at or below p. */
  function Subtree(e: Entries, p: Path): set<Path>
  {
    set q | q in e && |p| <= |q| && q[..|p|] == p
  }

  lemma SubtreeShrinks(e: Entries, p: Path, n: Name)
    requires p in e
    ensures Subtree(e, p + [n]) < Subtree(e, p)
  {
    assert p in Subtree(e, p) - Subtree(e, p + [n]);
    forall q | q in Subtree(e, p + [n]) ensures q in Subtree(e, p) {
      assert q[..|p|] == (p + [n])[..|p|];
    }
  }

  /** Some regular file lies strictly below p. */
  ghost predicate HasFileBelow(e: Entries, p: Path)
  {
    exists q :: IsFile(e, q) && StrictlyUnder(p, q)
  }

  /** The directories os.makedirs(p) creates: the prefixes of p, p itself
      included, that do not exist yet. */
  function WithDirs(e: Entries, p: Path): Entries
  {
    e + map k | 0 <= k <= |p| && p[..k] !in e :: p[..k] := Dir
  }

  /** os.makedirs(p) succeeds when no prefix of p is a regular file. */
  predicate DirsCreatable(e: Entries, p: Path)
  {
    forall k :: 0 <= k <= |p| && p[..k] in e ==> e[p[..k]].Dir?
  }

  /** Creating the missing directories along p keeps the tree well formed,
      makes p a directory, and changes nothing that existed. */
  lemma WithDirsValid(e: Entries, p: Path)
    requires WellFormed(e) && DirsCreatable(e, p)
    ensures WellFormed(WithDirs(e, p)) && IsDir(WithDirs(e, p), p)
    ensures forall q :: q in e ==> q in WithDirs(e, p) && WithDirs(e, p)[q] == e[q]
    ensures forall q :: q in WithDirs(e, p) && q !in e ==> |q| <= |p| && q == p[..|q|]
  {
    var w := WithDirs(e, p);
    assert p[..|p|] == p;
    forall q | q in w && q != [] ensures IsDir(w, Parent(q)) {
      if q !in e {
        var k :| 0 <= k <= |p| && q == p[..k];
        assert Parent(q) == p[..k - 1];
        assert p[..k - 1] in w;
        if p[..k - 1] in e {
          assert w[p[..k - 1]] == e[p[..k - 1]];
        }
      } else {
        assert IsDir(e, Parent(q));
      }
    }
  }

  /** Along an existing directory every prefix is a directory: there is
      nothing for os.makedirs to create and nothing in its way. */
  lemma WithDirsPresent(e: Entries, p: Path)
    requires WellFormed(e) && IsDir(e, p)
    ensures WithDirs(e, p) == e && DirsCreatable(e, p)
  {
    forall k | 0 <= k <= |p| ensures IsDir(e, p[..k]) {
      if k < |p| {
        AncestorsAreDirs(e, p, k);
      } else {
        assert p[..k] == p;
      }
    }
  }

  /** Below an existing directory base, os.makedirs creates nothing
      outside base. */
  lemma WithDirsBelow(e: Entries, base: Path, p: Path)
    requires WellFormed(e) && IsDir(e, base) && |base| <= |p| && p[..|base|] == base
    ensures forall q :: q in WithDirs(e, p) && q !in e ==> StrictlyUnder(base, q)
  {
    forall q | q in WithDirs(e, p) && q !in e ensures StrictlyUnder(base, q) {
      var k :| 0 <= k <= |p| && p[..k] !in e && q == p[..k];
      if k <= |base| {
        assert p[..k] == base[..k];
        if k < |base| {
          AncestorsAreDirs(e, base, k);
        }
      }
      PrefixTrans(base, p[..k], p);
    }
  }

  /** os.makedirs raises only where something other than a directory is in
      the way, so a path it cannot create is not an existing directory. */
  lemma NotCreatableNotDir(e: Entries, p: Path)
    requires WellFormed(e) && !DirsCreatable(e, p)
    ensures !IsDir(e, p)
  {
    if IsDir(e, p) {
      WithDirsPresent(e, p);
    }
  }

  /** The filesystem the organizer mutates. */
  class FileSystem {
    var entries: Entries

    ghost predicate Valid()
      reads this
    {
      WellFormed(entries)
    }

    constructor (e: Entries)
      requires WellFormed(e)
      ensures Valid() && entries == e
    {
      entries := e;
    }

    /** os.path.exists */
    function Exists(p: Path): bool
      reads this
    {
      p in entries
    }

    /** os.path.isdir */
    function IsDirectory(p: Path): bool
      reads this
    {
      IsDir(entries, p)
    }

    /** os.stat(p).st_size of a regular file. */
    function Size(p: Path): nat
      reads this
      requires IsFile(entries, p)
    {
      |entries[p].data|
    }

    /** os.remove(p): the organizer only removes regular files it has just
        seen, so the call never raises. */
    method Remove(p: Path)
      requires Valid() && IsFile(entries, p)
      modifies this
      ensures Valid()
      ensures entries == old(entries) - {p}
    {
      entries := entries - {p};
      forall q | q in entries && q != [] ensures IsDir(entries, Parent(q)) {
        // the parent was a directory, so it is not the file p
        assert IsDir(old(entries), Parent(q));
      }
    }

    /** os.rmdir(p) on a directory that has no entries left. */
    method RmDir(p: Path)
      requires Valid() && p != [] && IsDir(entries, p) && Children(entries, p) == {}
      modifies this
      ensures Valid()
      ensures entries == old(entries) - {p}
    {
      entries := entries - {p};
      forall q | q in entries && q != [] ensures IsDir(entries, Parent(q)) {
        // q is listed in its parent, so its parent is not the empty p
        assert IsDir(old(entries), Parent(q));
        assert q == Parent(q) + [Last(q)];
        assert Last(q) in Children(old(entries), Parent(q));
      }
    }

    /** os.makedirs(p), called only when p does not exist; it raises (and
        creates nothing) when some prefix of p is a regular file. */
    method MakeDirs(p: Path) returns (ok: bool)
      requires Valid() && p !in entries
      modifies this
      ensures Valid()
      ensures ok == DirsCreatable(old(entries), p)
      ensures entries == if ok then WithDirs(old(entries), p) else old(entries)
    {
      ok := DirsCreatable(entries, p);
      if ok {
        WithDirsValid(entries, p);
        entries := WithDirs(entries, p);
      }
    }

    /** os.rename(src, dst) with POSIX semantics: dst is replaced when it is
        a regular file; the call raises when dst is a directory or when the
        parent of dst is not a directory. */
    method Rename(src: Path, dst: Path) returns (ok: bool)
      requires Valid() && IsFile(entries, src) && dst != []
      modifies this
      ensures Valid()
      ensures ok == (IsDir(old(entries), Parent(dst)) && !IsDir(old(entries), dst))
      ensures entries == if ok then (old(entries) - {src})[dst := old(entries)[src]] else old(entries)
    {
      ok := IsDir(entries, Parent(dst)) && !IsDir(entries, dst);
      if ok {
        var e := entries;
        entries := (entries - {src})[dst := entries[src]];
        forall q | q in entries && q != [] ensures IsDir(entries, Parent(q)) {
          if q != dst {
            assert IsDir(e, Parent(q));
            assert Parent(q) != src;
          }
        }
      }
    }

    /** Where shutil.copy2(src, dst) writes: into dst when dst is a
        directory, to dst otherwise. */
    function CopyTarget(src: Path, dst: Path): Path
      reads this
      requires src != []
    {
      if IsDir(entries, dst) then dst + [Last(src)] else dst
    }

    /** shutil.copy2(src, dst): the target file is created or replaced with
        the bytes of src; the call raises when the target is a directory,
        when its parent is not a directory, or when it is src itself. */
    method Copy(src: Path, dst: Path) returns (ok: bool, target: Path)
      requires Valid() && IsFile(entries, src) && dst != []
      modifies this
      ensures Valid()
      ensures target == old(CopyTarget(src, dst))
      ensures ok == (IsDir(old(entries), Parent(target)) && !IsDir(old(entries), target) && target != src)
      ensures entries == if ok then old(entries)[target := old(entries)[src]] else old(entries)
    {
      target := CopyTarget(src, dst);
      ok := IsDir(entries, Parent(target)) && !IsDir(entries, target) && target != src;
      if ok {
        var e := entries;
        entries := entries[target := entries[src]];
        forall q | q in entries && q != [] ensures IsDir(entries, Parent(q)) {
          if q != target {
            assert IsDir(e, Parent(q));
            assert Parent(q) != target;
          }
        }
      }
    }
  }
}
