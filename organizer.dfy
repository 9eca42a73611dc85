/**
  The body of the organizer's main loop for one file: classify it, date
  it, find where it belongs and copy or move it there (or delete it, or
  leave it). Decide says what happens to the file, Effect what the
  filesystem looks like afterwards, and ProcessFile does it step by step
  through the os primitives.
 */
module Organizer {
  import opened Options
  import opened Text
  import opened FileTree
  import opened Classifier
  import opened Dates
  import opened Placement

  /** The command line: the destination root and the --copy-only flag. */
  datatype Config = Config(dest: Path, copyOnly: bool)

  /** The library calls the organizer makes, taken as given: strptime with
      DateTimeFormat (None where it raises ValueError), the md5 hex digest of
      a file's bytes, and the st_size os.stat reports for each directory. */
  datatype Library = Library(parse: string -> Option<DateTime>, md5: Bytes -> string, dirSize: Path -> nat)

  /** What became of one file. Failed stands for an os call that raises:
      the program stops there with a traceback. */
  datatype Outcome =
    | NotMedia
    | JunkFile
    | NoDate
    | Duplicate(existing: Path)
    | Transferred(target: Path, exhausted: bool)
    | Failed

  /** os.stat(p).st_size */
  function StatSize(e: Entries, p: Path, dirSize: Path -> nat): nat
    requires p in e
  {
    if e[p].File? then |e[p].data| else dirSize(p)
  }

  /** What happens to the file f given its EXIF tags and mtime. */
  function Decide(e: Entries, f: Path, cfg: Config, lib: Library, tags: map<string, string>, mtime: DateTime): (r: Outcome)
    requires IsFile(e, f) && f != []
    ensures r.Transferred? ==> StrictlyUnder(cfg.dest, r.target)
  {
    match Classify(Last(f))
    case Ignored => NotMedia
    case Junk => JunkFile
    case Media =>
      match FileDate(tags, lib.parse, mtime)
      case None => NoDate
      case Some(d) =>
        var r := Place(e, f, cfg.copyOnly, lib, TargetDir(cfg.dest, d));
        assert r.Transferred? ==> StrictlyUnder(cfg.dest, r.target) by {
          if r.Transferred? {
            PrefixTrans(cfg.dest, TargetDir(cfg.dest, d), r.target);
          }
        }
        r
  }

  /** The file is media and belongs in folder. */
  function Place(e: Entries, f: Path, copyOnly: bool, lib: Library, folder: Path): (r: Outcome)
    requires IsFile(e, f) && f != []
    ensures r.Transferred? || r.Duplicate? || r.Failed?
    ensures r.Transferred? ==> StrictlyUnder(folder, r.target)
  {
    var t := folder + [Last(f)];
    if !DirsCreatable(e, folder) then Failed
    else if t !in e then Transferred(t, false)
    else Resolve(e, f, copyOnly, lib, t)
  }

  /** The target t is taken: a duplicate of f, a free suffixed name, or,
      once the suffixes run out, t itself. */
  function Resolve(e: Entries, f: Path, copyOnly: bool, lib: Library, t: Path): (r: Outcome)
    requires IsFile(e, f) && f != [] && t in e && t != []
    ensures r.Transferred? || r == Duplicate(t) || r.Failed?
    ensures r.Transferred? ==> |t| <= |r.target| && r.target[..|t| - 1] == Parent(t)
  {
    if StatSize(e, t, lib.dirSize) == |e[f].data| && e[t].Dir? then Failed
    else if StatSize(e, t, lib.dirSize) == |e[f].data| && lib.md5(e[t].data) == lib.md5(e[f].data) then Duplicate(t)
    else Retry(e, f, copyOnly, t)
  }

  /** The suffix search for a taken t that holds no duplicate of f: the
      first free suffixed name, or t itself once the suffixes run out
      (where rename replaces a regular file and copy2 writes into a
      directory). */
  function Retry(e: Entries, f: Path, copyOnly: bool, t: Path): (r: Outcome)
    requires IsFile(e, f) && f != [] && t in e && t != []
    ensures r.Transferred? || r.Failed?
    ensures r.Transferred? ==> |t| <= |r.target| && r.target[..|t| - 1] == Parent(t)
  {
    match FirstFreeSuffix(e, t, 1)
    case Some(k) => Transferred(Suffixed(t, k), false)
    case None =>
      if IsFile(e, t) then Transferred(t, true)
      else if copyOnly && !IsDir(e, t + [Last(f)]) && t + [Last(f)] != f then Transferred(t + [Last(f)], true)
      else Failed
  }

  /** The filesystem after the outcome o for the file f. */
  function Effect(e: Entries, f: Path, copyOnly: bool, o: Outcome): Entries
    requires f in e && (o.Transferred? ==> o.target != [])
  {
    match o
    case JunkFile => if copyOnly then e else e - {f}
    case Duplicate(_) => if copyOnly then e else e - {f}
    case Transferred(t, _) =>
      var w := WithDirs(e, Parent(t));
      if copyOnly then w[t := e[f]] else (w - {f})[t := e[f]]
    case _ => e
  }

  /** The loop body of the organizer for the file f: the extension and
      junk-name tests, then the date. */
  method ProcessFile(fs: FileSystem, f: Path, cfg: Config, lib: Library, tags: map<string, string>, mtime: DateTime)
      returns (outcome: Outcome)
    requires fs.Valid() && IsFile(fs.entries, f)
    modifies fs
    ensures fs.Valid()
    ensures f != [] && outcome == Decide(old(fs.entries), f, cfg, lib, tags, mtime)
    ensures outcome.Transferred? ==> outcome.target != []
    ensures fs.entries == Effect(old(fs.entries), f, cfg.copyOnly, outcome)
  {
    ghost var e := fs.entries;
    var name := Last(f);
    var ext := Lower(SplitExt(name).1);
    if ext !in MediaExtensions {
      if Lower(name) in JunkNames {
        assert Classify(name) == Junk;
        if !cfg.copyOnly {
          fs.Remove(f);
        }
        return JunkFile;
      }
      assert Classify(name) == Ignored;
      return NotMedia;
    }
    assert Classify(name) == Media;
    var date := FileDate(tags, lib.parse, mtime);
    if date.None? {
      return NoDate;
    }
    assert Decide(e, f, cfg, lib, tags, mtime) == Place(e, f, cfg.copyOnly, lib, TargetDir(cfg.dest, date.value));
    outcome := PlaceFile(fs, f, cfg.copyOnly, lib, TargetDir(cfg.dest, date.value));
  }

  /** The rest of the loop body for a dated media file that belongs in
      folder: create the folder, then copy or move the file to its name
      there when that is free. */
  method PlaceFile(fs: FileSystem, f: Path, copyOnly: bool, lib: Library, folder: Path)
      returns (outcome: Outcome)
    requires fs.Valid() && IsFile(fs.entries, f) && f != []
    modifies fs
    ensures fs.Valid()
    ensures outcome == Place(old(fs.entries), f, copyOnly, lib, folder)
    ensures outcome.Transferred? ==> outcome.target != []
    ensures fs.entries == Effect(old(fs.entries), f, copyOnly, outcome)
  {
    ghost var e := fs.entries;
    if !fs.Exists(folder) {
      var ok := fs.MakeDirs(folder);
      if !ok {
        return Failed;
      }
    }
    var destPath := folder + [Last(f)];
    assert Parent(destPath) == folder;
    if folder !in e {
      WithDirsValid(e, folder);
    }
    assert destPath in e ==> IsDir(e, Parent(destPath));
    if fs.Exists(destPath) {
      assert folder in e && fs.entries == e;
      assert IsDir(e, folder);
      WithDirsPresent(e, folder);
      outcome := ResolveTaken(fs, f, copyOnly, lib, destPath);
      return;
    }
    if DirsCreatable(e, folder) {
      if folder in e {
        assert folder[..|folder|] == folder;
        WithDirsPresent(e, folder);
      }
      WithDirsValid(e, folder);
      assert fs.entries == WithDirs(e, folder);
      assert destPath !in e;
    } else {
      // folder is a regular file, so the transfer raises
      assert fs.entries == e && folder in e;
      NotCreatableNotDir(e, folder);
    }
    var ok, target := Transfer(fs, f, destPath, copyOnly);
    if !ok {
      return Failed;
    }
    outcome := Transferred(target, false);
  }

  /** The target t exists: compare sizes and hashes, else search for a
      free suffixed name, and transfer. */
  method ResolveTaken(fs: FileSystem, f: Path, copyOnly: bool, lib: Library, t: Path)
      returns (outcome: Outcome)
    requires fs.Valid() && IsFile(fs.entries, f) && f != []
    requires t != [] && t in fs.entries && IsDir(fs.entries, Parent(t))
    modifies fs
    ensures fs.Valid()
    ensures outcome == Resolve(old(fs.entries), f, copyOnly, lib, t)
    ensures outcome.Transferred? ==> outcome.target != []
    ensures fs.entries == Effect(old(fs.entries), f, copyOnly, outcome)
  {
    ghost var e := fs.entries;
    if fs.Size(f) == StatSize(fs.entries, t, lib.dirSize) {
      if fs.IsDirectory(t) {
        // md5 opens the directory and raises
        return Failed;
      }
      if lib.md5(fs.entries[f].data) == lib.md5(fs.entries[t].data) {
        if !copyOnly {
          fs.Remove(f);
        }
        return Duplicate(t);
      }
    }
    assert copyOnly && IsFile(e, t) ==> t != f;
    outcome := RetryTaken(fs, f, copyOnly, t);
  }

  /** Try t-1, t-2, ... and transfer to the first free one, or to t once
      the retries run out. */
  method RetryTaken(fs: FileSystem, f: Path, copyOnly: bool, t: Path) returns (outcome: Outcome)
    requires fs.Valid() && IsFile(fs.entries, f) && f != []
    requires t != [] && t in fs.entries && IsDir(fs.entries, Parent(t))
    requires copyOnly && IsFile(fs.entries, t) ==> t != f
    modifies fs
    ensures fs.Valid()
    ensures outcome == Retry(old(fs.entries), f, copyOnly, t)
    ensures outcome.Transferred? ==> outcome.target != []
    ensures fs.entries == Effect(old(fs.entries), f, copyOnly, outcome)
  {
    ghost var e := fs.entries;
    var counter, newPath := FindFreeName(fs, t);
    if counter < MaxRetries {
      // newPath is free and sits next to t, so the transfer succeeds
      WithDirsPresent(e, Parent(t));
      assert Parent(newPath) == Parent(t) && newPath !in e;
      assert Retry(e, f, copyOnly, t) == Transferred(newPath, false);
      var ok, target := Transfer(fs, f, newPath, copyOnly);
      assert ok && target == newPath && WithDirs(e, Parent(target)) == e;
      outcome := Transferred(target, false);
    } else {
      outcome := OverwriteTarget(fs, f, copyOnly, t);
    }
  }

  /** The retries ran out: transfer to t itself, which os.rename replaces
      when it is a regular file and shutil.copy2 writes into when it is a
      directory. */
  method OverwriteTarget(fs: FileSystem, f: Path, copyOnly: bool, t: Path) returns (outcome: Outcome)
    requires fs.Valid() && IsFile(fs.entries, f) && f != []
    requires t != [] && t in fs.entries && IsDir(fs.entries, Parent(t))
    requires copyOnly && IsFile(fs.entries, t) ==> t != f
    requires FirstFreeSuffix(fs.entries, t, 1).None?
    modifies fs
    ensures fs.Valid()
    ensures outcome == Retry(old(fs.entries), f, copyOnly, t)
    ensures outcome.Transferred? ==> outcome.target != []
    ensures fs.entries == Effect(old(fs.entries), f, copyOnly, outcome)
  {
    ghost var e := fs.entries;
    WithDirsPresent(e, Parent(t));
    var ok, target := Transfer(fs, f, t, copyOnly);
    if !ok {
      return Failed;
    }
    if target != t {
      WithDirsPresent(e, t);
    }
    assert WithDirs(e, Parent(target)) == e;
    outcome := Transferred(target, true);
  }

  /** shutil.copy2(f, dst) with --copy-only, os.rename(f, dst) without. */
  method Transfer(fs: FileSystem, f: Path, dst: Path, copyOnly: bool) returns (ok: bool, target: Path)
    requires fs.Valid() && IsFile(fs.entries, f) && f != [] && dst != []
    modifies fs
    ensures fs.Valid()
    ensures target == if copyOnly then old(fs.CopyTarget(f, dst)) else dst
    ensures target != [] && Parent(target) == if target == dst then Parent(dst) else dst
    ensures ok == (IsDir(old(fs.entries), Parent(target)) && !IsDir(old(fs.entries), target) && (copyOnly ==> target != f))
    ensures fs.entries == if !ok then old(fs.entries)
      else if copyOnly then old(fs.entries)[target := old(fs.entries)[f]]
      else (old(fs.entries) - {f})[target := old(fs.entries)[f]]
  {
    if copyOnly {
      ok, target := fs.Copy(f, dst);
    } else {
      ok := fs.Rename(f, dst);
      target := dst;
    }
  }
}
