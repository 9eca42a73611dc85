/**
  What one turn of the organizer's loop does to the filesystem, stated
  over Decide and Effect for every input: which files are left alone,
  which are deleted, where the others go, and what is never touched.
 */
module Outcomes {
  import opened Options
  import opened Text
  import opened FileTree
  import opened Classifier
  import opened Dates
  import opened Placement
  import opened Organizer

  /** A file whose extension is not a media extension is either junk or
      ignored. Ignored files are never touched, and junk files are deleted
      in move mode only. */
  lemma ClassificationOutcome(e: Entries, f: Path, cfg: Config, lib: Library, tags: map<string, string>, mtime: DateTime)
    requires IsFile(e, f) && f != []
    ensures var o := Decide(e, f, cfg, lib, tags, mtime);
      && (o == NotMedia <==> Classify(Last(f)) == Ignored)
      && (o == JunkFile <==> Classify(Last(f)) == Junk)
      && (o == NotMedia ==> Effect(e, f, cfg.copyOnly, o) == e)
      && (o == JunkFile ==> Effect(e, f, cfg.copyOnly, o) == if cfg.copyOnly then e else e - {f})
  {
  }

  /** A media file is skipped, with nothing changed, exactly when its
      DateTime tag is present and does not parse: the mtime is then not
      used. */
  lemma UndatedOutcome(e: Entries, f: Path, cfg: Config, lib: Library, tags: map<string, string>, mtime: DateTime)
    requires IsFile(e, f) && f != []
    ensures var o := Decide(e, f, cfg, lib, tags, mtime);
      && (o == NoDate <==> Classify(Last(f)) == Media && DateTimeTag in tags && lib.parse(tags[DateTimeTag]).None?)
      && (o == NoDate ==> Effect(e, f, cfg.copyOnly, o) == e)
  {
  }

  /** A file counts as a duplicate only of a regular file at its target
      with the same size and hash; nothing is written, and the file itself
      is deleted in move mode only. */
  lemma DuplicateOutcome(e: Entries, f: Path, cfg: Config, lib: Library, tags: map<string, string>, mtime: DateTime)
    requires IsFile(e, f) && f != []
    ensures var o := Decide(e, f, cfg, lib, tags, mtime);
      o.Duplicate? ==>
        && Classify(Last(f)) == Media && FileDate(tags, lib.parse, mtime).Some?
        && o.existing == TargetPath(cfg.dest, FileDate(tags, lib.parse, mtime).value, Last(f))
        && IsFile(e, o.existing)
        && |e[o.existing].data| == |e[f].data| && lib.md5(e[o.existing].data) == lib.md5(e[f].data)
        && Effect(e, f, cfg.copyOnly, o) == if cfg.copyOnly then e else e - {f}
  {
    var o := Decide(e, f, cfg, lib, tags, mtime);
    DecidePlaces(e, f, cfg, lib, tags, mtime);
    if o.Duplicate? {
      PlaceDuplicate(e, f, cfg.copyOnly, lib, TargetDir(cfg.dest, FileDate(tags, lib.parse, mtime).value));
    }
  }

  /** Place reports a duplicate only for a regular file of the same size
      and hash at the target. */
  lemma PlaceDuplicate(e: Entries, f: Path, copyOnly: bool, lib: Library, folder: Path)
    requires IsFile(e, f) && f != []
    ensures var o := Place(e, f, copyOnly, lib, folder);
      o.Duplicate? ==>
        && o.existing == folder + [Last(f)] && IsFile(e, o.existing)
        && |e[o.existing].data| == |e[f].data| && lib.md5(e[o.existing].data) == lib.md5(e[f].data)
  {
  }

  /** Only a dated media file is placed; the outcomes that follow
      placement come from Place with the folder of the file's date. */
  lemma DecidePlaces(e: Entries, f: Path, cfg: Config, lib: Library, tags: map<string, string>, mtime: DateTime)
    requires IsFile(e, f) && f != []
    ensures var o := Decide(e, f, cfg, lib, tags, mtime);
      (o.Transferred? || o.Duplicate?) ==>
        && Classify(Last(f)) == Media && FileDate(tags, lib.parse, mtime).Some?
        && o == Place(e, f, cfg.copyOnly, lib, TargetDir(cfg.dest, FileDate(tags, lib.parse, mtime).value))
  {
  }

  /** Place before the suffixes run out: the target is free. */
  lemma PlaceFree(e: Entries, f: Path, copyOnly: bool, lib: Library, folder: Path)
    requires IsFile(e, f) && f != []
    ensures var o := Place(e, f, copyOnly, lib, folder);
      var p := folder + [Last(f)];
      o.Transferred? && !o.exhausted ==>
        && o.target !in e
        && (o.target == p
            || exists k :: 1 <= k < MaxRetries - 1 && o.target == Suffixed(p, k) && p in e
                 && forall j :: 1 <= j < k ==> Suffixed(p, j) in e)
  {
    var o := Place(e, f, copyOnly, lib, folder);
    var p := folder + [Last(f)];
    if o.Transferred? && !o.exhausted && o.target != p {
      var k := FirstFreeSuffix(e, p, 1).value;
      assert o.target == Suffixed(p, k);
    }
  }

  /** Place once the suffixes have run out. */
  lemma PlaceExhausted(e: Entries, f: Path, copyOnly: bool, lib: Library, folder: Path)
    requires IsFile(e, f) && f != []
    ensures var o := Place(e, f, copyOnly, lib, folder);
      var p := folder + [Last(f)];
      o.Transferred? && o.exhausted ==>
        && (forall j :: 1 <= j < MaxRetries - 1 ==> Suffixed(p, j) in e)
        && ((IsFile(e, p) && o.target == p && e[p] != e[f])
            || (copyOnly && IsDir(e, p) && o.target == p + [Last(f)]))
  {
    var o := Place(e, f, copyOnly, lib, folder);
    var p := folder + [Last(f)];
    if o.Transferred? && o.exhausted {
      assert p in e && FirstFreeSuffix(e, p, 1).None?;
    }
  }

  /** Before the suffixes run out nothing is overwritten: the file goes to
      its target when that is free, else to the suffixed name with the
      least k in 1 .. 48 that is free. */
  lemma FreeTargetOutcome(e: Entries, f: Path, cfg: Config, lib: Library, tags: map<string, string>, mtime: DateTime)
    requires IsFile(e, f) && f != []
    ensures var o := Decide(e, f, cfg, lib, tags, mtime);
      o.Transferred? && !o.exhausted ==>
        && FileDate(tags, lib.parse, mtime).Some?
        && var p := TargetPath(cfg.dest, FileDate(tags, lib.parse, mtime).value, Last(f));
        && o.target !in e
        && (o.target == p
            || exists k :: 1 <= k < MaxRetries - 1 && o.target == Suffixed(p, k) && p in e
                 && forall j :: 1 <= j < k ==> Suffixed(p, j) in e)
  {
    DecidePlaces(e, f, cfg, lib, tags, mtime);
    if Decide(e, f, cfg, lib, tags, mtime).Transferred? {
      PlaceFree(e, f, cfg.copyOnly, lib, TargetDir(cfg.dest, FileDate(tags, lib.parse, mtime).value));
    }
  }

  /** When the suffixes 1 .. 48 are all taken the file still goes to its
      original target: a move replaces the different file there, a copy
      replaces it or, when the target is a directory, writes into it. */
  lemma ExhaustedOutcome(e: Entries, f: Path, cfg: Config, lib: Library, tags: map<string, string>, mtime: DateTime)
    requires IsFile(e, f) && f != []
    ensures var o := Decide(e, f, cfg, lib, tags, mtime);
      o.Transferred? && o.exhausted ==>
        && FileDate(tags, lib.parse, mtime).Some?
        && var p := TargetPath(cfg.dest, FileDate(tags, lib.parse, mtime).value, Last(f));
        && (forall j :: 1 <= j < MaxRetries - 1 ==> Suffixed(p, j) in e)
        && ((IsFile(e, p) && o.target == p && e[p] != e[f])
            || (cfg.copyOnly && IsDir(e, p) && o.target == p + [Last(f)]))
  {
    DecidePlaces(e, f, cfg, lib, tags, mtime);
    if Decide(e, f, cfg, lib, tags, mtime).Transferred? {
      PlaceExhausted(e, f, cfg.copyOnly, lib, TargetDir(cfg.dest, FileDate(tags, lib.parse, mtime).value));
    }
  }

  /** A transferred file lands in the folder of its date under a name that
      keeps its extension, so it is still a media file there. */
  lemma TransferredStaysMedia(e: Entries, f: Path, cfg: Config, lib: Library, tags: map<string, string>, mtime: DateTime)
    requires IsFile(e, f) && f != []
    ensures var o := Decide(e, f, cfg, lib, tags, mtime);
      o.Transferred? ==>
        && FileDate(tags, lib.parse, mtime).Some?
        && StrictlyUnder(TargetDir(cfg.dest, FileDate(tags, lib.parse, mtime).value), o.target)
        && Classify(Last(o.target)) == Media
  {
    var o := Decide(e, f, cfg, lib, tags, mtime);
    DecidePlaces(e, f, cfg, lib, tags, mtime);
    if o.Transferred? {
      var folder := TargetDir(cfg.dest, FileDate(tags, lib.parse, mtime).value);
      PlaceKeepsName(e, f, cfg.copyOnly, lib, folder);
      var name := Last(f);
      if Last(o.target) != name {
        var k :| Last(o.target) == SuffixName(name, k);
        SuffixStaysMedia(name, k);
      }
    }
  }

  /** The name Place transfers to is the file's own name or a suffixed
      form of it. */
  lemma PlaceKeepsName(e: Entries, f: Path, copyOnly: bool, lib: Library, folder: Path)
    requires IsFile(e, f) && f != []
    ensures var o := Place(e, f, copyOnly, lib, folder);
      o.Transferred? ==>
        && StrictlyUnder(folder, o.target)
        && (Last(o.target) == Last(f) || exists k :: Last(o.target) == SuffixName(Last(f), k))
  {
    var o := Place(e, f, copyOnly, lib, folder);
    var p := folder + [Last(f)];
    if o.Transferred? && o.target != p && o.target != p + [Last(f)] {
      var k := FirstFreeSuffix(e, p, 1).value;
      assert o.target == Suffixed(p, k);
      assert Last(p) == Last(f);
      assert Last(o.target) == SuffixName(Last(f), k);
    }
  }

  /** The "-k" suffix keeps a media file a media file. */
  lemma SuffixStaysMedia(name: Name, k: nat)
    requires Classify(name) == Media
    ensures Classify(SuffixName(name, k)) == Media
  {
    SuffixKeepsExtension(name, k);
  }

  /** The transfer itself: the target receives the file's bytes and is
      not the file; the file stays in copy mode and is gone in move mode;
      every other existing path keeps its entry. */
  lemma TransferEffect(e: Entries, f: Path, cfg: Config, lib: Library, tags: map<string, string>, mtime: DateTime)
    requires IsFile(e, f) && f != []
    ensures var o := Decide(e, f, cfg, lib, tags, mtime);
      var e2 := Effect(e, f, cfg.copyOnly, o);
      o.Transferred? ==>
        && o.target != f && o.target in e2 && e2[o.target] == e[f]
        && (f in e2 <==> cfg.copyOnly)
        && (cfg.copyOnly ==> e2[f] == e[f])
        && forall q :: q in e && q != f && q != o.target ==> q in e2 && e2[q] == e[q]
  {
    var o := Decide(e, f, cfg, lib, tags, mtime);
    DecidePlaces(e, f, cfg, lib, tags, mtime);
    if o.Transferred? {
      PlaceNotOntoSource(e, f, cfg.copyOnly, lib, TargetDir(cfg.dest, FileDate(tags, lib.parse, mtime).value));
      TransferredEntries(e, f, cfg.copyOnly, o.target, o.exhausted);
    }
  }

  /** Place never transfers a file onto itself: a free target is not the
      file, and a taken one that is the file is reported as its own
      duplicate before the suffix search. */
  lemma PlaceNotOntoSource(e: Entries, f: Path, copyOnly: bool, lib: Library, folder: Path)
    requires IsFile(e, f) && f != []
    ensures var o := Place(e, f, copyOnly, lib, folder);
      o.Transferred? ==> o.target != f
  {
    PlaceFree(e, f, copyOnly, lib, folder);
    PlaceExhausted(e, f, copyOnly, lib, folder);
  }

  /** Effect of a transfer to a target other than the file. */
  lemma TransferredEntries(e: Entries, f: Path, copyOnly: bool, t: Path, exhausted: bool)
    requires f in e && t != [] && t != f
    ensures var e2 := Effect(e, f, copyOnly, Transferred(t, exhausted));
      && t in e2 && e2[t] == e[f]
      && (f in e2 <==> copyOnly)
      && (copyOnly ==> e2[f] == e[f])
      && forall q :: q in e && q != f && q != t ==> q in e2 && e2[q] == e[q]
  {
  }

  /** In copy mode nothing disappears, and the only entry whose contents
      change is the target of an exhausted suffix search. */
  lemma CopyKeepsEverything(e: Entries, f: Path, cfg: Config, lib: Library, tags: map<string, string>, mtime: DateTime)
    requires IsFile(e, f) && f != [] && cfg.copyOnly
    ensures var o := Decide(e, f, cfg, lib, tags, mtime);
      var e2 := Effect(e, f, cfg.copyOnly, o);
      && (forall q :: q in e ==> q in e2)
      && e2[f] == e[f]
      && forall q :: q in e && e2[q] != e[q] ==> o.Transferred? && o.exhausted && q == o.target
  {
    TransferEffect(e, f, cfg, lib, tags, mtime);
    FreeTargetOutcome(e, f, cfg, lib, tags, mtime);
  }

  /** In move mode the file leaves its place exactly when it is junk, a
      duplicate or transferred. */
  lemma MoveRemovesSource(e: Entries, f: Path, cfg: Config, lib: Library, tags: map<string, string>, mtime: DateTime)
    requires IsFile(e, f) && f != [] && !cfg.copyOnly
    ensures var o := Decide(e, f, cfg, lib, tags, mtime);
      var e2 := Effect(e, f, cfg.copyOnly, o);
      && (f !in e2 <==> o.JunkFile? || o.Duplicate? || o.Transferred?)
      && (f in e2 ==> e2 == e)
  {
    TransferEffect(e, f, cfg, lib, tags, mtime);
  }

  /** Apart from the file itself, only paths strictly below dest are
      created or changed (dest exists, as the program checks first). */
  lemma WritesOnlyBelowDest(e: Entries, f: Path, cfg: Config, lib: Library, tags: map<string, string>, mtime: DateTime)
    requires WellFormed(e) && IsFile(e, f) && IsDir(e, cfg.dest)
    ensures var o := Decide(e, f, cfg, lib, tags, mtime);
      var e2 := Effect(e, f, cfg.copyOnly, o);
      forall q :: q != f && !StrictlyUnder(cfg.dest, q) ==> (q in e2 <==> q in e) && (q in e ==> e2[q] == e[q])
  {
    EffectBelow(e, f, cfg.copyOnly, cfg.dest, Decide(e, f, cfg, lib, tags, mtime));
  }

  /** Effect of an outcome whose target, if any, is strictly below an
      existing directory base. */
  lemma EffectBelow(e: Entries, f: Path, copyOnly: bool, base: Path, o: Outcome)
    requires WellFormed(e) && f in e && IsDir(e, base)
    requires o.Transferred? ==> StrictlyUnder(base, o.target)
    ensures forall q :: q != f && !StrictlyUnder(base, q) ==>
      (q in Effect(e, f, copyOnly, o) <==> q in e) && (q in e ==> Effect(e, f, copyOnly, o)[q] == e[q])
  {
    if o.Transferred? {
      var t := o.target;
      PrefixTrans(base, Parent(t), t);
      WithDirsBelow(e, base, Parent(t));
    }
  }

  /** A file that already sits where its date puts it is its own
      duplicate: it is left alone in copy mode and deleted in move mode. */
  lemma OwnTargetIsDuplicate(e: Entries, f: Path, cfg: Config, lib: Library, tags: map<string, string>, mtime: DateTime, d: DateTime)
    requires WellFormed(e) && IsFile(e, f)
    requires Classify(Last(f)) == Media && FileDate(tags, lib.parse, mtime) == Some(d)
    requires f == TargetPath(cfg.dest, d, Last(f))
    ensures Decide(e, f, cfg, lib, tags, mtime) == Duplicate(f)
    ensures !cfg.copyOnly ==> Effect(e, f, cfg.copyOnly, Duplicate(f)) == e - {f}
  {
    var folder := TargetDir(cfg.dest, d);
    assert Parent(f) == folder;
    WithDirsPresent(e, folder);
  }

  /** What is at t holds no copy of f as the duplicate test sees it: a
      regular file of another size or hash, or a directory whose st_size
      differs from the file's (at an equal size md5 would raise). */
  ghost predicate NoCopyAt(e: Entries, t: Path, f: Path, lib: Library)
    requires t in e && IsFile(e, f)
  {
    if e[t].File? then |e[t].data| != |e[f].data| || lib.md5(e[t].data) != lib.md5(e[f].data)
    else lib.dirSize(t) != |e[f].data|
  }

  /** A regular file at the target with the size and hash of f makes f a
      duplicate of it. */
  lemma DuplicateWhenSame(e: Entries, f: Path, cfg: Config, lib: Library, tags: map<string, string>, mtime: DateTime, d: DateTime)
    requires WellFormed(e) && IsFile(e, f) && f != []
    requires Classify(Last(f)) == Media && FileDate(tags, lib.parse, mtime) == Some(d)
    requires var t := TargetPath(cfg.dest, d, Last(f));
      IsFile(e, t) && |e[t].data| == |e[f].data| && lib.md5(e[t].data) == lib.md5(e[f].data)
    ensures Decide(e, f, cfg, lib, tags, mtime) == Duplicate(TargetPath(cfg.dest, d, Last(f)))
  {
    var folder := TargetDir(cfg.dest, d);
    assert Parent(TargetPath(cfg.dest, d, Last(f))) == folder;
    WithDirsPresent(e, folder);
  }

  /** A free target in a folder makedirs can create (or that exists) gets
      the file under its own name. */
  lemma FreeTargetTransfers(e: Entries, f: Path, cfg: Config, lib: Library, tags: map<string, string>, mtime: DateTime, d: DateTime)
    requires IsFile(e, f) && f != []
    requires Classify(Last(f)) == Media && FileDate(tags, lib.parse, mtime) == Some(d)
    requires DirsCreatable(e, TargetDir(cfg.dest, d)) && TargetPath(cfg.dest, d, Last(f)) !in e
    ensures Decide(e, f, cfg, lib, tags, mtime) == Transferred(TargetPath(cfg.dest, d, Last(f)), false)
  {
  }

  /** A taken target that holds no copy of f sends f to the suffixed name
      with the least free k in 1 .. 48. */
  lemma SuffixTransfers(e: Entries, f: Path, cfg: Config, lib: Library, tags: map<string, string>, mtime: DateTime, d: DateTime, k: nat)
    requires WellFormed(e) && IsFile(e, f) && f != []
    requires Classify(Last(f)) == Media && FileDate(tags, lib.parse, mtime) == Some(d)
    requires var t := TargetPath(cfg.dest, d, Last(f));
      && t in e && NoCopyAt(e, t, f, lib)
      && 1 <= k < MaxRetries - 1 && Suffixed(t, k) !in e
      && forall j :: 1 <= j < k ==> Suffixed(t, j) in e
    ensures Decide(e, f, cfg, lib, tags, mtime) == Transferred(Suffixed(TargetPath(cfg.dest, d, Last(f)), k), false)
  {
    var folder := TargetDir(cfg.dest, d);
    var t := TargetPath(cfg.dest, d, Last(f));
    assert Parent(t) == folder;
    WithDirsPresent(e, folder);
    assert FirstFreeSuffix(e, t, 1) == Some(k);
  }

  /** When t-1 .. t-48 are all taken and the target holds no copy of f,
      the file still goes to the original target: a regular file there is
      replaced; a directory there takes the file in copy mode, where
      copy2 writes into it; anything else makes the os call raise. */
  lemma ExhaustedTransfers(e: Entries, f: Path, cfg: Config, lib: Library, tags: map<string, string>, mtime: DateTime, d: DateTime)
    requires WellFormed(e) && IsFile(e, f) && f != []
    requires Classify(Last(f)) == Media && FileDate(tags, lib.parse, mtime) == Some(d)
    requires var t := TargetPath(cfg.dest, d, Last(f));
      && t in e && NoCopyAt(e, t, f, lib)
      && forall j :: 1 <= j < MaxRetries - 1 ==> Suffixed(t, j) in e
    ensures var t := TargetPath(cfg.dest, d, Last(f));
      var o := Decide(e, f, cfg, lib, tags, mtime);
      && (IsFile(e, t) ==> o == Transferred(t, true))
      && (IsDir(e, t) && cfg.copyOnly && !IsDir(e, t + [Last(f)]) && t + [Last(f)] != f ==>
            o == Transferred(t + [Last(f)], true))
      && (IsDir(e, t) && !(cfg.copyOnly && !IsDir(e, t + [Last(f)]) && t + [Last(f)] != f) ==> o == Failed)
  {
    var folder := TargetDir(cfg.dest, d);
    var t := TargetPath(cfg.dest, d, Last(f));
    assert Parent(t) == folder;
    WithDirsPresent(e, folder);
    assert FirstFreeSuffix(e, t, 1).None?;
  }

  /** The run stops on a file exactly when it is dated media and either
      makedirs is blocked by a regular file, or a directory at the target
      has the file's size (md5 raises), or the suffixes are all taken with
      a directory at the target that neither rename nor copy2 can use. */
  lemma FailedOutcome(e: Entries, f: Path, cfg: Config, lib: Library, tags: map<string, string>, mtime: DateTime)
    requires IsFile(e, f) && f != []
    ensures Decide(e, f, cfg, lib, tags, mtime) == Failed <==>
      && Classify(Last(f)) == Media && FileDate(tags, lib.parse, mtime).Some?
      && var d := FileDate(tags, lib.parse, mtime).value;
      && var t := TargetPath(cfg.dest, d, Last(f));
      || !DirsCreatable(e, TargetDir(cfg.dest, d))
      || (IsDir(e, t) && lib.dirSize(t) == |e[f].data|)
      || (&& IsDir(e, t)
          && (forall j :: 1 <= j < MaxRetries - 1 ==> Suffixed(t, j) in e)
          && !(cfg.copyOnly && !IsDir(e, t + [Last(f)]) && t + [Last(f)] != f))
  {
    if Classify(Last(f)) == Media && FileDate(tags, lib.parse, mtime).Some? {
      var d := FileDate(tags, lib.parse, mtime).value;
      var t := TargetPath(cfg.dest, d, Last(f));
      if DirsCreatable(e, TargetDir(cfg.dest, d)) && t in e && StatSize(e, t, lib.dirSize) != |e[f].data| {
        if forall j :: 1 <= j < MaxRetries - 1 ==> Suffixed(t, j) in e {
          assert FirstFreeSuffix(e, t, 1).None?;
        }
      }
    }
  }
}
