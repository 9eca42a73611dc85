/**
  The program's main loop: every file get_files(src) lists goes through
  the per-file body in order, the first os call that raises stops the
  run, and in move mode the directories left empty below src are removed
  at the end.
 */
module MainLoop {
  import opened Options
  import opened FileTree
  import opened Ordering
  import opened Classifier
  import opened Dates
  import opened Traversal
  import opened Placement
  import opened Organizer
  import opened Outcomes

  /** Neither path lies at or below the other. */
  predicate Apart(a: Path, b: Path)
  {
    !(|a| <= |b| && b[..|a|] == a) && !(|b| <= |a| && a[..|b|] == b)
  }

  /** Two trees with a common path below them are not apart. */
  lemma ApartUnder(a: Path, b: Path, q: Path)
    requires StrictlyUnder(a, q)
    ensures StrictlyUnder(b, q) ==> !Apart(a, b)
  {
    if StrictlyUnder(b, q) {
      if |a| <= |b| {
        PrefixTrans(a, q[..|b|], q);
        assert b[..|a|] == q[..|a|];
      } else {
        assert a[..|b|] == q[..|b|];
      }
    }
  }

  /** Why a file can be left in src after a completed move run: it is not
      a media file, or it is one whose DateTime tag does not parse. */
  ghost predicate LeftInSource(f: Path, lib: Library, tagsOf: Path -> map<string, string>, mtimeOf: Path -> DateTime)
    requires f != []
  {
    || Classify(Last(f)) == Ignored
    || (Classify(Last(f)) == Media && FileDate(tagsOf(f), lib.parse, mtimeOf(f)).None?)
  }

  /** One turn of the loop seen from outside dest: the file f is the only
      path that can change there; in copy mode it stays as it was, in move
      mode it stays only when it is left in the source. */
  lemma StepOutsideDest(e: Entries, f: Path, cfg: Config, lib: Library, tags: map<string, string>, mtime: DateTime)
    requires WellFormed(e) && IsFile(e, f) && IsDir(e, cfg.dest)
    ensures var o := Decide(e, f, cfg, lib, tags, mtime);
      var e2 := Effect(e, f, cfg.copyOnly, o);
      && (forall q :: q != f && !StrictlyUnder(cfg.dest, q) ==> (q in e2 <==> q in e) && (q in e ==> e2[q] == e[q]))
      && (f in e2 ==> e2[f] == e[f])
      && (cfg.copyOnly ==> f in e2)
      && (!cfg.copyOnly && f in e2 && o != Failed ==>
            || Classify(Last(f)) == Ignored
            || (Classify(Last(f)) == Media && FileDate(tags, lib.parse, mtime).None?))
  {
    WritesOnlyBelowDest(e, f, cfg, lib, tags, mtime);
    if cfg.copyOnly {
      CopyKeepsEverything(e, f, cfg, lib, tags, mtime);
    } else {
      MoveRemovesSource(e, f, cfg, lib, tags, mtime);
      ClassificationOutcome(e, f, cfg, lib, tags, mtime);
      UndatedOutcome(e, f, cfg, lib, tags, mtime);
    }
  }

  /** One turn of the main loop: the file f, a regular file of e, gets the
      outcome Decide gives it and leaves the tree as Effect says. */
  ghost predicate Step(e: Entries, f: Path, cfg: Config, lib: Library, tags: map<string, string>, mtime: DateTime,
                       o: Outcome, e2: Entries)
  {
    && IsFile(e, f) && f != []
    && o == Decide(e, f, cfg, lib, tags, mtime)
    && (o.Transferred? ==> o.target != [])
    && e2 == Effect(e, f, cfg.copyOnly, o)
  }

  /** The first |outcomes| listed files went through the loop body in
      order: states[k] is the tree before files[k] and states[k + 1] the
      tree after it. */
  ghost predicate Run(files: seq<Path>, cfg: Config, lib: Library,
                      tagsOf: Path -> map<string, string>, mtimeOf: Path -> DateTime,
                      outcomes: seq<Outcome>, states: seq<Entries>)
  {
    && |outcomes| <= |files|
    && |states| == |outcomes| + 1
    && forall k :: 0 <= k < |outcomes| ==>
         Step(states[k], files[k], cfg, lib, tagsOf(files[k]), mtimeOf(files[k]), outcomes[k], states[k + 1])
  }

  /** A run grows by one turn. */
  lemma RunExtend(files: seq<Path>, cfg: Config, lib: Library,
                  tagsOf: Path -> map<string, string>, mtimeOf: Path -> DateTime,
                  outcomes: seq<Outcome>, states: seq<Entries>, o: Outcome, e2: Entries)
    requires Run(files, cfg, lib, tagsOf, mtimeOf, outcomes, states) && |outcomes| < |files|
    requires var i := |outcomes|;
      Step(states[i], files[i], cfg, lib, tagsOf(files[i]), mtimeOf(files[i]), o, e2)
    ensures Run(files, cfg, lib, tagsOf, mtimeOf, outcomes + [o], states + [e2])
    ensures (states + [e2])[0] == states[0] && (states + [e2])[|outcomes| + 1] == e2
  {
    var outs, sts := outcomes + [o], states + [e2];
    forall k | 0 <= k < |outs|
      ensures Step(sts[k], files[k], cfg, lib, tagsOf(files[k]), mtimeOf(files[k]), outs[k], sts[k + 1])
    {
      if k < |outcomes| {
        assert outs[k] == outcomes[k] && sts[k] == states[k] && sts[k + 1] == states[k + 1];
      }
    }
  }

  /** What one turn puts into dest: a transferred file lands in the
      folder of its date, under a name that is still media, and its target
      then holds the file's bytes. */
  lemma StepTransfers(e: Entries, f: Path, cfg: Config, lib: Library, tags: map<string, string>, mtime: DateTime,
                      o: Outcome, e2: Entries)
    requires Step(e, f, cfg, lib, tags, mtime, o, e2) && o.Transferred?
    ensures FileDate(tags, lib.parse, mtime).Some?
    ensures StrictlyUnder(TargetDir(cfg.dest, FileDate(tags, lib.parse, mtime).value), o.target)
    ensures Classify(Last(o.target)) == Media
    ensures o.target in e2 && e2[o.target] == e[f]
  {
    TransferEffect(e, f, cfg, lib, tags, mtime);
    TransferredStaysMedia(e, f, cfg, lib, tags, mtime);
  }

  /** What reaches dest in a run: every transferred file, in the folder of
      its date, with its bytes. */
  lemma RunTransfers(files: seq<Path>, cfg: Config, lib: Library,
                     tagsOf: Path -> map<string, string>, mtimeOf: Path -> DateTime,
                     outcomes: seq<Outcome>, states: seq<Entries>)
    requires Run(files, cfg, lib, tagsOf, mtimeOf, outcomes, states)
    ensures forall k :: 0 <= k < |outcomes| && outcomes[k].Transferred? ==>
      && FileDate(tagsOf(files[k]), lib.parse, mtimeOf(files[k])).Some?
      && StrictlyUnder(TargetDir(cfg.dest, FileDate(tagsOf(files[k]), lib.parse, mtimeOf(files[k])).value), outcomes[k].target)
      && Classify(Last(outcomes[k].target)) == Media
      && outcomes[k].target in states[k + 1] && states[k + 1][outcomes[k].target] == states[k][files[k]]
  {
    forall k | 0 <= k < |outcomes| && outcomes[k].Transferred?
      ensures && FileDate(tagsOf(files[k]), lib.parse, mtimeOf(files[k])).Some?
              && StrictlyUnder(TargetDir(cfg.dest, FileDate(tagsOf(files[k]), lib.parse, mtimeOf(files[k])).value), outcomes[k].target)
              && Classify(Last(outcomes[k].target)) == Media
              && outcomes[k].target in states[k + 1] && states[k + 1][outcomes[k].target] == states[k][files[k]]
    {
      StepTransfers(states[k], files[k], cfg, lib, tagsOf(files[k]), mtimeOf(files[k]), outcomes[k], states[k + 1]);
    }
  }

  /** The loop body as the main loop sees it: ProcessFile, with what it
      does outside dest. */
  method ProcessListed(fs: FileSystem, f: Path, cfg: Config, lib: Library, tags: map<string, string>, mtime: DateTime)
      returns (o: Outcome)
    requires fs.Valid() && IsFile(fs.entries, f) && IsDir(fs.entries, cfg.dest)
    modifies fs
    ensures fs.Valid() && f != []
    ensures Step(old(fs.entries), f, cfg, lib, tags, mtime, o, fs.entries)
    ensures forall q :: q != f && !StrictlyUnder(cfg.dest, q) ==>
      (q in fs.entries <==> q in old(fs.entries)) && (q in fs.entries ==> fs.entries[q] == old(fs.entries)[q])
    ensures f in fs.entries ==> fs.entries[f] == old(fs.entries)[f]
    ensures cfg.copyOnly ==> f in fs.entries
    ensures !cfg.copyOnly && f in fs.entries && o != Failed ==>
      || Classify(Last(f)) == Ignored
      || (Classify(Last(f)) == Media && FileDate(tags, lib.parse, mtime).None?)
  {
    StepOutsideDest(fs.entries, f, cfg, lib, tags, mtime);
    o := ProcessFile(fs, f, cfg, lib, tags, mtime);
  }

  /** After a completed move run and the pruning of src, a regular file
      below src is one that was there before, unchanged, and left there
      for a reason. */
  lemma MoveRunLeaves(e0: Entries, e1: Entries, e2: Entries, src: Path, dest: Path, files: seq<Path>,
                      lib: Library, tagsOf: Path -> map<string, string>, mtimeOf: Path -> DateTime)
    requires Apart(src, dest)
    requires forall q :: q in files <==> IsFile(e0, q) && StrictlyUnder(src, q)
    requires forall q :: !StrictlyUnder(dest, q) && q in e1 ==> q in e0 && e1[q] == e0[q]
    requires forall j :: 0 <= j < |files| && files[j] in e1 ==> files[j] != [] && LeftInSource(files[j], lib, tagsOf, mtimeOf)
    requires PrunedBelow(e1, src, e2)
    ensures forall q :: IsFile(e2, q) && StrictlyUnder(src, q) ==>
      IsFile(e0, q) && e2[q] == e0[q] && LeftInSource(q, lib, tagsOf, mtimeOf)
  {
    forall q | IsFile(e2, q) && StrictlyUnder(src, q)
      ensures IsFile(e0, q) && e2[q] == e0[q] && LeftInSource(q, lib, tagsOf, mtimeOf)
    {
      ApartUnder(src, dest, q);
      assert q in e1 && e1[q] == e2[q];
      assert q in files;
      var j :| 0 <= j < |files| && files[j] == q;
    }
  }

  /** Outside dest, the first n listed files are the only paths that may
      have gone since e0, in move mode only, and nothing else has changed. */
  ghost predicate Frame(e0: Entries, e: Entries, files: seq<Path>, n: nat, cfg: Config)
    requires n <= |files|
  {
    && (forall q :: !StrictlyUnder(cfg.dest, q) && q in e ==> q in e0 && e[q] == e0[q])
    && (forall q :: !StrictlyUnder(cfg.dest, q) && q in e0 && q !in e ==> !cfg.copyOnly && q in files[..n])
  }

  /** Each of the first n listed files still in e was left there for a
      reason. */
  ghost predicate LeftSoFar(e: Entries, files: seq<Path>, n: nat, lib: Library,
                            tagsOf: Path -> map<string, string>, mtimeOf: Path -> DateTime)
    requires n <= |files|
  {
    forall j :: 0 <= j < n && files[j] in e && files[j] != [] ==> LeftInSource(files[j], lib, tagsOf, mtimeOf)
  }

  /** One turn of the loop, on files[i], keeps Frame, and LeftSoFar in move
      mode unless the turn failed. */
  lemma TurnKeeps(e0: Entries, before: Entries, after: Entries, files: seq<Path>, i: nat, cfg: Config, lib: Library,
                  tagsOf: Path -> map<string, string>, mtimeOf: Path -> DateTime, o: Outcome)
    requires i < |files| && files[i] != []
    requires forall j :: 0 <= j < i ==> files[j] != files[i] && !StrictlyUnder(cfg.dest, files[j])
    requires Frame(e0, before, files, i, cfg) && (!cfg.copyOnly ==> LeftSoFar(before, files, i, lib, tagsOf, mtimeOf))
    requires files[i] in before
    requires forall q :: q != files[i] && !StrictlyUnder(cfg.dest, q) ==>
      (q in after <==> q in before) && (q in after ==> after[q] == before[q])
    requires files[i] in after ==> after[files[i]] == before[files[i]]
    requires cfg.copyOnly ==> files[i] in after
    requires !cfg.copyOnly && files[i] in after && o != Failed ==> LeftInSource(files[i], lib, tagsOf, mtimeOf)
    ensures Frame(e0, after, files, i + 1, cfg)
    ensures !cfg.copyOnly && o != Failed ==> LeftSoFar(after, files, i + 1, lib, tagsOf, mtimeOf)
  {
    var f := files[i];
    forall q | !StrictlyUnder(cfg.dest, q) && q in e0 && q !in after
      ensures !cfg.copyOnly && q in files[..i + 1]
    {
      if q != f {
        assert q in files[..i];
        assert files[..i] <= files[..i + 1];
      } else {
        assert files[..i + 1][i] == f;
      }
    }
    if !cfg.copyOnly && o != Failed {
      forall j | 0 <= j < i + 1 && files[j] in after && files[j] != []
        ensures LeftInSource(files[j], lib, tagsOf, mtimeOf)
      {
        if j < i {
          assert files[j] != f && files[j] in before;
        }
      }
    }
  }

  /** The loop over the listed files, in order, stopping at the first that
      fails: each outcome is the one Decide gives the file in the tree its
      predecessors left (states). Outside dest only the listed files
      change, each as ProcessListed allows. */
  method ProcessFiles(fs: FileSystem, files: seq<Path>, cfg: Config, lib: Library,
                      tagsOf: Path -> map<string, string>, mtimeOf: Path -> DateTime)
      returns (outcomes: seq<Outcome>, ghost states: seq<Entries>)
    requires fs.Valid() && IsDir(fs.entries, cfg.dest)
    requires forall j :: 0 <= j < |files| ==> files[j] != [] && IsFile(fs.entries, files[j]) && !StrictlyUnder(cfg.dest, files[j])
    requires forall j, k :: 0 <= j < k < |files| ==> files[j] != files[k]
    modifies fs
    ensures fs.Valid()
    ensures Run(files, cfg, lib, tagsOf, mtimeOf, outcomes, states)
    ensures states[0] == old(fs.entries) && states[|outcomes|] == fs.entries
    ensures forall i :: 0 <= i < |outcomes| - 1 ==> outcomes[i] != Failed
    ensures Failed !in outcomes ==> |outcomes| == |files|
    ensures forall q :: !StrictlyUnder(cfg.dest, q) && q in fs.entries ==>
      q in old(fs.entries) && fs.entries[q] == old(fs.entries)[q]
    ensures forall q :: !StrictlyUnder(cfg.dest, q) && q in old(fs.entries) && q !in fs.entries ==>
      !cfg.copyOnly && q in files
    ensures !cfg.copyOnly && Failed !in outcomes ==>
      forall j :: 0 <= j < |files| && files[j] in fs.entries ==> LeftInSource(files[j], lib, tagsOf, mtimeOf)
  {
    ghost var e0 := fs.entries;
    outcomes := [];
    states := [e0];
    for i := 0 to |files|
      invariant fs.Valid() && IsDir(fs.entries, cfg.dest)
      invariant |outcomes| == i && Failed !in outcomes
      invariant Run(files, cfg, lib, tagsOf, mtimeOf, outcomes, states)
      invariant states[0] == e0 && states[i] == fs.entries
      invariant Frame(e0, fs.entries, files, i, cfg)
      invariant !cfg.copyOnly ==> LeftSoFar(fs.entries, files, i, lib, tagsOf, mtimeOf)
    {
      var f := files[i];
      assert f !in files[..i];
      ghost var before := fs.entries;
      var o := ProcessListed(fs, f, cfg, lib, tagsOf(f), mtimeOf(f));
      TurnKeeps(e0, before, fs.entries, files, i, cfg, lib, tagsOf, mtimeOf, o);
      RunExtend(files, cfg, lib, tagsOf, mtimeOf, outcomes, states, o, fs.entries);
      outcomes := outcomes + [o];
      states := states + [fs.entries];
      if o == Failed {
        assert files[..i + 1] <= files;
        return;
      }
    }
    assert files[..|files|] == files;
  }

  /** The main loop over get_files(src), the files being listed before
      the first is processed; tagsOf and mtimeOf give each file's EXIF tags
      and modification time. The outcomes are those Decide gives the files
      in order, up to and including a Failed one; states are the trees
      between the turns, and a completed move run then prunes the last. */
  method Organize(fs: FileSystem, src: Path, cfg: Config, lib: Library,
                  tagsOf: Path -> map<string, string>, mtimeOf: Path -> DateTime)
      returns (outcomes: seq<Outcome>, ghost states: seq<Entries>)
    requires fs.Valid() && IsDir(fs.entries, src) && IsDir(fs.entries, cfg.dest) && Apart(src, cfg.dest)
    modifies fs
    ensures fs.Valid()
    ensures |outcomes| <= |GetFiles(old(fs.entries), src)|
    ensures forall i :: 0 <= i < |outcomes| - 1 ==> outcomes[i] != Failed
    ensures Failed !in outcomes ==> |outcomes| == |GetFiles(old(fs.entries), src)|
    // each listed file, in order, gets Decide's outcome and Effect's tree
    ensures Run(GetFiles(old(fs.entries), src), cfg, lib, tagsOf, mtimeOf, outcomes, states)
    ensures states[0] == old(fs.entries)
    ensures cfg.copyOnly || Failed in outcomes ==> fs.entries == states[|outcomes|]
    ensures !cfg.copyOnly && Failed !in outcomes ==> PrunedBelow(states[|outcomes|], src, fs.entries)
    // outside src and dest nothing changes
    ensures forall q :: !StrictlyUnder(src, q) && !StrictlyUnder(cfg.dest, q) ==>
      (q in fs.entries <==> q in old(fs.entries)) && (q in fs.entries ==> fs.entries[q] == old(fs.entries)[q])
    // a copy run leaves src as it was
    ensures cfg.copyOnly ==> forall q :: StrictlyUnder(src, q) ==>
      (q in fs.entries <==> q in old(fs.entries)) && (q in fs.entries ==> fs.entries[q] == old(fs.entries)[q])
    // a move run keeps in src only files it had to leave there, and no empty directory
    ensures !cfg.copyOnly && Failed !in outcomes ==>
      && (forall q :: IsFile(fs.entries, q) && StrictlyUnder(src, q) ==>
            IsFile(old(fs.entries), q) && fs.entries[q] == old(fs.entries)[q] && LeftInSource(q, lib, tagsOf, mtimeOf))
      && (forall q :: StrictlyUnder(src, q) && IsDir(fs.entries, q) ==> Children(fs.entries, q) != {})
  {
    ghost var e0 := fs.entries;
    var files := GetFiles(fs.entries, src);
    GetFilesSpec(e0, src);
    forall j | 0 <= j < |files| ensures IsFile(e0, files[j]) && StrictlyUnder(src, files[j]) && !StrictlyUnder(cfg.dest, files[j]) {
      assert files[j] in files;
      ApartUnder(src, cfg.dest, files[j]);
    }
    forall j, k | 0 <= j < k < |files| ensures files[j] != files[k] {
      PathBeforeIrreflexive(files[j]);
    }
    outcomes, states := ProcessFiles(fs, files, cfg, lib, tagsOf, mtimeOf);
    forall q | StrictlyUnder(src, q) ensures !StrictlyUnder(cfg.dest, q) {
      ApartUnder(src, cfg.dest, q);
    }
    if !cfg.copyOnly && Failed !in outcomes {
      ghost var e1 := fs.entries;
      RemoveEmptyDirs(fs, src);
      NoEmptyDirLeft(e1, src, fs.entries);
      MoveRunLeaves(e0, e1, fs.entries, src, cfg.dest, files, lib, tagsOf, mtimeOf);
    }
  }
}
