/**
  Where a dated media file goes: the dest/year/MM/DD directory, and the
  "-k" suffixed names tried when a different file already holds the name.
 */
module Placement {
  import opened Options
  import opened Text
  import opened FileTree
  import opened Dates

  /** FILE_DUP_MAX_RETRIES */
  const MaxRetries: nat := 50

  /** os.path.join(dest, str(year), "{0:02}".format(month), "{0:02}".format(day)) */
  function TargetDir(dest: Path, d: DateTime): Path
  {
    dest + [Decimal(d.year), PadTwo(d.month), PadTwo(d.day)]
  }

  /** os.path.join(dest_folder, basename) */
  function TargetPath(dest: Path, d: DateTime, name: Name): Path
  {
    TargetDir(dest, d) + [name]
  }

  /** The target sits three levels below dest, in directories named by the
      year, then the month and the day as exactly two digits each, and keeps
      the file's name. */
  lemma TargetPathNamesDate(dest: Path, d: DateTime, name: Name)
    requires ValidDateTime(d)
    ensures var t := TargetPath(dest, d, name);
      && |t| == |dest| + 4 && t[..|dest|] == dest && t[|dest| + 3] == name
      && IsDigits(t[|dest|]) && DigitsValue(t[|dest|]) == d.year
      && |t[|dest| + 1]| == 2 && DigitsValue(t[|dest| + 1]) == d.month
      && |t[|dest| + 2]| == 2 && DigitsValue(t[|dest| + 2]) == d.day
  {
    DecimalRoundTrip(d.year);
    PadTwoRoundTrip(d.month);
    PadTwoRoundTrip(d.day);
  }

  /** Two dates share a target directory exactly when they fall on the same
      calendar day. */
  lemma TargetDirSameDay(dest: Path, d1: DateTime, d2: DateTime)
    ensures TargetDir(dest, d1) == TargetDir(dest, d2)
        <==> (d1.year, d1.month, d1.day) == (d2.year, d2.month, d2.day)
  {
    if TargetDir(dest, d1) == TargetDir(dest, d2) {
      var t1, t2 := TargetDir(dest, d1), TargetDir(dest, d2);
      assert t1[|dest|] == t2[|dest|] && t1[|dest| + 1] == t2[|dest| + 1] && t1[|dest| + 2] == t2[|dest| + 2];
      DecimalInjective(d1.year, d2.year);
      PadTwoRoundTrip(d1.month);
      PadTwoRoundTrip(d2.month);
      PadTwoRoundTrip(d1.day);
      PadTwoRoundTrip(d2.day);
    }
  }

  /** ("-" + str(k)).join(os.path.splitext(name)) */
  function SuffixName(name: Name, k: nat): Name
  {
    SplitExt(name).0 + "-" + Decimal(k) + SplitExt(name).1
  }

  /** The same with the directory part kept, as the organizer applies it to
      the whole target path. */
  function Suffixed(p: Path, k: nat): Path
    requires p != []
  {
    Parent(p) + [SuffixName(Last(p), k)]
  }

  /** The suffix goes before the extension: the new name has the old
      extension and the old root followed by "-k". */
  lemma SuffixKeepsExtension(name: Name, k: nat)
    ensures SplitExt(SuffixName(name, k)) == (SplitExt(name).0 + "-" + Decimal(k), SplitExt(name).1)
  {
    var (root, ext) := SplitExt(name);
    var mid := "-" + Decimal(k);
    var s := SuffixName(name, k);
    assert s == root + mid + ext;
    assert s[|root|] == '-';
    if ext != [] {
      var d := |root| + |mid|;
      assert s[d] == ext[0];
      forall x | d < x < |s| ensures s[x] != '.' {
        assert s[x] == ext[1..][x - d - 1];
      }
      SplitExtAt(s, d, |root|);
      assert s[..d] == root + mid;
      assert s[d..] == ext;
    } else {
      assert root == name && s == root + "-" + Decimal(k);
      assert s[..|name|] == name;
      forall x | |name| <= x < |s| ensures s[x] != '.' {
        assert s[x] == mid[x - |name|];
      }
      SuffixNoExtension(name, s);
    }
  }

  /** A name without an extension keeps having none when characters other
      than '.' are appended to it. */
  lemma SuffixNoExtension(name: Name, s: string)
    requires SplitExt(name).1 == [] && |name| <= |s| && s[..|name|] == name
    requires forall x :: |name| <= x < |s| ==> s[x] != '.'
    ensures SplitExt(s) == (s, [])
  {
    forall i, j | 0 <= i < j < |s| && s[j] == '.' ensures s[i] == '.' {
      assert s[j] == name[j] && s[i] == name[i];
    }
  }

  /** A suffixed path is never the path it was made from, and different
      suffixes give different paths. */
  lemma SuffixedDistinct(p: Path, k1: nat, k2: nat)
    requires p != []
    ensures Suffixed(p, k1) != p
    ensures k1 != k2 ==> Suffixed(p, k1) != Suffixed(p, k2)
  {
    assert Last(Suffixed(p, k1)) == SuffixName(Last(p), k1);
    assert Last(p) == p[|p| - 1];
    if k1 != k2 && Suffixed(p, k1) == Suffixed(p, k2) {
      var (root, ext) := SplitExt(Last(p));
      var s1, s2 := SuffixName(Last(p), k1), SuffixName(Last(p), k2);
      assert s1 == s2;
      assert |Decimal(k1)| == |Decimal(k2)|;
      assert Decimal(k1) == s1[|root| + 1..|root| + 1 + |Decimal(k1)|];
      assert Decimal(k2) == s2[|root| + 1..|root| + 1 + |Decimal(k2)|];
      DecimalInjective(k1, k2);
    }
  }

  /** The least k from `from` up to MaxRetries - 2 (= 48) whose suffixed
      path is free: the name the suffix loop settles on. */
  function FirstFreeSuffix(e: Entries, t: Path, from: nat): (r: Option<nat>)
    requires t != []
    ensures r.Some? ==> from <= r.value < MaxRetries - 1 && Suffixed(t, r.value) !in e
    ensures r.Some? ==> forall j :: from <= j < r.value ==> Suffixed(t, j) in e
    ensures r.None? ==> forall j :: from <= j < MaxRetries - 1 ==> Suffixed(t, j) in e
    decreases MaxRetries - from
  {
    if from >= MaxRetries - 1 then None
    else if Suffixed(t, from) !in e then Some(from)
    else FirstFreeSuffix(e, t, from + 1)
  }

  /** The suffix search only looks at the suffixed paths, so two states
      that agree on those give the same answer. */
  lemma {:induction false} FirstFreeSuffixFrame(e1: Entries, e2: Entries, t: Path, from: nat)
    requires t != []
    requires forall k :: Suffixed(t, k) in e1 <==> Suffixed(t, k) in e2
    ensures FirstFreeSuffix(e1, t, from) == FirstFreeSuffix(e2, t, from)
    decreases MaxRetries - from
  {
    if from < MaxRetries - 1 && Suffixed(t, from) in e1 {
      FirstFreeSuffixFrame(e1, e2, t, from + 1);
    }
  }

  /** The suffix loop: starting from the taken target, try t-1, t-2, ...
      while the candidate exists and the counter is below MaxRetries. On
      leaving, counter < MaxRetries means the last candidate is free and is
      the first free one; otherwise t-1 .. t-48 were all taken and the last
      candidate is t-49, never checked. */
  method FindFreeName(fs: FileSystem, destPath: Path) returns (counter: nat, newPath: Path)
    requires destPath != []
    ensures 1 <= counter <= MaxRetries
    ensures counter == 1 <==> destPath !in fs.entries
    ensures counter == 1 ==> newPath == destPath
    ensures counter > 1 ==> newPath == Suffixed(destPath, counter - 1)
    ensures counter < MaxRetries ==> newPath !in fs.entries
    ensures forall j :: 1 <= j < counter - 1 ==> Suffixed(destPath, j) in fs.entries
    ensures destPath in fs.entries ==>
      && (counter < MaxRetries <==> FirstFreeSuffix(fs.entries, destPath, 1).Some?)
      && (counter < MaxRetries ==> counter == FirstFreeSuffix(fs.entries, destPath, 1).value + 1)
  {
    counter := 1;
    newPath := destPath;
    while fs.Exists(newPath) && counter < MaxRetries
      invariant 1 <= counter <= MaxRetries
      invariant counter == 1 ==> newPath == destPath
      invariant counter > 1 ==> destPath in fs.entries && newPath == Suffixed(destPath, counter - 1)
      invariant forall j :: 1 <= j < counter - 1 ==> Suffixed(destPath, j) in fs.entries
      decreases MaxRetries - counter
    {
      newPath := Suffixed(destPath, counter);
      counter := counter + 1;
    }
  }
}
