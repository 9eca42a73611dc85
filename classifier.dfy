/**
  The three-way decision the organizer makes about every file it finds:
  a media file to place by date, a junk file to delete, or anything else
  to leave alone.
 */
module Classifier {
  import opened Text

  /** FILE_TYPES_TO_PROCESS: lower-cased extensions of photos and videos. */
  const MediaExtensions: seq<string> :=
    [".jpg", ".jpeg", ".mov", ".avi", ".mp4", ".cr2", ".3gp", ".wmv", ".mpg", ".m4v", ".png"]

  /** FILES_TO_DELETE: lower-cased names of sidecar files that are thrown away. */
  const JunkNames: seq<string> :=
    [".picasa.ini", "picasa.ini", ".ds_store", "._.ds_store", "thumbs.db", "zbthumbnail.info"]

  datatype Disposition = Media | Junk | Ignored

  /** The extension test comes first; only a name whose extension is not a
      media extension is compared against the junk names. */
  function Classify(name: string): Disposition
  {
    if Lower(SplitExt(name).1) in MediaExtensions then Media
    else if Lower(name) in JunkNames then Junk
    else Ignored
  }

  /** Two names that differ only in the case of their letters get the same
      disposition: both the extension and the whole name are compared
      lower-cased. */
  lemma ClassifyIgnoresCase(a: string, b: string)
    requires Lower(a) == Lower(b)
    ensures Classify(a) == Classify(b)
  {
    LowerSplitExt(a);
    LowerSplitExt(b);
  }

  /** name ends with suffix. */
  predicate EndsWith(name: string, suffix: string)
  {
    |suffix| <= |name| && name[|name| - |suffix|..] == suffix
  }

  /** The extension os.path.splitext finds ends the name, and it is already
      lower-case when the name is. */
  lemma ExtensionEndsName(n: string)
    requires Lower(n) == n
    ensures EndsWith(n, SplitExt(n).1) && Lower(SplitExt(n).1) == SplitExt(n).1
  {
    var ext := SplitExt(n).1;
    assert ext == n[|n| - |ext|..];
    forall i | 0 <= i < |ext| ensures Lower(ext)[i] == ext[i] {
      assert ext[i] == n[|n| - |ext| + i];
      assert Lower(n)[|n| - |ext| + i] == LowerChar(n[|n| - |ext| + i]);
    }
  }

  /** A lower-case name that no media extension ends is not media. */
  lemma NotMediaBySuffix(n: string)
    requires Lower(n) == n
    requires forall m :: m in MediaExtensions ==> !EndsWith(n, m)
    ensures Classify(n) != Media
  {
    ExtensionEndsName(n);
  }

  /** Every junk name is classified as junk: no junk name carries a media
      extension, so the two tables never compete. */
  lemma JunkNamesAreJunk()
    ensures forall n :: n in JunkNames ==> Classify(n) == Junk
  {
    forall n | n in JunkNames ensures Classify(n) == Junk {
      assert Lower(n) == n;
      NotMediaBySuffix(n);
    }
  }

  /** A '.' followed by at least one character, none of them a '.'. */
  predicate ExtensionShaped(m: string)
  {
    |m| >= 2 && m[0] == '.' && forall x :: 1 <= x < |m| ==> m[x] != '.'
  }

  lemma MediaExtensionsShaped()
    ensures forall m :: m in MediaExtensions ==> ExtensionShaped(m)
  {
  }

  /** The media test without splitext: a name is media exactly when its
      lower-cased form ends with a media extension that has something other
      than dots before it (so ".jpg" alone, a hidden file, is not media). */
  lemma MediaByExtension(n: string)
    ensures Classify(n) == Media <==>
      exists m, i :: m in MediaExtensions && EndsWith(Lower(n), m) && 0 <= i < |n| - |m| && n[i] != '.'
  {
    MediaExtensionsShaped();
    var exts := MediaExtensions;
    if Lower(SplitExt(n).1) in exts {
      ExtensionFound(n, exts);
    }
    forall m, i | m in exts && EndsWith(Lower(n), m) && 0 <= i < |n| - |m| && n[i] != '.'
      ensures Lower(SplitExt(n).1) in exts
    {
      ExtensionMatches(n, m, i);
    }
  }

  /** The lower-cased extension of a name, when it is in a table of
      extensions, ends the lower-cased name and has a non-dot before it. */
  lemma ExtensionFound(n: string, exts: seq<string>)
    requires Lower(SplitExt(n).1) in exts
    requires forall m :: m in exts ==> ExtensionShaped(m)
    ensures exists m, i :: m in exts && EndsWith(Lower(n), m) && 0 <= i < |n| - |m| && n[i] != '.'
  {
    var low := Lower(n);
    LowerSplitExt(n);
    var ext := SplitExt(low).1;
    var d := |low| - |ext|;
    assert EndsWith(low, ext) by {
      assert low == SplitExt(low).0 + ext;
    }
    var i, j :| 0 <= i < j < |low| && low[i] != '.' && low[j] == '.';
    assert n[i] != '.';
  }

  /** An extension-shaped ending of s puts a '.' where the ending starts
      and none after it. */
  lemma ShapedEnding(s: string, m: string)
    requires ExtensionShaped(m) && EndsWith(s, m)
    ensures s[|s| - |m|] == '.'
    ensures forall x :: |s| - |m| < x < |s| ==> s[x] != '.'
  {
    var d := |s| - |m|;
    assert s[d] == s[d..][0];
    forall x | d < x < |s| ensures s[x] != '.' {
      assert s[x] == s[d..][x - d];
    }
  }

  /** Conversely, an extension-shaped ending of the lower-cased name with a
      non-dot before it is the lower-cased extension. */
  lemma ExtensionMatches(n: string, m: string, i: int)
    requires ExtensionShaped(m) && EndsWith(Lower(n), m) && 0 <= i < |n| - |m| && n[i] != '.'
    ensures Lower(SplitExt(n).1) == m
  {
    var low := Lower(n);
    var d := |low| - |m|;
    ShapedEnding(low, m);
    assert low[i] == LowerChar(n[i]);
    SplitExtAt(low, d, i);
    LowerSplitExt(n);
  }
}
