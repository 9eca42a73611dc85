# photo-organizer in Dafny

A model of `photo-organizer.py`, a command-line tool that sorts a photo
library by capture date. It walks the source tree depth-first, visiting
each directory's entries in sorted order, and treats each file as follows:
- a media file (by lower-cased extension) is dated from its EXIF
  `Image DateTime` tag, or from its modification time when the tag is
  absent;
- the media file is then copied (`--copy-only`) or moved into
  `dest/YYYY/MM/DD/`;
- sidecar junk files (`Thumbs.db`, `.DS_Store`, ...) are deleted in move
  mode;
- everything else is left alone.

When the target name is taken, the tool compares size and md5. An identical
file is a duplicate: the source is dropped in move mode. A different file
makes the tool try `name-1.ext`, `name-2.ext`, and so on. At the end of a
move run, the directories left empty under the source are removed.

The modules follow the program's pieces:

- `Text`: the string operations the tool relies on:
  - `os.path.splitext` on one name (with its rule that leading dots do not
    start an extension);
  - ASCII `str.lower`;
  - `str(n)` and `"{0:02}".format(n)`, with their read-back lemmas.
- `Ordering`: Python's string order, `sorted()` on a set of names, and
  the component-wise order on paths.
- `FileTree`: the filesystem as a map from paths to file contents or
  directories. The os and shutil calls the tool makes are methods of the
  class `FileSystem`, whose `entries` they update:
  - `os.remove` and `os.rmdir`;
  - `os.makedirs`;
  - `os.rename`, with POSIX semantics;
  - `shutil.copy2`.
- `Traversal`:
  - `get_files` as a function: the yielded paths, in order;
  - `remove_empty_dirs` as a recursive method over the filesystem.
- `Classifier`: the two tables and the media/junk/other decision.
- `Dates`: `get_file_date` over its inputs: the tag map, the strptime
  result and the mtime.
- `Placement`:
  - the `dest/YYYY/MM/DD` target;
  - the `-k` suffix;
  - the suffix search loop (`FindFreeName`) and its specification
    (`FirstFreeSuffix`).
- `Organizer`: one turn of the main loop:
  - `Decide` says what happens to a file;
  - `Effect` gives the filesystem afterwards;
  - `ProcessFile` and the methods it calls do it step by step through the
    `FileSystem` methods and are proved equal to `Decide` and `Effect`.
- `Outcomes`: what one turn does, stated for every input.
- `MainLoop`: the loop over `get_files(src)` and the final pruning.

Behaviour of the code worth noting, which the model keeps:
- When all suffixes are taken, the file is still copied or moved to the
  original `dest_path` (lines 132-142), so a move replaces the different
  file found there.
- The suffix loop checks `-1` to `-48` only. `-49` is computed but never
  tested, because `counter` reaches 50 first.
- `remove_empty_dirs(src)` never removes `src` itself, even when it ends
  up empty.
- An os call that raises is not caught: it ends the run (`Outcome.Failed`,
  the last outcome of `Organize`).

A file that already sits at its own target (`dest/YYYY/MM/DD/name`) is
found to be its own duplicate, so a move run deletes it
(`Outcomes.OwnTargetIsDuplicate`). The program reaches that case only when
one of src and dest lies inside the other (lines 79-81 refuse only the same
directory), which `Organize` excludes.

## Model

| member | source | states |
|---|---|---|
| Text.Lower | photo-organizer.py:88 | ASCII str.lower: same length, each character lowered on its own |
| Text.Decimal | photo-organizer.py:112 | str(n): a non-empty run of digits with no '.'; read back by Text.DecimalRoundTrip |
| Text.PadTwo | photo-organizer.py:113-114 | "{0:02}".format(n): digits only; read back by Text.PadTwoRoundTrip |
| Text.SplitExt | photo-organizer.py:87 | root + ext is the name; ext is non-empty exactly when some '.' follows a non-dot; a non-empty ext is one '.' followed by no '.' |
| Text.SplitExtAt | photo-organizer.py:130 | a '.' with no '.' after it and a non-dot before it is where splitext cuts |
| Text.LowerSplitExt | photo-organizer.py:87-88 | lower-casing the extension after the split is the same as splitting the lower-cased name |
| Text.DecimalRoundTrip | photo-organizer.py:112 | str(n) reads back as n |
| Text.DecimalInjective | photo-organizer.py:112 | different numbers get different str(n) |
| Text.PadTwoRoundTrip | photo-organizer.py:113-114 | "{0:02}" reads back as n and has exactly two characters below 100 |
| Ordering.SortedNames | photo-organizer.py:25 | sorted() of a set: strictly increasing, same members, same size |
| Ordering.LeastExists | photo-organizer.py:25 | every non-empty set of names has exactly one least member |
| Ordering.PathBeforeIrreflexive | photo-organizer.py:25 | no path comes before itself |
| FileTree.Children | photo-organizer.py:25 | os.listdir(p) holds n exactly when p/n exists |
| FileTree.WithDirsValid | photo-organizer.py:116-117 | makedirs keeps the tree well formed, makes the folder a directory, changes no existing entry and creates only prefixes of the folder |
| FileTree.WithDirsPresent | photo-organizer.py:116 | along an existing directory makedirs would create nothing |
| FileTree.WithDirsBelow | photo-organizer.py:111-117 | below an existing dest, makedirs creates only paths below dest |
| FileTree.NotCreatableNotDir | photo-organizer.py:116-117 | a folder makedirs cannot create is not an existing directory |
| FileTree.FileSystem.Remove | photo-organizer.py:93 | os.remove deletes exactly the file and keeps the tree well formed |
| FileTree.FileSystem.RmDir | photo-organizer.py:38-40 | os.rmdir of an empty directory deletes exactly it and keeps the tree well formed |
| FileTree.FileSystem.MakeDirs | photo-organizer.py:117 | os.makedirs succeeds exactly when no prefix is a file, and then creates the missing prefixes |
| FileTree.FileSystem.Rename | photo-organizer.py:142 | os.rename succeeds exactly when the parent is a directory and dst is not, and then moves the bytes, replacing a file at dst |
| FileTree.FileSystem.Copy | photo-organizer.py:139 | shutil.copy2 writes into a directory dst, refuses a directory target, a missing parent and the source itself, and otherwise copies the bytes |
| Traversal.GetFiles | photo-organizer.py:24-31 | get_files(p) yields only regular files strictly below p; Traversal.GetFilesSpec states exactly which, and in what order |
| Traversal.WalkEntries | photo-organizer.py:25-31 | every yielded path is a file below p, through one of the listed names |
| Traversal.EntryFiles | photo-organizer.py:26-31 | one entry yields files below itself, or itself when it is not a directory |
| Traversal.GetFilesSorted | photo-organizer.py:24-31 | get_files yields paths in strictly increasing path order, so never twice |
| Traversal.GetFilesComplete | photo-organizer.py:24-31 | every regular file below p is yielded |
| Traversal.GetFilesSpec | photo-organizer.py:24-31 | get_files yields exactly the regular files below p, in path order |
| Traversal.ChildrenAfterPrune | photo-organizer.py:37-38 | after pruning below c, c is empty exactly when no regular file lay below it |
| Traversal.NoEmptyDirLeft | photo-organizer.py:33-40 | after remove_empty_dirs(p) no directory strictly below p is empty |
| Traversal.PruneChildStep | photo-organizer.py:36-40 | one turn for a subdirectory keeps the loop invariant: visited subtrees pruned, the rest untouched |
| Traversal.PruneFileStep | photo-organizer.py:36 | one turn for a non-directory keeps the loop invariant |
| Traversal.RemoveEmptyDirs | photo-organizer.py:33-40 | removes exactly the directories strictly below p with no regular file below them; keeps every file and p itself |
| Traversal.PruneEntry | photo-organizer.py:35-40 | one turn of the loop extends the pruned part by the entry it visits |
| Classifier.Classify | photo-organizer.py:87-100 | media by lower-cased extension first, else junk by lower-cased name, else ignored; Classifier.MediaByExtension and Outcomes.ClassificationOutcome state what each disposition means |
| Classifier.ClassifyIgnoresCase | photo-organizer.py:87-90 | names equal up to letter case get the same disposition |
| Classifier.MediaByExtension | photo-organizer.py:87-89 | a name is media exactly when its lower-cased form ends with a media extension preceded by a non-dot |
| Classifier.ExtensionFound | photo-organizer.py:87-89 | a lower-cased extension found in a table of extension-shaped entries ends the lower-cased name, with a non-dot before it |
| Classifier.ExtensionMatches | photo-organizer.py:87-89 | an extension-shaped ending of the lower-cased name with a non-dot before it is exactly the lower-cased extension splitext finds |
| Classifier.JunkNamesAreJunk | photo-organizer.py:11-12 | every junk name is classified junk: no junk name has a media extension |
| Classifier.NotMediaBySuffix | photo-organizer.py:89 | a lower-case name that no media extension ends is not media |
| Dates.FileDate | photo-organizer.py:42-55 | absent only when the tag is present and does not parse; the tag's parse when present; the mtime otherwise |
| Dates.TagOverridesMtime | photo-organizer.py:45-50 | with the tag present the mtime plays no part; a malformed tag gives None |
| Placement.TargetDir | photo-organizer.py:111-115 | dest_folder; Placement.TargetPathNamesDate and Placement.TargetDirSameDay state its shape and when two dates share it |
| Placement.TargetPath | photo-organizer.py:118 | dest_path, the file's name inside dest_folder; stated by Placement.TargetPathNamesDate |
| Placement.TargetPathNamesDate | photo-organizer.py:111-118 | the target is dest/year/MM/DD/name, with MM and DD two digits that read back as month and day |
| Placement.TargetDirSameDay | photo-organizer.py:111-115 | two dates share a folder exactly when they fall on the same day |
| Placement.SuffixName | photo-organizer.py:130 | "-k" joined into the name's splitext parts; Placement.SuffixKeepsExtension states the result |
| Placement.Suffixed | photo-organizer.py:130 | the suffixed dest_path in the same folder; Placement.SuffixedDistinct states that each k gives a new path |
| Placement.SuffixKeepsExtension | photo-organizer.py:130 | the "-k" goes before the extension; the extension is unchanged |
| Placement.SuffixedDistinct | photo-organizer.py:130 | a suffixed path differs from the original and from every other suffix |
| Placement.FirstFreeSuffix | photo-organizer.py:127-133 | the least free suffix in 1..48 after all earlier ones are taken, or None when all are taken |
| Placement.FirstFreeSuffixFrame | photo-organizer.py:129 | the search depends only on which suffixed paths exist |
| Placement.FindFreeName | photo-organizer.py:127-131 | the while loop ends with the first free suffix exactly when one exists in 1..48; its candidate is free below the ceiling |
| Organizer.StatSize | photo-organizer.py:120 | os.stat(p).st_size: a regular file's byte count, a directory's size from the library; Outcomes.DuplicateWhenSame and Outcomes.FailedOutcome state how it decides |
| Organizer.Decide | photo-organizer.py:87-142 | a transferred file goes strictly below dest |
| Organizer.Place | photo-organizer.py:111-142 | a placed file is transferred strictly below its date folder, found a duplicate, or fails |
| Organizer.Resolve | photo-organizer.py:119-142 | a taken target gives a duplicate of that target, a transfer next to it, or a failure |
| Organizer.Retry | photo-organizer.py:127-142 | the suffix search transfers next to the target or fails |
| Organizer.Effect | photo-organizer.py:91-142 | the tree after an outcome; Outcomes.TransferEffect, Outcomes.WritesOnlyBelowDest and Outcomes.MoveRemovesSource state it |
| Organizer.ProcessFile | photo-organizer.py:87-142 | the loop body keeps the tree well formed, returns Decide's outcome and leaves the filesystem as Effect says |
| Organizer.PlaceFile | photo-organizer.py:111-142 | makedirs then transfer or resolve: equals Place and its Effect |
| Organizer.ResolveTaken | photo-organizer.py:119-142 | size, isdir and md5 checks then the suffix search: equals Resolve and its Effect |
| Organizer.RetryTaken | photo-organizer.py:127-142 | the suffix loop then the transfer: equals Retry and its Effect |
| Organizer.OverwriteTarget | photo-organizer.py:134-142 | once the suffixes run out, transfers to the original target: equals Retry and its Effect |
| Organizer.Transfer | photo-organizer.py:137-142 | copy2 or rename: success exactly when the target's parent is a directory, the target is not, and a copy is not onto itself |
| Outcomes.ClassificationOutcome | photo-organizer.py:89-100 | NotMedia exactly for ignored names and JunkFile exactly for junk names; the first changes nothing, the second deletes in move mode only |
| Outcomes.UndatedOutcome | photo-organizer.py:101-104 | NoDate exactly for a media file whose present tag does not parse; nothing changes |
| Outcomes.DuplicateOutcome | photo-organizer.py:119-125 | a duplicate is a regular file at the target with the same size and md5; nothing is written and the source is deleted in move mode only |
| Outcomes.DecidePlaces | photo-organizer.py:101-118 | only a dated media file is transferred or found duplicate, and then by Place on its date folder |
| Outcomes.FreeTargetOutcome | photo-organizer.py:118-133 | before exhaustion the file goes to a free path: its target, or the least free suffix after the earlier ones |
| Outcomes.ExhaustedOutcome | photo-organizer.py:132-142 | on exhaustion suffixes 1..48 are all taken, and the file goes to the target: replacing a different file, or into a directory in copy mode |
| Outcomes.DuplicateWhenSame | photo-organizer.py:119-125 | a regular file at the target with the same size and md5 makes the file its duplicate |
| Outcomes.FreeTargetTransfers | photo-organizer.py:116-118 | a free target in a folder makedirs can create gets the file under its own name |
| Outcomes.SuffixTransfers | photo-organizer.py:126-133 | a taken target with no copy of the file sends it to the least free suffix in 1..48 |
| Outcomes.ExhaustedTransfers | photo-organizer.py:132-142 | with 1..48 all taken and no copy at the target, the file still goes to the original target (a file there is replaced; a directory takes it in copy mode); otherwise the os call raises |
| Outcomes.FailedOutcome | photo-organizer.py:116-142 | the run stops on a file exactly when makedirs is blocked, a directory at the target has the file's size, or the suffixes are all taken and the directory at the target cannot be used |
| Outcomes.TransferredStaysMedia | photo-organizer.py:111-142 | a transferred file lands in its date folder under a name that is still media |
| Outcomes.PlaceKeepsName | photo-organizer.py:118-133 | the transferred name is the file's own name or a suffixed form of it |
| Outcomes.SuffixStaysMedia | photo-organizer.py:130 | suffixing keeps a media name media |
| Outcomes.PlaceNotOntoSource | photo-organizer.py:119-142 | a file is never transferred onto itself |
| Outcomes.TransferEffect | photo-organizer.py:137-142 | the target gets the bytes, the source stays only in copy mode, every other existing path is unchanged |
| Outcomes.CopyKeepsEverything | photo-organizer.py:137-139 | in copy mode nothing disappears; only an exhausted target's contents change |
| Outcomes.MoveRemovesSource | photo-organizer.py:91-142 | in move mode the file is gone exactly after a junk, duplicate or transfer outcome |
| Outcomes.WritesOnlyBelowDest | photo-organizer.py:111-142 | every change other than the file itself lies strictly below dest |
| Outcomes.OwnTargetIsDuplicate | photo-organizer.py:118-125 | a file already at its own target is its own duplicate, and a move run deletes it |
| MainLoop.StepOutsideDest | photo-organizer.py:87-142 | outside dest only the file can change; copy mode keeps it; a move keeps it only for ignored or undated media |
| MainLoop.ProcessListed | photo-organizer.py:87-142 | the loop body: Decide's outcome and Effect's tree for the file, and what that means outside dest |
| MainLoop.RunExtend | photo-organizer.py:83 | a run of the loop grows by one turn on the next listed file |
| MainLoop.StepTransfers | photo-organizer.py:111-142 | a transferring turn puts the file's bytes at its target, below its date folder, under a media name |
| MainLoop.RunTransfers | photo-organizer.py:83-142 | in a run, every transferred file reaches its date folder below dest with its bytes |
| MainLoop.TurnKeeps | photo-organizer.py:83-142 | one turn keeps the loop's frame outside dest, and in move mode that every visited file still in src was left for a reason |
| MainLoop.MoveRunLeaves | photo-organizer.py:144-145 | after a completed move run and pruning, a file below src is an original, unchanged, left for a reason |
| MainLoop.ProcessFiles | photo-organizer.py:83-142 | the files in order up to the first failure, each with Decide's outcome in the tree its predecessors left and Effect's tree after it; outside dest only listed files vanish, in move mode only, and those left are ignored or undated |
| MainLoop.Organize | photo-organizer.py:83-145 | every file get_files lists, in order up to the first failure, gets Decide's outcome and Effect's tree, and a completed move run then prunes src; nothing outside src and dest changes; a copy run leaves src as it was; a completed move run leaves in src only ignored or undated originals and no empty directory |

## Left out

- md5 is an abstract function of a file's bytes (`Library.md5`), since hashing internals are out of scope. A directory at the target with the file's size makes md5 raise, which ends the run.
- exifread, `datetime.strptime` and `datetime.fromtimestamp` are inputs: the tag map, the parse function and the mtime per file. A parser that raises on a corrupt file is not modelled.
- The st_size of each directory is an input (`Library.dirSize`, a function of its path), since it depends on the filesystem, not on the entries modelled.
- Lower-casing is ASCII only: every table entry is ASCII, and Unicode case mapping is out of scope.
- Argument parsing, path normalisation, the early exits at lines 71-81 and all printed messages are not modelled.
- MainLoop.Organize: requires src and dest to be existing directories, where lines 71-77 check only that they exist.
- MainLoop.Organize: requires src and dest to be apart (neither inside the other), more than the same-directory check at lines 79-81. get_files is a lazy generator, so files moved into a dest inside src would be listed again. The model lists all files before the first is processed.
- MainLoop.Organize: in move mode, what is left in src is stated only for a run that did not stop on an error.
- Symbolic links, permissions and full disks are not modelled: every path is a regular file or a directory, and an os call fails only for the reasons the methods name.
- os.rename follows POSIX: a regular file at the target is replaced. On Windows the call raises instead.
- A src that is a regular file, not a directory, is not modelled (os.listdir would raise).
- The file handle left open at line 43, the commented-out code at lines 51 and 105-110, and the unused import of dateutil are not modelled.
- Microseconds of a datetime play no part in the target path and are not modelled.
