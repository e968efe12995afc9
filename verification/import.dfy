/** The bookkeeping of `scripts/import_images.py`, the tool run on the offline
    host: recover image names from tar file names or from the report of
    `docker load`, import each tar file, account for successes and failures, and
    compare the tar files found with the manifest. Every `docker` call and every
    filesystem probe is an input. */
module Importer {
  import opened Wrappers
  import opened Text
  import opened Accounting
  import opened ManifestFormat

  // ---------------------------------------------------------------------------
  // Tar file name -> image reference

  /** `Path(name).stem`: the name without its last suffix. A suffix starts at
      the last `.`, which must be neither the first nor the last character. */
  function Stem(name: string): (stem: string)
    ensures stem <= name
    ensures |stem| < |name| ==>
              0 < |stem| < |name| - 1 && name[|stem|] == '.' && '.' !in name[|stem| + 1..]
    ensures '.' !in name ==> stem == name
    ensures stem == name <==> name == [] || '.' !in name[1..] || name[|name| - 1] == '.'
  {
    var i := LastIndex(name, '.');
    if 0 < i < |name| - 1 then name[..i] else name
  }

  /** The stem of `x + ".tar"` is `x`, for every non-empty `x`. */
  lemma StemOfTarName(x: string)
    requires x != []
    ensures Stem(x + ".tar") == x
  {
    var name := x + ".tar";
    var i := LastIndex(name, '.');
    assert name[|x|] == '.';
    assert forall k :: |x| < k < |name| ==> name[k] != '.';
    assert forall k :: i < k < |name| ==> name[i + 1..][k - i - 1] == name[k];
  }

  /** The file-name rule of `get_image_name_from_tar`: a stem holding both `_`
      and `-` decodes to the text before its first `_`, then `/`, then the rest
      with only its first `-` turned into `:`; any other stem does not decode. */
  function NameFromStem(stem: string): (name: Option<string>)
    ensures name.Some? <==> '_' in stem && '-' in stem
    ensures name.Some? ==>
              var p := FirstIndex(stem, '_');
              name.value == stem[..p] + "/" + ReplaceFirst(stem[p + 1..], '-', ':')
  {
    if '_' in stem && '-' in stem then
      var parts := SplitOnce(stem, '_');
      if |parts| == 2 then
        Some(parts[0] + "/" + ReplaceFirst(parts[1], '-', ':'))
      else None
    else None
  }

  /** How a `docker load` subprocess ended: exit status with its error output
      (the stream the script reads), or an exception raised on the Python side. */
  datatype LoadExec = LoadExited(code: int, stderr: string) | LoadRaised(message: string)

  /** `get_image_name_from_tar` on a tar file name, given how the fallback
      `docker load --quiet` would end: the file-name rule first; otherwise the
      first `Loaded image:` line of a successful load's non-empty output;
      otherwise no name. */
  function ImageNameFromTar(fileName: string, quietLoad: LoadExec): (name: Option<string>)
    ensures NameFromStem(Stem(fileName)).Some? ==> name == NameFromStem(Stem(fileName))
    ensures NameFromStem(Stem(fileName)).None? && quietLoad.LoadRaised? ==> name.None?
    ensures NameFromStem(Stem(fileName)).None? && quietLoad.LoadExited? && quietLoad.code != 0 ==> name.None?
    ensures name.Some? && NameFromStem(Stem(fileName)).None? ==>
              quietLoad.LoadExited? && quietLoad.code == 0 && FirstLoadedLine(Lines(quietLoad.stderr)).Some?
    ensures NameFromStem(Stem(fileName)).None? && quietLoad.LoadExited? && quietLoad.code == 0 ==>
              var lines := Lines(quietLoad.stderr);
              FirstLoadedLine(lines).Some? ==>
                name == Some(Strip(lines[FirstLoadedLine(lines).value][|LoadedPrefix|..]))
  {
    var byName := NameFromStem(Stem(fileName));
    if byName.Some? then byName
    else
      match quietLoad
      case LoadRaised(_) => None
      case LoadExited(code, stderr) =>
        if code == 0 && stderr != "" then
          var lines := Lines(stderr);
          match FirstLoadedLine(lines)
          case Some(k) =>
            LoadedNameAfterPrefix(lines[k]);
            Some(LoadedName(lines[k]))
          case None => None
        else None
  }

  // ---------------------------------------------------------------------------
  // The report of `docker load`

  const LoadedPrefix := "Loaded image:"

  /** The lines of a subprocess output (`text.split('\n')`). */
  function Lines(text: string): (lines: seq<string>)
    ensures |lines| >= 1
    ensures forall k :: 0 <= k < |lines| ==> '\n' !in lines[k]
    ensures Join(lines, '\n') == text
  {
    JoinSplit(text, '\n');
    Split(text, '\n')
  }

  predicate IsLoadedLine(line: string) {
    LoadedPrefix <= line
  }

  /** Index of the first line that starts with `Loaded image:`, if any. */
  function FirstLoadedLine(lines: seq<string>): (k: Option<nat>)
    ensures k.Some? ==> k.value < |lines| && IsLoadedLine(lines[k.value])
    ensures k.Some? ==> forall j :: 0 <= j < k.value ==> !IsLoadedLine(lines[j])
    ensures k.None? <==> forall j :: 0 <= j < |lines| ==> !IsLoadedLine(lines[j])
  {
    if lines == [] then None
    else if IsLoadedLine(lines[0]) then Some(0)
    else
      match FirstLoadedLine(lines[1..])
      case None => None
      case Some(j) => Some(j + 1)
  }

  /** `line.split(':', 1)[1].strip()`. */
  function LoadedName(line: string): string
    requires ':' in line
  {
    Strip(SplitOnce(line, ':')[1])
  }

  /** On a `Loaded image:` line the first `:` is the prefix's own, so the name
      is whatever follows the prefix, stripped. */
  lemma LoadedNameAfterPrefix(line: string)
    requires IsLoadedLine(line)
    ensures ':' in line
    ensures LoadedName(line) == Strip(line[|LoadedPrefix|..])
  {
    var n := |LoadedPrefix| - 1;
    assert line[n] == ':';
    assert forall j :: 0 <= j < n ==> line[j] == LoadedPrefix[j] != ':';
    FirstIndexAt(line, ':', n);
    var parts := SplitOnce(line, ':');
    assert line == parts[0] + [':'] + parts[1];
  }

  /** The name `import_single_image` reports for a successful load: taken from
      the first line of the output that starts with `Loaded image:` (the text
      after that prefix, stripped), `"unknown"` when no line does. */
  function ParseLoadOutput(stderr: string): (name: string)
    ensures FirstLoadedLine(Lines(stderr)).None? ==> name == "unknown"
    ensures FirstLoadedLine(Lines(stderr)).Some? ==>
              var line := Lines(stderr)[FirstLoadedLine(Lines(stderr)).value];
              name == Strip(line[|LoadedPrefix|..])
  {
    if stderr == "" then
      assert Lines(stderr) == [""];
      "unknown"
    else
      var lines := Lines(stderr);
      match FirstLoadedLine(lines)
      case None => "unknown"
      case Some(k) =>
        LoadedNameAfterPrefix(lines[k]);
        LoadedName(lines[k])
  }

  /** With no separator in `a`, `a` is the first piece of `a + [c] + b`. */
  lemma SplitJoinedWhole(a: string, b: string, c: char)
    requires c !in a
    ensures Split(a + [c] + b, c) == [a] + Split(b, c)
  {
    var s := a + [c] + b;
    assert s[..|a|] == a && s[|a|] == c && s[|a| + 1..] == b;
    SplitFirst(s, c, |a|);
  }

  /** With a first separator at `i` in `a`, the first piece of `a + [c] + b`
      is the same as that of `a`. */
  lemma SplitJoinedEarly(a: string, b: string, c: char, i: nat)
    requires i < |a| && a[i] == c && c !in a[..i]
    ensures Split(a + [c] + b, c) == [a[..i]] + Split(a[i + 1..] + [c] + b, c)
  {
    var s := a + [c] + b;
    assert s[..i] == a[..i] && s[i] == c && s[i + 1..] == a[i + 1..] + [c] + b;
    SplitFirst(s, c, i);
  }

  /** One step of the induction below: the first piece of `a` is split off
      both sides alike. */
  lemma SplitAtSeparatorStep(a: string, b: string, c: char, i: nat)
    requires i < |a| && a[i] == c && c !in a[..i]
    requires Split(a[i + 1..] + [c] + b, c) == Split(a[i + 1..], c) + Split(b, c)
    ensures Split(a + [c] + b, c) == Split(a, c) + Split(b, c)
  {
    var p, q, r := [a[..i]], Split(a[i + 1..], c), Split(b, c);
    calc {
      Split(a + [c] + b, c);
    == { SplitJoinedEarly(a, b, c, i); }
      p + Split(a[i + 1..] + [c] + b, c);
    ==
      p + (q + r);
    == { ConcatAssoc(p, q, r); }
      (p + q) + r;
    == { SplitFirst(a, c, i); }
      Split(a, c) + r;
    }
  }

  /** Splitting at a separator splits the two sides independently. */
  lemma {:induction false} SplitAtSeparator(a: string, b: string, c: char)
    ensures Split(a + [c] + b, c) == Split(a, c) + Split(b, c)
    decreases |a|
  {
    if c !in a {
      SplitJoinedWhole(a, b, c);
      SplitNone(a, c);
    } else {
      var i := FirstOccurrence(a, c);
      SplitAtSeparator(a[i + 1..], b, c);
      SplitAtSeparatorStep(a, b, c, i);
    }
  }

  /** Once a `Loaded image:` line has appeared, later output changes nothing. */
  lemma LaterLoadedLinesIgnored(first: string, rest: string)
    requires FirstLoadedLine(Lines(first)).Some?
    ensures ParseLoadOutput(first + "\n" + rest) == ParseLoadOutput(first)
  {
    SplitAtSeparator(first, rest, '\n');
    var a := Lines(first);
    var all := Lines(first + "\n" + rest);
    assert all == a + Lines(rest);
    var k := FirstLoadedLine(a).value;
    assert FirstLoadedLine(all) == Some(k) by {
      FirstLoadedLinePrefix(a, Lines(rest));
    }
  }

  /** The first match of a prefix is the first match of any extension. */
  lemma {:induction false} FirstLoadedLinePrefix(a: seq<string>, b: seq<string>)
    requires FirstLoadedLine(a).Some?
    ensures FirstLoadedLine(a + b) == FirstLoadedLine(a)
  {
    if !IsLoadedLine(a[0]) {
      assert (a + b)[1..] == a[1..] + b;
      FirstLoadedLinePrefix(a[1..], b);
    }
  }

  // ---------------------------------------------------------------------------
  // One tar file

  /** Everything the outside world decides about one tar file: its path, whether
      it exists, its size, and how `docker load --input` on it ends. */
  datatype TarFile = TarFile(path: string, present: bool, size: nat, load: LoadExec)

  /** The triple `import_single_image` returns: an image name (the file's path
      on failure), the success flag and an error message (empty on success). */
  datatype ImportOutcome = ImportOutcome(image: string, success: bool, error: string)

  const MissingFileError := "文件不存在: "
  const EmptyFileError := "文件为空: "
  const LoadFailedError := "导入失败: "
  const LoadRaisedError := "导入异常: "

  /** `import_single_image`: a missing or empty file fails before `docker load`
      runs; a load that exits with status 0 succeeds with the name parsed from
      its report and an empty error; every failure reports the file's path and
      a non-empty error. */
  function ImportSingleImage(f: TarFile): (r: ImportOutcome)
    ensures r.success <==> f.present && f.size > 0 && f.load.LoadExited? && f.load.code == 0
    ensures r.success ==> r.error == "" && r.image == ParseLoadOutput(f.load.stderr)
    ensures !r.success ==> r.image == f.path && r.error != ""
    ensures !f.present ==> r.error == MissingFileError + f.path
    ensures f.present && f.size == 0 ==> r.error == EmptyFileError + f.path
  {
    if !f.present then ImportOutcome(f.path, false, MissingFileError + f.path)
    else if f.size == 0 then ImportOutcome(f.path, false, EmptyFileError + f.path)
    else
      match f.load
      case LoadRaised(message) => ImportOutcome(f.path, false, LoadRaisedError + message)
      case LoadExited(code, stderr) =>
        if code == 0 then ImportOutcome(ParseLoadOutput(stderr), true, "")
        else ImportOutcome(f.path, false, LoadFailedError + stderr)
  }

  /** The pre-checks: a missing or empty file's outcome does not depend on how
      `docker load` would have ended, because it is never run. */
  lemma PrechecksSkipLoad(f: TarFile, load: LoadExec)
    requires !f.present || f.size == 0
    ensures ImportSingleImage(f.(load := load)) == ImportSingleImage(f)
    ensures !ImportSingleImage(f).success
  {
  }

  // ---------------------------------------------------------------------------
  // The whole list

  /** An element of `failed_imports`: `{'file': ..., 'error': ...}`. */
  datatype FailedImport = FailedImport(file: string, error: string)

  /** The list a file lands in: `imported_images` or `failed_imports`. */
  function ClassifyImport(f: TarFile): (v: Verdict<string, FailedImport>)
    ensures v.Passed? <==> ImportSingleImage(f).success
    ensures v.Passed? ==> v.passed == ImportSingleImage(f).image
    ensures v.Failed? ==> v.failed == FailedImport(f.path, ImportSingleImage(f).error)
  {
    var r := ImportSingleImage(f);
    if r.success then Passed(r.image) else Failed(FailedImport(f.path, r.error))
  }

  /** `skipped` is `skipped_images`, which the script never fills. */
  datatype ImportRun = ImportRun(ok: bool, imported: seq<string>, failed: seq<FailedImport>, skipped: seq<string>)

  /** `import_images` over the tar files in the order the pool completed them:
      false on an empty list, otherwise true exactly when no import failed;
      every file lands in exactly one of the two lists. */
  function ImportImages(completed: seq<TarFile>): (r: ImportRun)
    ensures r.skipped == []
    ensures completed == [] ==> !r.ok && r.imported == [] && r.failed == []
    ensures |r.imported| + |r.failed| == |completed|
    ensures completed != [] ==>
              (r.ok <==> forall i :: 0 <= i < |completed| ==> ImportSingleImage(completed[i]).success)
  {
    if completed == [] then ImportRun(false, [], [], [])
    else
      var t := Fold(completed, ClassifyImport);
      FoldNoFailures(completed, ClassifyImport);
      ImportRun(t.failed == [], t.passed, t.failed, [])
  }

  /** The pool's completion order changes neither the verdict nor the lists'
      contents. */
  lemma ImportOrderIrrelevant(a: seq<TarFile>, b: seq<TarFile>)
    requires multiset(a) == multiset(b)
    ensures ImportImages(a).ok == ImportImages(b).ok
    ensures multiset(ImportImages(a).imported) == multiset(ImportImages(b).imported)
    ensures multiset(ImportImages(a).failed) == multiset(ImportImages(b).failed)
  {
    FoldOrderIrrelevant(a, b, ClassifyImport);
    if a != [] {
      assert b != [] by {
        assert a[0] in multiset(b);
      }
      assert |Fold(a, ClassifyImport).failed| == |multiset(Fold(a, ClassifyImport).failed)|;
    } else {
      assert b == [] by {
        assert |multiset(b)| == 0;
      }
    }
  }

  /** A failure record names a file exactly when that file's import failed with
      that error. */
  lemma FailedImportMembers(completed: seq<TarFile>, record: FailedImport)
    ensures record in ImportImages(completed).failed <==>
              exists i :: 0 <= i < |completed| && completed[i].path == record.file
                && !ImportSingleImage(completed[i]).success && ImportSingleImage(completed[i]).error == record.error
  {
    if completed != [] {
      FoldMembers(completed, ClassifyImport, "", record);
    }
  }

  /** The positions of the files whose import succeeded and reported `name`. */
  function ImportsOf(completed: seq<TarFile>, name: string): (p: set<int>)
    ensures forall i :: i in p <==>
              0 <= i < |completed| && ImportSingleImage(completed[i]).success && ImportSingleImage(completed[i]).image == name
  {
    set i | 0 <= i < |completed| && ImportSingleImage(completed[i]).success && ImportSingleImage(completed[i]).image == name
  }

  /** The positions of the files with the path of `record` whose import failed
      with its error. */
  function FailuresOf(completed: seq<TarFile>, record: FailedImport): (p: set<int>)
    ensures forall i :: i in p <==>
              0 <= i < |completed| && completed[i].path == record.file
              && !ImportSingleImage(completed[i]).success && ImportSingleImage(completed[i]).error == record.error
  {
    set i | 0 <= i < |completed| && completed[i].path == record.file
              && !ImportSingleImage(completed[i]).success && ImportSingleImage(completed[i]).error == record.error
  }

  /** A name occurs in `imported_images` once per successful import that
      reported it, and a failure record occurs in `failed_imports` once per file
      that failed with that path and error: two loads that both report
      `"unknown"` are both listed. */
  lemma ImportedCounts(completed: seq<TarFile>, name: string, record: FailedImport)
    ensures multiset(ImportImages(completed).imported)[name] == |ImportsOf(completed, name)|
    ensures multiset(ImportImages(completed).failed)[record] == |FailuresOf(completed, record)|
  {
    var t := Fold(completed, ClassifyImport);
    assert ImportImages(completed).imported == t.passed && ImportImages(completed).failed == t.failed;
    FoldCounts(completed, ClassifyImport, name, record);
    assert Positions(completed, ClassifyImport, Passed(name)) == ImportsOf(completed, name);
    assert Positions(completed, ClassifyImport, Failed(record)) == FailuresOf(completed, record);
  }

  /** The total `show_import_summary` prints. */
  function SummaryTotal(run: ImportRun): (total: nat)
    ensures total >= |run.imported| + |run.failed|
  {
    |run.imported| + |run.failed| + |run.skipped|
  }

  /** The summary's total is the number of tar files submitted. */
  lemma SummaryCountsEveryFile(completed: seq<TarFile>)
    ensures SummaryTotal(ImportImages(completed)) == |completed|
  {
  }

  // ---------------------------------------------------------------------------
  // Manifest verification in `main`

  /** The names of the tar files found (`{f.name for f in tar_files}`). */
  function FoundSet(found: seq<string>): (names: set<string>)
    ensures forall n :: n in names <==> n in found
  {
    set n | n in found
  }

  /** The two warnings `main` may print. */
  datatype ManifestDiff = ManifestDiff(missing: set<string>, extra: set<string>)

  /** Files the manifest lists but that were not found, and files found that
      the manifest does not list: the two never overlap, and both are empty
      exactly when the manifest and the directory agree on the file names. */
  function DiffManifest(m: Manifest, found: seq<string>): (d: ManifestDiff)
    ensures forall f :: f in d.missing <==> f in FileSet(m) && f !in FoundSet(found)
    ensures forall f :: f in d.extra <==> f in FoundSet(found) && f !in FileSet(m)
    ensures d.missing !! d.extra
    ensures d.missing == {} <==> FileSet(m) <= FoundSet(found)
    ensures d.extra == {} <==> FoundSet(found) <= FileSet(m)
    ensures (d.missing == {} && d.extra == {}) <==> FileSet(m) == FoundSet(found)
  {
    var manifestFiles := FileSet(m);
    var foundFiles := FoundSet(found);
    assert manifestFiles <= foundFiles ==> manifestFiles - foundFiles == {};
    assert foundFiles <= manifestFiles ==> foundFiles - manifestFiles == {};
    assert forall x :: x in manifestFiles && x !in foundFiles ==> x in manifestFiles - foundFiles;
    assert forall x :: x in foundFiles && x !in manifestFiles ==> x in foundFiles - manifestFiles;
    ManifestDiff(manifestFiles - foundFiles, foundFiles - manifestFiles)
  }

  /** The check runs only when some tar file was found (`main` exits before it
      otherwise), unless `--no-verify` was given, and only when a manifest
      could be loaded. */
  function CheckManifest(noVerify: bool, loaded: Option<Manifest>, found: seq<string>): (d: Option<ManifestDiff>)
    ensures d.Some? <==> found != [] && !noVerify && loaded.Some?
    ensures d.Some? ==> d.value == DiffManifest(loaded.value, found)
  {
    if found != [] && !noVerify && loaded.Some? then Some(DiffManifest(loaded.value, found)) else None
  }
}
