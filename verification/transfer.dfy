/** What the two scripts promise each other when images travel from the
    networked host to the offline host: the importer's file-name rule against
    the downloader's encoding, and the manifest against the tar files left in
    the output directory. */
module Transfer {
  import opened Wrappers
  import opened Text
  import opened ManifestFormat
  import opened Downloader
  import opened Importer

  /** Exactly the image references the importer's file-name rule recovers from
      the downloader's encoding. The reference has a `/`; the namespace before
      its first `/` has no `_` or `:`; the rest has no `/`. Then either the rest
      is `repo:tag` with no `-` in `repo` and no further `:` in `tag`, or the
      rest has neither `:` nor `-` and the namespace holds a `-` (otherwise the
      encoded name has no `-` and the rule does not apply). */
  predicate RoundTripShape(x: string) {
    var p := FirstIndex(x, '/');
    && p < |x|
    && '_' !in x[..p] && ':' !in x[..p]
    && var r := x[p + 1..];
       var q := FirstIndex(r, ':');
       && '/' !in r
       && if q < |r| then '-' !in r[..q] && ':' !in r[q + 1..]
          else '-' !in r && '-' in x[..p]
  }

  /** `replace(a, b, 1)` on a text without `a` changes nothing. */
  lemma ReplaceFirstAbsent(s: string, a: char, b: char)
    requires a !in s
    ensures ReplaceFirst(s, a, b) == s
  {
  }

  /** `replace(a, b, 1)` replaces the `a` that has no `a` before it. */
  lemma ReplaceFirstAt(u: string, v: string, a: char, b: char)
    requires a !in u
    ensures ReplaceFirst(u + [a] + v, a, b) == u + [b] + v
  {
    var s := u + [a] + v;
    assert forall k :: 0 <= k < |u| ==> s[k] == u[k];
    FirstIndexAt(s, a, |u|);
    assert s[..|u|] == u;
    assert s[|u| + 1..] == v;
  }

  /** The file-name rule on a stem whose first `_` ends the namespace. */
  lemma DecodeAtUnderscore(ns: string, rest: string)
    requires '_' !in ns
    requires '-' in ns || '-' in rest
    ensures NameFromStem(ns + "_" + rest) == Some(ns + "/" + ReplaceFirst(rest, '-', ':'))
  {
    var stem := ns + "_" + rest;
    assert forall k :: 0 <= k < |ns| ==> stem[k] == ns[k];
    FirstIndexAt(stem, '_', |ns|);
    assert stem[..|ns|] == ns;
    assert stem[|ns| + 1..] == rest;
    assert '-' in stem by {
      assert stem == ns + ['_'] + rest;
    }
  }

  /** Encoding a text that has no `:` and no `/` changes nothing. */
  lemma SafeNameKeeps(s: string)
    requires ':' !in s && '/' !in s
    ensures SafeName(s) == s
  {
    assert forall k :: 0 <= k < |s| ==> SafeName(s)[k] == s[k];
  }

  /** The encoding works character by character, so it distributes over `+`. */
  lemma SafeNameAppend(u: string, v: string)
    ensures SafeName(u + v) == SafeName(u) + SafeName(v)
  {
    var s := u + v;
    assert forall k :: 0 <= k < |s| ==> SafeName(s)[k] == (SafeName(u) + SafeName(v))[k];
  }

  /** Decoding the encoding gives back the reference exactly when the reference
      has the shape above; every other reference either decodes to a different
      name or does not decode by its file name at all. */
  lemma RoundTripExact(x: string)
    ensures NameFromStem(SafeName(x)) == Some(x) <==> RoundTripShape(x)
  {
    if NameFromStem(SafeName(x)) == Some(x) {
      var p := RoundTripHalves(x);
      var r := x[p + 1..];
      var qe := FixedPointChars(r);
      if qe == |r| {
        NoDashEncoded(r);
      }
      RoundTripNecessary(x, p, r, qe);
    }
    if RoundTripShape(x) {
      RoundTripSufficient(x);
    }
  }

  /** The pieces of a reference of the round-trip shape: the namespace `ns`
      and either `repo` and `tag` of `ns/repo:tag`, or the untagged rest. */
  lemma ShapePieces(x: string) returns (ns: string, repo: string, tag: string, tagged: bool)
    requires RoundTripShape(x)
    ensures '_' !in ns && ':' !in ns && '/' !in ns
    ensures tagged ==> x == ns + "/" + (repo + ":" + tag)
    ensures tagged ==> '/' !in repo && ':' !in repo && '-' !in repo && '/' !in tag && ':' !in tag
    ensures !tagged ==> x == ns + "/" + repo && '-' in ns
    ensures !tagged ==> '/' !in repo && ':' !in repo && '-' !in repo
  {
    var p := FirstIndex(x, '/');
    ns := x[..p];
    var r := x[p + 1..];
    CutAt(x, p);
    var q := FirstIndex(r, ':');
    tagged := q < |r|;
    if tagged {
      repo := r[..q];
      tag := r[q + 1..];
      CutAt(r, q);
    } else {
      repo := r;
      tag := [];
    }
  }

  /** The shape is enough for the round trip. */
  lemma RoundTripSufficient(x: string)
    requires RoundTripShape(x)
    ensures NameFromStem(SafeName(x)) == Some(x)
  {
    var ns, repo, tag, tagged := ShapePieces(x);
    if tagged {
      NamespacedRoundTrip(ns, repo, tag);
    } else {
      UntaggedRoundTrip(ns, repo);
    }
  }

  /** A reference without a tag round-trips when its namespace holds the `-`
      that makes the file-name rule apply and the rest has none. */
  lemma UntaggedRoundTrip(ns: string, rest: string)
    requires '_' !in ns && ':' !in ns && '/' !in ns && '-' in ns
    requires '/' !in rest && ':' !in rest && '-' !in rest
    ensures NameFromStem(SafeName(ns + "/" + rest)) == Some(ns + "/" + rest)
  {
    SafeNameAppend(ns, "/" + rest);
    SafeNameAppend("/", rest);
    SafeNameKeeps(ns);
    SafeNameKeeps(rest);
    assert SafeName("/") == "_";
    assert SafeName(ns + "/" + rest) == ns + "_" + rest by {
      assert ns + "/" + rest == ns + ("/" + rest);
    }
    ReplaceFirstAbsent(rest, '-', ':');
    DecodeAtUnderscore(ns, rest);
  }

  /** Character by character, a text that `replace('-', ':', 1)` maps back
      from its own encoding: before the position `qe` of the first `-` of the
      encoding it has no `/`, `:` or `-`; at `qe` it has the `:` that the `-`
      decodes to; after `qe` it has no `/` or `:`. */
  lemma FixedPointChars(r: string) returns (qe: nat)
    requires ReplaceFirst(SafeName(r), '-', ':') == r
    ensures qe <= |r|
    ensures forall k :: 0 <= k < qe ==> r[k] != '/' && r[k] != ':' && r[k] != '-'
    ensures qe < |r| ==> r[qe] == ':'
    ensures forall k :: qe < k < |r| ==> r[k] != '/' && r[k] != ':'
  {
    var er := SafeName(r);
    qe := FirstIndex(er, '-');
    forall k | 0 <= k < |r|
      ensures k < qe ==> r[k] != '/' && r[k] != ':' && r[k] != '-'
      ensures k == qe ==> r[k] == ':'
      ensures qe < k ==> r[k] != '/' && r[k] != ':'
    {
      if k < qe {
        assert er[k] == er[..qe][k];
      } else if qe < k {
        assert er[qe] == er[..k][qe];
      }
    }
  }

  /** The same facts, restated as the shape of the part after the namespace:
      no `/`; up to its first `:` no `-`; after that no `:`; and with no `:`
      at all, no `-` either. */
  lemma RestShape(r: string, qe: nat)
    requires qe <= |r|
    requires forall k :: 0 <= k < qe ==> r[k] != '/' && r[k] != ':' && r[k] != '-'
    requires qe < |r| ==> r[qe] == ':'
    requires forall k :: qe < k < |r| ==> r[k] != '/' && r[k] != ':'
    ensures '/' !in r
    ensures var q := FirstIndex(r, ':');
            if q < |r| then '-' !in r[..q] && ':' !in r[q + 1..]
            else '-' !in r
  {
    if qe < |r| {
      FirstIndexAt(r, ':', qe);
      assert forall k :: 0 <= k < qe ==> r[..qe][k] == r[k];
      assert forall k :: qe < k < |r| ==> r[qe + 1..][k - qe - 1] == r[k];
    }
  }

  /** The encoding works character by character, so it commutes with cutting
      the text around position `p`. */
  lemma SafeNameSlices(x: string, p: nat)
    requires p < |x|
    ensures SafeName(x)[..p] == SafeName(x[..p])
    ensures SafeName(x)[p + 1..] == SafeName(x[p + 1..])
  {
    var e := SafeName(x);
    assert forall k :: 0 <= k < p ==> e[..p][k] == SafeChar(x[..p][k]);
    var tail, etail := x[p + 1..], e[p + 1..];
    assert forall k :: 0 <= k < |tail| ==> etail[k] == SafeChar(tail[k]);
  }

  /** What a round trip says about the stem: the reference's first `/` at `p`
      is where the encoding's first `_` is, the namespace before it is its
      own encoding, the rest after it is decoded back from its own encoding,
      and the encoding holds a `-`. */
  lemma DecodedPieces(x: string) returns (p: nat)
    requires NameFromStem(SafeName(x)) == Some(x)
    ensures p < |x| && x[p] == '/'
    ensures x[..p] == SafeName(x)[..p] && '_' !in SafeName(x)[..p]
    ensures x[p + 1..] == ReplaceFirst(SafeName(x)[p + 1..], '-', ':')
    ensures '-' in SafeName(x)
  {
    var e := SafeName(x);
    p := FirstIndex(e, '_');
    var d := e[..p] + "/" + ReplaceFirst(e[p + 1..], '-', ':');
    assert x == d;
    assert d[..p] == e[..p];
    assert d[p + 1..] == ReplaceFirst(e[p + 1..], '-', ':');
  }

  /** A text with neither `:` nor `-` encodes to one without `-`. */
  lemma NoDashEncoded(s: string)
    requires ':' !in s && '-' !in s
    ensures '-' !in SafeName(s)
  {
    assert forall k :: 0 <= k < |s| ==> SafeName(s)[k] == SafeChar(s[k]);
  }

  /** The round trip cut at the first `/`: a namespace that is its own
      encoding and has no `_`, and a rest that decodes back from its own
      encoding, with the `-` the rule needs in one of the two. */
  lemma RoundTripHalves(x: string) returns (p: nat)
    requires NameFromStem(SafeName(x)) == Some(x)
    ensures p < |x| && x[p] == '/'
    ensures '_' !in x[..p] && ':' !in x[..p] && '/' !in x[..p]
    ensures ReplaceFirst(SafeName(x[p + 1..]), '-', ':') == x[p + 1..]
    ensures '-' in x[..p] || '-' in SafeName(x[p + 1..])
  {
    p := DecodedPieces(x);
    SafeNameSlices(x, p);
    var e := SafeName(x);
    assert e == e[..p] + [e[p]] + e[p + 1..];
  }

  /** The shape is necessary for the round trip. */
  lemma RoundTripNecessary(x: string, p: nat, r: string, qe: nat)
    requires p < |x| && x[p] == '/' && r == x[p + 1..]
    requires '_' !in x[..p] && ':' !in x[..p] && '/' !in x[..p]
    requires qe <= |r|
    requires forall k :: 0 <= k < qe ==> r[k] != '/' && r[k] != ':' && r[k] != '-'
    requires qe < |r| ==> r[qe] == ':'
    requires forall k :: qe < k < |r| ==> r[k] != '/' && r[k] != ':'
    requires qe == |r| ==> '-' in x[..p]
    ensures RoundTripShape(x)
  {
    assert forall k :: 0 <= k < p ==> x[k] == x[..p][k];
    FirstIndexAt(x, '/', p);
    RestShape(r, qe);
  }

  /** The encoding of `ns/repo:tag` when only the two separators need it. */
  lemma EncodeTagged(ns: string, repo: string, tag: string)
    requires ':' !in ns && '/' !in ns && ':' !in repo && '/' !in repo && ':' !in tag && '/' !in tag
    ensures SafeName(ns + "/" + (repo + ":" + tag)) == ns + "_" + (repo + "-" + tag)
  {
    var x := ns + "/" + (repo + ":" + tag);
    var y := ns + "_" + (repo + "-" + tag);
    forall k | 0 <= k < |x|
      ensures SafeName(x)[k] == y[k]
    {
      if k < |ns| {
        assert x[k] == ns[k] && y[k] == ns[k];
      } else if k == |ns| {
        assert x[k] == '/' && y[k] == '_';
      } else if k < |ns| + 1 + |repo| {
        assert x[k] == repo[k - |ns| - 1] && y[k] == repo[k - |ns| - 1];
      } else if k == |ns| + 1 + |repo| {
        assert x[k] == ':' && y[k] == '-';
      } else {
        assert x[k] == tag[k - |ns| - |repo| - 2] && y[k] == tag[k - |ns| - |repo| - 2];
      }
    }
  }

  /** The conditions under which the downloader's file name is read back as the
      reference it came from: `ns/repo:tag` with no `_`, `/` or `:` in `ns`, no
      `/`, `:` or `-` in `repo`, and no `/` or `:` in `tag`. */
  lemma NamespacedRoundTrip(ns: string, repo: string, tag: string)
    requires '_' !in ns && '/' !in ns && ':' !in ns
    requires '/' !in repo && ':' !in repo && '-' !in repo
    requires '/' !in tag && ':' !in tag
    ensures NameFromStem(SafeName(ns + "/" + (repo + ":" + tag))) == Some(ns + "/" + (repo + ":" + tag))
  {
    EncodeTagged(ns, repo, tag);
    ReplaceFirstAt(repo, tag, '-', ':');
    DecodeAtUnderscore(ns, repo + "-" + tag);
  }

  /** The stem of an image's tar file name is its encoded name. */
  lemma StemOfTarFileName(image: string)
    requires image != []
    ensures Stem(TarFileName(image)) == SafeName(image)
  {
    StemOfTarName(SafeName(image));
  }

  /** At the file level: the importer's `get_image_name_from_tar` recovers the
      reference from the downloader's tar file name, whatever `docker load`
      would have said, exactly for references of the round-trip shape. */
  lemma TarFileRoundTrip(image: string, quietLoad: LoadExec)
    requires RoundTripShape(image)
    ensures ImageNameFromTar(TarFileName(image), quietLoad) == Some(image)
  {
    StemOfTarFileName(image);
    RoundTripSufficient(image);
  }

  /** A reference with no `/` and no `_` (an official image such as
      `mysql:8.0`) never decodes by its file name: the importer falls through
      to `docker load`. */
  lemma NoNamespaceFallsThrough(image: string)
    requires '/' !in image && '_' !in image
    ensures NameFromStem(SafeName(image)) == None
  {
    var e := SafeName(image);
    assert forall k :: 0 <= k < |e| ==> e[k] == SafeChar(image[k]) != '_';
  }

  /** A repository name with a `-` does not survive: the importer turns that
      `-`, the first one after the namespace, into the tag separator, so
      `ns/left-right:tag` comes back as `ns/left:right-tag`. */
  lemma HyphenatedRepositoryMisdecodes(ns: string, left: string, right: string, tag: string)
    requires '_' !in ns && '/' !in ns && ':' !in ns
    requires '/' !in left && ':' !in left && '-' !in left
    requires '/' !in right && ':' !in right
    requires '/' !in tag && ':' !in tag
    ensures NameFromStem(SafeName(ns + "/" + ((left + "-" + right) + ":" + tag)))
            == Some(ns + "/" + (left + ":" + (right + "-" + tag)))
    ensures NameFromStem(SafeName(ns + "/" + ((left + "-" + right) + ":" + tag)))
            != Some(ns + "/" + ((left + "-" + right) + ":" + tag))
  {
    var repo := left + "-" + right;
    assert ':' !in repo && '/' !in repo by {
      assert forall k :: 0 <= k < |repo| ==> repo[k] == (if k < |left| then left[k] else if k == |left| then '-' else right[k - |left| - 1]);
    }
    EncodeTagged(ns, repo, tag);
    var rest := repo + "-" + tag;
    assert rest == left + ['-'] + (right + "-" + tag);
    ReplaceFirstAt(left, right + "-" + tag, '-', ':');
    DecodeAtUnderscore(ns, rest);
    var original := ns + "/" + (repo + ":" + tag);
    var decoded := ns + "/" + (left + ":" + (right + "-" + tag));
    assert original[|ns| + 1 + |left|] == '-';
    assert decoded[|ns| + 1 + |left|] == ':';
  }

  /** The application image of every version survives the transfer by its
      tar file name, whatever `docker load` would say, as long as its tag has
      no `/` and no `:`. */
  lemma ConfluenceImageTransfers(tag: string, quietLoad: LoadExec)
    requires '/' !in tag && ':' !in tag
    ensures ImageNameFromTar(TarFileName(ConfluenceRepository + ":" + tag), quietLoad)
            == Some(ConfluenceRepository + ":" + tag)
  {
    var image := ConfluenceRepository + ":" + tag;
    assert image == "haxqer" + "/" + ("confluence" + ":" + tag);
    NamespacedRoundTrip("haxqer", "confluence", tag);
    StemOfTarFileName(image);
  }

  /** The database images have no namespace, so the importer cannot name them
      from their tar file names and falls back to `docker load`. */
  lemma DatabaseImageFallsThrough(db: string)
    ensures NameFromStem(Stem(TarFileName(DatabaseImage(db)))) == None
  {
    var image := DatabaseImage(db);
    assert image != [] && '/' !in image && '_' !in image;
    StemOfTarFileName(image);
    NoNamespaceFallsThrough(image);
  }

  /** The tags of the two version keys are plain. */
  lemma VersionTagsPlain(db: string, version: string)
    requires GetPredefinedImages(db, version) != []
    ensures GetPredefinedImages(db, version)[0] == ConfluenceRepository + ":" + version[|VersionKeyPrefix|..]
    ensures '/' !in version[|VersionKeyPrefix|..] && ':' !in version[|VersionKeyPrefix|..]
  {
    var tag := version[|VersionKeyPrefix|..];
    assert tag == "9.2.1" || tag == "8.5.23";
  }

  /** The predefined table transfers unevenly: the application image is
      recovered from its tar file name whatever `docker load` would say, while
      the database image (`mysql:8.0`, `postgres:15`) is left to `docker load`. */
  lemma PredefinedImagesTransfer(db: string, version: string, quietLoad: LoadExec)
    requires GetPredefinedImages(db, version) != []
    ensures ImageNameFromTar(TarFileName(GetPredefinedImages(db, version)[0]), quietLoad)
            == Some(GetPredefinedImages(db, version)[0])
    ensures NameFromStem(Stem(TarFileName(GetPredefinedImages(db, version)[1]))) == None
  {
    VersionTagsPlain(db, version);
    ConfluenceImageTransfers(version[|VersionKeyPrefix|..], quietLoad);
    DatabaseImageFallsThrough(db);
  }

  // ---------------------------------------------------------------------------
  // Manifest against the output directory

  /** The tar files the jobs leave in the output directory, when `left` says
      which job leaves its file. */
  function TarsLeftBy(completed: seq<ImageJob>, left: ImageJob -> bool): (files: set<string>)
    ensures forall i :: 0 <= i < |completed| && left(completed[i]) ==> TarFileName(completed[i].image) in files
    ensures forall f :: f in files ==>
              exists i :: 0 <= i < |completed| && left(completed[i]) && TarFileName(completed[i].image) == f
  {
    set i | 0 <= i < |completed| && left(completed[i]) :: TarFileName(completed[i].image)
  }

  /** Whether a job leaves its tar file, with the intended `save_image`. */
  predicate LeavesTar(job: ImageJob) {
    DownloadAndSave(job).tarLeft
  }

  /** Whether a job leaves its tar file, with `save_image` as written. */
  predicate LeavesTarAsWritten(job: ImageJob) {
    DownloadAndSaveAsWritten(job).tarLeft
  }

  /** No job removes a tar file it found, under either `save_image`; so the
      directory only grows, and what a job finds is what earlier jobs left. */
  lemma TarsNeverRemoved(job: ImageJob)
    ensures job.tarExists ==> LeavesTar(job) && LeavesTarAsWritten(job)
  {
  }

  /** The jobs ran one after another from an empty output directory: each job
      finds a tar file exactly when an earlier job left one under its name
      (images whose encodings coincide, or a duplicate in the list). */
  predicate SequentialBy(completed: seq<ImageJob>, left: ImageJob -> bool) {
    forall i :: 0 <= i < |completed| ==>
      (completed[i].tarExists <==> TarFileName(completed[i].image) in TarsLeftBy(completed[..i], left))
  }

  /** A job's tar file is among those the jobs before any later position left. */
  lemma LeftInPrefix(completed: seq<ImageJob>, left: ImageJob -> bool, i: nat, n: nat)
    requires i < n <= |completed| && left(completed[i])
    ensures TarFileName(completed[i].image) in TarsLeftBy(completed[..n], left)
  {
    assert completed[..n][i] == completed[i];
  }

  /** Some job left each tar file of the directory. */
  lemma LeaverOf(completed: seq<ImageJob>, left: ImageJob -> bool, f: string) returns (i: nat)
    requires f in TarsLeftBy(completed, left)
    ensures i < |completed| && left(completed[i]) && TarFileName(completed[i].image) == f
  {
    i :| 0 <= i < |completed| && left(completed[i]) && TarFileName(completed[i].image) == f;
  }

  /** The first jobs of a sequential run are a sequential run. */
  lemma SequentialPrefix(completed: seq<ImageJob>, left: ImageJob -> bool, n: nat)
    requires SequentialBy(completed, left) && n <= |completed|
    ensures SequentialBy(completed[..n], left)
  {
    forall i | 0 <= i < n
      ensures completed[..n][i].tarExists <==> TarFileName(completed[..n][i].image) in TarsLeftBy(completed[..n][..i], left)
    {
      assert completed[..n][..i] == completed[..i];
    }
  }

  /** Every tar file of a sequential run was first left by a job that did not
      find it. */
  lemma {:induction false} FirstLeaver(completed: seq<ImageJob>, left: ImageJob -> bool, f: string) returns (k: nat)
    requires SequentialBy(completed, left)
    requires f in TarsLeftBy(completed, left)
    ensures k < |completed| && left(completed[k]) && TarFileName(completed[k].image) == f
    ensures !completed[k].tarExists
    decreases |completed|
  {
    var n := |completed| - 1;
    var i := LeaverOf(completed, left, f);
    if i == n && !completed[n].tarExists {
      k := n;
    } else {
      if i < n {
        LeftInPrefix(completed, left, i, n);
      }
      SequentialPrefix(completed, left, n);
      k := FirstLeaver(completed[..n], left, f);
    }
  }

  /** The tar file names of the jobs that succeeded: the files the manifest lists. */
  function SavedTars(completed: seq<ImageJob>): (files: set<string>)
    ensures forall f :: f in files <==>
              exists i :: 0 <= i < |completed| && DownloadAndSave(completed[i]).success && TarFileName(completed[i].image) == f
  {
    set i | 0 <= i < |completed| && DownloadAndSave(completed[i]).success :: TarFileName(completed[i].image)
  }

  /** The partial tar files `save_image` as written leaves: those of the jobs
      whose save failed without removing the file. */
  function PartialTars(completed: seq<ImageJob>): (files: set<string>)
    ensures forall f :: f in files <==>
              exists i :: 0 <= i < |completed| && TarFileName(completed[i].image) == f
                && !DownloadAndSaveAsWritten(completed[i]).success && DownloadAndSaveAsWritten(completed[i]).saveAttempted
                && DownloadAndSaveAsWritten(completed[i]).tarLeft
  {
    set i | 0 <= i < |completed| && !DownloadAndSaveAsWritten(completed[i]).success
                                  && DownloadAndSaveAsWritten(completed[i]).saveAttempted
                                  && DownloadAndSaveAsWritten(completed[i]).tarLeft
          :: TarFileName(completed[i].image)
  }

  /** The manifest lists the tar file of every job that succeeded, and nothing else. */
  lemma ManifestFileSet(generatedAt: string, completed: seq<ImageJob>, outputDir: map<string, nat>)
    ensures FileSet(GenerateManifest(generatedAt, DownloadImages(completed).downloaded, outputDir)) == SavedTars(completed)
  {
    var run := DownloadImages(completed);
    var m := GenerateManifest(generatedAt, run.downloaded, outputDir);
    forall f | f in FileSet(m)
      ensures f in SavedTars(completed)
    {
      var j :| 0 <= j < |m.images| && m.images[j].file == f;
      DownloadedMembers(completed, run.downloaded[j]);
      assert run.downloaded[j] in run.downloaded;
    }
    forall f | f in SavedTars(completed)
      ensures f in FileSet(m)
    {
      var i :| 0 <= i < |completed| && DownloadAndSave(completed[i]).success && TarFileName(completed[i].image) == f;
      DownloadedMembers(completed, completed[i].image);
      var j :| 0 <= j < |run.downloaded| && run.downloaded[j] == completed[i].image;
      assert m.images[j].file == f;
    }
  }

  /** The tar files a download run leaves in the output directory. */
  function TarsLeft(completed: seq<ImageJob>): (files: set<string>)
    ensures forall i :: 0 <= i < |completed| && DownloadAndSave(completed[i]).tarLeft ==>
              TarFileName(completed[i].image) in files
    ensures forall f :: f in files ==>
              exists i :: 0 <= i < |completed| && DownloadAndSave(completed[i]).tarLeft && TarFileName(completed[i].image) == f
  {
    TarsLeftBy(completed, LeavesTar)
  }

  /** The tar files a download run leaves with `save_image` as written. */
  function TarsLeftAsWritten(completed: seq<ImageJob>): (files: set<string>)
    ensures forall i :: 0 <= i < |completed| && DownloadAndSaveAsWritten(completed[i]).tarLeft ==>
              TarFileName(completed[i].image) in files
    ensures forall f :: f in files ==>
              exists i :: 0 <= i < |completed| && DownloadAndSaveAsWritten(completed[i]).tarLeft && TarFileName(completed[i].image) == f
  {
    TarsLeftBy(completed, LeavesTarAsWritten)
  }

  /** After a sequential run with the intended `save_image`, the directory
      holds exactly the tar files of the jobs that succeeded: a job that found
      an earlier job's file reports success on it. */
  lemma SequentialTarsLeft(completed: seq<ImageJob>)
    requires SequentialBy(completed, LeavesTar)
    ensures TarsLeft(completed) == SavedTars(completed)
  {
    forall f | f in TarsLeft(completed)
      ensures f in SavedTars(completed)
    {
      var k := FirstLeaver(completed, LeavesTar, f);
    }
  }

  /** After a sequential run with `save_image` as written, the directory holds
      the tar files of the jobs that succeeded and the partial ones. */
  lemma SequentialTarsLeftAsWritten(completed: seq<ImageJob>)
    requires SequentialBy(completed, LeavesTarAsWritten)
    ensures TarsLeftAsWritten(completed) == SavedTars(completed) + PartialTars(completed)
  {
    forall f | f in TarsLeftAsWritten(completed)
      ensures f in SavedTars(completed) + PartialTars(completed)
    {
      var k := FirstLeaver(completed, LeavesTarAsWritten, f);
      if !DownloadAndSave(completed[k]).success {
        assert f in PartialTars(completed);
      }
    }
  }

  /** Every file the manifest lists is a tar file the run left behind, so
      copying the output directory over leaves nothing missing. */
  lemma ManifestFilesWereSaved(generatedAt: string, completed: seq<ImageJob>, outputDir: map<string, nat>)
    ensures FileSet(GenerateManifest(generatedAt, DownloadImages(completed).downloaded, outputDir)) <= TarsLeft(completed)
    ensures FileSet(GenerateManifest(generatedAt, DownloadImages(completed).downloaded, outputDir)) <= TarsLeftAsWritten(completed)
  {
    ManifestFileSet(generatedAt, completed, outputDir);
  }

  /** A run from an empty output directory whose images all have distinct tar
      file names, so that no job finds a tar file, in whatever order the
      workers run: the manifest lists exactly the tar files the run leaves, and
      an offline host that finds exactly those files reports neither missing
      nor extra files. */
  lemma FreshTransferAgrees(generatedAt: string, completed: seq<ImageJob>, outputDir: map<string, nat>, found: seq<string>)
    requires forall i, j :: 0 <= i < j < |completed| ==> TarFileName(completed[i].image) != TarFileName(completed[j].image)
    requires forall i :: 0 <= i < |completed| ==> !completed[i].tarExists
    requires FoundSet(found) == TarsLeft(completed)
    ensures DiffManifest(GenerateManifest(generatedAt, DownloadImages(completed).downloaded, outputDir), found)
            == ManifestDiff({}, {})
  {
    ManifestFileSet(generatedAt, completed, outputDir);
    forall f | f in TarsLeft(completed)
      ensures f in SavedTars(completed)
    {
      var i :| 0 <= i < |completed| && DownloadAndSave(completed[i]).tarLeft && TarFileName(completed[i].image) == f;
    }
  }

  /** The same for a sequential run from an empty directory, where a job may
      find the tar file an earlier job left under the same name. */
  lemma SequentialTransferAgrees(generatedAt: string, completed: seq<ImageJob>, outputDir: map<string, nat>, found: seq<string>)
    requires SequentialBy(completed, LeavesTar)
    requires FoundSet(found) == TarsLeft(completed)
    ensures DiffManifest(GenerateManifest(generatedAt, DownloadImages(completed).downloaded, outputDir), found)
            == ManifestDiff({}, {})
  {
    ManifestFileSet(generatedAt, completed, outputDir);
    SequentialTarsLeft(completed);
  }

  /** With `save_image` as written, the offline host still misses nothing, but
      reports as extra exactly the partial tar files that no successful job
      reused. */
  lemma AsWrittenTransferExtra(generatedAt: string, completed: seq<ImageJob>, outputDir: map<string, nat>, found: seq<string>)
    requires SequentialBy(completed, LeavesTarAsWritten)
    requires FoundSet(found) == TarsLeftAsWritten(completed)
    ensures DiffManifest(GenerateManifest(generatedAt, DownloadImages(completed).downloaded, outputDir), found)
            == ManifestDiff({}, PartialTars(completed) - SavedTars(completed))
  {
    var m := GenerateManifest(generatedAt, DownloadImages(completed).downloaded, outputDir);
    ManifestFileSet(generatedAt, completed, outputDir);
    SequentialTarsLeftAsWritten(completed);
    DiffOfFileSets(m, found, SavedTars(completed), PartialTars(completed));
  }

  /** The diff of a manifest listing `listed` against a directory holding
      `listed` and `more`: nothing missing, and `more` less `listed` extra. */
  lemma DiffOfFileSets(m: Manifest, found: seq<string>, listed: set<string>, more: set<string>)
    requires FileSet(m) == listed
    requires FoundSet(found) == listed + more
    ensures DiffManifest(m, found) == ManifestDiff({}, more - listed)
  {
    var d := DiffManifest(m, found);
    assert d.missing == {};
    assert d.extra == more - listed;
  }

  /** The smallest case: one image whose `docker save` raises after the tar file
      was opened. The import side then reports that file as extra. */
  lemma RaisingSaveLeavesExtra(generatedAt: string, image: string, inspect: Exec, pull: Exec,
                               outputDir: map<string, nat>, found: seq<string>)
    requires PullImage(inspect, pull).ok
    requires FoundSet(found) == TarsLeftAsWritten([ImageJob(image, inspect, pull, false, SaveRaised)])
    ensures DiffManifest(GenerateManifest(generatedAt, DownloadImages([ImageJob(image, inspect, pull, false, SaveRaised)]).downloaded, outputDir), found)
            == ManifestDiff({}, {TarFileName(image)})
  {
    var job := ImageJob(image, inspect, pull, false, SaveRaised);
    assert SequentialBy([job], LeavesTarAsWritten) by {
      assert [job][..0] == [];
    }
    AsWrittenTransferExtra(generatedAt, [job], outputDir, found);
    assert PartialTars([job]) == {TarFileName(image)};
    assert SavedTars([job]) == {};
  }
}
