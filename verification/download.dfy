/** The bookkeeping of `scripts/download_images.py`, the tool run on the
    networked host: choose the images, pull and save each one as a tar file,
    account for successes and failures, and describe the saved files in the
    manifest. Every `docker` call is an input: how it ended is given, never run. */
module Downloader {
  import opened Wrappers
  import opened Text
  import opened Accounting
  import opened ManifestFormat

  // ---------------------------------------------------------------------------
  // Image reference -> tar file name

  /** The character the file name uses for `ch`. */
  function SafeChar(ch: char): char {
    if ch == ':' then '-' else if ch == '/' then '_' else ch
  }

  /** `image.replace(':', '-').replace('/', '_')`: the same length as the
      reference, free of `:` and `/`, every other character kept in place. */
  function SafeName(image: string): (safe: string)
    ensures |safe| == |image|
    ensures forall k :: 0 <= k < |image| ==> safe[k] == SafeChar(image[k])
    ensures ':' !in safe && '/' !in safe
  {
    ReplaceAll(ReplaceAll(image, ':', '-'), '/', '_')
  }

  const TarSuffix := ".tar"

  /** The one file name under which an image is saved, listed in the download
      summary and recorded in the manifest: a plain name inside the output
      directory that ends in `.tar`. */
  function TarFileName(image: string): (file: string)
    ensures |file| == |image| + |TarSuffix|
    ensures file[..|image|] == SafeName(image) && file[|image|..] == TarSuffix
    ensures '/' !in file && ':' !in file
  {
    SafeName(image) + TarSuffix
  }

  // ---------------------------------------------------------------------------
  // Image selection

  const ConfluenceRepository := "haxqer/confluence"
  const VersionKeyPrefix := "confluence_"

  /** The `image_configs` table: database type -> version key -> images. */
  const ImageConfigs: map<string, map<string, seq<string>>> := map[
    "mysql" := map[
      "confluence_9.2.1" := ["haxqer/confluence:9.2.1", "mysql:8.0"],
      "confluence_8.5.23" := ["haxqer/confluence:8.5.23", "mysql:8.0"]
    ],
    "postgresql" := map[
      "confluence_9.2.1" := ["haxqer/confluence:9.2.1", "postgres:15"],
      "confluence_8.5.23" := ["haxqer/confluence:8.5.23", "postgres:15"]
    ]
  ]

  /** The application image a version key names: its tag is the key's suffix. */
  function ConfluenceImage(versionKey: string): string
    requires VersionKeyPrefix <= versionKey
  {
    ConfluenceRepository + ":" + versionKey[|VersionKeyPrefix|..]
  }

  /** The database image that goes with a database type. */
  function DatabaseImage(db: string): string {
    if db == "mysql" then "mysql:8.0" else "postgres:15"
  }

  /** `get_predefined_images`: empty for an unknown database type or an unknown
      version; otherwise the application image followed by the database image. */
  function GetPredefinedImages(db: string, version: string): (images: seq<string>)
    ensures images != [] <==> db in {"mysql", "postgresql"} && version in {"confluence_9.2.1", "confluence_8.5.23"}
    ensures images != [] ==> VersionKeyPrefix <= version && images == [ConfluenceImage(version), DatabaseImage(db)]
  {
    if db !in ImageConfigs then []
    else if version !in ImageConfigs[db] then []
    else
      assert ConfluenceImage("confluence_9.2.1") == "haxqer/confluence:9.2.1";
      assert ConfluenceImage("confluence_8.5.23") == "haxqer/confluence:8.5.23";
      ImageConfigs[db][version]
  }

  /** An optional command-line value Python treats as true: given and non-empty. */
  predicate Given(arg: Option<string>) {
    arg.Some? && arg.value != ""
  }

  /** The `--db`/`--version` check in `main`: either both are given or neither. */
  function DbVersionPairingOk(db: Option<string>, version: Option<string>): (ok: bool)
    ensures ok <==> (Given(db) <==> Given(version))
  {
    if Given(db) || Given(version) then Given(db) && Given(version) else true
  }

  // ---------------------------------------------------------------------------
  // Compose file

  /** One entry of the compose file's `services` mapping, after YAML parsing. */
  datatype Service = Service(name: string, config: map<string, string>)

  /** The parsed compose file; `Unreadable` stands for every exception
      `parse_compose_file` catches (missing file, bad YAML, wrong shape). A file
      without a `services` key is a `Document` with no services. */
  datatype ComposeDoc = Unreadable | Document(services: seq<Service>)

  predicate HasImage(s: Service) {
    "image" in s.config
  }

  /** The `image` values of the services that have one, in service order. */
  function ImagesOf(services: seq<Service>): (images: seq<string>)
    ensures |images| <= |services|
  {
    if services == [] then []
    else
      var last := services[|services| - 1];
      ImagesOf(services[..|services| - 1]) + (if HasImage(last) then [last.config["image"]] else [])
  }

  /** `parse_compose_file`: the loop over `services.items()`. */
  method ParseComposeFile(doc: ComposeDoc) returns (images: seq<string>)
    ensures doc.Unreadable? ==> images == []
    ensures doc.Document? ==> images == ImagesOf(doc.services) && |images| <= |doc.services|
  {
    images := [];
    if doc.Unreadable? {
      return;
    }
    var services := doc.services;
    for i := 0 to |services|
      invariant images == ImagesOf(services[..i])
    {
      assert services[..i + 1][..i] == services[..i];
      if HasImage(services[i]) {
        images := images + [services[i].config["image"]];
      }
    }
    assert services[..|services|] == services;
  }

  /** Extraction keeps service order: the images of two runs of services are
      the images of the first run followed by those of the second. */
  lemma {:induction false} ImagesOfAppend(a: seq<Service>, b: seq<Service>)
    ensures ImagesOf(a + b) == ImagesOf(a) + ImagesOf(b)
    decreases |b|
  {
    if b == [] {
      assert a + b == a;
    } else {
      assert (a + b)[..|a + b| - 1] == a + b[..|b| - 1];
      ImagesOfAppend(a, b[..|b| - 1]);
    }
  }

  /** An image is extracted exactly when some service declares it. */
  lemma {:induction false} ImagesOfMembers(services: seq<Service>, image: string)
    ensures image in ImagesOf(services) <==>
              exists k :: 0 <= k < |services| && HasImage(services[k]) && services[k].config["image"] == image
  {
    if services != [] {
      var init := services[..|services| - 1];
      ImagesOfMembers(init, image);
      assert forall k :: 0 <= k < |init| ==> init[k] == services[k];
    }
  }

  // ---------------------------------------------------------------------------
  // One image: pull, then save

  /** How one `docker` subprocess ended: its exit status, or an exception
      raised on the Python side (the binary missing, an OS error). */
  datatype Exec = Exited(code: int) | Raised

  datatype PullOutcome = PullOutcome(ok: bool, pulled: bool)

  /** `pull_image`, given how `docker image inspect` and `docker pull` end: an
      image already present is reported pulled without pulling; an inspect that
      raises (rather than exiting non-zero) fails before anything is pulled. */
  function PullImage(inspect: Exec, pull: Exec): (r: PullOutcome)
    ensures inspect == Exited(0) ==> r.ok && !r.pulled
    ensures r.pulled <==> inspect.Exited? && inspect.code != 0
    ensures r.ok <==> inspect == Exited(0) || (r.pulled && pull == Exited(0))
  {
    match inspect
    case Raised => PullOutcome(false, false)
    case Exited(code) =>
      if code == 0 then PullOutcome(true, false)
      else PullOutcome(pull == Exited(0), true)
  }

  /** How `docker save` ends inside `save_image`: an exit status together with
      whether its error output decodes as UTF-8 (`stderr.decode()`), `open`
      of the tar file failing before anything is created, or `subprocess.run`
      raising after the tar file was created. */
  datatype SaveExec = SaveExited(code: int, stderrDecodes: bool) | OpenFailed | SaveRaised

  /** `ok` is the returned flag, `ran` says whether a save was attempted, and
      `tarLeft` whether the tar file exists afterwards. */
  datatype SaveOutcome = SaveOutcome(ok: bool, ran: bool, tarLeft: bool)

  /** `save_image` as written. A tar file that already exists is reported as
      saved. A non-zero exit removes the tar file, but only after
      `stderr.decode()` succeeds; an exception after the file was opened skips
      the removal. So a failed save leaves a partial tar file behind exactly on
      those two paths. */
  function SaveImageAsWritten(tarExists: bool, save: SaveExec): (r: SaveOutcome)
    ensures tarExists ==> r.ok && !r.ran && r.tarLeft
    ensures r.ran <==> !tarExists
    ensures r.ok ==> r.tarLeft
    ensures !tarExists && save == OpenFailed ==> !r.ok && !r.tarLeft
    ensures r.ok <==> tarExists || (save.SaveExited? && save.code == 0)
    ensures (!r.ok && r.tarLeft) <==>
              !tarExists && (save == SaveRaised || (save.SaveExited? && save.code != 0 && !save.stderrDecodes))
  {
    if tarExists then SaveOutcome(true, false, true)
    else
      match save
      case OpenFailed => SaveOutcome(false, true, false)
      case SaveRaised => SaveOutcome(false, true, true)
      case SaveExited(code, decodes) =>
        if code == 0 then SaveOutcome(true, true, true)
        else SaveOutcome(false, true, !decodes)
  }

  /** `save_image` with the removal the source intends on every failure path:
      the returned flag is true exactly when the tar file exists afterwards. */
  function SaveImage(tarExists: bool, save: SaveExec): (r: SaveOutcome)
    ensures tarExists ==> r.ok && !r.ran
    ensures r.ran <==> !tarExists
    ensures r.ok <==> tarExists || (save.SaveExited? && save.code == 0)
    ensures r.tarLeft <==> r.ok
  {
    var written := SaveImageAsWritten(tarExists, save);
    written.(tarLeft := written.ok)
  }

  /** The partial tar file of `save_image` as written: the failed save leaves
      it behind, and the next run, finding it, reports the image saved without
      running `docker save` at all. */
  lemma PartialTarReportedSaved(save: SaveExec, retry: SaveExec)
    requires save == SaveRaised || (save.SaveExited? && save.code != 0 && !save.stderrDecodes)
    ensures !SaveImageAsWritten(false, save).ok && SaveImageAsWritten(false, save).tarLeft
    ensures var next := SaveImageAsWritten(SaveImageAsWritten(false, save).tarLeft, retry);
            next.ok && !next.ran
  {
  }

  /** With the removal on every failure path, a run after a failed save
      behaves exactly like the first attempt: it saves again. */
  lemma FailedSaveIsRetried(save: SaveExec, retry: SaveExec)
    requires !SaveImage(false, save).ok
    ensures SaveImage(SaveImage(false, save).tarLeft, retry) == SaveImage(false, retry)
    ensures SaveImage(SaveImage(false, save).tarLeft, retry).ran
  {
  }

  /** Everything the outside world decides about one image of the list. */
  datatype ImageJob = ImageJob(image: string, inspect: Exec, pull: Exec, tarExists: bool, save: SaveExec)

  /** `success` is the flag `download_and_save_image` returns; `saveAttempted`
      and `tarLeft` record its effects on the output directory. */
  datatype JobOutcome = JobOutcome(image: string, success: bool, saveAttempted: bool, tarLeft: bool)

  /** `download_and_save_image`: the save is attempted only after a successful
      pull; a successful job leaves its tar file behind and a failed one leaves
      the directory as it found it or without the tar file. */
  function DownloadAndSave(job: ImageJob): (r: JobOutcome)
    ensures r.image == job.image
    ensures r.saveAttempted <==> PullImage(job.inspect, job.pull).ok
    ensures r.success <==> r.saveAttempted && SaveImage(job.tarExists, job.save).ok
    ensures r.success ==> r.tarLeft
    ensures !r.success && r.saveAttempted ==> !r.tarLeft
    ensures !r.saveAttempted ==> r.tarLeft == job.tarExists
  {
    var pulled := PullImage(job.inspect, job.pull);
    if !pulled.ok then JobOutcome(job.image, false, false, job.tarExists)
    else
      var saved := SaveImage(job.tarExists, job.save);
      JobOutcome(job.image, saved.ok, true, saved.tarLeft)
  }

  /** `download_and_save_image` over `save_image` as written: the same flag as
      above, but a failed save leaves a partial tar file behind on the two
      paths that skip the removal. */
  function DownloadAndSaveAsWritten(job: ImageJob): (r: JobOutcome)
    ensures r.image == job.image
    ensures r.success == DownloadAndSave(job).success
    ensures r.saveAttempted == DownloadAndSave(job).saveAttempted
    ensures r.tarLeft <==>
              DownloadAndSave(job).tarLeft
              || (r.saveAttempted && !job.tarExists
                  && (job.save == SaveRaised || (job.save.SaveExited? && job.save.code != 0 && !job.save.stderrDecodes)))
  {
    var pulled := PullImage(job.inspect, job.pull);
    if !pulled.ok then JobOutcome(job.image, false, false, job.tarExists)
    else
      var saved := SaveImageAsWritten(job.tarExists, job.save);
      JobOutcome(job.image, saved.ok, true, saved.tarLeft)
  }

  /** The list an image lands in: `downloaded_images` or `failed_images`. */
  function ClassifyJob(job: ImageJob): (v: Verdict<string, string>)
    ensures v.Passed? <==> DownloadAndSave(job).success
    ensures v == Passed(job.image) || v == Failed(job.image)
  {
    if DownloadAndSave(job).success then Passed(job.image) else Failed(job.image)
  }

  // ---------------------------------------------------------------------------
  // The whole list

  datatype DownloadRun = DownloadRun(ok: bool, downloaded: seq<string>, failed: seq<string>)

  /** `download_images` over the jobs in the order the pool completed them:
      false on an empty list, otherwise true exactly when no job failed; every
      job lands in exactly one of the two lists. */
  function DownloadImages(completed: seq<ImageJob>): (r: DownloadRun)
    ensures completed == [] ==> !r.ok && r.downloaded == [] && r.failed == []
    ensures |r.downloaded| + |r.failed| == |completed|
    ensures completed != [] ==>
              (r.ok <==> forall i :: 0 <= i < |completed| ==> DownloadAndSave(completed[i]).success)
  {
    if completed == [] then DownloadRun(false, [], [])
    else
      var t := Fold(completed, ClassifyJob);
      FoldNoFailures(completed, ClassifyJob);
      DownloadRun(t.failed == [], t.passed, t.failed)
  }

  /** The pool's completion order changes neither the verdict nor the lists'
      contents. */
  lemma DownloadOrderIrrelevant(a: seq<ImageJob>, b: seq<ImageJob>)
    requires multiset(a) == multiset(b)
    ensures DownloadImages(a).ok == DownloadImages(b).ok
    ensures multiset(DownloadImages(a).downloaded) == multiset(DownloadImages(b).downloaded)
    ensures multiset(DownloadImages(a).failed) == multiset(DownloadImages(b).failed)
  {
    FoldOrderIrrelevant(a, b, ClassifyJob);
    if a != [] {
      assert b != [] by {
        assert a[0] in multiset(b);
      }
      assert |Fold(a, ClassifyJob).failed| == |multiset(Fold(a, ClassifyJob).failed)|;
    } else {
      assert b == [] by {
        assert |multiset(b)| == 0;
      }
    }
  }

  /** An image is in `downloaded_images` exactly when one of its jobs succeeded,
      and in `failed_images` exactly when one of them failed. */
  lemma DownloadedMembers(completed: seq<ImageJob>, image: string)
    ensures image in DownloadImages(completed).downloaded <==>
              exists i :: 0 <= i < |completed| && completed[i].image == image && DownloadAndSave(completed[i]).success
    ensures image in DownloadImages(completed).failed <==>
              exists i :: 0 <= i < |completed| && completed[i].image == image && !DownloadAndSave(completed[i]).success
  {
    if completed != [] {
      FoldMembers(completed, ClassifyJob, image, image);
    }
  }

  /** The positions of the jobs for `image` that succeeded, or that failed. */
  function JobsOf(completed: seq<ImageJob>, image: string, succeeded: bool): (p: set<int>)
    ensures forall i :: i in p <==>
              0 <= i < |completed| && completed[i].image == image && DownloadAndSave(completed[i]).success == succeeded
  {
    set i | 0 <= i < |completed| && completed[i].image == image && DownloadAndSave(completed[i]).success == succeeded
  }

  /** An image occurs in `downloaded_images` once per job of it that succeeded,
      and in `failed_images` once per job of it that failed: a repeated image
      is listed as often as it was handled. */
  lemma DownloadedCounts(completed: seq<ImageJob>, image: string)
    ensures multiset(DownloadImages(completed).downloaded)[image] == |JobsOf(completed, image, true)|
    ensures multiset(DownloadImages(completed).failed)[image] == |JobsOf(completed, image, false)|
  {
    var t := Fold(completed, ClassifyJob);
    assert DownloadImages(completed).downloaded == t.passed && DownloadImages(completed).failed == t.failed;
    FoldCounts(completed, ClassifyJob, image, image);
    assert Positions(completed, ClassifyJob, Passed(image)) == JobsOf(completed, image, true);
    assert Positions(completed, ClassifyJob, Failed(image)) == JobsOf(completed, image, false);
  }

  // ---------------------------------------------------------------------------
  // Summary and manifest

  /** The counts `show_download_summary` prints. */
  datatype DownloadSummary = DownloadSummary(total: nat, succeeded: nat, failed: nat)

  function SummarizeDownload(run: DownloadRun): (s: DownloadSummary)
    ensures s.total == s.succeeded + s.failed
    ensures s.succeeded == |run.downloaded| && s.failed == |run.failed|
  {
    DownloadSummary(|run.downloaded| + |run.failed|, |run.downloaded|, |run.failed|)
  }

  /** The summary's total is the number of images that were asked for. */
  lemma SummaryCountsEveryImage(completed: seq<ImageJob>)
    ensures SummarizeDownload(DownloadImages(completed)).total == |completed|
  {
  }

  /** The manifest record of one downloaded image; `outputDir` maps the names
      of the files in the output directory to their sizes in bytes. */
  function EntryFor(image: string, outputDir: map<string, nat>): Entry {
    var file := TarFileName(image);
    Entry(image, file, if file in outputDir then outputDir[file] else 0)
  }

  /** `generate_manifest`: one record per downloaded image, in the order of
      `downloaded_images`, naming the tar file `save_image` writes, with its
      size or 0 when the file is gone; `total_images` counts the records. */
  function GenerateManifest(generatedAt: string, downloaded: seq<string>, outputDir: map<string, nat>): (m: Manifest)
    ensures m.generatedAt == generatedAt
    ensures m.totalImages == |m.images| == |downloaded|
    ensures forall i :: 0 <= i < |downloaded| ==>
              m.images[i].name == downloaded[i] && m.images[i].file == TarFileName(downloaded[i])
    ensures forall i :: 0 <= i < |downloaded| ==>
              m.images[i].sizeBytes == (if m.images[i].file in outputDir then outputDir[m.images[i].file] else 0)
  {
    var entries := seq(|downloaded|, i requires 0 <= i < |downloaded| => EntryFor(downloaded[i], outputDir));
    Manifest(generatedAt, |entries|, entries)
  }

  /** `main` writes the manifest unless `--no-manifest` was given or nothing was
      downloaded. */
  function ManifestWritten(noManifest: bool, generatedAt: string, run: DownloadRun, outputDir: map<string, nat>): (m: Option<Manifest>)
    ensures m.Some? <==> !noManifest && run.downloaded != []
    ensures m.Some? ==> m.value.totalImages == |run.downloaded| > 0
    ensures m.Some? ==> m.value == GenerateManifest(generatedAt, run.downloaded, outputDir)
  {
    if !noManifest && run.downloaded != [] then Some(GenerateManifest(generatedAt, run.downloaded, outputDir))
    else None
  }
}
