# Offline image transfer: a Dafny model

Two Python scripts move the Docker images of a Confluence deployment from a
networked host to an offline one. `scripts/download_images.py` pulls each
image, saves it as a tar file in an output directory and writes
`images_manifest.json` next to the files. `scripts/import_images.py` runs on the
offline host. It finds the tar files, compares them with the manifest and loads
each one with `docker load`. Both scripts wrap the `docker` CLI around a small,
pure bookkeeping layer. This project models that layer and proves what it
promises:

- the image-name to tar-file-name codec and its partial inverse, with the
  exact condition under which a name survives the round trip;
- image selection: the predefined table, the compose-file extraction and the
  `--db`/`--version` pairing check;
- pulling and saving one image, with the save gated on the pull;
- parsing the `Loaded image:` report of `docker load`;
- the success/failure lists both thread pools fill, and the summary totals;
- the manifest records and the missing/extra check against the files found.

Every `docker` call, filesystem probe and clock reading is an input, never an
effect. Each subprocess outcome is a datatype (`Exec`, `SaveExec`,
`LoadExec`): an exit status, or an exception raised on the Python side. A file
is represented by whether it exists and its size. The output directory is a
map from file names to sizes. Both thread pools are modelled as a fold over
the items in the order the pool completed them. That order is not controlled,
so the lemmas state the lists' contents as multisets and show that they do not
depend on it.

Modules:

- `Wrappers`: `Option`.
- `Text`: the Python string operations the scripts use. These are
  `str.replace` (all occurrences, or only the first), `split(c, 1)`,
  `split(c)` and `strip()` with Python's whitespace set.
- `Accounting`: the generic pass/fail fold behind both result lists.
- `ManifestFormat`: the manifest record.
- `Downloader`: `download_images.py`.
- `Importer`: `import_images.py`.
- `Transfer`: lemmas that relate the two scripts, namely the codec round trip
  and the manifest against the files actually left behind.

`get_image_name_from_tar` (`scripts/import_images.py:127-157`) holds the
importer's file-name rule. Nothing in the import path calls it: the name an
import reports comes from the `docker load` output instead. The function is
modelled anyway (`Importer.ImageNameFromTar`), because it is the only inverse
of the downloader's encoding. Both load paths read the `Loaded image:` line
from the subprocess's error stream, as the code is written, and the model does
the same.

## Model

| member | source | states |
|---|---|---|
| `Text.ReplaceFirst` | scripts/import_images.py:139 | `replace('-', ':', 1)`: the length is kept; only the occurrence with none before it is replaced; every other character is unchanged |
| `Text.SplitOnce` | scripts/import_images.py:136-137 | `split('_', 1)`: one part when the separator is absent, otherwise two parts around its first occurrence, rejoining to the input |
| `Text.JoinSplit` | scripts/import_images.py:201 | rejoining the parts of `split('\n')` with the separator gives back the text |
| `Text.Strip` | scripts/import_images.py:203 | `strip()` with no argument: the result is one contiguous piece of the text with whitespace before and after it and no whitespace at either of its ends; an all-whitespace text strips to empty, and a text whose ends are already clean stays as it is |
| `Text.StripUnique` | scripts/import_images.py:203 | any piece of the text with clean ends and only whitespace around it is what `strip()` returns, so the contract above pins the result down |
| `Downloader.SafeName` | scripts/download_images.py:166 | the encoded name has the image's length and contains no `:` and no `/`; every `:` becomes `-`, every `/` becomes `_`, and every other character stays in place |
| `Downloader.TarFileName` | scripts/download_images.py:166-167 | the tar file name is the encoded name followed by `.tar`: its first part is the image with every `:` turned into `-` and every `/` into `_`, and it has neither `/` nor `:`, so it stays inside the output directory |
| `Downloader.GetPredefinedImages` | scripts/download_images.py:115-125 | the result is empty exactly when the database type is not `mysql`/`postgresql` or the version is not one of the two keys; otherwise it is `haxqer/confluence:<suffix of the key>` followed by `mysql:8.0` or `postgres:15` |
| `Downloader.DbVersionPairingOk` | scripts/download_images.py:362-364 | the check passes exactly when `--db` and `--version` are both given or both absent (empty counts as absent) |
| `Downloader.ParseComposeFile` | scripts/download_images.py:95-113 | an unreadable file yields no images; otherwise the result is the `image` values of the services that have one, in service order, and there are never more of them than services |
| `Downloader.ImagesOfAppend` | scripts/download_images.py:104-107 | extraction keeps service order: the images of two runs of services are those of the first followed by those of the second |
| `Downloader.ImagesOfMembers` | scripts/download_images.py:104-107 | an image is extracted exactly when some service declares it under `image` |
| `Downloader.PullImage` | scripts/download_images.py:136-160 | an image already present succeeds without a pull; a pull happens exactly when `docker image inspect` exits non-zero; success means present already, or pulled with exit status 0 |
| `Downloader.SaveImageAsWritten` | scripts/download_images.py:162-196 | an existing tar file is reported saved without attempting a save; a save is attempted (the tar file is opened) exactly when no tar file exists, and `docker save` runs unless that `open` fails, which fails the call and leaves no file; success means exit status 0 and leaves the tar file; a failed save leaves the tar file behind exactly when the exception path or an undecodable error output skips the removal |
| `Downloader.PartialTarReportedSaved` | scripts/download_images.py:170-196 | after a failure that leaves the tar file, the next run reports the image saved and attempts no save, so `docker save` never runs |
| `Downloader.SaveImage` | scripts/download_images.py:170-192 | the intended `save_image`: a save is attempted (the tar file is opened) exactly when no tar file exists, and `docker save` runs unless that `open` fails; and a tar file remains exactly when the call reports success |
| `Downloader.FailedSaveIsRetried` | scripts/download_images.py:170-192 | with the intended removal, a run after a failed save behaves like a first attempt: it attempts the save again (opens the tar file), and `docker save` runs unless that `open` fails |
| `Downloader.DownloadAndSave` | scripts/download_images.py:198-215 | with the intended `save_image`: the save is attempted exactly when the pull succeeded; the flag is true exactly when both succeeded; success leaves the tar file, a failed save leaves none, and a failed pull leaves the directory as it was |
| `Downloader.DownloadAndSaveAsWritten` | scripts/download_images.py:162-215 | with `save_image` as written: the same flag and the same save attempt as above, but the tar file also stays after a save that raised, or whose error output could not be decoded, when no file was there before |
| `Downloader.ClassifyJob` | scripts/download_images.py:210-213 | each image goes to `downloaded_images` exactly when its job succeeded, and otherwise to `failed_images`, under its own name |
| `Downloader.DownloadImages` | scripts/download_images.py:217-256 | an empty list returns false with both lists empty; otherwise every image lands in exactly one list, and the result is true exactly when every job succeeded |
| `Downloader.DownloadedCounts` | scripts/download_images.py:210-213 | an image occurs in `downloaded_images` as many times as it has jobs that succeeded, and in `failed_images` as many times as it has jobs that failed, so a repeated image is listed once per job |
| `Downloader.DownloadOrderIrrelevant` | scripts/download_images.py:230-248 | two completion orders of the same jobs give the same verdict and the same two lists up to order |
| `Downloader.DownloadedMembers` | scripts/download_images.py:210-213 | an image is in `downloaded_images` exactly when one of its jobs succeeded, and in `failed_images` exactly when one failed |
| `Downloader.SummarizeDownload` | scripts/download_images.py:258-268 | the printed total is the number of successes plus the number of failures |
| `Downloader.SummaryCountsEveryImage` | scripts/download_images.py:260 | the summary total equals the number of images that were asked for |
| `Downloader.GenerateManifest` | scripts/download_images.py:286-305 | `total_images` equals the number of records and of downloaded images; record `i` names the `i`-th downloaded image and the exact tar file name `save_image` writes, with that file's size or 0 when it is gone |
| `Downloader.ManifestWritten` | scripts/download_images.py:406-408 | the manifest is written exactly when `--no-manifest` is absent and something was downloaded; it is then the `generate_manifest` record of the downloaded images, whose `total_images` is their number, which is positive |
| `Accounting.Record` | scripts/import_images.py:250-256 | one verdict appends to exactly one of the two lists and leaves the other unchanged |
| `Accounting.Fold` | scripts/import_images.py:246-262 | after the pool drains, the two lists together hold one entry per completed item |
| `Accounting.FoldAppend` | scripts/import_images.py:246-262 | the lists of a run are the lists of its first part followed by those of the rest |
| `Accounting.FoldMembers` | scripts/import_images.py:250-256 | a value is in a list exactly when some completed item was classified into that list with that value |
| `Accounting.FoldCounts` | scripts/import_images.py:250-256 | each value occurs in a list exactly as many times as there are completed items classified into that list with that value |
| `Accounting.FoldNoFailures` | scripts/import_images.py:270 | the failure list is empty exactly when every completed item passed |
| `Accounting.FoldOrderIrrelevant` | scripts/import_images.py:238-262 | two completion orders of the same items give the same two lists up to order |
| `ManifestFormat.FileSet` | scripts/import_images.py:423 | a name is among the manifest's file names exactly when some record carries it |
| `Importer.Stem` | scripts/import_images.py:131 | `Path.stem` is a prefix of the name; a suffix is cut exactly when the name has a `.` after its first character and does not end in `.`, and what is cut then starts at the last `.`; a name without `.` is its own stem |
| `Importer.StemOfTarName` | scripts/import_images.py:131 | the stem of `x.tar` is `x` for every non-empty `x` |
| `Importer.NameFromStem` | scripts/import_images.py:133-140 | a stem decodes exactly when it holds both `_` and `-`; it decodes to the text before its first `_`, then `/`, then the rest with only its first `-` turned into `:` |
| `Importer.ImageNameFromTar` | scripts/import_images.py:127-157 | the file-name rule wins when it applies; otherwise a name comes only from a successful `docker load --quiet` whose output holds a `Loaded image:` line, and it is then the stripped text after the prefix on the first such line; a load that raises or exits non-zero gives no name |
| `Importer.Lines` | scripts/import_images.py:201 | `split('\n')`: at least one line, none containing a newline, and rejoining them gives back the output |
| `Importer.FirstLoadedLine` | scripts/import_images.py:201-204 | the index found starts with `Loaded image:` and no earlier line does; there is none exactly when no line starts that way |
| `Importer.LoadedNameAfterPrefix` | scripts/import_images.py:202-203 | on a `Loaded image:` line the first `:` is the prefix's own, so `split(':', 1)[1].strip()` is the text after the prefix, stripped |
| `Importer.ParseLoadOutput` | scripts/import_images.py:197-204 | the reported name is the stripped text after `Loaded image:` on the first line that starts with it, or `"unknown"` when no line does |
| `Importer.SplitAtSeparator` | scripts/import_images.py:201 | the lines of two outputs joined by a newline are the lines of the first followed by the lines of the second |
| `Importer.FirstLoadedLinePrefix` | scripts/import_images.py:201-204 | once a `Loaded image:` line has appeared, further lines do not move the first match |
| `Importer.LaterLoadedLinesIgnored` | scripts/import_images.py:201-204 | output appended after a `Loaded image:` line never changes the reported name (the `break`) |
| `Importer.ImportSingleImage` | scripts/import_images.py:168-223 | success exactly when the file exists, is non-empty and `docker load` exits 0; success reports the parsed name with an empty error; every failure reports the file's path with a non-empty error, and the two pre-check messages name the path |
| `Importer.PrechecksSkipLoad` | scripts/import_images.py:174-187 | a missing or empty file fails, and its outcome does not depend on how `docker load` would have ended, because it never runs |
| `Importer.ClassifyImport` | scripts/import_images.py:249-256 | a success appends the reported image name to `imported_images`; a failure appends `{file, error}` to `failed_imports` |
| `Importer.ImportImages` | scripts/import_images.py:225-270 | an empty list returns false; otherwise every file lands in exactly one list, the result is true exactly when no import failed, and `skipped_images` stays empty |
| `Importer.ImportOrderIrrelevant` | scripts/import_images.py:238-262 | two completion orders of the same files give the same verdict and the same two lists up to order |
| `Importer.ImportedCounts` | scripts/import_images.py:249-256 | a name occurs in `imported_images` once per successful import that reported it, such as two loads that both report `unknown`, and a failure record occurs once per file that failed with that path and error |
| `Importer.FailedImportMembers` | scripts/import_images.py:249-256 | a failure record appears exactly when a file with that path failed with that error |
| `Importer.SummaryTotal` | scripts/import_images.py:272-274 | the printed total counts at least every imported and every failed file |
| `Importer.SummaryCountsEveryFile` | scripts/import_images.py:274 | the summary total equals the number of tar files submitted |
| `Importer.FoundSet` | scripts/import_images.py:424 | a name is in the found set exactly when a tar file of that name was found |
| `Importer.DiffManifest` | scripts/import_images.py:423-427 | missing is manifest minus found and extra is found minus manifest; the two never overlap; each is empty exactly when its inclusion holds; both are empty exactly when the two name sets are equal |
| `Importer.CheckManifest` | scripts/import_images.py:414-427 | the comparison happens exactly when some tar file was found (`main` exits first otherwise), `--no-verify` is absent and a manifest was loaded, and it is then that difference |
| `Transfer.RoundTripExact` | scripts/import_images.py:133-140 | decoding the encoding of a reference gives it back exactly when it has a `/`, no `_` or `:` before it, and no `/` after it; then either the rest is `repo:tag` with no `-` in `repo` and no further `:`, or the rest has no `:` and no `-` and the namespace holds a `-` |
| `Transfer.RoundTripSufficient` | scripts/import_images.py:133-140 | references of that shape round-trip |
| `Transfer.RoundTripNecessary` | scripts/import_images.py:133-140 | the pointwise facts that `Transfer.RoundTripHalves` and `Transfer.FixedPointChars` draw from a round trip give that shape; `Transfer.RoundTripExact` puts them together |
| `Transfer.NamespacedRoundTrip` | scripts/import_images.py:133-140 | `ns/repo:tag` round-trips when `ns` has no `_`, `/` or `:`, `repo` has no `/`, `:` or `-`, and `tag` has no `/` or `:` |
| `Transfer.UntaggedRoundTrip` | scripts/import_images.py:133-140 | an untagged `ns/rest` round-trips when the namespace holds the `-` that makes the rule apply, and the rest has no `/`, `:` or `-` |
| `Transfer.TarFileRoundTrip` | scripts/import_images.py:127-140 | for a reference of the round-trip shape, `get_image_name_from_tar` on the downloader's file name returns the reference, whatever `docker load` would say |
| `Transfer.NoNamespaceFallsThrough` | scripts/import_images.py:135 | a reference with no `/` and no `_`, such as `mysql:8.0`, never decodes by its file name, so the importer falls back to `docker load` |
| `Transfer.HyphenatedRepositoryMisdecodes` | scripts/import_images.py:136-139 | `ns/left-right:tag` comes back as `ns/left:right-tag`, not as itself, because the rule turns the repository's own `-` into the tag separator |
| `Transfer.ConfluenceImageTransfers` | scripts/download_images.py:72 | `haxqer/confluence:<tag>` is recovered from its tar file name whenever the tag has no `/` or `:` |
| `Transfer.DatabaseImageFallsThrough` | scripts/download_images.py:72-77 | neither database image of the table can be named from its tar file name |
| `Transfer.PredefinedImagesTransfer` | scripts/download_images.py:70-79 | for every table entry, the application image is recovered by its file name and the database image is left to `docker load` |
| `Transfer.TarsLeft` | scripts/download_images.py:167-191 | with the intended `save_image`, a file is in the output directory after the run exactly when some job left the tar file under that image's file name |
| `Transfer.TarsLeftAsWritten` | scripts/download_images.py:167-196 | the same with `save_image` as written |
| `Transfer.TarsNeverRemoved` | scripts/download_images.py:170-172 | no job removes a tar file it found, under either `save_image`, so the directory only grows during a run |
| `Transfer.FirstLeaver` | scripts/download_images.py:166-172 | when the jobs run one after another from an empty directory, each finding exactly the files earlier jobs left, every file was left by a job that did not find it |
| `Transfer.ManifestFileSet` | scripts/download_images.py:296-302 | the manifest lists exactly the tar file names of the jobs that succeeded |
| `Transfer.ManifestFilesWereSaved` | scripts/download_images.py:296-302 | every file the manifest lists is a tar file the run left in the output directory, under either `save_image` |
| `Transfer.SequentialTarsLeft` | scripts/download_images.py:166-215 | after a one-after-another run with the intended `save_image`, the directory holds exactly the files of the jobs that succeeded, also when two images share a file name and the later job reuses the earlier file |
| `Transfer.SequentialTarsLeftAsWritten` | scripts/download_images.py:162-215 | after such a run with `save_image` as written, the directory holds the files of the jobs that succeeded and the partial files of the failed saves that skipped the removal |
| `Transfer.FreshTransferAgrees` | scripts/import_images.py:423-427 | with the intended `save_image`, an empty output directory and distinct tar file names, so that no job finds an existing tar file whatever the workers' interleaving, an offline host that finds exactly the files the run left reports nothing missing and nothing extra |
| `Transfer.SequentialTransferAgrees` | scripts/import_images.py:423-427 | the same for a one-after-another run from an empty directory, where jobs may share a file name |
| `Transfer.AsWrittenTransferExtra` | scripts/import_images.py:423-427 | with `save_image` as written, the offline host reports nothing missing and exactly the partial files no successful job reused as extra |
| `Transfer.RaisingSaveLeavesExtra` | scripts/download_images.py:177-196 | one image whose `docker save` raises after the file was opened: its tar file is reported extra on the offline host |

## Left out

- Running `docker`: `--version`, `info`, `image inspect`, `pull`, `save`, `load`, `images` and `rmi`. Only how each call ends is modelled, as an input.
- `check_docker`, `find_image_files`, `list_imported_images` and `cleanup_dangling_images`: these only run `docker` or list files, and hold no bookkeeping.
- Threads, `as_completed` and `print_lock`. The pools are folds over a completion order that is given as input.
- The `except` branches around `future.result()` (`scripts/download_images.py:246-248`, `scripts/import_images.py:257-262`). The workers catch their own exceptions, so these only matter for errors outside the modelled logic.
- `download_and_save_image` appends to its lists from the worker thread. The model appends in completion order, which changes no list's contents.
- YAML and JSON reading and writing. The compose file comes in already parsed: `image` values are strings, and every failure to read is one `Unreadable` case. The manifest is a record.
- `load_manifest` returns the parsed dictionary, and `main` tests it for truth. A manifest that parses to an empty object is skipped like a missing one. This is modelled only as "no manifest loaded".
- Filesystem probing: `exists`, `stat().st_size`, `glob("*.tar")`, `mkdir` and `unlink`. Existence and sizes are inputs; `found` is the list of tar file names.
- The `--files` path resolution in the importer's `main`.
- The megabyte and duration figures, timestamps, coloured logging, and the summary printing beyond its counts. This includes the download summary's per-image listing, which shows only images whose tar file still exists.
- argparse routing in the downloader's `main`. `--compose` and `--images` form a required, mutually exclusive group, which makes the predefined-table branch unreachable from the command line. The table is modelled as a function, not as reachable routing.
- The `force` parameter, which is never read.
- `skipped_images`, which is never filled. It is modelled as the empty list it always is.
- The repository's deployment controller is not part of these two scripts and is not part of this model.
- `Downloader.DownloadAndSave`: models the intended `save_image`, which removes the tar file after every failed save. `Downloader.DownloadAndSaveAsWritten` is the program as written.
- `Transfer.TarsLeft`: counts the files left under the intended `save_image`. `Transfer.TarsLeftAsWritten` counts them for the program as written.
- `Transfer.FreshTransferAgrees`: holds for the intended `save_image` only. For the program as written, `Transfer.AsWrittenTransferExtra` states the extra files the offline host reports.
- Two workers that handle images with the same tar file name at the same time can race on the file: both may find it absent, and the failing one reopens with `open(..., 'wb')` and removes the file the other saved and the manifest lists. Such runs are not modelled. The transfer lemmas cover runs from an empty output directory only: one-after-another runs, where each job finds exactly the files of earlier jobs (`Transfer.SequentialBy`, as with `--workers 1`), and runs with distinct tar file names (`Transfer.FreshTransferAgrees`).
- An output directory that already holds tar files from an earlier run (`mkdir(exist_ok=True)` reuses it): a single job's `tarExists` input covers it, but no transfer lemma starts from such a directory.
- `Importer.SummaryTotal`: its own contract is only a lower bound, because `skipped_images` may in principle hold entries. `Importer.SummaryCountsEveryFile` gives the equality for every actual run.

## Findings

| source | as written | input that shows it | evidently intended | confidence | as-written member | corrected member |
|---|---|---|---|---|---|---|
| scripts/download_images.py:177-196 | The tar file is created by `open` before `docker save` runs. The removal at 189-191 comes after `result.stderr.decode()` and is skipped when that call raises. It is also skipped when anything raises once the file is open, since the `except` at 194 only logs. The failed save then leaves a partial tar file, and the next run's check at 170-172 reports the image saved without saving it. | `docker save` exits 1 with error output that is not valid UTF-8, then the script runs again | every failed save removes its tar file, so that the next run saves the image again | low, not executed | `Downloader.SaveImageAsWritten` | `Downloader.SaveImage` |

`Downloader.PartialTarReportedSaved` exhibits the as-written behaviour. `Downloader.FailedSaveIsRetried` proves the intended one. `Downloader.DownloadAndSave`, `Transfer.TarsLeft`, `Transfer.SequentialTransferAgrees` and `Transfer.FreshTransferAgrees` use the corrected `Downloader.SaveImage`. `Downloader.DownloadAndSaveAsWritten`, `Transfer.AsWrittenTransferExtra` and `Transfer.RaisingSaveLeavesExtra` carry the finding through to the offline host: a partial tar file that no later job reuses is reported there as an extra file.
