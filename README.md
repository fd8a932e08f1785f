# BNIImageProcessor in Dafny

This project models the ingest pipeline of `BNIImageProcessor`. The pipeline
archives scanned newspaper pages. A run goes through these steps:

1. It checks that the reference (target) tree has the batch directories
   `000007` and `000028`.
2. It settles the next batch directory. That is the first six-digit counter
   `000001`, `000002`, … that does not exist under the target, unless a name
   was given with `--next`.
3. It lists every `*.tif` file below the source tree.
4. It rejects the batch when:
   - it holds fewer than 400 or more than 2000 TIFs;
   - any TIF lacks a JPG at `<dir>/../Jpgs/<stem>.jpg`;
   - any TIF's relative path is already recorded in the image ledger.
5. During `process`, it:
   - makes the directory `<bni>/<next>` and the directory `<lib>/<next>`;
   - gives each TIF in turn the next ledger identifier, starting at 512083
     (512082 is the `START` sentinel row);
   - moves the TIF to `<bni>/<next>/<parent of its directory>/<id>__<name>`;
   - moves its JPG to the corresponding place under `<lib>`;
   - checks that both trees now hold as many files of their kind as there
     were TIFs.
6. `delete_source_dir` removes the source tree, but only when no TIF is left
   in it.

Modules:
- `Decimal`: `str(n)`, `zfill`, and parsing back.
- `PosixPath`:
  - Python's string-level path functions: `basename`, `dirname`, `splitext`,
    `normpath`, `rstrip('/')`, `str.replace(pat, '')`, `rindex`;
  - the laws about them that the pipeline needs.
- `Naming`:
  - batch directory names;
  - relative paths;
  - the two ways the code computes a TIF's JPG;
  - the archive destination and the `<id>__<name>` file names, with a decoder.
- `FileTree`:
  - the filesystem as a map from normalized path to content, plus a set of
    directories;
  - `makedirs`, `mv` and `rmtree`, both as functions on snapshots and as a
    mutable `FileSystem` class;
  - the theorem that a sequence of independent renames delivers every file.
- `ImageLedger`: the `bni_image` table as a `Ledger` class whose `Add` is
  `get_image_uuid`.
- `ArchivePlan`: the list of moves a `process` run makes, and what the
  filesystem looks like after all of them.
- `Processor`: the `BNIImageProcessor` class, with one method per modelled
  method of the source (some split into steps, such as `Survey`, `ArchiveOne`
  and `ArchiveAll`; `get_image_uuid` is `Ledger.Add`). Its outcomes are `Done`, `Exit(reason)` (for `sys.exit(2)`
  after an error message) and `Raised(exception)`.

Two places where the code and its intended behaviour differ:
- `check_file_count` cannot report a mismatch (see Findings). Only
  `Processor.FileCountAsWritten` and `Processor.MismatchNeverReported` model
  the code as written. `CheckFileCount` and `Process` use the corrected
  `Processor.FileCountVerdict`.
- The JPG that `get_unmatched_tifs` checks and the JPG that `process_worker`
  moves are the same file except when the TIF's stem is made only of dots.
  The model keeps both computations as written, and
  `Naming.CompanionsAgree` proves both directions of this.

## Model

| member | source | states |
|---|---|---|
| `ImageLedger.Ledger.constructor` | BNIImage/BNIImageProcessor.py:28-35 | A freshly created table holds only the sentinel row (512082, `START`), and the sequence's next value is 512083. |
| `ImageLedger.Ledger.Add` | BNIImage/BNIImageProcessor.py:210-215 | `get_image_uuid` appends exactly one row, whose name is the given path and whose identifier is the sequence's next value (at least 512083). The sequence advances by one. Identifiers stay consecutive after the sentinel. |
| `ImageLedger.Ledger.Has` | BNIImage/BNIImageProcessor.py:105 | The existence query is true exactly when some row carries that name. |
| `ImageLedger.NewRows` | BNIImage/BNIImageProcessor.py:168-170 | The rows a batch adds: the i-th file gets identifier first+i, so every added row has its own identifier. |
| `ImageLedger.HasNameAfterAdding` | BNIImage/BNIImageProcessor.py:100-107 | After a batch, a name is in the ledger exactly when it was there before or belongs to the batch. A rerun over the same files is therefore rejected. |
| `Decimal.ParseStr` | BNIImage/BNIImageProcessor.py:204 | `str(n)` is a decimal numeral that reads back as n. |
| `Decimal.ZFillStr` | BNIImage/BNIImageProcessor.py:204 | `str(n).zfill(w)` is all digits, at least w long, and reads back as n. |
| `Naming.BatchNameForm` | BNIImage/BNIImageProcessor.py:204-206 | Below 10^6, a batch name is exactly six digits and spells its counter. |
| `Naming.BatchNameInjective` | BNIImage/BNIImageProcessor.py:204-206 | Different counters give different batch names. |
| `Naming.SentinelBatchNames` | BNIImage/BNIImageProcessor.py:96 | The two directories `check_target` asks for are batches 7 and 28. |
| `Processor.FirstFreeUnique` | BNIImage/BNIImageProcessor.py:203-205 | At most one counter is the least counter whose probe path does not exist, so the directory the probe settles on is determined by the reference tree. |
| `Processor.BNIImageProcessor.SetNextDir` | BNIImage/BNIImageProcessor.py:200-208 | With `--next`, the batch directory is the given name. Otherwise the probe terminates, ending at the least counter n >= 1 with no entry at `target/zfill(n)`; every counter below it exists, and the batch directory is `zfill(n, 6)`. |
| `Processor.TargetHasSentinelBatches` | BNIImage/BNIImageProcessor.py:94-98 | For a target without a trailing slash, a reference tree that passes `check_target` has batches 7 and 28, so the probe never settles on either. |
| `Processor.BNIImageProcessor.CheckTarget` | BNIImage/BNIImageProcessor.py:94-98 | The run continues exactly when both `000007` and `000028` are directories under the target with trailing slashes stripped. Otherwise it exits with the target error. |
| `Processor.ListedPathIsTif` | BNIImage/BNIImageProcessor.py:196-198 | Every path the walk appends has a file name ending in `.tif`. |
| `Processor.WalkTifs` | BNIImage/BNIImageProcessor.py:194-198 | The `os.walk` loop lists one path per `*.tif` file strictly below the source, in some walk order: no file twice and none missed. Each path is `root + '/' + name` for the directory the walk is in, and ends in `.tif`. |
| `Processor.BNIImageProcessor.SetFilesToProcess` | BNIImage/BNIImageProcessor.py:194-198 | Appends the walk's listing to the list and changes nothing else, so the list holds one path per `*.tif` file below the source. |
| `Processor.ListedRelative` | BNIImage/BNIImageProcessor.py:196-198 | For a source without a trailing slash, a file's listed path is `source + '/' + rest`. When `rest` does not contain the source path again, `replace(source, '')` gives back `'/' + rest`. |
| `Processor.ListedBelowSlashedSource` | BNIImage/BNIImageProcessor.py:196-198 | For a source ending in `/` and a file in a subdirectory, the listed path is `source + rest`, with no doubled slash, as `os.path.join` builds the walk's directories. |
| `FileTree.MatchingFiles` | BNIImage/BNIImageProcessor.py:247-251 | A file is counted exactly when its key lies strictly below the walked directory, without climbing out of it through `..`, and its name matches `*.ext`. |
| `FileTree.UnderJoined` | BNIImage/BNIImageProcessor.py:196-197 | A relative path that is not empty, not `.`, and starts with neither `/` nor `..`, when joined onto a directory, lies below that directory. So the walk visits it. |
| `Processor.BNIImageProcessor.GetNumFilesInTree` | BNIImage/BNIImageProcessor.py:247-252 | The count is the number of `*.ext` files below the directory. |
| `Naming.RelativePathOfChild` | BNIImage/BNIImageProcessor.py:104 | For a file listed below the source, whose remainder does not contain the source path again, removing the source path leaves exactly that remainder. |
| `Processor.MissingFilesMembers` | BNIImage/BNIImageProcessor.py:109-116 | A JPG path is reported exactly when it was checked and is not a file. |
| `Processor.MissingFilesEmpty` | BNIImage/BNIImageProcessor.py:109-116 | The report is empty exactly when every checked JPG is a file. |
| `Processor.CheckedCompanions` | BNIImage/BNIImageProcessor.py:113 | There is one checked JPG per TIF, namely `dirname + '/../Jpgs/' + splitext(basename)[0] + '.jpg'`. |
| `Processor.BNIImageProcessor.GetUnmatchedTifs` | BNIImage/BNIImageProcessor.py:109-116 | Returns, in list order, the checked JPG paths that are not files. |
| `Processor.BNIImageProcessor.CheckSourceFiles` | BNIImage/BNIImageProcessor.py:81-92 | The run continues exactly when the batch has 400 to 2000 TIFs and every checked JPG exists. Too few, too many and unmatched each exit with their own error, tested in that order, and the unmatched error carries the missing paths. |
| `Processor.AlreadyAssigned` | BNIImage/BNIImageProcessor.py:100-107 | A name is reported exactly when it is the relative path of a listed TIF and the ledger has it. The report is empty exactly when no listed TIF's relative path is in the ledger. |
| `Processor.BNIImageProcessor.GetAlreadyProcessedFiles` | BNIImage/BNIImageProcessor.py:100-107 | Returns, in list order, the relative paths the ledger already names. |
| `Processor.BNIImageProcessor.CheckAlreadyProcessedFiles` | BNIImage/BNIImageProcessor.py:54-60 | The run continues exactly when no listed TIF's relative path is in the ledger. Otherwise it exits with the list of those paths. |
| `Processor.SourceVerdict` | BNIImage/BNIImageProcessor.py:81-92 | `check_source_files` as a decision: done exactly when 400 to 2000 TIFs are listed and every checked JPG is a file. Too few, too many and unmatched each give their own exit, tested in that order. The unmatched exit lists the missing JPGs. |
| `Processor.LedgerVerdict` | BNIImage/BNIImageProcessor.py:54-60 | `check_already_processed_files` as a decision: done exactly when no listed TIF's relative path is in the ledger. Otherwise the exit lists those paths. |
| `Processor.InitVerdict` | BNIImage/BNIImageProcessor.py:39-52 | The decision of `__init__`. A target error comes first, then the first failing source check, then the ledger check. It is done exactly when the target looks right, the batch has 400 to 2000 paired TIFs, and no relative path is in the ledger. |
| `Processor.BNIImageProcessor.Survey` | BNIImage/BNIImageProcessor.py:47-52 | The steps after `check_target`: the batch directory is settled and every `*.tif` below the source is listed once, in some walk order. Then come the source checks and, when they pass, the ledger check. |
| `Processor.BNIImageProcessor.Init` | BNIImage/BNIImageProcessor.py:39-52 | The outcome is `InitVerdict` of the state the checks see, so it is `Done` exactly when the run is ready. A failing target check exits with the target error and lists nothing. A passing one settles the batch directory and lists every `*.tif` below the source once, in some walk order. |
| `Naming.TifHasDot` | BNIImage/BNIImageProcessor.py:183 | A listed TIF always contains a dot, so `rindex('.')` never raises on it, and the last dot is the one before `tif`. |
| `Naming.CompanionsAgree` | BNIImage/BNIImageProcessor.py:109-116 | The JPG `process_worker` moves is, after normalization, the JPG `get_unmatched_tifs` checked if and only if the TIF's stem has a character other than `.`. |
| `Naming.CompanionName` | BNIImage/BNIImageProcessor.py:182-189 | The JPG `process_worker` moves is named `<stem of the TIF>.jpg`. |
| `Processor.CheckedCompanionsAreMoved` | BNIImage/BNIImageProcessor.py:181-191 | When no stem is all dots, passing the pairing check means every JPG the worker will move exists. |
| `Naming.ArchiveDirDropsParent` | BNIImage/BNIImageProcessor.py:218 | For a relative path `/d1/…/dn/name`, the destination directory is `root/next/d1/…/d(n-1)`: `normpath(dirname + '/../')` removes the TIF's own directory. |
| `Naming.ArchivePathParts` | BNIImage/BNIImageProcessor.py:218-222 | For a relative path `/n1/…/nk` of plain names, the destination path is `root/next + '/' + t`, where the components of t are empty ones followed by at least one plain name. |
| `PosixPath.NormPathBelow` | BNIImage/BNIImageProcessor.py:218-222 | Normalizing `d + '/' + t` keeps `normpath(d)` and joins onto it the plain names that follow t's empty components. |
| `ArchivePlan.TargetUnder` | BNIImage/BNIImageProcessor.py:218-222 | A file whose relative path is a slash and plain names is archived strictly below `root/next`. |
| `Naming.ArchivedNameDecodes` | BNIImage/BNIImageProcessor.py:221 | The archived file name `<id>__<basename>` decodes back to the identifier and the original file name. |
| `Naming.ArchivePathNamesFile` | BNIImage/BNIImageProcessor.py:221-222 | The destination path, once normalized, ends in the archived file name. |
| `FileTree.FileSystem.RemoveTree` | BNIImage/BNIImageProcessor.py:258 | `shutil.rmtree` succeeds exactly when the path is a directory whose last component is not `.` or `..`. The new state is `RemoveTreeIn` of the old one, whether or not the call raises. |
| `FileTree.RemoveTreeEffect` | BNIImage/BNIImageProcessor.py:258 | A path that is no directory leaves everything unchanged. For a directory, every entry below it is gone and every other file keeps its content. The directory itself stays exactly when its last component is `.` or `..`, where `rmtree` has emptied it and then fails on the final `os.rmdir`. |
| `FileTree.DotLastChild` | BNIImage/BNIImageProcessor.py:258 | A path `d/x`, with or without trailing slashes, is one whose removal fails at the end exactly when x is `.` or `..`. |
| `FileTree.DotLastBare` | BNIImage/BNIImageProcessor.py:258 | The same for a one-component path such as `.` or `./`. |
| `FileTree.FileSystem.MakeDirs` | BNIImage/BNIImageProcessor.py:165-166 | `os.makedirs` fails exactly when the path already exists. Otherwise the path becomes a directory and no file changes. |
| `FileTree.FileSystem.Move` | BNIImage/BNIImageProcessor.py:224-229 | `/bin/mv` renames the source's entry to the destination's entry. A missing source changes nothing. |
| `FileTree.MoveKeyEffect` | BNIImage/BNIImageProcessor.py:224-229 | A rename puts the content at the new key and removes the old key. Every other key keeps its content. |
| `Processor.BNIImageProcessor.Archive` | BNIImage/BNIImageProcessor.py:217-229 | `archive` makes the destination directory when missing, then moves the file to `<dir>/<id>__<basename>`. |
| `Processor.ArchiveMoves` | BNIImage/BNIImageProcessor.py:217-229 | After `archive`, the file is at its destination with its content, nothing is at its old place, no other file changed, and the destination directory exists unless a file is in its way. |
| `Processor.BNIImageProcessor.ProcessWorker` | BNIImage/BNIImageProcessor.py:181-192 | The TIF is archived into the BNI tree, then the JPG computed from its stem is archived into the LIB tree, both under the same identifier and relative path. |
| `Processor.BNIImageProcessor.ArchiveOne` | BNIImage/BNIImageProcessor.py:169-171 | One pass of the loop: the TIF's relative path gets the next identifier in the ledger, and that identifier names both moved files. |
| `Processor.BNIImageProcessor.ArchiveAll` | BNIImage/BNIImageProcessor.py:168-171 | After the loop, the ledger has one new row per TIF, in list order with consecutive identifiers from the sequence's next value. The filesystem is the result of the batch's whole archive plan. |
| `Processor.BNIImageProcessor.Process` | BNIImage/BNIImageProcessor.py:163-174 | An existing `<bni>/<next>` or `<lib>/<next>` raises before anything is recorded or moved. Otherwise the TIFs are recorded and moved as above. The outcome is then `PostFlightVerdict` of the new filesystem: a TIF count mismatch in the BNI tree, else the verdict on the JPG count in the LIB tree. |
| `ArchivePlan.PlanIsPaired` | BNIImage/BNIImageProcessor.py:168-191 | The plan is a TIF move and a JPG move per file, in order. Source names end in `f` and `g`, and destination names carry identifier first+i. |
| `FileTree.RelocateIndependent` | BNIImage/BNIImageProcessor.py:168-171 | A sequence of renames whose sources are present, distinct and never a destination puts every source's content at its destination, removes every source, and changes nothing else. |
| `ArchivePlan.ProcessDelivers` | BNIImage/BNIImageProcessor.py:163-171 | After the loop, every TIF is at its BNI destination and every JPG at its LIB destination, each with its content, and neither is left at its old place. |
| `ArchivePlan.ProcessLeavesOthers` | BNIImage/BNIImageProcessor.py:163-171 | The loop changes no file other than the ones it moves. |
| `ArchivePlan.TargetExtensions` | BNIImage/BNIImageProcessor.py:221 | The TIF's destination is a `*.tif` file and not a `*.jpg` file. The JPG's destination is the other way round. |
| `ArchivePlan.TargetsDistinct` | BNIImage/BNIImageProcessor.py:168-171 | No two TIFs share a destination, and no two JPGs do, because the destination names carry consecutive identifiers. |
| `ArchivePlan.MatchingAfter` | BNIImage/BNIImageProcessor.py:247-251 | Suppose no `*.ext` file was below a directory, and every new file is either a target below it named `*.ext` or not `*.ext`. Then the `*.ext` files below it are exactly the targets. |
| `ArchivePlan.CountsMatch` | BNIImage/BNIImageProcessor.py:168-174 | Assume the moves are independent (`PairedReady`), the relative paths are plain, and no `*.tif` was below `bni/next` nor any `*.jpg` below `lib/next`. Then after the loop each of the two directories holds exactly one file of its kind per listed TIF. |
| `Processor.PostFlightVerdict` | BNIImage/BNIImageProcessor.py:173-174 | The two counts after the loop, TIFs first: done exactly when both equal the number of listed TIFs. A TIF mismatch is the one reported. |
| `Processor.ProcessCountsMatch` | BNIImage/BNIImageProcessor.py:163-174 | Under the same assumptions as `CountsMatch`, both post-flight checks of `process` pass, so the run ends with `Done`. |
| `Processor.FileCountVerdict` | BNIImage/BNIImageProcessor.py:239-245 | The intended `check_file_count`: done exactly when the count matches. Otherwise it exits with the path, the extension and both counts. |
| `Processor.BNIImageProcessor.CheckFileCount` | BNIImage/BNIImageProcessor.py:239-245 | The corrected check applied to the number of `*.ext` files under the directory and the number of listed TIFs. |
| `Processor.FileCountAsWritten` | BNIImage/BNIImageProcessor.py:239-245 | The code as written: done exactly when the counts match. |
| `Processor.MismatchNeverReported` | BNIImage/BNIImageProcessor.py:241-243 | On every mismatch the code as written raises a TypeError instead of reporting the mismatch. |
| `Processor.BNIImageProcessor.DeleteSourceDir` | BNIImage/BNIImageProcessor.py:254-260 | `rmtree` runs exactly when no `*.tif` is left below the source and the source path is neither `/` nor empty. It then raises when the source is not a directory, or when its last component is `.` or `..` (after emptying it). Every other case ends with `Done`, and the state is what `rmtree` leaves, or unchanged when it does not run. |
| `Processor.RemovalLosesNoTif` | BNIImage/BNIImageProcessor.py:255-258 | When the guard lets the removal through, no file below the source has a `.tif` name, so no TIF is lost. |
| `PosixPath.NormPathIdempotent` | BNIImage/BNIImageProcessor.py:185-189 | `normpath` applied twice gives the same path as applied once, so keying the filesystem by normalized path is consistent. |
| `PosixPath.NormPathChild` | BNIImage/BNIImageProcessor.py:222 | Normalizing `p + '/' + x`, for a plain segment x, ends in x. |

## Left out

- Option parsing and `check_options` (lines 62-79 and 126-161) are not modelled. The options arrive as an `Options` value, and `--next` is `None` or `Some(name)`.
- `init_database` (lines 118-124) is not modelled: the SQLite file, the engine and the session are outside the model. The ledger is handed in already open, and its `after_create` insert is the `Ledger` constructor.
- The `timestamp` column (line 34) is not modelled, because it reads the clock.
- The `String(512)` length of the name column is not modelled, because SQLite does not enforce it.
- `generate_sha1_tree` (lines 231-233) and `copy_tree_bni` (lines 235-237) are left out: they run `sha1sum` and `aws s3 sync` in a shell. `Process` ends after the two count checks.
- The progress bar (lines 164 and 192) and every `print` are left out. The error messages are represented by the `Failure` value in `Exit`.
- `os.walk` order is not modelled. `SetFilesToProcess` and `GetNumFilesInTree` pick files in an arbitrary order, and their contracts hold for every order.
- Symbolic links, permissions and `os.access` are not modelled.
- `fnmatch` is modelled only for the patterns used here: a file name ending in `.tif`, `.jpg` or `.` plus the extension, compared case-sensitively as on POSIX.
- FileTree.FileSystem.MakeDirs: only the leaf directory is recorded. Missing ancestors are not added to the directory set, a file in the way is not distinguished from a directory, and the `OSError` raised by `archive`'s own `makedirs` does not stop the run.
- FileTree.FileSystem.Move: moving onto an existing directory replaces the entry instead of moving into the directory. The exit status of `mv` is ignored, as the source ignores it.
- Paths are plain character strings: there is no encoding, no case folding and no current directory.
- FileTree.FileSystem.RemoveTree: `rmtree` is modelled as all or nothing below the path. An entry that cannot be removed, and the `onerror` callback, are not modelled. Only the final `os.rmdir` that fails on a path ending in `.` or `..` is modelled.
- ArchivePlan.ProcessDelivers: stated for batches whose TIF and JPG keys are present, distinct and not among the destinations (`PairedReady`). This does not follow from the checks in `__init__`. Two TIF directories under one parent share a `Jpgs` directory: `A/T1/p.tif` and `A/T2/p.tif` both pass the pairing check with `A/Jpgs/p.jpg`, and both workers move that one file, so the second move finds nothing.
- ArchivePlan.ProcessLeavesOthers: stated under the same `PairedReady` assumption as `ProcessDelivers`.
- Processor.BNIImageProcessor.ProcessWorker: requires a dot in the TIF path, so the `ValueError` from `rindex` is not modelled. Every listed path ends in `.tif` (`Naming.TifHasDot`), so that error cannot arise from `process`.
- Processor.CheckedCompanionsAreMoved: requires stems that are not all dots, because for stems made only of dots the checked JPG and the moved JPG differ (`Naming.CompanionsAgree`).
- SetFilesToProcess: the walk is over the keys of the file map, which are taken to be normalized paths. The listed path is rebuilt from the key's remainder below the normalized source: `os.path.join` below the top directory, and `source + '/' + name` at the top, which doubles the slash of a source ending in `/`. Symbolic links and directories the walk cannot enter are not modelled.
- MatchingFiles: assumes the file map's keys are normalized. The model's own moves store files under normalized keys.
- Naming.RelativePathOfChild: `str.replace` removes every occurrence of the source path. The model states the relative path only when the remainder does not contain the source path again. It does not describe the path left when the source recurs.
- ArchivePlan.CountsMatch: stated for relative paths of the form `/n1/…/nk` (`PlainRel`). That is what a source without a trailing slash yields, as the `--source` help text (line 133) asks. For a source ending in `/`, `replace` strips the slash too. A TIF in `src/Tifs/` then gets the relative path `Tifs/x.tif`, and `archive` puts it into `<bni>/<next>.`, which is outside `<bni>/<next>`. The model computes these destinations but proves no count for them.
- Processor.ProcessCountsMatch: stated under the same `PairedReady` and `PlainRel` assumptions as `CountsMatch`. It also assumes that no matching file lies below the two batch directories beforehand.
- Concurrency and a database shared with other runs are not modelled: the ledger is owned by one run.
- A `sys.exit` or exception inside `process` is an `Outcome`. What happens to the interpreter afterwards is not modelled.

## Findings

| source | as written | input that shows it | evidently intended | confidence | as-written member | corrected member |
|---|---|---|---|---|---|---|
| BNIImage/BNIImageProcessor.py:240-245 | `dir_files` is the integer `get_num_files_in_tree` returns. The error message applies `len` to it, which raises `TypeError` before anything is printed or `sys.exit(2)` is reached. | a batch of 400 listed TIFs of which 399 arrive in `<bni>/<next>`: found 399, expected 400 | print the mismatch with both counts and exit with status 2 | not executed | `Processor.MismatchNeverReported` (on `Processor.FileCountAsWritten`) | `Processor.FileCountVerdict`, used by `Processor.BNIImageProcessor.CheckFileCount` and `Processor.BNIImageProcessor.Process` |
