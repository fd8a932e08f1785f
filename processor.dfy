/**
 * The `BNIImageProcessor` object: the options it runs with, the batch
 * directory it settles on, the TIFs it finds in the source tree, the
 * checks that abort a run, the `process` loop that gives every TIF an
 * identifier and moves it and its JPG into the BNI and LIB trees, the
 * count check afterwards and the removal of the emptied source tree.
 */
module Processor {
  import opened Decimal
  import opened PosixPath
  import opened Naming
  import opened FileTree
  import opened ImageLedger
  import opened ArchivePlan

  datatype Option<T> = None | Some(value: T)

  /** `--source`, `--bni`, `--lib`, `--target`, and `--next` when it is given. */
  datatype Options = Options(source: string, bni: string, lib: string, target: string, next: Option<string>)

  /** Why a run ends with `sys.exit(2)`. */
  datatype Failure =
    | TargetUnexpected
    | TooFewTifs(count: nat)
    | TooManyTifs(count: nat)
    | UnmatchedTifs(jpgs: seq<string>)
    | AlreadyProcessed(names: seq<string>)
    | CountMismatch(path: string, extension: string, found: nat, expected: nat)

  /** An exception the code raises and does not catch. */
  datatype Exception =
    | DirectoryExists(path: string)   // `os.makedirs` of a path that exists
    | LenOfInt                        // `len` applied to an `int`
    | RemoveFailed(path: string)      // `shutil.rmtree` of a path that is not a directory

  datatype Outcome = Done | Exit(failure: Failure) | Raised(exception: Exception)

  /** The bounds `check_source_files` puts on the number of TIFs. */
  const MinTifs: nat := 400
  const MaxTifs: nat := 2000

  // ---------------------------------------------------------------------
  // set_next_dir
  // ---------------------------------------------------------------------

  /** The path `set_next_dir` probes for counter n. */
  function ProbePath(target: string, n: nat): string {
    target + "/" + BatchName(n)
  }

  /** n is the least counter from 1 on whose probe path does not exist. */
  ghost predicate FirstFree(t: Tree, target: string, n: nat) {
    && n >= 1
    && !ExistsIn(t, ProbePath(target, n))
    && ProbedBelow(t, target, n)
  }

  /** Every counter from 1 up to but excluding n names an existing entry. */
  ghost predicate ProbedBelow(t: Tree, target: string, n: nat) {
    forall c :: 1 <= c < n ==> ExistsIn(t, ProbePath(target, c))
  }

  lemma ProbedOneMore(t: Tree, target: string, n: nat)
    requires ProbedBelow(t, target, n) && ExistsIn(t, ProbePath(target, n))
    ensures ProbedBelow(t, target, n + 1)
  {
  }

  /** The probed entry's file name spells the counter. */
  lemma ProbeKeyNumber(target: string, n: nat)
    ensures AllDigits(Basename(Key(ProbePath(target, n))))
    ensures Parse(Basename(Key(ProbePath(target, n)))) == n
  {
    BatchNameIsSegment(n);
    NormPathChild(target, BatchName(n));
    ZFillStr(n, BatchWidth);
  }

  /** At most one counter is the first free one. */
  lemma FirstFreeUnique(t: Tree, target: string, a: nat, b: nat)
    requires FirstFree(t, target, a) && FirstFree(t, target, b)
    ensures a == b
  {
    assert a < b ==> ExistsIn(t, ProbePath(target, a));
    assert b < a ==> ExistsIn(t, ProbePath(target, b));
  }

  lemma {:induction false} SubsetSmaller<T>(a: set<T>, b: set<T>)
    requires a <= b
    ensures |a| <= |b|
    decreases |a|
  {
    if a != {} {
      var x :| x in a;
      SubsetSmaller(a - {x}, b - {x});
    }
  }

  /** Adding a new member of a finite set to a subset of it grows the subset by one, within the set. */
  lemma AddFresh<T>(seen: set<T>, entries: set<T>, k: T)
    requires seen <= entries && k in entries && k !in seen
    ensures |seen + {k}| == |seen| + 1 && |seen + {k}| <= |entries|
  {
    SubsetSmaller(seen + {k}, entries);
  }

  // ---------------------------------------------------------------------
  // check_target
  // ---------------------------------------------------------------------

  /** `check_target`: the reference tree has the directories 000007 and 000028. */
  predicate TargetLooksRight(t: Tree, target: string) {
    IsDirIn(t, RStripSlashes(target) + "/000007") && IsDirIn(t, RStripSlashes(target) + "/000028")
  }

  /**
   * For a target without a trailing slash, the two directories the check
   * asks for are batches 7 and 28, so the search for the next batch
   * directory never stops at either.
   */
  lemma TargetHasSentinelBatches(t: Tree, target: string)
    requires TargetLooksRight(t, target) && RStripSlashes(target) == target
    ensures ExistsIn(t, ProbePath(target, 7)) && ExistsIn(t, ProbePath(target, 28))
    ensures forall n :: FirstFree(t, target, n) ==> n != 7 && n != 28
  {
    SentinelBatchNames();
    assert ProbePath(target, 7) == target + "/000007";
    assert ProbePath(target, 28) == target + "/000028";
  }

  // ---------------------------------------------------------------------
  // set_files_to_process
  // ---------------------------------------------------------------------

  /** The part of key k below the directory key r. */
  function Below(k: string, r: string): (s: string)
    requires Under(k, r)
    ensures |s| <= |k| && s == k[|k| - |s|..]
  {
    if r == "." then k else if EndsWith(r, "/") then k[|r|..] else k[|r| + 1..]
  }

  /**
   * `root + '/' + filename` for the file with key k: `os.walk(source)` gives
   * `source` itself as the root of the files directly in it, and builds the
   * roots below it with `os.path.join`.
   */
  function ListedPath(source: string, k: string): (p: string)
    requires Under(k, Key(source))
    ensures EndsWith(p, Below(k, Key(source)))
  {
    var rest := Below(k, Key(source));
    EndsWithAppend(source + "/", rest);
    if '/' in rest then PathJoin(source, rest) else source + "/" + rest
  }

  /** A suffix of a path that starts after a slash holds the whole base name. */
  lemma BasenameInSuffix(k: string, j: nat)
    requires 0 < j <= |k| && k[j - 1] == '/'
    ensures |Basename(k)| <= |k| - j
  {
  }

  /** The part below a directory is at least as long as the base name. */
  lemma BelowHoldsBasename(k: string, r: string)
    requires Under(k, r)
    ensures |Basename(k)| <= |Below(k, r)|
  {
    if r != "." {
      if EndsWith(r, "/") {
        assert k[|r| - 1] == r[|r| - 1];
        BasenameInSuffix(k, |r|);
      } else {
        assert k[|r|] == (r + "/")[|r|];
        BasenameInSuffix(k, |r| + 1);
      }
    }
  }

  /** Below a directory, a `*.tif` file's path still ends with `.tif`. */
  lemma BelowIsTif(k: string, r: string)
    requires Under(k, r) && HasExtension(k, "tif")
    ensures EndsWith(Below(k, r), ".tif")
  {
    var s := Below(k, r);
    BelowHoldsBasename(k, r);
    EndsWithTrans(k, Basename(k), ".tif");
    assert EndsWith(k, s);
    EndsWithShorter(k, s, ".tif");
  }

  /** Every path `set_files_to_process` lists for a `*.tif` file ends with `.tif`. */
  lemma ListedPathIsTif(source: string, k: string)
    requires Under(k, Key(source)) && HasExtension(k, "tif")
    ensures EndsWith(ListedPath(source, k), ".tif")
  {
    var s := Below(k, Key(source));
    BelowIsTif(k, Key(source));
    EndsWithTrans(ListedPath(source, k), s, ".tif");
  }

  /**
   * For a source without a trailing slash, every listed path is the source,
   * a slash and the key's part below it, and removing the source from it
   * leaves that slash and part: the relative path starts with a slash.
   */
  lemma ListedRelative(source: string, k: string)
    requires Under(k, Key(source)) && source != "" && !EndsWith(source, "/")
    requires !StartsWith(Below(k, Key(source)), "/") && !Occurs("/" + Below(k, Key(source)), source)
    ensures ListedPath(source, k) == source + "/" + Below(k, Key(source))
    ensures RelativePath(ListedPath(source, k), source) == "/" + Below(k, Key(source))
  {
    var rest := Below(k, Key(source));
    assert source + "/" + rest == source + ("/" + rest);
    RelativePathOfChild(source, "/" + rest);
  }

  /** For a source with a trailing slash, a file in a subdirectory is listed without a doubled slash. */
  lemma ListedBelowSlashedSource(source: string, k: string)
    requires Under(k, Key(source)) && EndsWith(source, "/")
    requires '/' in Below(k, Key(source)) && !StartsWith(Below(k, Key(source)), "/")
    ensures ListedPath(source, k) == source + Below(k, Key(source))
  {
  }

  /** The paths listed for the keys ks, in their order. */
  function Listed(source: string, ks: seq<string>): (ps: seq<string>)
    requires forall i :: 0 <= i < |ks| ==> Under(ks[i], Key(source))
    ensures |ps| == |ks| && forall i :: 0 <= i < |ks| ==> ps[i] == ListedPath(source, ks[i])
  {
    seq(|ks|, i requires 0 <= i < |ks| && Under(ks[i], Key(source)) => ListedPath(source, ks[i]))
  }

  lemma ListedSnoc(source: string, ks: seq<string>, k: string)
    requires forall i :: 0 <= i < |ks| ==> Under(ks[i], Key(source))
    requires Under(k, Key(source))
    ensures Listed(source, ks + [k]) == Listed(source, ks) + [ListedPath(source, k)]
  {
  }

  /**
   * Enumerating `all` one key at a time: `order` holds, without repetition,
   * exactly the keys taken so far, and every key of `all` lies under `root`.
   */
  ghost predicate Enumerated(order: seq<string>, all: set<string>, remaining: set<string>, root: string) {
    && remaining <= all
    && (forall k :: k in all ==> Under(k, root))
    && (forall k :: k in order <==> k in all && k !in remaining)
    && (forall i, j :: 0 <= i < j < |order| ==> order[i] != order[j])
    && (forall i :: 0 <= i < |order| ==> Under(order[i], root))
  }

  lemma EnumeratedStep(order: seq<string>, all: set<string>, remaining: set<string>, root: string, k: string)
    requires Enumerated(order, all, remaining, root) && k in remaining
    ensures Under(k, root)
    ensures Enumerated(order + [k], all, remaining - {k}, root)
  {
  }

  /** An enumeration that has used up every `*.tif` file below the source is a walk order. */
  lemma EnumeratedWalk(order: seq<string>, files: map<string, Content>, source: string)
    requires Enumerated(order, MatchingFiles(files, source, "tif"), {}, Key(source))
    ensures WalkOrder(order, files, source)
  {
  }

  predicate AllTifs(paths: seq<string>) {
    forall i :: 0 <= i < |paths| ==> EndsWith(paths[i], ".tif")
  }

  lemma AllTifsSnoc(paths: seq<string>, p: string)
    requires AllTifs(paths) && EndsWith(p, ".tif")
    ensures AllTifs(paths + [p])
  {
  }

  lemma AllTifsAppend(paths: seq<string>, more: seq<string>)
    requires AllTifs(paths) && AllTifs(more)
    ensures AllTifs(paths + more)
  {
  }

  // ---------------------------------------------------------------------
  // get_unmatched_tifs, get_already_processed_files
  // ---------------------------------------------------------------------

  /** In list order, the paths that are not files. */
  function MissingFiles(t: Tree, paths: seq<string>): (missing: seq<string>)
    ensures |missing| <= |paths|
    decreases |paths|
  {
    if paths == [] then []
    else MissingFiles(t, paths[..|paths| - 1]) + (if IsFileIn(t, paths[|paths| - 1]) then [] else [paths[|paths| - 1]])
  }

  /** A path is reported exactly when it is listed and is not a file. */
  lemma {:induction false} MissingFilesMembers(t: Tree, paths: seq<string>)
    ensures forall x :: x in MissingFiles(t, paths) <==> x in paths && !IsFileIn(t, x)
    decreases |paths|
  {
    if paths != [] {
      var init, p := paths[..|paths| - 1], paths[|paths| - 1];
      MissingFilesMembers(t, init);
      assert paths == init + [p];
    }
  }

  /** Nothing is reported exactly when every listed path is a file. */
  lemma MissingFilesEmpty(t: Tree, paths: seq<string>)
    ensures MissingFiles(t, paths) == [] <==> forall i :: 0 <= i < |paths| ==> IsFileIn(t, paths[i])
  {
    MissingFilesMembers(t, paths);
    var m := MissingFiles(t, paths);
    if m != [] {
      assert m[0] in m;
    } else {
      forall i | 0 <= i < |paths| ensures IsFileIn(t, paths[i]) {
        assert paths[i] in paths;
      }
    }
  }

  lemma MissingFilesSnoc(t: Tree, paths: seq<string>, i: nat)
    requires i < |paths|
    ensures MissingFiles(t, paths[..i + 1]) == MissingFiles(t, paths[..i]) + (if IsFileIn(t, paths[i]) then [] else [paths[i]])
  {
    assert paths[..i + 1][..i] == paths[..i];
  }

  /** The JPG `get_unmatched_tifs` looks for, for each TIF. */
  function CheckedCompanions(tifs: seq<string>): (jpgs: seq<string>)
    ensures |jpgs| == |tifs| && forall i :: 0 <= i < |tifs| ==> jpgs[i] == CheckedCompanion(tifs[i])
  {
    seq(|tifs|, i requires 0 <= i < |tifs| => CheckedCompanion(tifs[i]))
  }

  /** `get_already_processed_files`: in list order, the relative paths the ledger already names. */
  function AlreadyAssigned(rows: seq<BNIImage>, source: string, tifs: seq<string>): (names: seq<string>)
    ensures |names| <= |tifs|
    ensures forall x :: x in names <==>
      HasName(rows, x) && exists i :: 0 <= i < |tifs| && x == RelativePath(tifs[i], source)
    ensures names == [] <==> forall i :: 0 <= i < |tifs| ==> !HasName(rows, RelativePath(tifs[i], source))
    decreases |tifs|
  {
    if tifs == [] then []
    else
      var init := tifs[..|tifs| - 1];
      var rel := RelativePath(tifs[|tifs| - 1], source);
      var r := AlreadyAssigned(rows, source, init) + (if HasName(rows, rel) then [rel] else []);
      assert forall i :: 0 <= i < |init| ==> init[i] == tifs[i];
      r
  }

  lemma AlreadyAssignedSnoc(rows: seq<BNIImage>, source: string, tifs: seq<string>, i: nat)
    requires i < |tifs|
    ensures var rel := RelativePath(tifs[i], source);
      AlreadyAssigned(rows, source, tifs[..i + 1]) ==
      AlreadyAssigned(rows, source, tifs[..i]) + (if HasName(rows, rel) then [rel] else [])
  {
    assert tifs[..i + 1][..i] == tifs[..i];
  }

  /** What `check_source_files` decides: too few, too many, unmatched, in that order. */
  function SourceVerdict(t: Tree, tifs: seq<string>): (o: Outcome)
    ensures o == Done <==> MinTifs <= |tifs| <= MaxTifs && Paired(t, tifs)
    ensures |tifs| < MinTifs ==> o == Exit(TooFewTifs(|tifs|))
    ensures |tifs| > MaxTifs ==> o == Exit(TooManyTifs(|tifs|))
    ensures MinTifs <= |tifs| <= MaxTifs && o != Done ==>
      o == Exit(UnmatchedTifs(MissingFiles(t, CheckedCompanions(tifs))))
  {
    MissingFilesEmpty(t, CheckedCompanions(tifs));
    if |tifs| < MinTifs then Exit(TooFewTifs(|tifs|))
    else if |tifs| > MaxTifs then Exit(TooManyTifs(|tifs|))
    else
      var jpgs := MissingFiles(t, CheckedCompanions(tifs));
      if |jpgs| > 0 then Exit(UnmatchedTifs(jpgs)) else Done
  }

  /** What `check_already_processed_files` decides: an exit listing every relative path the ledger already has. */
  function LedgerVerdict(rows: seq<BNIImage>, source: string, tifs: seq<string>): (o: Outcome)
    ensures o == Done <==> forall i :: 0 <= i < |tifs| ==> !HasName(rows, RelativePath(tifs[i], source))
    ensures o != Done ==> o == Exit(AlreadyProcessed(AlreadyAssigned(rows, source, tifs)))
  {
    var names := AlreadyAssigned(rows, source, tifs);
    if |names| > 0 then Exit(AlreadyProcessed(names)) else Done
  }

  /** What `__init__` decides: the target check, then the source checks, then the ledger check. */
  function InitVerdict(t: Tree, rows: seq<BNIImage>, target: string, source: string, tifs: seq<string>): (o: Outcome)
    ensures o == Done <==>
      && TargetLooksRight(t, target)
      && MinTifs <= |tifs| <= MaxTifs && Paired(t, tifs)
      && forall i :: 0 <= i < |tifs| ==> !HasName(rows, RelativePath(tifs[i], source))
    ensures !TargetLooksRight(t, target) ==> o == Exit(TargetUnexpected)
    ensures TargetLooksRight(t, target) && SourceVerdict(t, tifs) != Done ==> o == SourceVerdict(t, tifs)
    ensures TargetLooksRight(t, target) && SourceVerdict(t, tifs) == Done ==> o == LedgerVerdict(rows, source, tifs)
  {
    if !TargetLooksRight(t, target) then Exit(TargetUnexpected)
    else if SourceVerdict(t, tifs) != Done then SourceVerdict(t, tifs)
    else LedgerVerdict(rows, source, tifs)
  }

  /**
   * `order` enumerates, without repetition, exactly the `*.tif` files
   * `os.walk(source)` visits.
   */
  ghost predicate WalkOrder(order: seq<string>, files: map<string, Content>, source: string) {
    && (forall i, j :: 0 <= i < j < |order| ==> order[i] != order[j])
    && (forall k :: k in order <==> k in MatchingFiles(files, source, "tif"))
    && (forall i :: 0 <= i < |order| ==> Under(order[i], Key(source)))
  }

  /**
   * The `os.walk(source)` loop of `set_files_to_process`: the path
   * `root + '/' + filename` of every `*.tif` file it visits, in the order
   * the walk visits them.
   */
  method WalkTifs(files: map<string, Content>, source: string) returns (listed: seq<string>, ghost order: seq<string>)
    ensures WalkOrder(order, files, source)
    ensures listed == Listed(source, order) && AllTifs(listed)
  {
    var remaining := MatchingFiles(files, source, "tif");
    ghost var all := remaining;
    listed := [];
    order := [];
    while remaining != {}
      invariant Enumerated(order, all, remaining, Key(source))
      invariant listed == Listed(source, order) && AllTifs(listed)
      decreases |remaining|
    {
      var k :| k in remaining;
      var path := ListedPath(source, k);
      ListedPathIsTif(source, k);
      AllTifsSnoc(listed, path);
      ListedSnoc(source, order, k);
      EnumeratedStep(order, all, remaining, Key(source), k);
      listed := listed + [path];
      order := order + [k];
      remaining := remaining - {k};
    }
    EnumeratedWalk(order, files, source);
  }

  /** The names `process` records, one per TIF. */
  function Rels(source: string, tifs: seq<string>): (names: seq<string>)
    ensures |names| == |tifs| && forall i :: 0 <= i < |tifs| ==> names[i] == RelativePath(tifs[i], source)
  {
    seq(|tifs|, i requires 0 <= i < |tifs| => RelativePath(tifs[i], source))
  }

  /** Recording one more file: its row follows the rows of the files before it. */
  lemma RowsStep(r0: seq<BNIImage>, source: string, tifs: seq<string>, i: nat, first: int, id: int)
    requires i < |tifs| && id == first + i
    ensures r0 + NewRows(Rels(source, tifs[..i + 1]), first)
         == r0 + NewRows(Rels(source, tifs[..i]), first) + [BNIImage(id, RelativePath(tifs[i], source))]
  {
    assert Rels(source, tifs[..i + 1]) == Rels(source, tifs[..i]) + [RelativePath(tifs[i], source)];
    NewRowsSnoc(Rels(source, tifs[..i]), RelativePath(tifs[i], source), first);
  }

  /** After the first `i` files: their rows are recorded and their archive calls made. */
  ghost predicate Progressed(rows: seq<BNIImage>, state: Tree, r0: seq<BNIImage>, t0: Tree, b: Batch, tifs: seq<string>, i: nat) {
    && i <= |tifs|
    && (forall j :: 0 <= j < |tifs| ==> '.' in tifs[j])
    && rows == r0 + NewRows(Rels(b.source, tifs[..i]), b.first)
    && state == TransferredAll(t0, Plan(b, tifs[..i]))
  }

  lemma ProgressedStep(rows: seq<BNIImage>, state: Tree, r0: seq<BNIImage>, t0: Tree, b: Batch, tifs: seq<string>, i: nat, id: nat)
    requires Progressed(rows, state, r0, t0, b, tifs, i) && i < |tifs| && id == b.first + i
    ensures Progressed(rows + [BNIImage(id, Rel(b, tifs[i]))],
      Transferred(Transferred(state, TifTransfer(b, tifs[i], id)), JpgTransfer(b, tifs[i], id)),
      r0, t0, b, tifs, i + 1)
  {
    RowsStep(r0, b.source, tifs, i, b.first, id);
    var xs := Plan(b, tifs[..i]);
    var x1, x2 := TifTransfer(b, tifs[i], id), JpgTransfer(b, tifs[i], id);
    PlanSnoc(b, tifs, i);
    WorkerTransfersAt(b, tifs[i], i, id);
    assert Plan(b, tifs[..i + 1]) == xs + [x1, x2];
    TransferredAllPair(t0, xs, x1, x2);
  }

  /** Every TIF's checked companion is a file. */
  ghost predicate Paired(t: Tree, tifs: seq<string>) {
    forall i :: 0 <= i < |tifs| ==> IsFileIn(t, CheckedCompanions(tifs)[i])
  }

  /**
   * When every TIF has a stem with a character other than '.', a passing
   * pairing check means every JPG `process_worker` will move is a file.
   */
  lemma CheckedCompanionsAreMoved(t: Tree, tifs: seq<string>)
    requires forall i :: 0 <= i < |tifs| ==> EndsWith(tifs[i], ".tif") && NotAllDots(TifStem(tifs[i]))
    requires Paired(t, tifs)
    ensures forall i :: 0 <= i < |tifs| ==> JpgKey(tifs, i) in t.files
  {
    forall i | 0 <= i < |tifs| ensures JpgKey(tifs, i) in t.files {
      assert IsFileIn(t, CheckedCompanions(tifs)[i]);
      CompanionsAgree(tifs[i]);
      NormPathIdempotent(CheckedCompanion(tifs[i]));
    }
  }

  // ---------------------------------------------------------------------
  // check_file_count
  // ---------------------------------------------------------------------

  /** What `check_file_count` is meant to do: report a mismatch and exit. */
  function FileCountVerdict(path: string, extension: string, found: nat, expected: nat): (o: Outcome)
    ensures o == Done <==> found == expected
    ensures o != Done ==> o == Exit(CountMismatch(path, extension, found, expected))
  {
    if expected == found then Done else Exit(CountMismatch(path, extension, found, expected))
  }

  /** `check_file_count` as written: building the message applies `len` to the count, a TypeError. */
  function FileCountAsWritten(found: nat, expected: nat): (o: Outcome)
    ensures o == Done <==> found == expected
  {
    if expected == found then Done else Raised(LenOfInt)
  }

  /** On every mismatch the code as written raises instead of reporting the counts, as it evidently means to. */
  lemma MismatchNeverReported(path: string, extension: string, found: nat, expected: nat)
    requires found != expected
    ensures FileCountAsWritten(found, expected) == Raised(LenOfInt)
    ensures FileCountAsWritten(found, expected) != FileCountVerdict(path, extension, found, expected)
  {
  }

  /** The two counts `process` makes after the loop: the TIFs below the BNI batch directory, then the JPGs below the LIB one. */
  function PostFlightVerdict(files: map<string, Content>, bniDir: string, libDir: string, expected: nat): (o: Outcome)
    ensures o == Done <==>
      |MatchingFiles(files, bniDir, "tif")| == expected && |MatchingFiles(files, libDir, "jpg")| == expected
    ensures |MatchingFiles(files, bniDir, "tif")| != expected ==>
      o == Exit(CountMismatch(bniDir, "tif", |MatchingFiles(files, bniDir, "tif")|, expected))
  {
    var v := FileCountVerdict(bniDir, "tif", |MatchingFiles(files, bniDir, "tif")|, expected);
    if v != Done then v else FileCountVerdict(libDir, "jpg", |MatchingFiles(files, libDir, "jpg")|, expected)
  }

  /**
   * When the moves are independent (PairedReady), every relative path is a
   * slash and plain names, and no `*.tif` lies below `bni/next` nor any
   * `*.jpg` below `lib/next` beforehand, the post-flight counts of
   * `process` both find one file per TIF, so the run ends with `Done`.
   */
  lemma ProcessCountsMatch(t: Tree, b: Batch, tifs: seq<string>)
    requires forall i :: 0 <= i < |tifs| ==> EndsWith(tifs[i], ".tif") && PlainRel(Rel(b, tifs[i]))
    requires PairedReady(t.files, TifKeys(tifs), JpgKeys(tifs), TifTargets(b, tifs), JpgTargets(b, tifs))
    requires !AllSlashes(b.bni + "/" + b.nextDir) && !AllSlashes(b.lib + "/" + b.nextDir)
    requires MatchingFiles(t.files, b.bni + "/" + b.nextDir, "tif") == {}
    requires MatchingFiles(t.files, b.lib + "/" + b.nextDir, "jpg") == {}
    ensures forall i :: 0 <= i < |tifs| ==> '.' in tifs[i]
    ensures var bniDir, libDir := b.bni + "/" + b.nextDir, b.lib + "/" + b.nextDir;
      PostFlightVerdict(TransferredAll(MakeDirsIn(MakeDirsIn(t, bniDir), libDir), Plan(b, tifs)).files,
                        bniDir, libDir, |tifs|) == Done
  {
    var bniDir, libDir := b.bni + "/" + b.nextDir, b.lib + "/" + b.nextDir;
    var made := MakeDirsIn(MakeDirsIn(t, bniDir), libDir);
    CountsMatch(made, b, tifs);
  }

  // ---------------------------------------------------------------------
  // archive
  // ---------------------------------------------------------------------

  /**
   * An `archive` call moves the file to its new key with its content,
   * leaves nothing at the old key and changes no other file.
   */
  lemma ArchiveMoves(t: Tree, x: Transfer)
    requires Key(x.src) in t.files && Key(x.src) != Key(x.dst)
    ensures var r := Transferred(t, x).files;
      && Key(x.dst) in r && r[Key(x.dst)] == t.files[Key(x.src)]
      && Key(x.src) !in r
      && forall k :: k != Key(x.src) && k != Key(x.dst) ==> (k in r <==> k in t.files) && (k in r ==> r[k] == t.files[k])
    ensures IsDirIn(Transferred(t, x), x.dir) || IsFileIn(t, x.dir)
  {
    MoveKeyEffect(t.files, Key(x.src), Key(x.dst));
  }

  // ---------------------------------------------------------------------
  // The processor
  // ---------------------------------------------------------------------

  class BNIImageProcessor {
    const options: Options
    const fs: FileSystem
    const ledger: Ledger
    var nextDir: string
    var filesToProcess: seq<string>

    /** The ledger is well formed and every listed file is a `.tif`. */
    ghost predicate Valid()
      reads this, ledger
    {
      && ledger.Valid()
      && AllTifs(filesToProcess)
    }

    /** The object before `__init__` runs its steps; the database session is the ledger given. */
    constructor(options: Options, fs: FileSystem, ledger: Ledger)
      requires ledger.Valid()
      ensures this.options == options && this.fs == fs && this.ledger == ledger
      ensures nextDir == "" && filesToProcess == []
      ensures Valid()
    {
      this.options := options;
      this.fs := fs;
      this.ledger := ledger;
      nextDir := "";
      filesToProcess := [];
    }

    /** The batch directory is the override, or else the first free batch name. */
    ghost predicate NextDirSettled(counter: nat)
      reads this, fs
    {
      match options.next
      case Some(name) => nextDir == name
      case None => FirstFree(fs.State(), options.target, counter) && nextDir == BatchName(counter)
    }

    /** `set_next_dir`. */
    method SetNextDir() returns (ghost counter: nat)
      modifies this
      ensures filesToProcess == old(filesToProcess)
      ensures NextDirSettled(counter)
    {
      counter := 0;
      match options.next {
        case Some(name) =>
          nextDir := name;
        case None =>
          var c: nat := 1;
          ghost var t := fs.State();
          ghost var entries := t.files.Keys + t.dirs;
          ghost var seen: set<string> := {};
          while fs.Exists(ProbePath(options.target, c))
            modifies {}
            invariant c >= 1
            invariant seen <= entries && |seen| == c - 1
            invariant forall k :: k in seen ==> AllDigits(Basename(k)) && Parse(Basename(k)) < c
            invariant ProbedBelow(t, options.target, c)
            decreases |entries| - |seen|
          {
            ProbedOneMore(t, options.target, c);
            ghost var k := Key(ProbePath(options.target, c));
            ProbeKeyNumber(options.target, c);
            AddFresh(seen, entries, k);
            seen := seen + {k};
            c := c + 1;
          }
          nextDir := BatchName(c);
          counter := c;
      }
    }

    /** `check_target`. */
    method CheckTarget() returns (o: Outcome)
      ensures o == Done <==> TargetLooksRight(fs.State(), options.target)
      ensures o != Done ==> o == Exit(TargetUnexpected)
    {
      var base := RStripSlashes(options.target);
      if !fs.IsDir(base + "/000007") || !fs.IsDir(base + "/000028") {
        return Exit(TargetUnexpected);
      }
      return Done;
    }

    /** `set_files_to_process`: appends, in some order, every `*.tif` file below the source. */
    method SetFilesToProcess() returns (ghost order: seq<string>)
      requires Valid()
      modifies this
      ensures Valid()
      ensures nextDir == old(nextDir)
      ensures WalkOrder(order, fs.files, options.source)
      ensures filesToProcess == old(filesToProcess) + Listed(options.source, order)
    {
      var listed;
      listed, order := WalkTifs(fs.files, options.source);
      AllTifsAppend(filesToProcess, listed);
      filesToProcess := filesToProcess + listed;
    }

    /** `get_unmatched_tifs`. */
    method GetUnmatchedTifs() returns (jpgs: seq<string>)
      ensures jpgs == MissingFiles(fs.State(), CheckedCompanions(filesToProcess))
    {
      jpgs := [];
      var i := 0;
      ghost var t, all := fs.State(), CheckedCompanions(filesToProcess);
      while i < |filesToProcess|
        invariant 0 <= i <= |filesToProcess|
        invariant jpgs == MissingFiles(t, all[..i])
      {
        var jpg := CheckedCompanion(filesToProcess[i]);
        assert jpg == all[i];
        MissingFilesSnoc(t, all, i);
        if !fs.IsFile(jpg) {
          jpgs := jpgs + [jpg];
        }
        i := i + 1;
      }
      assert all[..i] == all;
    }

    /** `check_source_files`. */
    method CheckSourceFiles() returns (o: Outcome)
      ensures o == SourceVerdict(fs.State(), filesToProcess)
    {
      if |filesToProcess| < MinTifs {
        return Exit(TooFewTifs(|filesToProcess|));
      }
      if |filesToProcess| > MaxTifs {
        return Exit(TooManyTifs(|filesToProcess|));
      }
      var jpgs := GetUnmatchedTifs();
      if |jpgs| > 0 {
        return Exit(UnmatchedTifs(jpgs));
      }
      return Done;
    }

    /** `get_already_processed_files`. */
    method GetAlreadyProcessedFiles() returns (names: seq<string>)
      ensures names == AlreadyAssigned(ledger.rows, options.source, filesToProcess)
    {
      names := [];
      var i := 0;
      while i < |filesToProcess|
        invariant 0 <= i <= |filesToProcess|
        invariant names == AlreadyAssigned(ledger.rows, options.source, filesToProcess[..i])
      {
        var rel := RelativePath(filesToProcess[i], options.source);
        AlreadyAssignedSnoc(ledger.rows, options.source, filesToProcess, i);
        if ledger.Has(rel) {
          names := names + [rel];
        }
        i := i + 1;
      }
      assert filesToProcess[..i] == filesToProcess;
    }

    /** `check_already_processed_files`. */
    method CheckAlreadyProcessedFiles() returns (o: Outcome)
      ensures o == LedgerVerdict(ledger.rows, options.source, filesToProcess)
    {
      var names := GetAlreadyProcessedFiles();
      if |names| > 0 {
        return Exit(AlreadyProcessed(names));
      }
      return Done;
    }

    /** What a run that got through `__init__` has established. */
    ghost predicate Ready()
      reads this, fs, ledger
    {
      && TargetLooksRight(fs.State(), options.target)
      && MinTifs <= |filesToProcess| <= MaxTifs
      && Paired(fs.State(), filesToProcess)
      && (forall i :: 0 <= i < |filesToProcess| ==> !ledger.Has(RelativePath(filesToProcess[i], options.source)))
    }

    /** The verdict of `__init__` is `Done` exactly when the run is ready. */
    lemma InitVerdictReady()
      ensures InitVerdict(fs.State(), ledger.rows, options.target, options.source, filesToProcess) == Done <==> Ready()
    {
    }

    /**
     * The steps of `__init__` after option parsing, with the database already
     * open: the target check, the batch directory, the listing, the source
     * checks and the ledger check, each exiting on failure, in that order.
     */
    method Init() returns (o: Outcome, ghost counter: nat, ghost order: seq<string>)
      requires Valid() && filesToProcess == []
      modifies this
      ensures Valid()
      ensures o == Done <==> Ready()
      ensures o != Done ==> o.Exit?
      ensures o == InitVerdict(fs.State(), ledger.rows, options.target, options.source, filesToProcess)
      ensures !TargetLooksRight(fs.State(), options.target) ==> filesToProcess == []
      ensures TargetLooksRight(fs.State(), options.target) ==>
        && NextDirSettled(counter)
        && WalkOrder(order, fs.files, options.source)
        && filesToProcess == Listed(options.source, order)
    {
      counter, order := 0, [];
      o := CheckTarget();
      if o == Done {
        o, counter, order := Survey();
      }
      InitVerdictReady();
    }

    /**
     * The steps of `__init__` after a target check that passed: the batch
     * directory, the listing, then the source checks and the ledger check.
     */
    method Survey() returns (o: Outcome, ghost counter: nat, ghost order: seq<string>)
      requires Valid() && filesToProcess == []
      modifies this
      ensures Valid()
      ensures o == if SourceVerdict(fs.State(), filesToProcess) != Done then SourceVerdict(fs.State(), filesToProcess)
                   else LedgerVerdict(ledger.rows, options.source, filesToProcess)
      ensures NextDirSettled(counter)
      ensures WalkOrder(order, fs.files, options.source)
      ensures filesToProcess == Listed(options.source, order)
    {
      counter := SetNextDir();
      order := SetFilesToProcess();
      o := CheckSourceFiles();
      if o == Done {
        o := CheckAlreadyProcessedFiles();
      }
    }

    /** `get_num_files_in_tree`: visits every file below path once and counts the `*.extension` ones. */
    method GetNumFilesInTree(path: string, extension: string) returns (n: nat)
      ensures n == |MatchingFiles(fs.files, path, extension)|
    {
      var remaining := MatchingFiles(fs.files, path, extension);
      ghost var all := remaining;
      n := 0;
      while remaining != {}
        invariant remaining <= all
        invariant n + |remaining| == |all|
        decreases |remaining|
      {
        var k :| k in remaining;
        remaining := remaining - {k};
        n := n + 1;
      }
    }

    /** `check_file_count`, with the mismatch reported as intended. */
    method CheckFileCount(path: string, extension: string) returns (o: Outcome)
      ensures o == FileCountVerdict(path, extension, |MatchingFiles(fs.files, path, extension)|, |filesToProcess|)
    {
      var n := GetNumFilesInTree(path, extension);
      o := FileCountVerdict(path, extension, n, |filesToProcess|);
    }

    /** The run's parameters for the `process` loop starting at identifier first. */
    function BatchFrom(first: nat): Batch
      reads this
    {
      Batch(options.source, options.bni, options.lib, nextDir, first)
    }

    /** `archive(src, rel, root, id)`. */
    method Archive(src: string, rel: string, root: string, id: nat)
      modifies fs
      ensures fs.State() == Transferred(old(fs.State()), ArchiveTransfer(root, nextDir, rel, id, src))
    {
      var dir := root + "/" + nextDir + NormPath(Dirname(rel) + "/../");
      if !fs.Exists(dir) {
        var made := fs.MakeDirs(dir);
      }
      var name := Str(id) + "__" + Basename(src);
      fs.Move(src, dir + "/" + name);
    }

    /** `process_worker(f, rel, id)`: the TIF into the BNI tree, then its JPG into the LIB tree. */
    method ProcessWorker(f: string, rel: string, id: nat)
      requires '.' in f
      modifies fs
      ensures fs.State() == Transferred(Transferred(old(fs.State()),
        ArchiveTransfer(options.bni, nextDir, rel, id, f)),
        ArchiveTransfer(options.lib, nextDir, rel, id, MovedCompanion(f)))
    {
      var jpg := MovedCompanion(f);
      Archive(f, rel, options.bni, id);
      Archive(jpg, rel, options.lib, id);
    }

    /** One pass of the loop of `process`: the next identifier goes to f, which is archived with its JPG. */
    method ArchiveOne(f: string, ghost b: Batch) returns (id: nat)
      requires '.' in f && ledger.Valid()
      requires b == BatchFrom(b.first)
      modifies fs, ledger
      ensures ledger.Valid() && id == old(ledger.next) && ledger.next == id + 1
      ensures ledger.rows == old(ledger.rows) + [BNIImage(id, Rel(b, f))]
      ensures fs.State() == Transferred(Transferred(old(fs.State()), TifTransfer(b, f, id)), JpgTransfer(b, f, id))
    {
      var rel := RelativePath(f, options.source);
      id := ledger.Add(rel);
      assert b.source == options.source;
      TifTransferIs(b, options.bni, nextDir, rel, id, f);
      JpgTransferIs(b, options.lib, nextDir, rel, id, f);
      ProcessWorker(f, rel, id);
    }

    /** The loop of `process`: each TIF in turn gets the next identifier and is archived with its JPG. */
    method ArchiveAll()
      requires ledger.Valid() && forall j :: 0 <= j < |filesToProcess| ==> '.' in filesToProcess[j]
      modifies fs, ledger
      ensures ledger.Valid()
      ensures old(ledger.next) >= FirstId
      ensures fs.State() == TransferredAll(old(fs.State()), Plan(BatchFrom(old(ledger.next)), filesToProcess))
      ensures ledger.rows == old(ledger.rows) + NewRows(Rels(options.source, filesToProcess), old(ledger.next))
      ensures ledger.next == old(ledger.next) + |filesToProcess|
    {
      ghost var t0 := fs.State();
      ghost var r0 := ledger.rows;
      ghost var first: nat := ledger.next;
      ghost var b := BatchFrom(first);
      var i := 0;
      while i < |filesToProcess|
        invariant 0 <= i <= |filesToProcess|
        invariant ledger.Valid() && ledger.next == first + i
        invariant Progressed(ledger.rows, fs.State(), r0, t0, b, filesToProcess, i)
      {
        ghost var r1, s1 := ledger.rows, fs.State();
        var id := ArchiveOne(filesToProcess[i], b);
        ProgressedStep(r1, s1, r0, t0, b, filesToProcess, i, id);
        i := i + 1;
      }
      assert filesToProcess[..i] == filesToProcess;
    }

    /**
     * `process`: makes the two batch directories, then gives each TIF the
     * next identifier and archives it and its JPG, then checks the counts
     * in both trees.
     */
    method Process() returns (o: Outcome)
      requires Valid()
      modifies fs, ledger
      ensures Valid()
      ensures var bniDir, libDir := options.bni + "/" + nextDir, options.lib + "/" + nextDir;
        if old(fs.Exists(bniDir)) then
          o == Raised(DirectoryExists(bniDir)) && fs.State() == old(fs.State()) && ledger.rows == old(ledger.rows)
        else if ExistsIn(MakeDirsIn(old(fs.State()), bniDir), libDir) then
          o == Raised(DirectoryExists(libDir)) && fs.State() == MakeDirsIn(old(fs.State()), bniDir) && ledger.rows == old(ledger.rows)
        else
          && old(ledger.next) >= FirstId
          && (forall j :: 0 <= j < |filesToProcess| ==> '.' in filesToProcess[j])
          && fs.State() == TransferredAll(MakeDirsIn(MakeDirsIn(old(fs.State()), bniDir), libDir),
                                          Plan(BatchFrom(old(ledger.next)), filesToProcess))
          && ledger.rows == old(ledger.rows) + NewRows(Rels(options.source, filesToProcess), old(ledger.next))
          && ledger.next == old(ledger.next) + |filesToProcess|
          && o == PostFlightVerdict(fs.files, bniDir, libDir, |filesToProcess|)
    {
      var bniDir, libDir := options.bni + "/" + nextDir, options.lib + "/" + nextDir;
      var ok := fs.MakeDirs(bniDir);
      if !ok {
        return Raised(DirectoryExists(bniDir));
      }
      ok := fs.MakeDirs(libDir);
      if !ok {
        return Raised(DirectoryExists(libDir));
      }
      forall j | 0 <= j < |filesToProcess| ensures '.' in filesToProcess[j] {
        TifHasDot(filesToProcess[j]);
      }
      ArchiveAll();
      o := CheckFileCount(bniDir, "tif");
      if o != Done {
        return;
      }
      o := CheckFileCount(libDir, "jpg");
    }

    /** `delete_source_dir`: removes the source tree only when no `*.tif` is left in it and it is not `/` or empty. */
    method DeleteSourceDir() returns (o: Outcome)
      modifies fs
      ensures var guard := |MatchingFiles(old(fs.files), options.source, "tif")| == 0 && options.source != "/" && options.source != "";
        && (o == Raised(RemoveFailed(options.source)) <==> guard && !(old(fs.IsDir(options.source)) && !DotLast(options.source)))
        && (o != Raised(RemoveFailed(options.source)) ==> o == Done)
        && fs.State() == if guard then RemoveTreeIn(old(fs.State()), options.source) else old(fs.State())
    {
      o := Done;
      var n := GetNumFilesInTree(options.source, "tif");
      if n == 0 {
        if options.source != "/" && options.source != "" {
          var ok := fs.RemoveTree(options.source);
          if !ok {
            o := Raised(RemoveFailed(options.source));
          }
        }
      }
    }
  }

  /** The source tree is removed only when it holds no `*.tif` file: no TIF is ever lost to the removal. */
  lemma RemovalLosesNoTif(t: Tree, source: string)
    requires |MatchingFiles(t.files, source, "tif")| == 0 && source != "/" && source != ""
    ensures forall k :: k in t.files && Under(k, Key(source)) ==> !HasExtension(k, "tif")
  {
    forall k | k in t.files && Under(k, Key(source)) ensures !HasExtension(k, "tif") {
      assert HasExtension(k, "tif") ==> k in MatchingFiles(t.files, source, "tif");
    }
  }
}
