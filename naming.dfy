/**
 * The names the ingest pipeline computes: batch directory names
 * (`str(counter).zfill(6)`), the source-relative path of a TIF, the
 * companion JPG path, and where `archive` puts a file and what it
 * renames it to.
 */
module Naming {
  import opened Decimal
  import opened PosixPath

  /** Width of the zero-padded batch directory names. */
  const BatchWidth: nat := 6

  /** `str(n).zfill(6)`: the name of batch directory number n. */
  function BatchName(n: nat): string {
    ZFill(Str(n), BatchWidth)
  }

  /** Below a million, a batch name is exactly six digits spelling n. */
  lemma BatchNameForm(n: nat)
    requires n < 1000000
    ensures |BatchName(n)| == BatchWidth
    ensures AllDigits(BatchName(n)) && Parse(BatchName(n)) == n
  {
    assert Pow10(6) == 1000000;
    StrLength(n, 6);
    ZFillStr(n, BatchWidth);
  }

  /** Different counters never probe the same name. */
  lemma BatchNameInjective(a: nat, b: nat)
    requires BatchName(a) == BatchName(b)
    ensures a == b
  {
    ZFillStr(a, BatchWidth);
    ZFillStr(b, BatchWidth);
  }

  /** A batch name is a single plain path component. */
  lemma BatchNameIsSegment(n: nat)
    ensures IsSegment(BatchName(n))
  {
    var s := BatchName(n);
    ZFillStr(n, BatchWidth);
    assert IsDigit(s[0]);
    assert '/' !in s by {
      forall i | 0 <= i < |s| ensures s[i] != '/' {
        assert IsDigit(s[i]);
      }
    }
  }

  /** The reference tree's sentinel directories are batches 7 and 28. */
  lemma SentinelBatchNames()
    ensures BatchName(7) == "000007"
    ensures BatchName(28) == "000028"
  {
    assert Str(7) == "7";
    assert Str(28) == Str(2) + "8";
    assert Str(28) == "28";
    assert Zeros(5) == "00000" by {
      assert Zeros(1) == "0";
      assert Zeros(2) == "00";
      assert Zeros(3) == "000";
      assert Zeros(4) == "0000";
    }
    assert Zeros(4) == "0000";
  }

  // ---------------------------------------------------------------------
  // Relative paths
  // ---------------------------------------------------------------------

  /** `tif_filename.replace(source_path, '')`: the name the ledger records for a file. */
  function RelativePath(file: string, source: string): string {
    RemoveAll(file, source)
  }

  /** When the source path occurs only as the prefix, the relative path is the rest. */
  lemma RelativePathOfChild(source: string, rest: string)
    requires source != "" && !Occurs(rest, source)
    ensures RelativePath(source + rest, source) == rest
  {
    RemoveAllPrefix(source, rest);
  }

  // ---------------------------------------------------------------------
  // Companion JPG
  // ---------------------------------------------------------------------

  /** The JPG that `get_unmatched_tifs` looks for: `dirname(f) + '/../Jpgs/' + splitext(basename(f))[0] + '.jpg'`. */
  function CheckedCompanion(tif: string): string {
    Dirname(tif) + "/../Jpgs/" + SplitExtRoot(Basename(tif)) + ".jpg"
  }

  /** The stem `process_worker` uses: `basename(f[0:f.rindex('.')])`. */
  function WorkerStem(tif: string): string
    requires '.' in tif
  {
    Basename(tif[..Rfind(tif, '.')])
  }

  /** The JPG that `process_worker` moves: `normpath(dirname(f) + '/' + '../Jpgs/' + stem + '.jpg')`. */
  function MovedCompanion(tif: string): string
    requires '.' in tif
  {
    NormPath(Dirname(tif) + "/" + "../Jpgs/" + WorkerStem(tif) + ".jpg")
  }

  /** The file name of a TIF without its `.tif`. */
  function TifStem(tif: string): string
    requires |tif| >= 4
  {
    Basename(tif[..|tif| - 4])
  }

  predicate NotAllDots(s: string) {
    exists k :: 0 <= k < |s| && s[k] != '.'
  }

  lemma TifHasDot(tif: string)
    requires EndsWith(tif, ".tif")
    ensures '.' in tif
    ensures Rfind(tif, '.') == |tif| - 4
  {
    TifSplit(tif);
    RfindAfter(tif[..|tif| - 4], '.', "tif");
  }

  lemma TifSplit(tif: string)
    requires EndsWith(tif, ".tif")
    ensures tif == tif[..|tif| - 4] + ['.'] + "tif"
  {
    assert tif[|tif| - 4..] == ".tif";
  }

  lemma TifBasename(tif: string)
    requires EndsWith(tif, ".tif")
    ensures Basename(tif) == TifStem(tif) + ".tif"
  {
    var pre := tif[..|tif| - 4];
    assert tif == pre + ".tif";
    BasenameAppend(pre, ".tif");
  }

  lemma WorkerStemIsTifStem(tif: string)
    requires EndsWith(tif, ".tif")
    ensures '.' in tif
    ensures WorkerStem(tif) == TifStem(tif)
  {
    TifHasDot(tif);
  }

  /** `splitext` removes `.tif` unless everything before it is dots. */
  lemma SplitExtOfTifName(s: string)
    requires '/' !in s
    ensures SplitExtRoot(s + ".tif") == if NotAllDots(s) then s else s + ".tif"
  {
    var b := s + ".tif";
    assert '/' !in b by {
      forall i | 0 <= i < |b| ensures b[i] != '/' {
        if i < |s| { assert b[i] == s[i]; }
      }
    }
    RfindAbsent(b, '/');
    assert b == s + ['.'] + "tif";
    RfindAfter(s, '.', "tif");
    assert b[..|s|] == s;
    if NotAllDots(s) {
      var k :| 0 <= k < |s| && s[k] != '.';
      assert b[k] == s[k];
    } else {
      forall k | -1 < k < |s| ensures b[k] == '.' {
        assert b[k] == s[k];
      }
    }
  }

  lemma MovedPathShape(a: string, w: string)
    ensures a + "/" + "../Jpgs/" + w + ".jpg" == (a + "/../Jpgs") + "/" + (w + ".jpg")
  {
  }

  lemma CheckedPathShape(a: string, w: string)
    ensures a + "/../Jpgs/" + w + ".jpg" == (a + "/../Jpgs") + "/" + (w + ".jpg")
  {
  }

  /** Both companion paths, written as a directory, a slash and a file name. */
  lemma CompanionForms(tif: string)
    requires EndsWith(tif, ".tif")
    ensures '.' in tif
    ensures MovedCompanion(tif) == NormPath((Dirname(tif) + "/../Jpgs") + "/" + (TifStem(tif) + ".jpg"))
    ensures CheckedCompanion(tif) == (Dirname(tif) + "/../Jpgs") + "/" + (SplitExtRoot(TifStem(tif) + ".tif") + ".jpg")
  {
    WorkerStemIsTifStem(tif);
    MovedPathShape(Dirname(tif), TifStem(tif));
    TifBasename(tif);
    CheckedPathShape(Dirname(tif), SplitExtRoot(Basename(tif)));
  }

  /** Two different file names under one directory normalise to different paths. */
  lemma ChildrenDiffer(d: string, x: string, y: string)
    requires IsSegment(x) && IsSegment(y) && x != y
    ensures NormPath(d + "/" + x) != NormPath(d + "/" + y)
  {
    NormPathChild(d, x);
    NormPathChild(d, y);
  }

  /** For `.tif` and `..tif` the two file names differ in length, so the paths differ. */
  lemma CompanionsDiffer(d: string, s: string)
    requires '/' !in s && !NotAllDots(s)
    ensures NormPath(d + "/" + (s + ".jpg")) != NormPath(d + "/" + (SplitExtRoot(s + ".tif") + ".jpg"))
  {
    var t := s + ".tif";
    SplitExtOfTifName(s);
    assert SplitExtRoot(t) == t;
    assert '/' !in t by {
      forall i | 0 <= i < |t| ensures t[i] != '/' {
        if i < |s| { assert t[i] == s[i]; }
      }
    }
    JpgNameIsSegment(s);
    JpgNameIsSegment(t);
    assert |s + ".jpg"| != |t + ".jpg"|;
    ChildrenDiffer(d, s + ".jpg", t + ".jpg");
  }

  /**
   * The two companion computations name the same file exactly when the
   * TIF's stem has a character other than '.'; for `.tif` or `..tif`
   * the check looks for `.tif.jpg` while the move takes `.jpg`.
   */
  lemma CompanionsAgree(tif: string)
    requires EndsWith(tif, ".tif")
    ensures '.' in tif
    ensures MovedCompanion(tif) == NormPath(CheckedCompanion(tif)) <==> NotAllDots(TifStem(tif))
  {
    CompanionForms(tif);
    var d, s := Dirname(tif) + "/../Jpgs", TifStem(tif);
    if NotAllDots(s) {
      SplitExtOfTifName(s);
    } else {
      CompanionsDiffer(d, s);
    }
  }

  /** A name without slashes whose extension does not end in a dot is a plain component. */
  lemma NameIsSegment(s: string, ext: string)
    requires '/' !in s && '/' !in ext && ext != [] && ext[|ext| - 1] != '.'
    ensures IsSegment(s + ext)
  {
    var n := s + ext;
    assert n[|n| - 1] == ext[|ext| - 1];
    assert '/' !in n by {
      forall i | 0 <= i < |n| ensures n[i] != '/' {
        if i < |s| { assert n[i] == s[i]; } else { assert n[i] == ext[i - |s|]; }
      }
    }
  }

  /** The last character of a name, or a space for the empty name. */
  function LastChar(s: string): char {
    if s == [] then ' ' else s[|s| - 1]
  }

  /** The file a TIF path names keeps its `.tif` name under normpath. */
  lemma TifKeyName(tif: string)
    requires EndsWith(tif, ".tif")
    ensures Basename(NormPath(tif)) == TifStem(tif) + ".tif"
    ensures LastChar(Basename(NormPath(tif))) == 'f'
  {
    TifBasename(tif);
    NameIsSegment(TifStem(tif), ".tif");
    NormPathKeepsBasename(tif);
  }

  lemma JpgNameIsSegment(s: string)
    requires '/' !in s
    ensures IsSegment(s + ".jpg")
  {
    NameIsSegment(s, ".jpg");
  }

  /** The JPG `process_worker` moves is named after the TIF's stem. */
  lemma CompanionBasename(tif: string)
    requires EndsWith(tif, ".tif")
    ensures '.' in tif
    ensures Basename(MovedCompanion(tif)) == TifStem(tif) + ".jpg"
  {
    var s := TifStem(tif);
    assert '/' !in s;
    JpgNameIsSegment(s);
    CompanionForms(tif);
    NormPathChild(Dirname(tif) + "/../Jpgs", s + ".jpg");
  }

  /** The JPG's key has the same name, which ends in `g`. */
  lemma CompanionName(tif: string)
    requires EndsWith(tif, ".tif")
    ensures '.' in tif
    ensures Basename(MovedCompanion(tif)) == TifStem(tif) + ".jpg"
    ensures Basename(NormPath(MovedCompanion(tif))) == TifStem(tif) + ".jpg"
    ensures LastChar(Basename(NormPath(MovedCompanion(tif)))) == 'g'
  {
    CompanionBasename(tif);
    JpgNameIsSegment(TifStem(tif));
    NormPathKeepsBasename(MovedCompanion(tif));
  }

  // ---------------------------------------------------------------------
  // Where archive puts a file
  // ---------------------------------------------------------------------

  /** `target_path + '/' + str(next_dir) + normpath(dirname(rel) + '/../')`. */
  function ArchiveDir(root: string, nextDir: string, rel: string): string {
    root + "/" + nextDir + NormPath(Dirname(rel) + "/../")
  }

  /** `str(uuid) + '__' + basename(source)`. */
  function ArchivedName(id: nat, src: string): string {
    Str(id) + "__" + Basename(src)
  }

  /** `full_target_path + '/' + new_filename`. */
  function ArchivePath(root: string, nextDir: string, rel: string, id: nat, src: string): string {
    ArchiveDir(root, nextDir, rel) + "/" + ArchivedName(id, src)
  }

  /** A join of plain components does not end in a slash. */
  lemma JoinLastChar(dirs: seq<string>)
    requires |dirs| >= 1 && IsSegment(dirs[|dirs| - 1])
    ensures Join(dirs) != "" && Join(dirs)[|Join(dirs)| - 1] != '/'
  {
    var j, last := Join(dirs), dirs[|dirs| - 1];
    JoinEndsWith(dirs);
    assert j[|j| - |last|..] == last;
    assert j[|j| - 1] == last[|last| - 1];
  }

  lemma SlashPrefix(j: string, name: string)
    ensures "/" + (j + "/" + name) == ("/" + j) + "/" + name
  {
  }

  /** For `rel = /d1/.../dn/name`, dirname(rel) is `/d1/.../dn`. */
  lemma DirnameOfRel(dirs: seq<string>, name: string, rel: string)
    requires |dirs| >= 1
    requires forall i :: 0 <= i < |dirs| ==> IsSegment(dirs[i])
    requires '/' !in name
    requires rel == "/" + Join(dirs + [name])
    ensures Dirname(rel) == "/" + Join(dirs)
  {
    var j := Join(dirs);
    JoinSnoc(dirs, name);
    SlashPrefix(j, name);
    JoinLastChar(dirs);
    var a := "/" + j;
    assert a[|a| - 1] == j[|j| - 1];
    DirnameChild(a, name);
  }

  /**
   * Because of the `/../`, the archive directory drops the last directory
   * of the relative path: `root/next/d1/.../d(n-1)`.
   */
  lemma ArchiveDirDropsParent(root: string, nextDir: string, dirs: seq<string>, name: string, rel: string)
    requires |dirs| >= 1
    requires forall i :: 0 <= i < |dirs| ==> IsSegment(dirs[i])
    requires '/' !in name
    requires rel == "/" + Join(dirs + [name])
    ensures Dirname(rel) == "/" + Join(dirs)
    ensures ArchiveDir(root, nextDir, rel) == root + "/" + nextDir + "/" + Join(dirs[..|dirs| - 1])
  {
    DirnameOfRel(dirs, name, rel);
    var p := Dirname(rel) + "/../";
    NormPathParent(dirs, p);
    assert ArchiveDir(root, nextDir, rel) == (root + "/" + nextDir) + NormPath(p);
    SlashJoinRegroup(root + "/" + nextDir, Join(dirs[..|dirs| - 1]));
  }

  lemma SlashJoinRegroup(x: string, j: string)
    ensures x + ("/" + j) == x + "/" + j
  {
  }

  /**
   * A relative path of the shape a source without a trailing slash gives
   * its files: a slash, then plain names.
   */
  predicate PlainRel(rel: string) {
    && |rel| >= 1 && rel[0] == '/'
    && var names := Split(rel[1..]);
       forall i :: 0 <= i < |names| ==> IsSegment(names[i])
  }

  lemma Regroup(x: string, y: string, n: string)
    ensures x + y + "/" + n == x + (y + "/" + n)
  {
  }

  /** Moving the slashes of the archive directory onto the name. */
  lemma RegroupSlashes(x: string, n: string)
    ensures x + "//" + "/" + n == x + "/" + ("//" + n)
    ensures x + "/" + "" + "/" + n == x + "/" + ("/" + n)
  {
    assert x + "//" + "/" + n == x + "/" + "//" + n;
    assert x + "/" + "" + "/" + n == x + "/" + "/" + n;
  }

  /** normpath of `//../` keeps the two leading slashes and drops the rest. */
  lemma NormPathTopParent()
    ensures NormPath("//../") == "//"
  {
    var p := "//../";
    SplitAppend("..", "");
    SplitNoSlash("..");
    assert "../" == ".." + "/" + "";
    assert Split("../") == ["..", ""];
    assert p[1..] == "/../" && p[1..][1..] == "../";
    assert Split("/../") == ["", "..", ""];
    assert Split(p) == ["", "", "..", ""];
    assert InitialSlashes(p) == 2;
    assert NormComps([], ["", "", "..", ""], true) == [];
  }

  /** For a file directly in the source, the archive directory is `root/next//`. */
  lemma ArchiveDirTopLevel(root: string, nextDir: string, name: string, rel: string)
    requires '/' !in name && rel == "/" + name
    ensures ArchiveDir(root, nextDir, rel) == root + "/" + nextDir + "//"
  {
    RfindAfter("", '/', name);
    assert "" + ['/'] + name == rel;
    assert rel[..1] == "/";
    assert Dirname(rel) == "/";
    assert "/" + "/../" == "//../";
    NormPathTopParent();
  }

  /** The archive path of a file directly in the source. */
  lemma ArchivePathTopLevel(root: string, nextDir: string, name: string, rel: string, id: nat, src: string)
    requires '/' !in name && rel == "/" + name
    ensures ArchivePath(root, nextDir, rel, id, src) == (root + "/" + nextDir) + "/" + ("//" + ArchivedName(id, src))
  {
    ArchiveDirTopLevel(root, nextDir, name, rel);
    var dir, n := ArchiveDir(root, nextDir, rel), ArchivedName(id, src);
    assert ArchivePath(root, nextDir, rel, id, src) == dir + "/" + n;
    RegroupSlashes(root + "/" + nextDir, n);
  }

  /** For a file one directory below the source, the archive directory is `root/next/`. */
  lemma ArchiveDirOneDown(root: string, nextDir: string, dirs: seq<string>, name: string, rel: string)
    requires |dirs| == 1 && IsSegment(dirs[0]) && '/' !in name
    requires rel == "/" + Join(dirs + [name])
    ensures ArchiveDir(root, nextDir, rel) == root + "/" + nextDir + "/" + ""
  {
    ArchiveDirDropsParent(root, nextDir, dirs, name, rel);
    assert dirs[..|dirs| - 1] == [];
  }

  /** The archive path of a file one directory below the source. */
  lemma ArchivePathOneDown(root: string, nextDir: string, dirs: seq<string>, name: string, rel: string, id: nat, src: string)
    requires |dirs| == 1 && IsSegment(dirs[0]) && '/' !in name
    requires rel == "/" + Join(dirs + [name])
    ensures ArchivePath(root, nextDir, rel, id, src) == (root + "/" + nextDir) + "/" + ("/" + ArchivedName(id, src))
  {
    ArchiveDirOneDown(root, nextDir, dirs, name, rel);
    var dir, n := ArchiveDir(root, nextDir, rel), ArchivedName(id, src);
    assert ArchivePath(root, nextDir, rel, id, src) == dir + "/" + n;
    RegroupSlashes(root + "/" + nextDir, n);
  }

  /** For a file two or more directories below the source, the archive directory drops the last directory. */
  lemma ArchiveDirDeeper(root: string, nextDir: string, names: seq<string>, rel: string)
    requires |names| >= 3 && (forall i :: 0 <= i < |names| ==> IsSegment(names[i]))
    requires rel == "/" + Join(names)
    ensures ArchiveDir(root, nextDir, rel) == root + "/" + nextDir + "/" + Join(names[..|names| - 2])
  {
    var dirs, name := names[..|names| - 1], names[|names| - 1];
    SplitLast(names);
    PrefixSegments(names, |names| - 1);
    assert dirs[..|dirs| - 1] == names[..|names| - 2];
    ArchiveDirDropsParent(root, nextDir, dirs, name, rel);
  }

  lemma PrefixSegments(names: seq<string>, m: nat)
    requires m <= |names| && forall i :: 0 <= i < |names| ==> IsSegment(names[i])
    ensures forall i :: 0 <= i < m ==> IsSegment(names[..m][i])
  {
  }

  lemma ArchivePathDeeper(root: string, nextDir: string, names: seq<string>, rel: string, id: nat, src: string)
    requires |names| >= 3 && (forall i :: 0 <= i < |names| ==> IsSegment(names[i]))
    requires rel == "/" + Join(names)
    ensures ArchivePath(root, nextDir, rel, id, src) ==
      (root + "/" + nextDir) + "/" + Join(names[..|names| - 2] + [ArchivedName(id, src)])
  {
    ArchiveDirDeeper(root, nextDir, names, rel);
    var pre, n := names[..|names| - 2], ArchivedName(id, src);
    JoinSnoc(pre, n);
    var dir := ArchiveDir(root, nextDir, rel);
    assert ArchivePath(root, nextDir, rel, id, src) == dir + "/" + n;
    Regroup(root + "/" + nextDir + "/", Join(pre), n);
  }

  /** The names of a plain relative path. */
  lemma PlainRelNames(rel: string) returns (names: seq<string>)
    requires PlainRel(rel)
    ensures |names| >= 1 && forall i :: 0 <= i < |names| ==> IsSegment(names[i])
    ensures rel == "/" + Join(names)
  {
    names := Split(rel[1..]);
    JoinSplit(rel[1..]);
    assert rel == [rel[0]] + rel[1..];
  }

  lemma SplitLast(s: seq<string>)
    requires |s| >= 1
    ensures s == s[..|s| - 1] + [s[|s| - 1]]
  {
  }

  /** The names of the archive path below `root/next`, for a file two or more directories below the source. */
  lemma DeeperNames(names: seq<string>, n: string) returns (cs: seq<string>)
    requires |names| >= 3 && (forall i :: 0 <= i < |names| ==> IsSegment(names[i])) && IsSegment(n)
    ensures cs == names[..|names| - 2] + [n]
    ensures |cs| >= 1 && forall i :: 0 <= i < |cs| ==> IsSegment(cs[i])
    ensures Split(Join(cs)) == EmptyComps(0) + cs
  {
    cs := names[..|names| - 2] + [n];
    assert forall i :: 0 <= i < |cs| ==> IsSegment(cs[i]) by {
      forall i | 0 <= i < |cs| ensures IsSegment(cs[i]) {
        if i < |cs| - 1 {
          assert cs[i] == names[i];
        }
      }
    }
    SplitJoin(cs);
    assert EmptyComps(0) + cs == cs;
  }

  /** ArchivePathParts for a file directly in the source. */
  lemma PartsTopLevel(root: string, nextDir: string, rel: string, id: nat, src: string, names: seq<string>)
    returns (t: string, e: nat, cs: seq<string>)
    requires |names| == 1 && IsSegment(names[0]) && rel == "/" + Join(names)
    ensures ArchivePath(root, nextDir, rel, id, src) == (root + "/" + nextDir) + "/" + t
    ensures Split(t) == EmptyComps(e) + cs
    ensures |cs| >= 1 && forall i :: 0 <= i < |cs| ==> IsSegment(cs[i])
  {
    var n := ArchivedName(id, src);
    ArchivedNameIsSegment(id, src);
    assert rel == "/" + names[0];
    ArchivePathTopLevel(root, nextDir, names[0], rel, id, src);
    t, e, cs := "//" + n, 2, [n];
    SplitNoSlash(n);
    SplitSlashes(2, n);
  }

  /** ArchivePathParts for a file one directory below the source. */
  lemma PartsOneDown(root: string, nextDir: string, rel: string, id: nat, src: string, names: seq<string>)
    returns (t: string, e: nat, cs: seq<string>)
    requires |names| == 2 && IsSegment(names[0]) && IsSegment(names[1]) && rel == "/" + Join(names)
    ensures ArchivePath(root, nextDir, rel, id, src) == (root + "/" + nextDir) + "/" + t
    ensures Split(t) == EmptyComps(e) + cs
    ensures |cs| >= 1 && forall i :: 0 <= i < |cs| ==> IsSegment(cs[i])
  {
    var n := ArchivedName(id, src);
    ArchivedNameIsSegment(id, src);
    assert names == [names[0]] + [names[1]];
    ArchivePathOneDown(root, nextDir, [names[0]], names[1], rel, id, src);
    t, e, cs := "/" + n, 1, [n];
    SplitNoSlash(n);
    SplitSlashes(1, n);
  }

  /** ArchivePathParts for a file two or more directories below the source. */
  lemma PartsDeeper(root: string, nextDir: string, rel: string, id: nat, src: string, names: seq<string>)
    returns (t: string, e: nat, cs: seq<string>)
    requires |names| >= 3 && (forall i :: 0 <= i < |names| ==> IsSegment(names[i])) && rel == "/" + Join(names)
    ensures ArchivePath(root, nextDir, rel, id, src) == (root + "/" + nextDir) + "/" + t
    ensures Split(t) == EmptyComps(e) + cs
    ensures |cs| >= 1 && forall i :: 0 <= i < |cs| ==> IsSegment(cs[i])
  {
    var n := ArchivedName(id, src);
    ArchivedNameIsSegment(id, src);
    ArchivePathDeeper(root, nextDir, names, rel, id, src);
    cs := DeeperNames(names, n);
    t, e := Join(cs), 0;
  }

  /**
   * Where archive puts a file with a plain relative path: the batch
   * directory `root/next`, then some slashes, then plain names ending in the
   * new file name.
   */
  lemma ArchivePathParts(root: string, nextDir: string, rel: string, id: nat, src: string)
    returns (t: string, e: nat, cs: seq<string>)
    requires PlainRel(rel)
    ensures ArchivePath(root, nextDir, rel, id, src) == (root + "/" + nextDir) + "/" + t
    ensures Split(t) == EmptyComps(e) + cs
    ensures |cs| >= 1 && forall i :: 0 <= i < |cs| ==> IsSegment(cs[i])
  {
    var names := PlainRelNames(rel);
    if |names| == 1 {
      t, e, cs := PartsTopLevel(root, nextDir, rel, id, src, names);
    } else if |names| == 2 {
      t, e, cs := PartsOneDown(root, nextDir, rel, id, src, names);
    } else {
      t, e, cs := PartsDeeper(root, nextDir, rel, id, src, names);
    }
  }

  /** The length of the run of digits a string starts with. */
  function DigitRun(s: string): (n: nat)
    ensures n <= |s| && AllDigits(s[..n])
    decreases |s|
  {
    if s == [] || !IsDigit(s[0]) then 0
    else
      var n := 1 + DigitRun(s[1..]);
      assert s[..n] == [s[0]] + s[1..][..n - 1];
      n
  }

  lemma {:induction false} DigitRunBeforeUnderscore(u: string, rest: string)
    requires AllDigits(u)
    ensures DigitRun(u + "_" + rest) == |u|
    decreases |u|
  {
    var n := u + "_" + rest;
    if u == [] {
      assert n[0] == '_';
    } else {
      assert n[1..] == u[1..] + "_" + rest;
      DigitRunBeforeUnderscore(u[1..], rest);
    }
  }

  /** The identifier an archived name starts with. */
  function ArchivedId(n: string): nat {
    Parse(n[..DigitRun(n)])
  }

  /** The original file name an archived name ends with. */
  function ArchivedOriginal(n: string): string {
    if DigitRun(n) + 2 <= |n| then n[DigitRun(n) + 2..] else ""
  }

  lemma SplitAtUnderscores(u: string, b: string, n: string)
    requires AllDigits(u) && n == u + "__" + b
    ensures DigitRun(n) == |u| && n[..|u|] == u && |u| + 2 <= |n| && n[|u| + 2..] == b
  {
    assert n == u + "_" + ("_" + b);
    DigitRunBeforeUnderscore(u, "_" + b);
    assert n[..|u|] == u;
    assert n[|u| + 2..] == b;
  }

  /** The archived name can be taken apart again into the identifier and the original file name. */
  lemma ArchivedNameDecodes(id: nat, src: string)
    ensures ArchivedId(ArchivedName(id, src)) == id
    ensures ArchivedOriginal(ArchivedName(id, src)) == Basename(src)
  {
    SplitAtUnderscores(Str(id), Basename(src), ArchivedName(id, src));
    ParseStr(id);
  }

  /** An archived name is a single plain path component. */
  lemma ArchivedNameIsSegment(id: nat, src: string)
    ensures IsSegment(ArchivedName(id, src))
  {
    var n := ArchivedName(id, src);
    var u := Str(id);
    var b := Basename(src);
    assert n[0] == u[0] && IsDigit(u[0]);
    assert '/' !in n by {
      forall i | 0 <= i < |n| ensures n[i] != '/' {
        if i < |u| {
          assert n[i] == u[i] && IsDigit(u[i]);
        } else if i >= |u| + 2 {
          assert n[i] == b[i - |u| - 2];
        }
      }
    }
  }

  /** Whatever the directory, the archived file's key in the filesystem ends in its archived name. */
  lemma ArchivePathNamesFile(root: string, nextDir: string, rel: string, id: nat, src: string)
    ensures Basename(NormPath(ArchivePath(root, nextDir, rel, id, src))) == ArchivedName(id, src)
  {
    ArchivedNameIsSegment(id, src);
    NormPathChild(ArchiveDir(root, nextDir, rel), ArchivedName(id, src));
  }
}
