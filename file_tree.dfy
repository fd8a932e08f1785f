/**
 * The filesystem the pipeline reads and changes: file contents and
 * directories keyed by normalized path, and the three operations the
 * pipeline performs on it (`os.makedirs`, `/bin/mv`, `shutil.rmtree`),
 * both as functions on snapshots and as methods of a mutable object.
 */
module FileTree {
  import opened PosixPath

  type Content = seq<bv8>

  /** A snapshot of the filesystem: which files exist with what content, and which directories exist. */
  datatype Tree = Tree(files: map<string, Content>, dirs: set<string>)

  /** Paths that normalize to the same string name the same entry. */
  function Key(p: string): string {
    NormPath(p)
  }

  /** `os.path.isfile(p)`. */
  predicate IsFileIn(t: Tree, p: string) {
    Key(p) in t.files
  }

  /** `os.path.isdir(p)`. */
  predicate IsDirIn(t: Tree, p: string) {
    Key(p) in t.dirs
  }

  /** `os.path.exists(p)`. */
  predicate ExistsIn(t: Tree, p: string) {
    IsFileIn(t, p) || IsDirIn(t, p)
  }

  // ---------------------------------------------------------------------
  // Trees below a directory
  // ---------------------------------------------------------------------

  /**
   * Key k names an entry strictly below the directory with key r, reached
   * from r without climbing out of it through `..`: an entry `os.walk(r)`
   * visits.
   */
  predicate Under(k: string, r: string) {
    if r == "." then k != "." && !StartsWith(k, "/") && !Climbs(k)
    else if EndsWith(r, "/") then |k| > |r| && StartsWith(k, r) && !Climbs(k[|r|..])
    else StartsWith(k, r + "/") && !Climbs(k[|r| + 1..])
  }

  /** A relative path that stays where it starts, joined onto a directory, lies below it. */
  lemma UnderJoined(r: string, j: string)
    requires r != "" && j != "" && j != "." && !StartsWith(j, "/") && !Climbs(j)
    ensures Under(if r == "." then j else PathJoin(r, j), r)
  {
    if r != "." {
      var k := PathJoin(r, j);
      if EndsWith(r, "/") {
        assert k == r + j;
        assert k[..|r|] == r && k[|r|..] == j;
      } else {
        assert k == r + "/" + j;
        assert k[..|r| + 1] == r + "/" && k[|r| + 1..] == j;
      }
    }
  }

  /** `fnmatch(name, '*.' + ext)`: the file name ends with a dot and the extension. */
  predicate HasExtension(k: string, ext: string) {
    EndsWith(Basename(k), "." + ext)
  }

  /** The files `os.walk(root)` visits whose names match `*.ext`; a walk of the empty path visits nothing. */
  function MatchingFiles(files: map<string, Content>, root: string, ext: string): (s: set<string>)
    ensures forall k :: k in s <==> root != "" && k in files && Under(k, Key(root)) && HasExtension(k, ext)
  {
    set k | k in files && root != "" && Under(k, Key(root)) && HasExtension(k, ext)
  }

  // ---------------------------------------------------------------------
  // The three operations on snapshots
  // ---------------------------------------------------------------------

  /** `os.makedirs(p)`: fails when p already exists, otherwise p becomes a directory. */
  function MakeDirsIn(t: Tree, p: string): (r: Tree)
    ensures r.files == t.files
    ensures ExistsIn(t, p) ==> r == t
    ensures !ExistsIn(t, p) ==> r.dirs == t.dirs + {Key(p)}
    ensures IsDirIn(r, p) || IsFileIn(t, p)
  {
    if ExistsIn(t, p) then t else t.(dirs := t.dirs + {Key(p)})
  }

  /** Renaming key `from` to key `to`: when `from` is missing, nothing happens. */
  function MoveKey(files: map<string, Content>, from: string, to: string): map<string, Content>
  {
    if from in files then (files - {from})[to := files[from]] else files
  }

  /** What `MoveKey` does: the content moves, the old key goes, every other key keeps its content. */
  lemma MoveKeyEffect(files: map<string, Content>, from: string, to: string)
    ensures from in files ==> to in MoveKey(files, from, to) && MoveKey(files, from, to)[to] == files[from]
    ensures from in files && from != to ==> from !in MoveKey(files, from, to)
    ensures from !in files ==> MoveKey(files, from, to) == files
    ensures forall k :: k != from && k != to ==>
      (k in MoveKey(files, from, to) <==> k in files) &&
      (k in files ==> MoveKey(files, from, to)[k] == files[k])
  {
  }

  /** `/bin/mv src dst`, with its failure (a missing source) ignored as the caller does. */
  function MoveIn(t: Tree, src: string, dst: string): (r: Tree)
    ensures r.dirs == t.dirs
  {
    t.(files := MoveKey(t.files, Key(src), Key(dst)))
  }

  /** The entry itself or anything below it. */
  predicate InOrUnder(k: string, r: string) {
    k == r || Under(k, r)
  }

  /** The last component of p, trailing slashes aside, is `.` or `..`, which `os.rmdir` refuses to remove. */
  predicate DotLast(p: string) {
    var b := Basename(RStripSlashes(p));
    b == "." || b == ".."
  }

  /**
   * `shutil.rmtree(p)` on an existing directory whose last component is `.`
   * or `..`: every entry below it is removed, then the final `os.rmdir`
   * fails, so the directory itself stays.
   */
  function EmptiedIn(t: Tree, p: string): (r: Tree)
    ensures forall k :: k in r.files <==> k in t.files && !Under(k, Key(p))
    ensures forall k :: k in r.files ==> r.files[k] == t.files[k]
    ensures forall d :: d in r.dirs <==> d in t.dirs && !Under(d, Key(p))
  {
    Tree(map k | k in t.files && !Under(k, Key(p)) :: t.files[k],
         set d | d in t.dirs && !Under(d, Key(p)))
  }

  /** `shutil.rmtree(p)` applied to an existing directory. */
  function RemovedIn(t: Tree, p: string): (r: Tree)
    ensures forall k :: k in r.files <==> k in t.files && !InOrUnder(k, Key(p))
    ensures forall k :: k in r.files ==> r.files[k] == t.files[k]
    ensures forall d :: d in r.dirs <==> d in t.dirs && !InOrUnder(d, Key(p))
  {
    Tree(map k | k in t.files && !InOrUnder(k, Key(p)) :: t.files[k],
         set d | d in t.dirs && !InOrUnder(d, Key(p)))
  }

  /** The state `shutil.rmtree(p)` leaves, whether or not it raises. */
  function RemoveTreeIn(t: Tree, p: string): Tree {
    if !IsDirIn(t, p) then t
    else if DotLast(p) then EmptiedIn(t, p)
    else RemovedIn(t, p)
  }

  /**
   * What `shutil.rmtree(p)` leaves: nothing changes unless p is a directory.
   * Otherwise every entry below p is gone and every other entry keeps its
   * content. p itself stays exactly when its last component is `.` or `..`.
   */
  lemma RemoveTreeEffect(t: Tree, p: string)
    ensures !IsDirIn(t, p) ==> RemoveTreeIn(t, p) == t
    ensures IsDirIn(t, p) ==> forall k :: k in RemoveTreeIn(t, p).files <==>
      k in t.files && !Under(k, Key(p)) && (k != Key(p) || DotLast(p))
    ensures IsDirIn(t, p) ==> (Key(p) in RemoveTreeIn(t, p).dirs <==> DotLast(p))
    ensures forall k :: k in RemoveTreeIn(t, p).files ==> RemoveTreeIn(t, p).files[k] == t.files[k]
  {
  }

  /** A path `d/x`, with or without trailing slashes, ends in a dot entry exactly when x is `.` or `..`. */
  lemma DotLastChild(d: string, x: string, tail: string)
    requires x != "" && '/' !in x && AllSlashes(tail)
    ensures DotLast(d + "/" + x + tail) <==> x == "." || x == ".."
  {
    RStripSlashesOf(d + "/" + x, tail);
    BasenameAfterSlash(d, x);
  }

  /** A single-component path x, with or without trailing slashes, ends in a dot entry exactly when x is `.` or `..`. */
  lemma DotLastBare(x: string, tail: string)
    requires x != "" && '/' !in x && AllSlashes(tail)
    ensures DotLast(x + tail) <==> x == "." || x == ".."
  {
    RStripSlashesOf(x, tail);
    BasenameNoSlash(x);
  }

  // ---------------------------------------------------------------------
  // The mutable filesystem
  // ---------------------------------------------------------------------

  class FileSystem {
    var files: map<string, Content>
    var dirs: set<string>

    constructor(files0: map<string, Content>, dirs0: set<string>)
      ensures files == files0 && dirs == dirs0
    {
      files := files0;
      dirs := dirs0;
    }

    function State(): Tree
      reads this
    {
      Tree(files, dirs)
    }

    predicate IsFile(p: string)
      reads this
    {
      IsFileIn(State(), p)
    }

    predicate IsDir(p: string)
      reads this
    {
      IsDirIn(State(), p)
    }

    predicate Exists(p: string)
      reads this
    {
      ExistsIn(State(), p)
    }

    /** `os.makedirs(p)`: ok is false exactly when p already exists (Python raises OSError). */
    method MakeDirs(p: string) returns (ok: bool)
      modifies this
      ensures ok <==> !old(Exists(p))
      ensures State() == MakeDirsIn(old(State()), p)
    {
      ok := !Exists(p);
      if ok {
        dirs := dirs + {Key(p)};
      }
    }

    /** `/bin/mv src dst`. */
    method Move(src: string, dst: string)
      modifies this
      ensures State() == MoveIn(old(State()), src, dst)
    {
      var from, to := Key(src), Key(dst);
      if from in files {
        files := (files - {from})[to := files[from]];
      }
    }

    /**
     * `shutil.rmtree(p)`: ok is false when p is not a directory, which
     * changes nothing, and when its last component is `.` or `..`, which
     * empties it first. Python raises OSError in both cases.
     */
    method RemoveTree(p: string) returns (ok: bool)
      modifies this
      ensures ok <==> old(IsDir(p)) && !DotLast(p)
      ensures State() == RemoveTreeIn(old(State()), p)
    {
      ok := IsDir(p) && !DotLast(p);
      var t := RemoveTreeIn(State(), p);
      files, dirs := t.files, t.dirs;
    }
  }

  // ---------------------------------------------------------------------
  // A sequence of moves
  // ---------------------------------------------------------------------

  /** One rename, from key to key. */
  datatype Relocation = Relocation(from: string, to: string)

  /** The moves applied in order. */
  function Relocate(files: map<string, Content>, rs: seq<Relocation>): map<string, Content>
    decreases |rs|
  {
    if rs == [] then files
    else
      var last := rs[|rs| - 1];
      MoveKey(Relocate(files, rs[..|rs| - 1]), last.from, last.to)
  }

  function Sources(rs: seq<Relocation>): (ks: seq<string>)
    ensures |ks| == |rs| && forall i :: 0 <= i < |rs| ==> ks[i] == rs[i].from
  {
    if rs == [] then [] else Sources(rs[..|rs| - 1]) + [rs[|rs| - 1].from]
  }

  function Targets(rs: seq<Relocation>): (ks: seq<string>)
    ensures |ks| == |rs| && forall i :: 0 <= i < |rs| ==> ks[i] == rs[i].to
  {
    if rs == [] then [] else Targets(rs[..|rs| - 1]) + [rs[|rs| - 1].to]
  }

  /** Sources and targets are pairwise distinct, no key is both, and every source is present. */
  ghost predicate Independent(files: map<string, Content>, rs: seq<Relocation>) {
    && (forall i, j :: 0 <= i < j < |rs| ==> rs[i].from != rs[j].from)
    && (forall i, j :: 0 <= i < j < |rs| ==> rs[i].to != rs[j].to)
    && (forall i, j :: 0 <= i < |rs| && 0 <= j < |rs| ==> rs[i].from != rs[j].to)
    && (forall i :: 0 <= i < |rs| ==> rs[i].from in files)
  }

  /** r holds each source's content at its target, no source, and everything else as in files. */
  ghost predicate Delivered(files: map<string, Content>, rs: seq<Relocation>, r: map<string, Content>)
    requires forall i :: 0 <= i < |rs| ==> rs[i].from in files
  {
    && (forall i :: 0 <= i < |rs| ==> rs[i].to in r && r[rs[i].to] == files[rs[i].from])
    && (forall i :: 0 <= i < |rs| ==> rs[i].from !in r)
    && (forall k :: k !in Sources(rs) && k !in Targets(rs) ==>
         (k in r <==> k in files) && (k in files ==> r[k] == files[k]))
  }

  lemma IndependentPrefix(files: map<string, Content>, rs: seq<Relocation>)
    requires rs != [] && Independent(files, rs)
    ensures Independent(files, rs[..|rs| - 1])
  {
    var init := rs[..|rs| - 1];
    forall i | 0 <= i < |init| ensures init[i] == rs[i] { }
  }

  /** A key other than the moved pair keeps its content through a move. */
  lemma MoveKeyKeeps(files: map<string, Content>, from: string, to: string, k: string)
    requires k != from && k != to
    ensures (k in MoveKey(files, from, to) <==> k in files)
    ensures k in files ==> MoveKey(files, from, to)[k] == files[k]
  {
  }

  /** The moved content arrives at the target. */
  lemma MoveKeyArrives(files: map<string, Content>, from: string, to: string)
    requires from in files
    ensures to in MoveKey(files, from, to) && MoveKey(files, from, to)[to] == files[from]
  {
  }

  /** The source key is gone after a move to a different key. */
  lemma MoveKeyLeaves(files: map<string, Content>, from: string, to: string)
    requires from != to
    ensures from !in MoveKey(files, from, to)
  {
  }

  /** The source of the last of several independent moves is still where the earlier moves left it. */
  lemma LastSourcePresent(files: map<string, Content>, rs: seq<Relocation>, before: map<string, Content>)
    requires rs != [] && Independent(files, rs)
    requires Delivered(files, rs[..|rs| - 1], before)
    ensures rs[|rs| - 1].from in before && before[rs[|rs| - 1].from] == files[rs[|rs| - 1].from]
  {
    var init, last := rs[..|rs| - 1], rs[|rs| - 1];
    assert last.from !in Targets(init) && last.from !in Sources(init);
  }

  /** After one more independent move, every target holds its source's content. */
  lemma DeliveredTargetsStep(files: map<string, Content>, rs: seq<Relocation>, before: map<string, Content>)
    requires rs != [] && Independent(files, rs)
    requires Delivered(files, rs[..|rs| - 1], before)
    ensures var after := MoveKey(before, rs[|rs| - 1].from, rs[|rs| - 1].to);
      forall i :: 0 <= i < |rs| ==> rs[i].to in after && after[rs[i].to] == files[rs[i].from]
  {
    var n := |rs| - 1;
    var init, last := rs[..n], rs[n];
    var after := MoveKey(before, last.from, last.to);
    LastSourcePresent(files, rs, before);
    MoveKeyArrives(before, last.from, last.to);
    forall i | 0 <= i < n
      ensures rs[i].to in after && after[rs[i].to] == files[rs[i].from]
    {
      assert init[i] == rs[i];
      assert rs[i].to in before && before[rs[i].to] == files[rs[i].from];
      assert rs[i].to != last.to && rs[i].to != last.from;
      MoveKeyKeeps(before, last.from, last.to, rs[i].to);
    }
  }

  /** After one more independent move, no source is left. */
  lemma DeliveredSourcesStep(files: map<string, Content>, rs: seq<Relocation>, before: map<string, Content>)
    requires rs != [] && Independent(files, rs)
    requires Delivered(files, rs[..|rs| - 1], before)
    ensures forall i :: 0 <= i < |rs| ==> rs[i].from !in MoveKey(before, rs[|rs| - 1].from, rs[|rs| - 1].to)
  {
    var n := |rs| - 1;
    var init, last := rs[..n], rs[n];
    var after := MoveKey(before, last.from, last.to);
    LastSourcePresent(files, rs, before);
    assert last.from != last.to;
    MoveKeyLeaves(before, last.from, last.to);
    forall i | 0 <= i < n
      ensures rs[i].from !in after
    {
      assert init[i] == rs[i];
      assert rs[i].from !in before;
      assert rs[i].from != last.to && rs[i].from != last.from;
      MoveKeyKeeps(before, last.from, last.to, rs[i].from);
    }
  }

  /** After one more independent move, a key that is no source and no target is as it was. */
  lemma DeliveredOthersStep(files: map<string, Content>, rs: seq<Relocation>, before: map<string, Content>)
    requires rs != [] && Independent(files, rs)
    requires Delivered(files, rs[..|rs| - 1], before)
    ensures var after := MoveKey(before, rs[|rs| - 1].from, rs[|rs| - 1].to);
      forall k :: k !in Sources(rs) && k !in Targets(rs) ==>
        (k in after <==> k in files) && (k in files ==> after[k] == files[k])
  {
    var n := |rs| - 1;
    var init, last := rs[..n], rs[n];
    assert Sources(rs) == Sources(init) + [last.from];
    assert Targets(rs) == Targets(init) + [last.to];
    MoveKeyEffect(before, last.from, last.to);
  }

  /** One more independent move keeps the delivery property. */
  lemma DeliveredStep(files: map<string, Content>, rs: seq<Relocation>, before: map<string, Content>)
    requires rs != [] && Independent(files, rs)
    requires Delivered(files, rs[..|rs| - 1], before)
    ensures Delivered(files, rs, MoveKey(before, rs[|rs| - 1].from, rs[|rs| - 1].to))
  {
    DeliveredTargetsStep(files, rs, before);
    DeliveredSourcesStep(files, rs, before);
    DeliveredOthersStep(files, rs, before);
  }

  /**
   * Independent moves deliver every source's content to its target, leave
   * no source behind, and touch nothing else.
   */
  lemma {:induction false} RelocateIndependent(files: map<string, Content>, rs: seq<Relocation>)
    requires Independent(files, rs)
    ensures Delivered(files, rs, Relocate(files, rs))
    decreases |rs|
  {
    if rs != [] {
      IndependentPrefix(files, rs);
      RelocateIndependent(files, rs[..|rs| - 1]);
      DeliveredStep(files, rs, Relocate(files, rs[..|rs| - 1]));
    }
  }
}
