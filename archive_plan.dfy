/**
 * What the `process` loop does to the filesystem, as data: the list of
 * `archive` calls it makes (two per TIF, the TIF into the BNI tree and
 * its JPG into the LIB tree, both under the file's identifier), their
 * combined effect, and the conditions under which every file ends up
 * at its destination.
 */
module ArchivePlan {
  import opened PosixPath
  import opened FileTree
  import opened Naming
  import Decimal

  /** The parameters one run shares: the option paths, the batch directory and the first identifier. */
  datatype Batch = Batch(source: string, bni: string, lib: string, nextDir: string, first: nat)

  /** One `archive` call: the file it moves, where to, and the directory it makes first when missing. */
  datatype Transfer = Transfer(src: string, dst: string, dir: string)

  /** `archive(src, rel, root, id)`. */
  function ArchiveTransfer(root: string, nextDir: string, rel: string, id: nat, src: string): Transfer {
    Transfer(src, ArchivePath(root, nextDir, rel, id, src), ArchiveDir(root, nextDir, rel))
  }

  /** The effect of one `archive` call: make the directory if it does not exist, then move the file. */
  function Transferred(t: Tree, x: Transfer): Tree {
    MoveIn(MakeDirsIn(t, x.dir), x.src, x.dst)
  }

  /** The effect of several `archive` calls in order. */
  function TransferredAll(t: Tree, xs: seq<Transfer>): Tree
    decreases |xs|
  {
    if xs == [] then t else Transferred(TransferredAll(t, xs[..|xs| - 1]), xs[|xs| - 1])
  }

  /** The relative path the ledger records for f. */
  function Rel(b: Batch, f: string): string {
    RelativePath(f, b.source)
  }

  /** The first archive call of `process_worker` for f with identifier id: the TIF into `bni`. */
  function TifTransfer(b: Batch, f: string, id: nat): Transfer {
    ArchiveTransfer(b.bni, b.nextDir, Rel(b, f), id, f)
  }

  /** The second archive call of `process_worker` for f with identifier id: its JPG into `lib`. */
  function JpgTransfer(b: Batch, f: string, id: nat): Transfer
    requires '.' in f
  {
    ArchiveTransfer(b.lib, b.nextDir, Rel(b, f), id, MovedCompanion(f))
  }

  // The next three lemmas only steer the solver: they restate archive calls
  // whose arguments are equal, which keeps the proof of `ArchiveOne` small.

  /** Equal arguments give equal archive calls. */
  lemma ArchiveTransferCongruent(root: string, root': string, nextDir: string, nextDir': string,
                                 rel: string, rel': string, id: nat, id': nat, src: string)
    requires root == root' && nextDir == nextDir' && rel == rel' && id == id'
    ensures ArchiveTransfer(root, nextDir, rel, id, src) == ArchiveTransfer(root', nextDir', rel', id', src)
  {
  }

  /** The TIF's archive call, for a caller that holds the batch's parts separately. */
  lemma TifTransferIs(b: Batch, bni: string, nextDir: string, rel: string, id: nat, f: string)
    requires b.bni == bni && b.nextDir == nextDir && RelativePath(f, b.source) == rel
    ensures ArchiveTransfer(bni, nextDir, rel, id, f) == TifTransfer(b, f, id)
  {
    ArchiveTransferCongruent(bni, b.bni, nextDir, b.nextDir, rel, Rel(b, f), id, id, f);
  }

  /** The JPG's archive call, for a caller that holds the batch's parts separately. */
  lemma JpgTransferIs(b: Batch, lib: string, nextDir: string, rel: string, id: nat, f: string)
    requires '.' in f
    requires b.lib == lib && b.nextDir == nextDir && RelativePath(f, b.source) == rel
    ensures ArchiveTransfer(lib, nextDir, rel, id, MovedCompanion(f)) == JpgTransfer(b, f, id)
  {
    ArchiveTransferCongruent(lib, b.lib, nextDir, b.nextDir, rel, Rel(b, f), id, id, MovedCompanion(f));
  }

  /** The identifier the file at position i of the batch gets. */
  function IdAt(b: Batch, i: nat): nat {
    b.first + i
  }

  /** `process_worker(f, rel, id)` for the file at position i: its TIF, then its JPG. */
  function WorkerTransfers(b: Batch, f: string, id: nat): seq<Transfer>
    requires '.' in f
  {
    [TifTransfer(b, f, id), JpgTransfer(b, f, id)]
  }

  /** The calls for the file at position i, for a caller that holds its identifier. */
  lemma WorkerTransfersAt(b: Batch, f: string, i: nat, id: nat)
    requires '.' in f && id == b.first + i
    ensures WorkerTransfers(b, f, IdAt(b, i)) == [TifTransfer(b, f, id), JpgTransfer(b, f, id)]
  {
    assert IdAt(b, i) == id;
  }

  /** The archive calls for each file of the batch; file i gets identifier first + i. */
  function Works(b: Batch, tifs: seq<string>): (ws: seq<seq<Transfer>>)
    requires forall i :: 0 <= i < |tifs| ==> '.' in tifs[i]
    ensures |ws| == |tifs| && forall i :: 0 <= i < |tifs| ==> ws[i] == WorkerTransfers(b, tifs[i], IdAt(b, i))
  {
    seq(|tifs|, i requires 0 <= i < |tifs| && '.' in tifs[i] => WorkerTransfers(b, tifs[i], IdAt(b, i)))
  }

  function Flatten(ws: seq<seq<Transfer>>): seq<Transfer>
    decreases |ws|
  {
    if ws == [] then [] else Flatten(ws[..|ws| - 1]) + ws[|ws| - 1]
  }

  /** Every `archive` call of the `process` loop, in order. */
  function Plan(b: Batch, tifs: seq<string>): seq<Transfer>
    requires forall i :: 0 <= i < |tifs| ==> '.' in tifs[i]
  {
    Flatten(Works(b, tifs))
  }

  lemma PlanSnoc(b: Batch, tifs: seq<string>, i: nat)
    requires i < |tifs| && forall j :: 0 <= j < |tifs| ==> '.' in tifs[j]
    ensures Plan(b, tifs[..i + 1]) == Plan(b, tifs[..i]) + WorkerTransfers(b, tifs[i], IdAt(b, i))
  {
    var ws := Works(b, tifs[..i + 1]);
    assert ws[..i] == Works(b, tifs[..i]);
  }

  /** Flattening pairs: positions 2i and 2i + 1 hold the i-th pair. */
  lemma {:induction false} FlattenPairs(ws: seq<seq<Transfer>>)
    requires forall i :: 0 <= i < |ws| ==> |ws[i]| == 2
    ensures |Flatten(ws)| == 2 * |ws|
    ensures forall i :: 0 <= i < |ws| ==> Flatten(ws)[2 * i] == ws[i][0] && Flatten(ws)[2 * i + 1] == ws[i][1]
    decreases |ws|
  {
    if ws != [] {
      var n := |ws| - 1;
      FlattenPairs(ws[..n]);
      forall i | 0 <= i < n ensures ws[..n][i] == ws[i] { }
    }
  }

  /** Carrying out two more archive calls after a list of them. */
  lemma TransferredAllPair(t: Tree, xs: seq<Transfer>, x1: Transfer, x2: Transfer)
    ensures TransferredAll(t, xs + [x1, x2]) == Transferred(Transferred(TransferredAll(t, xs), x1), x2)
  {
    var ys := xs + [x1, x2];
    assert ys[..|ys| - 1] == xs + [x1];
    assert (xs + [x1])[..|xs|] == xs;
  }

  // ---------------------------------------------------------------------
  // Where each file of the batch goes
  // ---------------------------------------------------------------------

  /** The filesystem key of the i-th TIF and of its companion JPG. */
  function TifKey(tifs: seq<string>, i: nat): string
    requires i < |tifs|
  {
    Key(tifs[i])
  }

  function JpgKey(tifs: seq<string>, i: nat): string
    requires i < |tifs| && EndsWith(tifs[i], ".tif")
  {
    TifHasDot(tifs[i]);
    Key(MovedCompanion(tifs[i]))
  }

  /** The key `archive(src, rel, root, id)` moves its file to. */
  function TargetKey(root: string, nextDir: string, rel: string, id: nat, src: string): string {
    Key(ArchivePath(root, nextDir, rel, id, src))
  }

  /** The keys the i-th TIF and JPG are moved to. */
  function TifTarget(b: Batch, tifs: seq<string>, i: nat): string
    requires i < |tifs|
  {
    TargetKey(b.bni, b.nextDir, Rel(b, tifs[i]), IdAt(b, i), tifs[i])
  }

  function JpgTarget(b: Batch, tifs: seq<string>, i: nat): string
    requires i < |tifs| && EndsWith(tifs[i], ".tif")
  {
    TifHasDot(tifs[i]);
    TargetKey(b.lib, b.nextDir, Rel(b, tifs[i]), IdAt(b, i), MovedCompanion(tifs[i]))
  }

  /** Positions 2i and 2i + 1 of the plan are the two archive calls for file i. */
  lemma PlanAt(b: Batch, tifs: seq<string>)
    requires forall j :: 0 <= j < |tifs| ==> '.' in tifs[j]
    ensures |Plan(b, tifs)| == 2 * |tifs|
    ensures forall i :: 0 <= i < |tifs| ==>
      Plan(b, tifs)[2 * i] == WorkerTransfers(b, tifs[i], IdAt(b, i))[0] &&
      Plan(b, tifs)[2 * i + 1] == WorkerTransfers(b, tifs[i], IdAt(b, i))[1]
  {
    FlattenPairs(Works(b, tifs));
  }

  /** The key-to-key moves a list of archive calls makes. */
  function Relocations(xs: seq<Transfer>): (rs: seq<Relocation>)
    ensures |rs| == |xs|
    ensures forall i :: 0 <= i < |xs| ==> rs[i] == Relocation(Key(xs[i].src), Key(xs[i].dst))
    decreases |xs|
  {
    if xs == [] then []
    else Relocations(xs[..|xs| - 1]) + [Relocation(Key(xs[|xs| - 1].src), Key(xs[|xs| - 1].dst))]
  }

  /** Making directories does not touch files: the files after the archive calls are the files after the moves alone. */
  lemma {:induction false} TransferredFiles(t: Tree, xs: seq<Transfer>)
    ensures TransferredAll(t, xs).files == Relocate(t.files, Relocations(xs))
    decreases |xs|
  {
    if xs != [] {
      var init := xs[..|xs| - 1];
      TransferredFiles(t, init);
      assert Relocations(xs)[..|xs| - 1] == Relocations(init);
    }
  }

  /** The sources are told apart by their names: the TIF's ends in `f`, the JPG's in `g`. */
  lemma SourceNames(tifs: seq<string>, i: nat)
    requires i < |tifs| && EndsWith(tifs[i], ".tif")
    ensures LastChar(Basename(TifKey(tifs, i))) == 'f'
    ensures LastChar(Basename(JpgKey(tifs, i))) == 'g'
  {
    TifKeyName(tifs[i]);
    CompanionName(tifs[i]);
  }

  /** An archived key decodes to its identifier and to the name of the file it holds. */
  lemma TargetDecodes(root: string, nextDir: string, rel: string, id: nat, src: string)
    ensures ArchivedId(Basename(TargetKey(root, nextDir, rel, id, src))) == id
    ensures ArchivedOriginal(Basename(TargetKey(root, nextDir, rel, id, src))) == Basename(src)
  {
    ArchivePathNamesFile(root, nextDir, rel, id, src);
    ArchivedNameDecodes(id, src);
  }

  /** Every TIF's archived key, whatever its identifier, decodes to that identifier and to a name ending in `f`. */
  lemma TifTargetDecodes(root: string, nextDir: string, rel: string, tif: string, stem: string)
    requires Basename(tif) == stem + ".tif"
    ensures forall id: nat :: ArchivedId(Basename(TargetKey(root, nextDir, rel, id, tif))) == id
    ensures forall id: nat :: LastChar(ArchivedOriginal(Basename(TargetKey(root, nextDir, rel, id, tif)))) == 'f'
  {
    forall id: nat
      ensures ArchivedId(Basename(TargetKey(root, nextDir, rel, id, tif))) == id
      ensures LastChar(ArchivedOriginal(Basename(TargetKey(root, nextDir, rel, id, tif)))) == 'f'
    {
      TargetDecodes(root, nextDir, rel, id, tif);
      assert LastChar(stem + ".tif") == 'f';
    }
  }

  /** Every JPG's archived key, whatever its identifier, decodes to that identifier and to a name ending in `g`. */
  lemma JpgTargetDecodes(root: string, nextDir: string, rel: string, jpg: string, stem: string)
    requires Basename(jpg) == stem + ".jpg"
    ensures forall id: nat :: ArchivedId(Basename(TargetKey(root, nextDir, rel, id, jpg))) == id
    ensures forall id: nat :: LastChar(ArchivedOriginal(Basename(TargetKey(root, nextDir, rel, id, jpg)))) == 'g'
  {
    forall id: nat
      ensures ArchivedId(Basename(TargetKey(root, nextDir, rel, id, jpg))) == id
      ensures LastChar(ArchivedOriginal(Basename(TargetKey(root, nextDir, rel, id, jpg)))) == 'g'
    {
      TargetDecodes(root, nextDir, rel, id, jpg);
      assert LastChar(stem + ".jpg") == 'g';
    }
  }

  /** The TIF's target carries the file's identifier and the TIF's own name, which ends in `f`. */
  lemma TifTargetNames(b: Batch, tifs: seq<string>, i: nat)
    requires i < |tifs| && EndsWith(tifs[i], ".tif")
    ensures ArchivedId(Basename(TifTarget(b, tifs, i))) == b.first + i
    ensures LastChar(ArchivedOriginal(Basename(TifTarget(b, tifs, i)))) == 'f'
  {
    var f := tifs[i];
    TifBasename(f);
    TifTargetDecodes(b.bni, b.nextDir, Rel(b, f), f, TifStem(f));
  }

  /** The JPG's target carries the file's identifier and the JPG's name, which ends in `g`. */
  lemma JpgTargetNames(b: Batch, tifs: seq<string>, i: nat)
    requires i < |tifs| && EndsWith(tifs[i], ".tif")
    ensures ArchivedId(Basename(JpgTarget(b, tifs, i))) == b.first + i
    ensures LastChar(ArchivedOriginal(Basename(JpgTarget(b, tifs, i)))) == 'g'
  {
    var f := tifs[i];
    CompanionBasename(f);
    JpgTargetDecodes(b.lib, b.nextDir, Rel(b, f), MovedCompanion(f), TifStem(f));
  }

  /** The targets carry the file's identifier, and the TIF's ends in `f`, the JPG's in `g`. */
  lemma TargetNames(b: Batch, tifs: seq<string>, i: nat)
    requires i < |tifs| && EndsWith(tifs[i], ".tif")
    ensures ArchivedId(Basename(TifTarget(b, tifs, i))) == b.first + i
    ensures ArchivedId(Basename(JpgTarget(b, tifs, i))) == b.first + i
    ensures LastChar(ArchivedOriginal(Basename(TifTarget(b, tifs, i)))) == 'f'
    ensures LastChar(ArchivedOriginal(Basename(JpgTarget(b, tifs, i)))) == 'g'
  {
    TifTargetNames(b, tifs, i);
    JpgTargetNames(b, tifs, i);
  }

  /** The plan's key moves: position 2i moves the i-th TIF, position 2i + 1 its JPG. */
  lemma RelocationsAt(b: Batch, tifs: seq<string>)
    requires forall i :: 0 <= i < |tifs| ==> EndsWith(tifs[i], ".tif")
    ensures forall i :: 0 <= i < |tifs| ==> '.' in tifs[i]
    ensures |Relocations(Plan(b, tifs))| == 2 * |tifs|
    ensures forall i :: 0 <= i < |tifs| ==>
      Relocations(Plan(b, tifs))[2 * i] == Relocation(TifKey(tifs, i), TifTarget(b, tifs, i)) &&
      Relocations(Plan(b, tifs))[2 * i + 1] == Relocation(JpgKey(tifs, i), JpgTarget(b, tifs, i))
  {
    forall i | 0 <= i < |tifs| ensures '.' in tifs[i] { TifHasDot(tifs[i]); }
    PlanAt(b, tifs);
  }

  /** Position 2i of rs moves tk[i] to tt[i] and position 2i + 1 moves jk[i] to jt[i]. */
  ghost predicate PairedShape(rs: seq<Relocation>, tk: seq<string>, jk: seq<string>, tt: seq<string>, jt: seq<string>) {
    && |rs| == 2 * |tk| && |jk| == |tk| && |tt| == |tk| && |jt| == |tk|
    && (forall i :: 0 <= i < |tk| ==> rs[2 * i] == Relocation(tk[i], tt[i]) && rs[2 * i + 1] == Relocation(jk[i], jt[i]))
  }

  /** The names that tell the keys apart: sources by their last character, targets by identifier and last character. */
  ghost predicate PairedNames(first: nat, tk: seq<string>, jk: seq<string>, tt: seq<string>, jt: seq<string>)
    requires |jk| == |tk| && |tt| == |tk| && |jt| == |tk|
  {
    && (forall i :: 0 <= i < |tk| ==> LastChar(Basename(tk[i])) == 'f' && LastChar(Basename(jk[i])) == 'g')
    && (forall i :: 0 <= i < |tk| ==>
          && ArchivedId(Basename(tt[i])) == first + i && ArchivedId(Basename(jt[i])) == first + i
          && LastChar(ArchivedOriginal(Basename(tt[i]))) == 'f' && LastChar(ArchivedOriginal(Basename(jt[i]))) == 'g')
  }

  ghost predicate PairedPlan(rs: seq<Relocation>, first: nat, tk: seq<string>, jk: seq<string>, tt: seq<string>, jt: seq<string>) {
    PairedShape(rs, tk, jk, tt, jt) && PairedNames(first, tk, jk, tt, jt)
  }

  /** What SourcesReady asks, for the keys as sequences. */
  ghost predicate PairedReady(files: map<string, Content>, tk: seq<string>, jk: seq<string>, tt: seq<string>, jt: seq<string>)
    requires |jk| == |tk| && |tt| == |tk| && |jt| == |tk|
  {
    && (forall i :: 0 <= i < |tk| ==> tk[i] in files && jk[i] in files)
    && (forall i, j :: 0 <= i < j < |tk| ==> tk[i] != tk[j] && jk[i] != jk[j])
    && (forall i, j :: 0 <= i < |tk| && 0 <= j < |tk| ==>
          tk[i] != tt[j] && tk[i] != jt[j] && jk[i] != tt[j] && jk[i] != jt[j])
  }

  lemma PairedAt(rs: seq<Relocation>, tk: seq<string>, jk: seq<string>, tt: seq<string>, jt: seq<string>, p: nat)
    requires PairedShape(rs, tk, jk, tt, jt) && p < |rs|
    ensures p / 2 < |tk|
    ensures p % 2 == 0 ==> rs[p] == Relocation(tk[p / 2], tt[p / 2])
    ensures p % 2 == 1 ==> rs[p] == Relocation(jk[p / 2], jt[p / 2])
  {
    var i := p / 2;
    assert p == 2 * i || p == 2 * i + 1;
  }

  lemma PairedSourcesDistinct(files: map<string, Content>, rs: seq<Relocation>, first: nat,
                              tk: seq<string>, jk: seq<string>, tt: seq<string>, jt: seq<string>, p: nat, q: nat)
    requires PairedPlan(rs, first, tk, jk, tt, jt) && PairedReady(files, tk, jk, tt, jt)
    requires p < q < |rs|
    ensures rs[p].from != rs[q].from
  {
    PairedAt(rs, tk, jk, tt, jt, p);
    PairedAt(rs, tk, jk, tt, jt, q);
    var i, j := p / 2, q / 2;
    assert p % 2 == q % 2 ==> i < j;
    assert p % 2 == 0 && q % 2 == 0 ==> rs[p].from == tk[i] && rs[q].from == tk[j];
    assert p % 2 == 1 && q % 2 == 1 ==> rs[p].from == jk[i] && rs[q].from == jk[j];
    assert p % 2 == 0 && q % 2 == 1 ==> LastChar(Basename(rs[p].from)) == 'f' && LastChar(Basename(rs[q].from)) == 'g';
    assert p % 2 == 1 && q % 2 == 0 ==> LastChar(Basename(rs[p].from)) == 'g' && LastChar(Basename(rs[q].from)) == 'f';
  }

  /** The identifier and the last character of the original name that position p's target carries. */
  lemma PairedTargetName(rs: seq<Relocation>, first: nat,
                         tk: seq<string>, jk: seq<string>, tt: seq<string>, jt: seq<string>, p: nat)
    requires PairedPlan(rs, first, tk, jk, tt, jt) && p < |rs|
    ensures ArchivedId(Basename(rs[p].to)) == first + p / 2
    ensures LastChar(ArchivedOriginal(Basename(rs[p].to))) == if p % 2 == 0 then 'f' else 'g'
  {
    PairedAt(rs, tk, jk, tt, jt, p);
    if p % 2 == 0 {
      assert rs[p].to == tt[p / 2];
    } else {
      assert rs[p].to == jt[p / 2];
    }
  }

  /** Two archived names with different identifiers or different original last characters are different. */
  lemma DistinctByName(x: string, y: string)
    requires ArchivedId(Basename(x)) != ArchivedId(Basename(y)) ||
             LastChar(ArchivedOriginal(Basename(x))) != LastChar(ArchivedOriginal(Basename(y)))
    ensures x != y
  {
  }

  lemma PairedTargetsDistinct(rs: seq<Relocation>, first: nat,
                              tk: seq<string>, jk: seq<string>, tt: seq<string>, jt: seq<string>, p: nat, q: nat)
    requires PairedPlan(rs, first, tk, jk, tt, jt)
    requires p < q < |rs|
    ensures rs[p].to != rs[q].to
  {
    PairedTargetName(rs, first, tk, jk, tt, jt, p);
    PairedTargetName(rs, first, tk, jk, tt, jt, q);
    assert p / 2 == q / 2 ==> p % 2 != q % 2;
    DistinctByName(rs[p].to, rs[q].to);
  }

  /** No two relocations of a paired plan share a source or a target. */
  lemma PairedDistinct(files: map<string, Content>, rs: seq<Relocation>, first: nat,
                       tk: seq<string>, jk: seq<string>, tt: seq<string>, jt: seq<string>)
    requires PairedPlan(rs, first, tk, jk, tt, jt)
    requires PairedReady(files, tk, jk, tt, jt)
    ensures forall p, q :: 0 <= p < q < |rs| ==> rs[p].from != rs[q].from
    ensures forall p, q :: 0 <= p < q < |rs| ==> rs[p].to != rs[q].to
  {
    forall p, q | 0 <= p < q < |rs| ensures rs[p].from != rs[q].from && rs[p].to != rs[q].to {
      PairedSourcesDistinct(files, rs, first, tk, jk, tt, jt, p, q);
      PairedTargetsDistinct(rs, first, tk, jk, tt, jt, p, q);
    }
  }

  /** Every source of a paired plan is present and none is a target. */
  lemma PairedSourcesFree(files: map<string, Content>, rs: seq<Relocation>,
                          tk: seq<string>, jk: seq<string>, tt: seq<string>, jt: seq<string>)
    requires PairedShape(rs, tk, jk, tt, jt)
    requires PairedReady(files, tk, jk, tt, jt)
    ensures forall p, q :: 0 <= p < |rs| && 0 <= q < |rs| ==> rs[p].from != rs[q].to
    ensures forall p :: 0 <= p < |rs| ==> rs[p].from in files
  {
    forall p, q | 0 <= p < |rs| && 0 <= q < |rs| ensures rs[p].from != rs[q].to {
      PairedAt(rs, tk, jk, tt, jt, p);
      PairedAt(rs, tk, jk, tt, jt, q);
    }
    forall p | 0 <= p < |rs| ensures rs[p].from in files {
      PairedAt(rs, tk, jk, tt, jt, p);
    }
  }

  /** A paired plan over distinct, present sources that are not targets is independent. */
  lemma PairedIndependent(files: map<string, Content>, rs: seq<Relocation>, first: nat,
                          tk: seq<string>, jk: seq<string>, tt: seq<string>, jt: seq<string>)
    requires PairedPlan(rs, first, tk, jk, tt, jt)
    requires PairedReady(files, tk, jk, tt, jt)
    ensures Independent(files, rs)
  {
    PairedDistinct(files, rs, first, tk, jk, tt, jt);
    PairedSourcesFree(files, rs, tk, jk, tt, jt);
  }

  /** Each pair of a delivered paired plan arrives with its source's content, and its sources are gone. */
  lemma PairedArrived(files: map<string, Content>, rs: seq<Relocation>,
                      tk: seq<string>, jk: seq<string>, tt: seq<string>, jt: seq<string>, r: map<string, Content>)
    requires PairedShape(rs, tk, jk, tt, jt)
    requires forall p :: 0 <= p < |rs| ==> rs[p].from in files
    requires Delivered(files, rs, r)
    ensures forall i :: 0 <= i < |tk| ==> tk[i] in files && jk[i] in files
    ensures forall i :: 0 <= i < |tk| ==> tt[i] in r && r[tt[i]] == files[tk[i]] && jt[i] in r && r[jt[i]] == files[jk[i]]
    ensures forall i :: 0 <= i < |tk| ==> tk[i] !in r && jk[i] !in r
  {
    forall i | 0 <= i < |tk|
      ensures tk[i] in files && jk[i] in files
      ensures tt[i] in r && r[tt[i]] == files[tk[i]] && jt[i] in r && r[jt[i]] == files[jk[i]]
      ensures tk[i] !in r && jk[i] !in r
    {
      assert rs[2 * i] == Relocation(tk[i], tt[i]);
      assert rs[2 * i + 1] == Relocation(jk[i], jt[i]);
    }
  }

  /** A key no pair of a delivered paired plan mentions is as it was. */
  lemma PairedOthers(files: map<string, Content>, rs: seq<Relocation>,
                     tk: seq<string>, jk: seq<string>, tt: seq<string>, jt: seq<string>, r: map<string, Content>)
    requires PairedShape(rs, tk, jk, tt, jt)
    requires forall p :: 0 <= p < |rs| ==> rs[p].from in files
    requires Delivered(files, rs, r)
    ensures forall k :: (forall i :: 0 <= i < |tk| ==> k != tk[i] && k != jk[i] && k != tt[i] && k != jt[i]) ==>
      (k in r <==> k in files) && (k in files ==> r[k] == files[k])
  {
    forall k | forall i :: 0 <= i < |tk| ==> k != tk[i] && k != jk[i] && k != tt[i] && k != jt[i]
      ensures (k in r <==> k in files) && (k in files ==> r[k] == files[k])
    {
      forall p | 0 <= p < |rs| ensures Sources(rs)[p] != k && Targets(rs)[p] != k {
        PairedAt(rs, tk, jk, tt, jt, p);
      }
    }
  }

  /** Reading the delivery property of a paired plan per file. */
  lemma PairedDelivered(files: map<string, Content>, rs: seq<Relocation>,
                        tk: seq<string>, jk: seq<string>, tt: seq<string>, jt: seq<string>, r: map<string, Content>)
    requires PairedShape(rs, tk, jk, tt, jt)
    requires forall p :: 0 <= p < |rs| ==> rs[p].from in files
    requires Delivered(files, rs, r)
    ensures MovedPairs(files, r, tk, jk, tt, jt)
  {
    PairedArrived(files, rs, tk, jk, tt, jt, r);
    PairedOthers(files, rs, tk, jk, tt, jt, r);
  }

  /** The four key sequences of a batch. */
  function TifKeys(tifs: seq<string>): (ks: seq<string>)
    ensures |ks| == |tifs| && forall i :: 0 <= i < |tifs| ==> ks[i] == TifKey(tifs, i)
  {
    seq(|tifs|, i requires 0 <= i < |tifs| => TifKey(tifs, i))
  }

  function JpgKeys(tifs: seq<string>): (ks: seq<string>)
    requires forall i :: 0 <= i < |tifs| ==> EndsWith(tifs[i], ".tif")
    ensures |ks| == |tifs| && forall i :: 0 <= i < |tifs| ==> ks[i] == JpgKey(tifs, i)
  {
    seq(|tifs|, i requires 0 <= i < |tifs| && EndsWith(tifs[i], ".tif") => JpgKey(tifs, i))
  }

  function TifTargets(b: Batch, tifs: seq<string>): (ks: seq<string>)
    ensures |ks| == |tifs| && forall i :: 0 <= i < |tifs| ==> ks[i] == TifTarget(b, tifs, i)
  {
    seq(|tifs|, i requires 0 <= i < |tifs| => TifTarget(b, tifs, i))
  }

  function JpgTargets(b: Batch, tifs: seq<string>): (ks: seq<string>)
    requires forall i :: 0 <= i < |tifs| ==> EndsWith(tifs[i], ".tif")
    ensures |ks| == |tifs| && forall i :: 0 <= i < |tifs| ==> ks[i] == JpgTarget(b, tifs, i)
  {
    seq(|tifs|, i requires 0 <= i < |tifs| && EndsWith(tifs[i], ".tif") => JpgTarget(b, tifs, i))
  }

  /** The plan of a batch of TIFs is a paired plan. */
  lemma PlanIsPaired(b: Batch, tifs: seq<string>)
    requires forall i :: 0 <= i < |tifs| ==> EndsWith(tifs[i], ".tif")
    ensures forall i :: 0 <= i < |tifs| ==> '.' in tifs[i]
    ensures PairedPlan(Relocations(Plan(b, tifs)), b.first, TifKeys(tifs), JpgKeys(tifs), TifTargets(b, tifs), JpgTargets(b, tifs))
  {
    RelocationsAt(b, tifs);
    forall i | 0 <= i < |tifs|
      ensures LastChar(Basename(TifKey(tifs, i))) == 'f' && LastChar(Basename(JpgKey(tifs, i))) == 'g'
      ensures ArchivedId(Basename(TifTarget(b, tifs, i))) == b.first + i
      ensures ArchivedId(Basename(JpgTarget(b, tifs, i))) == b.first + i
      ensures LastChar(ArchivedOriginal(Basename(TifTarget(b, tifs, i)))) == 'f'
      ensures LastChar(ArchivedOriginal(Basename(JpgTarget(b, tifs, i)))) == 'g'
    {
      SourceNames(tifs, i);
      TargetNames(b, tifs, i);
    }
  }

  /**
   * r is files after moving each tk[i] to tt[i] and each jk[i] to jt[i]:
   * the targets hold the sources' contents, the sources are gone, and every
   * other key is as it was.
   */
  ghost predicate MovedPairs(files: map<string, Content>, r: map<string, Content>,
                             tk: seq<string>, jk: seq<string>, tt: seq<string>, jt: seq<string>) {
    && |jk| == |tk| && |tt| == |tk| && |jt| == |tk|
    && (forall i :: 0 <= i < |tk| ==> tk[i] in files && jk[i] in files)
    && (forall i :: 0 <= i < |tk| ==> tt[i] in r && r[tt[i]] == files[tk[i]] && jt[i] in r && r[jt[i]] == files[jk[i]])
    && (forall i :: 0 <= i < |tk| ==> tk[i] !in r && jk[i] !in r)
    && (forall k :: (forall i :: 0 <= i < |tk| ==> k != tk[i] && k != jk[i] && k != tt[i] && k != jt[i]) ==>
          (k in r <==> k in files) && (k in files ==> r[k] == files[k]))
  }

  /** A paired plan over present sources that are not targets, applied as moves, read per file. */
  lemma PairedRelocated(files: map<string, Content>, rs: seq<Relocation>, first: nat,
                        tk: seq<string>, jk: seq<string>, tt: seq<string>, jt: seq<string>)
    requires PairedPlan(rs, first, tk, jk, tt, jt)
    requires PairedReady(files, tk, jk, tt, jt)
    ensures MovedPairs(files, Relocate(files, rs), tk, jk, tt, jt)
  {
    PairedIndependent(files, rs, first, tk, jk, tt, jt);
    RelocateIndependent(files, rs);
    PairedDelivered(files, rs, tk, jk, tt, jt, Relocate(files, rs));
  }

  /** The files after a paired plan of transfers, read per file. */
  lemma PairedTransfers(t: Tree, xs: seq<Transfer>, first: nat,
                        tk: seq<string>, jk: seq<string>, tt: seq<string>, jt: seq<string>)
    requires PairedPlan(Relocations(xs), first, tk, jk, tt, jt)
    requires PairedReady(t.files, tk, jk, tt, jt)
    ensures MovedPairs(t.files, TransferredAll(t, xs).files, tk, jk, tt, jt)
  {
    TransferredFiles(t, xs);
    PairedRelocated(t.files, Relocations(xs), first, tk, jk, tt, jt);
  }

  /** The files after the plan of a batch, read per file. */
  lemma PlanDelivered(t: Tree, b: Batch, tifs: seq<string>)
    requires forall i :: 0 <= i < |tifs| ==> EndsWith(tifs[i], ".tif")
    requires PairedReady(t.files, TifKeys(tifs), JpgKeys(tifs), TifTargets(b, tifs), JpgTargets(b, tifs))
    ensures forall i :: 0 <= i < |tifs| ==> '.' in tifs[i]
    ensures MovedPairs(t.files, TransferredAll(t, Plan(b, tifs)).files, TifKeys(tifs), JpgKeys(tifs), TifTargets(b, tifs), JpgTargets(b, tifs))
  {
    PlanIsPaired(b, tifs);
    PairedTransfers(t, Plan(b, tifs), b.first, TifKeys(tifs), JpgKeys(tifs), TifTargets(b, tifs), JpgTargets(b, tifs));
  }

  /**
   * After the `process` loop every TIF is in the BNI tree and every JPG in
   * the LIB tree, each under its own identifier and with its content, and
   * neither is left at its old place.
   */
  lemma ProcessDelivers(t: Tree, b: Batch, tifs: seq<string>)
    requires forall i :: 0 <= i < |tifs| ==> EndsWith(tifs[i], ".tif")
    requires PairedReady(t.files, TifKeys(tifs), JpgKeys(tifs), TifTargets(b, tifs), JpgTargets(b, tifs))
    ensures forall i :: 0 <= i < |tifs| ==> '.' in tifs[i]
    ensures forall i :: 0 <= i < |tifs| ==>
      && TifTarget(b, tifs, i) in TransferredAll(t, Plan(b, tifs)).files
      && TransferredAll(t, Plan(b, tifs)).files[TifTarget(b, tifs, i)] == t.files[TifKey(tifs, i)]
      && JpgTarget(b, tifs, i) in TransferredAll(t, Plan(b, tifs)).files
      && TransferredAll(t, Plan(b, tifs)).files[JpgTarget(b, tifs, i)] == t.files[JpgKey(tifs, i)]
    ensures forall i :: 0 <= i < |tifs| ==>
      TifKey(tifs, i) !in TransferredAll(t, Plan(b, tifs)).files &&
      JpgKey(tifs, i) !in TransferredAll(t, Plan(b, tifs)).files
  {
    PlanDelivered(t, b, tifs);
    var r := TransferredAll(t, Plan(b, tifs)).files;
    forall i | 0 <= i < |tifs|
      ensures TifTarget(b, tifs, i) in r && r[TifTarget(b, tifs, i)] == t.files[TifKey(tifs, i)]
      ensures JpgTarget(b, tifs, i) in r && r[JpgTarget(b, tifs, i)] == t.files[JpgKey(tifs, i)]
      ensures TifKey(tifs, i) !in r && JpgKey(tifs, i) !in r
    {
      assert TifKeys(tifs)[i] == TifKey(tifs, i) && TifTargets(b, tifs)[i] == TifTarget(b, tifs, i);
      assert JpgKeys(tifs)[i] == JpgKey(tifs, i) && JpgTargets(b, tifs)[i] == JpgTarget(b, tifs, i);
    }
  }

  /** The `process` loop changes no file other than the ones it moves. */
  lemma ProcessLeavesOthers(t: Tree, b: Batch, tifs: seq<string>, k: string)
    requires forall i :: 0 <= i < |tifs| ==> EndsWith(tifs[i], ".tif")
    requires PairedReady(t.files, TifKeys(tifs), JpgKeys(tifs), TifTargets(b, tifs), JpgTargets(b, tifs))
    requires Untouched(b, tifs, k)
    ensures forall i :: 0 <= i < |tifs| ==> '.' in tifs[i]
    ensures k in TransferredAll(t, Plan(b, tifs)).files <==> k in t.files
    ensures k in t.files ==> TransferredAll(t, Plan(b, tifs)).files[k] == t.files[k]
  {
    PlanDelivered(t, b, tifs);
    var tk, jk, tt, jt := TifKeys(tifs), JpgKeys(tifs), TifTargets(b, tifs), JpgTargets(b, tifs);
    forall i | 0 <= i < |tk| ensures k != tk[i] && k != jk[i] && k != tt[i] && k != jt[i] {
      assert k != TifKey(tifs, i) && k != JpgKey(tifs, i) && k != TifTarget(b, tifs, i) && k != JpgTarget(b, tifs, i);
    }
    MovedPairsElsewhere(t.files, TransferredAll(t, Plan(b, tifs)).files, tk, jk, tt, jt, k);
  }

  lemma MovedPairsElsewhere(files: map<string, Content>, r: map<string, Content>,
                            tk: seq<string>, jk: seq<string>, tt: seq<string>, jt: seq<string>, k: string)
    requires MovedPairs(files, r, tk, jk, tt, jt)
    requires forall i :: 0 <= i < |tk| ==> k != tk[i] && k != jk[i] && k != tt[i] && k != jt[i]
    ensures k in r <==> k in files
    ensures k in files ==> r[k] == files[k]
  {
  }

  /** No key of the plan, as source or as target, is k. */
  ghost predicate Untouched(b: Batch, tifs: seq<string>, k: string)
    requires forall i :: 0 <= i < |tifs| ==> EndsWith(tifs[i], ".tif")
  {
    forall i :: 0 <= i < |tifs| ==>
      && k != TifKey(tifs, i) && k != JpgKey(tifs, i)
      && k != TifTarget(b, tifs, i) && k != JpgTarget(b, tifs, i)
  }
  // ---------------------------------------------------------------------
  // What the post-flight counts find
  // ---------------------------------------------------------------------

  /** A file with a plain relative path is archived below the batch directory `root/next`. */
  lemma TargetUnder(root: string, nextDir: string, rel: string, id: nat, src: string)
    requires PlainRel(rel) && !AllSlashes(root + "/" + nextDir)
    ensures Under(TargetKey(root, nextDir, rel, id, src), Key(root + "/" + nextDir))
  {
    var t, e, cs := ArchivePathParts(root, nextDir, rel, id, src);
    var d := root + "/" + nextDir;
    NormPathBelow(d, t, e, cs);
    JoinPlain(cs);
    UnderJoined(NormPath(d), Join(cs));
  }

  /** A name cannot end in both `.tif` and `.jpg`. */
  lemma ExtensionsDiffer(x: string)
    ensures EndsWith(x, ".tif") ==> !EndsWith(x, ".jpg")
    ensures EndsWith(x, ".jpg") ==> !EndsWith(x, ".tif")
  {
    if |x| >= 4 {
      assert ".tif"[3] != ".jpg"[3];
    }
  }

  /** An archived file keeps the extension of the file it was. */
  lemma TargetExtension(root: string, nextDir: string, rel: string, id: nat, src: string, stem: string, ext: string)
    requires Basename(src) == stem + ext
    ensures EndsWith(Basename(TargetKey(root, nextDir, rel, id, src)), ext)
  {
    ArchivePathNamesFile(root, nextDir, rel, id, src);
    NameEndsWith(Basename(TargetKey(root, nextDir, rel, id, src)), Decimal.Str(id), Basename(src), stem, ext);
  }

  lemma NameEndsWith(n: string, pre: string, b: string, stem: string, ext: string)
    requires n == pre + "__" + b && b == stem + ext
    ensures EndsWith(n, ext)
  {
    assert n == (pre + "__" + stem) + ext;
    EndsWithAppend(pre + "__" + stem, ext);
  }

  /** The TIF's target is a `*.tif` file and not a `*.jpg` file; the JPG's the other way round. */
  lemma TargetExtensions(b: Batch, tifs: seq<string>, i: nat)
    requires i < |tifs| && EndsWith(tifs[i], ".tif")
    ensures HasExtension(TifTarget(b, tifs, i), "tif") && !HasExtension(TifTarget(b, tifs, i), "jpg")
    ensures HasExtension(JpgTarget(b, tifs, i), "jpg") && !HasExtension(JpgTarget(b, tifs, i), "tif")
  {
    assert "." + "tif" == ".tif" && "." + "jpg" == ".jpg";
    var f := tifs[i];
    TifBasename(f);
    CompanionBasename(f);
    TargetExtension(b.bni, b.nextDir, Rel(b, f), IdAt(b, i), f, TifStem(f), ".tif");
    TargetExtension(b.lib, b.nextDir, Rel(b, f), IdAt(b, i), MovedCompanion(f), TifStem(f), ".jpg");
    ExtensionsDiffer(Basename(TifTarget(b, tifs, i)));
    ExtensionsDiffer(Basename(JpgTarget(b, tifs, i)));
  }

  /** After the moves, every file is a target or was there before. */
  lemma MovedPairsFrom(files: map<string, Content>, r: map<string, Content>,
                       tk: seq<string>, jk: seq<string>, tt: seq<string>, jt: seq<string>)
    requires MovedPairs(files, r, tk, jk, tt, jt)
    ensures forall k :: k in r && k !in tt && k !in jt ==> k in files
  {
    forall k | k in r && k !in tt && k !in jt ensures k in files {
      forall i | 0 <= i < |tk| ensures k != tk[i] && k != jk[i] && k != tt[i] && k != jt[i] {
        assert tt[i] in tt && jt[i] in jt;
      }
    }
  }

  /**
   * If no `*.ext` file was below dir, and the only new files are the targets
   * a, all `*.ext` files below dir, and the others, none of them `*.ext`,
   * then the `*.ext` files below dir are exactly a.
   */
  lemma MatchingAfter(files: map<string, Content>, r: map<string, Content>, dir: string, ext: string,
                      a: seq<string>, other: seq<string>)
    requires dir != "" && MatchingFiles(files, dir, ext) == {}
    requires forall k :: k in r && k !in a && k !in other ==> k in files
    requires forall i :: 0 <= i < |a| ==> a[i] in r && Under(a[i], Key(dir)) && HasExtension(a[i], ext)
    requires forall i :: 0 <= i < |other| ==> !HasExtension(other[i], ext)
    ensures MatchingFiles(r, dir, ext) == set x | x in a
  {
    forall k | k in MatchingFiles(r, dir, ext) && k !in a ensures k in MatchingFiles(files, dir, ext) {
    }
  }

  /** No key occurs twice in a. */
  predicate NoRepeats(a: seq<string>) {
    forall i, j :: 0 <= i < j < |a| ==> a[i] != a[j]
  }

  /** A sequence without repetitions has as many distinct elements as positions. */
  lemma {:induction false} DistinctCard(a: seq<string>)
    requires NoRepeats(a)
    ensures |set x | x in a| == |a|
    decreases |a|
  {
    if a != [] {
      var init := a[..|a| - 1];
      DistinctCard(init);
      assert (set x | x in a) == (set x | x in init) + {a[|a| - 1]};
      assert a[|a| - 1] !in init;
    }
  }

  /** Keys named by consecutive identifiers are all different. */
  lemma IdsNoRepeats(a: seq<string>, first: nat)
    requires forall i :: 0 <= i < |a| ==> ArchivedId(Basename(a[i])) == first + i
    ensures NoRepeats(a)
  {
    forall i, j | 0 <= i < j < |a| ensures a[i] != a[j] {
      DistinctByName(a[i], a[j]);
    }
  }

  /** The batch's targets carry distinct identifiers, so no two coincide. */
  lemma TargetsDistinct(b: Batch, tifs: seq<string>)
    requires forall i :: 0 <= i < |tifs| ==> EndsWith(tifs[i], ".tif")
    ensures NoRepeats(TifTargets(b, tifs)) && NoRepeats(JpgTargets(b, tifs))
  {
    var tt, jt := TifTargets(b, tifs), JpgTargets(b, tifs);
    forall i | 0 <= i < |tifs|
      ensures ArchivedId(Basename(tt[i])) == b.first + i && ArchivedId(Basename(jt[i])) == b.first + i
    {
      TifTargetNames(b, tifs, i);
      JpgTargetNames(b, tifs, i);
    }
    IdsNoRepeats(tt, b.first);
    IdsNoRepeats(jt, b.first);
  }

  /**
   * The counts `process` checks after the loop: when no `*.tif` file was
   * below `bni/next` and no `*.jpg` file below `lib/next`, and every
   * relative path is a slash and plain names, the loop leaves exactly one
   * `*.tif` below `bni/next` and one `*.jpg` below `lib/next` per TIF.
   */
  lemma CountsMatch(t: Tree, b: Batch, tifs: seq<string>)
    requires forall i :: 0 <= i < |tifs| ==> EndsWith(tifs[i], ".tif") && PlainRel(Rel(b, tifs[i]))
    requires PairedReady(t.files, TifKeys(tifs), JpgKeys(tifs), TifTargets(b, tifs), JpgTargets(b, tifs))
    requires !AllSlashes(b.bni + "/" + b.nextDir) && !AllSlashes(b.lib + "/" + b.nextDir)
    requires MatchingFiles(t.files, b.bni + "/" + b.nextDir, "tif") == {}
    requires MatchingFiles(t.files, b.lib + "/" + b.nextDir, "jpg") == {}
    ensures forall i :: 0 <= i < |tifs| ==> '.' in tifs[i]
    ensures |MatchingFiles(TransferredAll(t, Plan(b, tifs)).files, b.bni + "/" + b.nextDir, "tif")| == |tifs|
    ensures |MatchingFiles(TransferredAll(t, Plan(b, tifs)).files, b.lib + "/" + b.nextDir, "jpg")| == |tifs|
  {
    PlanDelivered(t, b, tifs);
    var r := TransferredAll(t, Plan(b, tifs)).files;
    var tk, jk, tt, jt := TifKeys(tifs), JpgKeys(tifs), TifTargets(b, tifs), JpgTargets(b, tifs);
    MovedPairsFrom(t.files, r, tk, jk, tt, jt);
    forall i | 0 <= i < |tifs|
      ensures Under(tt[i], Key(b.bni + "/" + b.nextDir)) && Under(jt[i], Key(b.lib + "/" + b.nextDir))
      ensures HasExtension(tt[i], "tif") && !HasExtension(tt[i], "jpg")
      ensures HasExtension(jt[i], "jpg") && !HasExtension(jt[i], "tif")
    {
      var f := tifs[i];
      CompanionBasename(f);
      TargetUnder(b.bni, b.nextDir, Rel(b, f), IdAt(b, i), f);
      TargetUnder(b.lib, b.nextDir, Rel(b, f), IdAt(b, i), MovedCompanion(f));
      TargetExtensions(b, tifs, i);
    }
    MatchingAfter(t.files, r, b.bni + "/" + b.nextDir, "tif", tt, jt);
    MatchingAfter(t.files, r, b.lib + "/" + b.nextDir, "jpg", jt, tt);
    TargetsDistinct(b, tifs);
    DistinctCard(tt);
    DistinctCard(jt);
  }
}
