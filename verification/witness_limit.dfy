/** A run of creations that ends with one node more than a snapshot holds, and what a reboot loses then:
    64 directories in the root, then files, 256 to a directory. */
module WitnessLimit {
  import opened Bytes
  import opened BlockStore
  import opened BlockFile
  import opened FileState
  import opened Places
  import opened Shapes
  import opened VfsTree
  import opened TreeImage
  import opened Witness
  import F = SnapshotFormat
  import M = Remount
  import A = Path
  import P = Preorder
  import Runs
  import S = Persist
  import V = Vfs

  const DIRS: nat := 64
  const LAST: nat := 16448     // 64 directories of 256 files

  /** The directory, name and type of node `id`. */
  function Up(id: nat): nat {
    if id <= DIRS then ROOT else 1 + (id - DIRS - 1) / VFS_MAX_CHILDREN
  }

  function NameOf(id: nat): Text {
    var k := if id <= DIRS then id else (id - DIRS - 1) % VFS_MAX_CHILDREN;
    [97 + k / 16, 97 + k % 16]
  }

  function KindOf(id: nat): u32 {
    if id <= DIRS then VFS_DIRECTORY else VFS_FILE
  }

  /** How many of the nodes up to `k` are in directory `id`. */
  function Kids(k: nat, id: nat): nat {
    if id == ROOT then Min(k, DIRS)
    else if id > DIRS || k <= DIRS + VFS_MAX_CHILDREN * (id - 1) then 0
    else Min(VFS_MAX_CHILDREN, k - DIRS - VFS_MAX_CHILDREN * (id - 1))
  }

  function Making(id: nat): Op {
    CreateOp(Up(id), NameOf(id), KindOf(id))
  }

  /** The state after `k` creations on a fresh system. */
  ghost function Build(n: Blocks, k: nat): Fs {
    if k == 0 then S0(n) else Add(Build(n, k - 1), k)
  }

  ghost function Add(fs: Fs, k: nat): Fs {
    if Up(k) !in fs.nodes then fs else
    var up := fs.nodes[Up(k)];
    Fs(fs.nodes[Up(k) := up.(children := up.children + [fs.next])]
               [fs.next := FreshNode(Some(Up(k)), NameOf(k), KindOf(k))],
       fs.next + 1, fs.store)
  }

  ghost predicate Placed(fs: Fs, id: nat)
    requires id in fs.nodes
  {
    var node := fs.nodes[id];
    && node.kind == KindOf(id) && node.data.None?
    && (id != ROOT ==> node.parent == Some(Up(id)) && node.name == NameOf(id))
  }

  ghost predicate Shape(fs: Fs, k: nat) {
    && fs.next == k + 1 && |fs.nodes| == k + 1
    && (forall id :: id in fs.nodes <==> 0 <= id <= k)
    && (forall id :: id in fs.nodes ==> Placed(fs, id))
    && (forall id :: id in fs.nodes ==> |fs.nodes[id].children| == Kids(k, id))
  }

  ghost predicate Grown(fs: Fs, k: nat) {
    Runs.Good(fs) && Shape(fs, k)
  }

  lemma Numbers(k: nat, id: nat)
    requires k > 0
    ensures Kids(k, id) == Kids(k - 1, id) + (if Up(k) == id then 1 else 0) || k > LAST
    ensures Up(k) < k && (Up(k) <= DIRS || k > LAST)
  {
  }

  lemma Distinct(i: nat, j: nat)
    requires 0 < i < j && Up(i) == Up(j) && j <= LAST
    ensures NameOf(i) != NameOf(j)
  {
    var a := if i <= DIRS then i else (i - DIRS - 1) % VFS_MAX_CHILDREN;
    var b := if j <= DIRS then j else (j - DIRS - 1) % VFS_MAX_CHILDREN;
    assert a != b;
    assert a == 16 * (a / 16) + a % 16 && b == 16 * (b / 16) + b % 16;
  }

  lemma PlainName(id: nat)
    requires id <= LAST
    ensures A.Plain(NameOf(id)) && StoredName(NameOf(id)) == NameOf(id) && NameOf(id) != [A.SLASH]
  {
  }

  /** A node that may be created next. */
  ghost predicate Next(fs: Fs, k: nat) {
    0 < k <= LAST && Grown(fs, k - 1)
  }

  lemma NotThere(fs: Fs, k: nat)
    requires Next(fs, k)
    ensures Up(k) in fs.nodes && FindDir(fs.nodes, Up(k), NameOf(k)).None?
  {
    Numbers(k, Up(k));
    var r := FindDir(fs.nodes, Up(k), NameOf(k));
    if r.Some? {
      assert LinkOk(fs.nodes, Up(k));
      assert Placed(fs, r.value);
      Distinct(r.value, k);
    }
  }

  lemma TopName(fs: Fs, id: nat)
    requires Rooted(fs.nodes) && id in fs.nodes && id <= DIRS && Placed(fs, id)
    ensures Comps(fs.nodes, id) == if id == ROOT then [] else [NameOf(id)]
  {
    if id != ROOT {
      assert UpOk(fs.nodes, id);
      assert Comps(fs.nodes, ROOT) == [];
      assert [] + [NameOf(id)] == [NameOf(id)];
    }
  }

  lemma ShortPaths(x: Text, y: Text)
    requires |x| == |y| == 2
    ensures Nameable([y]) && Nameable([x, y])
  {
    ShortPath(y);
    assert [x, y][..1] == [x] && [x][..0] == [];
    assert A.Joined([x]) == [] + [A.SLASH] + x;
    assert A.Joined([x, y]) == A.Joined([x]) + [A.SLASH] + y;
  }

  lemma ShortPlace(fs: Fs, k: nat)
    requires Next(fs, k) && Up(k) in fs.nodes
    ensures Nameable(Comps(fs.nodes, Up(k)) + [NameOf(k)])
  {
    Numbers(k, Up(k));
    assert Placed(fs, Up(k));
    TopName(fs, Up(k));
    ShortPaths(NameOf(Up(k)), NameOf(k));
    assert [] + [NameOf(k)] == [NameOf(k)];
    assert [NameOf(Up(k))] + [NameOf(k)] == [NameOf(Up(k)), NameOf(k)];
  }

  /** Another creation is possible, and safe. */
  lemma MayAdd(fs: Fs, k: nat)
    requires Next(fs, k)
    ensures Up(k) in fs.nodes && Checked(fs, Up(k), NameOf(k)) && Storable(fs, Up(k), NameOf(k))
    ensures |fs.nodes[Up(k)].children| < VFS_MAX_CHILDREN
  {
    Numbers(k, Up(k));
    PlainName(k);
    NotThere(fs, k);
    ShortPlace(fs, k);
    assert Placed(fs, Up(k));
  }

  lemma Added(fs: Fs, k: nat, fs': Fs)
    requires Next(fs, k) && fs' == Add(fs, k)
    ensures V.VStep(fs, Making(k), fs') && Grown(fs', k)
  {
    AddedStep(fs, k, fs');
    AddedShape(fs, k, fs');
  }

  lemma AddedStep(fs: Fs, k: nat, fs': Fs)
    requires Next(fs, k) && fs' == Add(fs, k)
    ensures V.VStep(fs, Making(k), fs') && Runs.Good(fs')
  {
    MayAdd(fs, k);
    CheckedStep(fs, Up(k), NameOf(k), KindOf(k), fs');
    VGood(fs, Making(k), fs');
  }

  lemma CheckedStep(fs: Fs, up: nat, name: Text, kind: u32, fs': Fs)
    requires Rooted(fs.nodes) && Checked(fs, up, name) && Storable(fs, up, name) && Create(fs, fs', up, name, kind)
    ensures V.VStep(fs, CreateOp(up, name, kind), fs') && V.Safe(fs, CreateOp(up, name, kind))
  {
  }

  lemma AddedShape(fs: Fs, k: nat, fs': Fs)
    requires 0 < k <= LAST && Shape(fs, k - 1) && fs' == Add(fs, k)
    ensures Shape(fs', k)
  {
    AddedNodes(fs, k, fs');
    forall id | id in fs'.nodes ensures Placed(fs', id) && |fs'.nodes[id].children| == Kids(k, id) {
      AddedPlace(fs, k, fs', id);
    }
  }

  lemma AddedNodes(fs: Fs, k: nat, fs': Fs)
    requires 0 < k <= LAST && Shape(fs, k - 1) && fs' == Add(fs, k)
    ensures fs.next == k && Up(k) in fs.nodes && fs'.next == k + 1 && |fs'.nodes| == k + 1
    ensures forall id :: id in fs'.nodes <==> 0 <= id <= k
  {
    Numbers(k, Up(k));
    assert fs.next == k && k !in fs.nodes;
    assert fs'.nodes.Keys == fs.nodes.Keys + {k};
  }

  lemma AddedPlace(fs: Fs, k: nat, fs': Fs, id: nat)
    requires 0 < k <= LAST && fs' == Add(fs, k) && fs.next == k && Up(k) in fs.nodes && id in fs'.nodes
    requires id == k ==> k !in fs.nodes
    requires id != k ==> id in fs.nodes && Placed(fs, id) && |fs.nodes[id].children| == Kids(k - 1, id)
    ensures Placed(fs', id) && |fs'.nodes[id].children| == Kids(k, id)
  {
    PlainName(k);
    Numbers(k, id);
  }

  /** Creation number `k` is one step. */
  ghost predicate Makes(n: Blocks, k: nat)
    requires k > 0
  {
    V.VStep(Build(n, k - 1), Making(k), Build(n, k))
  }

  /** The tree after `k` creations, and the last of them was one step. */
  ghost predicate Done(n: Blocks, k: nat) {
    Grown(Build(n, k), k) && (k > 0 ==> Makes(n, k))
  }

  lemma FirstDone(n: Blocks)
    ensures Done(n, 0)
  {
    FreshGood(n);
  }

  lemma MakesNext(n: Blocks, k: nat)
    requires 0 < k <= LAST && Done(n, k - 1)
    ensures Done(n, k)
  {
    Added(Build(n, k - 1), k, Build(n, k));
  }

  lemma {:induction false} Built(n: Blocks, k: nat)
    requires k <= LAST
    ensures Done(n, k)
  {
    if k == 0 {
      FirstDone(n);
    } else {
      Built(n, k - 1);
      MakesNext(n, k);
    }
  }

  // ---- what is lost ----

  /** Below what is not found, nothing is found. */
  lemma LostBelow(fs: Fs, b: Fs, id: nat, c: nat)
    requires TreeInv(fs) && TreeInv(b) && id in fs.nodes && c in fs.nodes && c != ROOT && fs.nodes[c].parent == Some(id)
    requires M.PlaceOf(fs, b, id).None?
    ensures M.PlaceOf(fs, b, c).None?
  {
    var cs := Comps(fs.nodes, id);
    assert UpOk(fs.nodes, c);
    assert (cs + [fs.nodes[c].name])[..|cs|] == cs;
  }

  /** 16385 nodes, all made by `vfs_mkdir` and `vfs_create` on a fresh system: after a sync and a reboot
      over any bitmap, some file is gone. */
  lemma FileLost(n: Blocks, disk: Store) returns (b: Fs, id: nat)
    requires disk.Valid()
    ensures Fresh(Build(n, 0)) && forall k :: 0 < k <= F.MAX_NODES ==> Makes(n, k)
    ensures var a := Build(n, F.MAX_NODES);
      && Grown(a, F.MAX_NODES) && S.HeapBound(a.nodes) && |a.nodes| == F.MAX_NODES + 1
      && M.Rebooted(a, b) && b.store == disk && TreeInv(b)
      && id in a.nodes && a.nodes[id].kind == VFS_FILE && M.PlaceOf(a, b, id).None?
  {
    var a := Build(n, F.MAX_NODES);
    Built(n, F.MAX_NODES);
    FreshGood(n);
    forall k | 0 < k <= F.MAX_NODES ensures Makes(n, k) {
      Built(n, k);
    }
    Empty(a);
    TreeShaped(a);
    b := Runs.CanBoot(a, disk);
    id := LostFrom(a, b);
  }

  lemma LostFrom(a: Fs, b: Fs) returns (id: nat)
    requires Grown(a, F.MAX_NODES) && M.Rebooted(a, b)
    ensures S.HeapBound(a.nodes) && TreeInv(b) && id in a.nodes && a.nodes[id].kind == VFS_FILE
    ensures M.PlaceOf(a, b, id).None?
  {
    Empty(a);
    id := Lost(a, b);
    if a.nodes[id].kind != VFS_FILE {
      var c := FileBelow(a, id);
      LostBelow(a, b, id, c);
      id := c;
    }
  }

  lemma Empty(a: Fs)
    requires Shape(a, F.MAX_NODES)
    ensures S.HeapBound(a.nodes)
  {
    assert forall x :: x in a.nodes ==> Placed(a, x);
  }

  lemma Lost(a: Fs, b: Fs) returns (id: nat)
    requires Runs.Good(a) && S.HeapBound(a.nodes) && M.Rebooted(a, b) && |a.nodes| > F.MAX_NODES
    ensures TreeInv(b) && id in a.nodes && M.PlaceOf(a, b, id).None? && id != ROOT
  {
    M.AllKeptIff(a, b);
    id :| id in a.nodes && M.PlaceOf(a, b, id).None?;
    assert Comps(a.nodes, ROOT) == [];
  }

  lemma FileBelow(a: Fs, id: nat) returns (c: nat)
    requires Shape(a, F.MAX_NODES) && id in a.nodes && id != ROOT && a.nodes[id].kind != VFS_FILE
    ensures c in a.nodes && c != ROOT && a.nodes[c].parent == Some(id) && a.nodes[c].kind == VFS_FILE
  {
    assert Placed(a, id);
    c := DIRS + 1 + VFS_MAX_CHILDREN * (id - 1);
    assert Placed(a, c);
  }

  // ---- the block of a lost file ----

  /** What a path depends on: names, types and places. */
  ghost function Bare(f: Forest): Forest {
    match f
    case Empty => F.Empty
    case Grove(m, kids, next) =>
      F.Grove(F.Meta(m.kind, 0, 0, 0, 0, m.name, F.Inline([])), Bare(kids), Bare(next))
  }

  lemma {:induction false} BareSize(f: Forest)
    ensures P.Size(Bare(f)) == P.Size(f)
  {
    if f.Grove? {
      BareSize(f.kids);
      BareSize(f.next);
    }
  }

  /** Two hits at one place. */
  ghost predicate OnePlace(h: Option<Hit>, k: Option<Hit>) {
    && (h.Some? <==> k.Some?)
    && (h.Some? ==>
          && h.value.rank == k.value.rank && h.value.meta.kind == k.value.meta.kind
          && Bare(h.value.kids) == k.value.kids)
  }

  lemma {:induction false} BareEntry(f: Forest, name: Text)
    ensures OnePlace(Entry(f, name), Entry(Bare(f), name))
  {
    if f.Grove? {
      BareSize(f.kids);
      BareEntry(f.next, name);
    }
  }

  lemma {:induction false} BareSeek(f: Forest, cs: seq<Text>)
    requires f.Grove?
    ensures OnePlace(Seek(f, cs), Seek(Bare(f), cs))
    decreases |cs|
  {
    if cs != [] {
      BareSeek(f, cs[..|cs| - 1]);
      var up := Seek(f, cs[..|cs| - 1]);
      if up.Some? { BareEntry(up.value.kids, cs[|cs| - 1]); }
    }
  }

  lemma {:induction false} SameBare(a: Fs, b: Fs, lo: int, ids: seq<nat>)
    requires SameShape(a.nodes, b.nodes) && b.next == a.next
    ensures Bare(S.ForestOf(b, lo, ids)) == Bare(S.ForestOf(a, lo, ids))
    decreases a.next - lo, |ids|
  {
    if ids != [] && ids[0] in a.nodes && lo < ids[0] < a.next {
      SameBare(a, b, ids[0], a.nodes[ids[0]].children);
      SameBare(a, b, lo, ids[1..]);
    }
  }

  /** Contents do not change what is lost. */
  lemma StillLost(a: Fs, b: Fs, a': Fs, b': Fs, id: nat)
    requires Runs.Good(a) && S.HeapBound(a.nodes) && M.Rebooted(a, b) && TreeInv(b)
    requires Runs.Good(a') && S.HeapBound(a'.nodes) && M.Rebooted(a', b') && TreeInv(b')
    requires SameShape(a.nodes, a'.nodes) && a'.next == a.next
    requires id in a.nodes && M.PlaceOf(a, b, id).None?
    ensures M.PlaceOf(a', b', id).None?
  {
    var cs := Comps(a.nodes, id);
    TreeShaped(a);
    TreeShaped(a');
    WalkComps(a, id);
    M.KeptPaths(a, b, cs);
    M.KeptPaths(a', b', cs);
    SameBare(a, a', -1, [ROOT]);
    BareSeek(S.Tree(a), cs);
    BareSeek(S.Tree(a'), cs);
    CompsFrame(a.nodes, a'.nodes, id);
  }

  /** With the bitmap of the sync, a block that only a lost node lists is owned by nobody. */
  lemma BlockLeaks(a: Fs, b: Fs, id: nat, x: u32)
    requires Runs.Good(a) && S.HeapBound(a.nodes) && M.Rebooted(a, b) && TreeInv(b) && b.store.used == a.store.used
    requires id in a.nodes && M.PlaceOf(a, b, id).None? && x in BlockList(a.nodes[id])
    ensures x < |b.store.used| && b.store.used[x] && !Owned(b.nodes, x) && !OwnershipInv(b)
  {
    assert NodeOk(a.nodes[id], a.store.used);
    if Owned(b.nodes, x) {
      var jd :| jd in b.nodes && x in BlockList(b.nodes[jd]);
      OwnerFound(a, b, id, x, jd);
    }
  }

  lemma OwnerFound(a: Fs, b: Fs, id: nat, x: u32, jd: nat)
    requires Runs.Good(a) && S.HeapBound(a.nodes) && M.Rebooted(a, b) && TreeInv(b)
    requires id in a.nodes && x in BlockList(a.nodes[id]) && jd in b.nodes && x in BlockList(b.nodes[jd])
    ensures M.PlaceOf(a, b, id).Some?
  {
    var f, t := S.Tree(a), P.Take(S.Tree(a), F.MAX_NODES);
    TreeShaped(a);
    M.RebuiltWhole(a, b, f, t);
    var kd, _, _, _, _ := M.TwinOf(a, b, f, NormalForest(t), F.MAX_NODES, jd);
    M.TwinBlocks(a.nodes[kd], b.nodes[jd]);
    assert kd != id ==> Apart(a.nodes[kd], a.nodes[id]);
    WalkComps(b, jd);
  }

  ghost function Promoted(a: Fs, id: nat): Fs
    requires id in a.nodes
  {
    a.(nodes := a.nodes[id := a.nodes[id].(diskBacked := true)])
  }

  ghost function Written(n: Blocks, a: Fs, id: nat): Fs
    requires id in a.nodes
  {
    Fs(a.nodes[id := OneByte(a.nodes[id])], a.next, OneBlock(n, true, Starting(7)))
  }

  lemma ByteWritten(n: Blocks, a: Fs, id: nat)
    requires Runs.Good(a) && a.store == OneBlock(n, false, ZERO_BLOCK) && id in a.nodes && Plain(a.nodes[id])
    ensures var a1, a2 := Promoted(a, id), Written(n, a, id);
      && V.VStep(a, PromoteOp(id), a1) && V.VStep(a1, DiskWriteOp(id, 0, [7], true), a2) && Runs.Good(a2)
  {
    var a1, a2 := Promoted(a, id), Written(n, a, id);
    VGood(a, PromoteOp(id), a1);
    FirstWrite(n, a1, id, 7, ZERO_BLOCK);
    assert a2.nodes == a1.nodes[id := OneByte(a1.nodes[id])];
    VGood(a1, DiskWriteOp(id, 0, [7], true), a2);
  }

  lemma ShapeWritten(n: Blocks, a: Fs, id: nat)
    requires S.HeapBound(a.nodes) && id in a.nodes && Plain(a.nodes[id])
    ensures var a2 := Written(n, a, id);
      && SameShape(a.nodes, a2.nodes) && a2.next == a.next && S.HeapBound(a2.nodes) && 0 in BlockList(a2.nodes[id])
  {
  }

  /** A node that nothing was written to. */
  predicate Plain(n: Node) {
    n.blocks.None? && n.data.None? && n.size == 0 && !n.diskBacked
  }

  lemma {:induction false} AllPlain(n: Blocks, k: nat)
    ensures Build(n, k).store == OneBlock(n, false, ZERO_BLOCK)
    ensures forall id :: id in Build(n, k).nodes ==> Plain(Build(n, k).nodes[id])
  {
    if k > 0 { AllPlain(n, k - 1); }
  }

  /** One byte in the file that gets lost: after a flushed sync and a boot over the same bitmap its block is
      taken, and belongs to nobody. */
  lemma BlockLost(n: Blocks) returns (b: Fs, id: nat)
    ensures var a := Build(n, F.MAX_NODES);
      && id in a.nodes && a.nodes[id].kind == VFS_FILE
      && V.VStep(a, PromoteOp(id), Promoted(a, id))
      && V.VStep(Promoted(a, id), DiskWriteOp(id, 0, [7], true), Written(n, a, id))
      && M.Rebooted(Written(n, a, id), b) && b.store == Written(n, a, id).store
      && 0 < |b.store.used| && b.store.used[0] && !Owned(b.nodes, 0) && !OwnershipInv(b)
  {
    var a, b0 := Build(n, F.MAX_NODES), S0(n);
    FreshGood(n);
    b0, id := FileLost(n, S0(n).store);
    AllPlain(n, F.MAX_NODES);
    ByteWritten(n, a, id);
    ShapeWritten(n, a, id);
    var a2 := Written(n, a, id);
    TreeShaped(a2);
    b := Runs.CanBoot(a2, a2.store);
    M.RebootKeeps(a2, b);
    StillLost(a, b0, a2, b, id);
    BlockLeaks(a2, b, id, 0);
  }
}
