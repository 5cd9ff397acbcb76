/** What a sync, a power cycle, `blockfs_init` and `diskfs_load` leave: when the rebuilt node heap has all
    invariants of a running file system again, and when nothing is lost. */
module Remount {
  import opened Bytes
  import opened Bitmap
  import opened BlockStore
  import opened BlockFile
  import opened FileState
  import opened Places
  import opened Shapes
  import opened VfsTree
  import opened TreeImage
  import D = DiskFs
  import F = SnapshotFormat
  import P = Preorder
  import R = Reboot
  import S = Persist
  import V = Vfs
  import RamFs

  type Nodes = map<nat, Node>

  // ---- a heap under construction ----

  /** The nodes loaded so far hang in one tree. */
  ghost predicate Hooked(st: Loading) {
    LoadingOk(st) && Connected(Fs(st.nodes, st.next, Store([], [])))
  }

  /** One pass of the loop in `diskfs_load` keeps it. */
  lemma RecordLinks(st: Loading, r: Record, st1: Loading)
    requires Hooked(st) && LoadRecord(st, r) == Some(st1)
    ensures Hooked(st1)
  {
    var fs, fs1 := Fs(st.nodes, st.next, Store([], [])), Fs(st1.nodes, st1.next, Store([], []));
    if r.parent < 0 {
      FieldsConnected(fs, fs1, ROOT);
    } else {
      JoinConnected(fs, fs1, st.ids[r.parent], st1.nodes[st.next]);
    }
  }

  ghost predicate RecordsInHeap(rs: seq<Record>) {
    forall i :: 0 <= i < |rs| ==> D.InHeap(rs[i].meta)
  }

  lemma {:induction false} LoadLinks(st: Loading, rs: seq<Record>, st': Loading)
    requires Hooked(st) && LoadAll(st, rs) == Some(st') && S.HeapBound(st.nodes) && RecordsInHeap(rs)
    ensures Hooked(st') && S.HeapBound(st'.nodes)
    decreases |rs|
  {
    if rs != [] {
      var n := |rs| - 1;
      var mid := LoadAll(st, rs[..n]).value;
      LoadLinks(st, rs[..n], mid);
      RecordLinks(mid, rs[n], st');
      assert D.InHeap(rs[n].meta);
      RecordHeap(mid, rs[n], st');
    }
  }

  lemma RecordHeap(st: Loading, r: Record, st1: Loading)
    requires LoadingOk(st) && LoadRecord(st, r) == Some(st1) && S.HeapBound(st.nodes) && D.InHeap(r.meta)
    ensures S.HeapBound(st1.nodes)
  {
    forall id | id in st1.nodes ensures Capacity(st1.nodes[id]) <= D.HEAP_MAX {
      if id in st.nodes {
        assert Capacity(st.nodes[id]) <= D.HEAP_MAX;
      }
    }
  }

  // ---- a heap that shows the first nodes of another ----

  ghost predicate Twin(a: Node, b: Node) {
    NodeSound(a) && NodeSound(b) && Normal(MetaOf(a)) == Normal(MetaOf(b))
  }

  /** The nodes `ids` of one heap show `f`; the nodes `jds` of the other show the first `n` nodes of it,
      up to empty block lists. */
  ghost predicate Alike(a: Fs, b: Fs, ids: seq<nat>, jds: seq<nat>, f: Forest, g: Forest, n: nat) {
    && Shows(a.nodes, ids, f, 0, a.next) && Shows(b.nodes, jds, g, 0, b.next)
    && NormalForest(g) == NormalForest(P.Take(f, n))
  }

  lemma {:induction false} AlikeLength(a: Fs, b: Fs, ids: seq<nat>, jds: seq<nat>, f: Forest, g: Forest, n: nat)
    requires Alike(a, b, ids, jds, f, g, n)
    ensures |jds| <= |ids|
    decreases g
  {
    if g.Grove? {
      var n' := AlikeNext(a, b, ids, jds, f, g, n);
      AlikeLength(a, b, ids[1..], jds[1..], f.next, g.next, n');
    }
  }

  lemma AlikeNext(a: Fs, b: Fs, ids: seq<nat>, jds: seq<nat>, f: Forest, g: Forest, n: nat) returns (n': nat)
    requires Alike(a, b, ids, jds, f, g, n) && g.Grove?
    ensures f.Grove? && ids != [] && jds != []
    ensures Alike(a, b, ids[1..], jds[1..], f.next, g.next, n')
  {
    n' := if n - 1 < P.Size(f.kids) then 0 else n - 1 - P.Size(f.kids);
    assert P.Take(f.next, 0) == F.Empty;
  }

  /** Entries at the same position are twins, and alike below. */
  lemma {:induction false} AlikeAt(a: Fs, b: Fs, ids: seq<nat>, jds: seq<nat>, f: Forest, g: Forest, n: nat, k: nat)
    returns (f': Forest, g': Forest, n': nat)
    requires Alike(a, b, ids, jds, f, g, n) && k < |jds|
    ensures k < |ids| && ids[k] in a.nodes && jds[k] in b.nodes && Twin(a.nodes[ids[k]], b.nodes[jds[k]])
    ensures Alike(a, b, a.nodes[ids[k]].children, b.nodes[jds[k]].children, f', g', n')
    decreases k
  {
    var m := AlikeNext(a, b, ids, jds, f, g, n);
    if k == 0 {
      f', g', n' := f.kids, g.kids, n - 1;
    } else {
      f', g', n' := AlikeAt(a, b, ids[1..], jds[1..], f.next, g.next, m, k - 1);
    }
  }

  /** The rebuilt heap `b` shows the first `n` nodes of the saved one. */
  ghost predicate Whole(a: Fs, b: Fs, f: Forest, g: Forest, n: nat) {
    Shaped(a) && Connected(b) && Alike(a, b, [ROOT], [ROOT], f, g, n)
  }

  /** Every node of the second heap has a twin at the same position in the first. */
  lemma {:induction false} TwinOf(a: Fs, b: Fs, f: Forest, g: Forest, n: nat, jd: nat)
    returns (id: nat, f': Forest, g': Forest, n': nat, ks: seq<nat>)
    requires Whole(a, b, f, g, n) && jd in b.nodes
    ensures id in a.nodes && Twin(a.nodes[id], b.nodes[jd])
    ensures At(a.nodes, ks) == Some(id) && At(b.nodes, ks) == Some(jd)
    ensures Rooted(a.nodes) && Rooted(b.nodes) ==> Comps(a.nodes, id) == Comps(b.nodes, jd)
    ensures Alike(a, b, a.nodes[id].children, b.nodes[jd].children, f', g', n')
    decreases jd
  {
    if jd == ROOT {
      id, ks := ROOT, [];
      f', g', n' := AlikeAt(a, b, [ROOT], [ROOT], f, g, n, 0);
    } else {
      assert UpOk(b.nodes, jd) && Upheld(b.nodes, jd);
      var pd := b.nodes[jd].parent.value;
      var p, fp, gp, np, up := TwinOf(a, b, f, g, n, pd);
      var ids, jds := a.nodes[p].children, b.nodes[pd].children;
      var k :| 0 <= k < |jds| && jds[k] == jd;
      f', g', n' := AlikeAt(a, b, ids, jds, fp, gp, np, k);
      id, ks := ids[k], up + [k];
      assert (up + [k])[..|up|] == up;
      Younger(a, p);
    }
  }

  /** Different nodes have different twins. */
  lemma TwinsDiffer(a: Fs, b: Fs, ks: seq<nat>, js: seq<nat>)
    requires Shaped(a) && At(a.nodes, ks).Some? && At(b.nodes, ks) != At(b.nodes, js)
    ensures At(a.nodes, ks) != At(a.nodes, js)
  {
    if At(a.nodes, ks) == At(a.nodes, js) { AtUnique(a, ks, js); }
  }

  // ---- the tree ----

  lemma RebuiltLocal(a: Fs, b: Fs, f: Forest, g: Forest, n: nat, jd: nat)
    requires TreeInv(a) && Whole(a, b, f, g, n) && Rooted(b.nodes) && jd in b.nodes
    ensures Local(b.nodes, jd) && Nameable(Comps(b.nodes, jd))
    ensures b.nodes[jd].children != [] ==> b.nodes[jd].kind == VFS_DIRECTORY
  {
    var id, f', g', n', _ := TwinOf(a, b, f, g, n, jd);
    var ids, jds := a.nodes[id].children, b.nodes[jd].children;
    assert Local(a.nodes, id) && Nameable(Comps(a.nodes, id));
    AlikeLength(a, b, ids, jds, f', g', n');
    forall k | 0 <= k < |jds|
      ensures ids[k] in a.nodes && jds[k] in b.nodes && b.nodes[jds[k]].name == a.nodes[ids[k]].name
    {
      var _, _, _ := AlikeAt(a, b, ids, jds, f', g', n', k);
    }
    if jds != [] { V.ParentIsDirectory(a, id, ids[0]); }
  }

  lemma RootKind(a: Fs, b: Fs, f: Forest, g: Forest, n: nat)
    requires Whole(a, b, f, g, n) && Rooted(a.nodes)
    ensures Rooted(b.nodes)
  {
    var _, _, _, _, ks := TwinOf(a, b, f, g, n, ROOT);
    AtUnique(b, ks, []);
  }

  lemma RebuiltTree(a: Fs, b: Fs, f: Forest, g: Forest, n: nat)
    requires TreeInv(a) && Whole(a, b, f, g, n)
    ensures TreeInv(b)
  {
    RootKind(a, b, f, g, n);
    NumberedBelow(b);
    forall jd | jd in b.nodes ensures Local(b.nodes, jd) && Nameable(Comps(b.nodes, jd)) {
      RebuiltLocal(a, b, f, g, n, jd);
    }
    forall jd | jd in b.nodes ensures LinkOk(b.nodes, jd) {
      assert UpOk(b.nodes, jd) && Upheld(b.nodes, jd) && DownOk(b.nodes, b.next, jd) && UpOk(b.nodes, ROOT);
      if jd != ROOT { RebuiltLocal(a, b, f, g, n, b.nodes[jd].parent.value); }
    }
  }

  // ---- the blocks ----

  ghost function Cleared(used: seq<bool>, blocks: seq<u32>): (r: seq<bool>)
    requires InRange(blocks, |used|)
    ensures |r| == |used| && forall x: u32 :: x < |used| ==> r[x] == (used[x] && x !in blocks)
  {
    if blocks == [] then used else
    var n := |blocks| - 1;
    assert forall x :: x in blocks <==> x in blocks[..n] || x == blocks[n];
    Cleared(used, blocks[..n])[blocks[n] := false]
  }

  lemma {:induction false} ClearedCount(used: seq<bool>, blocks: seq<u32>)
    requires InRange(blocks, |used|) && NoDup(blocks) && forall i :: 0 <= i < |blocks| ==> used[blocks[i]]
    ensures Count(Cleared(used, blocks)) + |blocks| == Count(used)
  {
    if blocks != [] {
      var n := |blocks| - 1;
      ClearedCount(used, blocks[..n]);
      assert blocks[n] !in blocks[..n];
      CountUpdate(Cleared(used, blocks[..n]), blocks[n], false);
    }
  }

  /** The set bits are the disjoint union of the block lists. */
  ghost predicate Covers(nodes: Nodes, next: nat, used: seq<bool>) {
    && (forall id :: id in nodes ==> id < next)
    && (forall id {:trigger Listed(nodes[id], used)} :: id in nodes ==> Listed(nodes[id], used))
    && (forall id, jd {:trigger Apart(nodes[id], nodes[jd])} ::
          id in nodes && jd in nodes && id != jd ==> Apart(nodes[id], nodes[jd]))
    && (forall b: u32 {:trigger Owned(nodes, b)} :: b < |used| && used[b] ==> Owned(nodes, b))
  }

  ghost predicate Listed(n: Node, used: seq<bool>) {
    && InRange(BlockList(n), |used|) && NoDup(BlockList(n))
    && forall i :: 0 <= i < |BlockList(n)| ==> used[BlockList(n)[i]]
  }

  lemma CoversWithout(nodes: Nodes, next: nat, used: seq<bool>, nodes': Nodes, used': seq<bool>)
    requires Covers(nodes, next, used) && |used| < U32_LIMIT && next > 0 && next - 1 in nodes
    requires nodes' == nodes - {next - 1}
    requires InRange(BlockList(nodes[next - 1]), |used|) && used' == Cleared(used, BlockList(nodes[next - 1]))
    ensures Covers(nodes', next - 1, used')
  {
    var n := nodes[next - 1];
    forall id | id in nodes' ensures Listed(nodes'[id], used') {
      assert Listed(nodes[id], used) && Apart(nodes[id], n);
      var list := BlockList(nodes[id]);
      forall i | 0 <= i < |list| ensures used'[list[i]] {
        assert list[i] in list;
      }
    }
    forall id, jd | id in nodes' && jd in nodes' && id != jd ensures Apart(nodes'[id], nodes'[jd]) {
      assert Apart(nodes[id], nodes[jd]);
    }
    forall b: u32 | b < |used'| && used'[b] ensures Owned(nodes', b) {
      assert Owned(nodes, b);
      var id :| id in nodes && b in BlockList(nodes[id]);
      assert id in nodes' && b in BlockList(nodes'[id]);
    }
  }

  /** A disjoint union has the sum of the lengths. */
  lemma {:induction false} CountIsSum(nodes: Nodes, next: nat, used: seq<bool>)
    requires Covers(nodes, next, used) && |used| < U32_LIMIT
    ensures Count(used) == SumTo(nodes, next)
    decreases next
  {
    if next == 0 {
      forall b | 0 <= b < |used| ensures !used[b] {
        assert used[b] ==> Owned(nodes, b);
      }
      CountNone(used);
    } else if next - 1 in nodes {
      var n, nodes' := nodes[next - 1], nodes - {next - 1};
      assert Listed(n, used);
      var used' := Cleared(used, BlockList(n));
      ClearedCount(used, BlockList(n));
      CoversWithout(nodes, next, used, nodes', used');
      CountIsSum(nodes', next - 1, used');
      SumFrame(nodes, nodes', next - 1);
    } else {
      CountIsSum(nodes, next - 1, used);
    }
  }

  lemma TwinBlocks(a: Node, b: Node)
    requires Twin(a, b)
    ensures BlockList(a) == BlockList(b)
  {
  }

  /** The twin of a sound node is sound, in a store where its blocks are marked. */
  lemma TwinOk(a: Node, b: Node, store: Store, used: seq<bool>)
    requires store.Valid() && Twin(a, b) && NodeOk(a, store.used) && |a.name| < VFS_NAME_MAX
    requires Capacity(a) <= D.HEAP_MAX
    requires forall x: u32 :: x in BlockList(b) ==> x < |used| && used[x]
    ensures NodeOk(b, used)
  {
    S.NodeMeta(a, store);
    assert R.MetaSound(MetaOf(b), store.used);
    R.NodeFromMeta(b, store);
    assert forall i :: 0 <= i < |BlockList(b)| ==> BlockList(b)[i] in BlockList(b);
  }

  lemma RebuiltApart(a: Fs, b: Fs, f: Forest, g: Forest, n: nat, jd: nat, kd: nat)
    requires OwnershipInv(a) && Whole(a, b, f, g, n) && jd in b.nodes && kd in b.nodes && jd != kd
    ensures Apart(b.nodes[jd], b.nodes[kd])
  {
    var id, _, _, _, ks := TwinOf(a, b, f, g, n, jd);
    var ld, _, _, _, js := TwinOf(a, b, f, g, n, kd);
    TwinsDiffer(a, b, ks, js);
    assert Apart(a.nodes[id], a.nodes[ld]);
    TwinBlocks(a.nodes[id], b.nodes[jd]);
    TwinBlocks(a.nodes[ld], b.nodes[kd]);
  }

  /** The marked blocks are exactly those that some node lists. */
  ghost predicate Marked(b: Fs) {
    forall x: u32 {:trigger Owned(b.nodes, x)} :: Owned(b.nodes, x) <==> x < |b.store.used| && b.store.used[x]
  }

  lemma OwnedMarked(b: Fs)
    requires OwnershipInv(b)
    ensures Marked(b)
  {
    forall x: u32 | Owned(b.nodes, x) ensures x < |b.store.used| && b.store.used[x] {
      var id :| id in b.nodes && x in BlockList(b.nodes[id]);
      assert NodeOk(b.nodes[id], b.store.used);
    }
  }

  /** Ownership after a rebuild is exact if the boot bitmap marks what the rebuilt nodes list. */
  lemma RebuiltOwnership(a: Fs, b: Fs, f: Forest, g: Forest, n: nat)
    requires OwnershipInv(a) && S.HeapBound(a.nodes) && b.store.Valid() && Whole(a, b, f, g, n) && Marked(b)
    ensures OwnershipInv(b)
  {
    NumberedBelow(b);
    forall jd | jd in b.nodes ensures jd < b.next && NodeOk(b.nodes[jd], b.store.used) {
      var id, _, _, _, _ := TwinOf(a, b, f, g, n, jd);
      assert NodeOk(a.nodes[id], a.store.used) && DownOk(a.nodes, a.next, id);
      forall x: u32 | x in BlockList(b.nodes[jd]) ensures x < |b.store.used| && b.store.used[x] {
        assert Owned(b.nodes, x);
      }
      TwinOk(a.nodes[id], b.nodes[jd], a.store, b.store.used);
    }
    forall jd, kd | jd in b.nodes && kd in b.nodes && jd != kd ensures Apart(b.nodes[jd], b.nodes[kd]) {
      RebuiltApart(a, b, f, g, n, jd, kd);
    }
    forall x: u32 | x < |b.store.used| && b.store.used[x] ensures Owned(b.nodes, x) {
    }
    forall jd | jd in b.nodes ensures Listed(b.nodes[jd], b.store.used) {
      assert NodeOk(b.nodes[jd], b.store.used);
    }
    CountIsSum(b.nodes, b.next, b.store.used);
  }

  // ---- reboots ----

  /** `b` is what a sync of `a`, a power cycle and a boot up to `diskfs_load` leave: the saved tree, cut
      at the node limit, over whatever bitmap and blocks the disk has. Without memory for the bitmap
      there is no block store. */
  ghost predicate Rebooted(a: Fs, b: Fs) {
    R.Reloaded(S.Tree(a), b.nodes, b.next) && b.store.Valid()
  }

  /** The bitmap that boot found marks exactly the blocks that the saved tree carries. */
  ghost predicate Exact(a: Fs, b: Fs) {
    var kept := P.Take(S.Tree(a), F.MAX_NODES);
    forall x: u32 {:trigger S.Carried(kept, x)} :: S.Carried(kept, x) <==> x < |b.store.used| && b.store.used[x]
  }

  lemma {:induction false} NormalTwice(f: Forest)
    ensures NormalForest(NormalForest(f)) == NormalForest(f)
  {
    if f.Grove? {
      NormalTwice(f.kids);
      NormalTwice(f.next);
    }
  }

  lemma {:induction false} ShowsUnique(nodes: Nodes, ids: seq<nat>, f: Forest, g: Forest, hi: nat)
    requires Shows(nodes, ids, f, 0, hi) && Shows(nodes, ids, g, 0, hi)
    ensures f == g
    decreases f
  {
    if f.Grove? {
      ShowsUnique(nodes, nodes[ids[0]].children, f.kids, g.kids, hi);
      ShowsUnique(nodes, ids[1..], f.next, g.next, hi);
    }
  }

  lemma {:induction false} PreInHeap(f: Forest, parent: int, idx: nat)
    requires D.ForestInHeap(f)
    ensures RecordsInHeap(P.Pre(f, parent, idx))
  {
    if f.Grove? {
      PreInHeap(f.kids, idx, idx + 1);
      PreInHeap(f.next, parent, idx + 1 + P.Size(f.kids));
      P.PreOne(f, parent, idx);
    }
  }

  /** The rebuilt heap hangs together, and shows the saved forest. */
  lemma RebuiltShows(a: Fs, b: Fs, f: Forest, t: Forest)
    requires Held(a) && S.HeapBound(a.nodes) && f == S.Tree(a) && t == P.Take(f, F.MAX_NODES) && Rebooted(a, b)
    ensures f.Grove? && Shows(a.nodes, [ROOT], f, 0, a.next)
    ensures Connected(b) && S.HeapBound(b.nodes) && Shows(b.nodes, [ROOT], NormalForest(t), 0, b.next)
  {
    S.RootInside(a);
    S.ForestSaves(a, -1, [ROOT]);
    R.TakeLoadable(f, F.MAX_NODES, a.store.used);
    assert t.Grove? && t.next.Empty? && t.meta == f.meta;
    var rs, root := P.Pre(t, -1, 0), FreshNode(None, [47], VFS_DIRECTORY);
    assert root.(children := []) == root;
    var st := LoadTree(root, 1, t, rs);
    TakeInHeap(f, F.MAX_NODES);
    PreInHeap(t, -1, 0);
    BareHooked();
    LoadLinks(R.Bare(), rs, st);
    SameConnected(Fs(st.nodes, st.next, Store([], [])), b);
  }

  lemma BareHooked()
    ensures Hooked(R.Bare())
  {
  }

  lemma SameConnected(a: Fs, b: Fs)
    requires Connected(a) && b.nodes == a.nodes && b.next == a.next
    ensures Connected(b)
  {
  }

  lemma {:induction false} TakeInHeap(f: Forest, n: nat)
    requires D.ForestInHeap(f)
    ensures D.ForestInHeap(P.Take(f, n))
  {
    if f.Grove? && n > 0 {
      TakeInHeap(f.kids, n - 1);
      if n - 1 >= P.Size(f.kids) { TakeInHeap(f.next, n - 1 - P.Size(f.kids)); }
    }
  }

  lemma RebuiltWhole(a: Fs, b: Fs, f: Forest, t: Forest)
    requires Held(a) && S.HeapBound(a.nodes) && f == S.Tree(a) && t == P.Take(f, F.MAX_NODES) && Rebooted(a, b)
    ensures Whole(a, b, f, NormalForest(t), F.MAX_NODES) && S.HeapBound(b.nodes)
  {
    RebuiltShows(a, b, f, t);
    NormalTwice(t);
  }

  /** A reboot keeps the shape: the saved tree up to the node limit and empty block lists, whatever bitmap
      it finds, and whether or not the names in it are distinct. */
  lemma RebootShows(a: Fs, b: Fs)
    requires Held(a) && S.HeapBound(a.nodes) && Rebooted(a, b)
    ensures Connected(b) && S.HeapBound(b.nodes)
    ensures S.Tree(b) == NormalForest(P.Take(S.Tree(a), F.MAX_NODES))
    ensures forall id :: id in b.nodes ==> NodeSound(b.nodes[id])
  {
    var f, t := S.Tree(a), P.Take(S.Tree(a), F.MAX_NODES);
    RebuiltWhole(a, b, f, t);
    forall id | id in b.nodes ensures NodeSound(b.nodes[id]) {
      var _, _, _, _, _ := TwinOf(a, b, f, NormalForest(t), F.MAX_NODES, id);
    }
    TreeShown(b);
    ShowsUnique(b.nodes, [ROOT], S.Tree(b), NormalForest(t), b.next);
  }

  /** And a tree stays a tree. */
  lemma RebootKeeps(a: Fs, b: Fs)
    requires TreeInv(a) && OwnershipInv(a) && S.HeapBound(a.nodes) && Rebooted(a, b)
    ensures TreeInv(b) && S.HeapBound(b.nodes)
    ensures S.Tree(b) == NormalForest(P.Take(S.Tree(a), F.MAX_NODES))
    ensures forall id :: id in b.nodes ==> NodeSound(b.nodes[id])
  {
    var f, t := S.Tree(a), P.Take(S.Tree(a), F.MAX_NODES);
    TreeShaped(a);
    RebootShows(a, b);
    RebuiltWhole(a, b, f, t);
    RebuiltTree(a, b, f, NormalForest(t), F.MAX_NODES);
  }

  /** The tree of a heap is what its root shows. */
  lemma TreeShown(b: Fs)
    requires Shaped(b) && forall id :: id in b.nodes ==> NodeSound(b.nodes[id])
    ensures Shows(b.nodes, [ROOT], S.Tree(b), 0, b.next)
  {
    S.RootInside(b);
    ForestShown(b, -1, [ROOT]);
  }

  lemma {:induction false} ForestShown(b: Fs, lo: int, ids: seq<nat>)
    requires Shaped(b) && forall id :: id in b.nodes ==> NodeSound(b.nodes[id])
    requires -1 <= lo && S.Inside(b, lo, ids)
    ensures Shows(b.nodes, ids, S.ForestOf(b, lo, ids), 0, b.next)
    decreases b.next - lo, |ids|
  {
    if ids != [] {
      S.ChildrenYounger(b, ids[0]);
      ForestShown(b, ids[0], b.nodes[ids[0]].children);
      ForestShown(b, lo, ids[1..]);
    }
  }

  /** After a reboot blocks are owned exactly if and only if the bitmap that boot found marks exactly
      the blocks of the saved tree. */
  lemma RebootExact(a: Fs, b: Fs)
    requires Held(a) && S.HeapBound(a.nodes) && Rebooted(a, b)
    ensures OwnershipInv(b) <==> Exact(a, b)
  {
    var f, t := S.Tree(a), P.Take(S.Tree(a), F.MAX_NODES);
    MarkedExact(a, b);
    if OwnershipInv(b) {
      OwnedMarked(b);
    }
    if Exact(a, b) {
      RebuiltWhole(a, b, f, t);
      RebuiltOwnership(a, b, f, NormalForest(t), F.MAX_NODES);
    }
  }

  lemma MarkedExact(a: Fs, b: Fs)
    requires Held(a) && S.HeapBound(a.nodes) && Rebooted(a, b)
    ensures Marked(b) <==> Exact(a, b)
  {
    var t := P.Take(S.Tree(a), F.MAX_NODES);
    RebootShows(a, b);
    forall x: u32 ensures Owned(b.nodes, x) <==> S.Carried(t, x) {
      S.OwnedIsCarried(b, x);
      S.NormalCarries(t, x);
    }
  }

  /** For a tree within the node limit the bitmap must be the one at the time of the sync. */
  lemma ExactWithinLimit(a: Fs, b: Fs)
    requires Connected(a) && OwnershipInv(a) && P.Size(S.Tree(a)) <= F.MAX_NODES
    requires |b.store.used| == |a.store.used| < U32_LIMIT
    ensures Exact(a, b) <==> b.store.used == a.store.used
  {
    P.TakeAll(S.Tree(a), F.MAX_NODES);
    OwnedMarked(a);
    forall x: u32 ensures S.Carried(S.Tree(a), x) <==> x < |a.store.used| && a.store.used[x] {
      assert forall id :: id in a.nodes ==> NodeOk(a.nodes[id], a.store.used);
      S.OwnedIsCarried(a, x);
    }
    if Exact(a, b) {
      forall i | 0 <= i < |a.store.used| ensures b.store.used[i] == a.store.used[i] {
        var x: u32 := i;
        assert S.Carried(S.Tree(a), x) <==> a.store.used[x];
        assert S.Carried(P.Take(S.Tree(a), F.MAX_NODES), x) <==> b.store.used[x];
      }
    }
  }

  /** With the bitmap of the sync, ownership is exact if and only if no block belongs to a part of the
      tree that was cut off. */
  lemma ExactBeyondLimit(a: Fs, b: Fs)
    requires Connected(a) && OwnershipInv(a) && b.store.used == a.store.used
    ensures Exact(a, b) <==>
      forall x: u32 :: S.Carried(S.Tree(a), x) <==> S.Carried(P.Take(S.Tree(a), F.MAX_NODES), x)
  {
    OwnedMarked(a);
    forall x: u32 ensures S.Carried(S.Tree(a), x) <==> x < |a.store.used| && a.store.used[x] {
      assert forall id :: id in a.nodes ==> NodeOk(a.nodes[id], a.store.used);
      S.OwnedIsCarried(a, x);
    }
  }

  // ---- what the node limit loses ----

  /** A reboot keeps the whole tree if and only if it has at most 16384 nodes. */
  lemma TreeKeptIff(a: Fs, b: Fs)
    requires TreeInv(a) && OwnershipInv(a) && S.HeapBound(a.nodes) && Rebooted(a, b)
    ensures TreeInv(b) && |b.nodes| == Min(16384, |a.nodes|)
    ensures S.Tree(b) == NormalForest(S.Tree(a)) <==> |a.nodes| <= 16384
  {
    var f := S.Tree(a);
    RebootKeeps(a, b);
    TreeShaped(a);
    TreeShaped(b);
    S.TreeSize(a);
    S.TreeSize(b);
    P.PreTake(f, F.MAX_NODES, -1, 0);
    NormalSize(P.Take(f, F.MAX_NODES));
    NormalSize(f);
    if P.Size(f) <= F.MAX_NODES { P.TakeAll(f, F.MAX_NODES); }
  }

  /** How many nodes a snapshot of `fs` lists before the node that the path leads to. */
  ghost function Rank(fs: Fs, cs: seq<Text>): nat
    requires S.Tree(fs).Grove? && Seek(S.Tree(fs), cs).Some?
  {
    Seek(S.Tree(fs), cs).value.rank
  }

  /** Where a path leads before and after. */
  ghost predicate Keeps(a: Fs, b: Fs, x: Option<nat>, y: Option<nat>, h: Option<Hit>, size: nat)
    requires x.Some? ==> x.value in a.nodes
    requires y.Some? ==> y.value in b.nodes
  {
    && (x.Some? <==> h.Some?)
    && (y.Some? <==> h.Some? && h.value.rank < F.MAX_NODES)
    && (y.Some? ==> x.Some? && Twin(a.nodes[x.value], b.nodes[y.value]))
    && (x.Some? && size <= F.MAX_NODES ==>
          y.Some? && |b.nodes[y.value].children| == |a.nodes[x.value].children|)
  }

  /** After a reboot a path leads somewhere if and only if it did before, and fewer than 16384 nodes came
      before its node; then it leads to a node of the same saved form, with as many children if the whole
      tree is within the limit. Names need not be distinct. */
  lemma KeptPaths(a: Fs, b: Fs, cs: seq<Text>)
    requires Held(a) && S.HeapBound(a.nodes) && Rebooted(a, b)
    ensures ROOT in b.nodes && S.Tree(a).Grove?
    ensures Keeps(a, b, Walk(a.nodes, ROOT, cs), Walk(b.nodes, ROOT, cs), Seek(S.Tree(a), cs), P.Size(S.Tree(a)))
  {
    var f, t := S.Tree(a), P.Take(S.Tree(a), F.MAX_NODES);
    RebuiltShows(a, b, f, t);
    SeekShown(a.nodes, f, a.next, cs);
    SeekShown(b.nodes, NormalForest(t), b.next, cs);
    SeekNormal(t, cs);
    SeekCut(f, F.MAX_NODES, cs);
    SeekRank(f, cs);
    HitKept(a, b, Walk(a.nodes, ROOT, cs), Walk(b.nodes, ROOT, cs), Seek(f, cs), P.Size(f));
  }

  lemma HitKept(a: Fs, b: Fs, x: Option<nat>, y: Option<nat>, h: Option<Hit>, size: nat)
    requires Shown(a.nodes, x, h, a.next) && Shown(b.nodes, y, NormalHit(Cut(h, F.MAX_NODES)), b.next)
    requires h.Some? ==> h.value.rank + 1 + P.Size(h.value.kids) <= size
    ensures Keeps(a, b, x, y, h, size)
  {
    if y.Some? {
      NormalMeta(h.value.meta);
      KidsKept(a, b, x.value, y.value, h.value, size);
    }
  }

  lemma NormalMeta(m: F.Meta)
    ensures Normal(Normal(m)) == Normal(m)
  {
  }

  lemma KidsKept(a: Fs, b: Fs, x: nat, y: nat, h: Hit, size: nat)
    requires x in a.nodes && y in b.nodes && h.rank < F.MAX_NODES && h.rank + 1 + P.Size(h.kids) <= size
    requires Shows(a.nodes, a.nodes[x].children, h.kids, 0, a.next)
    requires Shows(b.nodes, b.nodes[y].children, NormalForest(P.Take(h.kids, F.MAX_NODES - 1 - h.rank)), 0, b.next)
    ensures size <= F.MAX_NODES ==> |b.nodes[y].children| == |a.nodes[x].children|
  {
    if size <= F.MAX_NODES {
      P.TakeAll(h.kids, F.MAX_NODES - 1 - h.rank);
      NormalSize(h.kids);
      ShowsBreadth(a.nodes, a.nodes[x].children, h.kids, a.next);
      ShowsBreadth(b.nodes, b.nodes[y].children, NormalForest(h.kids), b.next);
    }
  }

  /** Where the path of a node of `a` leads in `b`. */
  ghost function PlaceOf(a: Fs, b: Fs, id: nat): Option<nat>
    requires TreeInv(a) && TreeInv(b) && id in a.nodes
  {
    Walk(b.nodes, ROOT, Comps(a.nodes, id))
  }

  ghost predicate AllFound(a: Fs, b: Fs)
    requires TreeInv(a) && TreeInv(b)
  {
    forall id {:trigger PlaceOf(a, b, id)} :: id in a.nodes ==> PlaceOf(a, b, id).Some?
  }

  /** Every node is found under its path after a reboot if and only if there are at most 16384. */
  lemma AllKeptIff(a: Fs, b: Fs)
    requires TreeInv(a) && OwnershipInv(a) && S.HeapBound(a.nodes) && Rebooted(a, b)
    ensures TreeInv(b) && (AllFound(a, b) <==> |a.nodes| <= F.MAX_NODES)
  {
    TreeKeptIff(a, b);
    if |a.nodes| <= F.MAX_NODES {
      TreeShaped(a);
      S.TreeSize(a);
      forall id | id in a.nodes ensures PlaceOf(a, b, id).Some? {
        WalkComps(a, id);
        KeptPaths(a, b, Comps(a.nodes, id));
      }
    } else if AllFound(a, b) {
      var places := FoundInjects(a, b, a.nodes.Keys);
      Subset(places, b.nodes.Keys);
    }
  }

  lemma PlacesDiffer(a: Fs, b: Fs, x: nat, y: nat)
    requires TreeInv(a) && TreeInv(b) && x in a.nodes && y in a.nodes && PlaceOf(a, b, x).Some?
    requires PlaceOf(a, b, x) == PlaceOf(a, b, y)
    ensures x == y
  {
    WalkFinds(b, Comps(a.nodes, x));
    WalkFinds(b, Comps(a.nodes, y));
    WalkComps(a, x);
    WalkComps(a, y);
  }

  /** Different nodes are found at different places. */
  lemma {:induction false} FoundInjects(a: Fs, b: Fs, ids: set<nat>) returns (places: set<nat>)
    requires TreeInv(a) && TreeInv(b) && ids <= a.nodes.Keys && AllFound(a, b)
    ensures |places| == |ids| && places <= b.nodes.Keys
    ensures forall y :: y in places ==> exists id :: id in ids && PlaceOf(a, b, id) == Some(y)
    decreases ids
  {
    if x :| x in ids {
      var rest := FoundInjects(a, b, ids - {x});
      assert PlaceOf(a, b, x).Some?;
      var y := PlaceOf(a, b, x).value;
      if y in rest {
        var id :| id in ids - {x} && PlaceOf(a, b, id) == Some(y);
        PlacesDiffer(a, b, id, x);
      }
      places := rest + {y};
    } else {
      places := {};
    }
  }

  lemma {:induction false} Subset(a: set<nat>, b: set<nat>)
    requires a <= b
    ensures |a| <= |b|
    decreases a
  {
    if x :| x in a { Subset(a - {x}, b - {x}); }
  }

  // ---- the code ----

  /** Sync, power off, boot, load, from any state that can be saved. When the sync reports success and
      loading finds memory, the tree is rebuilt; the user finds it as it was if and only if it is
      within the node limit, and the blocks of files can be read if boot found memory for block
      storage. The system can be saved again if and only if the bitmap that boot found is exact. */
  method SyncAndRemount(fs: RamFs.RamFs, save: D.SaveHeap, load: D.LoadHeap)
    returns (rc: int, lrc: int, booted: RamFs.RamFs, ghost seen: R.View)
    requires save.limit <= D.HEAP_MAX && S.Syncable(fs)
    modifies fs.blockfs.disk
    ensures S.Syncable(fs) && fs.State() == old(fs.State())
    ensures fresh(booted) && booted.blockfs.disk == fs.blockfs.disk
    ensures booted.blockfs.Valid() && R.Planned(booted.blockfs)
    ensures R.Reports(S.Tree(fs.State()), |fs.blockfs.disk.sectors|, save, load, rc, lrc)
    ensures rc == 0 && lrc == 1 ==> Rebooted(fs.State(), booted.State()) && Connected(booted.State())
    ensures rc == 0 && lrc == 1 ==> (S.Syncable(booted) <==> Exact(fs.State(), booted.State()))
    ensures rc == 0 && lrc == 1 && TreeInv(fs.State()) ==> TreeInv(booted.State())
    ensures fs.blockfs.available && load.bitmap ==>
      booted.blockfs.available && booted.View().data == fs.View().data
    ensures rc == 0 && fs.blockfs.available && load.bitmap ==>
      booted.View().used ==
        if save.flush then fs.View().used else Bits(old(D.OnDisk(fs.blockfs)), fs.blockfs.geo.blocks)
    ensures R.Presents(fs.nodes, fs.View().data, [ROOT], seen)
    ensures rc == 0 && lrc == 1 ==>
      (R.Presents(booted.nodes, fs.View().data, [ROOT], seen) <==> P.Size(S.Tree(fs.State())) <= F.MAX_NODES)
    ensures rc == 0 && lrc == 1 && P.Size(S.Tree(fs.State())) <= F.MAX_NODES ==>
      (R.Presents(booted.nodes, booted.View().data, [ROOT], seen)
       <==> booted.blockfs.available || R.InRam(S.Tree(fs.State())))
  {
    S.HeldRuns(fs);
    ghost var f := S.Tree(fs.State());
    rc, lrc, booted := R.SyncAndReboot(fs, save, load, f);
    seen := R.ViewOf(f, fs.View());
    if rc == 0 && lrc == 1 {
      RemountIff(fs, booted);
      R.CutShows(booted.nodes, fs.View(), f);
      if P.Size(f) <= F.MAX_NODES { P.TakeAll(f, F.MAX_NODES); }
    }
  }

  lemma RemountIff(fs: RamFs.RamFs, booted: RamFs.RamFs)
    requires S.Syncable(fs) && booted.blockfs.Valid() && R.Planned(booted.blockfs)
    requires R.Reloaded(S.Tree(fs.State()), booted.nodes, booted.next)
    ensures Rebooted(fs.State(), booted.State()) && Connected(booted.State())
    ensures S.Syncable(booted) <==> Exact(fs.State(), booted.State())
    ensures TreeInv(fs.State()) ==> TreeInv(booted.State())
  {
    RebootExact(fs.State(), booted.State());
    RebootShows(fs.State(), booted.State());
    if TreeInv(fs.State()) { RebootKeeps(fs.State(), booted.State()); }
  }

  lemma MountedAll(fs: RamFs.RamFs)
    requires S.Mounted(fs)
    ensures S.Syncable(fs) && P.Size(S.Tree(fs.State())) == |fs.nodes|
  {
    TreeShaped(fs.State());
    S.TreeSize(fs.State());
  }

  /** For a tree within the node limit and a block store in use before and after: the user finds the
      tree and the bytes as they were, and the system is mounted again if and only if the flush at the
      end of the sync found memory, or the disk already had the same bits. */
  method SyncAndRebootTree(fs: RamFs.RamFs, save: D.SaveHeap, load: D.LoadHeap)
    returns (rc: int, lrc: int, booted: RamFs.RamFs, ghost seen: R.View)
    requires save.limit <= D.HEAP_MAX && S.Mounted(fs) && |fs.nodes| <= F.MAX_NODES
    requires fs.blockfs.available && load.bitmap
    modifies fs.blockfs.disk
    ensures S.Mounted(fs) && fs.State() == old(fs.State())
    ensures booted.blockfs.disk == fs.blockfs.disk && booted.blockfs.Valid()
    ensures booted.View().data == fs.View().data
    ensures R.Reports(S.Tree(fs.State()), |fs.blockfs.disk.sectors|, save, load, rc, lrc)
    ensures R.Presents(fs.nodes, fs.View().data, [ROOT], seen)
    ensures rc == 0 && lrc == 1 ==> R.Presents(booted.nodes, booted.View().data, [ROOT], seen)
    ensures rc == 0 && lrc == 1 ==>
      (S.Mounted(booted) <==> save.flush || Bits(old(D.OnDisk(fs.blockfs)), fs.blockfs.geo.blocks) == fs.View().used)
  {
    MountedAll(fs);
    rc, lrc, booted, seen := SyncAndRemount(fs, save, load);
    if rc == 0 && lrc == 1 { WithinLimit(fs, booted); }
  }

  /** Within the node limit the bitmap that boot found has to be that of the sync. */
  lemma WithinLimit(fs: RamFs.RamFs, booted: RamFs.RamFs)
    requires S.Mounted(fs) && |fs.nodes| <= F.MAX_NODES && booted.blockfs.Valid() && R.Planned(booted.blockfs)
    requires |booted.View().used| == |fs.View().used| && TreeInv(booted.State())
    requires S.Syncable(booted) <==> Exact(fs.State(), booted.State())
    ensures P.Size(S.Tree(fs.State())) <= F.MAX_NODES
    ensures S.Mounted(booted) <==> booted.View().used == fs.View().used
  {
    MountedAll(fs);
    TreeShaped(fs.State());
    TreeShaped(booted.State());
    ExactWithinLimit(fs.State(), booted.State());
  }
}
