/** Every reachable file system state survives a sync and reboot: the tree that the operations of
    fs/vfs.c and fs/ramfs.c maintain is one that fs/diskfs.c can save. */
module Persist {
  import opened Bytes
  import opened BlockStore
  import opened BlockFile
  import opened FileState
  import opened Shapes
  import opened VfsTree
  import opened TreeImage
  import opened DiskFs
  import opened Reboot
  import F = SnapshotFormat
  import P = Preorder
  import R = RamFs

  lemma {:induction false} NoDupLength(blocks: seq<u32>, n: nat)
    requires NoDup(blocks) && InRange(blocks, n)
    ensures |blocks| <= n
    decreases n
  {
    if k :| 0 <= k < |blocks| && blocks[k] == n - 1 {
      var rest := blocks[..k] + blocks[k + 1..];
      assert forall i :: 0 <= i < |rest| ==> rest[i] == blocks[if i < k then i else i + 1];
      NoDupLength(rest, n - 1);
    } else if blocks != [] {
      assert blocks[0] < n;
      NoDupLength(blocks, n - 1);
    }
  }

  /** A sound node with a name that fits has a sound saved form. */
  lemma NodeMeta(n: Node, store: Store)
    requires store.Valid() && NodeOk(n, store.used) && |n.name| < VFS_NAME_MAX && Capacity(n) <= HEAP_MAX
    ensures MetaSound(MetaOf(n), store.used) && InHeap(MetaOf(n))
  {
    NoDupLength(BlockList(n), |store.used|);
  }

  /** Nodes younger than `lo`. */
  ghost predicate Inside(fs: Fs, lo: int, ids: seq<nat>) {
    forall i :: 0 <= i < |ids| ==> ids[i] in fs.nodes && lo < ids[i] < fs.next
  }

  /** The tree of nodes as a value. Children are younger than their parent, which bounds the depth; what
      is not would end it. */
  ghost function ForestOf(fs: Fs, lo: int, ids: seq<nat>): (f: Forest)
    ensures Inside(fs, lo, ids) ==> Breadth(f) == |ids|
    decreases fs.next - lo, |ids|
  {
    if ids == [] || ids[0] !in fs.nodes || !(lo < ids[0] < fs.next) then F.Empty
    else
      F.Grove(MetaOf(fs.nodes[ids[0]]), ForestOf(fs, ids[0], fs.nodes[ids[0]].children), ForestOf(fs, lo, ids[1..]))
  }

  lemma ChildrenYounger(fs: Fs, id: nat)
    requires Shaped(fs) && id in fs.nodes
    ensures Inside(fs, id, fs.nodes[id].children)
  {
    Younger(fs, id);
  }

  lemma RootInside(fs: Fs)
    requires Shaped(fs)
    ensures Inside(fs, -1, [ROOT])
  {
    assert DownOk(fs.nodes, fs.next, ROOT);
  }

  /** Contents kept in RAM fit the kernel heap. */
  ghost predicate HeapBound(nodes: map<nat, Node>) {
    forall id :: id in nodes ==> Capacity(nodes[id]) <= HEAP_MAX
  }

  lemma {:induction false} ForestSaves(fs: Fs, lo: int, ids: seq<nat>)
    requires Held(fs) && HeapBound(fs.nodes) && -1 <= lo && Inside(fs, lo, ids)
    ensures var f := ForestOf(fs, lo, ids);
      && Shows(fs.nodes, ids, f, 0, fs.next) && Loadable(f) && ForestSound(f, fs.store.used)
      && P.ForestOk(f) && ForestInHeap(f)
    decreases fs.next - lo, |ids|
  {
    if ids != [] {
      var id := ids[0];
      ChildrenYounger(fs, id);
      ForestSaves(fs, id, fs.nodes[id].children);
      ForestSaves(fs, lo, ids[1..]);
      assert NodeOk(fs.nodes[id], fs.store.used) && DownOk(fs.nodes, fs.next, id);
      NodeMeta(fs.nodes[id], fs.store);
    }
  }

  /** The whole tree. */
  ghost function Tree(fs: Fs): Forest {
    ForestOf(fs, -1, [ROOT])
  }

  // ---- what the tree says of its nodes ----

  /** Every node of the forest satisfies `p`. */
  ghost predicate All(f: Forest, p: F.Meta -> bool) {
    match f
    case Empty => true
    case Grove(m, kids, next) => p(m) && All(kids, p) && All(next, p)
  }

  /** A condition on saved forms holds in the whole tree if and only if it holds of every node. */
  lemma TreeAll(fs: Fs, p: F.Meta -> bool)
    requires Connected(fs)
    ensures All(Tree(fs), p) <==> forall id :: id in fs.nodes ==> p(MetaOf(fs.nodes[id]))
  {
    RootInside(fs);
    if All(Tree(fs), p) {
      forall id | id in fs.nodes ensures p(MetaOf(fs.nodes[id])) {
        NodeInTree(fs, id, p);
      }
    }
    if forall id :: id in fs.nodes ==> p(MetaOf(fs.nodes[id])) {
      NodesAll(fs, -1, [ROOT], p);
    }
  }

  lemma {:induction false} NodesAll(fs: Fs, lo: int, ids: seq<nat>, p: F.Meta -> bool)
    requires Shaped(fs) && -1 <= lo && Inside(fs, lo, ids)
    requires forall id :: id in fs.nodes ==> p(MetaOf(fs.nodes[id]))
    ensures All(ForestOf(fs, lo, ids), p)
    decreases fs.next - lo, |ids|
  {
    if ids != [] {
      ChildrenYounger(fs, ids[0]);
      NodesAll(fs, ids[0], fs.nodes[ids[0]].children, p);
      NodesAll(fs, lo, ids[1..], p);
    }
  }

  lemma {:induction false} EntryInForest(fs: Fs, lo: int, ids: seq<nat>, k: nat, p: F.Meta -> bool)
    requires Shaped(fs) && -1 <= lo && Inside(fs, lo, ids)
    requires k < |ids| && All(ForestOf(fs, lo, ids), p)
    ensures Inside(fs, ids[k], fs.nodes[ids[k]].children)
    ensures p(MetaOf(fs.nodes[ids[k]])) && All(ForestOf(fs, ids[k], fs.nodes[ids[k]].children), p)
    decreases k
  {
    ChildrenYounger(fs, ids[k]);
    if k > 0 { EntryInForest(fs, lo, ids[1..], k - 1, p); }
  }

  /** Every node is somewhere in the tree. */
  lemma {:induction false} NodeInTree(fs: Fs, id: nat, p: F.Meta -> bool)
    requires Connected(fs) && id in fs.nodes && All(Tree(fs), p)
    ensures Inside(fs, id, fs.nodes[id].children)
    ensures p(MetaOf(fs.nodes[id])) && All(ForestOf(fs, id, fs.nodes[id].children), p)
    decreases id
  {
    if id == ROOT {
      RootInside(fs);
      EntryInForest(fs, -1, [ROOT], 0, p);
    } else {
      assert UpOk(fs.nodes, id) && Upheld(fs.nodes, id);
      var up := fs.nodes[id].parent.value;
      NodeInTree(fs, up, p);
      var k :| 0 <= k < |fs.nodes[up].children| && fs.nodes[up].children[k] == id;
      EntryInForest(fs, up, fs.nodes[up].children, k, p);
    }
  }

  // ---- the size of the tree ----

  /** The nodes that the forest of `ids` is made of. */
  ghost function Below(fs: Fs, lo: int, ids: seq<nat>): set<nat>
    decreases fs.next - lo, |ids|
  {
    if ids == [] || ids[0] !in fs.nodes || !(lo < ids[0] < fs.next) then {}
    else {ids[0]} + Below(fs, ids[0], fs.nodes[ids[0]].children) + Below(fs, lo, ids[1..])
  }

  /** `a` is `x` or an ancestor of it. */
  ghost predicate IsAbove(nodes: map<nat, Node>, a: nat, x: nat)
    requires Ascending(nodes) && x in nodes
    decreases x
  {
    a == x || (x != ROOT && (assert UpOk(nodes, x); IsAbove(nodes, a, nodes[x].parent.value)))
  }

  lemma {:induction false} AboveOlder(nodes: map<nat, Node>, a: nat, x: nat)
    requires Ascending(nodes) && x in nodes && IsAbove(nodes, a, x)
    ensures a <= x
    decreases x
  {
    if a != x {
      assert UpOk(nodes, x);
      AboveOlder(nodes, a, nodes[x].parent.value);
    }
  }

  /** A node has at most one of several siblings above it. */
  lemma {:induction false} OneSibling(nodes: map<nat, Node>, a: nat, b: nat, x: nat)
    requires Ascending(nodes) && x in nodes && a in nodes && b in nodes && nodes[a].parent == nodes[b].parent
    requires IsAbove(nodes, a, x) && IsAbove(nodes, b, x)
    ensures a == b
    decreases x
  {
    assert UpOk(nodes, x) && UpOk(nodes, a) && UpOk(nodes, b);
    if a == x && b != x {
      AboveOlder(nodes, b, nodes[x].parent.value);
    } else if b == x && a != x {
      AboveOlder(nodes, a, nodes[x].parent.value);
    } else if a != x {
      OneSibling(nodes, a, b, nodes[x].parent.value);
    }
  }

  ghost predicate Siblings(nodes: map<nat, Node>, ids: seq<nat>) {
    && (forall i :: 0 <= i < |ids| ==> ids[i] in nodes)
    && (forall i :: 0 <= i < |ids| ==> nodes[ids[i]].parent == nodes[ids[0]].parent)
    && (forall i, j :: 0 <= i < j < |ids| ==> ids[i] != ids[j])
  }

  lemma ChildrenSiblings(fs: Fs, id: nat)
    requires Shaped(fs) && id in fs.nodes
    ensures Siblings(fs.nodes, fs.nodes[id].children)
  {
    assert DownOk(fs.nodes, fs.next, id);
    Younger(fs, id);
  }

  lemma {:induction false} BelowMembers(fs: Fs, lo: int, ids: seq<nat>, x: nat) returns (k: nat)
    requires Connected(fs) && -1 <= lo && Inside(fs, lo, ids)
    requires x in Below(fs, lo, ids)
    ensures x in fs.nodes && lo < x && k < |ids| && IsAbove(fs.nodes, ids[k], x)
    decreases fs.next - lo, |ids|
  {
    ChildrenYounger(fs, ids[0]);
    var kids := fs.nodes[ids[0]].children;
    if x == ids[0] {
      k := 0;
    } else if x in Below(fs, ids[0], kids) {
      var j := BelowMembers(fs, ids[0], kids, x);
      AboveParent(fs, ids[0], kids[j], x);
      k := 0;
    } else {
      var j := BelowMembers(fs, lo, ids[1..], x);
      k := j + 1;
    }
  }

  lemma {:induction false} AboveParent(fs: Fs, p: nat, c: nat, x: nat)
    requires Connected(fs) && p in fs.nodes && c in fs.nodes[p].children && x in fs.nodes && IsAbove(fs.nodes, c, x)
    ensures IsAbove(fs.nodes, p, x)
    decreases x
  {
    assert DownOk(fs.nodes, fs.next, p) && UpOk(fs.nodes, x) && DownOk(fs.nodes, fs.next, x);
    if c == x {
      assert IsAbove(fs.nodes, p, p);
    } else {
      AboveParent(fs, p, c, fs.nodes[x].parent.value);
    }
  }

  /** Every node is counted once. */
  lemma {:induction false} BelowSize(fs: Fs, lo: int, ids: seq<nat>)
    requires Connected(fs) && -1 <= lo && Inside(fs, lo, ids)
    requires Siblings(fs.nodes, ids)
    ensures |Below(fs, lo, ids)| == P.Size(ForestOf(fs, lo, ids))
    decreases fs.next - lo, |ids|
  {
    if ids != [] {
      ChildrenYounger(fs, ids[0]);
      ChildrenSiblings(fs, ids[0]);
      var kids := fs.nodes[ids[0]].children;
      var below, beside := Below(fs, ids[0], kids), Below(fs, lo, ids[1..]);
      BelowSize(fs, ids[0], kids);
      BelowSize(fs, lo, ids[1..]);
      forall x | x in below ensures x != ids[0] {
        var _ := BelowMembers(fs, ids[0], kids, x);
      }
      forall x | x in {ids[0]} + below ensures x !in beside {
        if x in beside { Beside(fs, lo, ids, x); }
      }
    }
  }

  lemma Beside(fs: Fs, lo: int, ids: seq<nat>, x: nat)
    requires Connected(fs) && -1 <= lo && Inside(fs, lo, ids)
    requires ids != [] && Siblings(fs.nodes, ids) && x in Below(fs, lo, ids[1..])
    ensures x != ids[0]
    ensures Inside(fs, ids[0], fs.nodes[ids[0]].children)
    ensures x !in Below(fs, ids[0], fs.nodes[ids[0]].children)
  {
    ChildrenYounger(fs, ids[0]);
    var kids := fs.nodes[ids[0]].children;
    var k := BelowMembers(fs, lo, ids[1..], x);
    assert ids[1..][k] == ids[k + 1];
    assert !IsAbove(fs.nodes, ids[0], x) by {
      if IsAbove(fs.nodes, ids[0], x) { OneSibling(fs.nodes, ids[0], ids[k + 1], x); }
    }
    if x in Below(fs, ids[0], kids) {
      var j := BelowMembers(fs, ids[0], kids, x);
      AboveParent(fs, ids[0], kids[j], x);
    }
  }

  lemma {:induction false} BelowClosed(fs: Fs, lo: int, ids: seq<nat>, x: nat, c: nat)
    requires Shaped(fs) && -1 <= lo && Inside(fs, lo, ids)
    requires x in Below(fs, lo, ids) && x in fs.nodes && c in fs.nodes[x].children
    ensures c in Below(fs, lo, ids)
    decreases fs.next - lo, |ids|
  {
    ChildrenYounger(fs, ids[0]);
    var kids := fs.nodes[ids[0]].children;
    if x == ids[0] {
      ListedBelow(fs, ids[0], kids, c);
    } else if x in Below(fs, ids[0], kids) {
      BelowClosed(fs, ids[0], kids, x, c);
    } else {
      BelowClosed(fs, lo, ids[1..], x, c);
    }
  }

  lemma {:induction false} ListedBelow(fs: Fs, lo: int, ids: seq<nat>, c: nat)
    requires Shaped(fs) && -1 <= lo && Inside(fs, lo, ids)
    requires c in ids
    ensures c in Below(fs, lo, ids)
    decreases |ids|
  {
    if c != ids[0] { ListedBelow(fs, lo, ids[1..], c); }
  }

  lemma {:induction false} AllBelow(fs: Fs, id: nat)
    requires Connected(fs) && id in fs.nodes
    ensures id in Below(fs, -1, [ROOT])
    decreases id
  {
    RootInside(fs);
    if id != ROOT {
      assert UpOk(fs.nodes, id) && Upheld(fs.nodes, id);
      AllBelow(fs, fs.nodes[id].parent.value);
      BelowClosed(fs, -1, [ROOT], fs.nodes[id].parent.value, id);
    }
  }

  /** The tree has as many entries as there are nodes. */
  lemma TreeSize(fs: Fs)
    requires Connected(fs)
    ensures P.Size(Tree(fs)) == |fs.nodes|
  {
    RootInside(fs);
    BelowSize(fs, -1, [ROOT]);
    var all := Below(fs, -1, [ROOT]);
    forall id | id in fs.nodes.Keys ensures id in all {
      AllBelow(fs, id);
    }
    forall x | x in all ensures x in fs.nodes.Keys {
      var _ := BelowMembers(fs, -1, [ROOT], x);
    }
    assert all == fs.nodes.Keys;
  }

  // ---- the length of the image ----

  /** `measure_node` predicts the length of the saved image if and only if nothing but files has
      blocks. */
  lemma MeasureIff(fs: Fs)
    requires Connected(fs) && OwnershipInv(fs) && HeapBound(fs.nodes) && P.Size(Tree(fs)) <= F.MAX_NODES
    ensures F.RecordsOk(Listing(Tree(fs), -1, 0))
    ensures 16 + |F.EncodeAll(Listing(Tree(fs), -1, 0))| == 16 + P.Measure(Tree(fs))
       <==> forall id :: id in fs.nodes && fs.nodes[id].kind != VFS_FILE ==> fs.nodes[id].blocks.None?
  {
    var f := Tree(fs);
    ForestSaves(fs, -1, [ROOT]);
    LoadableSizes(f);
    assert P.Take(f, F.MAX_NODES) == f by { P.TakeAll(f, F.MAX_NODES); }
    P.MeasureIsLength(f, -1, 0);
    PayloadsAll(f);
    TreeAll(fs, FilesOnly());
    forall id | id in fs.nodes
      ensures FilesOnly()(MetaOf(fs.nodes[id])) <==> (fs.nodes[id].kind != VFS_FILE ==> fs.nodes[id].blocks.None?)
    {
      assert NodeOk(fs.nodes[id], fs.store.used);
    }
  }

  ghost function FilesOnly(): F.Meta -> bool {
    (m: F.Meta) => m.kind != VFS_FILE ==> m.payload == F.Inline([])
  }

  lemma {:induction false} PayloadsAll(f: Forest)
    ensures P.PayloadsInFiles(f) <==> All(f, FilesOnly())
  {
    if f.Grove? {
      PayloadsAll(f.kids);
      PayloadsAll(f.next);
    }
  }

  lemma {:induction false} LoadableSizes(f: Forest)
    requires Loadable(f)
    ensures P.SizesInFiles(f)
  {
    if f.Grove? {
      LoadableSizes(f.kids);
      LoadableSizes(f.next);
    }
  }

  // ---- the blocks that a tree carries ----

  function MetaBlocks(m: F.Meta): seq<u32> {
    if m.payload.InBlocks? then m.payload.blocks else []
  }

  ghost function Without(x: u32): F.Meta -> bool {
    (m: F.Meta) => x !in MetaBlocks(m)
  }

  /** Block `x` belongs to a node of the forest. */
  ghost predicate Carried(f: Forest, x: u32) {
    !All(f, Without(x))
  }

  /** A block is owned by a node if and only if the tree carries it. */
  lemma OwnedIsCarried(fs: Fs, x: u32)
    requires Connected(fs) && forall id :: id in fs.nodes ==> NodeSound(fs.nodes[id])
    ensures Owned(fs.nodes, x) <==> Carried(Tree(fs), x)
  {
    TreeAll(fs, Without(x));
    forall id | id in fs.nodes ensures BlockList(fs.nodes[id]) == MetaBlocks(MetaOf(fs.nodes[id])) {
    }
  }

  lemma {:induction false} NormalCarries(f: Forest, x: u32)
    ensures Carried(NormalForest(f), x) <==> Carried(f, x)
  {
    if f.Grove? {
      NormalCarries(f.kids, x);
      NormalCarries(f.next, x);
    }
  }

  // ---- states that can be saved ----

  /** A mounted file system in a state that runs reach. */
  ghost predicate Mounted(fs: R.RamFs)
    reads fs, fs.blockfs, fs.blockfs.disk
  {
    && fs.Valid() && TreeInv(fs.State()) && HeapBound(fs.nodes)
    && Planned(fs.blockfs)
  }

  /** What a sync needs of a system, also of one with names that hide each other. */
  ghost predicate Syncable(fs: R.RamFs)
    reads fs, fs.blockfs, fs.blockfs.disk
  {
    fs.Valid() && Shaped(fs.State()) && HeapBound(fs.nodes) && Planned(fs.blockfs)
  }

  lemma HeldRuns(fs: R.RamFs)
    requires Syncable(fs)
    ensures Running(fs, Tree(fs.State()))
  {
    var s := fs.State();
    RootInside(s);
    ForestSaves(s, -1, [ROOT]);
  }

  lemma MountedRuns(fs: R.RamFs)
    requires Mounted(fs)
    ensures Running(fs, Tree(fs.State()))
  {
    TreeShaped(fs.State());
    HeldRuns(fs);
  }
}
