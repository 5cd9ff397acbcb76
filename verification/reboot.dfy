/** Sync, power off, boot: what a user of the file system sees before and after. */
module Reboot {
  import opened Bytes
  import opened Layout
  import opened Bitmap
  import opened BlockStore
  import opened BlockFile
  import opened FileState
  import opened TreeImage
  import opened DiskFs
  import F = SnapshotFormat
  import P = Preorder
  import R = RamFs

  /** A directory entry as a user sees it. */
  datatype Entry = Entry(name: seq<byte>, kind: u32, perms: u32, uid: u32, gid: u32, bytes: seq<byte>)

  datatype View = Nothing | View(entry: Entry, kids: View, next: View)

  /** What reading a whole file returns: a disk-backed file whose blocks are out of reach, as without
      block storage, gives nothing. */
  ghost function BytesOf(n: Node, data: seq<Block>): seq<byte> {
    if n.kind != VFS_FILE then []
    else if n.diskBacked then
      if InRange(BlockList(n), |data|) && n.size <= BLOCK_SIZE * |BlockList(n)|
      then Content(data, BlockList(n))[..n.size] else []
    else RamBytes(n)[..Min(n.size, Capacity(n))]
  }

  ghost function EntryOf(n: Node, data: seq<Block>): Entry {
    Entry(n.name, n.kind, n.perms, n.uid, n.gid, BytesOf(n, data))
  }

  /** The tree below `ids`, over the blocks `data`, looks like `v`: same shape, order, attributes and
      file bytes. */
  ghost predicate Presents(nodes: map<nat, Node>, data: seq<Block>, ids: seq<nat>, v: View)
    decreases v
  {
    match v
    case Nothing => ids == []
    case View(e, kids, next) =>
      && ids != [] && ids[0] in nodes && EntryOf(nodes[ids[0]], data) == e
      && Presents(nodes, data, nodes[ids[0]].children, kids)
      && Presents(nodes, data, ids[1..], next)
  }

  /** A tree looks like one thing only. */
  lemma {:induction false} PresentsUnique(nodes: map<nat, Node>, data: seq<Block>, ids: seq<nat>, v: View, w: View)
    requires Presents(nodes, data, ids, v) && Presents(nodes, data, ids, w)
    ensures v == w
    decreases v
  {
    if v.View? {
      PresentsUnique(nodes, data, nodes[ids[0]].children, v.kids, w.kids);
      PresentsUnique(nodes, data, ids[1..], v.next, w.next);
    }
  }

  function ViewSize(v: View): nat {
    match v
    case Nothing => 0
    case View(_, kids, next) => 1 + ViewSize(kids) + ViewSize(next)
  }

  // ---- from saved forms to views ----

  ghost predicate MetaSound(m: Meta, used: seq<bool>) {
    && Savable(m)
    && (m.payload.InBlocks? ==>
         && InRange(m.payload.blocks, |used|) && NoDup(m.payload.blocks)
         && (forall i :: 0 <= i < |m.payload.blocks| ==> used[m.payload.blocks[i]])
         && m.size <= BLOCK_SIZE * |m.payload.blocks|)
  }

  ghost predicate ForestSound(f: Forest, used: seq<bool>) {
    match f
    case Empty => true
    case Grove(m, kids, next) => MetaSound(m, used) && ForestSound(kids, used) && ForestSound(next, used)
  }

  ghost function MetaEntry(m: Meta, store: Store): Entry
    requires store.Valid() && MetaSound(m, store.used)
  {
    Entry(m.name, m.kind, m.perms, m.uid, m.gid,
      if m.kind != VFS_FILE then []
      else match m.payload
        case Inline(bytes) => bytes
        case InBlocks(blocks) => Content(store.data, blocks)[..m.size])
  }

  ghost function ViewOf(f: Forest, store: Store): View
    requires store.Valid() && ForestSound(f, store.used)
  {
    match f
    case Empty => Nothing
    case Grove(m, kids, next) => View(MetaEntry(m, store), ViewOf(kids, store), ViewOf(next, store))
  }

  /** A node whose saved form is sound is sound, and the saved form shows what the node shows. */
  lemma NodeFromMeta(n: Node, store: Store)
    requires store.Valid() && NodeSound(n) && MetaSound(MetaOf(n), store.used)
    ensures NodeOk(n, store.used) && EntryOf(n, store.data) == MetaEntry(MetaOf(n), store)
  {
    if n.kind == VFS_FILE && n.data.Some? {
      assert |n.data.value[..Min(n.size, |n.data.value|)]| == n.size;
    }
  }

  lemma {:induction false} ShowsPresents(nodes: map<nat, Node>, store: Store, ids: seq<nat>, f: Forest, lo: nat,
                                         hi: nat)
    requires store.Valid() && Shows(nodes, ids, f, lo, hi) && ForestSound(f, store.used)
    ensures Presents(nodes, store.data, ids, ViewOf(f, store))
    decreases f
  {
    if f.Grove? {
      NodeFromMeta(nodes[ids[0]], store);
      ShowsPresents(nodes, store, nodes[ids[0]].children, f.kids, lo, hi);
      ShowsPresents(nodes, store, ids[1..], f.next, lo, hi);
    }
  }

  lemma {:induction false} ViewOfSize(f: Forest, store: Store)
    requires store.Valid() && ForestSound(f, store.used)
    ensures ViewSize(ViewOf(f, store)) == P.Size(f)
  {
    if f.Grove? {
      ViewOfSize(f.kids, store);
      ViewOfSize(f.next, store);
    }
  }

  /** What was cut at the node limit looks like the whole if and only if nothing was cut. */
  lemma CutShows(nodes: map<nat, Node>, store: Store, f: Forest)
    requires store.Valid() && ForestSound(f, store.used) && Loadable(f)
    requires ForestSound(P.Take(f, F.MAX_NODES), store.used)
    requires Presents(nodes, store.data, [ROOT], ViewOf(P.Take(f, F.MAX_NODES), store))
    ensures Presents(nodes, store.data, [ROOT], ViewOf(f, store)) <==> P.Size(f) <= F.MAX_NODES
  {
    var t := P.Take(f, F.MAX_NODES);
    if P.Size(f) <= F.MAX_NODES {
      P.TakeAll(f, F.MAX_NODES);
    } else if Presents(nodes, store.data, [ROOT], ViewOf(f, store)) {
      PresentsUnique(nodes, store.data, [ROOT], ViewOf(f, store), ViewOf(t, store));
      ViewOfSize(f, store);
      ViewOfSize(t, store);
      P.PreTake(f, F.MAX_NODES, -1, 0);
    }
  }

  // ---- reading without block storage ----

  /** No file of the forest has bytes on disk. */
  ghost predicate InRam(f: Forest) {
    match f
    case Empty => true
    case Grove(m, kids, next) =>
      (m.kind == VFS_FILE && m.size > 0 ==> m.payload.Inline?) && InRam(kids) && InRam(next)
  }

  /** Over no blocks at all a tree looks as it did over its own if and only if no file has bytes on
      disk; then it does over any blocks. */
  lemma {:induction false} ReadableWithout(nodes: map<nat, Node>, store: Store, ids: seq<nat>, f: Forest, lo: nat,
                                           hi: nat, data: seq<Block>)
    requires store.Valid() && Shows(nodes, ids, f, lo, hi) && ForestSound(f, store.used)
    ensures Presents(nodes, [], ids, ViewOf(f, store)) <==> InRam(f)
    ensures InRam(f) ==> Presents(nodes, data, ids, ViewOf(f, store))
    decreases f
  {
    if f.Grove? {
      NodeFromMeta(nodes[ids[0]], store);
      BytesWithout(nodes[ids[0]], store, data);
      ReadableWithout(nodes, store, nodes[ids[0]].children, f.kids, lo, hi, data);
      ReadableWithout(nodes, store, ids[1..], f.next, lo, hi, data);
    }
  }

  lemma BytesWithout(n: Node, store: Store, data: seq<Block>)
    requires store.Valid() && NodeSound(n) && MetaSound(MetaOf(n), store.used) && NodeOk(n, store.used)
    ensures var m := MetaOf(n);
      var ram := m.kind == VFS_FILE && m.size > 0 ==> m.payload.Inline?;
      && (EntryOf(n, []) == EntryOf(n, store.data) <==> ram)
      && (ram ==> EntryOf(n, data) == EntryOf(n, store.data))
  {
    if n.kind == VFS_FILE && n.diskBacked {
      assert |BytesOf(n, store.data)| == n.size;
      if n.size > 0 {
        if InRange(BlockList(n), 0) { NoBlocks(BlockList(n), 0); }
      } else {
        assert BytesOf(n, data) == [] && BytesOf(n, []) == [];
      }
    }
  }

  lemma {:induction false} NormalView(f: Forest, store: Store)
    requires store.Valid() && ForestSound(f, store.used)
    ensures ForestSound(NormalForest(f), store.used) && ViewOf(NormalForest(f), store) == ViewOf(f, store)
  {
    if f.Grove? {
      NormalView(f.kids, store);
      NormalView(f.next, store);
    }
  }

  // ---- truncation keeps what loading needs ----

  lemma {:induction false} TakeBreadth(f: Forest, n: nat)
    ensures Breadth(P.Take(f, n)) <= Breadth(f)
  {
    if f.Grove? && n > 0 && n - 1 >= P.Size(f.kids) {
      TakeBreadth(f.next, n - 1 - P.Size(f.kids));
    }
  }

  lemma {:induction false} TakeLoadable(f: Forest, n: nat, used: seq<bool>)
    requires Loadable(f) && ForestSound(f, used)
    ensures Loadable(P.Take(f, n)) && ForestSound(P.Take(f, n), used)
  {
    if f.Grove? && n > 0 {
      TakeBreadth(f.kids, n - 1);
      TakeLoadable(f.kids, n - 1, used);
      if n - 1 >= P.Size(f.kids) {
        TakeLoadable(f.next, n - 1 - P.Size(f.kids), used);
      }
    }
  }

  // ---- the round trip ----

  /** How the rebuilt nodes look over the blocks `data` that boot finds: as they did over those of
      `store` at the sync, if these are the blocks or none is needed, and over no blocks only if none
      is needed. */
  ghost predicate LooksAsSaved(nodes: map<nat, Node>, data: seq<Block>, store: Store, t: Forest)
    requires store.Valid() && ForestSound(t, store.used)
  {
    && (data == store.data || InRam(t) ==> Presents(nodes, data, [ROOT], ViewOf(t, store)))
    && (data == [] && !InRam(t) ==> !Presents(nodes, data, [ROOT], ViewOf(t, store)))
  }

  /** What boot makes of a saved image: the saved tree, cut at the node limit. */
  lemma BootLoads(f: Forest, rs: seq<Record>, store: Store, data: seq<Block>) returns (st: Loading)
    requires f.Grove? && f.next.Empty? && Loadable(f) && f.meta.name != [] && rs == Listing(f, -1, 0)
    requires store.Valid() && ForestSound(f, store.used)
    ensures rs != [] && LoadAll(Bare(), rs) == Some(st)
    ensures ForestSound(P.Take(f, F.MAX_NODES), store.used)
    ensures Presents(st.nodes, store.data, [ROOT], ViewOf(P.Take(f, F.MAX_NODES), store))
    ensures LooksAsSaved(st.nodes, data, store, P.Take(f, F.MAX_NODES))
  {
    var t := P.Take(f, F.MAX_NODES);
    TakeLoadable(f, F.MAX_NODES, store.used);
    if F.MAX_NODES - 1 >= P.Size(f.kids) {
      assert P.Take(f.next, F.MAX_NODES - 1 - P.Size(f.kids)) == F.Empty;
    }
    var root := FreshNode(None, [47], VFS_DIRECTORY);
    assert root.(children := []) == root;
    st := LoadTree(root, 1, t, rs);
    NormalView(t, store);
    ShowsPresents(st.nodes, store, [ROOT], NormalForest(t), 0, st.next);
    ReadableWithout(st.nodes, store, [ROOT], NormalForest(t), 0, st.next, data);
    NormalInRam(t);
  }

  lemma {:induction false} NormalInRam(f: Forest)
    requires Loadable(f)
    ensures InRam(NormalForest(f)) <==> InRam(f)
  {
    if f.Grove? {
      NormalInRam(f.kids);
      NormalInRam(f.next);
    }
  }

  /** Without block storage at the sync, no file has bytes on disk. */
  lemma {:induction false} NothingOnDisk(f: Forest)
    requires ForestSound(f, [])
    ensures InRam(f)
  {
    if f.Grove? {
      if f.meta.payload.InBlocks? { NoBlocks(f.meta.payload.blocks, 0); }
      NothingOnDisk(f.kids);
      NothingOnDisk(f.next);
    }
  }

  lemma NoBlocks(blocks: seq<u32>, n: nat)
    requires InRange(blocks, n)
    ensures n == 0 ==> blocks == []
  {
    if blocks != [] { assert blocks[0] < n; }
  }

  /** After boot the files can be read if and only if block storage is in use or no file needs it. */
  lemma ReadableIff(nodes: map<nat, Node>, data: seq<Block>, store: Store, t: Forest, before: bool, after: bool)
    requires store.Valid() && ForestSound(t, store.used) && LooksAsSaved(nodes, data, store, t)
    requires (before && after ==> data == store.data) && (!after ==> data == []) && (!before ==> store == Store([], []))
    ensures Presents(nodes, data, [ROOT], ViewOf(t, store)) <==> after || InRam(t)
  {
    if !before { NothingOnDisk(t); }
  }

  /** The node heap of a fresh boot, before anything is loaded. */
  function Bare(): Loading {
    Wiped(map[ROOT := FreshNode(None, [47], VFS_DIRECTORY)], 1)
  }

  /** What `diskfs_load` makes of the saved forest `f`. */
  ghost predicate Reloaded(f: Forest, nodes: map<nat, Node>, next: nat) {
    var o := LoadAll(Bare(), Listing(f, -1, 0));
    o.Some? && o.value.nodes == nodes && o.value.next == next
  }

  /** The block store, when in use, has the geometry that boot computes. */
  ghost predicate Planned(b: BlockFs)
    reads b, b.disk
  {
    |b.disk.sectors| < U32_LIMIT && (b.available ==> Plan(|b.disk.sectors|) == Some(b.geo))
  }

  /** A running system whose tree is the forest `f`. */
  ghost predicate Running(fs: R.RamFs, f: Forest)
    reads fs, fs.blockfs, fs.blockfs.disk
  {
    && fs.blockfs.Valid() && Planned(fs.blockfs)
    && f.Grove? && f.next.Empty? && f.meta.name != [] && Loadable(f)
    && Pending(fs.nodes, fs.next, [ROOT], f)
    && ForestSound(f, fs.View().used)
  }

  /** When the sync and the load report success. */
  ghost predicate Reports(f: Forest, total: u32, save: SaveHeap, load: LoadHeap, rc: int, lrc: int) {
    var rs := Listing(f, -1, 0);
    F.RecordsOk(rs) && (rc == 0 <==> Saves(rs, total, save)) && (rc == 0 ==> (lrc == 1 <==> Loads(rs, load)))
  }

  /** `diskfs_save`, loss of all RAM, `blockfs_init` and `diskfs_load` on the same disk. After a
      successful sync and a load that found memory, the tree (cut at the node limit) and the bytes are
      as they were, if and only if boot found memory for block storage or no saved file has bytes on
      disk. The bitmap is as it was if and only if the flush found memory, or the disk had this bitmap
      already. */
  method SyncAndReboot(fs: R.RamFs, save: SaveHeap, load: LoadHeap, ghost f: Forest)
    returns (rc: int, lrc: int, booted: R.RamFs)
    requires save.limit <= HEAP_MAX && Running(fs, f)
    modifies fs.blockfs.disk
    ensures Running(fs, f) && fs.View() == old(fs.View())
    ensures Presents(fs.nodes, fs.View().data, [ROOT], ViewOf(f, fs.View()))
    ensures fresh(booted) && booted.blockfs.disk == fs.blockfs.disk && booted.blockfs.Valid() && Planned(booted.blockfs)
    ensures booted.blockfs.available <==> load.bitmap && Plan(|fs.blockfs.disk.sectors|).Some?
    ensures Reports(f, |fs.blockfs.disk.sectors|, save, load, rc, lrc)
    ensures rc == 0 && lrc == 1 ==> Reloaded(f, booted.nodes, booted.next)
    ensures rc == 0 && lrc == 1 ==> ForestSound(P.Take(f, F.MAX_NODES), fs.View().used)
    ensures rc == 0 && lrc == 1 ==>
      Presents(booted.nodes, fs.View().data, [ROOT], ViewOf(P.Take(f, F.MAX_NODES), fs.View()))
    ensures rc == 0 && lrc == 1 ==>
      (Presents(booted.nodes, booted.View().data, [ROOT], ViewOf(P.Take(f, F.MAX_NODES), fs.View()))
       <==> booted.blockfs.available || InRam(P.Take(f, F.MAX_NODES)))
    ensures fs.blockfs.available && booted.blockfs.available ==> booted.View().data == fs.View().data
    ensures rc == 0 && fs.blockfs.available && booted.blockfs.available ==>
      && booted.blockfs.bitmap == (if save.flush then fs.blockfs.bitmap else old(OnDisk(fs.blockfs)))
      && booted.blockfs.view.used == Bits(booted.blockfs.bitmap, fs.blockfs.geo.blocks)
      && (booted.blockfs.bitmap == fs.blockfs.bitmap <==> save.flush || old(OnDisk(fs.blockfs)) == fs.blockfs.bitmap)
  {
    ghost var rs := Listing(f, -1, 0);
    ShowsPresents(fs.nodes, fs.View(), [ROOT], f, 0, fs.next);
    var b;
    rc, b := SyncAndBoot(fs, save, load, f, rs);
    lrc, booted := Restart(b, load, rc == 0, f, rs, fs.View(), fs.blockfs.available);
  }

  /** `diskfs_save`, loss of all RAM, and `blockfs_init`. */
  method SyncAndBoot(fs: R.RamFs, save: SaveHeap, load: LoadHeap, ghost f: Forest, ghost rs: seq<Record>)
    returns (rc: int, b: BlockFs)
    requires save.limit <= HEAP_MAX && Running(fs, f) && rs == Listing(f, -1, 0)
    modifies fs.blockfs.disk
    ensures Running(fs, f) && fs.View() == old(fs.View())
    ensures b.disk == fs.blockfs.disk && b.Valid() && Planned(b)
    ensures b.available <==> load.bitmap && Plan(|fs.blockfs.disk.sectors|).Some?
    ensures F.RecordsOk(rs) && (rc == 0 <==> Saves(rs, |b.disk.sectors|, save))
    ensures rc == 0 ==> HoldsImage(b.disk.Bytes(), |b.disk.sectors|, rs)
    ensures fs.blockfs.available && b.available ==> b.geo == fs.blockfs.geo && b.view.data == fs.blockfs.view.data
    ensures rc == 0 && fs.blockfs.available && b.available ==>
      && b.bitmap == (if save.flush then fs.blockfs.bitmap else old(OnDisk(fs.blockfs)))
      && b.view.used == Bits(b.bitmap, b.geo.blocks)
  {
    rc := Save(fs, save, f, rs);
    b := Boot(fs.blockfs, load);
  }

  /** `ramfs_init` and `diskfs_load` at boot; `store` is the block store at the time of the sync, and
      `before` says whether it was in use. */
  method Restart(b: BlockFs, heap: LoadHeap, ghost saved: bool, ghost f: Forest, ghost rs: seq<Record>,
                 ghost store: Store, ghost before: bool)
    returns (lrc: int, booted: R.RamFs)
    requires b.Valid() && |b.disk.sectors| < U32_LIMIT && store.Valid()
    requires f.Grove? && f.next.Empty? && Loadable(f) && f.meta.name != [] && rs == Listing(f, -1, 0)
    requires saved ==> HoldsImage(b.disk.Bytes(), |b.disk.sectors|, rs)
    requires ForestSound(f, store.used)
    requires (before && b.available ==> b.view.data == store.data) && (!before ==> store == Store([], []))
    ensures fresh(booted) && booted.blockfs == b
    ensures saved ==> (lrc == 1 <==> Loads(rs, heap))
    ensures saved && lrc == 1 ==> Reloaded(f, booted.nodes, booted.next)
    ensures saved && lrc == 1 ==> ForestSound(P.Take(f, F.MAX_NODES), store.used)
    ensures saved && lrc == 1 ==> Presents(booted.nodes, store.data, [ROOT], ViewOf(P.Take(f, F.MAX_NODES), store))
    ensures saved && lrc == 1 ==>
      (Presents(booted.nodes, booted.View().data, [ROOT], ViewOf(P.Take(f, F.MAX_NODES), store))
       <==> b.available || InRam(P.Take(f, F.MAX_NODES)))
  {
    booted := new R.RamFs(b);
    if saved {
      ghost var st := BootLoads(f, rs, store, booted.View().data);
      ReadableIff(st.nodes, booted.View().data, store, P.Take(f, F.MAX_NODES), before, b.available);
    }
    ghost var nodes, next, read := booted.nodes, booted.next, [];
    lrc, read := Load(booted, heap);
    if saved {
      SavedLoads(b.disk.Bytes(), |b.disk.sectors|, heap, nodes, next, lrc, read, booted.nodes, booted.next, rs);
    }
  }

  /** `blockfs_init` at boot finds the bitmap and the blocks that are on the disk. */
  method Boot(was: BlockFs, heap: LoadHeap) returns (b: BlockFs)
    requires was.Valid() && Planned(was)
    ensures fresh(b) && b.disk == was.disk && b.Valid() && Planned(b)
    ensures b.available <==> heap.bitmap && Plan(|was.disk.sectors|).Some?
    ensures b.available && was.available ==>
      && b.geo == was.geo && b.view.data == was.view.data
      && b.bitmap == OnDisk(was) && b.view.used == Bits(b.bitmap, b.geo.blocks)
  {
    b := new BlockFs(was.disk, heap.bitmap);
  }
}
