/** fs/ramfs.c: the operations on nodes, in place. Every method states which step of
    `FileState` it takes; what those steps mean is proved there. */
module RamFs {
  import opened Bytes
  import opened Layout
  import opened Bitmap
  import opened BlockStore
  import opened BlockFile
  import opened FileState

  lemma GrowOnly(s: Store, b: seq<u32>, s': Store, b': seq<u32>, off: nat, buf: seq<byte>)
    requires GrownBy(s, b, s', b') && InRange(b, |s.used|)
    requires forall i :: 0 <= i < |b| ==> s.used[b[i]]
    ensures BlocksWritten(s, b, s', b', off, buf, false)
  {
    GrownContent(s, b, s', b');
    assert forall x :: x in b'[|b|..] ==> x in b';
  }

  lemma GrowThenStore(s: Store, b: seq<u32>, mid: Store, s': Store, b': seq<u32>, off: nat, buf: seq<byte>)
    requires GrownBy(s, b, mid, b') && InRange(b, |s.used|) && InRange(b', |s.used|)
    requires forall i :: 0 <= i < |b| ==> s.used[b[i]]
    requires s'.Valid() && Rewritten(mid, s', b') && off + |buf| <= BLOCK_SIZE * |b'|
    requires Content(s'.data, b') == Splice(Content(mid.data, b'), off, buf)
    ensures BlocksWritten(s, b, s', b', off, buf, true)
  {
    GrownContent(s, b, mid, b');
    assert forall x :: x in b'[|b|..] ==> x in b';
  }

  /** The effect of growing one node's list. */
  ghost predicate NodeGrown(fs: Fs, id: nat, fs': Fs) {
    && id in fs.nodes && id in fs'.nodes && fs'.next == fs.next
    && fs'.nodes == fs.nodes[id := fs'.nodes[id]]
    && fs'.nodes[id] == fs.nodes[id].(blocks := fs'.nodes[id].blocks)
    && (fs.nodes[id].blocks.Some? ==> fs'.nodes[id].blocks.Some?)
    && GrownBy(fs.store, BlockList(fs.nodes[id]), fs'.store, BlockList(fs'.nodes[id]))
  }

  lemma NotGrown(fs: Fs, id: nat)
    requires id in fs.nodes && fs.store.Valid()
    ensures NodeGrown(fs, id, fs)
  {
    var b := BlockList(fs.nodes[id]);
    assert b[|b|..] == [] && b[..|b|] == b;
    assert fs.nodes == fs.nodes[id := fs.nodes[id]];
  }

  /** Without block storage a list keeps its length, which is 0. */
  lemma NothingTaken(fs: Fs, id: nat, fs': Fs)
    requires id in fs.nodes && fs.store.Valid() && fs'.store == fs.store && fs'.next == fs.next
    requires fs'.nodes == fs.nodes[id := fs.nodes[id].(blocks := Some(BlockList(fs.nodes[id])))]
    ensures NodeGrown(fs, id, fs')
  {
    var b := BlockList(fs.nodes[id]);
    assert b[|b|..] == [] && b[..|b|] == b && BlockList(fs'.nodes[id]) == b;
  }

  /** The effect of storing bytes inside the blocks of a node. */
  ghost predicate NodeStored(fs: Fs, id: nat, off: nat, buf: seq<byte>, fs': Fs)
    requires id in fs.nodes && InRange(BlockList(fs.nodes[id]), |fs.store.data|)
  {
    var list := BlockList(fs.nodes[id]);
    && fs'.store.Valid() && Rewritten(fs.store, fs'.store, list)
    && off + |buf| <= BLOCK_SIZE * |list| && off + |buf| < U32_LIMIT
    && Content(fs'.store.data, list) == Splice(Content(fs.store.data, list), off, buf)
    && fs'.next == fs.next && fs'.nodes == fs.nodes[id := fs.nodes[id].(size := Max(fs.nodes[id].size, off + |buf|))]
  }

  lemma StoreDone(fs: Fs, id: nat, mid: Fs, off: nat, buf: seq<byte>, fs': Fs)
    requires OwnershipInv(fs) && NodeGrown(fs, id, mid) && fs.nodes[id].diskBacked
    requires InRange(BlockList(mid.nodes[id]), |fs.store.used|) && |mid.store.data| == |fs.store.used|
    requires NodeStored(mid, id, off, buf, fs')
    ensures DiskWrite(fs, fs', id, off, buf, true) && OwnershipInv(fs')
  {
    assert NodeOk(fs.nodes[id], fs.store.used);
    StoreIsWrite(fs, id, mid, off, buf, fs');
    DiskWriteOwnership(fs, fs', id, off, buf, true);
  }

  lemma StoreIsWrite(fs: Fs, id: nat, mid: Fs, off: nat, buf: seq<byte>, fs': Fs)
    requires fs.store.Valid() && NodeGrown(fs, id, mid) && NodeOk(fs.nodes[id], fs.store.used)
    requires InRange(BlockList(mid.nodes[id]), |fs.store.used|) && |mid.store.data| == |fs.store.used|
    requires NodeStored(mid, id, off, buf, fs')
    ensures DiskWrite(fs, fs', id, off, buf, true)
  {
    var n, n' := fs.nodes[id], fs'.nodes[id];
    var list := BlockList(mid.nodes[id]);
    assert BlockList(n') == list && n' == n.(blocks := n'.blocks, size := n'.size);
    assert BlocksWritten(fs.store, BlockList(n), fs'.store, list, off, buf, true) by {
      GrowThenStore(fs.store, BlockList(n), mid.store, fs'.store, list, off, buf);
    }
    assert fs'.nodes == fs.nodes[id := n'];
  }

  lemma GrowFailed(fs: Fs, id: nat, off: nat, buf: seq<byte>, fs': Fs)
    requires OwnershipInv(fs) && NodeGrown(fs, id, fs') && fs.nodes[id].diskBacked
    ensures DiskWrite(fs, fs', id, off, buf, false) && OwnershipInv(fs')
  {
    assert NodeOk(fs.nodes[id], fs.store.used);
    GrowOnly(fs.store, BlockList(fs.nodes[id]), fs'.store, BlockList(fs'.nodes[id]), off, buf);
    DiskWriteOwnership(fs, fs', id, off, buf, false);
  }

  /** An empty node: directories (type 2) may be read and searched by all, other nodes read by all, and both be
      written by root. */
  function Blank(parent: Option<nat>, name: seq<byte>, kind: u32): Node {
    Node(name, kind, 64 * (if kind == 2 then 7 else 6) + 8 * (if kind == 2 then 5 else 4)
         + (if kind == 2 then 5 else 4), 0, 0, 0, parent, [], None, None, false)
  }

  // ---- when a write succeeds ----

  /** How many blocks a list lacks to hold `end` bytes. */
  function Lacking(list: seq<u32>, end: nat): (k: nat)
    ensures end <= BLOCK_SIZE * (|list| + k)
    ensures k > 0 ==> BLOCK_SIZE * (|list| + k - 1) < end
  {
    if end <= BLOCK_SIZE * |list| then 0 else (end + BLOCK_SIZE - 1) / BLOCK_SIZE - |list|
  }

  lemma BlocksNeeded(list: seq<u32>, end: nat)
    ensures var n := (end + BLOCK_SIZE - 1) / BLOCK_SIZE;
      && end <= BLOCK_SIZE * n && Lacking(list, end) == (if n <= |list| then 0 else n - |list|)
      && forall m: nat :: n <= m ==> end <= BLOCK_SIZE * m
  {
  }

  /** The list of the node holds the bytes up to `end`, or there is memory and as many blocks are free as
      it lacks. */
  predicate GoesToDisk(n: Node, end: nat, heapOk: bool, used: seq<bool>) {
    var k := Lacking(BlockList(n), end);
    k == 0 || (heapOk && k <= Free(used))
  }

  /** The buffer of the node holds them, or there is memory for a larger one. */
  predicate GoesToRam(n: Node, end: nat, heapOk: bool) {
    heapOk || end <= Capacity(n)
  }

  /** The buffer grows to 64 bytes more than needed, if it has to grow. */
  function NewCapacity(n: Node, end: nat, ok: bool): (r: nat)
    ensures ok ==> end <= r
    ensures r == Capacity(n) || (ok && r == end + 64)
  {
    if ok && end > Capacity(n) then end + 64 else Capacity(n)
  }

  /** The write succeeds: on disk if the node is there or, still empty, can be moved there. */
  predicate Accepted(fs: Fs, id: nat, end: nat, heapOk: bool, available: bool)
    requires id in fs.nodes
  {
    var n := fs.nodes[id];
    if n.diskBacked || (Capacity(n) == 0 && available) then GoesToDisk(n, end, heapOk, fs.store.used)
    else GoesToRam(n, end, heapOk)
  }

  // ---- when a removal succeeds ----

  /** The root stays, a directory with entries stays, and so does what its parent does not list. */
  predicate Removable(nodes: map<nat, Node>, id: nat)
    requires id in nodes && (nodes[id].parent.Some? ==> nodes[id].parent.value in nodes)
  {
    && nodes[id].parent.Some? && id in nodes[nodes[id].parent.value].children
    && !(nodes[id].kind == VFS_DIRECTORY && nodes[id].children != [])
  }

  function RemoveCode(nodes: map<nat, Node>, id: nat): (rc: int)
    requires id in nodes && (nodes[id].parent.Some? ==> nodes[id].parent.value in nodes)
    ensures rc == 0 <==> Removable(nodes, id)
    ensures rc == -2 <==> nodes[id].parent.Some? && nodes[id].kind == VFS_DIRECTORY && nodes[id].children != []
    ensures rc == 0 || rc == -1 || rc == -2
  {
    if nodes[id].parent.None? then -1
    else if nodes[id].kind == VFS_DIRECTORY && nodes[id].children != [] then -2
    else if id !in nodes[nodes[id].parent.value].children then -1
    else 0
  }

  class RamFs {
    const blockfs: BlockFs
    var nodes: map<nat, Node>
    var next: nat

    ghost function View(): (s: Store)
      requires blockfs.Valid()
      reads this, blockfs, blockfs.disk
      ensures s.Valid()
    {
      if blockfs.available then blockfs.view else Store([], [])
    }

    ghost function State(): Fs
      requires blockfs.Valid()
      reads this, blockfs, blockfs.disk
    {
      Fs(nodes, next, View())
    }

    /** The node graph alone, without the block store. */
    ghost function Nodes(): Fs
      reads this
    {
      Fs(nodes, next, Store([], []))
    }

    ghost predicate Valid()
      reads this, blockfs, blockfs.disk
    {
      blockfs.Valid() && OwnershipInv(State())
    }

    constructor (blockfs: BlockFs)
      requires blockfs.Valid()
      ensures this.blockfs == blockfs && blockfs.Valid()
      ensures nodes == map[ROOT := FreshNode(None, [47], VFS_DIRECTORY)] && next == 1
      ensures nodes[ROOT] == Blank(None, [47], 2)
    {
      this.blockfs := blockfs;
      nodes := map[ROOT := FreshNode(None, [47], VFS_DIRECTORY)];
      next := 1;
    }

    /** `ensure_blocks`: grows a node's list; `heapOk` says whether `krealloc` succeeds. */
    method EnsureBlocks(id: nat, n: nat, heapOk: bool) returns (ok: bool)
      requires Valid() && id in nodes
      modifies this`nodes, blockfs`bitmap, blockfs`usedBlocks, blockfs`view, blockfs.disk
      ensures blockfs.Valid() && |blockfs.disk.sectors| == old(|blockfs.disk.sectors|)
      ensures OutsideKept(blockfs.available, blockfs.geo, old(blockfs.disk.Bytes()), blockfs.disk.Bytes())
      ensures NodeGrown(old(State()), id, State())
      ensures ok <==> |BlockList(nodes[id])| >= n
      ensures !ok && heapOk ==> forall b :: 0 <= b < |View().used| ==> View().used[b]
      ensures ok <==> n <= |BlockList(old(nodes[id]))|
                      || (heapOk && n - |BlockList(old(nodes[id]))| <= Free(old(View()).used))
    {
      ghost var fs := State();
      NotGrown(fs, id);
      var list := BlockList(nodes[id]);
      if n <= |list| { return true; }
      if !heapOk { return false; }
      var grown;
      ok, grown := Grow(blockfs, list, n);
      nodes := nodes[id := nodes[id].(blocks := Some(grown))];
      assert BlockList(nodes[id]) == grown;
      if !blockfs.available { NothingTaken(fs, id, State()); }
    }

    /** Its call in `diskfile_write`, for the bytes up to `end`. */
    method EnsureBytes(id: nat, end: nat, heapOk: bool) returns (ok: bool)
      requires Valid() && id in nodes
      modifies this`nodes, blockfs`bitmap, blockfs`usedBlocks, blockfs`view, blockfs.disk
      ensures blockfs.Valid() && |blockfs.disk.sectors| == old(|blockfs.disk.sectors|)
      ensures OutsideKept(blockfs.available, blockfs.geo, old(blockfs.disk.Bytes()), blockfs.disk.Bytes())
      ensures NodeGrown(old(State()), id, State())
      ensures ok <==> GoesToDisk(old(nodes[id]), end, heapOk, old(View()).used)
      ensures ok <==> end <= BLOCK_SIZE * |BlockList(nodes[id])|
      ensures !ok && heapOk ==> forall b :: 0 <= b < |View().used| ==> View().used[b]
    {
      BlocksNeeded(BlockList(nodes[id]), end);
      ok := EnsureBlocks(id, (end + BLOCK_SIZE - 1) / BLOCK_SIZE, heapOk);
    }

    method StoreBytes(id: nat, off: u32, buf: seq<byte>)
      requires blockfs.Valid() && id in nodes
      requires InRange(BlockList(nodes[id]), |View().data|) && NoDup(BlockList(nodes[id]))
      requires off + |buf| <= BLOCK_SIZE * |BlockList(nodes[id])| && off + |buf| < U32_LIMIT
      modifies this`nodes, blockfs.disk, blockfs`view
      ensures blockfs.Valid() && |blockfs.disk.sectors| == old(|blockfs.disk.sectors|)
      ensures OutsideKept(blockfs.available, blockfs.geo, old(blockfs.disk.Bytes()), blockfs.disk.Bytes())
      ensures NodeStored(old(State()), id, off, buf, State())
    {
      ghost var fs := State();
      var list := BlockList(nodes[id]);
      assert list != [] ==> list[0] < |View().data|;
      WriteSpan(blockfs, list, off, buf);
      ghost var mid := State();
      if off + |buf| > nodes[id].size {
        nodes := nodes[id := nodes[id].(size := off + |buf|)];
      }
      SizeSet(fs, mid, State(), id, off, buf);
    }

    lemma SizeSet(fs: Fs, mid: Fs, fs': Fs, id: nat, off: nat, buf: seq<byte>)
      requires id in fs.nodes && InRange(BlockList(fs.nodes[id]), |fs.store.data|) && mid.store.Valid()
      requires Rewritten(fs.store, mid.store, BlockList(fs.nodes[id])) && mid.nodes == fs.nodes && mid.next == fs.next
      requires off + |buf| <= BLOCK_SIZE * |BlockList(fs.nodes[id])| && off + |buf| < U32_LIMIT
      requires Content(mid.store.data, BlockList(fs.nodes[id]))
        == Splice(Content(fs.store.data, BlockList(fs.nodes[id])), off, buf)
      requires fs'.store == mid.store && fs'.next == mid.next && fs'.nodes == if off + |buf| > fs.nodes[id].size
        then fs.nodes[id := fs.nodes[id].(size := off + |buf|)] else fs.nodes
      ensures NodeStored(fs, id, off, buf, fs')
    {
      assert fs.nodes == fs.nodes[id := fs.nodes[id]];
    }

    /** The second half of `diskfile_write`, once the list is long enough. */
    method StoreGrown(id: nat, off: u32, buf: seq<byte>, ghost fs: Fs)
      requires blockfs.Valid() && OwnershipInv(fs) && NodeGrown(fs, id, State())
      requires fs.nodes[id].diskBacked
      requires off + |buf| <= BLOCK_SIZE * |BlockList(nodes[id])| && off + |buf| < U32_LIMIT
      modifies this`nodes, blockfs.disk, blockfs`view
      ensures Valid() && |blockfs.disk.sectors| == old(|blockfs.disk.sectors|)
      ensures OutsideKept(blockfs.available, blockfs.geo, old(blockfs.disk.Bytes()), blockfs.disk.Bytes())
      ensures DiskWrite(fs, State(), id, off, buf, true)
    {
      ghost var mid := State();
      TakenInRange(fs, id, mid.store.used, BlockList(mid.nodes[id]));
      StoreBytes(id, off, buf);
      StoreDone(fs, id, mid, off, buf, State());
    }

    /** `diskfile_write`. The requirement on sizes is the range in which the 32-bit block count
        does not wrap. */
    method DiskfileWrite(id: nat, off: u32, buf: seq<byte>, heapOk: bool) returns (done: nat, ok: bool)
      requires Valid() && id in nodes && nodes[id].diskBacked
      requires off + |buf| + BLOCK_SIZE <= U32_LIMIT
      modifies this`nodes, blockfs`bitmap, blockfs`usedBlocks, blockfs`view, blockfs.disk
      ensures Valid() && |blockfs.disk.sectors| == old(|blockfs.disk.sectors|)
      ensures OutsideKept(blockfs.available, blockfs.geo, old(blockfs.disk.Bytes()), blockfs.disk.Bytes())
      ensures DiskWrite(old(State()), State(), id, off, buf, ok)
      ensures done == if ok then |buf| else 0
      ensures !ok && heapOk ==> forall b :: 0 <= b < |View().used| ==> View().used[b]
      ensures ok <==> GoesToDisk(old(nodes[id]), off + |buf|, heapOk, old(View()).used)
    {
      ghost var fs := State();
      ok := EnsureBytes(id, off + |buf|, heapOk);
      if ok {
        StoreGrown(id, off, buf, fs);
        done := |buf|;
      } else {
        GrowFailed(fs, id, off, buf, State());
        done := 0;
      }
    }

    /** `diskfile_read`. */
    method DiskfileRead(id: nat, off: u32, size: u32) returns (buf: seq<byte>)
      requires blockfs.Valid() && id in nodes && nodes[id].diskBacked && NodeOk(nodes[id], View().used)
      ensures buf == Clip(Contents(nodes[id], View()), off, size)
    {
      var n := nodes[id];
      if off >= n.size { return []; }
      var want := if size > n.size - off then n.size - off else size;
      assert BlockList(n) != [] ==> BlockList(n)[0] < |View().used|;
      buf := ReadSpan(blockfs, BlockList(n), off, want);
      SpanVisible(Content(View().data, BlockList(n)), n.size, off, size, buf);
    }

    /** `ramfs_read`. */
    method Read(id: nat, off: u32, size: u32) returns (buf: seq<byte>)
      requires Valid() && id in nodes
      requires nodes[id].data.Some? ==> nodes[id].size <= Capacity(nodes[id])
      ensures buf == Clip(Contents(nodes[id], View()), off, size)
      ensures nodes[id].kind == VFS_FILE ==> buf == Clip(FileBytes(nodes[id], View()), off, size)
    {
      var n := nodes[id];
      assert NodeOk(n, View().used);
      if n.diskBacked {
        buf := DiskfileRead(id, off, size);
        return;
      }
      if n.data.None? { return []; }
      buf := ReadBuffer(n.data.value, n.size, off, size);
    }

    /** `ramfs_write`; `heapBytes` is what `krealloc` leaves in the bytes it adds. */
    method Write(id: nat, off: u32, buf: seq<byte>, heapOk: bool, heapBytes: seq<byte>)
      returns (done: nat, ok: bool)
      requires Valid() && id in nodes
      requires off + |buf| + BLOCK_SIZE <= U32_LIMIT && |heapBytes| == off + |buf| + 64
      modifies this`nodes, blockfs`bitmap, blockfs`usedBlocks, blockfs`view, blockfs.disk
      ensures Valid() && |blockfs.disk.sectors| == old(|blockfs.disk.sectors|)
      ensures OutsideKept(blockfs.available, blockfs.geo, old(blockfs.disk.Bytes()), blockfs.disk.Bytes())
      ensures done == if ok then |buf| else 0
      ensures WriteStep(old(State()), State(), id, off, buf, ok, blockfs.available)
      ensures ok <==> Accepted(old(State()), id, off + |buf|, heapOk, blockfs.available)
      ensures id in nodes && (!nodes[id].diskBacked ==>
        Capacity(nodes[id]) == NewCapacity(old(nodes[id]), off + |buf|, ok))
    {
      if !nodes[id].diskBacked && Capacity(nodes[id]) == 0 && blockfs.available {
        PromoteNode(id);
      }
      if nodes[id].diskBacked {
        done, ok := DiskfileWrite(id, off, buf, heapOk);
      } else {
        ok := RamfileWrite(id, off, buf, heapOk, heapBytes);
        done := if ok then |buf| else 0;
      }
    }

    method PromoteNode(id: nat)
      requires Valid() && id in nodes && !nodes[id].diskBacked && Capacity(nodes[id]) == 0
      modifies this`nodes
      ensures Valid() && nodes == old(nodes)[id := old(nodes[id]).(diskBacked := true)]
    {
      ghost var fs := State();
      nodes := nodes[id := nodes[id].(diskBacked := true)];
      StepOwnership(fs, PromoteOp(id), State());
    }

    method RamfileWrite(id: nat, off: u32, buf: seq<byte>, heapOk: bool, heapBytes: seq<byte>) returns (ok: bool)
      requires Valid() && id in nodes && !nodes[id].diskBacked
      requires off + |buf| < U32_LIMIT && |heapBytes| == off + |buf| + 64
      modifies this`nodes
      ensures Valid() && RamWrite(old(State()), State(), id, off, buf, ok)
      ensures ok <==> GoesToRam(old(nodes[id]), off + |buf|, heapOk)
      ensures id in nodes && Capacity(nodes[id]) == NewCapacity(old(nodes[id]), off + |buf|, ok)
    {
      ghost var fs := State();
      var n := nodes[id];
      var needed := off + |buf|;
      var data := n.data;
      if needed > Capacity(n) {
        if !heapOk { return false; }
        data := Some(RamBytes(n) + heapBytes[Capacity(n)..]);
      }
      if data.Some? {
        RamStored(RamBytes(n), data.value, off, buf);
        data := Some(Splice(data.value, off, buf));
      }
      nodes := nodes[id := n.(data := data, size := Max(n.size, needed))];
      ok := true;
      RamWritten(fs, State(), id, off, buf);
    }

    lemma RamStored(c: seq<byte>, data: seq<byte>, off: nat, buf: seq<byte>)
      requires c <= data && off + |buf| <= |data|
      ensures var r := Splice(data, off, buf);
        && |r| == |data| && r[off..off + |buf|] == buf
        && forall i :: 0 <= i < |c| && !(off <= i < off + |buf|) ==> r[i] == c[i]
    {
    }

    lemma RamWritten(fs: Fs, fs': Fs, id: nat, off: u32, buf: seq<byte>)
      requires OwnershipInv(fs) && id in fs.nodes && !fs.nodes[id].diskBacked && RamWrite(fs, fs', id, off, buf, true)
      ensures OwnershipInv(fs')
    {
      StepOwnership(fs, RamWriteOp(id, off, buf, true), fs');
    }

    /** `ramfs_create_node` below a parent. */
    method CreateNode(parent: nat, name: seq<byte>, kind: u32, heapOk: bool) returns (r: Option<nat>)
      requires blockfs.Valid() && parent in nodes
      modifies this`nodes, this`next
      ensures blockfs.Valid() && (old(Valid()) ==> Valid())
      ensures r == if |old(nodes[parent]).children| >= 256 || !heapOk then None else Some(old(next))
      ensures r.None? ==> State() == old(State())
      ensures r.Some? ==> r.value in nodes && nodes[r.value] == Blank(Some(parent), StoredName(name), kind)
      ensures r.Some? ==> Create(old(State()), State(), parent, name, kind)
    {
      if |nodes[parent].children| >= VFS_MAX_CHILDREN || !heapOk { return None; }
      ghost var fs := State();
      r := Some(next);
      nodes := nodes[parent := nodes[parent].(children := nodes[parent].children + [next])]
                    [next := FreshNode(Some(parent), name, kind)];
      next := next + 1;
      if OwnershipInv(fs) { CreateOwnership(fs, State(), parent, name, kind); }
    }

    /** `ramfs_remove_node`; `i` is the index at which the parent lists the node. A system that came up
        without block storage removes nodes too, and gives back nothing. */
    method RemoveNode(id: nat) returns (rc: int, ghost i: nat)
      requires blockfs.Valid() && id in nodes && (blockfs.available ==> Valid())
      requires nodes[id].parent.Some? ==> nodes[id].parent.value in nodes && nodes[id].parent.value != id
      modifies this`nodes, blockfs`bitmap, blockfs`usedBlocks, blockfs`view
      ensures blockfs.Valid() && (old(Valid()) ==> Valid())
      ensures rc == 0 ==> Unlinked(old(Nodes()), Nodes(), id, i)
      ensures rc == 0 && old(Valid()) ==> Remove(old(State()), State(), id, i)
      ensures rc != 0 ==> State() == old(State())
      ensures rc == RemoveCode(old(nodes), id)
    {
      i := 0;
      if nodes[id].parent.None? { return -1, i; }
      if nodes[id].kind == VFS_DIRECTORY && |nodes[id].children| > 0 { return -2, i; }
      var p := nodes[id].parent.value;
      var kids := nodes[p].children;
      var idx := FindChild(kids, id);
      if idx == |kids| { return -1, i; }
      i := idx;
      ghost var fs := State();
      kids := ShiftOut(kids, idx);
      ReleaseBlocks(BlockList(nodes[id]), id);
      nodes := nodes[p := nodes[p].(children := kids)] - {id};
      if OwnershipInv(fs) { RemoveOwnership(fs, State(), id, i); }
      rc := 0;
    }

    /** The loop of `ramfs_remove_node` that frees the blocks of a node. */
    method ReleaseBlocks(blocks: seq<u32>, ghost id: nat)
      requires blockfs.Valid() && id in nodes && blocks == BlockList(nodes[id])
      requires blockfs.available ==> NodeOk(nodes[id], View().used)
      modifies blockfs`bitmap, blockfs`usedBlocks, blockfs`view
      ensures blockfs.Valid() && (old(NodeOk(nodes[id], View().used)) ==> Released(old(View()), View(), blocks))
    {
      ghost var s := View();
      ghost var owned := NodeOk(nodes[id], s.used);
      var k := 0;
      while k < |blocks|
        invariant 0 <= k <= |blocks| && blockfs.Valid()
        invariant owned ==> Released(s, View(), blocks[..k])
      {
        if owned {
          assert blocks[k] < |s.used|;
          ReleasedNext(s, View(), blocks, k);
        }
        blockfs.Free(blocks[k]);
        k := k + 1;
      }
      assert blocks[..k] == blocks;
    }
  }

  method FindChild(kids: seq<nat>, id: nat) returns (idx: nat)
    ensures idx <= |kids| && id !in kids[..idx]
    ensures idx < |kids| ==> kids[idx] == id
  {
    idx := 0;
    while idx < |kids| && kids[idx] != id
      invariant 0 <= idx <= |kids| && id !in kids[..idx]
    {
      idx := idx + 1;
    }
  }

  /** The shift loop of `ramfs_remove_node`. */
  method ShiftOut(kids: seq<nat>, idx: nat) returns (r: seq<nat>)
    requires idx < |kids|
    ensures r == Without(kids, idx)
  {
    r := kids;
    var i := idx;
    while i + 1 < |r|
      invariant |r| == |kids| && idx <= i < |r|
      invariant r[..i] == Without(kids, idx)[..i] && r[i + 1..] == kids[i + 1..]
    {
      r := r[i := r[i + 1]];
      i := i + 1;
    }
    r := r[..|r| - 1];
  }

  lemma ReleasedNext(s: Store, s': Store, blocks: seq<u32>, k: nat)
    requires k < |blocks| && Released(s, s', blocks[..k]) && NoDup(blocks) && InRange(blocks, |s.used|)
    requires s.used[blocks[k]]
    ensures Released(s, s'.(used := s'.used[blocks[k] := false]), blocks[..k + 1])
  {
    assert blocks[..k + 1] == blocks[..k] + [blocks[k]];
    assert blocks[k] !in blocks[..k];
    CountUpdate(s'.used, blocks[k], false);
  }

  /** `ramfs_write`: an optional promotion to disk, then one write. */
  ghost predicate WriteStep(fs: Fs, fs': Fs, id: nat, off: nat, buf: seq<byte>, ok: bool, available: bool) {
    && id in fs.nodes
    && var n := fs.nodes[id];
    if n.diskBacked then DiskWrite(fs, fs', id, off, buf, ok)
    else if Capacity(n) == 0 && available then
      DiskWrite(fs.(nodes := fs.nodes[id := n.(diskBacked := true)]), fs', id, off, buf, ok)
    else RamWrite(fs, fs', id, off, buf, ok)
  }

  /** The part of `ramfs_read` for a file in RAM. */
  method ReadBuffer(data: seq<byte>, length: nat, off: nat, size: nat) returns (buf: seq<byte>)
    requires length <= |data|
    ensures buf == Clip(data[..length], off, size)
  {
    if off >= length { return []; }
    var size := if size > length - off then length - off else size;
    ReadVisible(data, length, off, size);
    buf := data[off..off + size];
  }

  /** The bytes that a node holds and `ramfs_read` can return, whatever its type. */
  ghost function Contents(n: Node, store: Store): (r: seq<byte>)
    requires store.Valid() && NodeOk(n, store.used)
    ensures n.kind == VFS_FILE ==> r == FileBytes(n, store)
  {
    if n.diskBacked then Content(store.data, BlockList(n))[..Min(n.size, BLOCK_SIZE * |BlockList(n)|)]
    else RamBytes(n)[..Min(n.size, Capacity(n))]
  }

  lemma SpanVisible(c: seq<byte>, size: nat, off: nat, n: nat, buf: seq<byte>)
    requires off < size && |buf| == if off < |c| then Min(Min(n, size - off), |c| - off) else 0
    requires |buf| > 0 ==> buf == c[off..off + |buf|]
    ensures buf == Clip(c[..Min(size, |c|)], off, n)
  {
  }

  /** What a read of `size` bytes at `off` returns of a flat file. */
  function Clip(f: seq<byte>, off: nat, size: nat): (r: seq<byte>)
    ensures |f| <= off ==> r == []
    ensures off <= |f| ==> off + |r| <= |f| && r == f[off..off + |r|]
    ensures off <= |f| ==> |r| <= size && (|r| == size || off + |r| == |f|)
  {
    if off >= |f| then [] else f[off..Min(off + size, |f|)]
  }

  lemma ReadVisible(c: seq<byte>, size: nat, off: nat, n: nat)
    requires off < size <= |c| && n <= size - off
    ensures c[..size][off..off + n] == c[off..off + n]
  {
  }
}
