/** The node heap of the virtual file system and what each ramfs operation does to it. A
    `vfs_node_t *` is a number; a `kmalloc`ed node gets a number never used before. */
module FileState {
  import opened Bytes
  import opened Layout
  import opened Bitmap
  import opened BlockStore
  import opened BlockFile

  const VFS_FILE: u32 := 1
  const VFS_DIRECTORY: u32 := 2
  const VFS_DEVICE: u32 := 4
  const VFS_NAME_MAX: nat := 64
  const VFS_MAX_CHILDREN: nat := 256
  const ROOT: nat := 0

  /** `vfs_node_t`. A NULL pointer is `None`; `capacity` is the length of the buffer. */
  datatype Node = Node(
    name: seq<byte>, kind: u32, perms: u32, uid: u32, gid: u32, size: u32,
    parent: Option<nat>, children: seq<nat>,
    data: Option<seq<byte>>, blocks: Option<seq<u32>>, diskBacked: bool)

  datatype Fs = Fs(nodes: map<nat, Node>, next: nat, store: Store)

  function BlockList(n: Node): seq<u32> {
    if n.blocks.Some? then n.blocks.value else []
  }

  /** The RAM buffer; a NULL buffer has capacity 0. */
  function RamBytes(n: Node): seq<byte> {
    if n.data.Some? then n.data.value else []
  }

  function Capacity(n: Node): nat {
    |RamBytes(n)|
  }

  function Max(a: int, b: int): int {
    if a >= b then a else b
  }

  // ---- ownership of blocks ----

  /** A node uses one kind of storage at a time. */
  predicate NodeSound(n: Node) {
    && (n.blocks.Some? ==> n.diskBacked)
    && (n.data.Some? ==> !n.diskBacked && n.data.value != [])
  }

  ghost predicate NodeOk(n: Node, used: seq<bool>) {
    && NodeSound(n)
    && InRange(BlockList(n), |used|)
    && NoDup(BlockList(n))
    && (forall i :: 0 <= i < |BlockList(n)| ==> used[BlockList(n)[i]])
    && (n.kind == VFS_FILE ==> n.size <= if n.diskBacked then BLOCK_SIZE * |BlockList(n)| else Capacity(n))
  }

  ghost predicate Apart(m: Node, n: Node) {
    forall b: u32 :: b in BlockList(m) ==> b !in BlockList(n)
  }

  ghost predicate Owned(nodes: map<nat, Node>, b: u32) {
    exists id :: id in nodes && b in BlockList(nodes[id])
  }

  /** Total length of the block lists of the live nodes below number `n`. */
  ghost function SumTo(nodes: map<nat, Node>, n: nat): nat {
    if n == 0 then 0 else SumTo(nodes, n - 1) + (if n - 1 in nodes then |BlockList(nodes[n - 1])| else 0)
  }

  /** The set bits are exactly the disjoint union of the live nodes' block lists. */
  ghost predicate OwnershipInv(fs: Fs) {
    && fs.store.Valid()
    && (forall id :: id in fs.nodes ==> id < fs.next && NodeOk(fs.nodes[id], fs.store.used))
    && (forall id, jd :: id in fs.nodes && jd in fs.nodes && id != jd ==> Apart(fs.nodes[id], fs.nodes[jd]))
    && (forall b: u32 :: b < |fs.store.used| && fs.store.used[b] ==> Owned(fs.nodes, b))
    && Count(fs.store.used) == SumTo(fs.nodes, fs.next)
  }

  lemma {:induction false} SumUpdate(nodes: map<nat, Node>, id: nat, n: Node, k: nat)
    requires id in nodes && id < k
    ensures SumTo(nodes[id := n], k) == SumTo(nodes, k) + |BlockList(n)| - |BlockList(nodes[id])|
  {
    if id < k - 1 {
      SumUpdate(nodes, id, n, k - 1);
    } else {
      SumFrame(nodes, nodes[id := n], k - 1);
    }
  }

  lemma {:induction false} SumFrame(nodes: map<nat, Node>, nodes': map<nat, Node>, k: nat)
    requires forall id :: id < k ==> (id in nodes <==> id in nodes')
    requires forall id :: id < k && id in nodes ==> BlockList(nodes[id]) == BlockList(nodes'[id])
    ensures SumTo(nodes', k) == SumTo(nodes, k)
  {
    if k > 0 {
      SumFrame(nodes, nodes', k - 1);
    }
  }

  lemma {:induction false} SumRemove(nodes: map<nat, Node>, id: nat, k: nat)
    requires id in nodes && id < k
    ensures SumTo(nodes - {id}, k) == SumTo(nodes, k) - |BlockList(nodes[id])|
  {
    if id < k - 1 {
      SumRemove(nodes, id, k - 1);
    } else {
      SumFrame(nodes, nodes - {id}, k - 1);
    }
  }

  // ---- file contents ----

  /** The bytes that `ramfs_read` can return. */
  ghost function FileBytes(n: Node, store: Store): (r: seq<byte>)
    requires store.Valid() && NodeOk(n, store.used) && n.kind == VFS_FILE
    ensures |r| == n.size
  {
    if n.diskBacked then Content(store.data, BlockList(n))[..n.size]
    else if n.data.Some? then n.data.value[..n.size]
    else []
  }

  /** A POSIX-style write to a flat byte array, at or before its end. */
  ghost function FlatWrite(f: seq<byte>, off: nat, buf: seq<byte>): (r: seq<byte>)
    requires off <= |f|
    ensures |r| == Max(|f|, off + |buf|)
  {
    f[..off] + buf + (if off + |buf| < |f| then f[off + |buf|..] else [])
  }

  /** `diskfile_write`. It fails as a whole: on failure the file may own more (zeroed) blocks,
      but its bytes and size are as before. */
  ghost predicate DiskWrite(fs: Fs, fs': Fs, id: nat, off: nat, buf: seq<byte>, ok: bool) {
    && id in fs.nodes && id in fs'.nodes
    && fs.store.Valid() && fs'.store.Valid() && |fs'.store.used| == |fs.store.used|
    && var n, n' := fs.nodes[id], fs'.nodes[id];
    && fs'.next == fs.next && fs'.nodes == fs.nodes[id := n']
    && (n.blocks.Some? ==> n'.blocks.Some?)
    && n' == n.(blocks := n'.blocks, size := n'.size)
    && n'.size == (if ok then Max(n.size, off + |buf|) else n.size)
    && BlocksWritten(fs.store, BlockList(n), fs'.store, BlockList(n'), off, buf, ok)
  }

  /** The store half of `diskfile_write`. */
  ghost predicate BlocksWritten(s: Store, b: seq<u32>, s': Store, b': seq<u32>, off: nat, buf: seq<byte>, ok: bool)
    requires s.Valid() && s'.Valid() && |s'.used| == |s.used|
  {
    && InRange(b, |s.used|) && InRange(b', |s.used|)
    && Taken(s.used, b, s'.used, b')
    && (forall x: u32 :: x < |s.data| && x !in b' ==> s'.data[x] == s.data[x])
    && var grown := Content(s.data, b) + Zeros(BLOCK_SIZE * (|b'| - |b|));
    if ok then off + |buf| <= BLOCK_SIZE * |b'| && Content(s'.data, b') == Splice(grown, off, buf)
    else Content(s'.data, b') == grown
  }

  // ---- what a disk-backed write means ----

  lemma {:induction false} TakenInRange(fs: Fs, id: nat, used': seq<bool>, b': seq<u32>)
    requires OwnershipInv(fs) && id in fs.nodes
    requires Taken(fs.store.used, BlockList(fs.nodes[id]), used', b')
    ensures NoDup(b') && InRange(b', |used'|) && forall i :: 0 <= i < |b'| ==> used'[b'[i]]
    ensures forall jd, x :: jd in fs.nodes && jd != id && x in BlockList(fs.nodes[jd]) ==> x !in b' && used'[x]
  {
    var b := BlockList(fs.nodes[id]);
    var added := b'[|b|..];
    assert forall k :: 0 <= k < |added| ==> added[k] == b'[|b| + k];
    assert forall k :: 0 <= k < |b| ==> b'[k] == b[k];
    assert forall k :: 0 <= k < |b| ==> b[k] !in added;
    forall jd, x | jd in fs.nodes && jd != id && x in BlockList(fs.nodes[jd])
      ensures x !in b' && used'[x]
    {
      assert Apart(fs.nodes[jd], fs.nodes[id]);
      assert NodeOk(fs.nodes[jd], fs.store.used);
      assert fs.store.used[x] && x !in added;
    }
  }

  lemma TakenOwned(nodes: map<nat, Node>, id: nat, n': Node, used: seq<bool>, used': seq<bool>, x: u32)
    requires id in nodes && Taken(used, BlockList(nodes[id]), used', BlockList(n'))
    requires x < |used'| && used'[x] && (used[x] ==> Owned(nodes, x))
    ensures Owned(nodes[id := n'], x)
  {
    var nodes' := nodes[id := n'];
    var b, b' := BlockList(nodes[id]), BlockList(n');
    if x in b' {
      assert id in nodes' && x in BlockList(nodes'[id]);
    } else {
      assert x !in b'[|b|..];
      var jd :| jd in nodes && x in BlockList(nodes[jd]);
      assert jd != id by {
        assert forall k :: 0 <= k < |b| ==> b'[k] == b[k];
      }
      assert jd in nodes' && x in BlockList(nodes'[jd]);
    }
  }

  /** A write keeps the ownership of blocks, also when the disk fills up half-way. */
  lemma {:induction false} DiskWriteOwnership(fs: Fs, fs': Fs, id: nat, off: nat, buf: seq<byte>, ok: bool)
    requires OwnershipInv(fs) && DiskWrite(fs, fs', id, off, buf, ok) && fs.nodes[id].diskBacked
    ensures OwnershipInv(fs')
  {
    var n, n' := fs.nodes[id], fs'.nodes[id];
    var b, b' := BlockList(n), BlockList(n');
    var used, used' := fs.store.used, fs'.store.used;
    TakenInRange(fs, id, used', b');
    forall jd | jd in fs'.nodes ensures jd < fs'.next && NodeOk(fs'.nodes[jd], used') {
      assert NodeOk(fs.nodes[jd], used);
    }
    forall jd, kd | jd in fs'.nodes && kd in fs'.nodes && jd != kd
      ensures Apart(fs'.nodes[jd], fs'.nodes[kd])
    {
      assert Apart(fs.nodes[jd], fs.nodes[kd]);
    }
    forall x: u32 | x < |used'| && used'[x] ensures Owned(fs'.nodes, x) {
      TakenOwned(fs.nodes, id, n', used, used', x);
    }
    SumUpdate(fs.nodes, id, n', fs.next);
  }

  /** The blocks of no other node change. */
  lemma BlocksSeparate(fs: Fs, fs': Fs, id: nat, off: nat, buf: seq<byte>, ok: bool, jd: nat)
    requires OwnershipInv(fs) && DiskWrite(fs, fs', id, off, buf, ok) && jd in fs.nodes && jd != id
    ensures var list := BlockList(fs.nodes[jd]);
      && InRange(list, |fs.store.data|) && InRange(list, |fs'.store.data|)
      && Content(fs'.store.data, list) == Content(fs.store.data, list)
  {
    var b := BlockList(fs.nodes[jd]);
    TakenInRange(fs, id, fs'.store.used, BlockList(fs'.nodes[id]));
    assert NodeOk(fs.nodes[jd], fs.store.used);
    forall i | 0 <= i < |b| ensures fs'.store.data[b[i]] == fs.store.data[b[i]] {
      assert b[i] in b;
    }
    ContentFrame(fs.store.data, fs'.store.data, b);
  }

  /** No other file changes. */
  lemma {:induction false} DiskWriteSeparation(fs: Fs, fs': Fs, id: nat, off: nat, buf: seq<byte>, ok: bool, jd: nat)
    requires OwnershipInv(fs) && DiskWrite(fs, fs', id, off, buf, ok) && fs.nodes[id].diskBacked
    requires jd in fs.nodes && jd != id && fs.nodes[jd].kind == VFS_FILE
    ensures jd in fs'.nodes && fs'.nodes[jd] == fs.nodes[jd] && NodeOk(fs'.nodes[jd], fs'.store.used)
    ensures FileBytes(fs'.nodes[jd], fs'.store) == FileBytes(fs.nodes[jd], fs.store)
  {
    DiskWriteOwnership(fs, fs', id, off, buf, ok);
    BlocksSeparate(fs, fs', id, off, buf, ok, jd);
    assert NodeOk(fs.nodes[jd], fs.store.used);
  }

  /** What lies between the end of a file and an offset behind it, when the capacity has the bytes
      `c`: whatever the blocks hold, then zeros. */
  ghost function Gap(c: seq<byte>, size: nat, off: nat): (r: seq<byte>)
    requires size <= |c| && size <= off
    ensures |r| == off - size
  {
    if off <= |c| then c[size..off] else c[size..] + Zeros(off - |c|)
  }

  /** The file itself is rewritten like a flat byte array, and a failed write is invisible. A write
      behind the end brings the bytes in the gap with it. */
  lemma {:induction false} DiskWriteRefines(fs: Fs, fs': Fs, id: nat, off: nat, buf: seq<byte>, ok: bool)
    requires OwnershipInv(fs) && DiskWrite(fs, fs', id, off, buf, ok)
    requires fs.nodes[id].diskBacked && fs.nodes[id].kind == VFS_FILE
    ensures NodeOk(fs'.nodes[id], fs'.store.used)
    ensures !ok ==> FileBytes(fs'.nodes[id], fs'.store) == FileBytes(fs.nodes[id], fs.store)
    ensures ok && off <= fs.nodes[id].size ==>
      FileBytes(fs'.nodes[id], fs'.store) == FlatWrite(FileBytes(fs.nodes[id], fs.store), off, buf)
    ensures ok && off > fs.nodes[id].size ==>
      FileBytes(fs'.nodes[id], fs'.store) == FileBytes(fs.nodes[id], fs.store)
        + Gap(Content(fs.store.data, BlockList(fs.nodes[id])), fs.nodes[id].size, off) + buf
  {
    var n, n' := fs.nodes[id], fs'.nodes[id];
    assert NodeOk(n, fs.store.used);
    assert NodeOk(n', fs'.store.used) by { DiskWriteOwnership(fs, fs', id, off, buf, ok); }
    var c, c' := Content(fs.store.data, BlockList(n)), Content(fs'.store.data, BlockList(n'));
    var grown := c + Zeros(BLOCK_SIZE * (|BlockList(n')| - |BlockList(n)|));
    assert FileBytes(n, fs.store) == c[..n.size] && FileBytes(n', fs'.store) == c'[..n'.size];
    if ok {
      assert c' == Splice(grown, off, buf);
      WriteVisible(c, grown, c', n.size, off, buf);
    } else {
      assert c' == grown && grown[..n.size] == c[..n.size];
    }
  }

  lemma {:induction false} WriteVisible(c: seq<byte>, grown: seq<byte>, c': seq<byte>, size: nat, off: nat,
                                        buf: seq<byte>)
    requires size <= |c| <= |grown| && grown == c + Zeros(|grown| - |c|)
    requires off + |buf| <= |grown| && c' == Splice(grown, off, buf)
    ensures off <= size ==> c'[..Max(size, off + |buf|)] == FlatWrite(c[..size], off, buf)
    ensures off > size ==> c'[..off + |buf|] == c[..size] + Gap(c, size, off) + buf
  {
    var m := Max(size, off + |buf|);
    var v := c'[..m];
    if off <= size {
      var f := FlatWrite(c[..size], off, buf);
      forall i | 0 <= i < m ensures v[i] == f[i] {
      }
    } else {
      GapVisible(c, grown, size, off);
      assert v == grown[..off] + buf;
    }
  }

  lemma GapVisible(c: seq<byte>, grown: seq<byte>, size: nat, off: nat)
    requires size <= |c| <= |grown| && grown == c + Zeros(|grown| - |c|) && size <= off <= |grown|
    ensures grown[..off] == c[..size] + Gap(c, size, off)
  {
  }

  /** A write behind the end is the write of a flat file with zeros in the gap if and only if the
      kept capacity holds zeros there; in particular if no capacity lies behind the end. */
  lemma GapIsZero(c: seq<byte>, size: nat, off: nat, buf: seq<byte>)
    requires size <= |c| && size <= off
    ensures c[..size] + Gap(c, size, off) + buf == c[..size] + Zeros(off - size) + buf
       <==> forall i :: size <= i < Min(off, |c|) ==> c[i] == 0
  {
    var g, z := Gap(c, size, off), Zeros(off - size);
    var x, y := c[..size] + g + buf, c[..size] + z + buf;
    if x == y {
      forall i | size <= i < Min(off, |c|) ensures c[i] == 0 {
        assert x[i] == g[i - size] == c[i] && y[i] == z[i - size];
      }
    }
    if forall i :: size <= i < Min(off, |c|) ==> c[i] == 0 {
      assert g == z;
    }
  }

  /** Truncation hides bytes only until the next write behind the new end. */
  lemma TruncatedBytesReturn(fs: Fs, cut: Fs, fs': Fs, id: nat, off: nat, buf: seq<byte>)
    requires OwnershipInv(fs) && Truncate(fs, cut, id) && DiskWrite(cut, fs', id, off, buf, true)
    requires fs.nodes[id].diskBacked && fs.nodes[id].kind == VFS_FILE && 0 < off <= fs.nodes[id].size
    ensures NodeOk(fs'.nodes[id], fs'.store.used)
    ensures FileBytes(fs'.nodes[id], fs'.store) == FileBytes(fs.nodes[id], fs.store)[..off] + buf
  {
    var n := fs.nodes[id];
    assert NodeOk(n, fs.store.used);
    assert OwnershipInv(cut) by { SameBlocksOwnership(fs, id, cut.nodes[id]); }
    DiskWriteRefines(cut, fs', id, off, buf, true);
    GapBelow(Content(fs.store.data, BlockList(n)), n.size, off, buf);
  }

  lemma GapBelow(c: seq<byte>, size: nat, off: nat, buf: seq<byte>)
    requires off <= size <= |c|
    ensures c[..0] + Gap(c, 0, off) + buf == c[..size][..off] + buf
  {
    assert c[..0] + Gap(c, 0, off) == c[..size][..off];
  }

  // ---- the other operations ----

  /** `ramfs_write` on a file kept in RAM; bytes that `krealloc` adds are arbitrary. */
  ghost predicate RamWrite(fs: Fs, fs': Fs, id: nat, off: nat, buf: seq<byte>, ok: bool) {
    if !ok then fs' == fs else
    && id in fs.nodes && id in fs'.nodes
    && var n, n' := fs.nodes[id], fs'.nodes[id];
    && fs' == fs.(nodes := fs.nodes[id := n'])
    && Capacity(n) <= Capacity(n') && off + |buf| <= Capacity(n')
    && n' == n.(data := n'.data, size := n'.size)
    && (n'.data.Some? ==> n'.data.value != [])
    && n'.size == Max(n.size, off + |buf|)
    && RamBytes(n')[off..off + |buf|] == buf
    && (forall i :: 0 <= i < Capacity(n) && !(off <= i < off + |buf|) ==> RamBytes(n')[i] == RamBytes(n)[i])
  }

  /** First write to a file without RAM contents while block storage is available. */
  ghost predicate Promote(fs: Fs, fs': Fs, id: nat) {
    && id in fs.nodes && !fs.nodes[id].diskBacked && Capacity(fs.nodes[id]) == 0
    && fs' == fs.(nodes := fs.nodes[id := fs.nodes[id].(diskBacked := true)])
  }

  /** `O_TRUNC` and `SYS_WRITEFILE`: the size is reset, the blocks are kept. */
  ghost predicate Truncate(fs: Fs, fs': Fs, id: nat) {
    && id in fs.nodes
    && fs' == fs.(nodes := fs.nodes[id := fs.nodes[id].(size := 0)])
  }

  /** `vfs_chmod`, `vfs_chown`, and the owner and mode set after creation. */
  ghost predicate SetAttr(fs: Fs, fs': Fs, id: nat, perms: u32, uid: u32, gid: u32) {
    && id in fs.nodes
    && fs' == fs.(nodes := fs.nodes[id := fs.nodes[id].(perms := perms, uid := uid, gid := gid)])
  }

  /** `strncpy(node->name, name, VFS_NAME_MAX - 1)`. */
  function StoredName(name: seq<byte>): (r: seq<byte>)
    ensures |r| == Min(|name|, 63) && r <= name
    ensures r == name <==> |name| < VFS_NAME_MAX
  {
    if |name| < VFS_NAME_MAX then name else name[..VFS_NAME_MAX - 1]
  }

  function FreshNode(parent: Option<nat>, name: seq<byte>, kind: u32): Node {
    Node(StoredName(name), kind, if kind == VFS_DIRECTORY then 0x1ED else 0x1A4, 0, 0, 0, parent, [], None, None, false)
  }

  /** `ramfs_create_node` under an existing parent that has room. */
  ghost predicate Create(fs: Fs, fs': Fs, parent: nat, name: seq<byte>, kind: u32) {
    && parent in fs.nodes && |fs.nodes[parent].children| < VFS_MAX_CHILDREN
    && fs' == Fs(
         fs.nodes[parent := fs.nodes[parent].(children := fs.nodes[parent].children + [fs.next])]
                 [fs.next := FreshNode(Some(parent), name, kind)],
         fs.next + 1, fs.store)
  }

  function Without(s: seq<nat>, i: nat): (r: seq<nat>)
    requires i < |s|
  {
    s[..i] + s[i + 1..]
  }

  /** Blocks are given back; their contents stay on disk. */
  ghost predicate Released(s: Store, s': Store, blocks: seq<u32>) {
    && s'.data == s.data && |s'.used| == |s.used|
    && (forall b: u32 :: b < |s.used| ==> s'.used[b] == (s.used[b] && b !in blocks))
    && Count(s'.used) + |blocks| == Count(s.used)
  }

  /** The node half of `ramfs_remove_node`, on a node that its parent lists at index `i`. */
  ghost predicate Unlinked(fs: Fs, fs': Fs, id: nat, i: nat) {
    && id in fs.nodes && fs.nodes[id].parent.Some?
    && (fs.nodes[id].kind == VFS_DIRECTORY ==> fs.nodes[id].children == [])
    && var p := fs.nodes[id].parent.value;
    && p in fs.nodes && p != id && i < |fs.nodes[p].children| && fs.nodes[p].children[i] == id
    && fs'.next == fs.next
    && fs'.nodes == fs.nodes[p := fs.nodes[p].(children := Without(fs.nodes[p].children, i))] - {id}
  }

  /** `ramfs_remove_node`: the node goes, and its blocks are given back. */
  ghost predicate Remove(fs: Fs, fs': Fs, id: nat, i: nat) {
    Unlinked(fs, fs', id, i) && Released(fs.store, fs'.store, BlockList(fs.nodes[id]))
  }

  lemma OwnedMono(nodes: map<nat, Node>, nodes': map<nat, Node>, used: seq<bool>)
    requires forall id :: id in nodes ==> id in nodes' && BlockList(nodes'[id]) == BlockList(nodes[id])
    requires forall b: u32 :: b < |used| && used[b] ==> Owned(nodes, b)
    ensures forall b: u32 :: b < |used| && used[b] ==> Owned(nodes', b)
  {
    forall x: u32 | x < |used| && used[x] ensures Owned(nodes', x) {
      var jd :| jd in nodes && x in BlockList(nodes[jd]);
      assert jd in nodes' && x in BlockList(nodes'[jd]);
    }
  }

  /** Ownership sees only the block lists: nodes may change in every other respect. */
  lemma {:induction false} SameListsOwnership(fs: Fs, nodes': map<nat, Node>)
    requires OwnershipInv(fs) && nodes'.Keys == fs.nodes.Keys
    requires forall id :: id in nodes' ==>
      BlockList(nodes'[id]) == BlockList(fs.nodes[id]) && NodeOk(nodes'[id], fs.store.used)
    ensures OwnershipInv(fs.(nodes := nodes'))
  {
    forall jd, kd | jd in nodes' && kd in nodes' && jd != kd
      ensures Apart(nodes'[jd], nodes'[kd])
    {
      assert Apart(fs.nodes[jd], fs.nodes[kd]);
    }
    OwnedMono(fs.nodes, nodes', fs.store.used);
    SumFrame(fs.nodes, nodes', fs.next);
  }

  lemma SameBlocksOwnership(fs: Fs, id: nat, n': Node)
    requires OwnershipInv(fs) && id in fs.nodes
    requires BlockList(n') == BlockList(fs.nodes[id]) && NodeOk(n', fs.store.used)
    ensures OwnershipInv(fs.(nodes := fs.nodes[id := n']))
  {
    SameListsOwnership(fs, fs.nodes[id := n']);
  }

  lemma {:induction false} DropNodesOk(fs: Fs, id: nat, fs': Fs, jd: nat)
    requires OwnershipInv(fs) && id in fs.nodes && Released(fs.store, fs'.store, BlockList(fs.nodes[id]))
    requires jd in fs.nodes && jd != id
    ensures NodeOk(fs.nodes[jd], fs'.store.used)
  {
    assert NodeOk(fs.nodes[jd], fs.store.used) && Apart(fs.nodes[jd], fs.nodes[id]);
    var list := BlockList(fs.nodes[jd]);
    forall i | 0 <= i < |list| ensures fs'.store.used[list[i]] {
      assert list[i] in list;
    }
  }

  lemma {:induction false} DropOwned(nodes: map<nat, Node>, id: nat, x: u32)
    requires id in nodes && Owned(nodes, x) && x !in BlockList(nodes[id])
    ensures Owned(nodes - {id}, x)
  {
    var jd :| jd in nodes && x in BlockList(nodes[jd]);
    assert jd in nodes - {id} && x in BlockList((nodes - {id})[jd]);
  }

  lemma {:induction false} DropOwnership(fs: Fs, id: nat, fs': Fs)
    requires OwnershipInv(fs) && id in fs.nodes && Released(fs.store, fs'.store, BlockList(fs.nodes[id]))
    requires fs'.nodes == fs.nodes - {id} && fs'.next == fs.next
    ensures OwnershipInv(fs')
  {
    forall jd | jd in fs'.nodes ensures jd < fs'.next && NodeOk(fs'.nodes[jd], fs'.store.used) {
      DropNodesOk(fs, id, fs', jd);
    }
    forall jd, kd | jd in fs'.nodes && kd in fs'.nodes && jd != kd ensures Apart(fs'.nodes[jd], fs'.nodes[kd]) {
      assert Apart(fs.nodes[jd], fs.nodes[kd]);
    }
    forall x: u32 | x < |fs'.store.used| && fs'.store.used[x] ensures Owned(fs'.nodes, x) {
      DropOwned(fs.nodes, id, x);
    }
    SumRemove(fs.nodes, id, fs.next);
  }

  lemma RemoveOwnership(fs: Fs, fs': Fs, id: nat, i: nat)
    requires OwnershipInv(fs) && Remove(fs, fs', id, i)
    ensures OwnershipInv(fs')
  {
    var p := fs.nodes[id].parent.value;
    var unlinked := fs.nodes[p].(children := Without(fs.nodes[p].children, i));
    var mid := fs.(nodes := fs.nodes[p := unlinked]);
    assert OwnershipInv(mid) by {
      assert NodeOk(fs.nodes[p], fs.store.used);
      SameBlocksOwnership(fs, p, unlinked);
    }
    DropOwnership(mid, id, fs');
  }

  lemma AddNodesOk(fs: Fs, n: Node, nodes': map<nat, Node>)
    requires OwnershipInv(fs) && n.blocks.None? && n.data.None? && n.size == 0
    requires nodes' == fs.nodes[fs.next := n]
    ensures forall jd :: jd in nodes' ==> jd < fs.next + 1 && NodeOk(nodes'[jd], fs.store.used)
  {
    assert BlockList(n) == [];
    forall jd | jd in nodes' ensures jd < fs.next + 1 && NodeOk(nodes'[jd], fs.store.used) {
      assert jd != fs.next ==> NodeOk(fs.nodes[jd], fs.store.used);
    }
  }

  lemma {:induction false} AddOwnership(fs: Fs, n: Node, fs': Fs)
    requires OwnershipInv(fs) && n.blocks.None? && n.data.None? && n.size == 0
    requires fs' == Fs(fs.nodes[fs.next := n], fs.next + 1, fs.store)
    ensures OwnershipInv(fs')
  {
    AddNodesOk(fs, n, fs'.nodes);
    forall jd, kd | jd in fs'.nodes && kd in fs'.nodes && jd != kd ensures Apart(fs'.nodes[jd], fs'.nodes[kd]) {
      assert jd != fs.next && kd != fs.next ==> Apart(fs.nodes[jd], fs.nodes[kd]);
    }
    OwnedMono(fs.nodes, fs'.nodes, fs.store.used);
    SumFrame(fs.nodes, fs'.nodes, fs.next);
  }

  lemma CreateOwnership(fs: Fs, fs': Fs, parent: nat, name: seq<byte>, kind: u32)
    requires OwnershipInv(fs) && Create(fs, fs', parent, name, kind)
    ensures OwnershipInv(fs')
  {
    var linked := fs.nodes[parent].(children := fs.nodes[parent].children + [fs.next]);
    var mid := fs.(nodes := fs.nodes[parent := linked]);
    assert OwnershipInv(mid) by {
      assert NodeOk(fs.nodes[parent], fs.store.used);
      SameBlocksOwnership(fs, parent, linked);
    }
    AddOwnership(mid, FreshNode(Some(parent), name, kind), fs');
  }

  // ---- runs ----

  datatype Op =
    | DiskWriteOp(id: nat, off: nat, buf: seq<byte>, ok: bool)
    | RamWriteOp(id: nat, off: nat, buf: seq<byte>, ok: bool)
    | PromoteOp(id: nat)
    | TruncateOp(id: nat)
    | SetAttrOp(id: nat, perms: u32, uid: u32, gid: u32)
    | CreateOp(parent: nat, name: seq<byte>, kind: u32)
    | RemoveOp(id: nat, index: nat)

  ghost predicate Step(fs: Fs, op: Op, fs': Fs) {
    match op
    case DiskWriteOp(id, off, buf, ok) =>
      id in fs.nodes && fs.nodes[id].diskBacked && DiskWrite(fs, fs', id, off, buf, ok)
    case RamWriteOp(id, off, buf, ok) =>
      id in fs.nodes && !fs.nodes[id].diskBacked && RamWrite(fs, fs', id, off, buf, ok)
    case PromoteOp(id) => Promote(fs, fs', id)
    case TruncateOp(id) => Truncate(fs, fs', id)
    case SetAttrOp(id, perms, uid, gid) => SetAttr(fs, fs', id, perms, uid, gid)
    case CreateOp(parent, name, kind) => Create(fs, fs', parent, name, kind)
    case RemoveOp(id, i) => Remove(fs, fs', id, i)
  }

  lemma StepOwnership(fs: Fs, op: Op, fs': Fs)
    requires OwnershipInv(fs) && Step(fs, op, fs')
    ensures OwnershipInv(fs')
  {
    match op
    case DiskWriteOp(id, off, buf, ok) => DiskWriteOwnership(fs, fs', id, off, buf, ok);
    case RamWriteOp(id, off, buf, ok) =>
      if ok { SameBlocksOwnership(fs, id, fs'.nodes[id]); }
    case PromoteOp(id) => SameBlocksOwnership(fs, id, fs'.nodes[id]);
    case TruncateOp(id) => SameBlocksOwnership(fs, id, fs'.nodes[id]);
    case SetAttrOp(id, _, _, _) => SameBlocksOwnership(fs, id, fs'.nodes[id]);
    case CreateOp(parent, name, kind) => CreateOwnership(fs, fs', parent, name, kind);
    case RemoveOp(id, i) => RemoveOwnership(fs, fs', id, i);
  }

  ghost predicate IsRun(run: seq<Fs>, ops: seq<Op>) {
    && |run| == |ops| + 1
    && forall i :: 0 <= i < |ops| ==> Step(run[i], ops[i], run[i + 1])
  }

  /** A freshly booted tree: a root directory, and no block taken. */
  ghost predicate Fresh(fs: Fs) {
    && fs.store.Valid() && (forall b :: 0 <= b < |fs.store.used| ==> !fs.store.used[b])
    && fs.nodes == map[ROOT := FreshNode(None, [47], VFS_DIRECTORY)] && fs.next == 1
  }

  lemma {:induction false} CountNone(used: seq<bool>)
    requires forall b :: 0 <= b < |used| ==> !used[b]
    ensures Count(used) == 0
  {
    if used != [] {
      CountNone(used[..|used| - 1]);
    }
  }

  lemma FreshOwnership(fs: Fs)
    requires Fresh(fs)
    ensures OwnershipInv(fs)
  {
    CountNone(fs.store.used);
    assert SumTo(fs.nodes, 1) == SumTo(fs.nodes, 0);
  }

  /** Block ownership is conserved over every run, at every point of the run. */
  lemma {:induction false} RunOwnership(run: seq<Fs>, ops: seq<Op>, i: nat)
    requires IsRun(run, ops) && i < |run| && OwnershipInv(run[0])
    ensures OwnershipInv(run[i])
  {
    if i > 0 {
      RunOwnership(run, ops, i - 1);
      var a, op, b := run[i - 1], ops[i - 1], run[i];
      assert Step(a, op, b);
      StepOwnership(a, op, b);
    }
  }

  // ---- files that are never truncated ----

  /** Behind its end a disk-backed file holds zeros. */
  ghost predicate ZeroTail(n: Node, store: Store) {
    n.kind == VFS_FILE && n.diskBacked ==>
      InRange(BlockList(n), |store.data|) && ZeroFrom(Content(store.data, BlockList(n)), n.size)
  }

  predicate ZeroFrom(c: seq<byte>, size: nat) {
    forall i :: size <= i < |c| ==> c[i] == 0
  }

  lemma WriteZeroTail(c: seq<byte>, size: nat, grow: nat, c': seq<byte>, off: nat, buf: seq<byte>, ok: bool)
    requires ZeroFrom(c, size) && (ok ==> off + |buf| <= |c| + grow)
    requires c' == if ok then Splice(c + Zeros(grow), off, buf) else c + Zeros(grow)
    ensures ZeroFrom(c', if ok then Max(size, off + |buf|) else size)
  {
  }

  /** A step other than a truncation keeps the zeros. */
  lemma StepZeroTail(fs: Fs, op: Op, fs': Fs, id: nat)
    requires OwnershipInv(fs) && Step(fs, op, fs') && op != TruncateOp(id)
    requires id in fs'.nodes && (id in fs.nodes ==> ZeroTail(fs.nodes[id], fs.store))
    ensures ZeroTail(fs'.nodes[id], fs'.store)
  {
    match op
    case DiskWriteOp(jd, off, buf, ok) =>
      if jd == id {
        OwnTail(fs, fs', id, off, buf, ok);
      } else {
        BlocksSeparate(fs, fs', jd, off, buf, ok, id);
      }
    case CreateOp(_, _, _) =>
    case RemoveOp(_, _) =>
    case _ => NodeTail(fs, op, fs', id);
  }

  lemma OwnTail(fs: Fs, fs': Fs, id: nat, off: nat, buf: seq<byte>, ok: bool)
    requires OwnershipInv(fs) && DiskWrite(fs, fs', id, off, buf, ok) && ZeroTail(fs.nodes[id], fs.store)
    ensures ZeroTail(fs'.nodes[id], fs'.store)
  {
    var n, n' := fs.nodes[id], fs'.nodes[id];
    assert NodeOk(n, fs.store.used);
    if n.kind == VFS_FILE && n.diskBacked {
      BlocksTail(fs.store, BlockList(n), fs'.store, BlockList(n'), n.size, off, buf, ok);
    }
  }

  lemma BlocksTail(s: Store, b: seq<u32>, s': Store, b': seq<u32>, size: nat, off: nat, buf: seq<byte>, ok: bool)
    requires s.Valid() && s'.Valid() && |s'.used| == |s.used| && BlocksWritten(s, b, s', b', off, buf, ok)
    requires ZeroFrom(Content(s.data, b), size)
    ensures ZeroFrom(Content(s'.data, b'), if ok then Max(size, off + |buf|) else size)
  {
    WriteZeroTail(Content(s.data, b), size, BLOCK_SIZE * (|b'| - |b|), Content(s'.data, b'), off, buf, ok);
  }

  lemma NodeTail(fs: Fs, op: Op, fs': Fs, id: nat)
    requires OwnershipInv(fs) && Step(fs, op, fs') && op != TruncateOp(id)
    requires op.RamWriteOp? || op.PromoteOp? || op.SetAttrOp? || op.TruncateOp?
    requires id in fs.nodes && ZeroTail(fs.nodes[id], fs.store)
    ensures id in fs'.nodes && ZeroTail(fs'.nodes[id], fs'.store)
  {
    assert NodeOk(fs.nodes[id], fs.store.used);
  }

  /** In every state of every run a file that was not truncated holds zeros behind its end. */
  lemma {:induction false} RunZeroTail(run: seq<Fs>, ops: seq<Op>, i: nat, id: nat)
    requires IsRun(run, ops) && i < |run| && Fresh(run[0])
    requires id in run[i].nodes && forall k :: 0 <= k < i ==> ops[k] != TruncateOp(id)
    ensures ZeroTail(run[i].nodes[id], run[i].store)
  {
    if i > 0 {
      FreshOwnership(run[0]);
      RunOwnership(run, ops, i - 1);
      assert Step(run[i - 1], ops[i - 1], run[i]);
      if id in run[i - 1].nodes { RunZeroTail(run, ops, i - 1, id); }
      StepZeroTail(run[i - 1], ops[i - 1], run[i], id);
    }
  }

  /** So a write behind its end is the write of a flat file, with zeros in the gap. */
  lemma RunGapIsZero(run: seq<Fs>, ops: seq<Op>, i: nat, id: nat, off: nat, buf: seq<byte>)
    requires IsRun(run, ops) && i < |ops| && Fresh(run[0]) && ops[i] == DiskWriteOp(id, off, buf, true)
    requires id in run[i].nodes && run[i].nodes[id].kind == VFS_FILE && run[i].nodes[id].size < off
    requires forall k :: 0 <= k < i ==> ops[k] != TruncateOp(id)
    ensures run[i].store.Valid() && NodeOk(run[i].nodes[id], run[i].store.used)
    ensures id in run[i + 1].nodes && run[i + 1].store.Valid() && NodeOk(run[i + 1].nodes[id], run[i + 1].store.used)
    ensures FileBytes(run[i + 1].nodes[id], run[i + 1].store)
      == FileBytes(run[i].nodes[id], run[i].store) + Zeros(off - run[i].nodes[id].size) + buf
  {
    FreshOwnership(run[0]);
    RunOwnership(run, ops, i);
    assert Step(run[i], ops[i], run[i + 1]);
    DiskWriteRefines(run[i], run[i + 1], id, off, buf, true);
    RunZeroTail(run, ops, i, id);
    var n := run[i].nodes[id];
    assert NodeOk(n, run[i].store.used);
    GapIsZero(Content(run[i].store.data, BlockList(n)), n.size, off, buf);
  }
}
