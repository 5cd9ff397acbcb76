/** fs/diskfs.c: saving the tree to the tail of the disk and loading it back. */
module DiskFs {
  import opened Bytes
  import opened SectorDisk
  import opened Layout
  import opened BlockStore
  import opened FileState
  import opened TreeImage
  import F = SnapshotFormat
  import P = Preorder
  import R = RamFs

  const HEAP_MAX: nat := 0x4000_0000     // the kernel heap lies in the first GiB
  const FIRST_CAP: nat := 4096

  // ---- the buffer ----

  function Doubled(cap: nat, n: nat): (r: nat)
    requires cap > 0
    ensures r >= n && r >= cap
    decreases n - cap
  {
    if cap >= n then cap else Doubled(2 * cap, n)
  }

  /** No earlier doubling is enough. */
  lemma {:induction false} DoubledLeast(cap: nat, n: nat)
    requires cap > 0
    ensures Doubled(cap, n) == cap || (Doubled(cap, n) % 2 == 0 && Doubled(cap, n) / 2 < n)
    decreases n - cap
  {
    if cap < n { DoubledLeast(2 * cap, n); }
  }

  /** The capacity of a buffer that has grown to `n` bytes: 0, or 4096 doubled until it fits. */
  function CapFor(n: nat): (r: nat)
    ensures r >= n && (r == 0 <==> n == 0)
    ensures n > 0 ==> r >= 4096 && (r == 4096 || r / 2 < n)
  {
    if n == 0 then 0
    else
      DoubledLeast(FIRST_CAP, n);
      Doubled(FIRST_CAP, n)
  }

  lemma {:induction false} DoubledOn(cap: nat, m: nat, n: nat)
    requires cap > 0 && m <= n
    ensures Doubled(cap, n) == Doubled(Doubled(cap, m), n)
    decreases m - cap
  {
    if cap < m { DoubledOn(2 * cap, m, n); }
  }

  lemma CapGrows(m: nat, n: nat)
    requires m <= n
    ensures CapFor(m) <= CapFor(n)
    ensures n <= CapFor(m) ==> CapFor(n) == CapFor(m)
    ensures n > CapFor(m) ==> CapFor(n) == Doubled(if CapFor(m) == 0 then FIRST_CAP else 2 * CapFor(m), n)
  {
    if m > 0 { DoubledOn(FIRST_CAP, m, n); }
  }

  lemma {:induction false} DoubledSectors(cap: nat, n: nat)
    requires cap > 0 && cap % SECTOR == 0
    ensures Doubled(cap, n) % SECTOR == 0
    decreases n - cap
  {
    if cap < n { DoubledSectors(2 * cap, n); }
  }

  /** Padding to whole sectors needs no more memory. */
  lemma CapPadded(n: nat)
    ensures CapFor(SECTOR * Sectors(n)) == CapFor(n)
  {
    if n > 0 { DoubledSectors(FIRST_CAP, n); }
    CapGrows(n, SECTOR * Sectors(n));
  }

  /** The effect of appending `s`: memory runs out exactly when the grown buffer exceeds the limit, and
      then for good. */
  ghost predicate Appends(was: seq<byte>, oomBefore: bool, now: seq<byte>, oom: bool, s: seq<byte>, limit: nat) {
    && (oom <==> oomBefore || CapFor(|was| + |s|) > limit)
    && (!oom ==> now == was + s)
  }

  lemma AppendsTwice(b0: seq<byte>, o0: bool, b1: seq<byte>, o1: bool, b2: seq<byte>, o2: bool,
                     s: seq<byte>, t: seq<byte>, limit: nat)
    requires Appends(b0, o0, b1, o1, s, limit) && Appends(b1, o1, b2, o2, t, limit)
    ensures Appends(b0, o0, b2, o2, s + t, limit)
  {
    CapGrows(|b0| + |s|, |b0| + |s + t|);
    assert b0 + s + t == b0 + (s + t);
  }

  lemma WordsNext(ws: seq<u32>, i: nat)
    requires i < |ws|
    ensures F.EncodeWords(ws[..i + 1]) == F.EncodeWords(ws[..i]) + EncodeU32(ws[i])
  {
    F.EncodeWordsAppend(ws[..i], [ws[i]]);
    assert ws[..i + 1] == ws[..i] + [ws[i]];
    assert F.EncodeWords([ws[i]]) == EncodeU32(ws[i]) + [];
  }

  /** The growable `buffer_t`; `heapLimit` is the largest request `krealloc` satisfies. */
  class Buffer {
    var bytes: seq<byte>
    var cap: nat
    var oom: bool
    const heapLimit: nat

    ghost predicate Valid()
      reads this
    {
      && |bytes| <= cap <= HEAP_MAX && heapLimit <= HEAP_MAX
      && (!oom ==> cap == CapFor(|bytes|) <= heapLimit)
    }

    constructor (heapLimit: nat)
      requires heapLimit <= HEAP_MAX
      ensures Valid() && bytes == [] && !oom && this.heapLimit == heapLimit
    {
      bytes, cap, oom := [], 0, false;
      this.heapLimit := heapLimit;
    }

    /** `buf_ensure`: doubling never leaves the 32-bit range. */
    method Ensure(extra: nat)
      requires Valid() && extra <= HEAP_MAX
      modifies this`cap, this`oom
      ensures |bytes| <= cap <= HEAP_MAX
      ensures oom <==> old(oom) || CapFor(|bytes| + extra) > heapLimit
      ensures !oom ==> cap == CapFor(|bytes| + extra) <= heapLimit
    {
      if oom { return; }
      CapGrows(|bytes|, |bytes| + extra);
      if |bytes| + extra <= cap { return; }
      var newcap := if cap != 0 then cap * 2 else FIRST_CAP;
      while newcap < |bytes| + extra
        invariant 0 < newcap < U32_LIMIT && Doubled(newcap, |bytes| + extra) == CapFor(|bytes| + extra)
        decreases |bytes| + extra - newcap
      {
        newcap := newcap * 2;
      }
      if newcap > heapLimit {
        oom := true;
      } else {
        cap := newcap;
      }
    }

    /** `buf_put`: appends, or records that memory ran out. */
    method Put(src: seq<byte>)
      requires Valid() && |src| <= HEAP_MAX
      modifies this
      ensures Valid() && Appends(old(bytes), old(oom), bytes, oom, src, heapLimit)
    {
      Ensure(|src|);
      if oom { return; }
      bytes := bytes + src;
    }

    method PutWords(ws: seq<u32>)
      requires Valid()
      modifies this
      ensures Valid() && Appends(old(bytes), old(oom), bytes, oom, F.EncodeWords(ws), heapLimit)
    {
      var i := 0;
      while i < |ws|
        invariant 0 <= i <= |ws| && Valid()
        invariant Appends(old(bytes), old(oom), bytes, oom, F.EncodeWords(ws[..i]), heapLimit)
      {
        WordsNext(ws, i);
        ghost var b1, o1 := bytes, oom;
        Put(EncodeU32(ws[i]));
        AppendsTwice(old(bytes), old(oom), b1, o1, bytes, oom, F.EncodeWords(ws[..i]), EncodeU32(ws[i]), heapLimit);
        i := i + 1;
      }
      assert ws[..i] == ws;
    }

    /** The part of `serialize_node` that writes one record. */
    method PutRecord(parent: int, m: Meta)
      requires Valid() && F.RecordOk(F.Record(parent, m)) && InHeap(m)
      modifies this
      ensures Valid() && Appends(old(bytes), old(oom), bytes, oom, F.Encode(F.Record(parent, m)), heapLimit)
    {
      ghost var head := F.EncodeWords(F.HeaderWords(F.Record(parent, m)));
      PutWords(F.HeaderWords(F.Record(parent, m)));
      ghost var b1, o1 := bytes, oom;
      Put(m.name);
      AppendsTwice(old(bytes), old(oom), b1, o1, bytes, oom, head, m.name, heapLimit);
      PutPayload(m.payload, old(bytes), old(oom), head + m.name);
    }

    method PutPayload(payload: F.Payload, ghost base: seq<byte>, ghost before: bool, ghost head: seq<byte>)
      requires Valid() && Appends(base, before, bytes, oom, head, heapLimit)
      requires (payload.InBlocks? ==> |payload.blocks| < U32_LIMIT) && (payload.Inline? ==> |payload.bytes| <= HEAP_MAX)
      modifies this
      ensures Valid() && Appends(base, before, bytes, oom, head + F.EncodePayload(payload), heapLimit)
    {
      ghost var b1, o1 := bytes, oom;
      match payload {
        case Inline(data) => Put(data);
        case InBlocks(blocks) => PutWords([|blocks|] + blocks);
      }
      AppendsTwice(base, before, b1, o1, bytes, oom, head, F.EncodePayload(payload), heapLimit);
    }
  }

  /** Contents kept in RAM are kernel heap buffers. */
  predicate InHeap(m: Meta) {
    m.payload.Inline? ==> |m.payload.bytes| <= HEAP_MAX
  }

  ghost predicate ForestInHeap(f: Forest) {
    match f
    case Empty => true
    case Grove(m, kids, next) => InHeap(m) && ForestInHeap(kids) && ForestInHeap(next)
  }

  /** What a run of `serialize_node` on a forest appends, starting at index `idx`. */
  ghost function Listing(f: Forest, parent: int, idx: nat): (rs: seq<Record>)
    requires idx <= F.MAX_NODES
  {
    P.Pre(P.Take(f, F.MAX_NODES - idx), parent, idx)
  }

  lemma ListingOk(f: Forest, parent: int, idx: nat)
    requires idx <= F.MAX_NODES && -1 <= parent < idx && P.ForestOk(f)
    ensures F.RecordsOk(Listing(f, parent, idx))
    ensures |Listing(f, parent, idx)| == Min(F.MAX_NODES - idx, P.Size(f))
  {
    P.CutOk(f, F.MAX_NODES - idx, parent, idx);
  }

  /** `serialize_node`: appends the records of one subtree in preorder and stops at the node
      limit. */
  method SerializeNode(fs: R.RamFs, b: Buffer, id: nat, parent: int, count: nat, ghost f: Forest)
    returns (count': nat)
    requires b.Valid() && f.Grove? && f.next.Empty? && Shows(fs.nodes, [id], f, 0, fs.next)
    requires P.ForestOk(f) && ForestInHeap(f)
    requires -1 <= parent < count < F.MAX_NODES
    modifies b
    ensures b.Valid() && F.RecordsOk(Listing(f, parent, count))
    ensures count' == count + |Listing(f, parent, count)| <= F.MAX_NODES
    ensures Appends(old(b.bytes), old(b.oom), b.bytes, b.oom, F.EncodeAll(Listing(f, parent, count)), b.heapLimit)
    decreases P.Size(f), 0
  {
    ghost var r, ks, all := F.Record(parent, f.meta), Listing(f.kids, count, count + 1), Listing(f, parent, count);
    SerializedNode(f, parent, count, r, ks, all);
    b.PutRecord(parent, MetaOf(fs.nodes[id]));
    ghost var b1, o1 := b.bytes, b.oom;
    count' := SerializeKids(fs, b, fs.nodes[id].children, count, f.kids);
    AppendsTwice(old(b.bytes), old(b.oom), b1, o1, b.bytes, b.oom, F.Encode(r), F.EncodeAll(ks), b.heapLimit);
  }

  lemma SerializedNode(f: Forest, parent: int, count: nat, r: Record, ks: seq<Record>, all: seq<Record>)
    requires f.Grove? && f.next.Empty? && P.ForestOk(f) && -1 <= parent < count < F.MAX_NODES
    requires r == F.Record(parent, f.meta) && ks == Listing(f.kids, count, count + 1)
    requires all == Listing(f, parent, count)
    ensures
      && F.RecordOk(r) && F.RecordsOk(ks) && F.RecordsOk(all)
      && |all| == 1 + |ks| && F.EncodeAll(all) == F.Encode(r) + F.EncodeAll(ks)
  {
    assert F.RecordsOk(ks) by { ListingOk(f.kids, count, count + 1); }
    assert all == [r] + ks by { P.TakeTree(f.meta, f.kids, F.MAX_NODES - count, parent, count); }
    EncodeCons(r, ks);
  }

  lemma EncodeCons(r: Record, rs: seq<Record>)
    requires F.RecordOk(r) && F.RecordsOk(rs)
    ensures F.RecordsOk([r] + rs) && F.EncodeAll([r] + rs) == F.Encode(r) + F.EncodeAll(rs)
  {
    F.EncodeAllAppend([r], rs);
    assert F.EncodeAll([r]) == F.Encode(r) by { assert [r][..0] == []; }
  }

  /** The loop of `serialize_node` over the children of the node with index `my`. */
  method SerializeKids(fs: R.RamFs, b: Buffer, children: seq<nat>, my: nat, ghost f: Forest)
    returns (count: nat)
    requires b.Valid() && Shows(fs.nodes, children, f, 0, fs.next)
    requires P.ForestOk(f) && ForestInHeap(f) && my < F.MAX_NODES
    modifies b
    ensures b.Valid() && F.RecordsOk(Listing(f, my, my + 1))
    ensures count == my + 1 + |Listing(f, my, my + 1)| <= F.MAX_NODES
    ensures Appends(old(b.bytes), old(b.oom), b.bytes, b.oom, F.EncodeAll(Listing(f, my, my + 1)), b.heapLimit)
    decreases P.Size(f), 2
  {
    count := my + 1;
    ListingOk(f, my, my + 1);
    ghost var rest, left, done := f, Listing(f, my, my + 1), [];
    ghost var all := left;
    var todo := children;
    while todo != [] && count < F.MAX_NODES
      invariant b.Valid()
      invariant Pending(fs.nodes, fs.next, todo, rest) && P.Size(rest) <= P.Size(f)
      invariant my + 1 <= count <= F.MAX_NODES && left == Listing(rest, my, count)
      invariant Emitted(all, left, done) && count == my + 1 + |done|
      invariant Appends(old(b.bytes), old(b.oom), b.bytes, b.oom, F.EncodeAll(done), b.heapLimit)
    {
      count, left, done := SerializeChild(fs, b, todo, my, count, rest, all, left, done, old(b.bytes), old(b.oom));
      rest := rest.next;
      todo := todo[1..];
    }
    P.TakeNone(rest);
    assert all == done;
  }

  /** The children that the loop still has to visit. */
  ghost predicate Pending(nodes: map<nat, Node>, next: nat, children: seq<nat>, rest: Forest) {
    Shows(nodes, children, rest, 0, next) && P.ForestOk(rest) && ForestInHeap(rest)
  }

  /** One pass of that loop. */
  method SerializeChild(fs: R.RamFs, b: Buffer, children: seq<nat>, my: nat, count: nat, ghost rest: Forest,
                        ghost all: seq<Record>, ghost left: seq<Record>, ghost done: seq<Record>,
                        ghost base: seq<byte>, ghost before: bool)
    returns (count': nat, ghost left': seq<Record>, ghost done': seq<Record>)
    requires b.Valid() && children != [] && Pending(fs.nodes, fs.next, children, rest)
    requires my < count < F.MAX_NODES && left == Listing(rest, my, count) && Emitted(all, left, done)
    requires Appends(base, before, b.bytes, b.oom, F.EncodeAll(done), b.heapLimit)
    modifies b
    ensures b.Valid()
    ensures Pending(fs.nodes, fs.next, children[1..], rest.next)
    ensures count <= count' <= F.MAX_NODES && count' == count + |done'| - |done|
    ensures left' == Listing(rest.next, my, count') && Emitted(all, left', done')
    ensures Appends(base, before, b.bytes, b.oom, F.EncodeAll(done'), b.heapLimit)
    decreases P.Size(rest), 1
  {
    ghost var first := FirstTree(fs.nodes, fs.next, children, rest);
    ghost var a := Listing(first, my, count);
    left', done' := ChildEmitted(rest, first, my, count, all, left, done, a);
    ghost var b1, o1 := b.bytes, b.oom;
    count' := SerializeNode(fs, b, children[0], my, count, first);
    AppendsTwice(base, before, b1, o1, b.bytes, b.oom, F.EncodeAll(done), F.EncodeAll(a), b.heapLimit);
  }

  lemma FirstTree(nodes: map<nat, Node>, next: nat, children: seq<nat>, rest: Forest) returns (first: Forest)
    requires children != [] && Pending(nodes, next, children, rest)
    ensures rest.Grove? && first == F.Grove(rest.meta, rest.kids, F.Empty)
    ensures Pending(nodes, next, [children[0]], first) && Pending(nodes, next, children[1..], rest.next)
    ensures P.Size(first) <= P.Size(rest)
  {
    first := F.Grove(rest.meta, rest.kids, F.Empty);
    assert [children[0]][1..] == [];
  }

  lemma ChildEmitted(rest: Forest, first: Forest, my: nat, count: nat,
                     all: seq<Record>, left: seq<Record>, done: seq<Record>, a: seq<Record>)
    returns (left': seq<Record>, done': seq<Record>)
    requires rest.Grove? && first == F.Grove(rest.meta, rest.kids, F.Empty) && P.ForestOk(rest)
    requires my < count < F.MAX_NODES && left == Listing(rest, my, count) && Emitted(all, left, done)
    requires a == Listing(first, my, count)
    ensures F.RecordsOk(a) && count + |a| <= F.MAX_NODES && |done'| == |done| + |a|
    ensures left' == Listing(rest.next, my, count + |a|) && Emitted(all, left', done')
    ensures F.EncodeAll(done') == F.EncodeAll(done) + F.EncodeAll(a)
  {
    left' := ListingSplit(rest, first, my, count, a);
    EmittedNext(all, done, a, left');
    done' := done + a;
  }

  /** Of all records to emit, `done` are out and `left` remain. */
  ghost predicate Emitted(all: seq<Record>, left: seq<Record>, done: seq<Record>) {
    F.RecordsOk(done) && all == done + left
  }

  lemma EmittedNext(all: seq<Record>, done: seq<Record>, a: seq<Record>, b: seq<Record>)
    requires Emitted(all, a + b, done) && F.RecordsOk(a)
    ensures Emitted(all, b, done + a) && F.EncodeAll(done + a) == F.EncodeAll(done) + F.EncodeAll(a)
  {
    assert done + (a + b) == (done + a) + b;
    F.EncodeAllAppend(done, a);
  }

  lemma ListingSplit(rest: Forest, first: Forest, my: nat, count: nat, a: seq<Record>) returns (b: seq<Record>)
    requires rest.Grove? && my < count < F.MAX_NODES && P.ForestOk(rest)
    requires first == F.Grove(rest.meta, rest.kids, F.Empty) && a == Listing(first, my, count)
    ensures F.RecordsOk(a) && count + |a| <= F.MAX_NODES
    ensures b == Listing(rest.next, my, count + |a|) && Listing(rest, my, count) == a + b
  {
    assert F.RecordsOk(a) && |a| == Min(F.MAX_NODES - count, 1 + P.Size(rest.kids)) by { ListingOk(first, my, count); }
    b := Listing(rest.next, my, count + |a|);
    assert Listing(rest, my, count) == a + b by { P.TakeSplit(rest, F.MAX_NODES - count, my, count); }
  }

  // ---- save ----

  /** A disk whose snapshot region starts with the image of `rs`. */
  ghost predicate HoldsImage(bytes: seq<byte>, total: u32, rs: seq<Record>) {
    && |bytes| == SECTOR * total && F.ImageFits(rs) && |F.Image(rs)| <= F.MAX_IMAGE
    && SECTOR * (SnapshotBase(total) + Sectors(|F.Image(rs)|)) <= |bytes|
    && F.Image(rs) <= bytes[SECTOR * SnapshotBase(total)..]
  }

  function Sectors(n: nat): (r: nat)
    ensures n <= SECTOR * r < n + SECTOR
  {
    (n + SECTOR - 1) / SECTOR
  }

  /** Zero padding to whole sectors. */
  function Pad(s: seq<byte>): (r: seq<byte>)
    ensures |r| == SECTOR * Sectors(|s|) && s <= r
  {
    s + Zeros(SECTOR * Sectors(|s|) - |s|)
  }

  /** Filling in the two placeholder words gives the superblock. */
  lemma PatchSuperblock(body: seq<byte>, count: u32, length: u32)
    ensures var b0 := F.EncodeWords([F.MAGIC, F.VERSION, 0, 0]) + body;
      Splice(Splice(b0, 8, EncodeU32(count)), 12, EncodeU32(length)) == F.Superblock(count, length) + body
  {
    FourWords(F.MAGIC, F.VERSION, 0, 0);
    FourWords(F.MAGIC, F.VERSION, count, length);
    var h := EncodeU32(F.MAGIC) + EncodeU32(F.VERSION);
    var b0 := h + EncodeU32(0) + EncodeU32(0) + body;
    assert Splice(b0, 8, EncodeU32(count)) == h + EncodeU32(count) + EncodeU32(0) + body;
  }

  lemma FourWords(a: u32, b: u32, c: u32, d: u32)
    ensures F.EncodeWords([a, b, c, d]) == EncodeU32(a) + EncodeU32(b) + EncodeU32(c) + EncodeU32(d)
  {
    assert F.EncodeWords([d]) == EncodeU32(d) + F.EncodeWords([]) == EncodeU32(d);
    assert F.EncodeWords([c, d]) == EncodeU32(c) + EncodeU32(d) by { assert [c, d][1..] == [d]; }
    assert F.EncodeWords([b, c, d]) == EncodeU32(b) + (EncodeU32(c) + EncodeU32(d)) by {
      assert [b, c, d][1..] == [c, d];
    }
    assert [a, b, c, d][1..] == [b, c, d];
  }

  /** The length of the image of `rs`. */
  function ImageLength(rs: seq<Record>): nat
    requires F.RecordsOk(rs)
  {
    16 + |F.EncodeAll(rs)|
  }

  /** The image is not too long, and there is memory for it. */
  predicate Builds(rs: seq<Record>, limit: nat)
    requires F.RecordsOk(rs)
  {
    ImageLength(rs) <= F.MAX_IMAGE && CapFor(ImageLength(rs)) <= limit
  }

  /** Fills in the superblock and pads the buffer: the middle part of `diskfs_save`. */
  method FinishImage(b: Buffer, count: nat, ghost rs: seq<Record>) returns (rc: int, image: seq<byte>)
    requires b.Valid() && !b.oom && F.RecordsOk(rs) && count == |rs| <= F.MAX_NODES
    requires b.bytes == F.EncodeWords([F.MAGIC, F.VERSION, 0, 0]) + F.EncodeAll(rs)
    modifies b
    ensures rc == if ImageLength(rs) <= F.MAX_IMAGE then 0 else -5
    ensures rc == 0 ==> F.ImageFits(rs) && |F.Image(rs)| == ImageLength(rs) && image == Pad(F.Image(rs))
  {
    var len := |b.bytes|;
    if len > F.MAX_IMAGE { return -5, []; }
    PatchSuperblock(F.EncodeAll(rs), count, len);
    b.bytes := Splice(Splice(b.bytes, 8, EncodeU32(count)), 12, EncodeU32(len));
    CapPadded(len);
    b.Ensure(SECTOR * Sectors(len) - len);
    if b.oom { return -4, []; }
    rc, image := 0, Pad(b.bytes);
  }

  /** The image that `diskfs_save` builds in memory, or an error code. */
  method BuildImage(fs: R.RamFs, heapLimit: nat, ghost f: Forest, ghost rs: seq<Record>)
    returns (rc: int, image: seq<byte>)
    requires heapLimit <= HEAP_MAX && f.Grove? && f.next.Empty? && rs == Listing(f, -1, 0)
    requires Pending(fs.nodes, fs.next, [ROOT], f)
    ensures F.RecordsOk(rs) && (rc == 0 || rc == -4 || rc == -5) && (rc == 0 <==> Builds(rs, heapLimit))
    ensures rc == -4 <==> CapFor(ImageLength(rs)) > heapLimit
    ensures rc == 0 ==> F.ImageFits(rs) && |F.Image(rs)| == ImageLength(rs) && image == Pad(F.Image(rs))
  {
    var b := new Buffer(heapLimit);
    b.PutWords([F.MAGIC, F.VERSION, 0, 0]);
    ghost var b1, o1, head := b.bytes, b.oom, F.EncodeWords([F.MAGIC, F.VERSION, 0, 0]);
    var count := SerializeNode(fs, b, ROOT, -1, 0, f);
    AppendsTwice([], false, b1, o1, b.bytes, b.oom, head, F.EncodeAll(rs), heapLimit);
    if b.oom { return -4, []; }
    rc, image := FinishImage(b, count, rs);
  }

  /** Which of the heap requests of `diskfs_save` succeed: the array of visited nodes, the growing
      buffer up to `limit` bytes, and the buffer of `blockfs_flush_bitmap`. */
  datatype SaveHeap = SaveHeap(order: bool, limit: nat, flush: bool)

  /** The bitmap that the next boot will find on the disk. */
  ghost function OnDisk(b: BlockFs): (r: seq<byte>)
    requires b.Valid() && b.available
    reads b, b.disk
    ensures |r| == |b.bitmap|
  {
    b.disk.Bytes()[SECTOR * BOOT_SECTORS..][..b.geo.bitmapBytes]
  }

  /** There is memory for the array of nodes and for the image, and the image fits its region. */
  predicate Saves(rs: seq<Record>, total: u32, heap: SaveHeap)
    requires F.RecordsOk(rs)
  {
    heap.order && Builds(rs, heap.limit) && InRegion(ImageLength(rs), total)
  }

  predicate InRegion(length: nat, total: u32) {
    Sectors(length) <= TAIL_SECTORS && SnapshotBase(total) + Sectors(length) <= total
  }

  /** The image of `rs` fits the snapshot region of a disk. */
  ghost predicate ImageLands(was: seq<byte>, total: u32, rs: seq<Record>) {
    |was| == SECTOR * total && F.ImageFits(rs) && |F.Image(rs)| <= F.MAX_IMAGE && InRegion(|F.Image(rs)|, total)
  }

  /** All of the disk after a save: the image, and the bitmap if it was flushed; nothing else changes. */
  ghost predicate Synced(was: seq<byte>, total: u32, rs: seq<Record>, g: Geometry, flushed: Option<seq<byte>>,
                         now: seq<byte>) {
    && ImageLands(was, total, rs)
    && (flushed.Some? ==> Fits(g, total) && |flushed.value| == g.bitmapBytes)
    && var imaged := Splice(was, SECTOR * SnapshotBase(total), Pad(F.Image(rs)));
    now == match flushed
      case None => imaged
      case Some(bitmap) => Splice(imaged, SECTOR * BOOT_SECTORS, Padded(bitmap, g.bitmapSectors))
  }

  /** The bitmap that a save flushes. */
  ghost function Flushed(b: BlockFs, heapOk: bool): Option<seq<byte>>
    reads b
  {
    if b.available && heapOk then Some(b.bitmap) else None
  }

  /** `diskfs_save`. Saving fails without touching the disk; when it succeeds the snapshot region
      holds the image. The bitmap is written only if the flush finds memory: its result is ignored. */
  method Save(fs: R.RamFs, heap: SaveHeap, ghost f: Forest, ghost rs: seq<Record>) returns (rc: int)
    requires heap.limit <= HEAP_MAX && f.Grove? && f.next.Empty? && rs == Listing(f, -1, 0)
    requires Pending(fs.nodes, fs.next, [ROOT], f)
    requires fs.blockfs.Valid() && |fs.blockfs.disk.sectors| < U32_LIMIT
    modifies fs.blockfs.disk
    ensures fs.blockfs.Valid() && |fs.blockfs.disk.sectors| == old(|fs.blockfs.disk.sectors|)
    ensures F.RecordsOk(rs) && (rc == 0 <==> Saves(rs, |fs.blockfs.disk.sectors|, heap)) && -6 <= rc <= 0
    ensures rc == -3 <==> !heap.order
    ensures rc == -4 <==> heap.order && CapFor(ImageLength(rs)) > heap.limit
    ensures rc == -5 <==> heap.order && CapFor(ImageLength(rs)) <= heap.limit && ImageLength(rs) > 0x400_0000
    ensures rc != 0 ==> fs.blockfs.disk.Bytes() == old(fs.blockfs.disk.Bytes())
    ensures rc == 0 ==> HoldsImage(fs.blockfs.disk.Bytes(), |fs.blockfs.disk.sectors|, rs)
    ensures rc == 0 && fs.blockfs.available ==>
      OnDisk(fs.blockfs) == if heap.flush then fs.blockfs.bitmap else old(OnDisk(fs.blockfs))
    ensures rc == 0 ==>
      Synced(old(fs.blockfs.disk.Bytes()), |fs.blockfs.disk.sectors|, rs, fs.blockfs.geo,
        Flushed(fs.blockfs, heap.flush), fs.blockfs.disk.Bytes())
  {
    ListingOk(f, -1, 0);
    if !heap.order { return -3; }
    var image;
    rc, image := BuildImage(fs, heap.limit, f, rs);
    if rc == 0 {
      rc := Commit(fs.blockfs, image, heap.flush, rs);
    }
  }

  /** The last part of `diskfs_save`: the range checks and the writes. */
  method Commit(b: BlockFs, image: seq<byte>, flushOk: bool, ghost rs: seq<Record>) returns (rc: int)
    requires b.Valid() && |b.disk.sectors| < U32_LIMIT
    requires F.ImageFits(rs) && |F.Image(rs)| <= F.MAX_IMAGE && image == Pad(F.Image(rs))
    modifies b.disk
    ensures b.Valid() && |b.disk.sectors| == old(|b.disk.sectors|)
    ensures rc == if InRegion(|F.Image(rs)|, |b.disk.sectors|) then 0 else -6
    ensures rc != 0 ==> b.disk.Bytes() == old(b.disk.Bytes())
    ensures rc == 0 ==> HoldsImage(b.disk.Bytes(), |b.disk.sectors|, rs)
    ensures rc == 0 && b.available ==> OnDisk(b) == if flushOk then b.bitmap else old(OnDisk(b))
    ensures rc == 0 ==>
      Synced(old(b.disk.Bytes()), |b.disk.sectors|, rs, b.geo, Flushed(b, flushOk), b.disk.Bytes())
  {
    var total := |b.disk.sectors|;
    var base, sectors := SnapshotBase(total), |image| / SECTOR;
    if sectors > TAIL_SECTORS { return -5; }
    if base + sectors > total { return -6; }
    ImageWritten(b.disk.Bytes(), total, rs);
    WriteSnapshot(b, base, sectors, image);
    if b.available {
      Flush(b, flushOk, rs);
    }
    rc := 0;
  }

  /** The flush at the end of `diskfs_save`, whose result is not looked at. */
  method Flush(b: BlockFs, heapOk: bool, ghost rs: seq<Record>)
    requires b.Valid() && b.available && HoldsImage(b.disk.Bytes(), |b.disk.sectors|, rs)
    modifies b.disk
    ensures b.Valid() && |b.disk.sectors| == old(|b.disk.sectors|)
    ensures HoldsImage(b.disk.Bytes(), |b.disk.sectors|, rs)
    ensures OnDisk(b) == if heapOk then b.bitmap else old(OnDisk(b))
    ensures b.disk.Bytes() ==
      if heapOk then Splice(old(b.disk.Bytes()), SECTOR * BOOT_SECTORS, Padded(b.bitmap, b.geo.bitmapSectors))
      else old(b.disk.Bytes())
  {
    ghost var bytes, image := b.disk.Bytes(), Padded(b.bitmap, b.geo.bitmapSectors);
    ImageKept(bytes, |b.disk.sectors|, rs, b.geo, image);
    var rc := b.FlushBitmap(heapOk);
    if heapOk { BitmapReadBack(bytes, b.bitmap, b.geo.bitmapSectors); }
  }

  /** A flushed bitmap is the one that boot finds. */
  lemma BitmapReadBack(bytes: seq<byte>, bitmap: seq<byte>, sectors: nat)
    requires SECTOR * (BOOT_SECTORS + sectors) <= |bytes| && |bitmap| <= SECTOR * sectors
    ensures Splice(bytes, SECTOR * BOOT_SECTORS, Padded(bitmap, sectors))[SECTOR * BOOT_SECTORS..][..|bitmap|] == bitmap
  {
    PrefixInSplice(bytes, SECTOR * BOOT_SECTORS, Padded(bitmap, sectors), bitmap);
  }

  /** The bitmap region lies below everything that is written at `off`. */
  lemma BitmapKept(bytes: seq<byte>, n: nat, off: nat, src: seq<byte>)
    requires SECTOR * BOOT_SECTORS + n <= off && off + |src| <= |bytes|
    ensures Splice(bytes, off, src)[SECTOR * BOOT_SECTORS..][..n] == bytes[SECTOR * BOOT_SECTORS..][..n]
  {
  }

  lemma ImageWritten(bytes: seq<byte>, total: u32, rs: seq<Record>)
    requires F.ImageFits(rs) && |F.Image(rs)| <= F.MAX_IMAGE && |bytes| == SECTOR * total
    requires SECTOR * SnapshotBase(total) + |Pad(F.Image(rs))| <= |bytes|
    ensures HoldsImage(Splice(bytes, SECTOR * SnapshotBase(total), Pad(F.Image(rs))), total, rs)
  {
    PrefixInSplice(bytes, SECTOR * SnapshotBase(total), Pad(F.Image(rs)), F.Image(rs));
  }

  lemma PrefixInSplice(bytes: seq<byte>, off: nat, src: seq<byte>, p: seq<byte>)
    requires off + |src| <= |bytes| && p <= src
    ensures p <= Splice(bytes, off, src)[off..]
  {
    assert forall i :: 0 <= i < |p| ==> Splice(bytes, off, src)[off..][i] == src[i];
  }

  /** The bitmap region lies below the snapshot. */
  lemma ImageKept(bytes: seq<byte>, total: u32, rs: seq<Record>, g: Geometry, src: seq<byte>)
    requires HoldsImage(bytes, total, rs) && Fits(g, total) && |src| == SECTOR * g.bitmapSectors
    ensures HoldsImage(Splice(bytes, SECTOR * BOOT_SECTORS, src), total, rs)
  {
    var base := SECTOR * SnapshotBase(total);
    assert SnapshotBase(total) == total - TAIL_SECTORS;
    assert Splice(bytes, SECTOR * BOOT_SECTORS, src)[base..] == bytes[base..];
  }

  /** The write loop of `diskfs_save`: the data blocks are not touched. */
  method WriteSnapshot(b: BlockFs, base: nat, sectors: nat, image: seq<byte>)
    requires b.Valid() && |image| == SECTOR * sectors && base + sectors <= |b.disk.sectors| < U32_LIMIT
    requires base == SnapshotBase(|b.disk.sectors|)
    modifies b.disk
    ensures b.Valid() && |b.disk.sectors| == old(|b.disk.sectors|)
    ensures b.disk.Bytes() == Splice(old(b.disk.Bytes()), SECTOR * base, image)
    ensures b.available ==> OnDisk(b) == old(OnDisk(b))
  {
    if b.available {
      DataOfFrame(b.disk.Bytes(), b.geo, SECTOR * base, image);
      BitmapKept(b.disk.Bytes(), b.geo.bitmapBytes, SECTOR * base, image);
    }
    b.disk.WriteRun(base, sectors, image, WRITE_CHUNK);
  }

  // ---- load ----

  /** The heap that `diskfs_load` starts from: every node but the root is freed. */
  function Wiped(nodes: map<nat, Node>, next: nat): Loading
    requires ROOT in nodes
  {
    Loading(map[ROOT := nodes[ROOT].(children := [])], next, [])
  }

  /** Which of the heap requests of boot succeed: those of `blockfs_init`, the image and index buffers of
      `diskfs_load`, and the node and the contents buffer of each record. */
  datatype LoadHeap = LoadHeap(bitmap: bool, image: bool, index: bool, node: nat -> bool, contents: nat -> bool)

  /** A record that needs a buffer for a block list or for bytes. */
  predicate NeedsBuffer(m: Meta) {
    if m.payload.InBlocks? then m.payload.blocks != [] else m.size > 0
  }

  predicate Granted(r: Record, i: nat, heap: LoadHeap) {
    (r.parent >= 0 ==> heap.node(i)) && (NeedsBuffer(r.meta) ==> heap.contents(i))
  }

  ghost predicate GrantedUpTo(rs: seq<Record>, n: nat, heap: LoadHeap)
    requires n <= |rs|
  {
    forall i :: 0 <= i < n ==> Granted(rs[i], i, heap)
  }

  /** Loading `rs` finds all the memory it asks for. */
  ghost predicate Loads(rs: seq<Record>, heap: LoadHeap) {
    heap.image && heap.index && GrantedUpTo(rs, |rs|, heap)
  }

  // ---- what any disk says ----

  /** The words of the superblock, where a disk has one. */
  ghost function HeadWord(bytes: seq<byte>, total: u32, k: nat): u32
    requires |bytes| == SECTOR * total && total > 0 && k < 4
  {
    SnapshotBaseInRange(total);
    DecodeU32(bytes, SECTOR * SnapshotBase(total) + 4 * k)
  }

  /** There is the mark "MKFS" with version 2. */
  ghost predicate Marked(bytes: seq<byte>, total: u32)
    requires |bytes| == SECTOR * total
  {
    total > 0 && HeadWord(bytes, total, 0) == 0x5346_4B4D && HeadWord(bytes, total, 1) == 2
  }

  /** With 1 to 16384 records, in 16 bytes to 64 MiB. */
  ghost predicate Announces(bytes: seq<byte>, total: u32, count: nat, length: nat)
    requires |bytes| == SECTOR * total
  {
    && Marked(bytes, total) && count == HeadWord(bytes, total, 2) && length == HeadWord(bytes, total, 3)
    && 1 <= count <= 16384 && 16 <= length <= 0x400_0000
  }

  /** The sectors that hold the image. */
  ghost function ImageSectors(bytes: seq<byte>, total: u32, length: nat): seq<byte>
    requires |bytes| == SECTOR * total && SnapshotBase(total) + Sectors(length) <= total
  {
    bytes[SECTOR * SnapshotBase(total)..SECTOR * (SnapshotBase(total) + Sectors(length))]
  }

  /** Where the next record starts when `rs` have been read from an image, one behind the other from byte 16. */
  ghost function ReadUpTo(img: seq<byte>, length: nat, rs: seq<Record>): Option<nat>
    requires length <= |img|
  {
    if rs == [] then Some(16) else
    var n := |rs| - 1;
    var off := ReadUpTo(img, length, rs[..n]);
    if off.None? then None else
    var p := F.ParseRecord(img, off.value, length);
    if p.Some? && p.value.record == rs[n] then Some(p.value.next) else None
  }

  /** An image can be read in one way only. */
  lemma {:induction false} ReadOneWay(img: seq<byte>, length: nat, rs: seq<Record>, ts: seq<Record>)
    requires length <= |img| && ReadUpTo(img, length, rs).Some? && ReadUpTo(img, length, ts).Some? && |rs| == |ts|
    ensures rs == ts
  {
    if rs != [] {
      var n := |rs| - 1;
      var a, b := rs[..n], ts[..n];
      ReadOneWay(img, length, a, b);
      LastRead(img, length, a, rs[n]);
      LastRead(img, length, b, ts[n]);
      assert rs == a + [rs[n]] && ts == b + [ts[n]];
    }
  }

  lemma LastRead(img: seq<byte>, length: nat, read: seq<Record>, r: Record)
    requires length <= |img| && ReadUpTo(img, length, read + [r]).Some?
    ensures var off := ReadUpTo(img, length, read);
      && off.Some? && F.ParseRecord(img, off.value, length).Some?
      && r == F.ParseRecord(img, off.value, length).value.record
  {
    assert (read + [r])[..|read|] == read;
  }

  /** What the loop of `diskfs_load` has done with an image when it returns `rc`: read `read` and made nodes of
      them, all of them if `rc` is 1, and otherwise up to the pass that gives this error. */
  ghost predicate Loaded(start: Loading, img: seq<byte>, count: nat, length: nat, heap: LoadHeap, read: seq<Record>,
                         rc: int)
    requires LoadingOk(start) && length <= |img|
  {
    && ReadUpTo(img, length, read).Some? && LoadAll(start, read).Some? && GrantedUpTo(read, |read|, heap)
    && |read| <= count
    && (rc == 1 <==> |read| == count)
    && (rc != 1 ==>
          LoadNext(LoadAll(start, read).value, img, ReadUpTo(img, length, read).value, length, |read|, heap)
            == Broken(rc))
  }

  /** `diskfs_load`, on any disk. A disk without the mark, or whose superblock or sectors cannot be used, leaves
      the fresh system as it is. Otherwise its records become nodes one by one, until one of them is malformed or
      memory runs out. */
  method Load(fs: R.RamFs, heap: LoadHeap) returns (rc: int, ghost read: seq<Record>)
    requires ROOT in fs.nodes && ROOT < fs.next && |fs.blockfs.disk.sectors| < U32_LIMIT
    modifies fs`nodes, fs`next
    ensures ROOT in fs.nodes
    ensures Reacts(fs.blockfs.disk.Bytes(), |fs.blockfs.disk.sectors|, heap, old(fs.nodes), old(fs.next), rc, read,
                   fs.nodes, fs.next)
  {
    var img, count, length;
    read := [];
    rc, img, count, length := ReadImage(fs.blockfs.disk, heap.image);
    NotReached(fs.blockfs.disk.Bytes(), |fs.blockfs.disk.sectors|, heap, rc, img, count, length);
    if rc == 1 && !heap.index { rc := -6; return; }
    if rc == 1 {
      rc, read := Rebuild(fs, img, count, length, heap);
    }
  }

  /** An image that `Save` wrote is rebuilt if and only if there is memory for it. */
  lemma SavedLoads(bytes: seq<byte>, total: u32, heap: LoadHeap, nodes: map<nat, Node>, next: nat, rc: int,
                   read: seq<Record>, nodes': map<nat, Node>, next': nat, rs: seq<Record>)
    requires HoldsImage(bytes, total, rs) && rs != [] && ROOT in nodes && ROOT < next
    requires Reacts(bytes, total, heap, nodes, next, rc, read, nodes', next')
    requires LoadAll(Wiped(nodes, next), rs).Some?
    ensures rc == 1 <==> Loads(rs, heap)
    ensures rc == 1 ==>
      LoadAll(Wiped(nodes, next), rs) == Some(Loading(nodes', next', LoadAll(Wiped(nodes, next), rs).value.ids))
  {
    SavedAnnounces(bytes, total, rs);
    if heap.image && heap.index {
      var img := ImageSectors(bytes, total, |F.Image(rs)|);
      ImageRead(bytes, total, rs, img);
      SavedRead(Wiped(nodes, next), img, rs, heap, read, rc);
    }
  }

  /** The loop over such an image reads its records, and all of them if there is memory for each. */
  lemma SavedRead(start: Loading, img: seq<byte>, rs: seq<Record>, heap: LoadHeap, read: seq<Record>, rc: int)
    requires LoadingOk(start) && F.ImageFits(rs) && F.Image(rs) <= img && LoadAll(start, rs).Some?
    requires Loaded(start, img, |rs|, |F.Image(rs)|, heap, read, rc)
    ensures read <= rs && (rc == 1 <==> GrantedUpTo(rs, |rs|, heap)) && (rc == 1 ==> read == rs)
  {
    var k, length := |read|, |F.Image(rs)|;
    SavedOffsets(img, rs, length, rs[..k]);
    ReadOneWay(img, length, read, rs[..k]);
    if k == |rs| {
      assert rs[..k] == rs;
    } else {
      F.ParseImage(rs, img, k);
      LoadAllPrefix(start, rs, k + 1);
      assert rs[..k + 1][..k] == rs[..k];
    }
  }

  lemma {:induction false} SavedOffsets(img: seq<byte>, rs: seq<Record>, length: nat, read: seq<Record>)
    requires F.ImageFits(rs) && F.Image(rs) <= img && read <= rs && length == |F.Image(rs)|
    ensures ReadUpTo(img, length, read) == Some(F.RecordOffset(rs, |read|))
  {
    var n := |read|;
    if n > 0 {
      SavedOffsets(img, rs, length, read[..n - 1]);
      F.ParseImage(rs, img, n - 1);
    }
  }

  /** What a load does with any disk. */
  ghost predicate Reacts(bytes: seq<byte>, total: u32, heap: LoadHeap, nodes: map<nat, Node>, next: nat, rc: int,
                         read: seq<Record>, nodes': map<nat, Node>, next': nat)
    requires |bytes| == SECTOR * total && ROOT in nodes && ROOT < next
  {
    && (rc == 0 <==> total > 0 && !Marked(bytes, total))
    && (-6 <= rc <= 0 <==> !Usable(bytes, total, heap))
    && if !Usable(bytes, total, heap) then nodes' == nodes && next' == next
       else
         var count, length := HeadWord(bytes, total, 2), HeadWord(bytes, total, 3);
         var st := Wiped(nodes, next);
         && Loaded(st, ImageSectors(bytes, total, length), count, length, heap, read, rc)
         && LoadAll(st, read) == Some(Loading(nodes', next', LoadAll(st, read).value.ids))
  }

  lemma NotReached(bytes: seq<byte>, total: u32, heap: LoadHeap, rc: int, img: seq<byte>, count: nat, length: nat)
    requires |bytes| == SECTOR * total && ImageFound(bytes, total, heap.image, rc, img, count, length)
    ensures Usable(bytes, total, heap) <==> rc == 1 && heap.index
  {
  }

  /** The loop is reached. */
  ghost predicate Usable(bytes: seq<byte>, total: u32, heap: LoadHeap)
    requires |bytes| == SECTOR * total
  {
    && heap.image && heap.index && total > 0
    && Announces(bytes, total, HeadWord(bytes, total, 2), HeadWord(bytes, total, 3))
    && SnapshotBase(total) + Sectors(HeadWord(bytes, total, 3)) <= total
  }

  /** What the first part of `diskfs_load` finds: the announced image, in memory. */
  ghost predicate ImageFound(bytes: seq<byte>, total: u32, heapOk: bool, rc: int, img: seq<byte>, count: nat,
                             length: nat)
    requires |bytes| == SECTOR * total
  {
    && -5 <= rc <= 1 && (rc == 0 <==> total > 0 && !Marked(bytes, total))
    && (rc == 1 <==> heapOk && Announces(bytes, total, count, length)
                     && SnapshotBase(total) + Sectors(length) <= total)
    && (rc == 1 ==> length <= |img| && img == ImageSectors(bytes, total, length))
    && (total > 0 && Marked(bytes, total) ==>
          count == HeadWord(bytes, total, 2) && length == HeadWord(bytes, total, 3))
  }

  /** The first part of `diskfs_load`: checks the superblock and reads the image. */
  method ReadImage(disk: Disk, heapOk: bool) returns (rc: int, img: seq<byte>, count: nat, length: nat)
    requires |disk.sectors| < U32_LIMIT
    ensures ImageFound(disk.Bytes(), |disk.sectors|, heapOk, rc, img, count, length)
  {
    img := [];
    rc, count, length := ReadSuperblock(disk);
    if rc != 1 { return; }
    if !heapOk { rc := -4; return; }
    var base := SnapshotBase(|disk.sectors|);
    var ok;
    ok, img := disk.ReadRun(base, Sectors(length), READ_CHUNK);
    if !ok { rc := -5; return; }
  }

  method ReadSuperblock(disk: Disk) returns (rc: int, count: nat, length: nat)
    requires |disk.sectors| < U32_LIMIT
    ensures var bytes, total := disk.Bytes(), |disk.sectors|;
      && (rc == -2 <==> total == 0) && (rc == 0 <==> total > 0 && !Marked(bytes, total))
      && (rc == 1 <==> Announces(bytes, total, count, length))
      && -3 <= rc <= 1 && rc != -1
      && (total > 0 && Marked(bytes, total) ==>
            count == HeadWord(bytes, total, 2) && length == HeadWord(bytes, total, 3))
  {
    var base := SnapshotBase(|disk.sectors|);
    count, length := 0, 0;
    if |disk.sectors| > 0 { SnapshotBaseInRange(|disk.sectors|); }
    var ok, sb := disk.Read(base, 1);
    if !ok { rc := -2; return; }
    HeadWords(disk.Bytes(), |disk.sectors|, sb);
    if DecodeU32(sb, 0) != F.MAGIC || DecodeU32(sb, 4) != F.VERSION { rc := 0; return; }
    count, length := DecodeU32(sb, 8), DecodeU32(sb, 12);
    HeadMeans(disk.Bytes(), |disk.sectors|, count, length);
    rc := if count == 0 || count > F.MAX_NODES || length < 16 || length > F.MAX_IMAGE then -3 else 1;
  }

  lemma HeadMeans(bytes: seq<byte>, total: u32, count: nat, length: nat)
    requires |bytes| == SECTOR * total && Marked(bytes, total)
    requires count == HeadWord(bytes, total, 2) && length == HeadWord(bytes, total, 3)
    ensures Announces(bytes, total, count, length) <==>
      !(count == 0 || count > F.MAX_NODES || length < 16 || length > F.MAX_IMAGE)
  {
  }

  lemma HeadWords(bytes: seq<byte>, total: u32, sb: seq<byte>)
    requires |bytes| == SECTOR * total && SnapshotBase(total) < total
    requires sb == bytes[SECTOR * SnapshotBase(total)..SECTOR * (SnapshotBase(total) + 1)]
    ensures |sb| == SECTOR
    ensures HeadWord(bytes, total, 0) == DecodeU32(sb, 0) && HeadWord(bytes, total, 1) == DecodeU32(sb, 4)
    ensures HeadWord(bytes, total, 2) == DecodeU32(sb, 8) && HeadWord(bytes, total, 3) == DecodeU32(sb, 12)
  {
    var at := SECTOR * SnapshotBase(total);
    assert forall d {:trigger sb[d]} :: 0 <= d < 16 ==> sb[d] == bytes[at + d];
  }

  /** A snapshot that was saved is announced. */
  lemma SavedAnnounces(bytes: seq<byte>, total: u32, rs: seq<Record>)
    requires HoldsImage(bytes, total, rs) && rs != []
    ensures Announces(bytes, total, |rs|, |F.Image(rs)|) && SnapshotBase(total) + Sectors(|F.Image(rs)|) <= total
  {
    var base := SnapshotBase(total);
    assert |F.Image(rs)| >= 16 && Sectors(|F.Image(rs)|) > 0;
    var sb := bytes[SECTOR * base..SECTOR * (base + 1)];
    HeadWords(bytes, total, sb);
    SuperblockRead(bytes, total, rs, sb);
  }

  lemma SuperblockRead(bytes: seq<byte>, total: u32, rs: seq<Record>, sb: seq<byte>)
    requires HoldsImage(bytes, total, rs) && SnapshotBase(total) < total
    requires sb == bytes[SECTOR * SnapshotBase(total)..SECTOR * (SnapshotBase(total) + 1)]
    ensures |sb| == SECTOR && DecodeU32(sb, 0) == F.MAGIC && DecodeU32(sb, 4) == F.VERSION
    ensures DecodeU32(sb, 8) == |rs| && DecodeU32(sb, 12) == |F.Image(rs)| >= 16
  {
    var tail := bytes[SECTOR * SnapshotBase(total)..];
    var head := F.Superblock(|rs|, 16 + |F.EncodeAll(rs)|);
    assert F.Image(rs)[..16] == head;
    assert sb[..16] == tail[..16] == F.Image(rs)[..16];
    F.ParseSuperblock(|rs|, 16 + |F.EncodeAll(rs)|, sb);
  }

  lemma ImageRead(bytes: seq<byte>, total: u32, rs: seq<Record>, img: seq<byte>)
    requires HoldsImage(bytes, total, rs)
    requires img == bytes[SECTOR * SnapshotBase(total)..SECTOR * (SnapshotBase(total) + Sectors(|F.Image(rs)|))]
    ensures F.Image(rs) <= img
  {
    var tail := bytes[SECTOR * SnapshotBase(total)..];
    assert img == tail[..|img|];
  }

  /** The loop of `diskfs_load` over the records. */
  method Rebuild(fs: R.RamFs, img: seq<byte>, count: nat, length: nat, heap: LoadHeap)
    returns (rc: int, ghost read: seq<Record>)
    requires ROOT in fs.nodes && ROOT < fs.next && length <= |img|
    modifies fs`nodes, fs`next
    ensures ROOT in fs.nodes && (rc == 1 || -9 <= rc <= -7)
    ensures var st := Wiped(old(fs.nodes), old(fs.next));
      && Loaded(st, img, count, length, heap, read, rc)
      && LoadAll(st, read) == Some(Loading(fs.nodes, fs.next, LoadAll(st, read).value.ids))
  {
    var st;
    rc, st, read := RebuildHeap(Wiped(fs.nodes, fs.next), img, count, length, heap);
    fs.nodes, fs.next := st.nodes, st.next;
  }

  predicate Indexed(st: Loading) {
    ROOT in st.nodes && forall k :: 0 <= k < |st.ids| ==> st.ids[k] in st.nodes
  }

  datatype Pass = Broken(rc: int) | Next(st: Loading, off: nat)

  /** One pass of the loop: header, name and parent are checked, the node is made, then the payload is
      checked and gets its buffer. */
  function LoadNext(st: Loading, img: seq<byte>, off: nat, length: nat, i: nat, heap: LoadHeap): (r: Pass)
    requires Indexed(st) && length <= |img|
    ensures r.Next? ==> Indexed(r.st)
    ensures r.Next? <==>
      && F.ParseRecord(img, off, length).Some?
      && LoadRecord(st, F.ParseRecord(img, off, length).value.record).Some?
      && Granted(F.ParseRecord(img, off, length).value.record, i, heap)
    ensures r.Next? ==>
      && Some(r.st) == LoadRecord(st, F.ParseRecord(img, off, length).value.record)
      && r.off == F.ParseRecord(img, off, length).value.next
    ensures r.Broken? ==> -9 <= r.rc <= -7
  {
    if off + 32 > length then Broken(-7) else
    var ws := F.DecodeWords(img, off, 8);
    if off + 32 + ws[6] > length || ws[6] >= VFS_NAME_MAX then Broken(-7) else
    var parent := F.SignedWord(ws[0]);
    if parent >= |st.ids| then Broken(-7)
    else if parent >= 0 && (|st.nodes[st.ids[parent]].children| >= VFS_MAX_CHILDREN || !heap.node(i)) then Broken(-8)
    else
      var p := F.ParseRecord(img, off, length);
      if p.None? then Broken(-7)
      else if NeedsBuffer(p.value.record.meta) && !heap.contents(i) then Broken(-9)
      else Next(LoadRecord(st, p.value.record).value, p.value.next)
  }

  /** Which errors end the loop: memory for the contents is missing, or for a node, or its directory is full. */
  lemma PassCodes(st: Loading, img: seq<byte>, off: nat, length: nat, i: nat, heap: LoadHeap)
    requires Indexed(st) && length <= |img| && F.ParseRecord(img, off, length).Some?
    ensures var r := F.ParseRecord(img, off, length).value.record;
      && (LoadNext(st, img, off, length, i, heap) == Broken(-7) <==> r.parent >= |st.ids|)
      && (LoadNext(st, img, off, length, i, heap) == Broken(-9)
          <==> LoadRecord(st, r).Some? && (r.parent >= 0 ==> heap.node(i)) && NeedsBuffer(r.meta) && !heap.contents(i))
  {
  }

  /** A record needs a buffer if and only if its node has something that a new node has not. */
  lemma BufferNeeded(n: Node, m: Meta)
    requires n.data.None? && n.blocks.None? && (m.payload.Inline? ==> |m.payload.bytes| == m.size)
    ensures NeedsBuffer(m) <==> Restore(n, m).data.Some? || Restore(n, m).blocks.Some?
  {
  }

  method RebuildHeap(start: Loading, img: seq<byte>, count: nat, length: nat, heap: LoadHeap)
    returns (rc: int, st: Loading, ghost read: seq<Record>)
    requires LoadingOk(start) && length <= |img|
    ensures Indexed(st) && (rc == 1 || -9 <= rc <= -7)
    ensures Loaded(start, img, count, length, heap, read, rc) && LoadAll(start, read) == Some(st)
  {
    var off, i := 16, 0;
    st, read := start, [];
    while i < count
      invariant 0 <= i <= count && Indexed(st) && |read| == i && GrantedUpTo(read, i, heap)
      invariant ReadUpTo(img, length, read) == Some(off) && LoadAll(start, read) == Some(st)
    {
      var p := LoadNext(st, img, off, length, i, heap);
      if p.Broken? { return p.rc, st, read; }
      ghost var r := F.ParseRecord(img, off, length).value.record;
      ReadNext(start, st, img, off, length, read, r);
      st, off, i := p.st, p.off, i + 1;
      read := read + [r];
    }
    rc := 1;
  }

  lemma ReadNext(start: Loading, st: Loading, img: seq<byte>, off: nat, length: nat, read: seq<Record>, r: Record)
    requires LoadingOk(start) && length <= |img| && ReadUpTo(img, length, read) == Some(off)
    requires LoadAll(start, read) == Some(st) && F.ParseRecord(img, off, length).Some?
    requires r == F.ParseRecord(img, off, length).value.record
    ensures ReadUpTo(img, length, read + [r]) == Some(F.ParseRecord(img, off, length).value.next)
    ensures Indexed(st) && LoadAll(start, read + [r]) == LoadRecord(st, r)
  {
    assert (read + [r])[..|read|] == read;
  }
}
