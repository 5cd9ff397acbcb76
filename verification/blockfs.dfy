/** Bit operations on the allocation bitmap (fs/blockfs.c), with `|=` and `&=` by a one-bit
    mask written arithmetically. */
module Bitmap {
  import opened Bytes

  function Pow2(k: nat): (r: nat) {
    if k == 0 then 1 else 2 * Pow2(k - 1)
  }

  /** `(b >> k) & 1`. */
  predicate TestBit(b: nat, k: nat) {
    if k == 0 then b % 2 == 1 else TestBit(b / 2, k - 1)
  }

  /** `b | (1 << k)` or `b & ~(1 << k)`, on a word of `width` bits. */
  function PutBit(b: nat, k: nat, v: bool, width: nat): (r: nat)
    requires k < width && b < Pow2(width)
    ensures r < Pow2(width)
    decreases k
  {
    if k == 0 then b / 2 * 2 + (if v then 1 else 0)
    else 2 * PutBit(b / 2, k - 1, v, width - 1) + b % 2
  }

  lemma {:induction false} PutBitTest(b: nat, k: nat, v: bool, width: nat, j: nat)
    requires k < width && b < Pow2(width)
    ensures TestBit(PutBit(b, k, v, width), j) == if j == k then v else TestBit(b, j)
    decreases k
  {
    if k == 0 {
      assert (b / 2 * 2 + 1) / 2 == b / 2 && (b / 2 * 2) / 2 == b / 2;
    } else {
      var h := PutBit(b / 2, k - 1, v, width - 1);
      assert (2 * h + b % 2) / 2 == h && (2 * h + b % 2) % 2 == b % 2;
      if j > 0 { PutBitTest(b / 2, k - 1, v, width - 1, j - 1); }
    }
  }

  function Put(b: byte, k: nat, v: bool): (r: byte)
    requires k < 8
    ensures forall j: nat :: j < 8 ==> TestBit(r, j) == if j == k then v else TestBit(b, j)
  {
    ByteWidth();
    assert forall j: nat {:trigger TestBit(b, j)} :: j < 8 ==>
      TestBit(PutBit(b, k, v, 8), j) == if j == k then v else TestBit(b, j) by {
      forall j: nat | j < 8
        ensures TestBit(PutBit(b, k, v, 8), j) == if j == k then v else TestBit(b, j)
      {
        PutBitTest(b, k, v, 8, j);
      }
    }
    PutBit(b, k, v, 8)
  }

  lemma ByteWidth()
    ensures Pow2(8) == 0x100
  {
    assert Pow2(4) == 16;
  }

  /** The bitmap read as one truth value for each of the first `n` blocks. */
  function Bits(bitmap: seq<byte>, n: nat): (r: seq<bool>)
    requires n <= 8 * |bitmap|
    ensures |r| == n
  {
    seq(n, i requires 0 <= i < n => TestBit(bitmap[i / 8], i % 8))
  }

  /** Block `i` has bit `i % 8` of byte `i / 8`, and bit `k` is the one of value 2 to the `k`. */
  lemma BitValues(b: byte)
    ensures TestBit(b, 0) <==> b % 2 == 1
    ensures TestBit(b, 1) <==> b / 2 % 2 == 1
    ensures TestBit(b, 2) <==> b / 4 % 2 == 1
    ensures TestBit(b, 3) <==> b / 8 % 2 == 1
    ensures TestBit(b, 4) <==> b / 16 % 2 == 1
    ensures TestBit(b, 5) <==> b / 32 % 2 == 1
    ensures TestBit(b, 6) <==> b / 64 % 2 == 1
    ensures TestBit(b, 7) <==> b / 128 % 2 == 1
  {
    LowBits(b);
    LowBits(b / 16);
    HighBits(b);
  }

  lemma LowBits(b: nat)
    ensures TestBit(b, 0) <==> b % 2 == 1
    ensures TestBit(b, 1) <==> b / 2 % 2 == 1
    ensures TestBit(b, 2) <==> b / 4 % 2 == 1
    ensures TestBit(b, 3) <==> b / 8 % 2 == 1
  {
    assert b / 2 / 2 == b / 4 && b / 4 / 2 == b / 8;
  }

  lemma HighBits(b: nat)
    ensures TestBit(b, 4) == TestBit(b / 16, 0) && TestBit(b, 5) == TestBit(b / 16, 1)
    ensures TestBit(b, 6) == TestBit(b / 16, 2) && TestBit(b, 7) == TestBit(b / 16, 3)
    ensures b / 16 / 2 == b / 32 && b / 16 / 4 == b / 64 && b / 16 / 8 == b / 128
  {
    assert b / 2 / 2 / 2 / 2 == b / 16;
    forall k: nat | k < 4 ensures TestBit(b, k + 4) == TestBit(b / 16, k) {
      assert TestBit(b, k + 4) == TestBit(b / 2, k + 3) == TestBit(b / 2 / 2, k + 2);
      assert TestBit(b / 2 / 2, k + 2) == TestBit(b / 2 / 2 / 2, k + 1) == TestBit(b / 2 / 2 / 2 / 2, k);
    }
  }

  lemma BitsPut(bitmap: seq<byte>, n: nat, i: nat, v: bool)
    requires i < n <= 8 * |bitmap|
    ensures Bits(bitmap[i / 8 := Put(bitmap[i / 8], i % 8, v)], n) == Bits(bitmap, n)[i := v]
  {
  }

  /** Number of set bits: what `used_blocks` counts. */
  function Count(s: seq<bool>): (r: nat)
    ensures r <= |s|
  {
    if s == [] then 0 else Count(s[..|s| - 1]) + (if s[|s| - 1] then 1 else 0)
  }

  lemma {:induction false} CountUpdate(s: seq<bool>, i: nat, v: bool)
    requires i < |s|
    ensures Count(s[i := v]) == Count(s) + (if v then 1 else 0) - (if s[i] then 1 else 0)
  {
    var n := |s| - 1;
    if i == n {
      assert s[i := v][..n] == s[..n];
    } else {
      assert s[i := v][..n] == s[..n][i := v];
      CountUpdate(s[..n], i, v);
    }
  }

  /** Number of clear bits: how many blocks can still be had. */
  function Free(s: seq<bool>): nat { |s| - Count(s) }

  /** None is clear if and only if all are set. */
  lemma {:induction false} NoneFree(s: seq<bool>)
    ensures Free(s) == 0 <==> forall i :: 0 <= i < |s| ==> s[i]
  {
    if s != [] {
      var n := |s| - 1;
      NoneFree(s[..n]);
      assert forall i :: 0 <= i < n ==> s[..n][i] == s[i];
    }
  }
}

/** The 4 KiB block allocator (fs/blockfs.c): a bitmap in RAM over data blocks on disk. */
module BlockStore {
  import opened Bytes
  import opened SectorDisk
  import opened Layout
  import opened Bitmap

  const BLOCK_INVALID: u32 := 0xFFFF_FFFF
  const READ_CHUNK: nat := 255
  const WRITE_CHUNK: nat := 32

  type Block = b: seq<byte> | |b| == BLOCK_SIZE witness Zeros(BLOCK_SIZE)

  /** What the allocator means to its clients: which blocks are taken, and their contents. */
  datatype Store = Store(used: seq<bool>, data: seq<Block>) {
    ghost predicate Valid() {
      |used| == |data| && |used| < BLOCK_INVALID
    }
  }

  function BlockOffset(g: Geometry, b: nat): nat {
    SECTOR * (g.dataStart + SECTORS_PER_BLOCK * b)
  }

  ghost predicate Holds(g: Geometry, bytes: seq<byte>) {
    BlockOffset(g, g.blocks) <= |bytes|
  }

  /** The data blocks found in a disk image. */
  ghost function DataOf(bytes: seq<byte>, g: Geometry): (r: seq<Block>)
    requires Holds(g, bytes)
    ensures |r| == g.blocks
  {
    seq(g.blocks, b requires 0 <= b < g.blocks =>
      bytes[BlockOffset(g, b)..BlockOffset(g, b) + BLOCK_SIZE])
  }

  lemma DataOfWrite(bytes: seq<byte>, g: Geometry, b: nat, blk: Block)
    requires Holds(g, bytes) && b < g.blocks
    ensures DataOf(Splice(bytes, BlockOffset(g, b), blk), g) == DataOf(bytes, g)[b := blk]
  {
    var bytes' := Splice(bytes, BlockOffset(g, b), blk);
    forall c | 0 <= c < g.blocks ensures DataOf(bytes', g)[c] == DataOf(bytes, g)[b := blk][c] {
      if c != b {
        assert c < b ==> BlockOffset(g, c) + BLOCK_SIZE <= BlockOffset(g, b);
        assert c > b ==> BlockOffset(g, b) + BLOCK_SIZE <= BlockOffset(g, c);
      }
    }
  }

  /** A write below or above the data area leaves every block alone. */
  lemma DataOfFrame(bytes: seq<byte>, g: Geometry, off: nat, src: seq<byte>)
    requires Holds(g, bytes) && off + |src| <= |bytes|
    requires off + |src| <= BlockOffset(g, 0) || BlockOffset(g, g.blocks) <= off
    ensures DataOf(Splice(bytes, off, src), g) == DataOf(bytes, g)
  {
    var bytes' := Splice(bytes, off, src);
    forall c | 0 <= c < g.blocks ensures DataOf(bytes', g)[c] == DataOf(bytes, g)[c] {
      assert BlockOffset(g, 0) <= BlockOffset(g, c) && BlockOffset(g, c) + BLOCK_SIZE <= BlockOffset(g, g.blocks);
    }
  }

  /** Outside the data area a disk is as it was: boot reserve, bitmap and snapshot. Without block storage
      no block can be written, and all of it is. */
  ghost predicate OutsideKept(available: bool, g: Geometry, was: seq<byte>, now: seq<byte>) {
    if !available then now == was
    else
      && Holds(g, was) && |now| == |was|
      && now[..BlockOffset(g, 0)] == was[..BlockOffset(g, 0)]
      && now[BlockOffset(g, g.blocks)..] == was[BlockOffset(g, g.blocks)..]
  }

  /** Writing a block keeps everything outside the data area. */
  lemma BlockInside(bytes: seq<byte>, g: Geometry, b: nat, blk: Block)
    requires Holds(g, bytes) && b < g.blocks
    ensures OutsideKept(true, g, bytes, Splice(bytes, BlockOffset(g, b), blk))
  {
    assert BlockOffset(g, 0) <= BlockOffset(g, b) && BlockOffset(g, b) + BLOCK_SIZE <= BlockOffset(g, g.blocks);
  }

  /** The sectors of a block are on the disk, and writing them is writing the block. */
  lemma BlockLands(bytes: seq<byte>, total: u32, g: Geometry, b: nat, blk: Block)
    requires Fits(g, total) && |bytes| == SECTOR * total && b < g.blocks
    ensures BlockLba(g, b) + SECTORS_PER_BLOCK <= total && SECTOR * BlockLba(g, b) == BlockOffset(g, b)
    ensures var now := Splice(bytes, BlockOffset(g, b), blk);
      DataOf(now, g) == DataOf(bytes, g)[b := blk] && OutsideKept(true, g, bytes, now)
  {
    BlockLbaExact(g, total, b);
    DataOfWrite(bytes, g, b, blk);
    BlockInside(bytes, g, b, blk);
  }

  /** The bitmap as it is stored: padded with zeros to whole sectors. */
  function Padded(bitmap: seq<byte>, sectors: nat): (r: seq<byte>)
    requires |bitmap| <= SECTOR * sectors
    ensures |r| == SECTOR * sectors
  {
    bitmap + Zeros(SECTOR * sectors - |bitmap|)
  }

  class BlockFs {
    const disk: Disk
    var available: bool
    var geo: Geometry
    var bitmap: seq<byte>
    var usedBlocks: nat
    ghost var view: Store    // the abstract value, kept in step by every method

    ghost predicate Valid()
      reads this, disk
    {
      available ==>
        && Fits(geo, |disk.sectors|)
        && |bitmap| == geo.bitmapBytes
        && usedBlocks == Count(view.used)
        && view.Valid()
        && view.used == Bits(bitmap, geo.blocks)
        && view.data == DataOf(disk.Bytes(), geo)
    }

    /** `blockfs_init`: the bitmap is whatever the medium holds. */
    constructor (disk: Disk, heapOk: bool)
      requires |disk.sectors| < U32_LIMIT
      ensures this.disk == disk && Valid()
      ensures available <==> heapOk && Plan(|disk.sectors|).Some?
      ensures available ==> Plan(|disk.sectors|) == Some(geo)
      ensures available ==> bitmap == disk.Bytes()[SECTOR * BOOT_SECTORS..][..geo.bitmapBytes]
    {
      this.disk := disk;
      available := false;
      geo := Geometry(0, 0, 0, 0);
      bitmap := [];
      usedBlocks := 0;
      view := Store([], []);
      new;
      var plan := Plan(|disk.sectors|);
      PlanFits(|disk.sectors|);
      if heapOk && plan.Some? {
        geo := plan.value;
        LoadBitmap();
        Recount();
        view := Store(Bits(bitmap, geo.blocks), DataOf(disk.Bytes(), geo));
        available := true;
      }
    }

    method LoadBitmap()
      requires Fits(geo, |disk.sectors|)
      modifies this`bitmap
      ensures bitmap == disk.Bytes()[SECTOR * BOOT_SECTORS..][..geo.bitmapBytes]
    {
      var ok, image := disk.ReadRun(BOOT_SECTORS, geo.bitmapSectors, READ_CHUNK);
      bitmap := image[..geo.bitmapBytes];
    }

    method Recount()
      requires geo.blocks <= 8 * |bitmap|
      modifies this`usedBlocks
      ensures usedBlocks == Count(Bits(bitmap, geo.blocks))
    {
      ghost var bits := Bits(bitmap, geo.blocks);
      var i := 0;
      usedBlocks := 0;
      while i < geo.blocks
        invariant 0 <= i <= geo.blocks && usedBlocks == Count(bits[..i])
      {
        assert bits[..i + 1][..i] == bits[..i];
        if TestBit(bitmap[i / 8], i % 8) {
          usedBlocks := usedBlocks + 1;
        }
        i := i + 1;
      }
      assert bits[..i] == bits;
    }

    /** `blockfs_alloc`: the lowest free block, or `BLOCK_INVALID` when none is free. */
    method Alloc() returns (b: u32)
      requires Valid()
      modifies this`bitmap, this`usedBlocks, this`view
      ensures Valid() && disk.Bytes() == old(disk.Bytes())
      ensures !available ==> b == BLOCK_INVALID
      ensures available && b == BLOCK_INVALID ==>
        view == old(view) && forall i :: 0 <= i < geo.blocks ==> view.used[i]
      ensures available && b != BLOCK_INVALID ==>
        && b < geo.blocks && !old(view).used[b]
        && (forall i :: 0 <= i < b ==> old(view).used[i])
        && view == old(view).(used := old(view).used[b := true])
    {
      if !available { return BLOCK_INVALID; }
      var i := 0;
      while i < geo.blocks
        invariant 0 <= i <= geo.blocks && bitmap == old(bitmap) && usedBlocks == old(usedBlocks)
        invariant forall j :: 0 <= j < i ==> Bits(bitmap, geo.blocks)[j]
      {
        if !TestBit(bitmap[i / 8], i % 8) {
          BitsPut(bitmap, geo.blocks, i, true);
          CountUpdate(Bits(bitmap, geo.blocks), i, true);
          bitmap := bitmap[i / 8 := Put(bitmap[i / 8], i % 8, true)];
          usedBlocks := usedBlocks + 1;
          view := view.(used := view.used[i := true]);
          return i;
        }
        i := i + 1;
      }
      return BLOCK_INVALID;
    }

    /** `blockfs_free`: out-of-range and already free blocks are ignored. */
    method Free(b: u32)
      requires Valid()
      modifies this`bitmap, this`usedBlocks, this`view
      ensures Valid() && disk.Bytes() == old(disk.Bytes())
      ensures available && b < geo.blocks ==>
        view == old(view).(used := old(view).used[b := false])
      ensures !(available && b < geo.blocks) ==>
        bitmap == old(bitmap) && usedBlocks == old(usedBlocks) && view == old(view)
    {
      if !available || b >= geo.blocks { return; }
      ghost var bits := Bits(bitmap, geo.blocks);
      if TestBit(bitmap[b / 8], b % 8) {
        BitsPut(bitmap, geo.blocks, b, false);
        CountUpdate(bits, b, false);
        bitmap := bitmap[b / 8 := Put(bitmap[b / 8], b % 8, false)];
        if usedBlocks != 0 { usedBlocks := usedBlocks - 1; }
      } else {
        assert bits[b := false] == bits;
      }
      view := view.(used := view.used[b := false]);
    }

    method ReadBlock(b: u32) returns (ok: bool, blk: seq<byte>)
      requires Valid()
      ensures ok <==> available && b < geo.blocks
      ensures ok ==> blk == view.data[b]
    {
      if !available || b >= geo.blocks { return false, []; }
      BlockLbaExact(geo, |disk.sectors|, b);
      ok, blk := disk.Read(BlockLba(geo, b), SECTORS_PER_BLOCK);
    }

    method WriteBlock(b: u32, blk: Block) returns (ok: bool)
      requires Valid()
      modifies disk, this`view
      ensures Valid()
      ensures ok <==> available && b < geo.blocks
      ensures |disk.sectors| == old(|disk.sectors|)
      ensures disk.Bytes() == if ok then Splice(old(disk.Bytes()), BlockOffset(geo, b), blk) else old(disk.Bytes())
      ensures ok ==> view == old(view).(data := old(view).data[b := blk])
      ensures OutsideKept(available, geo, old(disk.Bytes()), disk.Bytes())
    {
      if !available || b >= geo.blocks { return false; }
      BlockLands(disk.Bytes(), |disk.sectors|, geo, b, blk);
      assert Transfer(SECTORS_PER_BLOCK) == SECTORS_PER_BLOCK;
      ok := disk.Write(BlockLba(geo, b), SECTORS_PER_BLOCK, blk);
      view := view.(data := view.data[b := blk]);
    }

    /** `blockfs_flush_bitmap`. */
    method FlushBitmap(heapOk: bool) returns (rc: int)
      requires Valid()
      modifies disk
      ensures Valid() && |disk.sectors| == old(|disk.sectors|)
      ensures rc == if !available then -1 else if !heapOk then -2 else 0
      ensures rc != 0 ==> disk.Bytes() == old(disk.Bytes())
      ensures rc == 0 ==>
        disk.Bytes() == Splice(old(disk.Bytes()), SECTOR * BOOT_SECTORS, Padded(bitmap, geo.bitmapSectors))
    {
      if !available { return -1; }
      if !heapOk { return -2; }
      var image := Padded(bitmap, geo.bitmapSectors);
      DataOfFrame(disk.Bytes(), geo, SECTOR * BOOT_SECTORS, image);
      disk.WriteRun(BOOT_SECTORS, geo.bitmapSectors, image, WRITE_CHUNK);
      rc := 0;
    }
  }
}
