/** What a disk holds for the file system, and what the three ways of writing to it leave: blocks of
    files, a sync, and a write to /dev/sda past the file system. */
module DiskState {
  import opened Bytes
  import opened SectorDisk
  import opened Layout
  import opened Bitmap
  import opened BlockStore
  import D = DiskFs
  import F = SnapshotFormat
  import W = RawDisk

  ghost predicate Sized(bytes: seq<byte>, total: u32) {
    |bytes| == SECTOR * total
  }

  /** The bytes of the bitmap. */
  function BitmapOn(bytes: seq<byte>, g: Geometry): (r: seq<byte>)
    requires SECTOR * BOOT_SECTORS + g.bitmapBytes <= |bytes|
    ensures |r| == g.bitmapBytes
  {
    bytes[SECTOR * BOOT_SECTORS..][..g.bitmapBytes]
  }

  /** The block store that boot finds. */
  ghost function StoreOn(bytes: seq<byte>, total: u32, g: Geometry): (s: Store)
    requires Sized(bytes, total) && Fits(g, total)
    ensures s.Valid()
  {
    Store(Bits(BitmapOn(bytes, g), g.blocks), DataOf(bytes, g))
  }

  // ---- the image ----

  /** A disk holds one image at most: what a snapshot says can be read in one way only. */
  lemma ImageUnique(bytes: seq<byte>, total: u32, rs: seq<F.Record>, ts: seq<F.Record>)
    requires D.HoldsImage(bytes, total, rs) && D.HoldsImage(bytes, total, ts)
    ensures rs == ts
  {
    var img := bytes[SECTOR * SnapshotBase(total)..];
    SameHeads(rs, ts, img);
    SameRecords(rs, ts, img, |rs|);
  }

  lemma SameHeads(rs: seq<F.Record>, ts: seq<F.Record>, img: seq<byte>)
    requires F.ImageFits(rs) && F.ImageFits(ts) && F.Image(rs) <= img && F.Image(ts) <= img
    ensures |rs| == |ts| && |F.Image(rs)| == |F.Image(ts)|
  {
    var n, m := 16 + |F.EncodeAll(rs)|, 16 + |F.EncodeAll(ts)|;
    assert img[..16] == F.Image(rs)[..16] == F.Superblock(|rs|, n);
    assert img[..16] == F.Image(ts)[..16] == F.Superblock(|ts|, m);
    F.ParseSuperblock(|rs|, n, img);
    F.ParseSuperblock(|ts|, m, img);
  }

  ghost predicate BothHeld(rs: seq<F.Record>, ts: seq<F.Record>, img: seq<byte>) {
    && F.ImageFits(rs) && F.ImageFits(ts) && F.Image(rs) <= img && F.Image(ts) <= img
    && |rs| == |ts| && |F.Image(rs)| == |F.Image(ts)|
  }

  /** From one offset one record can be parsed. */
  lemma SameRecord(rs: seq<F.Record>, ts: seq<F.Record>, img: seq<byte>, k: nat)
    requires BothHeld(rs, ts, img) && k < |rs| && F.RecordOffset(rs, k) == F.RecordOffset(ts, k)
    ensures rs[k] == ts[k] && F.RecordOffset(rs, k + 1) == F.RecordOffset(ts, k + 1)
  {
    var off, limit := F.RecordOffset(rs, k), |F.Image(rs)|;
    assert F.ParsesTo(rs[k], img, off, limit, F.RecordOffset(rs, k + 1)) by { F.ParseImage(rs, img, k); }
    assert F.ParsesTo(ts[k], img, off, limit, F.RecordOffset(ts, k + 1)) by { F.ParseImage(ts, img, k); }
  }

  lemma {:induction false} SameRecords(rs: seq<F.Record>, ts: seq<F.Record>, img: seq<byte>, i: nat)
    requires BothHeld(rs, ts, img) && i <= |rs|
    ensures F.RecordOffset(rs, i) == F.RecordOffset(ts, i) && forall k :: 0 <= k < i ==> rs[k] == ts[k]
  {
    if i == 0 {
      assert rs[..0] == [] && ts[..0] == [];
    } else {
      SameRecords(rs, ts, img, i - 1);
      SameRecord(rs, ts, img, i - 1);
    }
  }

  // ---- blocks ----

  lemma BitmapBelow(bytes: seq<byte>, g: Geometry, lo: nat)
    requires SECTOR * BOOT_SECTORS + g.bitmapBytes <= lo <= |bytes|
    ensures BitmapOn(bytes, g) == bytes[..lo][SECTOR * BOOT_SECTORS..SECTOR * BOOT_SECTORS + g.bitmapBytes]
  {
    var at := SECTOR * BOOT_SECTORS;
    var b, c := BitmapOn(bytes, g), bytes[..lo][at..at + g.bitmapBytes];
    assert |b| == |c| == g.bitmapBytes && forall i :: 0 <= i < |b| ==> b[i] == bytes[at + i] == c[i];
  }

  /** Writing blocks leaves bitmap and snapshot on the disk as they are. */
  lemma KeptOutside(was: seq<byte>, total: u32, g: Geometry, now: seq<byte>, rs: seq<F.Record>)
    requires Sized(was, total) && Fits(g, total) && OutsideKept(true, g, was, now)
    ensures BitmapOn(now, g) == BitmapOn(was, g)
    ensures D.HoldsImage(was, total, rs) ==> D.HoldsImage(now, total, rs)
  {
    var lo, hi := BlockOffset(g, 0), BlockOffset(g, g.blocks);
    BitmapBelow(was, g, lo);
    BitmapBelow(now, g, lo);
    var base := SECTOR * SnapshotBase(total);
    assert SnapshotBase(total) == total - TAIL_SECTORS;
    assert now[base..] == now[hi..][base - hi..] && was[base..] == was[hi..][base - hi..];
  }

  // ---- sync ----

  /** A sync leaves the image, all blocks, and the bitmap that it flushed or the one that was there. */
  lemma SyncedStore(was: seq<byte>, total: u32, rs: seq<F.Record>, g: Geometry, flushed: Option<seq<byte>>,
                    now: seq<byte>)
    requires D.Synced(was, total, rs, g, flushed, now)
    ensures D.HoldsImage(now, total, rs)
    ensures Fits(g, total) ==>
      && BitmapOn(now, g) == (if flushed.Some? then flushed.value else BitmapOn(was, g))
      && DataOf(now, g) == DataOf(was, g)
  {
    var base := SECTOR * SnapshotBase(total);
    var imaged := Splice(was, base, D.Pad(F.Image(rs)));
    D.ImageWritten(was, total, rs);
    if Fits(g, total) {
      assert SnapshotBase(total) == total - TAIL_SECTORS;
      DataOfFrame(was, g, base, D.Pad(F.Image(rs)));
      D.BitmapKept(was, g.bitmapBytes, base, D.Pad(F.Image(rs)));
      if flushed.Some? { FlushedStore(imaged, total, rs, g, flushed.value); }
    }
  }

  lemma FlushedStore(bytes: seq<byte>, total: u32, rs: seq<F.Record>, g: Geometry, bitmap: seq<byte>)
    requires D.HoldsImage(bytes, total, rs) && Fits(g, total) && |bitmap| == g.bitmapBytes
    ensures var now := Splice(bytes, SECTOR * BOOT_SECTORS, Padded(bitmap, g.bitmapSectors));
      && D.HoldsImage(now, total, rs) && BitmapOn(now, g) == bitmap && DataOf(now, g) == DataOf(bytes, g)
  {
    var image := Padded(bitmap, g.bitmapSectors);
    D.ImageKept(bytes, total, rs, g, image);
    D.BitmapReadBack(bytes, bitmap, g.bitmapSectors);
    DataOfFrame(bytes, g, SECTOR * BOOT_SECTORS, image);
  }

  // ---- the raw disk ----

  /** How many bytes `sda_write` writes. */
  function PokeLength(total: u32, off: nat, buf: seq<byte>): (n: nat)
    ensures n <= |buf| && (n > 0 ==> off + n <= SECTOR * total)
  {
    W.Clamp(W.DiskBytes(total), off, |buf|)
  }

  /** The disk after `sda_write`. */
  function Poked(bytes: seq<byte>, total: u32, off: nat, buf: seq<byte>): (r: seq<byte>)
    requires |bytes| == SECTOR * total
    ensures |r| == |bytes|
  {
    var n := PokeLength(total, off, buf);
    if n == 0 then bytes else Splice(bytes, off, buf[..n])
  }

  /** Where the request meets bytes `lo` to `hi` of the disk it writes what they are. */
  predicate Agrees(bytes: seq<byte>, total: u32, off: nat, buf: seq<byte>, lo: nat, hi: nat)
    requires |bytes| == SECTOR * total
  {
    forall i :: 0 <= i < PokeLength(total, off, buf) && lo <= off + i < hi ==> buf[i] == bytes[off + i]
  }

  /** A range of the disk keeps its bytes if and only if the request agrees with them. */
  lemma PokeKeeps(bytes: seq<byte>, total: u32, off: nat, buf: seq<byte>, lo: nat, hi: nat)
    requires Sized(bytes, total) && lo <= hi <= |bytes|
    ensures Poked(bytes, total, off, buf)[lo..hi] == bytes[lo..hi] <==> Agrees(bytes, total, off, buf, lo, hi)
  {
    var now, n := Poked(bytes, total, off, buf), PokeLength(total, off, buf);
    if now[lo..hi] == bytes[lo..hi] {
      forall i | 0 <= i < n && lo <= off + i < hi ensures buf[i] == bytes[off + i] {
        assert now[lo..hi][off + i - lo] == now[off + i] == buf[i];
      }
    }
    if Agrees(bytes, total, off, buf, lo, hi) {
      forall k | lo <= k < hi ensures now[k] == bytes[k] {
        if off <= k < off + n { assert buf[k - off] == bytes[off + (k - off)]; }
      }
    }
  }

  /** Where the image of `rs` ends. */
  ghost function ImageEnd(total: u32, rs: seq<F.Record>): nat
    requires F.ImageFits(rs)
  {
    SECTOR * SnapshotBase(total) + |F.Image(rs)|
  }

  /** The request writes nothing else over the image. */
  ghost predicate SparesImage(bytes: seq<byte>, total: u32, rs: seq<F.Record>, off: nat, buf: seq<byte>) {
    && Sized(bytes, total) && F.ImageFits(rs)
    && Agrees(bytes, total, off, buf, SECTOR * SnapshotBase(total), ImageEnd(total, rs))
  }

  /** A snapshot survives a write to the raw disk if and only if the write agrees with it. */
  lemma PokeImage(bytes: seq<byte>, total: u32, rs: seq<F.Record>, off: nat, buf: seq<byte>)
    requires D.HoldsImage(bytes, total, rs)
    ensures D.HoldsImage(Poked(bytes, total, off, buf), total, rs) <==> SparesImage(bytes, total, rs, off, buf)
  {
    var lo, hi, now := SECTOR * SnapshotBase(total), ImageEnd(total, rs), Poked(bytes, total, off, buf);
    assert bytes[lo..hi] == bytes[lo..][..|F.Image(rs)|] == F.Image(rs);
    assert now[lo..hi] == now[lo..][..|F.Image(rs)|];
    PokeKeeps(bytes, total, off, buf, lo, hi);
  }

  /** So does the bitmap. */
  lemma PokeBitmap(bytes: seq<byte>, total: u32, g: Geometry, off: nat, buf: seq<byte>)
    requires Sized(bytes, total) && Fits(g, total)
    ensures var lo := SECTOR * BOOT_SECTORS;
      BitmapOn(Poked(bytes, total, off, buf), g) == BitmapOn(bytes, g)
      <==> Agrees(bytes, total, off, buf, lo, lo + g.bitmapBytes)
  {
    var lo, now := SECTOR * BOOT_SECTORS, Poked(bytes, total, off, buf);
    var hi := lo + g.bitmapBytes;
    assert bytes[lo..hi] == BitmapOn(bytes, g) && now[lo..hi] == BitmapOn(now, g);
    PokeKeeps(bytes, total, off, buf, lo, hi);
  }

  /** And a block. */
  lemma PokeBlock(bytes: seq<byte>, total: u32, g: Geometry, off: nat, buf: seq<byte>, b: nat)
    requires Sized(bytes, total) && Fits(g, total) && b < g.blocks
    ensures DataOf(Poked(bytes, total, off, buf), g)[b] == DataOf(bytes, g)[b]
       <==> Agrees(bytes, total, off, buf, BlockOffset(g, b), BlockOffset(g, b) + BLOCK_SIZE)
  {
    assert BlockOffset(g, b) + BLOCK_SIZE <= BlockOffset(g, g.blocks);
    PokeKeeps(bytes, total, off, buf, BlockOffset(g, b), BlockOffset(g, b) + BLOCK_SIZE);
  }

  /** One byte at the start of the snapshot destroys it. */
  lemma SuperblockLost(bytes: seq<byte>, total: u32, rs: seq<F.Record>)
    requires D.HoldsImage(bytes, total, rs) && SECTOR * total < U32_LIMIT
    ensures !D.HoldsImage(Poked(bytes, total, SECTOR * SnapshotBase(total), [0]), total, rs)
  {
    var lo := SECTOR * SnapshotBase(total);
    var head := F.Superblock(|rs|, 16 + |F.EncodeAll(rs)|);
    assert F.Image(rs)[0] == head[0] == EncodeU32(F.MAGIC)[0] == 0x4D;
    assert bytes[lo] == bytes[lo..][0] == F.Image(rs)[0];
    PokeImage(bytes, total, rs, lo, [0]);
    assert PokeLength(total, lo, [0]) == 1;
  }
}
