/** Where everything lives on the medium: the geometry that fs/blockfs.c and fs/diskfs.c
    compute, each on its own, in 32-bit arithmetic. */
module Layout {
  import opened Bytes

  const BOOT_SECTORS: nat := 32768        // 16 MiB
  const TAIL_SECTORS: nat := 131072       // 64 MiB
  const SECTORS_PER_BLOCK: nat := 8
  const BLOCK_SIZE: nat := 4096

  function Add32(a: int, b: int): u32 { (a + b) % U32_LIMIT }
  function Sub32(a: int, b: int): u32 { (a - b) % U32_LIMIT }

  /** Sector numbers `[lo, hi)`. */
  datatype Region = Region(lo: int, hi: int)

  predicate Disjoint(a: Region, b: Region) {
    a.hi <= b.lo || b.hi <= a.lo
  }

  predicate Within(a: Region, total: int) {
    0 <= a.lo <= a.hi <= total
  }

  datatype Geometry = Geometry(bitmapBytes: nat, bitmapSectors: nat, dataStart: nat, blocks: nat)

  /** The geometry part of `blockfs_init`. */
  function Plan(total: u32): (r: Option<Geometry>)
  {
    if total <= Add32(Add32(BOOT_SECTORS, TAIL_SECTORS), 64) then None else
    var avail := Sub32(Sub32(total, BOOT_SECTORS), TAIL_SECTORS);
    var approx := avail / SECTORS_PER_BLOCK;
    var bytes := Add32(approx, 7) / 8;
    var sectors0 := Add32(bytes, 511) / 512;
    var sectors := if sectors0 == 0 then 1 else sectors0;
    var dataStart := Add32(BOOT_SECTORS, sectors);
    var blocks := Sub32(Sub32(total, dataStart), TAIL_SECTORS) / SECTORS_PER_BLOCK;
    if blocks == 0 then None else Some(Geometry(bytes, sectors, dataStart, blocks))
  }

  /** `diskfs_base_lba`. */
  function SnapshotBase(total: u32): (r: u32)
  {
    if total > Add32(TAIL_SECTORS, BOOT_SECTORS) then Sub32(total, TAIL_SECTORS)
    else
      var base := total - total / 4;
      if base >= total then (if total > 1 then total - 1 else 0) else base
  }

  /** The sector of a data block, as `blockfs_read_block` computes it. */
  function BlockLba(g: Geometry, b: nat): u32 {
    Add32(g.dataStart, b * SECTORS_PER_BLOCK % U32_LIMIT)
  }

  function BootRegion(): Region { Region(0, BOOT_SECTORS) }
  function BitmapRegion(g: Geometry): Region { Region(BOOT_SECTORS, BOOT_SECTORS + g.bitmapSectors) }
  function BlockRegion(g: Geometry, b: nat): Region {
    Region(BlockLba(g, b), BlockLba(g, b) + SECTORS_PER_BLOCK)
  }
  function SnapshotRegion(total: u32, sectors: nat): Region {
    Region(SnapshotBase(total), SnapshotBase(total) + sectors)
  }

  /** Consistent geometry, in exact arithmetic. */
  predicate Fits(g: Geometry, total: int) {
    && g.bitmapSectors >= 1
    && g.blocks >= 1
    && g.blocks <= 8 * g.bitmapBytes
    && g.bitmapBytes <= 512 * g.bitmapSectors
    && g.dataStart == BOOT_SECTORS + g.bitmapSectors
    && g.dataStart + SECTORS_PER_BLOCK * g.blocks <= total - TAIL_SECTORS
    && total < U32_LIMIT
  }

  /** Nothing is wasted: what is left behind the last block is less than a block, the bitmap has no byte
      and its region no sector more than blocks over all of the free sectors would need. */
  predicate Tight(g: Geometry, total: int) {
    var avail := total - BOOT_SECTORS - TAIL_SECTORS;
    && total - TAIL_SECTORS < g.dataStart + SECTORS_PER_BLOCK * (g.blocks + 1)
    && 8 * (g.bitmapBytes - 1) < avail / SECTORS_PER_BLOCK <= 8 * g.bitmapBytes
    && 512 * (g.bitmapSectors - 1) < g.bitmapBytes
  }

  /** `blockfs_init` accepts exactly the media larger than both reserves plus 64 sectors, no
      32-bit computation wraps, the bitmap has a bit for each of the blocks, and there are as many blocks
      as fit, at least 8. */
  lemma PlanFits(total: u32)
    ensures Plan(total).Some? <==> total > BOOT_SECTORS + TAIL_SECTORS + 64
    ensures Plan(total).Some? ==> Fits(Plan(total).value, total) && Plan(total).value.blocks >= 8
    ensures Plan(total).Some? ==> Tight(Plan(total).value, total)
  {
    if total > BOOT_SECTORS + TAIL_SECTORS + 64 { PlanExact(total); }
  }

  /** No 32-bit computation wraps. */
  lemma PlanExact(total: u32)
    requires total > BOOT_SECTORS + TAIL_SECTORS + 64
    ensures var avail := total - BOOT_SECTORS - TAIL_SECTORS;
      var bytes := (avail / SECTORS_PER_BLOCK + 7) / 8;
      var sectors := (bytes + 511) / 512;
      && 1 <= sectors <= avail - 64
      && Plan(total) == Some(Geometry(bytes, sectors, BOOT_SECTORS + sectors, (avail - sectors) / SECTORS_PER_BLOCK))
  {
    var avail := total - BOOT_SECTORS - TAIL_SECTORS;
    assert Sub32(Sub32(total, BOOT_SECTORS), TAIL_SECTORS) == avail;
    var bytes := (avail / 8 + 7) / 8;
    assert Add32(avail / 8, 7) == avail / 8 + 7;
    assert Add32(bytes, 511) == bytes + 511;
    var sectors := (bytes + 511) / 512;
    assert 1 <= sectors <= avail - 64;
    assert Add32(BOOT_SECTORS, sectors) == BOOT_SECTORS + sectors;
    assert Sub32(Sub32(total, BOOT_SECTORS + sectors), TAIL_SECTORS) == avail - sectors;
  }

  /** Size and bounds determine the geometry. */
  lemma TightUnique(total: int, g: Geometry, h: Geometry)
    requires Fits(g, total) && Fits(h, total) && Tight(g, total) && Tight(h, total)
    ensures g == h
  {
  }

  /** In numbers: a disk of 1 GiB has 241656 blocks of 4 KiB from sector 32827 on, and its snapshot starts
      64 MiB before its end. */
  lemma OneGigabyte()
    ensures Plan(2097152) == Some(Geometry(30208, 59, 32827, 241656)) && SnapshotBase(2097152) == 1966080
    ensures BlockLba(Geometry(30208, 59, 32827, 241656), 1) == 32835
    ensures BootRegion() == Region(0, 32768) && BitmapRegion(Geometry(30208, 59, 32827, 241656)) == Region(32768, 32827)
  {
  }

  lemma BlockLbaExact(g: Geometry, total: int, b: nat)
    requires Fits(g, total) && b < g.blocks
    ensures BlockLba(g, b) == g.dataStart + SECTORS_PER_BLOCK * b
  {
  }

  ghost predicate Apart(regions: seq<Region>, total: int) {
    && (forall i :: 0 <= i < |regions| ==> Within(regions[i], total))
    && (forall i, j :: 0 <= i < j < |regions| ==> Disjoint(regions[i], regions[j]))
  }

  lemma RegionsApart(g: Geometry, total: u32, b: nat, sectors: nat)
    requires Fits(g, total) && b < g.blocks && sectors <= TAIL_SECTORS
    ensures Apart([BootRegion(), BitmapRegion(g), BlockRegion(g, b), SnapshotRegion(total, sectors)], total)
  {
    BlockLbaExact(g, total, b);
    assert SnapshotBase(total) == total - TAIL_SECTORS;
  }

  lemma BlocksApart(g: Geometry, total: u32, b: nat, c: nat)
    requires Fits(g, total) && b < c < g.blocks
    ensures BlockRegion(g, b).hi <= BlockRegion(g, c).lo
  {
    BlockLbaExact(g, total, b);
    BlockLbaExact(g, total, c);
  }

  /** Boot reserve, bitmap, every data block and the snapshot are pairwise disjoint and inside
      the medium, for every size that `blockfs_init` accepts and every snapshot that
      `diskfs_save` agrees to write. */
  lemma LayoutSafe(total: u32, sectors: nat)
    requires Plan(total).Some? && sectors <= TAIL_SECTORS
    ensures var g := Plan(total).value;
      && (forall b: nat {:trigger BlockRegion(g, b)} :: b < g.blocks ==>
           Apart([BootRegion(), BitmapRegion(g), BlockRegion(g, b), SnapshotRegion(total, sectors)], total))
      && (forall b: nat, c: nat :: b < c < g.blocks ==> BlockRegion(g, b).hi <= BlockRegion(g, c).lo)
  {
    PlanFits(total);
    var g := Plan(total).value;
    forall b: nat | b < g.blocks
      ensures Apart([BootRegion(), BitmapRegion(g), BlockRegion(g, b), SnapshotRegion(total, sectors)], total)
    {
      RegionsApart(g, total, b, sectors);
    }
    forall b: nat, c: nat | b < c < g.blocks
      ensures BlockRegion(g, b).hi <= BlockRegion(g, c).lo
    {
      BlocksApart(g, total, b, c);
    }
  }

  /** The snapshot base is a sector of the medium for every medium that has one, so also for
      the small ones on which block storage is disabled. */
  lemma SnapshotBaseInRange(total: u32)
    requires total > 0
    ensures SnapshotBase(total) < total
    ensures total <= BOOT_SECTORS + TAIL_SECTORS ==>
      total - SnapshotBase(total) == if total < 4 then 1 else total / 4
    ensures total > BOOT_SECTORS + TAIL_SECTORS ==> total - SnapshotBase(total) == TAIL_SECTORS
  {
  }
}
