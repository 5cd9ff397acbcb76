/** Steps from which runs on a concrete disk are put together: operations that write the first block at
    most, syncs with and without a flush, and boots. The disk may have any size that boot accepts. */
module WitnessRun {
  import opened Bytes
  import opened SectorDisk
  import opened Layout
  import opened Bitmap
  import opened BlockStore
  import opened BlockFile
  import opened FileState
  import opened Shapes
  import opened TreeImage
  import opened Devices
  import opened DiskState
  import opened Runs
  import D = DiskFs
  import F = SnapshotFormat
  import M = Remount
  import P = Preorder
  import R = Reboot
  import S = Persist
  import V = Vfs

  /** The run ends in `fs` with block storage in use, `saved` on its disk, and `used` in the bitmap there. */
  ghost predicate Ends(h: History, total: u32, fs: Fs, saved: Option<Fs>, used: seq<bool>) {
    && Plan(total).Some? && Fits(Geo(total), total)
    && IsTale(h) && InStep(Last(h))
    && Last(h).fs == fs && Last(h).saved == saved && Last(h).total == total && Last(h).inUse
    && BitsOn(Last(h)) == used
  }

  // ---- a blank disk ----

  lemma BlankBits(n: nat, bytes: nat)
    requires n <= 8 * bytes
    ensures Bits(Zeros(bytes), n) == seq(n, i => false)
  {
    forall i | 0 <= i < n ensures !Bits(Zeros(bytes), n)[i] {
      ZeroBit(i % 8);
    }
  }

  lemma {:induction false} ZeroBit(k: nat)
    ensures !TestBit(0, k)
  {
    if k > 0 { ZeroBit(k - 1); }
  }

  /** A fresh system on a blank disk. */
  lemma Blank(total: u32, fs: Fs) returns (h: History)
    requires Plan(total).Some? && Fresh(fs)
    requires var n := Geo(total).blocks;
      fs.store == Store(seq(n, i => false), seq(n, i => ZERO_BLOCK))
    ensures Ends(h, total, fs, None, fs.store.used) && h.run[0].fs == fs && h.events == []
  {
    GeoFits(total);
    var g, bytes := Geo(total), Zeros(SECTOR * total);
    h := History([Sys(fs, None, total, bytes, true)], []);
    BlankBits(g.blocks, g.bitmapBytes);
    assert BitmapOn(bytes, g) == Zeros(g.bitmapBytes);
    forall b | 0 <= b < g.blocks ensures DataOf(bytes, g)[b] == fs.store.data[b] {
      assert BlockOffset(g, b) + BLOCK_SIZE <= BlockOffset(g, g.blocks);
      assert bytes[BlockOffset(g, b)..BlockOffset(g, b) + BLOCK_SIZE] == ZERO_BLOCK;
    }
  }

  // ---- operations ----

  /** An operation that leaves all blocks but the first alone. */
  lemma AddOp(h: History, total: u32, fs: Fs, saved: Option<Fs>, used: seq<bool>, op: Op, fs': Fs, blk: Block)
    returns (h': History)
    requires Ends(h, total, fs, saved, used) && V.VStep(fs, op, fs')
    requires fs.store.data != [] && fs'.store.data == fs.store.data[0 := blk]
    ensures Ends(h', total, fs', saved, used) && h'.events == h.events + [Operation(op)] && h.run <= h'.run
  {
    var g, was := Geo(total), Last(h).bytes;
    var now := Splice(was, BlockOffset(g, 0), blk);
    BlockLands(was, total, g, 0, blk);
    KeptOutside(was, total, g, now, []);
    var s := Last(h).(fs := fs', bytes := now);
    StepTaken(h, Operation(op), s);
    StepInStep(Last(h), Operation(op), s);
    h' := Next(h, Operation(op), s);
  }

  /** The same for an operation that writes no block. */
  lemma AddMeta(h: History, total: u32, fs: Fs, saved: Option<Fs>, used: seq<bool>, op: Op, fs': Fs)
    returns (h': History)
    requires Ends(h, total, fs, saved, used) && V.VStep(fs, op, fs')
    requires fs.store.data != [] && fs'.store.data == fs.store.data
    ensures Ends(h', total, fs', saved, used) && h'.events == h.events + [Operation(op)] && h.run <= h'.run
  {
    assert fs.store.data[0 := fs.store.data[0]] == fs.store.data;
    h' := AddOp(h, total, fs, saved, used, op, fs', fs.store.data[0]);
  }

  /** Promotion and a first write. */
  lemma AddWrite(h: History, total: u32, fs: Fs, saved: Option<Fs>, used: seq<bool>, mid: Fs, fs': Fs, id: nat,
                 buf: seq<byte>, blk: Block) returns (h': History)
    requires Ends(h, total, fs, saved, used) && fs.store.data != []
    requires V.VStep(fs, PromoteOp(id), mid) && V.VStep(mid, DiskWriteOp(id, 0, buf, true), fs')
    requires mid.store.data == fs.store.data && fs'.store.data == fs.store.data[0 := blk]
    ensures Ends(h', total, fs', saved, used) && h.run <= h'.run
    ensures h'.events == h.events + [Operation(PromoteOp(id))] + [Operation(DiskWriteOp(id, 0, buf, true))]
  {
    h' := AddMeta(h, total, fs, saved, used, PromoteOp(id), mid);
    h' := AddOp(h', total, mid, saved, used, DiskWriteOp(id, 0, buf, true), fs', blk);
  }

  lemma AddDevices(h: History, total: u32, fs: Fs, saved: Option<Fs>, used: seq<bool>, devices: seq<Device>,
                   granted: nat -> bool) returns (h': History)
    requires Ends(h, total, fs, saved, used) && ROOT in fs.nodes && Known(devices)
    ensures Ends(h', total, Populated(fs, devices, granted), saved, used)
    ensures h'.events == h.events + [Runs.Devices(devices, granted)] && h.run <= h'.run
  {
    PopulatedStore(fs, devices, granted);
    var e, s := Runs.Devices(devices, granted), Last(h).(fs := Populated(fs, devices, granted));
    StepTaken(h, e, s);
    StepInStep(Last(h), e, s);
    h' := Next(h, e, s);
  }

  // ---- sync ----

  /** A node without contents in RAM and with one block at most. */
  predicate Small(m: F.Meta) {
    && |m.name| < VFS_NAME_MAX
    && match m.payload
       case Inline(bytes) => bytes == []
       case InBlocks(blocks) => |blocks| <= 1
  }

  ghost predicate AllSmall(fs: Fs) {
    forall id :: id in fs.nodes ==> Small(MetaOf(fs.nodes[id]))
  }

  lemma {:induction false} SmallTake(f: Forest, n: nat)
    requires S.All(f, (m: F.Meta) => Small(m))
    ensures S.All(P.Take(f, n), (m: F.Meta) => Small(m))
  {
    if f.Grove? && n > 0 {
      SmallTake(f.kids, n - 1);
      if n - 1 >= P.Size(f.kids) { SmallTake(f.next, n - 1 - P.Size(f.kids)); }
    }
  }

  lemma {:induction false} SmallListing(f: Forest, parent: int, idx: nat)
    requires S.All(f, (m: F.Meta) => Small(m))
    ensures forall i :: 0 <= i < |P.Pre(f, parent, idx)| ==> Small(P.Pre(f, parent, idx)[i].meta)
  {
    if f.Grove? {
      SmallListing(f.kids, idx, idx + 1);
      SmallListing(f.next, parent, idx + 1 + P.Size(f.kids));
      P.PreOne(f, parent, idx);
    }
  }

  lemma SmallRecord(r: Record)
    requires F.RecordOk(r) && Small(r.meta)
    ensures |F.Encode(r)| <= 104
  {
  }

  lemma {:induction false} SmallImage(rs: seq<Record>)
    requires F.RecordsOk(rs) && forall i :: 0 <= i < |rs| ==> Small(rs[i].meta)
    ensures |F.EncodeAll(rs)| <= 104 * |rs|
  {
    if rs != [] {
      SmallImage(rs[..|rs| - 1]);
      SmallRecord(rs[|rs| - 1]);
    }
  }

  /** The image of a tree of small nodes fits the snapshot region of every disk. */
  lemma SmallLands(fs: Fs, bytes: seq<byte>, total: u32)
    requires Held(fs) && S.HeapBound(fs.nodes) && AllSmall(fs) && Sized(bytes, total) && Plan(total).Some?
    ensures D.ImageLands(bytes, total, Records(fs))
  {
    var f, rs := S.Tree(fs), Records(fs);
    S.RootInside(fs);
    S.ForestSaves(fs, -1, [ROOT]);
    D.ListingOk(f, -1, 0);
    S.NodesAll(fs, -1, [ROOT], (m: F.Meta) => Small(m));
    SmallTake(f, F.MAX_NODES);
    SmallListing(P.Take(f, F.MAX_NODES), -1, 0);
    SmallImage(rs);
    PlanFits(total);
    SnapshotBaseInRange(total);
  }

  /** Some bitmap has the given bits. */
  lemma {:induction false} BitmapFor(used: seq<bool>, bytes: nat, k: nat) returns (bitmap: seq<byte>)
    requires |used| <= 8 * bytes && k <= |used|
    ensures |bitmap| == bytes && Bits(bitmap, |used|) == used[..k] + seq(|used| - k, i => false)
  {
    if k == 0 {
      bitmap := Zeros(bytes);
      BlankBits(|used|, bytes);
    } else {
      var b := BitmapFor(used, bytes, k - 1);
      bitmap := b[(k - 1) / 8 := Put(b[(k - 1) / 8], (k - 1) % 8, used[k - 1])];
      BitsPut(b, |used|, k - 1, used[k - 1]);
    }
  }

  lemma SyncedBytes(bytes: seq<byte>, total: u32, rs: seq<Record>, g: Geometry, flushed: Option<seq<byte>>)
    returns (now: seq<byte>)
    requires D.ImageLands(bytes, total, rs) && (flushed.Some? ==> Fits(g, total) && |flushed.value| == g.bitmapBytes)
    ensures D.Synced(bytes, total, rs, g, flushed, now)
  {
    now := Splice(bytes, SECTOR * SnapshotBase(total), D.Pad(F.Image(rs)));
    if flushed.Some? { now := Splice(now, SECTOR * BOOT_SECTORS, Padded(flushed.value, g.bitmapSectors)); }
  }

  /** A sync; with `flush` its bitmap is flushed, too. */
  lemma AddSync(h: History, total: u32, fs: Fs, saved: Option<Fs>, used: seq<bool>, flush: bool)
    returns (h': History, flushed: Option<seq<byte>>)
    requires Ends(h, total, fs, saved, used) && Held(fs) && S.HeapBound(fs.nodes) && AllSmall(fs)
    ensures Ends(h', total, fs, Some(fs), if flush then fs.store.used else used)
    ensures h'.events == h.events + [Sync(flushed)] && h.run <= h'.run && (flushed.Some? <==> flush)
  {
    flushed := None;
    if flush {
      var bitmap := BitmapFor(fs.store.used, Geo(total).bitmapBytes, |fs.store.used|);
      flushed := Some(bitmap);
    }
    SmallLands(fs, Last(h).bytes, total);
    var now := SyncedBytes(Last(h).bytes, total, Records(fs), Geo(total), flushed);
    h' := SyncEnds(h, total, fs, saved, used, flushed, now);
  }

  lemma SyncEnds(h: History, total: u32, fs: Fs, saved: Option<Fs>, used: seq<bool>, flushed: Option<seq<byte>>,
                 now: seq<byte>) returns (h': History)
    requires Ends(h, total, fs, saved, used) && Held(fs) && S.HeapBound(fs.nodes)
    requires D.Synced(Last(h).bytes, total, Records(fs), Geo(total), flushed, now)
    requires flushed.Some? ==> Marks(flushed.value, Geo(total), fs.store.used)
    ensures Ends(h', total, fs, Some(fs), if flushed.Some? then fs.store.used else used)
    ensures h'.events == h.events + [Sync(flushed)] && h.run <= h'.run
  {
    var a := Last(h);
    var s := a.(saved := Some(fs), bytes := now);
    StepTaken(h, Sync(flushed), s);
    StepInStep(a, Sync(flushed), s);
    SyncBits(a, flushed, s);
    h' := Next(h, Sync(flushed), s);
  }

  // ---- boot ----

  /** A boot with memory for the bitmap. */
  lemma AddBoot(h: History, total: u32, fs: Fs, saved: Fs, used: seq<bool>, loaded: Fs, devices: seq<Device>,
                granted: nat -> bool) returns (h': History)
    requires Ends(h, total, fs, Some(saved), used) && M.Rebooted(saved, loaded) && ROOT in loaded.nodes
    requires Known(devices) && loaded.store == Store(used, fs.store.data)
    ensures Ends(h', total, Populated(loaded, devices, granted), Some(saved), used)
    ensures h'.events == h.events + [Boot(loaded, true, devices, granted)] && h.run <= h'.run
  {
    var a, e := Last(h), Boot(loaded, true, devices, granted);
    forall rs | rs != [] && D.HoldsImage(a.bytes, total, rs) && LoadAll(R.Bare(), rs).Some?
      ensures var st := LoadAll(R.Bare(), rs).value;
        loaded.nodes == st.nodes && loaded.next == st.next
    {
      ImageUnique(a.bytes, total, rs, Records(saved));
    }
    PopulatedStore(loaded, devices, granted);
    var s := a.(fs := Populated(loaded, devices, granted));
    StepTaken(h, e, s);
    StepInStep(a, e, s);
    h' := Next(h, e, s);
  }
}
