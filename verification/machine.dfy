/** The code against the runs: every call of the file system, of `sda_write` and of boot extends the run
    that tells how its system came about by the steps that the call takes. */
module Machine {
  import opened Bytes
  import opened SectorDisk
  import opened Layout
  import opened BlockStore
  import opened FileState
  import opened Shapes
  import opened VfsTree
  import opened TreeImage
  import opened Devices
  import opened DiskState
  import opened Runs
  import A = Path
  import D = DiskFs
  import M = Remount
  import R = Reboot
  import RamFs
  import S = Persist
  import V = Vfs
  import W = RawDisk

  ghost function Now(fs: RamFs.RamFs, saved: Option<Fs>): Sys
    requires fs.blockfs.Valid() && R.Planned(fs.blockfs)
    reads fs, fs.blockfs, fs.blockfs.disk
  {
    Sys(fs.State(), saved, |fs.blockfs.disk.sectors|, fs.blockfs.disk.Bytes(), fs.blockfs.available)
  }

  /** The system and its disk are what the run ends in. */
  ghost predicate Tells(h: History, fs: RamFs.RamFs)
    reads fs, fs.blockfs, fs.blockfs.disk
  {
    && fs.blockfs.Valid() && R.Planned(fs.blockfs) && IsTale(h)
    && Last(h) == Now(fs, Last(h).saved)
  }

  /** A valid block store shows the blocks on its disk. */
  lemma NowMirrors(fs: RamFs.RamFs, saved: Option<Fs>)
    requires fs.blockfs.Valid() && R.Planned(fs.blockfs)
    ensures Mirrors(Now(fs, saved)) && (fs.blockfs.available ==> Geo(|fs.blockfs.disk.sectors|) == fs.blockfs.geo)
  {
    GeoFits(|fs.blockfs.disk.sectors|);
  }

  lemma OperationTaken(h: History, op: Op, s: Sys)
    requires IsTale(h) && V.VStep(Last(h).fs, op, s.fs) && Mirrors(s)
    requires s == Last(h).(fs := s.fs, bytes := s.bytes)
    requires OutsideKept(s.inUse, Geo(s.total), Last(h).bytes, s.bytes)
    ensures var h' := Next(h, Operation(op), s);
      IsTale(h') && Last(h') == s
  {
    StepTaken(h, Operation(op), s);
  }

  // ---- operations ----

  /** The steps of one `ramfs_write`. */
  function Writes(n: Node, id: nat, off: nat, buf: seq<byte>, ok: bool, available: bool): seq<Event> {
    if n.diskBacked then [Operation(DiskWriteOp(id, off, buf, ok))]
    else if Capacity(n) == 0 && available then [Operation(PromoteOp(id)), Operation(DiskWriteOp(id, off, buf, ok))]
    else [Operation(RamWriteOp(id, off, buf, ok))]
  }

  lemma WriteTaken(h: History, s: Sys, id: nat, off: nat, buf: seq<byte>, ok: bool) returns (h': History)
    requires IsTale(h) && s == Last(h).(fs := s.fs, bytes := s.bytes) && Mirrors(s) && Mirrors(Last(h))
    requires OutsideKept(s.inUse, Geo(s.total), Last(h).bytes, s.bytes)
    requires RamFs.WriteStep(Last(h).fs, s.fs, id, off, buf, ok, s.inUse)
    ensures IsTale(h') && Last(h') == s
    ensures h'.events == h.events + Writes(Last(h).fs.nodes[id], id, off, buf, ok, s.inUse)
  {
    var fs := Last(h).fs;
    var n, write := fs.nodes[id], DiskWriteOp(id, off, buf, ok);
    if n.diskBacked {
      OperationTaken(h, write, s);
      h' := Next(h, Operation(write), s);
    } else if Capacity(n) == 0 && s.inUse {
      var mid := Last(h).(fs := fs.(nodes := fs.nodes[id := n.(diskBacked := true)]));
      OperationTaken(h, PromoteOp(id), mid);
      var h1 := Next(h, Operation(PromoteOp(id)), mid);
      OperationTaken(h1, write, s);
      h' := Next(h1, Operation(write), s);
      assert h'.events == h.events + [Operation(PromoteOp(id)), Operation(write)];
    } else {
      OperationTaken(h, RamWriteOp(id, off, buf, ok), s);
      h' := Next(h, Operation(RamWriteOp(id, off, buf, ok)), s);
    }
  }

  /** `ramfs_write`. */
  method Write(fs: RamFs.RamFs, id: nat, off: u32, buf: seq<byte>, heapOk: bool, heapBytes: seq<byte>,
               ghost h: History)
    returns (done: nat, ok: bool, ghost h': History)
    requires fs.Valid() && Tells(h, fs) && id in fs.nodes
    requires off + |buf| + BLOCK_SIZE <= U32_LIMIT && |heapBytes| == off + |buf| + 64
    modifies fs`nodes, fs.blockfs`bitmap, fs.blockfs`usedBlocks, fs.blockfs`view, fs.blockfs.disk
    ensures fs.Valid() && Tells(h', fs) && done == if ok then |buf| else 0
    ensures ok <==> RamFs.Accepted(old(fs.State()), id, off + |buf|, heapOk, fs.blockfs.available)
    ensures h'.events == h.events + Writes(old(fs.nodes[id]), id, off, buf, ok, fs.blockfs.available)
  {
    NowMirrors(fs, Last(h).saved);
    done, ok := fs.Write(id, off, buf, heapOk, heapBytes);
    NowMirrors(fs, Last(h).saved);
    h' := WriteTaken(h, Now(fs, Last(h).saved), id, off, buf, ok);
  }

  /** The steps of creating a node. */
  function Creates(parent: nat, name: Text, kind: u32, id: nat, perms: u32, uid: u32, gid: u32): seq<Event> {
    [Operation(CreateOp(parent, name, kind)), Operation(SetAttrOp(id, perms, uid, gid))]
  }

  /** `vfs_mkdir` and `vfs_create`. */
  method MakeAt(fs: RamFs.RamFs, path: Text, cwd: nat, kind: u32, perms: u32, uid: u32, gid: u32, allowed: bool,
                heapOk: bool, ghost h: History)
    returns (r: Option<nat>, ghost h': History, ghost parent: nat)
    requires fs.Valid() && Tells(h, fs) && TreeInv(fs.Nodes()) && cwd in fs.nodes
    requires |V.AbsNormal(fs.nodes, path, cwd)| < A.PATH_MAX
    modifies fs`nodes, fs`next
    ensures fs.Valid() && Tells(h', fs) && (r.None? ==> h' == h)
    ensures var norm := V.AbsNormal(old(fs.nodes), path, cwd);
      && (r.Some? <==> allowed && heapOk && V.Vacant(old(fs.nodes), norm) && V.Roomy(old(fs.nodes), norm))
      && (r.Some? ==> h'.events == h.events + Creates(parent, V.NameOf(norm), kind, r.value, perms, uid, gid))
  {
    ghost var name := V.NameOf(V.AbsNormal(fs.nodes, path, cwd));
    NowMirrors(fs, Last(h).saved);
    r, parent := V.MakeAt(fs, path, cwd, kind, perms, uid, gid, allowed, heapOk);
    h' := h;
    if r.Some? {
      NowMirrors(fs, Last(h).saved);
      h' := MadeTaken(h, Now(fs, Last(h).saved), parent, name, kind, perms, uid, gid);
    }
  }

  /** `vfs_create`: opening a file that exists is no step. */
  method CreateFile(fs: RamFs.RamFs, path: Text, cwd: nat, perms: u32, uid: u32, gid: u32, allowed: bool,
                    writable: bool, heapOk: bool, ghost h: History)
    returns (r: Option<nat>, ghost h': History, ghost parent: nat)
    requires fs.Valid() && Tells(h, fs) && TreeInv(fs.Nodes()) && cwd in fs.nodes
    requires |V.AbsNormal(fs.nodes, path, cwd)| < A.PATH_MAX
    modifies fs`nodes, fs`next
    ensures fs.Valid() && Tells(h', fs) && (r.None? ==> h' == h)
    ensures var norm, there := V.AbsNormal(old(fs.nodes), path, cwd), V.Lookup(old(fs.nodes), path, cwd);
      if norm != [A.SLASH] && there.Some? then h' == h && r == if writable then there else None
      else
        && (r.Some? <==> allowed && heapOk && V.Vacant(old(fs.nodes), norm) && V.Roomy(old(fs.nodes), norm))
        && (r.Some? ==> h'.events == h.events + Creates(parent, V.NameOf(norm), VFS_FILE, r.value, perms, uid, gid))
  {
    ghost var norm, there := V.AbsNormal(fs.nodes, path, cwd), V.Lookup(fs.nodes, path, cwd);
    NowMirrors(fs, Last(h).saved);
    r, parent := V.CreateFile(fs, path, cwd, perms, uid, gid, allowed, writable, heapOk);
    h' := h;
    if r.Some? && !(norm != [A.SLASH] && there.Some?) {
      NowMirrors(fs, Last(h).saved);
      h' := MadeTaken(h, Now(fs, Last(h).saved), parent, V.NameOf(norm), VFS_FILE, perms, uid, gid);
    }
  }

  lemma MadeTaken(h: History, s: Sys, parent: nat, name: Text, kind: u32, perms: u32, uid: u32, gid: u32)
    returns (h': History)
    requires IsTale(h) && s == Last(h).(fs := s.fs) && Mirrors(s) && Mirrors(Last(h))
    requires Rooted(Last(h).fs.nodes) && Checked(Last(h).fs, parent, name)
    requires V.Made(Last(h).fs, s.fs, parent, name, kind, perms, uid, gid)
    ensures IsTale(h') && Last(h') == s
    ensures h'.events == h.events + Creates(parent, name, kind, Last(h).fs.next, perms, uid, gid)
  {
    var c, bare := Last(h).fs.next, FreshNode(Some(parent), name, kind);
    var mid := s.(fs := s.fs.(nodes := s.fs.nodes[c := bare]));
    OperationTaken(h, CreateOp(parent, name, kind), mid);
    var h1 := Next(h, Operation(CreateOp(parent, name, kind)), mid);
    assert s.fs.nodes == mid.fs.nodes[c := mid.fs.nodes[c].(perms := perms, uid := uid, gid := gid)];
    OperationTaken(h1, SetAttrOp(c, perms, uid, gid), s);
    h' := Next(h1, Operation(SetAttrOp(c, perms, uid, gid)), s);
  }

  /** `ramfs_remove_node`, the end of `vfs_delete`. */
  method Remove(fs: RamFs.RamFs, id: nat, ghost h: History) returns (rc: int, ghost h': History, ghost i: nat)
    requires fs.Valid() && Tells(h, fs) && id in fs.nodes
    requires fs.nodes[id].parent.Some? ==> fs.nodes[id].parent.value in fs.nodes && fs.nodes[id].parent.value != id
    modifies fs`nodes, fs.blockfs`bitmap, fs.blockfs`usedBlocks, fs.blockfs`view
    ensures fs.Valid() && Tells(h', fs)
    ensures rc == RamFs.RemoveCode(old(fs.nodes), id)
    ensures h'.events == if rc == 0 then h.events + [Operation(RemoveOp(id, i))] else h.events
  {
    h' := h;
    rc, i := fs.RemoveNode(id);
    if rc == 0 {
      NowMirrors(fs, Last(h).saved);
      OperationTaken(h, RemoveOp(id, i), Now(fs, Last(h).saved));
      h' := Next(h, Operation(RemoveOp(id, i)), Now(fs, Last(h).saved));
    }
  }

  /** `SYS_WRITEFILE` before it writes: the size is set to 0. */
  method Truncate(fs: RamFs.RamFs, id: nat, ghost h: History) returns (ghost h': History)
    requires fs.Valid() && Tells(h, fs) && id in fs.nodes
    modifies fs`nodes
    ensures fs.Valid() && Tells(h', fs) && h'.events == h.events + [Operation(TruncateOp(id))]
    ensures fs.nodes == old(fs.nodes)[id := old(fs.nodes[id]).(size := 0)]
  {
    ghost var before := fs.State();
    fs.nodes := fs.nodes[id := fs.nodes[id].(size := 0)];
    StepOwnership(before, TruncateOp(id), fs.State());
    NowMirrors(fs, Last(h).saved);
    OperationTaken(h, TruncateOp(id), Now(fs, Last(h).saved));
    h' := Next(h, Operation(TruncateOp(id)), Now(fs, Last(h).saved));
  }

  /** The assignments of `vfs_chmod` and `vfs_chown`. */
  method SetAttr(fs: RamFs.RamFs, id: nat, perms: u32, uid: u32, gid: u32, ghost h: History)
    returns (ghost h': History)
    requires fs.Valid() && Tells(h, fs) && id in fs.nodes
    modifies fs`nodes
    ensures fs.Valid() && Tells(h', fs) && h'.events == h.events + [Operation(SetAttrOp(id, perms, uid, gid))]
    ensures fs.nodes == old(fs.nodes)[id := old(fs.nodes[id]).(perms := perms, uid := uid, gid := gid)]
  {
    ghost var before := fs.State();
    fs.nodes := fs.nodes[id := fs.nodes[id].(perms := perms, uid := uid, gid := gid)];
    StepOwnership(before, SetAttrOp(id, perms, uid, gid), fs.State());
    NowMirrors(fs, Last(h).saved);
    OperationTaken(h, SetAttrOp(id, perms, uid, gid), Now(fs, Last(h).saved));
    h' := Next(h, Operation(SetAttrOp(id, perms, uid, gid)), Now(fs, Last(h).saved));
  }

  // ---- the raw disk ----

  /** `sda_write` on a running system. The allocator keeps its bitmap, and files show what is written over
      their blocks. */
  method SdaWrite(fs: RamFs.RamFs, off: u32, buf: seq<byte>, ghost h: History) returns (done: nat, ghost h': History)
    requires fs.Valid() && Tells(h, fs) && off + |buf| < U32_LIMIT
    modifies fs.blockfs.disk, fs.blockfs`view
    ensures fs.Valid() && Tells(h', fs) && h'.events == h.events + [RawWrite(off, buf)]
    ensures fs.nodes == old(fs.nodes) && fs.View().used == old(fs.View().used)
    ensures done == PokeLength(|fs.blockfs.disk.sectors|, off, buf)
    ensures Last(h').saved == if Spares(Last(h), off, buf) then Last(h).saved else None
  {
    ghost var a := Last(h);
    NowMirrors(fs, a.saved);
    done := W.SdaWrite(fs.blockfs.disk, off, buf);
    if fs.blockfs.available {
      fs.blockfs.view := Store(fs.blockfs.view.used, DataOf(fs.blockfs.disk.Bytes(), fs.blockfs.geo));
    }
    assert fs.blockfs.disk.Bytes() == Poked(a.bytes, a.total, off, buf);
    assert fs.State() == Seen(a, fs.blockfs.disk.Bytes());
    SameUsed(a.fs, fs.State());
    var saved := if Spares(a, off, buf) then a.saved else None;
    StepTaken(h, RawWrite(off, buf), Now(fs, saved));
    h' := Next(h, RawWrite(off, buf), Now(fs, saved));
  }

  lemma SameUsed(fs: Fs, fs': Fs)
    requires OwnershipInv(fs) && fs'.nodes == fs.nodes && fs'.next == fs.next
    requires fs'.store.used == fs.store.used && |fs'.store.data| == |fs.store.data|
    ensures OwnershipInv(fs')
  {
  }

  // ---- sync ----

  lemma SyncTaken(h: History, s: Sys, g: Geometry, flushed: Option<seq<byte>>) returns (h': History)
    requires IsTale(h) && S.HeapBound(s.fs.nodes)
    requires s == Last(h).(saved := Some(s.fs), bytes := s.bytes) && s.fs == Last(h).fs
    requires D.Synced(Last(h).bytes, s.total, Records(s.fs), g, flushed, s.bytes)
    requires flushed.Some? ==> s.inUse && g == Geo(s.total) && Marks(flushed.value, g, s.fs.store.used)
    ensures h' == Next(h, Runs.Sync(flushed), s) && IsTale(h') && Last(h') == s
  {
    h' := Next(h, Runs.Sync(flushed), s);
    StepTaken(h, Runs.Sync(flushed), s);
  }

  /** `diskfs_save`: on success the run has its sync, on failure nothing has happened. */
  method Sync(fs: RamFs.RamFs, heap: D.SaveHeap, ghost h: History) returns (rc: int, ghost h': History)
    requires S.Syncable(fs) && Tells(h, fs) && heap.limit <= D.HEAP_MAX
    modifies fs.blockfs.disk
    ensures S.Syncable(fs) && Tells(h', fs) && fs.State() == old(fs.State())
    ensures rc != 0 ==> h' == h
    ensures rc == 0 ==> h'.events == h.events + [Runs.Sync(D.Flushed(fs.blockfs, heap.flush))]
  {
    S.HeldRuns(fs);
    ghost var f, a := S.Tree(fs.State()), Last(h);
    rc := D.Save(fs, heap, f, Records(fs.State()));
    h' := h;
    if rc == 0 {
      NowMirrors(fs, Some(fs.State()));
      h' := SyncTaken(h, Now(fs, Some(fs.State())), fs.blockfs.geo, D.Flushed(fs.blockfs, heap.flush));
    }
  }

  // ---- power ----

  /** The first power-on: `ramfs_init` makes a root, and `blockfs_init` finds no bit set on a fresh disk. */
  method PowerOn(disk: Disk, bitmap: bool) returns (fs: RamFs.RamFs, ghost h: History)
    requires |disk.sectors| < U32_LIMIT
    ensures fresh(fs) && fs.blockfs.Valid() && R.Planned(fs.blockfs) && fs.blockfs.disk == disk
    ensures fs.blockfs.available <==> bitmap && Plan(|disk.sectors|).Some?
    ensures (forall b :: 0 <= b < |fs.View().used| ==> !fs.View().used[b]) ==>
      Tells(h, fs) && h.events == [] && fs.Valid()
  {
    var b := new BlockFs(disk, bitmap);
    fs := new RamFs.RamFs(b);
    NowMirrors(fs, None);
    h := History([Now(fs, None)], []);
    if forall b :: 0 <= b < |fs.View().used| ==> !fs.View().used[b] { FreshOwnership(fs.State()); }
  }

  /** `devfs_init` at the first power-on. */
  method FirstDevices(fs: RamFs.RamFs, present: bool, sectors: u32, granted: nat -> bool, ghost h: History)
    returns (ghost h': History)
    requires fs.Valid() && Tells(h, fs) && ROOT in fs.nodes
    modifies fs`nodes, fs`next
    ensures fs.Valid() && Tells(h', fs) && h'.events == h.events + [Runs.Devices(Devfs(present, sectors), granted)]
  {
    ghost var ds := Devfs(present, sectors);
    DevfsInit(fs, present, sectors, granted);
    StepTaken(h, Runs.Devices(ds, granted), Now(fs, Last(h).saved));
    h' := Next(h, Runs.Devices(ds, granted), Now(fs, Last(h).saved));
  }

  /** What a load that reports success made of the bytes is what any reading of an image there gives. */
  lemma LoadsImage(bytes: seq<byte>, total: u32, heap: D.LoadHeap, read: seq<Record>, loaded: Fs)
    requires |bytes| == SECTOR * total
    requires D.Reacts(bytes, total, heap, map[ROOT := FreshNode(None, [47], VFS_DIRECTORY)], 1, 1, read, loaded.nodes,
                      loaded.next)
    ensures Loads(bytes, total, loaded)
  {
    BareHeap();
    forall rs | rs != [] && D.HoldsImage(bytes, total, rs) && LoadAll(R.Bare(), rs).Some?
      ensures var st := LoadAll(R.Bare(), rs).value;
        loaded.nodes == st.nodes && loaded.next == st.next
    {
      D.SavedLoads(bytes, total, heap, map[ROOT := FreshNode(None, [47], VFS_DIRECTORY)], 1, 1, read, loaded.nodes,
                   loaded.next, rs);
    }
  }

  /** Power off at any point, then `ramfs_init`, `blockfs_init`, `diskfs_load` and `devfs_init`: nothing is
      left of the running system but its disk. */
  method CrashAndBoot(ghost fs: RamFs.RamFs, disk: Disk, load: D.LoadHeap, present: bool, sectors: u32,
                    granted: nat -> bool, ghost h: History)
    returns (rc: int, booted: RamFs.RamFs, ghost h': History, ghost loaded: Fs)
    requires Tells(h, fs) && disk == fs.blockfs.disk && Last(h).saved.Some?
    ensures fresh(booted) && booted.blockfs.disk == disk && booted.blockfs.Valid() && R.Planned(booted.blockfs)
    ensures rc == 1 ==>
      && Tells(h', booted)
      && h'.events == h.events + [Boot(loaded, booted.blockfs.available, Devfs(present, sectors), granted)]
  {
    ghost var a, read := Last(h), [];
    var b := new BlockFs(disk, load.bitmap);
    booted := new RamFs.RamFs(b);
    rc, read := D.Load(booted, load);
    loaded := booted.State();
    if rc == 1 { LoadsImage(a.bytes, a.total, load, read, loaded); }
    NowMirrors(booted, a.saved);
    DevfsInit(booted, present, sectors, granted);
    h' := h;
    if rc == 1 {
      ghost var e := Boot(loaded, booted.blockfs.available, Devfs(present, sectors), granted);
      StepTaken(h, e, Now(booted, a.saved));
      h' := Next(h, e, Now(booted, a.saved));
    }
  }

  lemma BareHeap()
    ensures D.Wiped(map[ROOT := FreshNode(None, [47], VFS_DIRECTORY)], 1) == R.Bare()
  {
  }

  // ---- a whole cycle ----

  /** Sync, power off, and boot up to `devfs_init`. When the sync and the load report success, the system
      is mounted again if and only if the bitmap on the disk is exact and the loaded /dev holds none of
      the devices. */
  method PowerCycle(fs: RamFs.RamFs, save: D.SaveHeap, load: D.LoadHeap, present: bool, sectors: u32,
                    granted: nat -> bool)
    returns (rc: int, lrc: int, booted: RamFs.RamFs, ghost loaded: Fs)
    requires save.limit <= D.HEAP_MAX && S.Mounted(fs)
    modifies fs.blockfs.disk
    ensures S.Mounted(fs) && fs.State() == old(fs.State())
    ensures booted.blockfs.disk == fs.blockfs.disk && booted.blockfs.Valid()
    ensures R.Reports(S.Tree(fs.State()), |fs.blockfs.disk.sectors|, save, load, rc, lrc)
    ensures rc == 0 && lrc == 1 ==>
      && M.Rebooted(fs.State(), loaded) && ROOT in loaded.nodes
      && booted.State() == Populated(loaded, Devfs(present, sectors), granted)
      && (fs.blockfs.available && load.bitmap ==> loaded.store.data == fs.View().data)
      && (S.Mounted(booted) <==> M.Exact(fs.State(), loaded) && NoDevices(loaded, Devfs(present, sectors), granted))
  {
    M.MountedAll(fs);
    ghost var seen;
    rc, lrc, booted, seen := M.SyncAndRemount(fs, save, load);
    loaded := booted.State();
    ghost var st, total := fs.State(), |fs.blockfs.disk.sectors|;
    assert R.Reports(S.Tree(st), total, save, load, rc, lrc);
    if rc == 0 && lrc == 1 {
      AddDevices(fs, booted, present, sectors, granted);
      assert fs.State() == st && |fs.blockfs.disk.sectors| == total;
    }
  }

  /** `devfs_init` after a load. */
  method AddDevices(ghost fs: RamFs.RamFs, booted: RamFs.RamFs, present: bool, sectors: u32, granted: nat -> bool)
    requires fs != booted && S.Mounted(fs) && booted.blockfs.Valid() && R.Planned(booted.blockfs)
    requires M.Rebooted(fs.State(), booted.State()) && TreeInv(booted.State())
    modifies booted`nodes, booted`next
    ensures S.Mounted(fs) && fs.State() == old(fs.State()) && booted.blockfs.Valid()
    ensures booted.State() == Populated(old(booted.State()), Devfs(present, sectors), granted)
    ensures S.Mounted(booted) <==>
      M.Exact(fs.State(), old(booted.State())) && NoDevices(old(booted.State()), Devfs(present, sectors), granted)
  {
    ghost var loaded := booted.State();
    DevfsInit(booted, present, sectors, granted);
    MountedAgain(fs, booted, loaded, Devfs(present, sectors), granted);
  }

  lemma MountedAgain(fs: RamFs.RamFs, booted: RamFs.RamFs, loaded: Fs, devices: seq<Device>, granted: nat -> bool)
    requires S.Mounted(fs) && M.Rebooted(fs.State(), loaded) && TreeInv(loaded) && Known(devices)
    requires booted.blockfs.Valid() && R.Planned(booted.blockfs)
    requires booted.State() == Populated(loaded, devices, granted)
    ensures S.Mounted(booted) <==> M.Exact(fs.State(), loaded) && NoDevices(loaded, devices, granted)
  {
    BootGood(fs.State(), loaded, devices, granted);
    TreeShaped(loaded);
    PopulatedKeeps(loaded, devices, granted);
    M.RebootKeeps(fs.State(), loaded);
    assert S.HeapBound(booted.nodes);
  }
}
