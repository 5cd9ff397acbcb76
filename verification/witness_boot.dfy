/** The run that shows the first boot from an image break the tree: /dev, the device files of the first
    power-on, a sync, a boot. */
module WitnessBoot {
  import opened Bytes
  import opened BlockFile
  import opened FileState
  import opened VfsTree
  import opened Devices
  import opened Layout
  import opened Shapes
  import opened TreeImage
  import opened Witness
  import opened WitnessRun
  import F = SnapshotFormat
  import M = Remount
  import Runs
  import S = Persist
  import V = Vfs

  ghost function All(): nat -> bool { x => true }

  ghost function U1(n: Blocks): Fs {
    Fs(map[0 := Root([1]), 1 := NewNode(DEV, VFS_DIRECTORY)], 2, OneBlock(n, false, ZERO_BLOCK))
  }

  lemma DevCreated(n: Blocks)
    ensures V.VStep(S0(n), CreateOp(ROOT, DEV, VFS_DIRECTORY), U1(n)) && Runs.Good(U1(n))
  {
    FreshGood(n);
    ShortPath(DEV);
    assert [] + [DEV] == [DEV];
    assert Root([]).children + [1] == [1];
    assert U1(n).nodes == S0(n).nodes[0 := Root([1])][1 := NewNode(DEV, VFS_DIRECTORY)];
    assert Checked(S0(n), ROOT, DEV);
    Created(S0(n), U1(n), DEV, VFS_DIRECTORY);
  }

  lemma EmptyDev(n: Blocks, ds: seq<Device>)
    ensures FindDir(U1(n).nodes, ROOT, DEV) == Some(1) && U1(n).nodes[1].kind == VFS_DIRECTORY
    ensures U1(n).nodes[1].children == []
    ensures |U1(n).nodes| == 2 && NoDevices(U1(n), ds, All())
  {
    assert Find(U1(n).nodes, [1], DEV) == Some(1);
  }

  // ---- a boot of a system with few nodes ----

  lemma {:induction false} MadeSize(fs: Fs, dev: nat, ds: seq<Device>, granted: nat -> bool)
    requires dev in fs.nodes
    ensures |MakeDevs(fs, dev, ds, granted).nodes| <= |fs.nodes| + |ds|
  {
    if ds != [] {
      var n := |ds| - 1;
      MadeSize(fs, dev, ds[..n], granted);
      var mid := MakeDevs(fs, dev, ds[..n], granted);
      assert MakeDev(mid, dev, ds[n], granted(n)).nodes.Keys <= mid.nodes.Keys + {mid.next};
      M.Subset(MakeDev(mid, dev, ds[n], granted(n)).nodes.Keys, mid.nodes.Keys + {mid.next});
    }
  }

  /** A saved state, small enough, and with a /dev that has room. */
  ghost predicate Small(a: Fs, nodes: nat, entries: nat) {
    && Runs.Good(a) && S.HeapBound(a.nodes) && |a.nodes| <= nodes
    && FindDir(a.nodes, ROOT, DEV).Some?
    && a.nodes[FindDir(a.nodes, ROOT, DEV).value].kind == VFS_DIRECTORY
    && |a.nodes[FindDir(a.nodes, ROOT, DEV).value].children| <= entries
  }

  /** Loading it over its own bitmap leaves a good state if and only if no device is there. */
  lemma Boots(a: Fs, ds: seq<Device>) returns (loaded: Fs)
    requires Runs.Good(a) && S.HeapBound(a.nodes) && |a.nodes| <= F.MAX_NODES && Known(ds)
    ensures M.Rebooted(a, loaded) && ROOT in loaded.nodes && loaded.store == a.store
    ensures Held(Populated(loaded, ds, All())) && (Runs.Good(Populated(loaded, ds, All())) <==> NoDevices(a, ds, All()))
  {
    TreeShaped(a);
    S.TreeSize(a);
    loaded := Runs.CanBoot(a, a.store);
    M.ExactWithinLimit(a, loaded);
    Runs.SameDevices(a, loaded, ds, All());
    Runs.BootHeld(a, loaded, ds, All());
    Runs.BootGood(a, loaded, ds, All());
  }

  lemma Grows(fs: Fs, ds: seq<Device>, nodes: nat, entries: nat)
    requires Small(fs, nodes, entries) && Known(ds) && entries + |ds| <= VFS_MAX_CHILDREN
    requires Runs.Good(Populated(fs, ds, All()))
    ensures Small(Populated(fs, ds, All()), nodes + |ds|, entries + |ds|)
  {
    var dev := FindDir(fs.nodes, ROOT, DEV).value;
    assert dev in fs.nodes;
    Found(fs, Populated(fs, ds, All()), ds, dev);
    DevGrows(fs, dev, ds, entries);
  }

  lemma Found(fs: Fs, fs': Fs, ds: seq<Device>, dev: nat)
    requires TreeInv(fs) && S.HeapBound(fs.nodes) && Known(ds) && FindDir(fs.nodes, ROOT, DEV) == Some(dev)
    requires fs' == Populated(fs, ds, All())
    ensures ROOT in fs'.nodes && FindDir(fs'.nodes, ROOT, DEV) == Some(dev) && S.HeapBound(fs'.nodes)
    ensures fs'.nodes[dev].kind == fs.nodes[dev].kind
  {
    TreeShaped(fs);
    PopulatedPaths(fs, ds, All(), [DEV]);
    DevPlace(fs.nodes);
    DevPlace(fs'.nodes);
    PopulatedKeeps(fs, ds, All());
  }

  lemma DevGrows(fs: Fs, dev: nat, ds: seq<Device>, entries: nat)
    requires TreeInv(fs) && dev in fs.nodes && |fs.nodes[dev].children| <= entries && entries + |ds| <= VFS_MAX_CHILDREN
    ensures var fs' := MakeDevs(fs, dev, ds, All());
      |fs'.nodes| <= |fs.nodes| + |ds| && |fs'.nodes[dev].children| <= entries + |ds|
  {
    TreeSane(fs, dev);
    MadeSize(fs, dev, ds, All());
    ChildCount(fs, dev, ds, All());
    GrantedAll(|ds|);
  }

  lemma {:induction false} GrantedAll(k: nat)
    ensures GrantedTo(All(), k) == k
  {
    if k > 0 { GrantedAll(k - 1); }
  }

  // ---- the first boot from an image ----

  /** A device that was made stands in the way of the next boot. */
  lemma Occupied(fs: Fs, ds: seq<Device>, nodes: nat, entries: nat)
    requires Small(fs, nodes, entries) && Known(ds) && ds != [] && entries + |ds| < VFS_MAX_CHILDREN
    requires Small(Populated(fs, ds, All()), nodes + |ds|, entries + |ds|)
    ensures !NoDevices(Populated(fs, ds, All()), ds, All())
  {
    var dev, fs' := FindDir(fs.nodes, ROOT, DEV).value, Populated(fs, ds, All());
    TreeShaped(fs);
    assert Made(fs, dev, All(), 0);
    Runs.BootMakes(fs, ds, All(), 0);
    assert Made(fs', dev, All(), 0);
  }

  /** The state after the first power-on. */
  lemma PoweredOn(n: Blocks, ds: seq<Device>)
    requires Known(ds) && 0 < |ds| <= 4
    ensures var u2 := Populated(U1(n), ds, All());
      && Runs.Good(u2) && Held(u2) && S.HeapBound(u2.nodes) && AllSmall(u2) && |u2.nodes| <= 6
      && u2.store == U1(n).store && !NoDevices(u2, ds, All())
  {
    var u1, u2 := U1(n), Populated(U1(n), ds, All());
    DevCreated(n);
    EmptyDev(n, ds);
    PopulatedIff(u1, ds, All());
    PopulatedOwnership(u1, ds, All());
    PopulatedStore(u1, ds, All());
    Grows(u1, ds, 2, 0);
    Occupied(u1, ds, 2, 0);
    TreeShaped(u2);
    SmallDevices(n, ds);
  }

  lemma SmallDevices(n: Blocks, ds: seq<Device>)
    requires Known(ds) && Runs.Good(U1(n))
    ensures AllSmall(Populated(U1(n), ds, All()))
  {
    var u1, u2 := U1(n), Populated(U1(n), ds, All());
    EmptyDev(n, ds);
    TreeSane(u1, 1);
    MakeDevsAdds(u1, 1, ds, All());
    forall id | id in u2.nodes ensures WitnessRun.Small(MetaOf(u2.nodes[id])) {
      if id !in u1.nodes {
        var i :| 0 <= i < |ds| && u2.nodes[id] == NodeFor(1, ds[i]);
      }
    }
  }

  /** A boot right after a sync breaks a tree that holds a device. */
  lemma BootAgain(h: Runs.History, total: u32, a: Fs, ds: seq<Device>) returns (h': Runs.History, loaded: Fs)
    requires Ends(h, total, a, Some(a), a.store.used) && Runs.Good(a) && S.HeapBound(a.nodes)
    requires |a.nodes| <= F.MAX_NODES && Known(ds) && !NoDevices(a, ds, All())
    ensures Runs.IsTale(h') && h'.events == h.events + [Runs.Boot(loaded, true, ds, All())] && h.run <= h'.run
    ensures !Runs.Good(Runs.Last(h').fs) && Held(Runs.Last(h').fs)
  {
    loaded := Boots(a, ds);
    h' := AddBoot(h, total, a, a, a.store.used, loaded, ds, All());
  }

  /** Making /dev, the first power-on and a sync. */
  lemma SyncedDevices(total: u32, ds: seq<Device>) returns (h: Runs.History, flushed: Option<seq<byte>>)
    requires Plan(total).Some? && Known(ds) && 0 < |ds| <= 4
    ensures var u2 := Populated(U1(BlocksOf(total)), ds, All());
      && Ends(h, total, u2, Some(u2), u2.store.used) && |h.run| == 4 && h.run[3].fs == u2 && flushed.Some?
      && h.events == [Runs.Operation(CreateOp(ROOT, DEV, VFS_DIRECTORY))] + [Runs.Devices(ds, All())]
                     + [Runs.Sync(flushed)]
  {
    PoweredOn(BlocksOf(total), ds);
    h := Prepared(total, ds);
    h, flushed := AddSync(h, total, Populated(U1(BlocksOf(total)), ds, All()), None, Unused(BlocksOf(total)), true);
  }

  lemma Prepared(total: u32, ds: seq<Device>) returns (h: Runs.History)
    requires Plan(total).Some? && Known(ds) && 0 < |ds| <= 4
    ensures var n := BlocksOf(total);
      && Ends(h, total, Populated(U1(n), ds, All()), None, Unused(n))
      && h.events == [Runs.Operation(CreateOp(ROOT, DEV, VFS_DIRECTORY))] + [Runs.Devices(ds, All())]
  {
    var n := BlocksOf(total);
    FreshGood(n);
    AllZero(n);
    h := Blank(total, S0(n));
    DevCreated(n);
    h := AddMeta(h, total, S0(n), None, Unused(n), CreateOp(ROOT, DEV, VFS_DIRECTORY), U1(n));
    h := WitnessRun.AddDevices(h, total, U1(n), None, Unused(n), ds, All());
  }

  /** Making /dev, the first power-on, sync and boot on a disk of any size: before the boot the system is in
      a good state, after it two entries have one name, although the bitmap is that of the sync. */
  lemma FirstBoot(total: u32, sectors: u32) returns (h: Runs.History, flushed: Option<seq<byte>>, loaded: Fs)
    requires Plan(total).Some?
    ensures var ds := Devfs(true, sectors);
      && Runs.IsTale(h) && flushed.Some?
      && h.events == [Runs.Operation(CreateOp(ROOT, DEV, VFS_DIRECTORY))] + [Runs.Devices(ds, All())]
                     + [Runs.Sync(flushed)] + [Runs.Boot(loaded, true, ds, All())]
    ensures Runs.Good(h.run[3].fs) && !Runs.Good(Runs.Last(h).fs) && Held(Runs.Last(h).fs)
  {
    var n, ds := BlocksOf(total), Devfs(true, sectors);
    var u2 := Populated(U1(n), ds, All());
    PoweredOn(n, ds);
    h, flushed := SyncedDevices(total, ds);
    h, loaded := BootAgain(h, total, u2, ds);
  }
}
