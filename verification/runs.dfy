/** Runs of the whole system and its disk: operations, syncs, writes to the raw disk, and crashes at any
    point, each followed by a boot up to `devfs_init`. */
module Runs {
  import opened Bytes
  import opened Layout
  import opened SectorDisk
  import opened Bitmap
  import opened BlockStore
  import opened BlockFile
  import opened FileState
  import opened Shapes
  import opened VfsTree
  import opened TreeImage
  import opened Devices
  import opened DiskState
  import D = DiskFs
  import F = SnapshotFormat
  import L = Places
  import M = Remount
  import P = Preorder
  import R = Reboot
  import S = Persist
  import V = Vfs

  /** A running system: its nodes and blocks, every byte of its disk, and whether block storage is in use.
      `saved` is history: the state of the last sync, while its image has not been overwritten. */
  datatype Sys = Sys(fs: Fs, saved: Option<Fs>, total: u32, bytes: seq<byte>, inUse: bool)

  /** `Devices` is `devfs_init` at the first power-on, when nothing is loaded. `Sync` says which bitmap it
      flushed, if the flush found memory. `Boot` follows a crash: `loaded` is what `diskfs_load` leaves,
      `bitmap` says whether `blockfs_init` found memory, and `granted` which device nodes did. */
  datatype Event =
    | Operation(op: Op)
    | Devices(devices: seq<Device>, granted: nat -> bool)
    | Sync(flushed: Option<seq<byte>>)
    | RawWrite(off: nat, buf: seq<byte>)
    | Boot(loaded: Fs, bitmap: bool, devices: seq<Device>, granted: nat -> bool)

  ghost predicate Good(fs: Fs) {
    TreeInv(fs) && OwnershipInv(fs)
  }

  /** The geometry that boot computes, if it accepts the disk. */
  function Geo(total: u32): Geometry {
    if Plan(total).Some? then Plan(total).value else Geometry(0, 0, 0, 0)
  }

  /** The records that a sync of `fs` saves. */
  ghost function Records(fs: Fs): seq<Record> {
    D.Listing(S.Tree(fs), -1, 0)
  }

  /** The blocks of the running system are those on the disk, or none without block storage. */
  ghost predicate Mirrors(s: Sys) {
    && Sized(s.bytes, s.total)
    && (s.inUse ==> Plan(s.total).Some? && Fits(Geo(s.total), s.total)
                    && s.fs.store.data == DataOf(s.bytes, Geo(s.total)))
    && (!s.inUse ==> s.fs.store == Store([], []))
  }

  /** What boot finds on a disk. */
  ghost function Found(s: Sys, bitmap: bool): Store {
    if bitmap && Sized(s.bytes, s.total) && Fits(Geo(s.total), s.total)
    then StoreOn(s.bytes, s.total, Geo(s.total)) else Store([], [])
  }

  /** `loaded` is what the loop of `diskfs_load` makes of the image on the disk. */
  ghost predicate Loads(bytes: seq<byte>, total: u32, loaded: Fs) {
    forall rs {:trigger D.HoldsImage(bytes, total, rs)} ::
      rs != [] && D.HoldsImage(bytes, total, rs) && LoadAll(R.Bare(), rs).Some? ==>
        var st := LoadAll(R.Bare(), rs).value;
        loaded.nodes == st.nodes && loaded.next == st.next
  }

  /** What each event does to nodes and disk. Operations change the data area only, and `sda_write` what it
      is asked to, also under mounted files. Boot has the disk to go by, and nothing else. */
  ghost predicate Step(a: Sys, e: Event, b: Sys) {
    match e
    case Operation(op) =>
      && V.VStep(a.fs, op, b.fs) && b == a.(fs := b.fs, bytes := b.bytes) && Mirrors(b)
      && OutsideKept(a.inUse, Geo(a.total), a.bytes, b.bytes)
    case Devices(devices, granted) =>
      ROOT in a.fs.nodes && Known(devices) && b == a.(fs := Populated(a.fs, devices, granted))
    case Sync(flushed) =>
      && S.HeapBound(a.fs.nodes) && b == a.(saved := Some(a.fs), bytes := b.bytes)
      && D.Synced(a.bytes, a.total, Records(a.fs), Geo(a.total), flushed, b.bytes)
      && (flushed.Some? ==> a.inUse && Marks(flushed.value, Geo(a.total), a.fs.store.used))
    case RawWrite(off, buf) =>
      && off + |buf| < U32_LIMIT && Sized(a.bytes, a.total) && b.bytes == Poked(a.bytes, a.total, off, buf)
      && b == a.(fs := Seen(a, b.bytes), bytes := b.bytes, saved := if Spares(a, off, buf) then a.saved else None)
    case Boot(loaded, bitmap, devices, granted) =>
      && a.saved.Some? && ROOT in loaded.nodes && Known(devices) && (bitmap ==> Plan(a.total).Some?)
      && loaded.store == Found(a, bitmap) && Loads(a.bytes, a.total, loaded)
      && b == a.(fs := Populated(loaded, devices, granted), inUse := bitmap)
  }

  ghost predicate Marks(bitmap: seq<byte>, g: Geometry, used: seq<bool>) {
    g.blocks <= 8 * |bitmap| && Bits(bitmap, g.blocks) == used
  }

  /** What the file system sees of a disk that was written past it. */
  ghost function Seen(a: Sys, bytes: seq<byte>): Fs {
    if a.inUse && Holds(Geo(a.total), bytes)
    then a.fs.(store := Store(a.fs.store.used, DataOf(bytes, Geo(a.total)))) else a.fs
  }

  /** The image of the last sync stays. */
  ghost predicate Spares(a: Sys, off: nat, buf: seq<byte>) {
    a.saved.Some? && SparesImage(a.bytes, a.total, Records(a.saved.value), off, buf)
  }

  /** What each step must observe for the tree: creation stores no name that is taken, boot finds the bitmap
      that belongs to the saved tree, and /dev holds none of the devices. */
  ghost predicate Safe(a: Sys, e: Event) {
    match e
    case Operation(op) => V.Safe(a.fs, op)
    case Devices(devices, granted) => ROOT in a.fs.nodes ==> NoDevices(a.fs, devices, granted)
    case Sync(_) => true
    case RawWrite(_, _) => true
    case Boot(loaded, bitmap, devices, granted) =>
      a.saved.Some? && ROOT in loaded.nodes ==>
        M.Exact(a.saved.value, loaded) && NoDevices(loaded, devices, granted)
  }

  /** What it must observe for the blocks: boot finds that bitmap. */
  ghost predicate Exactly(a: Sys, e: Event) {
    e.Boot? && a.saved.Some? ==> M.Exact(a.saved.value, e.loaded)
  }

  /** What is on the disk agrees with the running system and with the last sync. */
  ghost predicate InStep(s: Sys) {
    && Mirrors(s)
    && (s.saved.Some? ==>
          && Held(s.saved.value) && S.HeapBound(s.saved.value.nodes)
          && D.HoldsImage(s.bytes, s.total, Records(s.saved.value)))
  }

  // ---- single steps ----

  lemma GeoFits(total: u32)
    ensures Plan(total).Some? ==> Fits(Geo(total), total)
  {
    PlanFits(total);
  }

  /** An image of a state that could be saved is loaded. */
  lemma LoadsSaved(a: Fs, bytes: seq<byte>, total: u32, loaded: Fs)
    requires Held(a) && S.HeapBound(a.nodes) && D.HoldsImage(bytes, total, Records(a))
    requires Loads(bytes, total, loaded) && loaded.store.Valid()
    ensures M.Rebooted(a, loaded)
  {
    var f := S.Tree(a);
    S.RootInside(a);
    S.ForestSaves(a, -1, [ROOT]);
    var _ := R.BootLoads(f, Records(a), a.store, a.store.data);
  }

  /** Boot keeps the shape, and block ownership if and only if it finds the bitmap of the saved tree. */
  lemma BootHeld(a: Fs, loaded: Fs, devices: seq<Device>, granted: nat -> bool)
    requires Held(a) && S.HeapBound(a.nodes) && M.Rebooted(a, loaded) && ROOT in loaded.nodes
    ensures Shaped(loaded) && Shaped(Populated(loaded, devices, granted))
    ensures OwnershipInv(Populated(loaded, devices, granted)) <==> M.Exact(a, loaded)
  {
    var fs := Populated(loaded, devices, granted);
    M.RebootShows(a, loaded);
    PopulatedShaped(loaded, devices, granted);
    PopulatedKeeps(loaded, devices, granted);
    M.MarkedExact(a, loaded);
    if M.Exact(a, loaded) {
      M.RebootExact(a, loaded);
      PopulatedOwnership(loaded, devices, granted);
    }
    if OwnershipInv(fs) { M.OwnedMarked(fs); }
  }

  /** It leaves a good state if and only if /dev holds none of the devices, too. */
  lemma BootGood(a: Fs, loaded: Fs, devices: seq<Device>, granted: nat -> bool)
    requires Good(a) && S.HeapBound(a.nodes) && M.Rebooted(a, loaded) && ROOT in loaded.nodes && Known(devices)
    ensures Good(Populated(loaded, devices, granted)) <==> M.Exact(a, loaded) && NoDevices(loaded, devices, granted)
  {
    TreeShaped(a);
    BootHeld(a, loaded, devices, granted);
    M.RebootKeeps(a, loaded);
    PopulatedIff(loaded, devices, granted);
  }

  lemma StepInStep(a: Sys, e: Event, b: Sys)
    requires (e.Sync? ==> Held(a.fs)) && InStep(a) && Step(a, e, b)
    ensures InStep(b)
  {
    GeoFits(a.total);
    match e
    case Operation(op) =>
      if a.inUse && a.saved.Some? { KeptOutside(a.bytes, a.total, Geo(a.total), b.bytes, Records(a.saved.value)); }
    case Devices(devices, granted) => PopulatedStore(a.fs, devices, granted);
    case Sync(flushed) => SyncedStore(a.bytes, a.total, Records(a.fs), Geo(a.total), flushed, b.bytes);
    case RawWrite(off, buf) =>
      if a.saved.Some? { PokeImage(a.bytes, a.total, Records(a.saved.value), off, buf); }
    case Boot(loaded, bitmap, devices, granted) => PopulatedStore(loaded, devices, granted);
  }

  /** Contents of blocks do not matter to the shape or to ownership. */
  lemma SeenHeld(fs: Fs, data: seq<Block>)
    requires |data| == |fs.store.data|
    ensures Held(fs) ==> Held(fs.(store := Store(fs.store.used, data)))
    ensures Good(fs) ==> Good(fs.(store := Store(fs.store.used, data)))
  {
    var fs' := fs.(store := Store(fs.store.used, data));
    assert fs'.store.used == fs.store.used && SameShape(fs.nodes, fs'.nodes);
    if Held(fs) { ShapeStays(fs, fs'); }
    if TreeInv(fs) { ShapeKept(fs, fs'); }
  }

  /** Any event keeps the shape, and block ownership unless it is a boot over another bitmap. */
  lemma StepKeepsHeld(a: Sys, e: Event, b: Sys)
    requires Held(a.fs) && InStep(a) && Step(a, e, b)
    ensures Shaped(b.fs) && (OwnershipInv(b.fs) <==> Exactly(a, e))
  {
    GeoFits(a.total);
    match e
    case Operation(op) => Shapes.StepHeld(a.fs, op, b.fs);
    case Devices(devices, granted) =>
      PopulatedShaped(a.fs, devices, granted);
      PopulatedOwnership(a.fs, devices, granted);
    case Sync(flushed) =>
    case RawWrite(off, buf) => SeenHeld(a.fs, b.fs.store.data);
    case Boot(loaded, bitmap, devices, granted) =>
      LoadsSaved(a.saved.value, a.bytes, a.total, loaded);
      BootHeld(a.saved.value, loaded, devices, granted);
  }

  ghost predicate SavedGood(s: Sys) {
    s.saved.Some? ==> TreeInv(s.saved.value)
  }

  /** And it leaves a good state good if and only if it is safe. */
  lemma StepGood(a: Sys, e: Event, b: Sys)
    requires Good(a.fs) && InStep(a) && SavedGood(a) && Step(a, e, b)
    ensures InStep(b) && SavedGood(b) && (Good(b.fs) <==> Safe(a, e))
  {
    TreeShaped(a.fs);
    StepInStep(a, e, b);
    match e
    case Operation(op) =>
      V.StepTree(a.fs, op, b.fs);
      StepOwnership(a.fs, op, b.fs);
    case Devices(devices, granted) =>
      PopulatedIff(a.fs, devices, granted);
      PopulatedOwnership(a.fs, devices, granted);
    case Sync(flushed) =>
    case RawWrite(off, buf) => SeenHeld(a.fs, b.fs.store.data);
    case Boot(loaded, bitmap, devices, granted) =>
      LoadsSaved(a.saved.value, a.bytes, a.total, loaded);
      BootGood(a.saved.value, loaded, devices, granted);
  }

  // ---- runs ----

  /** A run starts on a fresh system, before any sync of its own. */
  ghost predicate IsRun(run: seq<Sys>, events: seq<Event>) {
    && |run| == |events| + 1 && Fresh(run[0].fs) && run[0].saved.None? && Mirrors(run[0])
    && forall k {:trigger Took(run, events, k)} :: 0 <= k < |events| ==> Took(run, events, k)
  }

  ghost predicate Took(run: seq<Sys>, events: seq<Event>, k: nat)
    requires k < |events| && |run| == |events| + 1
  {
    Step(run[k], events[k], run[k + 1])
  }

  lemma RunGrows(run: seq<Sys>, events: seq<Event>, e: Event, s: Sys)
    requires IsRun(run, events) && Step(run[|events|], e, s)
    ensures IsRun(run + [s], events + [e])
  {
    var run', events' := run + [s], events + [e];
    forall k | 0 <= k < |events'| ensures Took(run', events', k) {
      if k < |events| {
        assert Took(run, events, k);
        TookStays(run, events, run', events', k);
      } else {
        assert run'[k] == run[k] && run'[k + 1] == s && events'[k] == e;
      }
    }
  }

  lemma TookStays(run: seq<Sys>, events: seq<Event>, run': seq<Sys>, events': seq<Event>, k: nat)
    requires k < |events| <= |events'| && |run| == |events| + 1 && |run'| == |events'| + 1
    requires run <= run' && events <= events' && Took(run, events, k)
    ensures Took(run', events', k)
  {
    assert run'[k] == run[k] && run'[k + 1] == run[k + 1] && events'[k] == events[k];
  }

  /** A run as one value. */
  datatype History = History(run: seq<Sys>, events: seq<Event>)

  ghost predicate IsTale(h: History) {
    IsRun(h.run, h.events)
  }

  ghost function Last(h: History): Sys
    requires IsTale(h)
  {
    h.run[|h.events|]
  }

  ghost function Next(h: History, e: Event, s: Sys): History {
    History(h.run + [s], h.events + [e])
  }

  lemma StepTaken(h: History, e: Event, s: Sys)
    requires IsTale(h) && Step(Last(h), e, s)
    ensures IsTale(Next(h, e, s)) && Last(Next(h, e, s)) == s
  {
    RunGrows(h.run, h.events, e, s);
  }

  ghost predicate AllHeld(run: seq<Sys>, n: nat)
    requires n < |run|
  {
    forall k :: 0 <= k <= n ==> Held(run[k].fs)
  }

  ghost predicate AllExact(run: seq<Sys>, events: seq<Event>, n: nat)
    requires n <= |events| && n < |run|
  {
    forall k :: 0 <= k < n ==> Exactly(run[k], events[k])
  }

  /** In all states of a run blocks are owned exactly, if and only if every boot finds the bitmap of the
      tree that it loads. Then, whatever happened to names, every state can be saved, the image of the last
      sync is on the disk until a write to the raw disk changes it, and the blocks of files are there. */
  lemma {:induction false} RunHeld(run: seq<Sys>, events: seq<Event>, n: nat)
    requires IsRun(run, events) && n < |run|
    ensures AllHeld(run, n) <==> AllExact(run, events, n)
    ensures AllHeld(run, n) ==> InStep(run[n])
  {
    if n == 0 {
      FreshShaped(run[0].fs);
    } else {
      RunHeld(run, events, n - 1);
      assert Took(run, events, n - 1);
      assert AllHeld(run, n) <==> AllHeld(run, n - 1) && Held(run[n].fs);
      assert AllExact(run, events, n) <==> AllExact(run, events, n - 1) && Exactly(run[n - 1], events[n - 1]);
      if AllHeld(run, n - 1) {
        StepKeepsHeld(run[n - 1], events[n - 1], run[n]);
        StepInStep(run[n - 1], events[n - 1], run[n]);
      }
    }
  }

  ghost predicate AllGood(run: seq<Sys>, n: nat)
    requires n < |run|
  {
    forall k :: 0 <= k <= n ==> Good(run[k].fs)
  }

  ghost predicate AllSafe(run: seq<Sys>, events: seq<Event>, n: nat)
    requires n <= |events| && n < |run|
  {
    forall k :: 0 <= k < n ==> Safe(run[k], events[k])
  }

  /** In all states of a run the nodes form a tree with distinct sibling names and blocks are owned
      exactly, if and only if every step is safe. */
  lemma {:induction false} RunGood(run: seq<Sys>, events: seq<Event>, n: nat)
    requires IsRun(run, events) && n < |run|
    ensures AllGood(run, n) <==> AllSafe(run, events, n)
    ensures AllGood(run, n) ==> InStep(run[n]) && SavedGood(run[n])
  {
    if n == 0 {
      V.FreshTree(run[0].fs);
      FreshOwnership(run[0].fs);
    } else {
      RunGood(run, events, n - 1);
      assert Took(run, events, n - 1);
      assert AllGood(run, n) <==> AllGood(run, n - 1) && Good(run[n].fs);
      assert AllSafe(run, events, n) <==> AllSafe(run, events, n - 1) && Safe(run[n - 1], events[n - 1]);
      if AllGood(run, n - 1) { StepGood(run[n - 1], events[n - 1], run[n]); }
    }
  }

  lemma {:induction false} SameTotal(run: seq<Sys>, events: seq<Event>, n: nat)
    requires IsRun(run, events) && n < |run|
    ensures run[n].total == run[0].total && Sized(run[n].bytes, run[n].total)
  {
    if n > 0 {
      SameTotal(run, events, n - 1);
      assert Took(run, events, n - 1);
    }
  }

  // ---- what stays on the disk ----

  /** Event `i` is a sync, and no other comes before state `j`. */
  ghost predicate LastSync(events: seq<Event>, i: nat, j: nat) {
    i < j <= |events| && events[i].Sync? && forall k :: i < k < j ==> !events[k].Sync?
  }

  /** No write to the raw disk between writes anything else over the image of that sync. */
  ghost predicate ImageSpared(run: seq<Sys>, events: seq<Event>, i: nat, j: nat)
    requires i < j <= |events| < |run|
  {
    forall k :: i < k < j ==> SparesSync(run[k], events[k], run[i].fs)
  }

  ghost predicate SparesSync(s: Sys, e: Event, synced: Fs) {
    e.RawWrite? ==> SparesImage(s.bytes, s.total, Records(synced), e.off, e.buf)
  }

  /** An event other than a sync keeps the history of the last one, or loses it. */
  lemma StepSaved(a: Sys, e: Event, b: Sys, synced: Fs, spared: bool)
    requires Step(a, e, b) && !e.Sync? && a.saved == if spared then Some(synced) else None
    ensures b.saved == if spared && SparesSync(a, e, synced) then Some(synced) else None
  {
  }

  /** The history field is the last sync, until a write to the raw disk changes its image. */
  lemma {:induction false} SavedIsLastSync(run: seq<Sys>, events: seq<Event>, i: nat, j: nat)
    requires IsRun(run, events) && LastSync(events, i, j)
    ensures run[j].saved == if ImageSpared(run, events, i, j) then Some(run[i].fs) else None
    decreases j
  {
    assert Took(run, events, j - 1);
    if j > i + 1 {
      SavedIsLastSync(run, events, i, j - 1);
      var spared := ImageSpared(run, events, i, j - 1);
      StepSaved(run[j - 1], events[j - 1], run[j], run[i].fs, spared);
      assert ImageSpared(run, events, i, j) <==> spared && SparesSync(run[j - 1], events[j - 1], run[i].fs);
    }
  }

  /** Whatever was written to files in the meantime, the image of the last sync is on the disk, as long as
      writes to the raw disk spare it. */
  lemma ImageStays(run: seq<Sys>, events: seq<Event>, i: nat, j: nat)
    requires IsRun(run, events) && LastSync(events, i, j) && AllHeld(run, j) && ImageSpared(run, events, i, j)
    ensures D.HoldsImage(run[j].bytes, run[j].total, Records(run[i].fs))
  {
    SavedIsLastSync(run, events, i, j);
    RunHeld(run, events, j);
  }

  /** The bits that boot would find. */
  ghost function BitsOn(s: Sys): seq<bool> {
    Found(s, true).used
  }

  ghost predicate BitmapSpared(run: seq<Sys>, events: seq<Event>, i: nat, j: nat)
    requires i < j <= |events| < |run|
  {
    forall k :: i < k < j ==> SparesBitmap(run[k], events[k])
  }

  /** A write to the raw disk writes nothing else over the bitmap. */
  ghost predicate SparesBitmap(s: Sys, e: Event) {
    e.RawWrite? ==>
      && Sized(s.bytes, s.total)
      && var lo := SECTOR * BOOT_SECTORS;
      Agrees(s.bytes, s.total, e.off, e.buf, lo, lo + Geo(s.total).bitmapBytes)
  }

  lemma StepBits(a: Sys, e: Event, b: Sys)
    requires Step(a, e, b) && !e.Sync? && Sized(a.bytes, a.total) && Plan(a.total).Some? && SparesBitmap(a, e)
    ensures BitsOn(b) == BitsOn(a)
  {
    GeoFits(a.total);
    match e
    case Operation(op) =>
      if a.inUse { KeptOutside(a.bytes, a.total, Geo(a.total), b.bytes, []); }
    case RawWrite(off, buf) => PokeBitmap(a.bytes, a.total, Geo(a.total), off, buf);
    case _ =>
  }

  lemma SyncBits(a: Sys, flushed: Option<seq<byte>>, b: Sys)
    requires Step(a, Sync(flushed), b) && Plan(a.total).Some?
    ensures BitsOn(b) == if flushed.Some? then a.fs.store.used else BitsOn(a)
  {
    GeoFits(a.total);
    SyncedStore(a.bytes, a.total, Records(a.fs), Geo(a.total), flushed, b.bytes);
  }

  /** The bitmap on the disk is the one of the last sync if its flush found memory, and an older one
      if not, as long as writes to the raw disk spare it. */
  lemma DiskBits(run: seq<Sys>, events: seq<Event>, i: nat, j: nat)
    requires IsRun(run, events) && LastSync(events, i, j) && Plan(run[0].total).Some? && BitmapSpared(run, events, i, j)
    ensures BitsOn(run[j]) == if events[i].flushed.Some? then run[i].fs.store.used else BitsOn(run[i])
  {
    NextBits(run, events, i);
    BitsStay(run, events, i + 1, j, BitsOn(run[i + 1]));
  }

  lemma {:induction false} BitsStay(run: seq<Sys>, events: seq<Event>, i: nat, j: nat, used: seq<bool>)
    requires IsRun(run, events) && i <= j < |run| && Plan(run[0].total).Some? && BitsOn(run[i]) == used
    requires forall k :: i <= k < j ==> !events[k].Sync? && SparesBitmap(run[k], events[k])
    ensures BitsOn(run[j]) == used
    decreases j - i
  {
    if i < j {
      NextBits(run, events, i);
      BitsStay(run, events, i + 1, j, used);
    }
  }

  lemma NextBits(run: seq<Sys>, events: seq<Event>, k: nat)
    requires IsRun(run, events) && k < |events| && Plan(run[0].total).Some? && SparesBitmap(run[k], events[k])
    ensures BitsOn(run[k + 1]) ==
      if events[k].Sync? && events[k].flushed.Some? then run[k].fs.store.used else BitsOn(run[k])
  {
    SameTotal(run, events, k);
    assert Took(run, events, k);
    if events[k].Sync? {
      SyncBits(run[k], events[k].flushed, run[k + 1]);
    } else {
      StepBits(run[k], events[k], run[k + 1]);
    }
  }

  // ---- what a crash brings back ----

  /** Event `j` is the boot after a crash, `i` the last sync before it, and in all states up to the crash
      blocks are owned exactly. Names may have been hidden, by earlier boots for instance. */
  ghost predicate Crash(run: seq<Sys>, events: seq<Event>, i: nat, j: nat) {
    IsRun(run, events) && LastSync(events, i, j) && j < |events| && events[j].Boot? && AllHeld(run, j)
  }

  lemma CrashLoads(run: seq<Sys>, events: seq<Event>, i: nat, j: nat)
    requires Crash(run, events, i, j)
    ensures Held(run[i].fs) && S.HeapBound(run[i].fs.nodes) && M.Rebooted(run[i].fs, events[j].loaded)
    ensures ROOT in events[j].loaded.nodes && Shaped(events[j].loaded) && Shaped(run[j + 1].fs)
    ensures run[j + 1].fs == Populated(events[j].loaded, events[j].devices, events[j].granted)
    ensures run[j + 1].fs.store == Found(run[j], events[j].bitmap) && Known(events[j].devices)
  {
    SavedIsLastSync(run, events, i, j);
    RunHeld(run, events, j);
    GeoFits(run[j].total);
    assert Took(run, events, j);
    var loaded := events[j].loaded;
    LoadsSaved(run[i].fs, run[j].bytes, run[j].total, loaded);
    BootHeld(run[i].fs, loaded, events[j].devices, events[j].granted);
    PopulatedStore(loaded, events[j].devices, events[j].granted);
  }

  /** After a crash every path of the last sync with fewer than 16384 nodes before it leads to a node with
      the attributes of then. Its bytes are those that its blocks of then hold on the disk now. */
  lemma CrashFinds(run: seq<Sys>, events: seq<Event>, i: nat, j: nat, cs: seq<Text>)
    requires Crash(run, events, i, j) && Walk(run[i].fs.nodes, ROOT, cs).Some?
    ensures S.Tree(run[i].fs).Grove? && L.Seek(S.Tree(run[i].fs), cs).Some? && ROOT in run[j + 1].fs.nodes
    ensures run[j + 1].fs.store == Found(run[j], events[j].bitmap)
    ensures M.Rank(run[i].fs, cs) < F.MAX_NODES ==>
      && Walk(run[j + 1].fs.nodes, ROOT, cs).Some?
      && var now := run[j + 1].fs.store.data;
      R.EntryOf(run[j + 1].fs.nodes[Walk(run[j + 1].fs.nodes, ROOT, cs).value], now)
        == R.EntryOf(run[i].fs.nodes[Walk(run[i].fs.nodes, ROOT, cs).value], now)
  {
    CrashLoads(run, events, i, j);
    BootFinds(run[i].fs, events[j].loaded, events[j].devices, events[j].granted, cs, run[j + 1].fs.store.data);
  }

  lemma BootFinds(a: Fs, loaded: Fs, devices: seq<Device>, granted: nat -> bool, cs: seq<Text>, now: seq<Block>)
    requires Held(a) && S.HeapBound(a.nodes) && M.Rebooted(a, loaded) && ROOT in loaded.nodes && Known(devices)
    requires Shaped(loaded) && Walk(a.nodes, ROOT, cs).Some?
    ensures S.Tree(a).Grove? && L.Seek(S.Tree(a), cs).Some?
    ensures var fs := Populated(loaded, devices, granted);
      && ROOT in fs.nodes
      && (M.Rank(a, cs) < F.MAX_NODES ==>
            && Walk(fs.nodes, ROOT, cs).Some?
            && R.EntryOf(fs.nodes[Walk(fs.nodes, ROOT, cs).value], now)
                 == R.EntryOf(a.nodes[Walk(a.nodes, ROOT, cs).value], now))
  {
    M.KeptPaths(a, loaded, cs);
    PopulatedKeeps(loaded, devices, granted);
    PopulatedPaths(loaded, devices, granted, cs);
    if M.Rank(a, cs) < F.MAX_NODES {
      var x, y := Walk(a.nodes, ROOT, cs).value, Walk(loaded.nodes, ROOT, cs).value;
      assert NodeOk(a.nodes[x], a.store.used);
      SameEntry(a.nodes[x], a.store.used, loaded.nodes[y], now);
    }
  }

  /** Nodes of one saved form look the same. */
  lemma SameEntry(a: Node, used: seq<bool>, b: Node, data: seq<Block>)
    requires NodeOk(a, used) && NodeSound(b) && Normal(MetaOf(a)) == Normal(MetaOf(b))
    ensures R.EntryOf(a, data) == R.EntryOf(b, data)
  {
  }

  /** Every other path that leads somewhere after a crash names a device. */
  lemma CrashAddsDevices(run: seq<Sys>, events: seq<Event>, i: nat, j: nat, cs: seq<Text>)
    requires Crash(run, events, i, j)
    ensures S.Tree(run[i].fs).Grove? && ROOT in run[j + 1].fs.nodes
    ensures Walk(run[i].fs.nodes, ROOT, cs).Some? <==> L.Seek(S.Tree(run[i].fs), cs).Some?
    ensures Walk(run[j + 1].fs.nodes, ROOT, cs).Some? ==>
      || (Walk(run[i].fs.nodes, ROOT, cs).Some? && M.Rank(run[i].fs, cs) < F.MAX_NODES)
      || NamesDevice(cs, [DEV], events[j].devices)
  {
    CrashLoads(run, events, i, j);
    M.KeptPaths(run[i].fs, events[j].loaded, cs);
    PopulatedPaths(events[j].loaded, events[j].devices, events[j].granted, cs);
  }

  /** If a tree was saved, a crash leaves a good state if and only if the bitmap on the disk belongs to that
      tree, and the /dev that is loaded holds none of the devices that boot makes. */
  lemma CrashIff(run: seq<Sys>, events: seq<Event>, i: nat, j: nat)
    requires Crash(run, events, i, j) && TreeInv(run[i].fs)
    ensures ROOT in events[j].loaded.nodes
    ensures Good(run[j + 1].fs) <==>
      M.Exact(run[i].fs, events[j].loaded) && NoDevices(events[j].loaded, events[j].devices, events[j].granted)
    ensures |run[i].fs.nodes| <= F.MAX_NODES ==>
      (NoDevices(events[j].loaded, events[j].devices, events[j].granted)
       <==> NoDevices(run[i].fs, events[j].devices, events[j].granted))
  {
    CrashLoads(run, events, i, j);
    BootGood(run[i].fs, events[j].loaded, events[j].devices, events[j].granted);
    TreeShaped(run[i].fs);
    S.TreeSize(run[i].fs);
    if |run[i].fs.nodes| <= F.MAX_NODES {
      SameDevices(run[i].fs, events[j].loaded, events[j].devices, events[j].granted);
    }
  }

  /** With block storage in use before and after: if and only if that flush found memory, or the disk had
      its bits already, and /dev held none of the devices. */
  lemma CrashFlushed(run: seq<Sys>, events: seq<Event>, i: nat, j: nat)
    requires Crash(run, events, i, j) && TreeInv(run[i].fs) && |run[i].fs.nodes| <= F.MAX_NODES
    requires events[j].bitmap && run[i].inUse && BitmapSpared(run, events, i, j)
    ensures Good(run[j + 1].fs) <==>
      (events[i].flushed.Some? || BitsOn(run[i]) == run[i].fs.store.used)
      && NoDevices(run[i].fs, events[j].devices, events[j].granted)
  {
    CrashIff(run, events, i, j);
    CrashLoads(run, events, i, j);
    FlushedExact(run, events, i, j);
  }

  lemma FlushedExact(run: seq<Sys>, events: seq<Event>, i: nat, j: nat)
    requires Crash(run, events, i, j) && TreeInv(run[i].fs) && |run[i].fs.nodes| <= F.MAX_NODES
    requires events[j].bitmap && run[i].inUse && BitmapSpared(run, events, i, j)
    ensures M.Exact(run[i].fs, events[j].loaded) <==>
      events[i].flushed.Some? || BitsOn(run[i]) == run[i].fs.store.used
  {
    SameTotal(run, events, i);
    SameTotal(run, events, j);
    RunHeld(run, events, j);
    HeldPrefix(run, events, i, j);
    GeoFits(run[i].total);
    DiskBits(run, events, i, j);
    assert Took(run, events, j);
    TreeShaped(run[i].fs);
    S.TreeSize(run[i].fs);
    M.ExactWithinLimit(run[i].fs, events[j].loaded);
  }

  lemma HeldPrefix(run: seq<Sys>, events: seq<Event>, i: nat, j: nat)
    requires IsRun(run, events) && i <= j < |run| && AllHeld(run, j)
    ensures InStep(run[i])
  {
    RunHeld(run, events, i);
  }

  /** A state that was saved can be loaded: there is a boot after every sync. */
  lemma CanBoot(a: Fs, disk: Store) returns (loaded: Fs)
    requires Held(a) && S.HeapBound(a.nodes) && disk.Valid()
    ensures M.Rebooted(a, loaded) && ROOT in loaded.nodes && loaded.store == disk
  {
    var f := S.Tree(a);
    S.RootInside(a);
    S.ForestSaves(a, -1, [ROOT]);
    var st := R.BootLoads(f, Records(a), a.store, a.store.data);
    loaded := Fs(st.nodes, st.next, disk);
  }

  /** The loaded /dev holds what the saved one held. */
  lemma SameDevices(a: Fs, loaded: Fs, devices: seq<Device>, granted: nat -> bool)
    requires Held(a) && S.HeapBound(a.nodes) && M.Rebooted(a, loaded) && ROOT in loaded.nodes
    requires P.Size(S.Tree(a)) <= F.MAX_NODES
    ensures NoDevices(a, devices, granted) <==> NoDevices(loaded, devices, granted)
  {
    var x, y := FindDir(a.nodes, ROOT, DEV), FindDir(loaded.nodes, ROOT, DEV);
    DevPlace(a.nodes);
    DevPlace(loaded.nodes);
    SamePlace(a, loaded, [DEV]);
    if x.Some? {
      forall i | 0 <= i < |devices|
        ensures FindDir(a.nodes, x.value, devices[i].name).Some?
           <==> FindDir(loaded.nodes, y.value, devices[i].name).Some?
      {
        SamePlace(a, loaded, [DEV, devices[i].name]);
        BelowDev(a.nodes, devices[i].name);
        BelowDev(loaded.nodes, devices[i].name);
      }
      SameVacancy(a, x.value, loaded, y.value, devices, granted);
    }
  }

  lemma SameVacancy(a: Fs, x: nat, b: Fs, y: nat, devices: seq<Device>, granted: nat -> bool)
    requires x in a.nodes && y in b.nodes && a.nodes[x].kind == b.nodes[y].kind
    requires |a.nodes[x].children| == |b.nodes[y].children|
    requires forall i :: 0 <= i < |devices| ==>
      (FindDir(a.nodes, x, devices[i].name).Some? <==> FindDir(b.nodes, y, devices[i].name).Some?)
    ensures Vacant(a, x, devices, granted) <==> Vacant(b, y, devices, granted)
  {
    forall i: nat ensures Made(a, x, granted, i) <==> Made(b, y, granted, i) {
    }
  }

  lemma BelowDev(nodes: map<nat, Node>, name: Text)
    requires ROOT in nodes && FindDir(nodes, ROOT, DEV).Some?
    ensures Walk(nodes, ROOT, [DEV, name]) == FindDir(nodes, FindDir(nodes, ROOT, DEV).value, name)
  {
    DevPlace(nodes);
    assert [DEV, name][..1] == [DEV];
  }

  /** Within the node limit both trees have the same paths, to nodes of one kind and as many children. */
  lemma SamePlace(a: Fs, loaded: Fs, cs: seq<Text>)
    requires Held(a) && S.HeapBound(a.nodes) && M.Rebooted(a, loaded) && ROOT in loaded.nodes
    requires P.Size(S.Tree(a)) <= F.MAX_NODES
    ensures var x, y := Walk(a.nodes, ROOT, cs), Walk(loaded.nodes, ROOT, cs);
      && (x.Some? <==> y.Some?)
      && (x.Some? ==>
            && a.nodes[x.value].kind == loaded.nodes[y.value].kind
            && |a.nodes[x.value].children| == |loaded.nodes[y.value].children|)
  {
    M.KeptPaths(a, loaded, cs);
  }

  // ---- devices that stand in their own way ----

  /** The state in which event `e` makes its devices, and the devices. */
  ghost predicate MakesIn(s: Sys, e: Event, before: Fs, devices: seq<Device>, granted: nat -> bool) {
    match e
    case Devices(ds, gs) => before == s.fs && devices == ds && granted == gs
    case Boot(loaded, _, ds, gs) => before == loaded && devices == ds && granted == gs
    case _ => false
  }

  /** There is a directory /dev, and device `k` gets its node there. */
  ghost predicate Makes(fs: Fs, granted: nat -> bool, k: nat) {
    && ROOT in fs.nodes
    && var dev := FindDir(fs.nodes, ROOT, DEV);
    dev.Some? && fs.nodes[dev.value].kind == VFS_DIRECTORY && Made(fs, dev.value, granted, k)
  }

  /** A device that the first power-on or a boot made, and the next sync saved, breaks the tree at the boot
      after that. */
  lemma NextBoot(run: seq<Sys>, events: seq<Event>, i: nat, j: nat, before: Fs, devices: seq<Device>,
                 granted: nat -> bool, k: nat)
    requires Crash(run, events, i, j) && TreeInv(run[i].fs) && |run[i].fs.nodes| <= F.MAX_NODES
    requires 0 < i && MakesIn(run[i - 1], events[i - 1], before, devices, granted) && Shaped(before)
    requires k < |devices| && events[j].devices == devices
    requires Makes(before, granted, k) && Makes(run[i].fs, events[j].granted, k)
    ensures !Good(run[j + 1].fs)
  {
    assert Took(run, events, i - 1);
    BootMakes(before, devices, granted, k);
    CrashIff(run, events, i, j);
  }

  lemma BootMakes(fs: Fs, devices: seq<Device>, granted: nat -> bool, k: nat)
    requires Shaped(fs) && Known(devices) && k < |devices| && Makes(fs, granted, k)
    ensures var fs' := Populated(fs, devices, granted);
      && ROOT in fs'.nodes
      && var dev := FindDir(fs.nodes, ROOT, DEV).value;
      && dev in fs'.nodes && FindDir(fs'.nodes, ROOT, DEV) == Some(dev)
      && FindDir(fs'.nodes, dev, devices[k].name).Some?
  {
    var dev := FindDir(fs.nodes, ROOT, DEV).value;
    ShapedSane(fs, dev);
    assert DownOk(fs.nodes, fs.next, dev);
    DeviceStays(fs, dev, devices, granted, k);
    PopulatedPaths(fs, devices, granted, [DEV]);
    DevPlace(fs.nodes);
    DevPlace(Populated(fs, devices, granted).nodes);
  }

  // ---- which bytes a crash brings back ----

  /** The event may change the blocks of a node: it writes or removes the node, or writes something else
      over one of its blocks on the raw disk. */
  ghost predicate Touches(s: Sys, e: Event, id: nat) {
    match e
    case Operation(op) => (op.DiskWriteOp? && op.id == id) || (op.RemoveOp? && op.id == id)
    case Devices(_, _) => false
    case Sync(_) => false
    case RawWrite(off, buf) =>
      id in s.fs.nodes && Sized(s.bytes, s.total) && !BlocksSpared(s, off, buf, BlockList(s.fs.nodes[id]))
    case Boot(_, _, _, _) => true
  }

  ghost predicate BlocksSpared(s: Sys, off: nat, buf: seq<byte>, list: seq<u32>)
    requires Sized(s.bytes, s.total)
  {
    forall i :: 0 <= i < |list| ==>
      var lo := BlockOffset(Geo(s.total), list[i]);
      Agrees(s.bytes, s.total, off, buf, lo, lo + BLOCK_SIZE)
  }

  /** The blocks of a node are where they were and hold what they held. */
  ghost predicate Stays(a: Fs, b: Fs, id: nat) {
    && id in a.nodes && id in b.nodes && BlockList(b.nodes[id]) == BlockList(a.nodes[id])
    && |b.store.data| == |a.store.data| && InRange(BlockList(a.nodes[id]), |a.store.data|)
    && Content(b.store.data, BlockList(a.nodes[id])) == Content(a.store.data, BlockList(a.nodes[id]))
  }

  /** Other events leave the blocks of a node to it, and their contents alone. */
  lemma StepLeaves(a: Sys, e: Event, b: Sys, id: nat)
    requires Held(a.fs) && InStep(a) && Step(a, e, b) && !Touches(a, e, id) && id in a.fs.nodes
    ensures Stays(a.fs, b.fs, id) && b.inUse == a.inUse
  {
    assert NodeOk(a.fs.nodes[id], a.fs.store.used);
    match e
    case Operation(op) => OpLeaves(a.fs, op, b.fs, id);
    case Devices(devices, granted) => PopulatedKeeps(a.fs, devices, granted);
    case Sync(_) =>
    case RawWrite(off, buf) =>
      if a.inUse { PokeLeaves(a, off, buf, b, BlockList(a.fs.nodes[id])); }
  }

  lemma OpLeaves(a: Fs, op: Op, b: Fs, id: nat)
    requires OwnershipInv(a) && FileState.Step(a, op, b) && id in a.nodes
    requires !(op.DiskWriteOp? && op.id == id) && !(op.RemoveOp? && op.id == id)
    ensures Stays(a, b, id)
  {
    assert NodeOk(a.nodes[id], a.store.used);
    if op.DiskWriteOp? { BlocksSeparate(a, b, op.id, op.off, op.buf, op.ok, id); }
  }

  lemma PokeLeaves(a: Sys, off: nat, buf: seq<byte>, b: Sys, list: seq<u32>)
    requires Mirrors(a) && a.inUse && Step(a, RawWrite(off, buf), b)
    requires InRange(list, |a.fs.store.data|) && BlocksSpared(a, off, buf, list)
    ensures |b.fs.store.data| == |a.fs.store.data|
    ensures Content(b.fs.store.data, list) == Content(a.fs.store.data, list)
  {
    forall i | 0 <= i < |list| ensures b.fs.store.data[list[i]] == a.fs.store.data[list[i]] {
      PokeBlock(a.bytes, a.total, Geo(a.total), off, buf, list[i]);
    }
    ContentFrame(a.fs.store.data, b.fs.store.data, list);
  }

  lemma {:induction false} RunLeaves(run: seq<Sys>, events: seq<Event>, i: nat, j: nat, id: nat)
    requires IsRun(run, events) && i <= j <= |events| && AllHeld(run, j) && id in run[i].fs.nodes
    requires forall k :: i <= k < j ==> !Touches(run[k], events[k], id)
    ensures Stays(run[i].fs, run[j].fs, id) && run[j].inUse == run[i].inUse
    decreases j - i
  {
    assert NodeOk(run[i].fs.nodes[id], run[i].fs.store.used);
    if i < j {
      HeldPrefix(run, events, i, j);
      assert Took(run, events, i);
      StepLeaves(run[i], events[i], run[i + 1], id);
      RunLeaves(run, events, i + 1, j, id);
    }
  }

  /** A file that no event touched since the last sync looks as it did then, also if it was truncated or
      changed owner; without block storage after the crash, if it has no blocks. */
  lemma SyncedFileSurvives(run: seq<Sys>, events: seq<Event>, i: nat, j: nat, cs: seq<Text>)
    requires Crash(run, events, i, j) && Walk(run[i].fs.nodes, ROOT, cs).Some?
    requires var id := Walk(run[i].fs.nodes, ROOT, cs).value;
      && (forall k :: i <= k < j ==> !Touches(run[k], events[k], id))
      && (events[j].bitmap || BlockList(run[i].fs.nodes[id]) == [])
    ensures S.Tree(run[i].fs).Grove? && L.Seek(S.Tree(run[i].fs), cs).Some? && ROOT in run[j + 1].fs.nodes
    ensures M.Rank(run[i].fs, cs) < F.MAX_NODES ==>
      && Walk(run[j + 1].fs.nodes, ROOT, cs).Some?
      && R.EntryOf(run[j + 1].fs.nodes[Walk(run[j + 1].fs.nodes, ROOT, cs).value], run[j + 1].fs.store.data)
           == R.EntryOf(run[i].fs.nodes[Walk(run[i].fs.nodes, ROOT, cs).value], run[i].fs.store.data)
  {
    CrashFinds(run, events, i, j, cs);
    if M.Rank(run[i].fs, cs) < F.MAX_NODES {
      UntouchedBytes(run, events, i, j, Walk(run[i].fs.nodes, ROOT, cs).value);
    }
  }

  /** What the blocks of an untouched node held at the sync is what boot finds in them. */
  lemma UntouchedBytes(run: seq<Sys>, events: seq<Event>, i: nat, j: nat, id: nat)
    requires Crash(run, events, i, j) && id in run[i].fs.nodes
    requires forall k :: i <= k < j ==> !Touches(run[k], events[k], id)
    requires events[j].bitmap || BlockList(run[i].fs.nodes[id]) == []
    ensures R.EntryOf(run[i].fs.nodes[id], Found(run[j], events[j].bitmap).data)
      == R.EntryOf(run[i].fs.nodes[id], run[i].fs.store.data)
  {
    RunLeaves(run, events, i, j, id);
    RunHeld(run, events, j);
    GeoFits(run[j].total);
    assert Took(run, events, j);
    BytesSame(run[i].fs, run[j], id, events[j].bitmap);
  }

  lemma BytesSame(a: Fs, s: Sys, id: nat, bitmap: bool)
    requires Held(a) && Mirrors(s) && Stays(a, s.fs, id)
    requires bitmap ==> Plan(s.total).Some? && Fits(Geo(s.total), s.total)
    requires bitmap || BlockList(a.nodes[id]) == []
    ensures R.EntryOf(a.nodes[id], Found(s, bitmap).data) == R.EntryOf(a.nodes[id], a.store.data)
  {
    assert NodeOk(a.nodes[id], a.store.used);
    var list, now := BlockList(a.nodes[id]), Found(s, bitmap).data;
    if !s.inUse { R.NoBlocks(list, 0); }
    if list == [] { assert Content(now, list) == [] && Content(a.store.data, list) == []; }
  }
}
