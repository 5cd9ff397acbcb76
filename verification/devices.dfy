/** The device files that the kernel adds to the tree after every load (fs/devfs.c:168-204). */
module Devices {
  import opened Bytes
  import opened FileState
  import opened Shapes
  import opened VfsTree
  import P = Path
  import R = RamFs
  import W = RawDisk

  /** The arguments of `make_dev` that end up in the node. */
  datatype Device = Device(name: Text, size: u32, perms: u32)

  const DEV: Text := [100, 101, 118]
  const ZERO: Text := [122, 101, 114, 111]
  const NULL: Text := [110, 117, 108, 108]
  const RANDOM: Text := [114, 97, 110, 100, 111, 109]
  const SDA: Text := [115, 100, 97]

  /** Permission bits of owner, group and others. */
  function Mode(u: nat, g: nat, o: nat): nat { 64 * u + 8 * g + o }

  /** What `devfs_init` makes, with and without a disk. */
  function Devfs(present: bool, sectors: u32): (ds: seq<Device>)
    ensures forall i :: 0 <= i < |ds| ==> ds[i].name in {ZERO, NULL, RANDOM, SDA}
    ensures forall i, j :: 0 <= i < j < |ds| ==> ds[i].name != ds[j].name
    ensures |ds| == (if present then 4 else 3) && ds[0].name == [122, 101, 114, 111]
    ensures ds[1].name == [110, 117, 108, 108] && ds[2].name == [114, 97, 110, 100, 111, 109]
    ensures present ==> ds[3].name == [115, 100, 97] && ds[3].size == W.DiskBytes(sectors)
    ensures ds[0].perms == ds[1].perms == Mode(6, 6, 6) && ds[2].perms == Mode(6, 4, 4)
    ensures present ==> ds[3].perms == Mode(6, 4, 0)
    ensures ds[0].size == ds[1].size == ds[2].size == 0
  {
    [Device(ZERO, 0, 0x1B6), Device(NULL, 0, 0x1B6), Device(RANDOM, 0, 0x1A4)]
    + if present then [Device(SDA, sectors * 512 % U32_LIMIT, 0x1A0)] else []
  }

  function NodeFor(dev: nat, d: Device): Node {
    FreshNode(Some(dev), d.name, VFS_DEVICE).(size := d.size, perms := d.perms)
  }

  /** `make_dev`: nothing is looked up; it fails when the directory is full or memory is short. */
  function MakeDev(fs: Fs, dev: nat, d: Device, granted: bool): (r: Fs)
    requires dev in fs.nodes
    ensures dev in r.nodes
  {
    var kids := fs.nodes[dev].children;
    if |kids| >= VFS_MAX_CHILDREN || !granted then fs
    else
      Fs(fs.nodes[dev := fs.nodes[dev].(children := kids + [fs.next])][fs.next := NodeFor(dev, d)],
         fs.next + 1, fs.store)
  }

  function MakeDevs(fs: Fs, dev: nat, ds: seq<Device>, granted: nat -> bool): (r: Fs)
    requires dev in fs.nodes
    ensures dev in r.nodes
  {
    if ds == [] then fs else
    var n := |ds| - 1;
    MakeDev(MakeDevs(fs, dev, ds[..n], granted), dev, ds[n], granted(n))
  }

  /** `devfs_init`: a tree without /dev stays as it is. */
  function Populated(fs: Fs, ds: seq<Device>, granted: nat -> bool): Fs
    requires ROOT in fs.nodes
  {
    var dev := FindDir(fs.nodes, ROOT, DEV);
    if dev.None? then fs else MakeDevs(fs, dev.value, ds, granted)
  }

  // ---- ownership ----

  lemma MakeDevOwnership(fs: Fs, dev: nat, d: Device, granted: bool)
    requires OwnershipInv(fs) && dev in fs.nodes
    ensures OwnershipInv(MakeDev(fs, dev, d, granted))
  {
    var fs' := MakeDev(fs, dev, d, granted);
    if fs' != fs {
      var c := fs.next;
      var mid := fs'.(nodes := fs'.nodes[c := FreshNode(Some(dev), d.name, VFS_DEVICE)]);
      assert Create(fs, mid, dev, d.name, VFS_DEVICE);
      CreateOwnership(fs, mid, dev, d.name, VFS_DEVICE);
      assert fs'.nodes == mid.nodes[c := NodeFor(dev, d)];
      SameBlocksOwnership(mid, c, NodeFor(dev, d));
    }
  }

  lemma {:induction false} MakeDevsOwnership(fs: Fs, dev: nat, ds: seq<Device>, granted: nat -> bool)
    requires OwnershipInv(fs) && dev in fs.nodes
    ensures OwnershipInv(MakeDevs(fs, dev, ds, granted))
  {
    if ds != [] {
      var n := |ds| - 1;
      MakeDevsOwnership(fs, dev, ds[..n], granted);
      MakeDevOwnership(MakeDevs(fs, dev, ds[..n], granted), dev, ds[n], granted(n));
    }
  }

  // ---- the tree ----

  /** Nodes are numbered below `next`, and the directory lists nodes. */
  ghost predicate Sane(fs: Fs, dev: nat) {
    && dev in fs.nodes && (forall id :: id in fs.nodes ==> id < fs.next)
    && (forall i :: 0 <= i < |fs.nodes[dev].children| ==> fs.nodes[dev].children[i] in fs.nodes)
  }

  /** Damage that no later `make_dev` repairs: two entries of one name, or entries in a plain file. */
  ghost predicate Broken(fs: Fs, dev: nat) {
    && dev in fs.nodes
    && ((fs.nodes[dev].kind != VFS_DIRECTORY && fs.nodes[dev].children != [])
        || !DistinctNames(fs.nodes, fs.nodes[dev].children))
  }

  lemma TreeSane(fs: Fs, dev: nat)
    requires TreeInv(fs) && dev in fs.nodes
    ensures Sane(fs, dev) && !Broken(fs, dev)
  {
    assert LinkOk(fs.nodes, dev) && Local(fs.nodes, dev);
    var kids := fs.nodes[dev].children;
    forall i | 0 <= i < |kids| ensures kids[i] in fs.nodes {
      assert kids[i] in kids;
    }
    if kids != [] {
      assert kids[0] in kids;
      assert LinkOk(fs.nodes, kids[0]);
    }
  }

  lemma ShapedSane(fs: Fs, dev: nat)
    requires Shaped(fs) && dev in fs.nodes
    ensures Sane(fs, dev)
  {
    NumberedBelow(fs);
    Younger(fs, dev);
  }

  lemma BrokenStays(fs: Fs, dev: nat, d: Device, granted: bool)
    requires Sane(fs, dev)
    ensures Sane(MakeDev(fs, dev, d, granted), dev)
    ensures Broken(fs, dev) ==> Broken(MakeDev(fs, dev, d, granted), dev)
  {
    var fs' := MakeDev(fs, dev, d, granted);
    assert fs.next !in fs.nodes;
    var kids, kids' := fs.nodes[dev].children, fs'.nodes[dev].children;
    if !DistinctNames(fs.nodes, kids) {
      var i, j :| 0 <= i < j < |kids| && kids[i] in fs.nodes && kids[j] in fs.nodes
                  && fs.nodes[kids[i]].name == fs.nodes[kids[j]].name;
      assert kids'[i] == kids[i] && kids'[j] == kids[j];
    }
  }

  /** A name that is taken is taken by the older node for every later lookup. */
  lemma OlderHides(fs: Fs, dev: nat, d: Device, granted: bool, name: Text)
    requires Sane(fs, dev)
    ensures var r := FindDir(fs.nodes, dev, name);
      var r' := FindDir(MakeDev(fs, dev, d, granted).nodes, dev, name);
      && (r.Some? ==> r' == r)
      && (r.None? && StoredName(d.name) != name ==> r'.None?)
  {
    var fs' := MakeDev(fs, dev, d, granted);
    assert fs.next !in fs.nodes;
    if fs' != fs {
      FindAppended(fs.nodes, fs'.nodes, fs.nodes[dev].children, fs.next, name);
    }
  }

  lemma {:induction false} FindAppended(nodes: map<nat, Node>, nodes': map<nat, Node>, kids: seq<nat>, c: nat,
                                        name: Text)
    requires c in nodes' && forall i :: 0 <= i < |kids| ==> kids[i] in nodes
    requires forall k :: k in nodes ==> k in nodes' && nodes'[k].name == nodes[k].name
    ensures Find(nodes', kids + [c], name) ==
      if Find(nodes, kids, name).Some? then Find(nodes, kids, name)
      else if nodes'[c].name == name then Some(c) else None
    decreases |kids|
  {
    if kids == [] {
      assert ([] + [c])[1..] == [];
    } else {
      assert (kids + [c])[0] == kids[0] && (kids + [c])[1..] == kids[1..] + [c];
      FindAppended(nodes, nodes', kids[1..], c, name);
    }
  }

  /** `make_dev` meets nothing of the name, in a directory. */
  ghost predicate DevSafe(fs: Fs, dev: nat, d: Device, granted: bool)
    requires dev in fs.nodes
  {
    granted && |fs.nodes[dev].children| < VFS_MAX_CHILDREN ==>
      fs.nodes[dev].kind == VFS_DIRECTORY && FindDir(fs.nodes, dev, d.name).None?
  }

  /** A tree in which `dev` is found as /dev. */
  ghost predicate Intact(fs: Fs, dev: nat) {
    TreeInv(fs) && dev in fs.nodes && Comps(fs.nodes, dev) == [DEV]
  }

  /** A device name, in the directory that is found as /dev. */
  ghost predicate Placed(fs: Fs, dev: nat, d: Device) {
    Intact(fs, dev) && d.name in {ZERO, NULL, RANDOM, SDA}
  }

  lemma DevicePath(name: Text)
    requires name in {ZERO, NULL, RANDOM, SDA}
    ensures P.Plain(name) && StoredName(name) == name && Nameable([DEV] + [name]) && name != [P.SLASH]
  {
    var cs := [DEV, name];
    assert [DEV] + [name] == cs && cs[..1] == [DEV] && [DEV][..0] == [];
    assert P.Joined([DEV]) == [] + [P.SLASH] + DEV;
    assert P.Joined(cs) == P.Joined([DEV]) + [P.SLASH] + name;
    assert |name| <= 6;
  }

  /** Making a device keeps the tree if and only if it is safe. */
  lemma MakeDevIff(fs: Fs, dev: nat, d: Device, granted: bool)
    requires Placed(fs, dev, d)
    ensures var fs' := MakeDev(fs, dev, d, granted);
      if DevSafe(fs, dev, d, granted) then Intact(fs', dev) else Broken(fs', dev)
  {
    var fs' := MakeDev(fs, dev, d, granted);
    TreeSane(fs, dev);
    if granted && |fs.nodes[dev].children| < VFS_MAX_CHILDREN {
      DevicePath(d.name);
      if fs.nodes[dev].kind == VFS_DIRECTORY {
        DirectoryIff(fs, dev, d, fs');
      } else {
        assert fs'.nodes[dev].children != [];
      }
    }
  }

  lemma DirectoryIff(fs: Fs, dev: nat, d: Device, fs': Fs)
    requires Placed(fs, dev, d) && fs.nodes[dev].kind == VFS_DIRECTORY && |fs.nodes[dev].children| < VFS_MAX_CHILDREN
    requires fs' == MakeDev(fs, dev, d, true)
    ensures if FindDir(fs.nodes, dev, d.name).None? then Intact(fs', dev) else Broken(fs', dev)
  {
    TreeSane(fs, dev);
    assert fs.next !in fs.nodes;
    if FindDir(fs.nodes, dev, d.name).None? {
      NewDevice(fs, dev, d, fs');
    } else {
      var kids, kids' := fs.nodes[dev].children, fs'.nodes[dev].children;
      var older := Find(fs.nodes, kids, d.name).value;
      var i :| 0 <= i < |kids| && kids[i] == older;
      DevicePath(d.name);
      assert kids'[i] == older && kids'[|kids|] == fs.next && fs'.nodes[older].name == fs'.nodes[fs.next].name;
    }
  }

  lemma NewDevice(fs: Fs, dev: nat, d: Device, fs': Fs)
    requires Placed(fs, dev, d) && fs.nodes[dev].kind == VFS_DIRECTORY && |fs.nodes[dev].children| < VFS_MAX_CHILDREN
    requires fs' == MakeDev(fs, dev, d, true) && FindDir(fs.nodes, dev, d.name).None? && fs.next !in fs.nodes
    ensures Intact(fs', dev)
  {
    DevicePath(d.name);
    var bare := FreshNode(Some(dev), d.name, VFS_DEVICE);
    var mid := fs'.(nodes := fs'.nodes[fs.next := bare]);
    var listing := fs.nodes[dev].(children := fs.nodes[dev].children + [fs.next]);
    assert mid.nodes == fs.nodes[dev := listing][fs.next := bare];
    BareDevice(fs, dev, d.name, mid);
    SameShapes(mid, fs', fs.next, NodeFor(dev, d));
    CompsFrame(fs.nodes, fs'.nodes, dev);
  }

  lemma BareDevice(fs: Fs, dev: nat, name: Text, mid: Fs)
    requires TreeInv(fs) && Create(fs, mid, dev, name, VFS_DEVICE) && fs.nodes[dev].kind == VFS_DIRECTORY
    requires StoredName(name) == name && FindDir(fs.nodes, dev, name).None? && name != [P.SLASH]
    requires P.Plain(name) && Nameable(Comps(fs.nodes, dev) + [name])
    ensures TreeInv(mid)
  {
    CreateIff(fs, mid, dev, name, VFS_DEVICE);
  }

  lemma SameShapes(fs: Fs, fs': Fs, c: nat, n: Node)
    requires TreeInv(fs) && c in fs.nodes && fs' == fs.(nodes := fs.nodes[c := n])
    requires n == fs.nodes[c].(size := n.size, perms := n.perms)
    ensures TreeInv(fs')
  {
    ShapeKept(fs, fs');
  }

  // ---- all devices ----

  /** How many of the first `n` requests for a node are granted. */
  function GrantedTo(granted: nat -> bool, n: nat): nat {
    if n == 0 then 0 else GrantedTo(granted, n - 1) + (if granted(n - 1) then 1 else 0)
  }

  /** Device `i` gets its node: there is memory for it, and room in /dev after the devices before it. */
  predicate Made(fs: Fs, dev: nat, granted: nat -> bool, i: nat)
    requires dev in fs.nodes
  {
    granted(i) && |fs.nodes[dev].children| + GrantedTo(granted, i) < VFS_MAX_CHILDREN
  }

  lemma {:induction false} ChildCount(fs: Fs, dev: nat, ds: seq<Device>, granted: nat -> bool)
    requires Sane(fs, dev) && |fs.nodes[dev].children| <= VFS_MAX_CHILDREN
    ensures var fs' := MakeDevs(fs, dev, ds, granted);
      && Sane(fs', dev) && fs'.nodes[dev].kind == fs.nodes[dev].kind
      && |fs'.nodes[dev].children| == Min(VFS_MAX_CHILDREN, |fs.nodes[dev].children| + GrantedTo(granted, |ds|))
  {
    if ds != [] {
      var n := |ds| - 1;
      ChildCount(fs, dev, ds[..n], granted);
      BrokenStays(MakeDevs(fs, dev, ds[..n], granted), dev, ds[n], granted(n));
    }
  }

  /** No device that is made meets its own name, and /dev is a directory if one is made. */
  predicate Vacant(fs: Fs, dev: nat, ds: seq<Device>, granted: nat -> bool)
    requires dev in fs.nodes
  {
    forall i {:trigger Made(fs, dev, granted, i)} :: 0 <= i < |ds| && Made(fs, dev, granted, i) ==>
      fs.nodes[dev].kind == VFS_DIRECTORY && FindDir(fs.nodes, dev, ds[i].name).None?
  }

  ghost predicate Known(ds: seq<Device>) {
    && (forall i :: 0 <= i < |ds| ==> ds[i].name in {ZERO, NULL, RANDOM, SDA})
    && (forall i, j :: 0 <= i < j < |ds| ==> ds[i].name != ds[j].name)
  }

  /** The devices made so far do not hide what the next one looks for. */
  lemma {:induction false} StillFree(fs: Fs, dev: nat, ds: seq<Device>, granted: nat -> bool, name: Text)
    requires Sane(fs, dev) && Known(ds) && forall i :: 0 <= i < |ds| ==> ds[i].name != name
    ensures var fs' := MakeDevs(fs, dev, ds, granted);
      && Sane(fs', dev) && fs'.nodes[dev].kind == fs.nodes[dev].kind
      && (FindDir(fs'.nodes, dev, name).None? <==> FindDir(fs.nodes, dev, name).None?)
  {
    if ds != [] {
      var n := |ds| - 1;
      StillFree(fs, dev, ds[..n], granted, name);
      var mid := MakeDevs(fs, dev, ds[..n], granted);
      DevicePath(ds[n].name);
      BrokenStays(mid, dev, ds[n], granted(n));
      OlderHides(mid, dev, ds[n], granted(n), name);
    }
  }

  lemma {:induction false} MakeDevsIff(fs: Fs, dev: nat, ds: seq<Device>, granted: nat -> bool)
    requires Intact(fs, dev) && Known(ds)
    ensures var fs' := MakeDevs(fs, dev, ds, granted);
      && Sane(fs', dev)
      && if Vacant(fs, dev, ds, granted) then Intact(fs', dev) else Broken(fs', dev)
  {
    TreeSane(fs, dev);
    if ds != [] {
      var n := |ds| - 1;
      MakeDevsIff(fs, dev, ds[..n], granted);
      VacantNext(fs, dev, ds, granted);
      var mid := MakeDevs(fs, dev, ds[..n], granted);
      var safe := Made(fs, dev, granted, n) ==>
        fs.nodes[dev].kind == VFS_DIRECTORY && FindDir(fs.nodes, dev, ds[n].name).None?;
      assert DevSafe(mid, dev, ds[n], granted(n)) <==> safe by { NextSafe(fs, dev, ds, n, granted, mid); }
      MakeNext(mid, dev, ds[n], granted(n), Vacant(fs, dev, ds[..n], granted), safe);
    }
  }

  /** What the next device meets is what it would have met at the start. */
  lemma NextSafe(fs: Fs, dev: nat, ds: seq<Device>, n: nat, granted: nat -> bool, mid: Fs)
    requires Intact(fs, dev) && Known(ds) && n < |ds| && mid == MakeDevs(fs, dev, ds[..n], granted)
    ensures DevSafe(mid, dev, ds[n], granted(n)) <==>
      (Made(fs, dev, granted, n) ==>
         fs.nodes[dev].kind == VFS_DIRECTORY && FindDir(fs.nodes, dev, ds[n].name).None?)
  {
    TreeSane(fs, dev);
    assert Local(fs.nodes, dev);
    StillFree(fs, dev, ds[..n], granted, ds[n].name);
    ChildCount(fs, dev, ds[..n], granted);
  }

  lemma MakeNext(mid: Fs, dev: nat, d: Device, granted: bool, was: bool, safe: bool)
    requires Sane(mid, dev) && d.name in {ZERO, NULL, RANDOM, SDA}
    requires if was then Intact(mid, dev) else Broken(mid, dev)
    requires DevSafe(mid, dev, d, granted) <==> safe
    ensures var fs' := MakeDev(mid, dev, d, granted);
      Sane(fs', dev) && if was && safe then Intact(fs', dev) else Broken(fs', dev)
  {
    BrokenStays(mid, dev, d, granted);
    if was { MakeDevIff(mid, dev, d, granted); }
  }

  lemma VacantNext(fs: Fs, dev: nat, ds: seq<Device>, granted: nat -> bool)
    requires dev in fs.nodes && ds != []
    ensures var n := |ds| - 1;
      Vacant(fs, dev, ds, granted) <==>
      (Vacant(fs, dev, ds[..n], granted)
       && (Made(fs, dev, granted, n) ==>
             fs.nodes[dev].kind == VFS_DIRECTORY && FindDir(fs.nodes, dev, ds[n].name).None?))
  {
  }

  /** What /dev must not hold when the devices are made. */
  predicate NoDevices(fs: Fs, ds: seq<Device>, granted: nat -> bool)
    requires ROOT in fs.nodes
  {
    FindDir(fs.nodes, ROOT, DEV).Some? ==> Vacant(fs, FindDir(fs.nodes, ROOT, DEV).value, ds, granted)
  }

  /** Making the device files keeps the tree if and only if none of them is there already. */
  lemma PopulatedIff(fs: Fs, ds: seq<Device>, granted: nat -> bool)
    requires TreeInv(fs) && Known(ds)
    ensures TreeInv(Populated(fs, ds, granted)) <==> NoDevices(fs, ds, granted)
  {
    var dev := FindDir(fs.nodes, ROOT, DEV);
    if dev.Some? {
      FoundBelow(fs, ROOT, DEV);
      assert [] + [DEV] == [DEV];
      MakeDevsIff(fs, dev.value, ds, granted);
      if TreeInv(Populated(fs, ds, granted)) { TreeSane(Populated(fs, ds, granted), dev.value); }
    }
  }

  lemma PopulatedOwnership(fs: Fs, ds: seq<Device>, granted: nat -> bool)
    requires OwnershipInv(fs) && ROOT in fs.nodes
    ensures OwnershipInv(Populated(fs, ds, granted))
  {
    var dev := FindDir(fs.nodes, ROOT, DEV);
    if dev.Some? { MakeDevsOwnership(fs, dev.value, ds, granted); }
  }

  /** A device that meets its own name stays hidden behind the node that was loaded, which has none of
      the functions of the device. */
  lemma LoadedHides(fs: Fs, dev: nat, d: Device)
    requires Placed(fs, dev, d) && |fs.nodes[dev].children| < VFS_MAX_CHILDREN && FindDir(fs.nodes, dev, d.name).Some?
    ensures var fs' := MakeDev(fs, dev, d, true);
      && !TreeInv(fs') && fs.next in fs'.nodes && fs'.nodes[fs.next] == NodeFor(dev, d)
      && FindDir(fs'.nodes, dev, d.name) == FindDir(fs.nodes, dev, d.name) != Some(fs.next)
  {
    var fs' := MakeDev(fs, dev, d, true);
    TreeSane(fs, dev);
    MakeDevIff(fs, dev, d, true);
    OlderHides(fs, dev, d, true, d.name);
    if TreeInv(fs') { TreeSane(fs', dev); }
  }

  // ---- what else changes ----

  /** Nothing but the list of entries of /dev changes, and nothing but device nodes is added. */
  ghost predicate OnlyAdds(fs: Fs, fs': Fs, dev: nat, ds: seq<Device>)
    requires dev in fs.nodes
  {
    && fs'.store == fs.store && dev in fs'.nodes
    && (forall id :: id in fs.nodes ==> id in fs'.nodes)
    && (forall id :: id in fs.nodes && id != dev ==> fs'.nodes[id] == fs.nodes[id])
    && fs'.nodes[dev] == fs.nodes[dev].(children := fs'.nodes[dev].children)
    && (forall c :: c in fs'.nodes[dev].children ==> c in fs.nodes[dev].children || c !in fs.nodes)
    && (forall id :: id in fs'.nodes && id !in fs.nodes ==>
          exists i :: 0 <= i < |ds| && fs'.nodes[id] == NodeFor(dev, ds[i]))
  }

  /** What was found in /dev is found there afterwards. */
  ghost predicate Keeps(fs: Fs, fs': Fs, dev: nat)
    requires dev in fs.nodes && dev in fs'.nodes
  {
    forall name :: FindDir(fs.nodes, dev, name).Some? ==> FindDir(fs'.nodes, dev, name) == FindDir(fs.nodes, dev, name)
  }

  ghost predicate NamesDevice(cs: seq<Text>, up: seq<Text>, ds: seq<Device>) {
    exists i :: 0 <= i < |ds| && cs == up + [ds[i].name]
  }

  lemma {:induction false} MakeDevsAdds(fs: Fs, dev: nat, ds: seq<Device>, granted: nat -> bool)
    requires Sane(fs, dev)
    ensures var fs' := MakeDevs(fs, dev, ds, granted);
      Sane(fs', dev) && OnlyAdds(fs, fs', dev, ds) && Keeps(fs, fs', dev)
  {
    if ds != [] {
      var n := |ds| - 1;
      var mid := MakeDevs(fs, dev, ds[..n], granted);
      MakeDevsAdds(fs, dev, ds[..n], granted);
      BrokenStays(mid, dev, ds[n], granted(n));
      AddsOne(fs, mid, dev, ds, granted(n));
      forall name | FindDir(fs.nodes, dev, name).Some?
        ensures FindDir(MakeDevs(fs, dev, ds, granted).nodes, dev, name) == FindDir(fs.nodes, dev, name)
      {
        OlderHides(mid, dev, ds[n], granted(n), name);
      }
    }
  }

  lemma AddsOne(fs: Fs, mid: Fs, dev: nat, ds: seq<Device>, granted: bool)
    requires Sane(mid, dev) && ds != [] && dev in fs.nodes && OnlyAdds(fs, mid, dev, ds[..|ds| - 1])
    ensures OnlyAdds(fs, MakeDev(mid, dev, ds[|ds| - 1], granted), dev, ds)
  {
    var fs' := MakeDev(mid, dev, ds[|ds| - 1], granted);
    assert mid.next !in mid.nodes;
    forall id | id in fs'.nodes && id !in fs.nodes
      ensures exists i :: 0 <= i < |ds| && fs'.nodes[id] == NodeFor(dev, ds[i])
    {
      NewIsDevice(fs, mid, dev, ds, granted, id);
    }
  }

  lemma NewIsDevice(fs: Fs, mid: Fs, dev: nat, ds: seq<Device>, granted: bool, id: nat)
    requires Sane(mid, dev) && ds != [] && dev in fs.nodes && OnlyAdds(fs, mid, dev, ds[..|ds| - 1])
    requires id in MakeDev(mid, dev, ds[|ds| - 1], granted).nodes && id !in fs.nodes
    ensures exists i :: 0 <= i < |ds| && MakeDev(mid, dev, ds[|ds| - 1], granted).nodes[id] == NodeFor(dev, ds[i])
  {
    var n := |ds| - 1;
    var fs' := MakeDev(mid, dev, ds[n], granted);
    if id in mid.nodes {
      var i :| 0 <= i < |ds[..n]| && mid.nodes[id] == NodeFor(dev, ds[..n][i]);
      assert id != mid.next && fs'.nodes[id] == NodeFor(dev, ds[i]);
    } else {
      assert fs'.nodes[id] == NodeFor(dev, ds[n]);
    }
  }

  /** Every path still leads where it led. */
  lemma {:induction false} WalkKept(fs: Fs, fs': Fs, dev: nat, ds: seq<Device>, cs: seq<Text>)
    requires Shaped(fs) && dev in fs.nodes && OnlyAdds(fs, fs', dev, ds) && Keeps(fs, fs', dev)
    requires Walk(fs.nodes, ROOT, cs).Some?
    ensures Walk(fs'.nodes, ROOT, cs) == Walk(fs.nodes, ROOT, cs)
    decreases |cs|
  {
    if cs != [] {
      var n := |cs| - 1;
      WalkKept(fs, fs', dev, ds, cs[..n]);
      var up := Walk(fs.nodes, ROOT, cs[..n]).value;
      if up != dev {
        ShapedSane(fs, up);
        FindKept(fs.nodes, fs'.nodes, fs.nodes[up].children, cs[n]);
      }
    }
  }

  lemma {:induction false} FindKept(nodes: map<nat, Node>, nodes': map<nat, Node>, kids: seq<nat>, name: Text)
    requires forall i :: 0 <= i < |kids| ==> kids[i] in nodes
    requires forall k :: k in nodes ==> k in nodes' && nodes'[k].name == nodes[k].name
    ensures Find(nodes', kids, name) == Find(nodes, kids, name)
  {
    if kids != [] { FindKept(nodes, nodes', kids[1..], name); }
  }

  /** The device files hide nothing and take no blocks. */
  lemma PopulatedKeeps(fs: Fs, ds: seq<Device>, granted: nat -> bool)
    requires Shaped(fs)
    ensures var fs' := Populated(fs, ds, granted);
      && fs'.store == fs.store && (forall x: u32 :: Owned(fs'.nodes, x) <==> Owned(fs.nodes, x))
      && (forall id :: id in fs.nodes ==>
            id in fs'.nodes && fs'.nodes[id] == fs.nodes[id].(children := fs'.nodes[id].children))
      && (forall id :: id in fs'.nodes && id !in fs.nodes ==> Capacity(fs'.nodes[id]) == 0)
  {
    var dev, fs' := FindDir(fs.nodes, ROOT, DEV), Populated(fs, ds, granted);
    if dev.Some? {
      ShapedSane(fs, dev.value);
      MakeDevsAdds(fs, dev.value, ds, granted);
      forall x: u32 ensures Owned(fs'.nodes, x) <==> Owned(fs.nodes, x) {
        AddsNoBlocks(fs, fs', dev.value, ds, x);
      }
    }
  }

  /** They keep the shape, and cut no node off. */
  lemma PopulatedShaped(fs: Fs, ds: seq<Device>, granted: nat -> bool)
    requires Shaped(fs)
    ensures Shaped(Populated(fs, ds, granted)) && (Connected(fs) ==> Connected(Populated(fs, ds, granted)))
  {
    var dev := FindDir(fs.nodes, ROOT, DEV);
    if dev.Some? { MakeDevsShaped(fs, dev.value, ds, granted); }
  }

  lemma {:induction false} MakeDevsShaped(fs: Fs, dev: nat, ds: seq<Device>, granted: nat -> bool)
    requires Shaped(fs) && dev in fs.nodes
    ensures Shaped(MakeDevs(fs, dev, ds, granted)) && (Connected(fs) ==> Connected(MakeDevs(fs, dev, ds, granted)))
  {
    if ds != [] {
      var n := |ds| - 1;
      MakeDevsShaped(fs, dev, ds[..n], granted);
      MakeDevShaped(MakeDevs(fs, dev, ds[..n], granted), dev, ds[n], granted(n));
    }
  }

  lemma MakeDevShaped(fs: Fs, dev: nat, d: Device, granted: bool)
    requires Shaped(fs) && dev in fs.nodes
    ensures Shaped(MakeDev(fs, dev, d, granted)) && (Connected(fs) ==> Connected(MakeDev(fs, dev, d, granted)))
  {
    if granted && |fs.nodes[dev].children| < VFS_MAX_CHILDREN {
      JoinShaped(fs, MakeDev(fs, dev, d, true), dev, NodeFor(dev, d));
      if Connected(fs) { JoinConnected(fs, MakeDev(fs, dev, d, true), dev, NodeFor(dev, d)); }
    }
  }

  /** Every path leads where it led, and the new ones name devices. */
  lemma PopulatedPaths(fs: Fs, ds: seq<Device>, granted: nat -> bool, cs: seq<Text>)
    requires Shaped(fs) && Known(ds)
    ensures var fs' := Populated(fs, ds, granted);
      && ROOT in fs'.nodes
      && (Walk(fs'.nodes, ROOT, cs) == Walk(fs.nodes, ROOT, cs)
          || (Walk(fs.nodes, ROOT, cs).None? && NamesDevice(cs, [DEV], ds)))
  {
    var dev, fs' := FindDir(fs.nodes, ROOT, DEV), Populated(fs, ds, granted);
    if dev.Some? {
      ShapedSane(fs, dev.value);
      MakeDevsAdds(fs, dev.value, ds, granted);
      DevPlace(fs.nodes);
      if Walk(fs.nodes, ROOT, cs).Some? {
        WalkKept(fs, fs', dev.value, ds, cs);
      } else if Walk(fs'.nodes, ROOT, cs).Some? {
        WalkNew(fs, fs', dev.value, ds, cs);
      }
    }
  }

  lemma DevPlace(nodes: map<nat, Node>)
    requires ROOT in nodes
    ensures DEV == [100, 101, 118] && Walk(nodes, ROOT, [DEV]) == FindDir(nodes, ROOT, DEV)
  {
    assert [DEV][..0] == [] && [DEV][0] == DEV;
  }

  /** A path that leads somewhere afterwards led there before, or names a new device. */
  lemma {:induction false} WalkNew(fs: Fs, fs': Fs, dev: nat, ds: seq<Device>, cs: seq<Text>)
    requires Shaped(fs) && dev in fs.nodes && OnlyAdds(fs, fs', dev, ds) && Keeps(fs, fs', dev) && Known(ds)
    requires Walk(fs.nodes, ROOT, [DEV]) == Some(dev) && Walk(fs'.nodes, ROOT, cs).Some?
    ensures Walk(fs.nodes, ROOT, cs) == Walk(fs'.nodes, ROOT, cs)
      || (Walk(fs'.nodes, ROOT, cs).value !in fs.nodes && NamesDevice(cs, [DEV], ds))
    decreases |cs|
  {
    if cs != [] {
      var n := |cs| - 1;
      WalkNew(fs, fs', dev, ds, cs[..n]);
      var up := Walk(fs'.nodes, ROOT, cs[..n]).value;
      if Walk(fs.nodes, ROOT, cs[..n]) == Some(up) {
        assert cs[..n] + [cs[n]] == cs;
        NewBelow(fs, fs', dev, ds, up, cs[n]);
        if up == dev { WalkUnique(fs, cs[..n], [DEV]); }
      }
    }
  }

  lemma NewBelow(fs: Fs, fs': Fs, dev: nat, ds: seq<Device>, up: nat, name: Text)
    requires Shaped(fs) && dev in fs.nodes && OnlyAdds(fs, fs', dev, ds) && Keeps(fs, fs', dev) && Known(ds)
    requires up in fs.nodes && FindDir(fs'.nodes, up, name).Some?
    ensures FindDir(fs.nodes, up, name) == FindDir(fs'.nodes, up, name)
      || (&& up == dev && FindDir(fs'.nodes, up, name).value !in fs.nodes
          && exists i :: 0 <= i < |ds| && name == ds[i].name)
  {
    ShapedSane(fs, up);
    if up != dev {
      FindKept(fs.nodes, fs'.nodes, fs.nodes[up].children, name);
    } else if FindDir(fs.nodes, dev, name).None? {
      var id := FindDir(fs'.nodes, dev, name).value;
      var i :| 0 <= i < |ds| && fs'.nodes[id] == NodeFor(dev, ds[i]);
      DevicePath(ds[i].name);
    }
  }

  /** A device that is made is found in /dev afterwards. */
  lemma {:induction false} DeviceStays(fs: Fs, dev: nat, ds: seq<Device>, granted: nat -> bool, k: nat)
    requires Sane(fs, dev) && |fs.nodes[dev].children| <= VFS_MAX_CHILDREN && fs.nodes[dev].kind == VFS_DIRECTORY
    requires Known(ds) && k < |ds| && Made(fs, dev, granted, k)
    ensures FindDir(MakeDevs(fs, dev, ds, granted).nodes, dev, ds[k].name).Some?
  {
    var n := |ds| - 1;
    var first, name := ds[..n], ds[k].name;
    var mid := MakeDevs(fs, dev, first, granted);
    if k < n { DeviceStays(fs, dev, first, granted, k); }
    ChildCount(fs, dev, first, granted);
    DeviceAdded(mid, dev, ds[n], granted(n), name);
  }

  lemma DeviceAdded(mid: Fs, dev: nat, d: Device, granted: bool, name: Text)
    requires Sane(mid, dev) && mid.nodes[dev].kind == VFS_DIRECTORY && d.name in {ZERO, NULL, RANDOM, SDA}
    requires FindDir(mid.nodes, dev, name).Some?
      || (granted && d.name == name && |mid.nodes[dev].children| < VFS_MAX_CHILDREN)
    ensures FindDir(MakeDev(mid, dev, d, granted).nodes, dev, name).Some?
  {
    var fs' := MakeDev(mid, dev, d, granted);
    DevicePath(d.name);
    assert mid.next !in mid.nodes;
    OlderHides(mid, dev, d, granted, name);
    if granted && |mid.nodes[dev].children| < VFS_MAX_CHILDREN {
      FindAppended(mid.nodes, fs'.nodes, mid.nodes[dev].children, mid.next, name);
    }
  }

  lemma {:induction false} StoreKept(fs: Fs, dev: nat, ds: seq<Device>, granted: nat -> bool)
    requires dev in fs.nodes
    ensures MakeDevs(fs, dev, ds, granted).store == fs.store
  {
    if ds != [] { StoreKept(fs, dev, ds[..|ds| - 1], granted); }
  }

  lemma PopulatedStore(fs: Fs, ds: seq<Device>, granted: nat -> bool)
    requires ROOT in fs.nodes
    ensures Populated(fs, ds, granted).store == fs.store
  {
    var dev := FindDir(fs.nodes, ROOT, DEV);
    if dev.Some? { StoreKept(fs, dev.value, ds, granted); }
  }

  lemma AddsNoBlocks(fs: Fs, fs': Fs, dev: nat, ds: seq<Device>, x: u32)
    requires dev in fs.nodes && OnlyAdds(fs, fs', dev, ds)
    ensures Owned(fs'.nodes, x) <==> Owned(fs.nodes, x)
  {
    if Owned(fs.nodes, x) {
      var id :| id in fs.nodes && x in BlockList(fs.nodes[id]);
      assert id in fs'.nodes && x in BlockList(fs'.nodes[id]);
    }
    if Owned(fs'.nodes, x) {
      var id :| id in fs'.nodes && x in BlockList(fs'.nodes[id]);
      assert id in fs.nodes && x in BlockList(fs.nodes[id]);
    }
  }

  // ---- the code ----

  lemma Attributes(fs: Fs, mid: Fs, fs': Fs, dev: nat, d: Device)
    requires Create(fs, mid, dev, d.name, VFS_DEVICE)
    requires fs'.next == mid.next && fs'.store == mid.store
    requires fs'.nodes ==
      mid.nodes[fs.next := mid.nodes[fs.next].(size := d.size, perms := d.perms, uid := 0, gid := 0)]
    ensures fs' == MakeDev(fs, dev, d, true)
  {
    assert fs'.nodes[fs.next] == NodeFor(dev, d);
    assert fs'.nodes == MakeDev(fs, dev, d, true).nodes;
  }

  /** `make_dev`. */
  method MakeDevice(fs: R.RamFs, dev: nat, d: Device, granted: bool)
    requires fs.blockfs.Valid() && dev in fs.nodes
    modifies fs`nodes, fs`next
    ensures fs.blockfs.Valid() && fs.State() == MakeDev(old(fs.State()), dev, d, granted)
    ensures old(fs.Valid()) ==> fs.Valid()
    ensures granted && |old(fs.nodes[dev]).children| < 256 ==>
      && old(fs.next) in fs.nodes
      && fs.nodes[old(fs.next)] == Node(StoredName(d.name), 4, d.perms, 0, 0, d.size, Some(dev), [], None, None, false)
  {
    ghost var before := fs.State();
    var r := fs.CreateNode(dev, d.name, VFS_DEVICE, granted);
    if r.Some? {
      ghost var mid := fs.State();
      fs.nodes := fs.nodes[r.value := fs.nodes[r.value].(size := d.size, perms := d.perms, uid := 0, gid := 0)];
      Attributes(before, mid, fs.State(), dev, d);
    }
    if OwnershipInv(before) { MakeDevOwnership(before, dev, d, granted); }
  }

  /** `devfs_init`. */
  method DevfsInit(fs: R.RamFs, present: bool, sectors: u32, granted: nat -> bool)
    requires fs.blockfs.Valid() && ROOT in fs.nodes
    modifies fs`nodes, fs`next
    ensures fs.blockfs.Valid() && fs.State() == Populated(old(fs.State()), Devfs(present, sectors), granted)
    ensures old(fs.Valid()) ==> fs.Valid()
  {
    ghost var before := fs.State();
    var ds := Devfs(present, sectors);
    if OwnershipInv(before) { PopulatedOwnership(before, ds, granted); }
    var dev := FindDir(fs.nodes, ROOT, DEV);
    if dev.None? { return; }
    var i := 0;
    while i < |ds|
      invariant 0 <= i <= |ds| && fs.blockfs.Valid() && dev.value in fs.nodes
      invariant fs.State() == MakeDevs(before, dev.value, ds[..i], granted)
    {
      MadeNext(before, dev.value, ds, i, granted);
      MakeDevice(fs, dev.value, ds[i], granted(i));
      i := i + 1;
    }
    assert ds[..i] == ds;
  }

  lemma MadeNext(fs: Fs, dev: nat, ds: seq<Device>, i: nat, granted: nat -> bool)
    requires dev in fs.nodes && i < |ds|
    ensures MakeDevs(fs, dev, ds[..i + 1], granted)
      == MakeDev(MakeDevs(fs, dev, ds[..i], granted), dev, ds[i], granted(i))
  {
    assert ds[..i + 1][..i] == ds[..i];
  }
}
