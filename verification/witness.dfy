/** Runs that show where the file system loses data: a sync whose flush finds no memory, a crash after a
    block has changed hands, a directory that is written to, a truncation followed by a write behind the new end.
    All start on a fresh system with any number of blocks, on any disk that boot accepts. */
module Witness {
  import opened Bytes
  import opened Layout
  import opened Bitmap
  import opened BlockStore
  import opened BlockFile
  import opened FileState
  import opened VfsTree
  import opened TreeImage
  import opened Devices
  import opened Shapes
  import opened WitnessRun
  import D = DiskFs
  import F = SnapshotFormat
  import L = Path
  import M = Remount
  import P = Preorder
  import R = Reboot
  import Runs
  import S = Persist
  import V = Vfs

  /** A number of blocks that a disk can have. */
  type Blocks = n: nat | 0 < n < BLOCK_INVALID witness 8

  /** Every disk that boot accepts has one, from 8 on. */
  lemma AcceptedBlocks(total: u32)
    requires Plan(total).Some?
    ensures 8 <= Plan(total).value.blocks < BLOCK_INVALID
  {
    PlanFits(total);
  }

  ghost function Root(kids: seq<nat>): Node {
    FreshNode(None, [47], VFS_DIRECTORY).(children := kids)
  }

  ghost function NewNode(name: seq<byte>, kind: u32): Node {
    FreshNode(Some(ROOT), name, kind)
  }

  ghost function NewFile(name: seq<byte>): Node {
    NewNode(name, VFS_FILE)
  }

  /** A block that starts with `v`. */
  ghost function Starting(v: byte): Block {
    Splice(ZERO_BLOCK, 0, [v])
  }

  /** Only the first block is in use, if any, and only it holds anything. */
  ghost function OneBlock(n: Blocks, used: bool, blk: Block): Store {
    Store(seq(n, i => false)[0 := used], seq(n, i => ZERO_BLOCK)[0 := blk])
  }

  /** A node after the first byte has been written to it. */
  ghost function OneByte(n: Node): Node {
    n.(diskBacked := true, blocks := Some([0]), size := 1)
  }

  // ---- the first byte of a node ----

  lemma OneCount(n: Blocks, blk: Block, blk': Block)
    ensures var s, s' := OneBlock(n, false, blk), OneBlock(n, true, blk');
      && s.Valid() && s'.Valid() && Count(s.used) == 0 && Count(s'.used) == 1 && s'.used == s.used[0 := true]
      && s'.data == s.data[0 := blk']
  {
    var s, s' := OneBlock(n, false, blk), OneBlock(n, true, blk');
    assert s'.used == s.used[0 := true];
    assert s'.data == s.data[0 := blk'];
    CountNone(s.used);
    CountUpdate(s.used, 0, true);
  }

  lemma OneContent(data: seq<Block>)
    requires data != []
    ensures Content(data, [0]) == data[0]
  {
    ContentAt(data, [0], 0);
  }

  /** A first byte goes to the first block, when it is free. */
  lemma FirstWrite(n: Blocks, fs: Fs, id: nat, v: byte, blk: Block)
    requires id in fs.nodes && fs.store == OneBlock(n, false, blk) && fs.nodes[id].blocks.None?
    requires fs.nodes[id].size == 0
    requires fs.nodes[id].diskBacked
    ensures var fs' := Fs(fs.nodes[id := OneByte(fs.nodes[id])], fs.next, OneBlock(n, true, Starting(v)));
      DiskWrite(fs, fs', id, 0, [v], true)
  {
    var s, s' := fs.store, OneBlock(n, true, Starting(v));
    OneCount(n, blk, Starting(v));
    assert Taken(s.used, [], s'.used, [0]);
    assert Content(s.data, []) == [];
    OneContent(s'.data);
    assert BLOCK_SIZE * (|[0]| - 0) == BLOCK_SIZE;
    assert Content(s'.data, [0]) == Splice([] + Zeros(BLOCK_SIZE), 0, [v]);
    assert BlocksWritten(s, [], s', [0], 0, [v], true);
  }

  // ---- two files, one byte in the first ----

  ghost function N0(): map<nat, Node> { map[0 := Root([])] }
  ghost function N1(kind: u32): map<nat, Node> { map[0 := Root([1]), 1 := NewNode([97], kind)] }
  ghost function N2(): map<nat, Node> { map[0 := Root([1, 2]), 1 := NewFile([97]), 2 := NewFile([98])] }
  ghost function N4(): map<nat, Node> { map[0 := Root([1, 2]), 1 := OneByte(NewFile([97])), 2 := NewFile([98])] }

  ghost function S0(n: Blocks): Fs { Fs(N0(), 1, OneBlock(n, false, ZERO_BLOCK)) }
  ghost function S1(n: Blocks, kind: u32): Fs { Fs(N1(kind), 2, OneBlock(n, false, ZERO_BLOCK)) }
  ghost function S2(n: Blocks): Fs { Fs(N2(), 3, OneBlock(n, false, ZERO_BLOCK)) }
  ghost function S3(n: Blocks): Fs {
    Fs(N2()[1 := NewFile([97]).(diskBacked := true)], 3, OneBlock(n, false, ZERO_BLOCK))
  }
  ghost function S4(n: Blocks): Fs { Fs(N4(), 3, OneBlock(n, true, Starting(7))) }

  lemma ShortPath(name: Text)
    requires |name| <= 3
    ensures Nameable([name])
  {
    var cs := [name];
    assert cs[..|cs| - 1] == [];
    assert L.Joined(cs) == [] + [L.SLASH] + name;
  }

  lemma FreshGood(n: Blocks)
    ensures Fresh(S0(n)) && Runs.Good(S0(n))
  {
    OneCount(n, ZERO_BLOCK, ZERO_BLOCK);
    V.FreshTree(S0(n));
    FreshOwnership(S0(n));
  }

  lemma VGood(a: Fs, op: Op, b: Fs)
    requires Runs.Good(a) && V.VStep(a, op, b) && V.Safe(a, op)
    ensures Runs.Good(b)
  {
    V.StepTree(a, op, b);
    StepOwnership(a, op, b);
  }

  lemma Created(a: Fs, b: Fs, name: Text, kind: u32)
    requires Runs.Good(a) && Checked(a, ROOT, name) && Storable(a, ROOT, name)
    requires |a.nodes[ROOT].children| < VFS_MAX_CHILDREN
    requires b.next == a.next + 1 && b.store == a.store
    requires b.nodes ==
      a.nodes[ROOT := a.nodes[ROOT].(children := a.nodes[ROOT].children + [a.next])][a.next := NewNode(name, kind)]
    ensures V.VStep(a, CreateOp(ROOT, name, kind), b) && Runs.Good(b)
  {
    assert Create(a, b, ROOT, name, kind);
    VGood(a, CreateOp(ROOT, name, kind), b);
  }

  lemma FirstCreated(n: Blocks, kind: u32)
    ensures V.VStep(S0(n), CreateOp(ROOT, [97], kind), S1(n, kind)) && Runs.Good(S1(n, kind))
  {
    FreshGood(n);
    ShortPath([97]);
    assert [] + [[97 as byte]] == [[97 as byte]];
    assert Root([]).children + [1] == [1];
    assert S1(n, kind).nodes == S0(n).nodes[0 := Root([1])][1 := NewNode([97], kind)];
    assert Checked(S0(n), ROOT, [97]);
    Created(S0(n), S1(n, kind), [97], kind);
  }

  lemma SecondChecked(n: Blocks)
    requires TreeInv(S1(n, VFS_FILE))
    ensures Checked(S1(n, VFS_FILE), ROOT, [98]) && Storable(S1(n, VFS_FILE), ROOT, [98])
  {
    var fs := S1(n, VFS_FILE);
    ShortPath([98]);
    assert [] + [[98 as byte]] == [[98 as byte]];
    assert fs.nodes[1].name == [97];
    assert Find(fs.nodes, [1], [98]) == Find(fs.nodes, [], [98]) by { assert [1 as nat][1..] == []; }
  }

  lemma SecondListed()
    ensures N1(VFS_FILE)[ROOT].children == [1]
    ensures N2() == N1(VFS_FILE)[ROOT := N1(VFS_FILE)[ROOT].(children := [1] + [2])][2 := NewFile([98])]
  {
    var root := Root([1]);
    assert [1 as nat] + [2] == [1, 2];
    assert root.(children := [1] + [2]) == Root([1, 2]);
    assert N1(VFS_FILE)[ROOT] == root;
  }

  lemma SecondCreated(n: Blocks)
    ensures V.VStep(S1(n, VFS_FILE), CreateOp(ROOT, [98], VFS_FILE), S2(n)) && Runs.Good(S2(n))
  {
    var a, b := S1(n, VFS_FILE), S2(n);
    assert Runs.Good(a) by { FirstCreated(n, VFS_FILE); }
    assert Checked(a, ROOT, [98]) && Storable(a, ROOT, [98]) by { SecondChecked(n); }
    SecondListed();
    Created(a, b, [98], VFS_FILE);
  }

  lemma FirstPromoted(n: Blocks)
    ensures V.VStep(S2(n), PromoteOp(1), S3(n)) && Runs.Good(S3(n))
  {
    SecondCreated(n);
    VGood(S2(n), PromoteOp(1), S3(n));
  }

  lemma FirstWritten(n: Blocks)
    ensures V.VStep(S3(n), DiskWriteOp(1, 0, [7], true), S4(n)) && Runs.Good(S4(n))
  {
    FirstPromoted(n);
    FirstWrite(n, S3(n), 1, 7, ZERO_BLOCK);
    assert S4(n).nodes == S3(n).nodes[1 := OneByte(S3(n).nodes[1])];
    VGood(S3(n), DiskWriteOp(1, 0, [7], true), S4(n));
  }

  lemma FirstByte(n: Blocks, node: Node, v: byte)
    requires node.kind == VFS_FILE && node.data.None? && node == OneByte(node)
    ensures OneBlock(n, true, Starting(v)).Valid() && NodeOk(node, OneBlock(n, true, Starting(v)).used)
    ensures FileBytes(node, OneBlock(n, true, Starting(v))) == [v]
  {
    OneCount(n, ZERO_BLOCK, Starting(v));
    OneContent(OneBlock(n, true, Starting(v)).data);
  }

  // ---- loading that tree ----

  lemma LoadThreeRecords(st: Loading, r0: Record, r1: Record, r2: Record, st1: Loading, st2: Loading, st3: Loading)
    requires LoadingOk(st) && LoadRecord(st, r0) == Some(st1) && LoadRecord(st1, r1) == Some(st2)
    requires LoadRecord(st2, r2) == Some(st3)
    ensures LoadAll(st, [r0, r1, r2]) == Some(st3)
  {
    assert [r0][..0] == [] && [r0, r1][..1] == [r0] && [r0, r1, r2][..2] == [r0, r1];
    assert LoadAll(st, []) == Some(st);
    assert LoadAll(st, [r0]) == Some(st1);
    assert LoadAll(st, [r0, r1]) == Some(st2);
  }

  lemma SavedRecords(f: Forest, m0: F.Meta, m1: F.Meta, m2: F.Meta)
    requires f == F.Grove(m0, F.Grove(m1, F.Empty, F.Grove(m2, F.Empty, F.Empty)), F.Empty)
    ensures D.Listing(f, -1, 0) == [F.Record(-1, m0), F.Record(0, m1), F.Record(0, m2)]
  {
    var leaf, kids := F.Grove(m2, F.Empty, F.Empty), F.Grove(m1, F.Empty, F.Grove(m2, F.Empty, F.Empty));
    assert P.Size(leaf) == 1 && P.Size(kids) == 2 && P.Size(f) == 3;
    P.TakeAll(f, F.MAX_NODES);
    P.PreOne(leaf, 0, 2);
    P.PreOne(kids, 0, 1);
    P.PreOne(f, -1, 0);
  }

  lemma SavedTree(fs: Fs, m0: F.Meta, m1: F.Meta, m2: F.Meta)
    requires fs.nodes == N4() && fs.next == 3
    requires m0 == MetaOf(N4()[0]) && m1 == MetaOf(N4()[1]) && m2 == MetaOf(N4()[2])
    ensures S.Tree(fs) == F.Grove(m0, F.Grove(m1, F.Empty, F.Grove(m2, F.Empty, F.Empty)), F.Empty)
  {
    assert [1 as nat, 2][1..] == [2] && [2 as nat][1..] == [] && [0 as nat][1..] == [];
    assert S.ForestOf(fs, 0, [2]) == F.Grove(m2, F.Empty, F.Empty);
    assert S.ForestOf(fs, 0, [1, 2]) == F.Grove(m1, F.Empty, F.Grove(m2, F.Empty, F.Empty));
  }

  /** Boot rebuilds the nodes as they were, over any bitmap and blocks. */
  lemma Rebuilt(n: Blocks, loaded: Fs)
    requires loaded.nodes == N4() && loaded.next == 3 && loaded.store.Valid()
    ensures Runs.Good(S4(n)) && M.Rebooted(S4(n), loaded)
  {
    FirstWritten(n);
    TreeShaped(S4(n));
    var m0, m1, m2 := MetaOf(N4()[0]), MetaOf(N4()[1]), MetaOf(N4()[2]);
    SavedTree(S4(n), m0, m1, m2);
    SavedRecords(S.Tree(S4(n)), m0, m1, m2);
    Reload(m0, m1, m2);
  }

  lemma Reload(m0: F.Meta, m1: F.Meta, m2: F.Meta)
    requires m0 == MetaOf(N4()[0]) && m1 == MetaOf(N4()[1]) && m2 == MetaOf(N4()[2])
    ensures var o := LoadAll(R.Bare(), [F.Record(-1, m0), F.Record(0, m1), F.Record(0, m2)]);
      o.Some? && o.value.nodes == N4() && o.value.next == 3
  {
    var st := R.Bare();
    var n1, n2 := OneByte(NewFile([97])), NewFile([98]);
    var st1 := Loading(map[0 := Root([])], 1, [0]);
    var st2 := Loading(map[0 := Root([1]), 1 := n1], 2, [0, 1]);
    var st3 := Loading(map[0 := Root([1, 2]), 1 := n1, 2 := n2], 3, [0, 1, 2]);
    LoadsRoot(m0, st1);
    assert Root([]).(children := Root([]).children + [1]) == Root([1]) by { assert [] + [1 as nat] == [1]; }
    assert st2.nodes == st1.nodes[ROOT := Root([1])][1 := n1];
    LoadsBelow(st1, m1, n1, st2);
    assert Root([1]).(children := Root([1]).children + [2]) == Root([1, 2]) by { assert [1 as nat] + [2] == [1, 2]; }
    assert st3.nodes == st2.nodes[ROOT := Root([1, 2])][2 := n2];
    LoadsBelow(st2, m2, n2, st3);
    LoadThreeRecords(st, F.Record(-1, m0), F.Record(0, m1), F.Record(0, m2), st1, st2, st3);
    assert st3.nodes == N4();
  }

  lemma LoadsRoot(m: F.Meta, st: Loading)
    requires m == MetaOf(Root([1, 2])) && st == Loading(map[0 := Root([])], 1, [0])
    ensures LoadRecord(R.Bare(), F.Record(-1, m)) == Some(st)
  {
    var root := FreshNode(None, [47], VFS_DIRECTORY);
    assert root.(children := []) == root == Root([]);
    assert R.Bare() == Loading(map[ROOT := root], 1, []);
    assert Restore(root.(name := StoredName(m.name)), m) == root;
    assert map[ROOT := root][ROOT := root] == map[ROOT := root];
    assert [] + [ROOT] == [0];
  }

  /** A record below the root adds the node that was saved. */
  lemma LoadsBelow(st: Loading, m: F.Meta, n: Node, st': Loading)
    requires D.Indexed(st) && st.ids != [] && st.ids[0] == ROOT && |st.nodes[ROOT].children| < VFS_MAX_CHILDREN
    requires st.next != ROOT
    requires Restore(FreshNode(Some(ROOT), m.name, m.kind), m) == n
    requires st'.next == st.next + 1 && st'.ids == st.ids + [st.next]
    requires st'.nodes ==
      st.nodes[ROOT := st.nodes[ROOT].(children := st.nodes[ROOT].children + [st.next])][st.next := n]
    ensures LoadRecord(st, F.Record(0, m)) == Some(st')
  {
  }

  // ---- the whole system ----

  /** The number of blocks of a disk that boot accepts. */
  ghost function BlocksOf(total: u32): (n: Blocks)
    requires Plan(total).Some?
    ensures n == Runs.Geo(total).blocks
  {
    PlanFits(total);
    Plan(total).value.blocks
  }

  ghost function Unused(n: Blocks): seq<bool> { OneBlock(n, false, ZERO_BLOCK).used }

  /** Two files are created, and the byte 7 is written to the first. */
  function Starting4(): seq<Runs.Event> {
    [Runs.Operation(CreateOp(ROOT, [97], VFS_FILE)), Runs.Operation(CreateOp(ROOT, [98], VFS_FILE)),
     Runs.Operation(PromoteOp(1)), Runs.Operation(DiskWriteOp(1, 0, [7], true))]
  }

  lemma AllZero(n: Blocks)
    ensures S0(n).store == Store(seq(n, i => false), seq(n, i => ZERO_BLOCK)) && S0(n).store.used == Unused(n)
  {
  }

  lemma OtherBlocks(n: Blocks, used: bool, blk: Block, blk': Block)
    ensures OneBlock(n, used, blk').data == OneBlock(n, used, blk).data[0 := blk']
    ensures OneBlock(n, !used, blk').data == OneBlock(n, used, blk).data[0 := blk']
  {
  }

  lemma Start1(total: u32) returns (h: Runs.History)
    requires Plan(total).Some?
    ensures Ends(h, total, S1(BlocksOf(total), VFS_FILE), None, Unused(BlocksOf(total)))
    ensures h.events == Starting4()[..1]
  {
    var n := BlocksOf(total);
    FreshGood(n);
    AllZero(n);
    h := Blank(total, S0(n));
    FirstCreated(n, VFS_FILE);
    h := AddMeta(h, total, S0(n), None, Unused(n), CreateOp(ROOT, [97], VFS_FILE), S1(n, VFS_FILE));
  }

  lemma Start2(total: u32) returns (h: Runs.History)
    requires Plan(total).Some?
    ensures Ends(h, total, S2(BlocksOf(total)), None, Unused(BlocksOf(total))) && h.events == Starting4()[..2]
  {
    var n := BlocksOf(total);
    h := Start1(total);
    SecondCreated(n);
    h := AddMeta(h, total, S1(n, VFS_FILE), None, Unused(n), CreateOp(ROOT, [98], VFS_FILE), S2(n));
  }

  lemma Start3(total: u32) returns (h: Runs.History)
    requires Plan(total).Some?
    ensures Ends(h, total, S3(BlocksOf(total)), None, Unused(BlocksOf(total))) && h.events == Starting4()[..3]
  {
    var n := BlocksOf(total);
    h := Start2(total);
    FirstPromoted(n);
    h := AddMeta(h, total, S2(n), None, Unused(n), PromoteOp(1), S3(n));
  }

  lemma FourthStep(n: Blocks)
    ensures V.VStep(S3(n), DiskWriteOp(1, 0, [7], true), S4(n))
    ensures S3(n).store.data != [] && S4(n).store.data == S3(n).store.data[0 := Starting(7)]
  {
    FirstWritten(n);
    OtherBlocks(n, false, ZERO_BLOCK, Starting(7));
  }

  lemma Started(total: u32) returns (h: Runs.History)
    requires Plan(total).Some?
    ensures Ends(h, total, S4(BlocksOf(total)), None, Unused(BlocksOf(total))) && h.events == Starting4()
  {
    var n := BlocksOf(total);
    h := Start3(total);
    FourthStep(n);
    h := AddOp(h, total, S3(n), None, Unused(n), DiskWriteOp(1, 0, [7], true), S4(n), Starting(7));
  }

  lemma StartedHeld(n: Blocks)
    ensures Runs.Good(S4(n)) && Held(S4(n)) && S.HeapBound(S4(n).nodes) && AllSmall(S4(n))
  {
    FirstWritten(n);
    TreeShaped(S4(n));
  }

  /** And a sync after that. */
  lemma StartSynced(total: u32, flush: bool) returns (h: Runs.History, flushed: Option<seq<byte>>)
    requires Plan(total).Some?
    ensures var n := BlocksOf(total);
      && Ends(h, total, S4(n), Some(S4(n)), if flush then S4(n).store.used else Unused(n))
      && (flushed.Some? <==> flush) && h.events == Starting4() + [Runs.Sync(flushed)] && h.run[4].fs == S4(n)
  {
    var n := BlocksOf(total);
    h := Started(total);
    StartedHeld(n);
    h, flushed := AddSync(h, total, S4(n), None, Unused(n), flush);
  }

  function Booting(loaded: Fs): Runs.Event {
    Runs.Boot(loaded, true, Devfs(false, 0), x => true)
  }

  /** Boot from the saved tree over the bitmap and the blocks on the disk; there is no /dev. */
  lemma Booted(h: Runs.History, total: u32, fs: Fs, bits: seq<bool>, loaded: Fs) returns (h': Runs.History)
    requires Plan(total).Some? && Ends(h, total, fs, Some(S4(BlocksOf(total))), bits)
    requires loaded.nodes == N4() && loaded.next == 3 && loaded.store == Store(bits, fs.store.data)
    requires |bits| == |fs.store.data| == BlocksOf(total)
    ensures Ends(h', total, loaded, Some(S4(BlocksOf(total))), bits)
    ensures h'.events == h.events + [Booting(loaded)] && h.run <= h'.run
  {
    Rebuilt(BlocksOf(total), loaded);
    NoDev(loaded.nodes);
    h' := AddBoot(h, total, fs, S4(BlocksOf(total)), bits, loaded, Devfs(false, 0), x => true);
  }

  /** It is safe if and only if the bitmap is the one of the sync. */
  lemma SafeBoot(s: Runs.Sys, n: Blocks, loaded: Fs)
    requires s.saved == Some(S4(n)) && loaded.nodes == N4() && loaded.next == 3 && |loaded.store.used| == n
    ensures Runs.Safe(s, Booting(loaded)) <==> loaded.store.used == S4(n).store.used
  {
    StartedHeld(n);
    OneCount(n, Starting(7), Starting(7));
    SafeOver(s, S4(n), loaded);
  }

  lemma SafeOver(s: Runs.Sys, saved: Fs, loaded: Fs)
    requires s.saved == Some(saved) && Runs.Good(saved) && saved.nodes == N4() && loaded.nodes == N4()
    requires |loaded.store.used| == |saved.store.used|
    ensures Runs.Safe(s, Booting(loaded)) <==> loaded.store.used == saved.store.used
  {
    NoDev(loaded.nodes);
    ExactBits(saved, loaded);
    SafeBooting(s, saved, loaded);
  }

  lemma SafeBooting(s: Runs.Sys, saved: Fs, loaded: Fs)
    requires s.saved == Some(saved) && ROOT in loaded.nodes && FindDir(loaded.nodes, ROOT, DEV).None?
    ensures Runs.Safe(s, Booting(loaded)) <==> M.Exact(saved, loaded)
  {
  }

  lemma ExactBits(a: Fs, loaded: Fs)
    requires Runs.Good(a) && a.nodes == N4() && |loaded.store.used| == |a.store.used|
    ensures M.Exact(a, loaded) <==> loaded.store.used == a.store.used
  {
    TreeShaped(a);
    S.TreeSize(a);
    assert |N4()| == 3;
    M.ExactWithinLimit(a, loaded);
  }

  lemma NoDev(nodes: map<nat, Node>)
    requires nodes == N4()
    ensures FindDir(nodes, ROOT, DEV).None?
  {
    assert [1 as nat, 2][1..] == [2] && [2 as nat][1..] == [];
    assert Find(nodes, [2], DEV).None?;
  }

  // ---- the sync without a flush ----

  ghost function S5(n: Blocks): Fs { Fs(N4(), 3, OneBlock(n, false, Starting(7))) }
  ghost function S6(n: Blocks): Fs { S5(n).(nodes := N4()[2 := NewFile([98]).(diskBacked := true)]) }
  ghost function S7(n: Blocks): Fs {
    Fs(map[0 := Root([1, 2]), 1 := OneByte(NewFile([97])), 2 := OneByte(NewFile([98]))],
       3, OneBlock(n, true, Starting(9)))
  }

  lemma SecondWritten(n: Blocks)
    ensures SecondByte(S5(n), S6(n), S7(n))
  {
    FirstWrite(n, S6(n), 2, 9, Starting(7));
    OtherBlocks(n, false, Starting(7), Starting(9));
    assert S7(n).nodes == S6(n).nodes[2 := OneByte(S6(n).nodes[2])];
  }

  /** The byte 9 is the first to be written to the second file, and goes to the first block. */
  ghost predicate SecondByte(fs: Fs, mid: Fs, fs': Fs) {
    && V.VStep(fs, PromoteOp(2), mid) && V.VStep(mid, DiskWriteOp(2, 0, [9], true), fs')
    && fs.store.data != [] && mid.store.data == fs.store.data && fs'.store.data == fs.store.data[0 := Starting(9)]
  }

  lemma AddSecond(h: Runs.History, total: u32, fs: Fs, saved: Option<Fs>, used: seq<bool>, mid: Fs, fs': Fs)
    returns (h': Runs.History)
    requires Ends(h, total, fs, saved, used) && SecondByte(fs, mid, fs')
    ensures Ends(h', total, fs', saved, used) && h.run <= h'.run
    ensures h'.events == h.events + [Runs.Operation(PromoteOp(2))] + [Runs.Operation(DiskWriteOp(2, 0, [9], true))]
  {
    h' := AddWrite(h, total, fs, saved, used, mid, fs', 2, [9], Starting(9));
  }

  lemma BootUnflushed(total: u32) returns (h: Runs.History)
    requires Plan(total).Some?
    ensures var n := BlocksOf(total);
      && Ends(h, total, S5(n), Some(S4(n)), Unused(n))
      && h.events == Starting4() + [Runs.Sync(None), Booting(S5(n))] && h.run[4].fs == S4(n)
      && !Runs.Safe(h.run[5], Booting(S5(n)))
  {
    var n := BlocksOf(total);
    var flushed;
    h, flushed := StartSynced(total, false);
    Unflushed(n);
    SafeBoot(Runs.Last(h), n, S5(n));
    h := Booted(h, total, S4(n), Unused(n), S5(n));
  }

  /** A run whose only unsafe step is the boot after a sync without a flush: at its end two files list the
      same block, and the first file, which held 7 at the sync, reads 9. */
  lemma LostFlush(total: u32) returns (h: Runs.History)
    requires Plan(total).Some?
    ensures var n := BlocksOf(total);
      && Runs.IsTale(h) && Runs.Last(h).fs == S7(n)
      && h.events == Starting4() + [Runs.Sync(None), Booting(S5(n))]
                     + [Runs.Operation(PromoteOp(2))] + [Runs.Operation(DiskWriteOp(2, 0, [9], true))]
      && h.run[4].fs == S4(n) && !Runs.Safe(h.run[5], Booting(S5(n)))
    ensures OneForTwo(S4(BlocksOf(total)), S7(BlocksOf(total)))
  {
    var n := BlocksOf(total);
    h := BootUnflushed(total);
    assert SecondByte(S5(n), S6(n), S7(n)) by { SecondWritten(n); }
    h := AddSecond(h, total, S5(n), Some(S4(n)), Unused(n), S6(n), S7(n));
    LostReads(n);
  }

  /** Two files on one block, of which the first held 7 and reads 9. */
  ghost predicate OneForTwo(fs: Fs, fs': Fs) {
    && Reads(fs, 1, [7]) && Reads(fs', 1, [9])
    && 2 in fs'.nodes && 0 in BlockList(fs'.nodes[1]) && 0 in BlockList(fs'.nodes[2])
  }

  lemma LostReads(n: Blocks)
    ensures OneForTwo(S4(n), S7(n))
  {
    FirstByte(n, S4(n).nodes[1], 7);
    FirstByte(n, S7(n).nodes[1], 9);
  }

  /** What a user reads in file `id`. */
  ghost predicate Reads(fs: Fs, id: nat, bytes: seq<byte>) {
    && fs.store.Valid() && id in fs.nodes && fs.nodes[id].kind == VFS_FILE && NodeOk(fs.nodes[id], fs.store.used)
    && FileBytes(fs.nodes[id], fs.store) == bytes
  }

  lemma Unflushed(n: Blocks)
    ensures S5(n).store.Valid() && S5(n).store == Store(Unused(n), S4(n).store.data) && Unused(n) != S4(n).store.used
  {
    OneCount(n, Starting(7), Starting(7));
    assert S5(n).store.used == Unused(n);
  }

  // ---- a crash after the block has changed hands ----

  ghost function R1(n: Blocks): Fs {
    Fs(map[0 := Root([2]), 2 := NewFile([98])], 3, OneBlock(n, false, Starting(7)))
  }
  ghost function R2(n: Blocks): Fs { R1(n).(nodes := R1(n).nodes[2 := NewFile([98]).(diskBacked := true)]) }
  ghost function R3(n: Blocks): Fs {
    Fs(map[0 := Root([2]), 2 := OneByte(NewFile([98]))], 3, OneBlock(n, true, Starting(9)))
  }
  ghost function R4(n: Blocks): Fs { Fs(N4(), 3, OneBlock(n, true, Starting(9))) }

  lemma FirstRemoved(n: Blocks)
    ensures V.VStep(S4(n), RemoveOp(1, 0), R1(n))
  {
    var a, b := S4(n), R1(n);
    OneCount(n, Starting(7), Starting(7));
    assert Without([1, 2], 0) == [2] by { assert [1 as nat, 2][1..] == [2]; }
    assert Root([1, 2]).(children := [2]) == Root([2]);
    assert b.nodes == a.nodes[0 := Root([2])] - {1};
    assert Released(a.store, b.store, [0]);
  }

  lemma BlockReused(n: Blocks)
    ensures SecondByte(R1(n), R2(n), R3(n))
  {
    FirstWrite(n, R2(n), 2, 9, Starting(7));
    OtherBlocks(n, false, Starting(7), Starting(9));
    assert R3(n).nodes == R2(n).nodes[2 := OneByte(R2(n).nodes[2])];
  }

  lemma FileGone(total: u32) returns (h: Runs.History, flushed: Option<seq<byte>>)
    requires Plan(total).Some?
    ensures var n := BlocksOf(total);
      && Ends(h, total, R1(n), Some(S4(n)), S4(n).store.used) && flushed.Some?
      && h.events == Starting4() + [Runs.Sync(flushed)] + [Runs.Operation(RemoveOp(1, 0))] && h.run[4].fs == S4(n)
  {
    var n := BlocksOf(total);
    h, flushed := StartSynced(total, true);
    FirstRemoved(n);
    h := AddMeta(h, total, S4(n), Some(S4(n)), S4(n).store.used, RemoveOp(1, 0), R1(n));
  }

  lemma BlockMoves(total: u32) returns (h: Runs.History, flushed: Option<seq<byte>>)
    requires Plan(total).Some?
    ensures var n := BlocksOf(total);
      && Ends(h, total, R3(n), Some(S4(n)), S4(n).store.used) && flushed.Some?
      && h.events == Starting4() + [Runs.Sync(flushed)] + [Runs.Operation(RemoveOp(1, 0))]
                     + [Runs.Operation(PromoteOp(2))] + [Runs.Operation(DiskWriteOp(2, 0, [9], true))]
      && h.run[4].fs == S4(n)
  {
    var n := BlocksOf(total);
    h, flushed := FileGone(total);
    assert SecondByte(R1(n), R2(n), R3(n)) by { BlockReused(n); }
    h := AddSecond(h, total, R1(n), Some(S4(n)), S4(n).store.used, R2(n), R3(n));
  }

  /** A run with a flushed sync and no unsafe step: the first file, which held 7 at the sync, is removed,
      its block goes to the second one, and after a crash the first file is back and reads 9. */
  lemma CrashMixes(total: u32) returns (h: Runs.History, flushed: Option<seq<byte>>)
    requires Plan(total).Some?
    ensures var n := BlocksOf(total);
      && Runs.IsTale(h) && Runs.Last(h).fs == R4(n) && flushed.Some?
      && h.events == Starting4() + [Runs.Sync(flushed)] + [Runs.Operation(RemoveOp(1, 0))]
                     + [Runs.Operation(PromoteOp(2))] + [Runs.Operation(DiskWriteOp(2, 0, [9], true))]
                     + [Booting(R4(n))]
      && h.run[4].fs == S4(n) && Runs.Safe(h.run[8], Booting(R4(n)))
    ensures Reads(S4(BlocksOf(total)), 1, [7]) && Reads(R4(BlocksOf(total)), 1, [9])
  {
    var n := BlocksOf(total);
    h, flushed := BlockMoves(total);
    SameBits(n);
    SafeBoot(Runs.Last(h), n, R4(n));
    h := Booted(h, total, R3(n), S4(n).store.used, R4(n));
    MixedReads(n);
  }

  lemma MixedReads(n: Blocks)
    ensures Reads(S4(n), 1, [7]) && Reads(R4(n), 1, [9])
  {
    FirstByte(n, S4(n).nodes[1], 7);
    FirstByte(n, R4(n).nodes[1], 9);
  }

  lemma SameBits(n: Blocks)
    ensures R4(n).store == Store(S4(n).store.used, R3(n).store.data) && |S4(n).store.used| == n
  {
    OneCount(n, Starting(7), Starting(9));
  }

  // ---- bytes that come back after a truncation ----

  ghost function Cut(n: Blocks): Fs { S4(n).(nodes := N4()[1 := N4()[1].(size := 0)]) }
  ghost function After(n: Blocks): Fs {
    Fs(N4()[1 := N4()[1].(size := 2)], 3, OneBlock(n, true, Splice(Starting(7), 1, [9])))
  }

  /** The first file is truncated and gets the byte 9 at offset 1: it then reads 7, 9, and not 0, 9. */
  lemma StaleByte(total: u32) returns (h: Runs.History)
    requires Plan(total).Some?
    ensures var n := BlocksOf(total);
      && Runs.IsTale(h) && Runs.Last(h).fs == After(n) && Reads(After(n), 1, [7, 9])
      && h.events == Starting4() + [Runs.Operation(TruncateOp(1))]
                     + [Runs.Operation(DiskWriteOp(1, 1, [9], true))]
  {
    var n := BlocksOf(total);
    var used := Unused(n);
    h := Started(total);
    StartedHeld(n);
    StaleSteps(n);
    OtherBlocks(n, true, Starting(7), Splice(Starting(7), 1, [9]));
    h := AddTwo(h, total, S4(n), used, TruncateOp(1), Cut(n), DiskWriteOp(1, 1, [9], true), After(n),
                Splice(Starting(7), 1, [9]));
  }

  lemma AddTwo(h: Runs.History, total: u32, fs: Fs, used: seq<bool>, op: Op, mid: Fs, op': Op, fs': Fs, blk: Block)
    returns (h': Runs.History)
    requires Ends(h, total, fs, None, used) && V.VStep(fs, op, mid) && V.VStep(mid, op', fs')
    requires fs.store.data != [] && mid.store.data == fs.store.data && fs'.store.data == fs.store.data[0 := blk]
    ensures Ends(h', total, fs', None, used)
    ensures h'.events == h.events + [Runs.Operation(op)] + [Runs.Operation(op')]
  {
    h' := AddMeta(h, total, fs, None, used, op, mid);
    h' := AddOp(h', total, mid, None, used, op', fs', blk);
  }

  lemma StaleSteps(n: Blocks)
    requires OwnershipInv(S4(n))
    ensures V.VStep(S4(n), TruncateOp(1), Cut(n)) && V.VStep(Cut(n), DiskWriteOp(1, 1, [9], true), After(n))
    ensures Reads(After(n), 1, [7, 9])
  {
    StaleRead(n, S4(n), Cut(n), After(n));
  }

  lemma StaleRead(n: Blocks, fs: Fs, cut: Fs, after: Fs)
    requires fs == S4(n) && cut == Cut(n) && after == After(n) && OwnershipInv(fs)
    ensures Truncate(fs, cut, 1) && DiskWrite(cut, after, 1, 1, [9], true)
    ensures fs.nodes[1].kind == VFS_FILE && after.store.Valid() && NodeOk(after.nodes[1], after.store.used)
    ensures FileBytes(after.nodes[1], after.store) == [7, 9]
  {
    StaleWrite(n, cut, after, Splice(Starting(7), 1, [9]));
    FirstByte(n, fs.nodes[1], 7);
    TruncatedBytesReturn(fs, cut, after, 1, 1, [9]);
    assert [7 as byte][..1] + [9] == [7, 9];
  }

  lemma StaleWrite(n: Blocks, cut: Fs, after: Fs, blk: Block)
    requires cut == Cut(n) && after == After(n) && blk == Splice(Starting(7), 1, [9])
    ensures DiskWrite(cut, after, 1, 1, [9], true)
  {
    OneCount(n, Starting(7), Starting(7));
    OneCount(n, blk, blk);
    OneContent(cut.store.data);
    OneContent(after.store.data);
    assert Starting(7) + Zeros(0) == Starting(7) && [0 as u32][1..] == [];
    assert Taken(cut.store.used, [0], after.store.used, [0]);
    assert BlocksWritten(cut.store, [0], after.store, [0], 1, [9], true);
    assert after.nodes == cut.nodes[1 := after.nodes[1]];
  }

  // ---- a directory with a block ----

  ghost function D2(n: Blocks): Fs {
    S1(n, VFS_DIRECTORY).(nodes := N1(VFS_DIRECTORY)[1 := NewNode([97], VFS_DIRECTORY).(diskBacked := true)])
  }
  ghost function D3(n: Blocks): Fs {
    Fs(map[0 := Root([1]), 1 := OneByte(NewNode([97], VFS_DIRECTORY))], 2, OneBlock(n, true, Starting(7)))
  }

  lemma DirectoryPromoted(n: Blocks)
    ensures V.VStep(S1(n, VFS_DIRECTORY), PromoteOp(1), D2(n)) && Runs.Good(D2(n))
  {
    FirstCreated(n, VFS_DIRECTORY);
    VGood(S1(n, VFS_DIRECTORY), PromoteOp(1), D2(n));
  }

  lemma DirectoryStored(n: Blocks)
    ensures V.VStep(D2(n), DiskWriteOp(1, 0, [7], true), D3(n)) && Runs.Good(D3(n))
  {
    DirectoryPromoted(n);
    FirstWrite(n, D2(n), 1, 7, ZERO_BLOCK);
    assert D3(n).nodes == D2(n).nodes[1 := OneByte(D2(n).nodes[1])];
    VGood(D2(n), DiskWriteOp(1, 0, [7], true), D3(n));
  }

  /** A new directory gets one byte: the image then has another length than `measure_node` predicts. */
  lemma DirectoryWritten(n: Blocks)
    ensures Fresh(S0(n)) && V.VStep(S0(n), CreateOp(ROOT, [97], VFS_DIRECTORY), S1(n, VFS_DIRECTORY))
    ensures V.VStep(S1(n, VFS_DIRECTORY), PromoteOp(1), D2(n)) && V.VStep(D2(n), DiskWriteOp(1, 0, [7], true), D3(n))
    ensures TreeInv(D3(n)) && F.RecordsOk(D.Listing(S.Tree(D3(n)), -1, 0))
    ensures |F.EncodeAll(D.Listing(S.Tree(D3(n)), -1, 0))| != P.Measure(S.Tree(D3(n)))
  {
    FreshGood(n);
    FirstCreated(n, VFS_DIRECTORY);
    DirectoryPromoted(n);
    DirectoryStored(n);
    TreeShaped(D3(n));
    S.TreeSize(D3(n));
    assert |D3(n).nodes| == 2;
    S.MeasureIff(D3(n));
    assert D3(n).nodes[1].blocks.Some?;
  }
}
