/** Where the FAT16 driver does not keep a promise one would expect: bytes of a deleted file. */
module WitnessFat {
  import opened Bytes
  import opened FatTable
  import opened FatVolume
  import opened FatFile
  import opened FatDir

  /** Two states with the same files have the same free clusters. */
  lemma SameFree(a: Files, b: Files, c: u16)
    requires ForestInv(a) && ForestInv(b) && a.chains == b.chains && InTable(a.fat, c) && InTable(b.fat, c)
    ensures a.fat[c] == 0 <==> b.fat[c] == 0
  {
    if a.fat[c] != 0 { HeldTaken(a, b, c); }
    if b.fat[c] != 0 { HeldTaken(b, a, c); }
  }

  lemma HeldTaken(a: Files, b: Files, c: u16)
    requires ForestInv(a) && ForestInv(b) && a.chains == b.chains && InTable(a.fat, c) && a.fat[c] != 0
    requires InTable(b.fat, c)
    ensures b.fat[c] != 0
  {
    assert Held(a.chains, c);
    var id :| id in b.chains && c in b.chains[id];
    assert ChainOk(b.fat, b.chains[id]);
    NonZeroOnChain(b.fat, b.chains[id]);
  }

  /** A slot and a cluster are free. */
  ghost predicate Room(root: Text, fat: Fat) {
    !TakenBelow(root, Slots(root)) && exists c: nat :: InTable(fat, c) && fat[c] == 0
  }

  /** Creates a file and opens it. */
  method CreateOpen(d: RootDir, name: Text, attr: byte) returns (made: bool, n: FatNode, ghost k: nat)
    requires d.Valid() && 0 !in name
    modifies d.fs.v.disk, d.fs.v`vol, d.fs`files, d`owner
    ensures d.Valid() && d.fs.v.vol.data == old(d.fs.v.vol).data && fresh(n)
    ensures made <==> Room(old(d.fs.v.vol.root), old(d.fs.files).fat)
    ensures !made ==> d.fs.v.vol == old(d.fs.v.vol) && d.fs.files == old(d.fs.files) && d.owner == old(d.owner)
    ensures made ==> Lowest(old(d.fs.files).fat, n.start) && d.fs.Open(n) && n.size == 0
    ensures made ==> n.id == old(d.fs.files).next && d.fs.files.chains[n.id] == [n.start]
    ensures made ==> Created(old(d.fs.v.vol.root), old(d.fs.files), old(d.owner), name, attr, n.start, k,
                             d.fs.v.vol.root, d.fs.files, d.owner)
  {
    ghost var f0 := d.fs.files;
    var c;
    c, k := d.CreateRootEntry(name, attr);
    made := c != 0;
    n := new FatNode(0, c, f0.next);
    if made {
      assert d.fs.files.chains[n.id] == [c];
    }
  }

  /** A write of at most one cluster into a file that has just been created. */
  method FillFirst(d: RootDir, n: FatNode, off: u32, buf: seq<byte>)
    requires d.Valid() && d.fs.Open(n) && n.size == 0 && |d.fs.files.chains[n.id]| == 1
    requires off + |buf| <= ClusterSize(d.fs.v.g) && off + |buf| < U32_LIMIT
    modifies d.fs.v.disk, d.fs.v`vol, d.fs`files, n
    ensures d.Valid() && d.fs.Open(n) && d.owner == old(d.owner) && d.fs.v.vol.root == old(d.fs.v.vol.root)
    ensures Extended(old(d.fs.files), d.fs.files, n.id) && n.start == old(n.start)
    ensures n.size == if buf == [] then 0 else off + |buf|
    ensures old(n.start) < |old(d.fs.v.vol).data| && |old(d.fs.v.vol).data[n.start]| == ClusterSize(d.fs.v.g)
    ensures n.start < |d.fs.v.vol.data|
    ensures d.fs.v.vol.data[n.start] == Splice(old(d.fs.v.vol).data[n.start], off, buf)
  {
    ghost var c, cs, ch0, d0 := n.start, ClusterSize(d.fs.v.g), d.fs.files.chains[n.id], d.fs.v.vol.data;
    assert ch0 == [c] && c >= 2 by { OnChain(d.fs.files, n.id, 0); }
    var w := d.WriteFile(n, off, buf, true);
    ghost var ch, d1 := d.fs.files.chains[n.id], d.fs.v.vol.data;
    assert ch[0] == ch0[0] == c;
    assert w == |buf| by { OneCluster(cs, |ch|); }
    FirstSpliced(d0, d1, ch, cs, off, buf);
  }

  lemma OneCluster(cs: nat, k: nat)
    requires k > 0
    ensures cs <= Base(cs, k)
  {
    BaseIsProduct(cs, k);
    assert cs * 1 <= cs * k;
  }

  lemma FirstSpliced(d0: Data, d1: Data, ch: seq<u16>, cs: nat, off: nat, buf: seq<byte>)
    requires Stored(d0, d1, ch, cs, off, buf, |buf|) && ch != [] && off + |buf| <= cs
    ensures d1[ch[0]] == Splice(d0[ch[0]], off, buf)
  {
    CatAt(d0, ch, cs, 0);
    CatAt(d1, ch, cs, 0);
    var c0, c1 := Cat(d0, ch), Cat(d1, ch);
    assert buf[..|buf|] == buf;
    if buf == [] {
      assert Splice(d0[ch[0]], off, buf) == d0[ch[0]];
    } else {
      assert c1[..cs] == Splice(c0[..cs], off, buf);
    }
  }

  /** Writing to a new file and dropping it gives every cluster back. */
  lemma GivenBack(f0: Files, c: u16, f1: Files, f2: Files)
    requires ForestInv(f0) && ForestInv(f1) && ForestInv(f2) && Lowest(f0.fat, c)
    requires Extended(Grown(Added(f0), f0.next, c), f1, f0.next)
    requires ChainOk(f1.fat, f1.chains[f0.next]) && f2 == Dropped(f1, f0.next)
    ensures f2.chains == f0.chains && |f2.fat| == |f0.fat| && Lowest(f2.fat, c)
  {
    assert f0.next !in f0.chains;
    assert f2.chains == f0.chains;
    forall k: nat | 2 <= k <= c ensures f2.fat[k] == 0 <==> f0.fat[k] == 0 {
      SameFree(f0, f2, k);
    }
  }

  lemma MarkedRoom(root: Text, k: nat, fat: Fat, c: u16)
    requires k < Slots(root) && InTable(fat, c) && fat[c] == 0
    ensures Room(Splice(root, ENTRY * k, [DELETED]), fat)
  {
    MarkStored(root, k);
  }

  /** A new file, written and deleted: the directory has its free slot and its free cluster back, and
      the cluster keeps the bytes. */
  method WriteAndDelete(d: RootDir, name: Text, attr: byte, was: seq<byte>) returns (made: bool, ghost c: u16)
    requires d.Valid() && 0 !in name && Name83(name)[0] != DELETED
    requires forall j: nat :: j < Slots(d.fs.v.vol.root) ==> NameAt(d.fs.v.vol.root, j) != Name83(name)
    requires |was| <= ClusterSize(d.fs.v.g) && |was| < U32_LIMIT
    modifies d.fs.v.disk, d.fs.v`vol, d.fs`files, d`owner
    ensures d.Valid() && (made <==> Room(old(d.fs.v.vol.root), old(d.fs.files).fat))
    ensures made ==> Kept(d, was, c)
    ensures d.fs.files.chains == old(d.fs.files).chains
  {
    ghost var root0, f0 := d.fs.v.vol.root, d.fs.files;
    var n; ghost var k;
    made, n, k := CreateOpen(d, name, attr);
    c := n.start;
    if made {
      NewEntryFound(root0, k, name, attr, c);
      FillFirst(d, n, 0, was);
      ghost var root1, f1 := d.fs.v.vol.root, d.fs.files;
      var ok; ghost var j;
      ok, j := d.DeleteRootEntry(name);
      FoundUnique(root1, Name83(name), j, k);
      GivenBack(f0, c, f1, d.fs.files);
      MarkedRoom(root1, k, d.fs.files.fat, c);
    }
  }

  /** A slot is free, cluster `c` is the lowest free one, and it starts with `was`. */
  ghost predicate Kept(d: RootDir, was: seq<byte>, c: u16)
    reads d, d.fs, d.fs.v
  {
    && Room(d.fs.v.vol.root, d.fs.files.fat) && Lowest(d.fs.files.fat, c)
    && c < |d.fs.v.vol.data| && was <= d.fs.v.vol.data[c]
  }

  /** A new file, written only from `|was|` on, shows what its cluster held before. */
  method WriteBehind(d: RootDir, name: Text, attr: byte, was: seq<byte>, buf: seq<byte>, ghost c: u16)
    returns (back: seq<byte>)
    requires d.Valid() && 0 !in name && Kept(d, was, c)
    requires buf != [] && |was| + |buf| <= ClusterSize(d.fs.v.g) && |was| + |buf| < U32_LIMIT
    modifies d.fs.v.disk, d.fs.v`vol, d.fs`files, d`owner
    ensures d.Valid() && back == was + buf
  {
    ghost var held := d.fs.v.vol.data[c];
    assert held[..|was|] == was;
    var made, n; ghost var k;
    made, n, k := CreateOpen(d, name, attr);
    assert n.start == c;
    back := FillAndRead(d, n, |was|, buf);
  }

  method FillAndRead(d: RootDir, n: FatNode, off: u32, buf: seq<byte>) returns (back: seq<byte>)
    requires d.Valid() && d.fs.Open(n) && n.size == 0 && |d.fs.files.chains[n.id]| == 1 && buf != []
    requires off + |buf| <= ClusterSize(d.fs.v.g) && off + |buf| < U32_LIMIT
    modifies d.fs.v.disk, d.fs.v`vol, d.fs`files, n
    ensures d.Valid() && n.start == old(n.start) < |old(d.fs.v.vol).data|
    ensures off <= |old(d.fs.v.vol).data[n.start]| && back == old(d.fs.v.vol).data[n.start][..off] + buf
  {
    FillFirst(d, n, off, buf);
    back := ReadShort(d, n);
  }

  method ReadShort(d: RootDir, n: FatNode) returns (back: seq<byte>)
    requires d.Valid() && d.fs.Open(n) && n.size <= ClusterSize(d.fs.v.g) && d.fs.files.chains[n.id] != []
    ensures n.start < |d.fs.v.vol.data| && n.size <= |d.fs.v.vol.data[n.start]|
    ensures back == d.fs.v.vol.data[n.start][..n.size]
  {
    Shown(d, n, n.size);
    back := d.fs.NodeRead(n, 0, n.size);
  }

  /** On a volume with room, a file is created, filled with `was` and deleted; the next one, of which only
      the bytes from `|was|` on are written, shows `was` in front of them. */
  method DeletedBytesReturn(d: RootDir, first: Text, second: Text, attr: byte, was: seq<byte>, buf: seq<byte>)
    returns (made: bool, back: seq<byte>)
    requires d.Valid() && 0 !in first && 0 !in second && Name83(first)[0] != DELETED
    requires forall j: nat :: j < Slots(d.fs.v.vol.root) ==> NameAt(d.fs.v.vol.root, j) != Name83(first)
    requires buf != [] && |was| + |buf| <= ClusterSize(d.fs.v.g) && |was| + |buf| < U32_LIMIT
    modifies d.fs.v.disk, d.fs.v`vol, d.fs`files, d`owner
    ensures d.Valid() && (made <==> Room(old(d.fs.v.vol.root), old(d.fs.files).fat))
    ensures back == if made then was + buf else []
  {
    back := [];
    ghost var c;
    made, c := WriteAndDelete(d, first, attr, was);
    if made {
      back := WriteBehind(d, second, attr, was, buf, c);
    }
  }

  /** A file of at most one cluster shows the start of that cluster. */
  lemma Shown(d: RootDir, n: FatNode, m: nat)
    requires d.Valid() && d.fs.Open(n) && n.size == m <= ClusterSize(d.fs.v.g) && d.fs.files.chains[n.id] != []
    ensures n.start < |d.fs.v.vol.data| && m <= |d.fs.v.vol.data[n.start]|
    ensures d.fs.FileBytes(n) == d.fs.v.vol.data[n.start][..m]
  {
    var ch, whole, cs := d.fs.files.chains[n.id], d.fs.Whole(n), ClusterSize(d.fs.v.g);
    CatAt(d.fs.v.vol.data, ch, cs, 0);
    assert whole[0..cs][..m] == whole[..m];
  }
}
