/** Files on a FAT16 volume (fs/fat16.c): reading and writing through a chain of clusters. */
module FatFile {
  import opened Bytes
  import opened FatTable
  import opened FatVolume

  // ---- the bytes of a chain ----

  type Data = seq<seq<byte>>

  /** Clusters hold `cs` bytes each. */
  ghost predicate Uniform(data: Data, ch: seq<u16>, cs: nat) {
    forall i :: 0 <= i < |ch| ==> ch[i] < |data| && |data[ch[i]]| == cs
  }

  /** The capacity of a chain as one flat array. */
  ghost function Cat(data: Data, ch: seq<u16>): (r: seq<byte>)
    requires forall i :: 0 <= i < |ch| ==> ch[i] < |data|
  {
    if ch == [] then [] else Cat(data, ch[..|ch| - 1]) + data[ch[|ch| - 1]]
  }

  lemma BaseOrder(cs: nat, i: nat, j: nat)
    requires Base(cs, i) < Base(cs, j)
    ensures i < j
  {
    BaseIsProduct(cs, i);
    BaseIsProduct(cs, j);
    assert j <= i ==> cs * j <= cs * i;
  }

  /** An offset is a cluster number and a position in the cluster. */
  lemma BaseDivMod(cs: nat, off: nat)
    requires cs > 0
    ensures off == Base(cs, off / cs) + off % cs && off % cs < cs
  {
    BaseIsProduct(cs, off / cs);
    assert off == cs * (off / cs) + off % cs;
  }

  lemma {:induction false} CatLength(data: Data, ch: seq<u16>, cs: nat)
    requires Uniform(data, ch, cs)
    ensures |Cat(data, ch)| == Base(cs, |ch|)
  {
    if ch != [] {
      var n := |ch| - 1;
      CatLength(data, ch[..n], cs);
    }
  }

  lemma {:induction false} CatFrame(data: Data, data': Data, ch: seq<u16>)
    requires forall i :: 0 <= i < |ch| ==> ch[i] < |data| && ch[i] < |data'|
    requires forall i :: 0 <= i < |ch| ==> data'[ch[i]] == data[ch[i]]
    ensures Cat(data', ch) == Cat(data, ch)
  {
    if ch != [] {
      CatFrame(data, data', ch[..|ch| - 1]);
    }
  }

  lemma CatAppend(data: Data, ch: seq<u16>, c: u16)
    requires c < |data| && forall i :: 0 <= i < |ch| ==> ch[i] < |data|
    ensures Cat(data, ch + [c]) == Cat(data, ch) + data[c]
  {
    assert (ch + [c])[..|ch|] == ch;
  }

  lemma {:induction false} CatPrefix(data: Data, ch: seq<u16>, k: nat)
    requires k <= |ch| && forall i :: 0 <= i < |ch| ==> ch[i] < |data|
    ensures Cat(data, ch[..k]) <= Cat(data, ch)
  {
    if k == |ch| {
      assert ch[..k] == ch;
    } else {
      assert ch[..|ch| - 1][..k] == ch[..k];
      CatPrefix(data, ch[..|ch| - 1], k);
    }
  }

  /** The bytes of cluster number `k`. */
  lemma CatAt(data: Data, ch: seq<u16>, cs: nat, k: nat)
    requires Uniform(data, ch, cs) && k < |ch|
    ensures Base(cs, k) + cs <= |Cat(data, ch)| && Cat(data, ch)[Base(cs, k)..Base(cs, k) + cs] == data[ch[k]]
  {
    var a, b := ch[..k], ch[..k + 1];
    CatLength(data, a, cs);
    CatLength(data, b, cs);
    CatPrefix(data, ch, k + 1);
    assert b[..k] == a;
    var c := Cat(data, b);
    assert c[Base(cs, k)..] == data[ch[k]];
    assert Cat(data, ch)[..|c|] == c;
  }

  lemma SpliceLeft<T>(a: seq<T>, b: seq<T>, off: nat, src: seq<T>)
    requires off + |src| <= |a|
    ensures Splice(a + b, off, src) == Splice(a, off, src) + b
  {
  }

  lemma SpliceRight<T>(a: seq<T>, b: seq<T>, off: nat, src: seq<T>)
    requires off + |src| <= |b|
    ensures Splice(a + b, |a| + off, src) == a + Splice(b, off, src)
  {
  }

  /** Rewriting part of cluster `k` rewrites that part of the file. */
  lemma {:induction false} CatPut(data: Data, ch: seq<u16>, cs: nat, k: nat, pos: nat, src: seq<byte>)
    requires Uniform(data, ch, cs) && Distinct(ch) && k < |ch| && pos + |src| <= cs
    ensures Base(cs, k) + pos + |src| <= |Cat(data, ch)|
    ensures Cat(data[ch[k] := Splice(data[ch[k]], pos, src)], ch) == Splice(Cat(data, ch), Base(cs, k) + pos, src)
  {
    var n := |ch| - 1;
    var data' := data[ch[k] := Splice(data[ch[k]], pos, src)];
    var a := Cat(data, ch[..n]);
    CatLength(data, ch[..n], cs);
    if k == n {
      CatFrame(data, data', ch[..n]);
      SpliceRight(a, data[ch[n]], pos, src);
    } else {
      CatPut(data, ch[..n], cs, k, pos, src);
      SpliceLeft(a, data[ch[n]], Base(cs, k) + pos, src);
    }
  }

  // ---- writing along a growing chain ----

  /** `c1` is `c0` with `buf[..w]` at `off`. */
  ghost predicate Spliced(c0: seq<byte>, c1: seq<byte>, off: nat, buf: seq<byte>, w: nat) {
    && w <= |buf| && (w > 0 ==> off + w <= |c0|)
    && c1 == if w == 0 then c0 else Splice(c0, off, buf[..w])
  }

  ghost predicate SameOutside(d0: Data, d1: Data, ch: seq<u16>) {
    |d1| == |d0| && forall c: u16 :: c < |d0| && c !in ch ==> d1[c] == d0[c]
  }

  /** `buf[..w]` has been stored at `off` of the chain `ch`, and no other byte has changed. */
  ghost predicate Stored(d0: Data, d1: Data, ch: seq<u16>, cs: nat, off: nat, buf: seq<byte>, w: nat) {
    && Uniform(d0, ch, cs) && Uniform(d1, ch, cs)
    && Spliced(Cat(d0, ch), Cat(d1, ch), off, buf, w) && SameOutside(d0, d1, ch)
  }

  lemma StoredGrow(d0: Data, d1: Data, ch: seq<u16>, cs: nat, off: nat, buf: seq<byte>, w: nat, c: u16)
    requires Stored(d0, d1, ch, cs, off, buf, w) && c !in ch && c < |d0| && |d0[c]| == cs
    ensures Stored(d0, d1, ch + [c], cs, off, buf, w)
  {
    var c0, c1 := Cat(d0, ch), Cat(d1, ch);
    assert d1[c] == d0[c];
    assert Cat(d0, ch + [c]) == c0 + d0[c] by { CatAppend(d0, ch, c); }
    assert Cat(d1, ch + [c]) == c1 + d0[c] by { CatAppend(d1, ch, c); }
    SplicedGrow(c0, c1, d0[c], off, buf, w);
  }

  lemma SplicedGrow(c0: seq<byte>, c1: seq<byte>, tail: seq<byte>, off: nat, buf: seq<byte>, w: nat)
    requires Spliced(c0, c1, off, buf, w)
    ensures Spliced(c0 + tail, c1 + tail, off, buf, w)
  {
    if w > 0 { SpliceLeft(c0, tail, off, buf[..w]); }
  }

  lemma StoredPut(d0: Data, d1: Data, ch: seq<u16>, cs: nat, off: nat, buf: seq<byte>, w: nat, k: nat, pos: nat,
                  w': nat)
    requires Stored(d0, d1, ch, cs, off, buf, w) && Distinct(ch) && k < |ch|
    requires w < w' <= |buf| && Base(cs, k) + pos == off + w && pos + w' - w <= cs
    ensures Stored(d0, d1[ch[k] := Splice(d1[ch[k]], pos, buf[w..w'])], ch, cs, off, buf, w')
  {
    var src := buf[w..w'];
    var d2 := d1[ch[k] := Splice(d1[ch[k]], pos, src)];
    var c0, c1, c2 := Cat(d0, ch), Cat(d1, ch), Cat(d2, ch);
    assert |c0| == |c1| by {
      CatLength(d0, ch, cs);
      CatLength(d1, ch, cs);
    }
    assert off + w' <= |c1| && c2 == Splice(c1, off + w, src) by {
      CatPut(d1, ch, cs, k, pos, src);
    }
    assert Spliced(c0, c2, off, buf, w') by { SplicedNext(c0, c1, off, buf, w, w'); }
    PutOutside(d0, d1, ch, cs, k, Splice(d1[ch[k]], pos, src));
  }

  lemma PutOutside(d0: Data, d1: Data, ch: seq<u16>, cs: nat, k: nat, content: seq<byte>)
    requires SameOutside(d0, d1, ch) && Uniform(d1, ch, cs) && k < |ch| && |content| == cs
    ensures SameOutside(d0, d1[ch[k] := content], ch) && Uniform(d1[ch[k] := content], ch, cs)
  {
    assert ch[k] in ch;
  }

  lemma SplicedNext(c0: seq<byte>, c1: seq<byte>, off: nat, buf: seq<byte>, w: nat, w': nat)
    requires w < w' <= |buf| && off + w' <= |c0| == |c1| && Spliced(c0, c1, off, buf, w)
    ensures Splice(c1, off + w, buf[w..w']) == Splice(c0, off, buf[..w'])
  {
    assert Splice(c0, off, buf[..0]) == c0;
    SpliceNext(c0, off, buf, w, w');
  }

  /** What a stored prefix means for the file: the bytes are there, and every byte the file had
      before is unchanged outside `[off, off + w)`. */
  lemma StoredMeans(d0: Data, d1: Data, ch0: seq<u16>, ch: seq<u16>, cs: nat, off: nat, buf: seq<byte>, w: nat)
    requires Stored(d0, d1, ch, cs, off, buf, w) && ch0 <= ch
    ensures w > 0 ==> off + w <= |Cat(d1, ch)| && Cat(d1, ch)[off..off + w] == buf[..w]
    ensures |Cat(d0, ch0)| <= |Cat(d1, ch)|
    ensures forall i :: 0 <= i < |Cat(d0, ch0)| && !(off <= i < off + w) ==> Cat(d1, ch)[i] == Cat(d0, ch0)[i]
  {
    assert ch0 == ch[..|ch0|];
    CatPrefix(d0, ch, |ch0|);
    SplicedMeans(Cat(d0, ch0), Cat(d0, ch), Cat(d1, ch), off, buf, w);
  }

  lemma SplicedMeans(part: seq<byte>, c0: seq<byte>, c1: seq<byte>, off: nat, buf: seq<byte>, w: nat)
    requires part <= c0 && Spliced(c0, c1, off, buf, w)
    ensures w > 0 ==> off + w <= |c1| && c1[off..off + w] == buf[..w]
    ensures |part| <= |c1| && forall i :: 0 <= i < |part| && !(off <= i < off + w) ==> c1[i] == part[i]
  {
  }

  // ---- a file on the volume ----

  /** One file took free clusters; every other chain is as before. */
  ghost predicate Extended(f0: Files, f1: Files, id: nat) {
    && id in f0.chains && id in f1.chains && |f1.fat| == |f0.fat|
    && f1.chains == f0.chains[id := f1.chains[id]] && f1.next == f0.next
    && f0.chains[id] <= f1.chains[id]
    && (forall i :: |f0.chains[id]| <= i < |f1.chains[id]| ==>
          f1.chains[id][i] < |f0.fat| && f0.fat[f1.chains[id][i]] == 0)
  }

  lemma ExtendedNext(f0: Files, f1: Files, id: nat, c: u16)
    requires ForestInv(f0) && ForestInv(f1) && Extended(f0, f1, id) && InTable(f1.fat, c) && f1.fat[c] == 0
    ensures ForestInv(Grown(f1, id, c)) && Extended(f0, Grown(f1, id, c), id) && c !in f1.chains[id]
  {
    assert ChainOk(f1.fat, f1.chains[id]);
    assert ForestInv(Grown(f1, id, c)) by { GrownKeeps(f1, id, c); }
    assert c !in f1.chains[id] by { LinkedChain(f1.fat, f1.chains[id], c); }
    assert f0.fat[c] == 0 by {
      if f0.fat[c] != 0 { StillHeld(f0, f1, id, c); }
    }
    GrownExtends(f0, f1, id, c);
  }

  lemma GrownExtends(f0: Files, f1: Files, id: nat, c: u16)
    requires Extended(f0, f1, id) && InTable(f1.fat, c) && ChainOk(f1.fat, f1.chains[id]) && f0.fat[c] == 0
    ensures Extended(f0, Grown(f1, id, c), id)
  {
  }

  lemma ExtendedTwice(f0: Files, f1: Files, f2: Files, id: nat)
    requires ForestInv(f0) && ForestInv(f1) && ForestInv(f2) && Extended(f0, f1, id) && Extended(f1, f2, id)
    ensures Extended(f0, f2, id)
  {
    var a, b, c := f0.chains[id], f1.chains[id], f2.chains[id];
    assert ChainOk(f2.fat, c);
    forall i | |a| <= i < |c| ensures c[i] < |f0.fat| && f0.fat[c[i]] == 0 {
      if i < |b| {
        assert c[i] == b[i];
      } else {
        assert f1.fat[c[i]] == 0 && InTable(f0.fat, c[i]);
        if f0.fat[c[i]] != 0 { StillHeld(f0, f1, id, c[i]); }
      }
    }
  }

  lemma StillHeld(f0: Files, f1: Files, id: nat, c: u16)
    requires ForestInv(f0) && ForestInv(f1) && Extended(f0, f1, id) && InTable(f0.fat, c) && f0.fat[c] != 0
    ensures f1.fat[c] != 0
  {
    assert Held(f0.chains, c);
    var jd :| jd in f0.chains && c in f0.chains[jd];
    var ch := f1.chains[jd];
    assert c in ch && ChainOk(f1.fat, ch);
    NonZeroOnChain(f1.fat, ch);
  }

  lemma OnChain(s: Files, id: nat, k: nat)
    requires ForestInv(s) && id in s.chains && k < |s.chains[id]|
    ensures s.chains[id][k] >= 2
  {
    assert ChainOk(s.fat, s.chains[id]);
    assert InTable(s.fat, s.chains[id][k]);
  }

  /** A file whose chain is disjoint from the written one reads as before. */
  lemma OtherFile(f0: Files, f1: Files, d0: Data, d1: Data, id: nat, jd: nat, cs: nat, off: nat, buf: seq<byte>, w: nat)
    requires ForestInv(f0) && ForestInv(f1) && Extended(f0, f1, id) && jd in f0.chains && jd != id
    requires |d0| == |f0.fat| && Stored(d0, d1, f1.chains[id], cs, off, buf, w) && ChainOk(f0.fat, f0.chains[jd])
    ensures jd in f1.chains && f1.chains[jd] == f0.chains[jd]
    ensures Cat(d1, f1.chains[jd]) == Cat(d0, f0.chains[jd])
  {
    var ch := f0.chains[jd];
    assert f1.chains[jd] == ch && Apart(ch, f1.chains[id]);
    forall i | 0 <= i < |ch| ensures ch[i] < |d0| && d1[ch[i]] == d0[ch[i]] {
      assert ch[i] in ch;
    }
    CatFrame(d0, d1, ch);
  }

  /** The fields of a `vfs_node_t` that the driver uses: the size, and the first cluster, which it
      keeps in `owner_gid`. */
  class FatNode {
    var size: u32
    var start: u16
    ghost const id: nat

    constructor (size: u32, start: u16, ghost id: nat)
      ensures this.size == size && this.start == start && this.id == id
    {
      this.size, this.start, this.id := size, start, id;
    }
  }

  /** Chains of a mounted volume hold whole clusters. */
  lemma ChainUniform(v: Volume, ch: seq<u16>)
    requires v.Valid() && ChainOk(v.vol.fat, ch)
    ensures Uniform(v.vol.data, ch, ClusterSize(v.g))
  {
    forall i | 0 <= i < |ch| ensures ch[i] < |v.vol.data| && |v.vol.data[ch[i]]| == ClusterSize(v.g) {
      ClusterLength(v.disk.Bytes(), v.g, v.vol, ch[i]);
    }
  }

  class FatFiles {
    const v: Volume
    ghost var files: Files

    ghost predicate Valid()
      reads this, v, v.disk
    {
      v.Valid() && files.fat == v.vol.fat && ForestInv(files)
    }

    constructor (v: Volume, ghost files: Files)
      requires v.Valid() && files.fat == v.vol.fat && ForestInv(files)
      ensures this.v == v && this.files == files && Valid()
    {
      this.v, this.files := v, files;
    }

    /** A node in step with the volume. */
    ghost predicate Open(n: FatNode)
      reads this, n, v
    {
      && n.id in files.chains
      && (if files.chains[n.id] == [] then n.start < 2 else n.start == files.chains[n.id][0])
      && n.size <= Base(ClusterSize(v.g), |files.chains[n.id]|)
    }

    /** Allocates a cluster and links it behind `last`, the end of the chain. */
    method Extend(ghost id: nat, last: u16, linked: bool) returns (c: u16)
      requires Valid() && id in files.chains
      requires linked <==> files.chains[id] != []
      requires linked ==> last == files.chains[id][|files.chains[id]| - 1]
      modifies v.disk, v`vol, this`files
      ensures Valid() && |v.disk.sectors| == old(|v.disk.sectors|) && v.vol.root == old(v.vol.root)
      ensures OutsideKept(v.g, old(v.disk.Bytes()), v.disk.Bytes())
      ensures v.vol.data == old(v.vol.data)
      ensures c == 0 ==> files == old(files) && forall k: nat :: InTable(files.fat, k) ==> files.fat[k] != 0
      ensures c != 0 ==> InTable(old(files).fat, c) && old(files).fat[c] == 0 && files == Grown(old(files), id, c)
    {
      assert ChainOk(files.fat, files.chains[id]);
      c := v.AllocCluster();
      if c == 0 { return; }
      GrownKeeps(files, id, c);
      if linked {
        v.SetEntry(last, c);
      }
      files := Grown(files, id, c);
    }

    /** Steps from cluster number `k` of a chain to the next one, extending the chain at its end. */
    method Advance(ghost id: nat, ghost k: nat, cluster: u16) returns (next: u16)
      requires Valid() && id in files.chains && k < |files.chains[id]| && cluster == files.chains[id][k]
      modifies v.disk, v`vol, this`files
      ensures Valid() && |v.disk.sectors| == old(|v.disk.sectors|) && v.vol.root == old(v.vol.root)
      ensures OutsideKept(v.g, old(v.disk.Bytes()), v.disk.Bytes())
      ensures v.vol.data == old(v.vol.data)
      ensures next == 0 ==> files == old(files) && Full() && k + 1 == |files.chains[id]|
      ensures next != 0 ==> id in files.chains && k + 1 < |files.chains[id]| && next == files.chains[id][k + 1]
      ensures next != 0 && files != old(files) ==>
        InTable(old(files).fat, next) && old(files).fat[next] == 0 && files == Grown(old(files), id, next)
    {
      assert ChainOk(files.fat, files.chains[id]);
      ChainLink(files.fat, files.chains[id], k);
      next := v.GetEntry(cluster);
      if next >= END_OF_CHAIN {
        next := Extend(id, cluster, true);
      }
    }

    /** The volume when `w` bytes of a write to file `id` are stored. */
    ghost predicate Writing(f0: Files, d0: Data, id: nat, off: nat, buf: seq<byte>, w: nat)
      reads this, v
    {
      && Extended(f0, files, id)
      && Stored(d0, v.vol.data, files.chains[id], ClusterSize(v.g), off, buf, w)
    }

    /** `cluster` is number `k` of the file's chain. */
    ghost predicate At(id: nat, k: nat, cluster: u16)
      reads this
    {
      id in files.chains && k < |files.chains[id]| && cluster == files.chains[id][k]
    }

    /** Nothing is free any more. */
    ghost predicate Full()
      reads this
    {
      forall c: nat :: InTable(files.fat, c) ==> files.fat[c] != 0
    }

    /** Nothing is free any more, and the chain of the file ends at or before byte `reach`. */
    ghost predicate Spent(id: nat, reach: nat)
      reads this, v
    {
      Full() && id in files.chains && Base(ClusterSize(v.g), |files.chains[id]|) <= reach
    }

    /** A write ends when all is stored or nothing more can be. */
    ghost predicate AtEnd(id: nat, off: nat, buf: seq<byte>, w: nat)
      reads this, v
    {
      w == |buf| || Spent(id, off + w)
    }

    /** `Advance` during a write. */
    method NextCluster(ghost f0: Files, ghost d0: Data, ghost id: nat, ghost off: nat, ghost buf: seq<byte>,
                       ghost w: nat,
                       ghost k: nat, cluster: u16) returns (next: u16)
      requires Valid() && ForestInv(f0) && |d0| == |f0.fat| && Writing(f0, d0, id, off, buf, w) && At(id, k, cluster)
      modifies v.disk, v`vol, this`files
      ensures Valid() && |v.disk.sectors| == old(|v.disk.sectors|) && v.vol.root == old(v.vol.root)
      ensures OutsideKept(v.g, old(v.disk.Bytes()), v.disk.Bytes())
      ensures Writing(f0, d0, id, off, buf, w)
      ensures if next == 0 then Spent(id, Base(ClusterSize(v.g), k + 1)) else At(id, k + 1, next)
      ensures next == 0 ==> |files.chains[id]| == k + 1
    {
      ghost var f1 := files;
      next := Advance(id, k, cluster);
      if next != 0 && files != f1 {
        ExtendedNext(f0, f1, id, next);
        ClusterLength(v.disk.Bytes(), v.g, v.vol, next);
        assert d0[next] == v.vol.data[next];
        StoredGrow(d0, v.vol.data, f1.chains[id], ClusterSize(v.g), off, buf, w, next);
      }
    }

    /** The first loop of `fat16_node_write`: to cluster number `target`, extending as needed. */
    method Seek(ghost f0: Files, ghost d0: Data, ghost id: nat, ghost off: nat, ghost buf: seq<byte>, start: u16,
                target: nat)
      returns (cluster: u16)
      requires Valid() && ForestInv(f0) && |d0| == |f0.fat| && Writing(f0, d0, id, off, buf, 0) && At(id, 0, start)
      modifies v.disk, v`vol, this`files
      ensures Valid() && |v.disk.sectors| == old(|v.disk.sectors|) && v.vol.root == old(v.vol.root)
      ensures OutsideKept(v.g, old(v.disk.Bytes()), v.disk.Bytes())
      ensures Writing(f0, d0, id, off, buf, 0)
      ensures if cluster == 0 then Full() && |files.chains[id]| <= target else At(id, target, cluster)
    {
      cluster := start;
      OnChain(files, id, 0);
      var k: nat := 0;
      while k < target
        invariant 0 <= k <= target && Valid() && |v.disk.sectors| == old(|v.disk.sectors|)
        invariant OutsideKept(v.g, old(v.disk.Bytes()), v.disk.Bytes())
        invariant v.vol.root == old(v.vol.root)
        invariant Writing(f0, d0, id, off, buf, 0) && At(id, k, cluster) && cluster != 0
      {
        cluster := NextCluster(f0, d0, id, off, buf, 0, k, cluster);
        if cluster == 0 { return; }
        k := k + 1;
      }
    }

    /** The next byte to store has number `w` and goes to position `pos` of cluster number `k`. */
    ghost predicate Placing(f0: Files, d0: Data, id: nat, off: nat, buf: seq<byte>, w: nat, k: nat, cluster: u16,
                            pos: nat)
      reads this, v
    {
      && Writing(f0, d0, id, off, buf, w) && At(id, k, cluster)
      && w < |buf| && pos < ClusterSize(v.g) && Base(ClusterSize(v.g), k) + pos == off + w
    }

    /** Stores the part of the buffer that goes into the current cluster. */
    method StoreHere(ghost f0: Files, ghost d0: Data, ghost id: nat, off: nat, buf: seq<byte>, w: nat, ghost k: nat,
                     cluster: u16, pos: nat) returns (w': nat)
      requires Valid() && ForestInv(f0) && |d0| == |f0.fat| && Placing(f0, d0, id, off, buf, w, k, cluster, pos)
      modifies v.disk, v`vol
      ensures Valid() && |v.disk.sectors| == old(|v.disk.sectors|) && v.vol.root == old(v.vol.root)
      ensures OutsideKept(v.g, old(v.disk.Bytes()), v.disk.Bytes())
      ensures w < w' <= |buf| && (w' < |buf| ==> Base(ClusterSize(v.g), k + 1) == off + w')
      ensures Writing(f0, d0, id, off, buf, w')
    {
      var n := ClusterSize(v.g) - pos;
      if n > |buf| - w { n := |buf| - w; }
      w' := w + n;
      ghost var ch := files.chains[id];
      assert ChainOk(files.fat, ch);
      assert Distinct(ch) by { ChainDistinct(files.fat, ch); }
      StoredPut(d0, v.vol.data, ch, ClusterSize(v.g), off, buf, w, k, pos, w');
      v.WriteCluster(cluster, pos, buf[w..w']);
    }

    /** One pass of the second loop of `fat16_node_write`: store, then step to the next cluster if
        bytes remain. */
    method StorePass(ghost f0: Files, ghost d0: Data, ghost id: nat, off: nat, buf: seq<byte>, w: nat, ghost k: nat,
                     cluster: u16, pos: nat) returns (w': nat, next: u16)
      requires Valid() && ForestInv(f0) && |d0| == |f0.fat| && Placing(f0, d0, id, off, buf, w, k, cluster, pos)
      modifies v.disk, v`vol, this`files
      ensures Valid() && |v.disk.sectors| == old(|v.disk.sectors|) && v.vol.root == old(v.vol.root)
      ensures OutsideKept(v.g, old(v.disk.Bytes()), v.disk.Bytes())
      ensures w < w' <= |buf| && Writing(f0, d0, id, off, buf, w')
      ensures next == 0 ==> AtEnd(id, off, buf, w')
      ensures next != 0 ==> Placing(f0, d0, id, off, buf, w', k + 1, next, 0)
    {
      next := 0;
      w' := StoreHere(f0, d0, id, off, buf, w, k, cluster, pos);
      if w' < |buf| {
        next := NextCluster(f0, d0, id, off, buf, w', k, cluster);
      }
    }

    /** The second loop of `fat16_node_write`. */
    method StoreAll(ghost f0: Files, ghost d0: Data, ghost id: nat, off: nat, buf: seq<byte>, ghost k0: nat,
                    first: u16, pos0: nat) returns (w: nat)
      requires Valid() && ForestInv(f0) && |d0| == |f0.fat| && Placing(f0, d0, id, off, buf, 0, k0, first, pos0)
      modifies v.disk, v`vol, this`files
      ensures Valid() && |v.disk.sectors| == old(|v.disk.sectors|) && v.vol.root == old(v.vol.root)
      ensures OutsideKept(v.g, old(v.disk.Bytes()), v.disk.Bytes())
      ensures 0 < w <= |buf| && AtEnd(id, off, buf, w)
      ensures Writing(f0, d0, id, off, buf, w)
    {
      var cluster: u16, pos: nat := first, pos0;
      w := 0;
      ghost var k: nat := k0;
      while true
        invariant Valid() && |v.disk.sectors| == old(|v.disk.sectors|) && v.vol.root == old(v.vol.root)
        invariant OutsideKept(v.g, old(v.disk.Bytes()), v.disk.Bytes())
        invariant 0 <= w <= |buf| && Placing(f0, d0, id, off, buf, w, k, cluster, pos)
        decreases |buf| - w
      {
        w, cluster := StorePass(f0, d0, id, off, buf, w, k, cluster, pos);
        if cluster == 0 { return; }
        pos, k := 0, k + 1;
      }
    }

    /** The capacity of a file's chain as one flat array. */
    ghost function Whole(n: FatNode): (r: seq<byte>)
      requires Valid() && Open(n)
      reads this, n, v, v.disk
      ensures |r| == Base(ClusterSize(v.g), |files.chains[n.id]|)
      ensures Uniform(v.vol.data, files.chains[n.id], ClusterSize(v.g)) && r == Cat(v.vol.data, files.chains[n.id])
    {
      var ch := files.chains[n.id];
      assert ChainOk(files.fat, ch);
      ChainUniform(v, ch);
      CatLength(v.vol.data, ch, ClusterSize(v.g));
      Cat(v.vol.data, ch)
    }

    /** The bytes of a file, up to its size. */
    ghost function FileBytes(n: FatNode): (r: seq<byte>)
      requires Valid() && Open(n)
      reads this, n, v, v.disk
      ensures |r| == n.size
    {
      Whole(n)[..n.size]
    }

    /** `fat16_node_write`. It stores a prefix of the buffer, a shorter one only when the volume is
        full, and may extend the chain even when it stores nothing. */
    method NodeWrite(n: FatNode, off: u32, buf: seq<byte>, mounted: bool) returns (w: nat)
      requires Valid() && Open(n) && off + |buf| < U32_LIMIT
      modifies v.disk, v`vol, this`files, n
      ensures Valid() && Open(n) && |v.disk.sectors| == old(|v.disk.sectors|) && v.vol.root == old(v.vol.root)
      ensures OutsideKept(v.g, old(v.disk.Bytes()), v.disk.Bytes())
      ensures w <= |buf| && (if mounted then w < |buf| ==> Spent(n.id, off + w) else w == 0)
      ensures Extended(old(files), files, n.id)
      ensures Stored(old(v.vol).data, v.vol.data, files.chains[n.id], ClusterSize(v.g), off, buf, w)
      ensures n.size == if w > 0 && off + w > old(n.size) then off + w else old(n.size)
      ensures files.chains[n.id] == [] <==> old(files).chains[n.id] == [] && (!mounted || buf == [] || old(Full()))
    {
      w := 0;
      ghost var f0, d0 := files, v.vol.data;
      assert ChainOk(files.fat, files.chains[n.id]);
      ChainUniform(v, files.chains[n.id]);
      if !mounted || buf == [] { return; }
      var ok := Start(n, off, buf);
      if ok { w := WriteSized(f0, d0, n, off, buf); }
    }

    /** `fat16_node_write` once the file has a first cluster. */
    method WriteSized(ghost f0: Files, ghost d0: Data, n: FatNode, off: nat, buf: seq<byte>) returns (w: nat)
      requires Valid() && ForestInv(f0) && |d0| == |f0.fat| && Writing(f0, d0, n.id, off, buf, 0)
      requires At(n.id, 0, n.start)
      requires off + |buf| < U32_LIMIT && buf != [] && n.size <= Base(ClusterSize(v.g), |f0.chains[n.id]|)
      modifies v.disk, v`vol, this`files, n`size
      ensures Valid() && |v.disk.sectors| == old(|v.disk.sectors|) && v.vol.root == old(v.vol.root)
      ensures OutsideKept(v.g, old(v.disk.Bytes()), v.disk.Bytes())
      ensures Open(n) && w <= |buf| && (w < |buf| ==> Spent(n.id, off + w))
      ensures Writing(f0, d0, n.id, off, buf, w) && At(n.id, 0, n.start)
      ensures n.size == if w > 0 && off + w > old(n.size) then off + w else old(n.size)
    {
      ghost var f1 := files;
      w := WriteFrom(f1, d0, n.id, n.start, off, buf);
      assert Extended(f0, files, n.id) by { ExtendedTwice(f0, f1, files, n.id); }
      if w > 0 && off + w > n.size { n.size := off + w; }
      Resized(f0, d0, n, off, buf, w, old(n.size));
    }

    /** Gives a file without clusters its first one. */
    method Start(n: FatNode, ghost off: nat, ghost buf: seq<byte>) returns (ok: bool)
      requires Valid() && Open(n)
      modifies v.disk, v`vol, this`files, n`start
      ensures Valid() && |v.disk.sectors| == old(|v.disk.sectors|) && v.vol.root == old(v.vol.root)
      ensures OutsideKept(v.g, old(v.disk.Bytes()), v.disk.Bytes())
      ensures Writing(old(files), old(v.vol).data, n.id, off, buf, 0)
      ensures if ok then At(n.id, 0, n.start) else Full() && files == old(files) && Open(n)
      ensures ok <==> old(files).chains[n.id] != [] || !old(Full())
    {
      ok := true;
      assert ChainOk(files.fat, files.chains[n.id]);
      ChainUniform(v, files.chains[n.id]);
      if n.start < 2 {
        var c := FirstCluster(n.id, off, buf);
        if c == 0 { return false; }
        n.start := c;
      }
    }

    /** The two loops of `fat16_node_write`; nothing is stored when the position is out of reach. */
    method WriteFrom(ghost f0: Files, ghost d0: Data, ghost id: nat, start: u16, off: nat, buf: seq<byte>)
      returns (w: nat)
      requires Valid() && ForestInv(f0) && |d0| == |f0.fat| && Writing(f0, d0, id, off, buf, 0)
      requires f0 == files && At(id, 0, start) && buf != []
      modifies v.disk, v`vol, this`files
      ensures Valid() && |v.disk.sectors| == old(|v.disk.sectors|) && v.vol.root == old(v.vol.root)
      ensures OutsideKept(v.g, old(v.disk.Bytes()), v.disk.Bytes())
      ensures w <= |buf| && (w < |buf| ==> Spent(id, off + w))
      ensures Writing(f0, d0, id, off, buf, w)
      ensures At(id, 0, start)
    {
      BaseDivMod(ClusterSize(v.g), off);
      w := 0;
      var target, pos := off / ClusterSize(v.g), off % ClusterSize(v.g);
      var cluster := Seek(f0, d0, id, off, buf, start, target);
      if cluster == 0 {
        if off < Base(ClusterSize(v.g), |files.chains[id]|) {
          BaseOrder(ClusterSize(v.g), target, |files.chains[id]|);
        }
      } else {
        w := StoreAll(f0, d0, id, off, buf, target, cluster, pos);
      }
      assert f0.chains[id] <= files.chains[id];
    }

    /** The first cluster of a file that has none. */
    method FirstCluster(ghost id: nat, ghost off: nat, ghost buf: seq<byte>) returns (c: u16)
      requires Valid() && id in files.chains && files.chains[id] == []
      modifies v.disk, v`vol, this`files
      ensures Valid() && |v.disk.sectors| == old(|v.disk.sectors|) && v.vol.root == old(v.vol.root)
      ensures OutsideKept(v.g, old(v.disk.Bytes()), v.disk.Bytes())
      ensures Writing(old(files), old(v.vol).data, id, off, buf, 0)
      ensures if c == 0 then Full() && files == old(files) else At(id, 0, c) && !old(Full())
    {
      ghost var f0, d0 := files, v.vol.data;
      c := Extend(id, 0, false);
      if c != 0 {
        ExtendedNext(f0, f0, id, c);
        ClusterLength(v.disk.Bytes(), v.g, v.vol, c);
      }
    }

    /** The node stays in step: its first cluster is fixed and its bytes lie on the chain. */
    lemma Resized(f0: Files, d0: Data, n: FatNode, off: nat, buf: seq<byte>, w: nat, size0: nat)
      requires Valid() && Writing(f0, d0, n.id, off, buf, w) && ForestInv(f0)
      requires files.chains[n.id] != [] && n.start == files.chains[n.id][0]
      requires size0 <= Base(ClusterSize(v.g), |f0.chains[n.id]|)
      requires n.size == if w > 0 && off + w > size0 then off + w else size0
      ensures Open(n)
    {
      var cs, ch0, ch := ClusterSize(v.g), f0.chains[n.id], files.chains[n.id];
      CatLength(d0, ch, cs);
      assert ch0 == ch[..|ch0|];
      CatLength(d0, ch0, cs);
      CatPrefix(d0, ch, |ch0|);
    }

    /** The position of byte `x` of the file, if it has one: cluster number `k`, offset `pos`. */
    ghost predicate AtByte(n: FatNode, k: nat, cluster: u16, pos: nat, x: nat)
      reads this, n, v
    {
      At(n.id, k, cluster) && pos < ClusterSize(v.g) && Base(ClusterSize(v.g), k) + pos == x
    }

    /** The skip loop of `fat16_node_read`. */
    method SkipTo(n: FatNode, target: nat) returns (cluster: u16)
      requires Valid() && Open(n) && target < |files.chains[n.id]|
      ensures At(n.id, target, cluster)
    {
      assert ChainOk(files.fat, files.chains[n.id]);
      cluster := n.start;
      var k: nat := 0;
      while k < target
        invariant 0 <= k <= target && At(n.id, k, cluster)
      {
        ChainLink(files.fat, files.chains[n.id], k);
        cluster := v.GetEntry(cluster);
        k := k + 1;
      }
    }

    /** One pass of the copy loop of `fat16_node_read`. */
    method ReadHere(n: FatNode, ghost k: nat, cluster: u16, pos: nat, ghost x: nat, want: nat)
      returns (part: seq<byte>, next: u16)
      requires Valid() && Open(n) && AtByte(n, k, cluster, pos, x) && 0 < want && x + want <= n.size
      ensures |part| == Min(ClusterSize(v.g) - pos, want)
      ensures x + |part| <= |Whole(n)| && part == Whole(n)[x..x + |part|]
      ensures |part| < want ==> AtByte(n, k + 1, next, 0, x + |part|)
    {
      ghost var cs, ch, whole := ClusterSize(v.g), files.chains[n.id], Whole(n);
      assert ChainOk(files.fat, ch);
      CatAt(v.vol.data, ch, cs, k);
      var m := ClusterSize(v.g) - pos;
      if m > want { m := want; }
      part := v.ReadCluster(cluster, pos, m);
      SliceOfSlice(whole, Base(cs, k), Base(cs, k) + cs, pos, m);
      ChainLink(files.fat, ch, k);
      next := v.GetEntry(cluster);
      if m < want { BaseOrder(cs, k + 1, |ch|); }
    }

    /** `fat16_node_read`. */
    method NodeRead(n: FatNode, off: u32, size: u32) returns (buf: seq<byte>)
      requires Valid() && Open(n) && off + size < U32_LIMIT
      ensures buf == if off >= n.size then [] else FileBytes(n)[off..Min(off + size, n.size)]
    {
      if off >= n.size { return []; }
      var size := if off + size > n.size then n.size - off else size;
      buf := ReadFrom(n, off, size);
      WindowOf(Whole(n), n.size, off, size);
    }

    /** The loops of `fat16_node_read`, for a range inside the file. */
    method ReadFrom(n: FatNode, off: nat, size: nat) returns (buf: seq<byte>)
      requires Valid() && Open(n) && off < n.size && off + size <= n.size
      ensures off + size <= |Whole(n)| && buf == Whole(n)[off..off + size]
    {
      ghost var cs, ch, whole := ClusterSize(v.g), files.chains[n.id], Whole(n);
      BaseDivMod(cs, off);
      BaseOrder(cs, off / cs, |ch|);
      var cluster := SkipTo(n, off / ClusterSize(v.g));
      var pos: nat := off % ClusterSize(v.g);
      ghost var k: nat := off / cs;
      buf := [];
      while |buf| < size
        invariant |buf| <= size && buf == whole[off..off + |buf|]
        invariant |buf| < size ==> AtByte(n, k, cluster, pos, off + |buf|)
      {
        var part;
        part, cluster := ReadHere(n, k, cluster, pos, off + |buf|, size - |buf|);
        Adjacent(whole, off, |buf|, |part|);
        buf := buf + part;
        pos, k := 0, k + 1;
      }
    }

    /** What `fat16_node_write` stored, `fat16_node_read` returns; every other byte that this file
        had and every byte of any other file is unchanged. Bytes between the old end and the offset are
        what the clusters held before. */
    method WriteThenRead(n: FatNode, off: u32, buf: seq<byte>, mounted: bool, ghost other: FatNode)
      returns (w: nat, back: seq<byte>)
      requires Valid() && Open(n) && off + |buf| < U32_LIMIT
      requires Open(other) && other.id != n.id && other != n
      modifies v.disk, v`vol, this`files, n
      ensures OutsideKept(v.g, old(v.disk.Bytes()), v.disk.Bytes())
      ensures Valid() && Open(n) && w <= |buf| && (mounted && w < |buf| ==> Spent(n.id, off + w))
      ensures back == buf[..w] && Wrote(old(FileBytes(n)), FileBytes(n), off, buf, w)
      ensures Leftover(old(v.vol).data, files.chains[n.id], FileBytes(n), off, w)
      ensures Open(other) && FileBytes(other) == old(FileBytes(other))
    {
      w := WriteBeside(n, off, buf, mounted, other);
      back := NodeRead(n, off, w);
    }

    method WriteBeside(n: FatNode, off: u32, buf: seq<byte>, mounted: bool, ghost other: FatNode) returns (w: nat)
      requires Valid() && Open(n) && off + |buf| < U32_LIMIT
      requires Open(other) && other.id != n.id && other != n
      modifies v.disk, v`vol, this`files, n
      ensures OutsideKept(v.g, old(v.disk.Bytes()), v.disk.Bytes())
      ensures Valid() && Open(n) && w <= |buf| && (mounted && w < |buf| ==> Spent(n.id, off + w))
      ensures Wrote(old(FileBytes(n)), FileBytes(n), off, buf, w)
      ensures Leftover(old(v.vol).data, files.chains[n.id], FileBytes(n), off, w)
      ensures Open(other) && FileBytes(other) == old(FileBytes(other))
    {
      ghost var f0, d0, size0, whole0 := files, v.vol.data, n.size, Whole(n);
      assert ChainOk(f0.fat, f0.chains[other.id]);
      w := NodeWrite(n, off, buf, mounted);
      ghost var whole1 := Whole(n);
      assert Wrote(whole0, whole1, off, buf, w) by {
        StoredMeans(d0, v.vol.data, f0.chains[n.id], files.chains[n.id], ClusterSize(v.g), off, buf, w);
      }
      WroteVisible(whole0, size0, whole1, n.size, off, buf, w);
      StoredRest(d0, v.vol.data, files.chains[n.id], ClusterSize(v.g), off, buf, w, n.size);
      OtherFile(f0, files, d0, v.vol.data, n.id, other.id, ClusterSize(v.g), off, buf, w);
    }
  }

  /** `now` is `was`, possibly longer, with `buf[..w]` at `off`. */
  ghost predicate Wrote(was: seq<byte>, now: seq<byte>, off: nat, buf: seq<byte>, w: nat) {
    && w <= |buf| && |was| <= |now|
    && (w > 0 ==> off + w <= |now| && now[off..off + w] == buf[..w])
    && (forall i :: 0 <= i < |was| && !(off <= i < off + w) ==> now[i] == was[i])
  }

  /** Outside the bytes written, the file shows what its clusters held before. */
  ghost predicate Leftover(d0: Data, ch: seq<u16>, now: seq<byte>, off: nat, w: nat) {
    && (forall i :: 0 <= i < |ch| ==> ch[i] < |d0|)
    && |now| <= |Cat(d0, ch)|
    && forall i :: 0 <= i < |now| && !(off <= i < off + w) ==> now[i] == Cat(d0, ch)[i]
  }

  /** The gap of a write behind the end reads as zeros exactly when the clusters held zeros there. */
  lemma GapIsZero(d0: Data, ch: seq<u16>, was: seq<byte>, now: seq<byte>, off: nat, buf: seq<byte>, w: nat)
    requires Wrote(was, now, off, buf, w) && Leftover(d0, ch, now, off, w) && |was| <= off <= |now|
    ensures now[|was|..off] == Zeros(off - |was|) <==> forall i :: |was| <= i < off ==> Cat(d0, ch)[i] == 0
  {
    var gap, z := now[|was|..off], Zeros(off - |was|);
    if gap == z {
      forall i | |was| <= i < off ensures Cat(d0, ch)[i] == 0 {
        assert gap[i - |was|] == z[i - |was|];
      }
    }
    if forall i :: |was| <= i < off ==> Cat(d0, ch)[i] == 0 {
      assert forall i :: |was| <= i < off ==> now[i] == 0;
      assert gap == z;
    }
  }

  lemma StoredRest(d0: Data, d1: Data, ch: seq<u16>, cs: nat, off: nat, buf: seq<byte>, w: nat, size: nat)
    requires Stored(d0, d1, ch, cs, off, buf, w) && size <= |Cat(d1, ch)|
    ensures Leftover(d0, ch, Cat(d1, ch)[..size], off, w)
  {
    SplicedRest(Cat(d0, ch), Cat(d1, ch), off, buf, w);
  }

  lemma SplicedRest(c0: seq<byte>, c1: seq<byte>, off: nat, buf: seq<byte>, w: nat)
    requires Spliced(c0, c1, off, buf, w)
    ensures |c1| == |c0| && forall i :: 0 <= i < |c1| && !(off <= i < off + w) ==> c1[i] == c0[i]
  {
  }

  lemma WroteVisible(was: seq<byte>, size0: nat, now: seq<byte>, size1: nat, off: nat, buf: seq<byte>, w: nat)
    requires size0 <= |was| && size0 <= size1 <= |now| && (w > 0 ==> off + w <= size1) && Wrote(was, now, off, buf, w)
    ensures Wrote(was[..size0], now[..size1], off, buf, w)
  {
    if w > 0 { WindowOf(now, size1, off, w); }
  }

  lemma Adjacent(c: seq<byte>, off: nat, m: nat, n: nat)
    requires off + m + n <= |c|
    ensures c[off..off + m] + c[off + m..off + m + n] == c[off..off + m + n]
  {
  }

  lemma WindowOf(c: seq<byte>, size: nat, off: nat, n: nat)
    requires off + n <= size <= |c|
    ensures c[..size][off..off + n] == c[off..off + n]
  {
  }
}
