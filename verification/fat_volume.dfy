/** A FAT16 volume on a disk (fs/fat16.c): where the table copies, the root directory and the
    clusters lie, and the sector operations that keep them apart. */
module FatVolume {
  import opened Bytes
  import opened SectorDisk
  import opened FatTable
  import RawDisk

  /** From the boot parameter block: sector counts, relative to the partition. */
  datatype Geo = Geo(part: nat, fatStart: nat, fatCount: nat, fatSectors: nat, rootSectors: nat, spc: nat,
                     clusters: nat)

  function RootLba(g: Geo): nat { g.fatStart + Base(g.fatSectors, g.fatCount) }
  function DataLba(g: Geo): nat { RootLba(g) + g.rootSectors }
  function CopyLba(g: Geo, copy: nat): nat { g.part + g.fatStart + Base(g.fatSectors, copy) }

  /** `fat16_cluster_to_lba`, from the start of the disk. */
  function ClusterLba(g: Geo, c: nat): nat
    requires c >= 2
  {
    g.part + DataLba(g) + Base(g.spc, c - 2)
  }

  function ClusterSize(g: Geo): nat { SECTOR * g.spc }

  ghost predicate GeoOk(g: Geo, total: nat) {
    && g.fatCount >= 1 && 1 <= g.spc <= 64 && g.clusters <= MAX_CLUSTERS
    && 2 * (g.clusters + 2) <= SECTOR * g.fatSectors
    && g.part + DataLba(g) + Base(g.spc, g.clusters) <= total < U32_LIMIT
  }

  /** `fat16_node_write` keeps the cluster size in 16 bits: exact up to 64 sectors, and wrong
      (0 for a 64 KiB cluster) from 128 sectors on. */
  lemma ClusterSize16(spc: nat)
    requires spc < 0x100
    ensures spc * SECTOR % 0x1_0000 == spc * SECTOR <==> spc < 128
    ensures 128 * SECTOR % 0x1_0000 == 0
  {
  }

  lemma CopyApart(g: Geo, a: nat, b: nat)
    requires a < b
    ensures CopyLba(g, a) + g.fatSectors <= CopyLba(g, b)
  {
    BaseApart(g.fatSectors, a, b);
  }

  lemma ClusterApart(g: Geo, c: nat, d: nat)
    requires 2 <= c < d
    ensures ClusterLba(g, c) + g.spc <= ClusterLba(g, d)
  {
    BaseApart(g.spc, c - 2, d - 2);
  }

  /** From the start of the partition and the reserved sectors on, table copies, root directory and clusters
      follow each other without a gap. */
  lemma RegionsTile(g: Geo, copy: nat, c: nat)
    requires c >= 2
    ensures CopyLba(g, 0) == g.part + g.fatStart && CopyLba(g, copy + 1) == CopyLba(g, copy) + g.fatSectors
    ensures g.part + RootLba(g) == CopyLba(g, g.fatCount) && DataLba(g) == RootLba(g) + g.rootSectors
    ensures ClusterLba(g, 2) == g.part + DataLba(g) && ClusterLba(g, c + 1) == ClusterLba(g, c) + g.spc
  {
  }

  /** Table copies lie between the reserved sectors and the root directory, clusters above it and inside the
      disk. */
  lemma RegionBounds(g: Geo, total: nat, copy: nat, c: nat)
    requires GeoOk(g, total)
    ensures g.part + g.fatStart <= CopyLba(g, copy)
    ensures copy < g.fatCount ==> CopyLba(g, copy) + g.fatSectors <= g.part + RootLba(g)
    ensures 2 <= c < g.clusters + 2 ==> g.part + DataLba(g) <= ClusterLba(g, c) && ClusterLba(g, c) + g.spc <= total
  {
    if copy < g.fatCount {
      CopyApart(g, copy, g.fatCount);
    }
    if 2 <= c < g.clusters + 2 {
      ClusterApart(g, c, g.clusters + 2);
    }
  }

  // ---- the volume in a disk image ----

  /** What the volume means: the table, the contents of each cluster, the root directory. */
  datatype Vol = Vol(fat: Fat, data: seq<seq<byte>>, root: seq<byte>)

  ghost predicate HoldsCopy(bytes: seq<byte>, g: Geo, copy: nat, fat: Fat)
    requires SECTOR * CopyLba(g, copy) + 2 * |fat| <= |bytes|
  {
    forall c :: 0 <= c < |fat| ==> DecodeU16(bytes, SECTOR * CopyLba(g, copy) + 2 * c) == fat[c]
  }

  ghost predicate ClusterAt(bytes: seq<byte>, g: Geo, c: nat, content: seq<byte>)
    requires c >= 2
  {
    && SECTOR * (ClusterLba(g, c) + g.spc) <= |bytes|
    && content == bytes[SECTOR * ClusterLba(g, c)..SECTOR * (ClusterLba(g, c) + g.spc)]
  }

  ghost predicate HoldsData(bytes: seq<byte>, g: Geo, data: seq<seq<byte>>) {
    forall c {:trigger ClusterAt(bytes, g, c, data[c])} :: 2 <= c < |data| ==> ClusterAt(bytes, g, c, data[c])
  }

  ghost predicate HoldsRoot(bytes: seq<byte>, g: Geo, root: seq<byte>) {
    && SECTOR * (g.part + DataLba(g)) <= |bytes|
    && root == bytes[SECTOR * (g.part + RootLba(g))..SECTOR * (g.part + DataLba(g))]
  }

  ghost predicate CopyAt(bytes: seq<byte>, g: Geo, copy: nat, fat: Fat) {
    SECTOR * CopyLba(g, copy) + 2 * |fat| <= |bytes| && HoldsCopy(bytes, g, copy, fat)
  }

  /** All copies of the table are equal to `vol.fat`. */
  ghost predicate Holds(bytes: seq<byte>, g: Geo, vol: Vol) {
    && |vol.fat| == g.clusters + 2 && |vol.data| == g.clusters + 2
    && (forall copy {:trigger CopyAt(bytes, g, copy, vol.fat)} ::
          0 <= copy < g.fatCount ==> CopyAt(bytes, g, copy, vol.fat))
    && HoldsData(bytes, g, vol.data)
    && HoldsRoot(bytes, g, vol.root)
  }

  // ---- the volume in its partition ----

  /** Where the volume begins and ends: behind the reserved sectors, and with the last cluster. */
  function VolumeStart(g: Geo): nat { SECTOR * (g.part + g.fatStart) }
  function VolumeEnd(g: Geo): nat { SECTOR * (g.part + DataLba(g) + Base(g.spc, g.clusters)) }

  /** Nothing outside the volume has changed. */
  ghost predicate OutsideKept(g: Geo, was: seq<byte>, now: seq<byte>) {
    && |now| == |was| && VolumeStart(g) <= VolumeEnd(g) <= |was|
    && now[..VolumeStart(g)] == was[..VolumeStart(g)] && now[VolumeEnd(g)..] == was[VolumeEnd(g)..]
  }

  lemma InsideVolume(bytes: seq<byte>, g: Geo, off: nat, src: seq<byte>)
    requires VolumeStart(g) <= off && off + |src| <= VolumeEnd(g) <= |bytes|
    ensures OutsideKept(g, bytes, Splice(bytes, off, src))
  {
  }

  /** Table entries, root directory and clusters are inside. */
  lemma PartsInside(g: Geo, total: nat, copy: nat, c: nat)
    requires GeoOk(g, total)
    ensures VolumeStart(g) <= SECTOR * (g.part + RootLba(g)) && SECTOR * (g.part + DataLba(g)) <= VolumeEnd(g)
    ensures copy < g.fatCount && c < g.clusters + 2 ==>
      && VolumeStart(g) <= SECTOR * CopyLba(g, copy)
      && SECTOR * CopyLba(g, copy) + 2 * c + 2 <= SECTOR * (g.part + RootLba(g))
    ensures 2 <= c < g.clusters + 2 ==>
      VolumeStart(g) <= SECTOR * ClusterLba(g, c) && SECTOR * (ClusterLba(g, c) + g.spc) <= VolumeEnd(g)
  {
    RegionBounds(g, total, copy, c);
    if 2 <= c < g.clusters + 2 { ClusterApart(g, c, g.clusters + 2); }
  }

  /** Entry `c` of a table copy is two bytes, the low one first, at `2 * c` from its start. */
  lemma EntryBytes(bytes: seq<byte>, g: Geo, vol: Vol, copy: nat, c: nat)
    requires Holds(bytes, g, vol) && copy < g.fatCount && c < |vol.fat|
    ensures var at := 512 * (g.part + g.fatStart + g.fatSectors * copy) + 2 * c;
      at + 2 <= |bytes| && bytes[at] == vol.fat[c] % 256 && bytes[at + 1] == vol.fat[c] / 256
  {
    assert CopyAt(bytes, g, copy, vol.fat);
    assert DecodeU16(bytes, SECTOR * CopyLba(g, copy) + 2 * c) == vol.fat[c];
    BaseIsProduct(g.fatSectors, copy);
  }

  /** The volume that starts with the partition. */
  function Unshifted(g: Geo): Geo { g.(part := 0) }

  lemma CopyShifts(bytes: seq<byte>, g: Geo, copy: nat, fat: Fat)
    requires SECTOR * g.part <= |bytes|
    ensures CopyAt(bytes, g, copy, fat) <==> CopyAt(bytes[SECTOR * g.part..], Unshifted(g), copy, fat)
  {
    var cut, u := bytes[SECTOR * g.part..], Unshifted(g);
    var lo, lo' := SECTOR * CopyLba(g, copy), SECTOR * CopyLba(u, copy);
    assert lo == SECTOR * g.part + lo';
    if lo + 2 * |fat| <= |bytes| {
      forall c | 0 <= c < |fat| ensures DecodeU16(cut, lo' + 2 * c) == DecodeU16(bytes, lo + 2 * c) {
        assert cut[lo' + 2 * c] == bytes[lo + 2 * c] && cut[lo' + 2 * c + 1] == bytes[lo + 2 * c + 1];
      }
    }
  }

  lemma ClusterShifts(bytes: seq<byte>, g: Geo, c: nat, content: seq<byte>)
    requires SECTOR * g.part <= |bytes| && c >= 2
    ensures ClusterAt(bytes, g, c, content) <==> ClusterAt(bytes[SECTOR * g.part..], Unshifted(g), c, content)
  {
    var cut, u := bytes[SECTOR * g.part..], Unshifted(g);
    var lo, hi := SECTOR * ClusterLba(u, c), SECTOR * (ClusterLba(u, c) + g.spc);
    assert SECTOR * ClusterLba(g, c) == SECTOR * g.part + lo;
    if SECTOR * g.part + hi <= |bytes| {
      assert cut[lo..hi] == bytes[SECTOR * g.part + lo..SECTOR * g.part + hi];
    }
  }

  lemma RootShifts(bytes: seq<byte>, g: Geo, root: seq<byte>)
    requires SECTOR * g.part <= |bytes|
    ensures HoldsRoot(bytes, g, root) <==> HoldsRoot(bytes[SECTOR * g.part..], Unshifted(g), root)
  {
    var cut := bytes[SECTOR * g.part..];
    var lo, hi := SECTOR * RootLba(g), SECTOR * DataLba(g);
    if SECTOR * g.part + hi <= |bytes| {
      assert cut[lo..hi] == bytes[SECTOR * g.part + lo..SECTOR * g.part + hi];
    }
  }

  /** A volume in a partition is the volume that the bytes from the start of the partition hold. */
  lemma InPartition(bytes: seq<byte>, g: Geo, vol: Vol)
    requires SECTOR * g.part <= |bytes|
    ensures Holds(bytes, g, vol) <==> Holds(bytes[SECTOR * g.part..], Unshifted(g), vol)
  {
    var cut, u := bytes[SECTOR * g.part..], Unshifted(g);
    forall copy | 0 <= copy < g.fatCount
      ensures CopyAt(bytes, g, copy, vol.fat) <==> CopyAt(cut, u, copy, vol.fat)
    {
      CopyShifts(bytes, g, copy, vol.fat);
    }
    forall c | 2 <= c < |vol.data|
      ensures ClusterAt(bytes, g, c, vol.data[c]) <==> ClusterAt(cut, u, c, vol.data[c])
    {
      ClusterShifts(bytes, g, c, vol.data[c]);
    }
    RootShifts(bytes, g, vol.root);
  }

  // ---- what a sector write changes ----

  lemma PutEntry(bytes: seq<byte>, g: Geo, copy: nat, fat: Fat, c: nat, v: u16)
    requires CopyAt(bytes, g, copy, fat) && c < |fat|
    ensures CopyAt(Splice(bytes, SECTOR * CopyLba(g, copy) + 2 * c, EncodeU16(v)), g, copy, fat[c := v])
  {
    var base := SECTOR * CopyLba(g, copy);
    var bytes' := Splice(bytes, base + 2 * c, EncodeU16(v));
    forall k | 0 <= k < |fat| ensures DecodeU16(bytes', base + 2 * k) == fat[c := v][k] {
      if k == c {
        U16RoundTrip(v, bytes', base + 2 * c);
      } else {
        assert bytes'[base + 2 * k] == bytes[base + 2 * k] && bytes'[base + 2 * k + 1] == bytes[base + 2 * k + 1];
        assert DecodeU16(bytes, base + 2 * k) == fat[k];
      }
    }
  }

  lemma CopyFrame(bytes: seq<byte>, g: Geo, copy: nat, fat: Fat, off: nat, src: seq<byte>)
    requires CopyAt(bytes, g, copy, fat) && off + |src| <= |bytes|
    requires off + |src| <= SECTOR * CopyLba(g, copy) || SECTOR * CopyLba(g, copy) + 2 * |fat| <= off
    ensures CopyAt(Splice(bytes, off, src), g, copy, fat)
  {
    var base, bytes' := SECTOR * CopyLba(g, copy), Splice(bytes, off, src);
    forall k | 0 <= k < |fat| ensures DecodeU16(bytes', base + 2 * k) == fat[k] {
      assert DecodeU16(bytes, base + 2 * k) == fat[k];
      assert bytes'[base + 2 * k] == bytes[base + 2 * k] && bytes'[base + 2 * k + 1] == bytes[base + 2 * k + 1];
    }
  }

  lemma SliceFrame(bytes: seq<byte>, lo: nat, hi: nat, off: nat, src: seq<byte>)
    requires lo <= hi <= |bytes| && off + |src| <= |bytes| && (off + |src| <= lo || hi <= off)
    ensures Splice(bytes, off, src)[lo..hi] == bytes[lo..hi]
  {
  }

  lemma DataFrame(bytes: seq<byte>, g: Geo, data: seq<seq<byte>>, off: nat, src: seq<byte>)
    requires HoldsData(bytes, g, data) && off + |src| <= |bytes| && off + |src| <= SECTOR * (g.part + DataLba(g))
    ensures HoldsData(Splice(bytes, off, src), g, data)
  {
    forall c | 2 <= c < |data| ensures ClusterAt(Splice(bytes, off, src), g, c, data[c]) {
      ClusterFrame(bytes, g, c, data[c], off, src) by { assert ClusterAt(bytes, g, c, data[c]); }
    }
  }

  lemma ClusterFrame(bytes: seq<byte>, g: Geo, c: nat, content: seq<byte>, off: nat, src: seq<byte>)
    requires c >= 2 && ClusterAt(bytes, g, c, content)
    requires off + |src| <= |bytes| && off + |src| <= SECTOR * (g.part + DataLba(g))
    ensures ClusterAt(Splice(bytes, off, src), g, c, content)
  {
    var lba := ClusterLba(g, c);
    SliceFrame(bytes, SECTOR * lba, SECTOR * (lba + g.spc), off, src);
  }

  /** Writing inside one cluster changes that cluster only. */
  lemma DataPut(bytes: seq<byte>, g: Geo, data: seq<seq<byte>>, c: nat, pos: nat, src: seq<byte>)
    requires HoldsData(bytes, g, data) && 2 <= c < |data| && pos + |src| <= ClusterSize(g)
    ensures |data[c]| == ClusterSize(g) && SECTOR * ClusterLba(g, c) + pos + |src| <= |bytes|
    ensures HoldsData(Splice(bytes, SECTOR * ClusterLba(g, c) + pos, src), g, data[c := Splice(data[c], pos, src)])
  {
    var lo, hi := SECTOR * ClusterLba(g, c), SECTOR * (ClusterLba(g, c) + g.spc);
    assert ClusterAt(bytes, g, c, data[c]);
    SpliceWindow(bytes, lo, hi, pos, src);
    var bytes', data' := Splice(bytes, lo + pos, src), data[c := Splice(data[c], pos, src)];
    forall d | 2 <= d < |data'| ensures ClusterAt(bytes', g, d, data'[d]) {
      if d != c { OtherCluster(bytes, g, c, d, data[d], pos, src) by { assert ClusterAt(bytes, g, d, data[d]); } }
    }
  }

  lemma OtherCluster(bytes: seq<byte>, g: Geo, c: nat, d: nat, content: seq<byte>, pos: nat, src: seq<byte>)
    requires c >= 2 && d >= 2 && c != d && ClusterAt(bytes, g, d, content)
    requires pos + |src| <= ClusterSize(g) && SECTOR * ClusterLba(g, c) + pos + |src| <= |bytes|
    ensures ClusterAt(Splice(bytes, SECTOR * ClusterLba(g, c) + pos, src), g, d, content)
  {
    if d < c { ClusterApart(g, d, c); } else { ClusterApart(g, c, d); }
    SliceFrame(bytes, SECTOR * ClusterLba(g, d), SECTOR * (ClusterLba(g, d) + g.spc),
               SECTOR * ClusterLba(g, c) + pos, src);
  }

  lemma RootFrame(bytes: seq<byte>, g: Geo, root: seq<byte>, off: nat, src: seq<byte>)
    requires HoldsRoot(bytes, g, root) && off + |src| <= |bytes|
    requires off + |src| <= SECTOR * (g.part + RootLba(g)) || SECTOR * (g.part + DataLba(g)) <= off
    ensures HoldsRoot(Splice(bytes, off, src), g, root)
  {
    SliceFrame(bytes, SECTOR * (g.part + RootLba(g)), SECTOR * (g.part + DataLba(g)), off, src);
  }

  ghost predicate CopyDone(bytes: seq<byte>, g: Geo, copy: nat, fat: Fat, fat': Fat, done: nat) {
    CopyAt(bytes, g, copy, if copy < done then fat' else fat)
  }

  /** The volume while `fat16_set_fat_entry` has updated the first `done` copies. */
  ghost predicate Updating(bytes: seq<byte>, g: Geo, vol: Vol, fat': Fat, done: nat) {
    && |vol.fat| == g.clusters + 2 && |vol.data| == g.clusters + 2 && |fat'| == |vol.fat|
    && (forall copy {:trigger CopyDone(bytes, g, copy, vol.fat, fat', done)} :: 0 <= copy < g.fatCount ==>
         CopyDone(bytes, g, copy, vol.fat, fat', done))
    && HoldsData(bytes, g, vol.data) && HoldsRoot(bytes, g, vol.root)
  }

  lemma UpdateCopy(bytes: seq<byte>, g: Geo, total: nat, vol: Vol, fat': Fat, c: nat, v: u16, done: nat)
    requires GeoOk(g, total) && |bytes| == SECTOR * total && c < |vol.fat| && done < g.fatCount
    requires fat' == vol.fat[c := v] && Updating(bytes, g, vol, fat', done)
    ensures SECTOR * CopyLba(g, done) + 2 * c + 2 <= |bytes|
    ensures Updating(Splice(bytes, SECTOR * CopyLba(g, done) + 2 * c, EncodeU16(v)), g, vol, fat', done + 1)
  {
    var off, src := SECTOR * CopyLba(g, done) + 2 * c, EncodeU16(v);
    RegionBounds(g, total, done, 2);
    assert CopyDone(bytes, g, done, vol.fat, fat', done);
    var bytes', done' := Splice(bytes, off, src), done + 1;
    forall copy | 0 <= copy < g.fatCount ensures CopyDone(bytes', g, copy, vol.fat, fat', done') {
      assert CopyDone(bytes, g, copy, vol.fat, fat', done);
      if copy == done {
        PutEntry(bytes, g, done, vol.fat, c, v);
      } else {
        OtherCopy(bytes, g, total, done, copy, if copy < done then fat' else vol.fat, c, v);
      }
    }
    DataFrame(bytes, g, vol.data, off, src) by {
      assert SECTOR * (g.part + RootLba(g)) <= SECTOR * (g.part + DataLba(g));
    }
    RootFrame(bytes, g, vol.root, off, src);
  }

  lemma OtherCopy(bytes: seq<byte>, g: Geo, total: nat, done: nat, copy: nat, fat: Fat, c: nat, v: u16)
    requires GeoOk(g, total) && |fat| == g.clusters + 2 && c < |fat| && copy != done
    requires CopyAt(bytes, g, copy, fat) && SECTOR * CopyLba(g, done) + 2 * c + 2 <= |bytes|
    ensures CopyAt(Splice(bytes, SECTOR * CopyLba(g, done) + 2 * c, EncodeU16(v)), g, copy, fat)
  {
    if copy < done { CopyApart(g, copy, done); } else { CopyApart(g, done, copy); }
    CopyFrame(bytes, g, copy, fat, SECTOR * CopyLba(g, done) + 2 * c, EncodeU16(v));
  }

  lemma SectorSplit(c: nat)
    ensures SECTOR * (2 * c / 512) + 2 * c % 512 == 2 * c && 2 * c % 512 + 2 <= SECTOR
  {
  }

  /** The sector and offset that `fat16_get_fat_entry` and `fat16_set_fat_entry` compute. */
  method EntryPosition(g: Geo, ghost total: nat, c: u16, copy: nat) returns (lba: nat, offset: nat)
    requires GeoOk(g, total) && c < g.clusters + 2 && copy < g.fatCount
    ensures lba < total && offset + 2 <= SECTOR && SECTOR * lba + offset == SECTOR * CopyLba(g, copy) + 2 * c
  {
    BaseIsProduct(g.fatSectors, copy);
    SectorSplit(c);
    lba, offset := g.part + (g.fatStart + 2 * c / 512) + g.fatSectors * copy, 2 * c % 512;
    assert lba == CopyLba(g, copy) + 2 * c / 512;
    InsideCopy(g, total, c, copy);
  }

  lemma InsideCopy(g: Geo, total: nat, c: nat, copy: nat)
    requires GeoOk(g, total) && c < g.clusters + 2 && copy < g.fatCount
    ensures CopyLba(g, copy) + 2 * c / 512 < total
  {
    RegionBounds(g, total, copy, 2);
    assert 2 * c / 512 < g.fatSectors by { SectorSplit(c); }
  }

  lemma DecodeInSector(bytes: seq<byte>, lba: nat, offset: nat, buf: seq<byte>)
    requires SECTOR * (lba + 1) <= |bytes| && offset + 2 <= SECTOR && buf == bytes[SECTOR * lba..SECTOR * (lba + 1)]
    ensures DecodeU16(buf, offset) == DecodeU16(bytes, SECTOR * lba + offset)
  {
  }

  class Volume {
    const disk: Disk
    const g: Geo
    ghost var vol: Vol

    ghost predicate Valid()
      reads this, disk
    {
      && GeoOk(g, |disk.sectors|)
      && Holds(disk.Bytes(), g, vol)
    }

    /** A mounted volume. */
    constructor (disk: Disk, g: Geo, ghost vol: Vol)
      requires GeoOk(g, |disk.sectors|) && Holds(disk.Bytes(), g, vol)
      ensures Valid() && this.disk == disk && this.g == g && this.vol == vol
    {
      this.disk, this.g, this.vol := disk, g, vol;
    }

    /** `fat16_get_fat_entry`. */
    method GetEntry(c: u16) returns (v: u16)
      requires Valid() && c < g.clusters + 2
      ensures v == vol.fat[c]
    {
      assert CopyAt(disk.Bytes(), g, 0, vol.fat);
      var lba, offset := EntryPosition(g, |disk.sectors|, c, 0);
      var ok, buf := disk.Read(lba, 1);
      DecodeInSector(disk.Bytes(), lba, offset, buf);
      v := DecodeU16(buf, offset);
      assert DecodeU16(disk.Bytes(), SECTOR * CopyLba(g, 0) + 2 * c) == vol.fat[c];
    }

    /** `fat16_set_fat_entry`: every copy of the table is updated. */
    method SetEntry(c: u16, v: u16)
      requires Valid() && c < g.clusters + 2
      modifies disk, this`vol
      ensures Valid() && |disk.sectors| == old(|disk.sectors|)
      ensures OutsideKept(g, old(disk.Bytes()), disk.Bytes())
      ensures vol == old(vol).(fat := old(vol).fat[c := v])
    {
      ghost var fat' := vol.fat[c := v];
      UpdateCopies(c, v, fat');
      vol := vol.(fat := fat');
    }

    method UpdateCopies(c: u16, v: u16, ghost fat': Fat)
      requires Valid() && c < g.clusters + 2 && fat' == vol.fat[c := v]
      modifies disk
      ensures |disk.sectors| == old(|disk.sectors|)
      ensures OutsideKept(g, old(disk.Bytes()), disk.Bytes())
      ensures Holds(disk.Bytes(), g, vol.(fat := fat'))
    {
      var copy := 0;
      AllCopies(disk.Bytes(), g, vol, fat', 0);
      while copy < g.fatCount
        invariant 0 <= copy <= g.fatCount && |disk.sectors| == old(|disk.sectors|)
        invariant OutsideKept(g, old(disk.Bytes()), disk.Bytes())
        invariant Updating(disk.Bytes(), g, vol, fat', copy)
      {
        SetInCopy(c, v, copy, fat');
        copy := copy + 1;
      }
      AllCopies(disk.Bytes(), g, vol, fat', copy);
    }

    method SetInCopy(c: u16, v: u16, copy: nat, ghost fat': Fat)
      requires GeoOk(g, |disk.sectors|) && c < g.clusters + 2 == |vol.fat| && copy < g.fatCount
      requires fat' == vol.fat[c := v] && Updating(disk.Bytes(), g, vol, fat', copy)
      modifies disk
      ensures |disk.sectors| == old(|disk.sectors|)
      ensures OutsideKept(g, old(disk.Bytes()), disk.Bytes())
      ensures Updating(disk.Bytes(), g, vol, fat', copy + 1)
    {
      var lba, offset := EntryPosition(g, |disk.sectors|, c, copy);
      UpdateCopy(disk.Bytes(), g, |disk.sectors|, vol, fat', c, v, copy);
      PartsInside(g, |disk.sectors|, copy, c);
      InsideVolume(disk.Bytes(), g, SECTOR * CopyLba(g, copy) + 2 * c, EncodeU16(v));
      RawDisk.UpdateSector(disk, lba, offset, EncodeU16(v));
    }

    /** `fat16_alloc_cluster`: the lowest free cluster, marked as an end of chain; 0 if none. */
    method AllocCluster() returns (c: u16)
      requires Valid()
      modifies disk, this`vol
      ensures Valid() && |disk.sectors| == old(|disk.sectors|)
      ensures OutsideKept(g, old(disk.Bytes()), disk.Bytes())
      ensures c == 0 ==> vol == old(vol) && forall k: nat :: InTable(vol.fat, k) ==> vol.fat[k] != 0
      ensures c != 0 ==> InTable(vol.fat, c) && old(vol).fat[c] == 0 && forall k :: 2 <= k < c ==> old(vol).fat[k] != 0
      ensures c != 0 ==> vol == old(vol).(fat := old(vol).fat[c := 0xFFFF])
    {
      c := 2;
      while c < g.clusters + 2
        invariant 2 <= c <= g.clusters + 2 && Valid() && vol == old(vol) && disk.Bytes() == old(disk.Bytes())
        invariant |disk.sectors| == old(|disk.sectors|) && OutsideKept(g, old(disk.Bytes()), disk.Bytes())
        invariant forall k :: 2 <= k < c ==> vol.fat[k] != 0
      {
        var v := GetEntry(c);
        if v == 0 {
          SetEntry(c, NEW_END);
          return;
        }
        c := c + 1;
      }
      c := 0;
    }

    /** `fat16_free_cluster_chain`, on any table with entries in range. */
    method FreeChain(start: u16)
      requires Valid() && InRange(vol.fat) && Follows(vol.fat, start)
      modifies disk, this`vol
      ensures Valid() && |disk.sectors| == old(|disk.sectors|)
      ensures OutsideKept(g, old(disk.Bytes()), disk.Bytes())
      ensures vol == old(vol).(fat := Freed(old(vol).fat, start))
    {
      var c: u16 := start;
      while 2 <= c < END_OF_CHAIN
        invariant Valid() && |disk.sectors| == old(|disk.sectors|)
        invariant OutsideKept(g, old(disk.Bytes()), disk.Bytes())
        invariant InRange(vol.fat) && Follows(vol.fat, c)
        invariant vol == old(vol).(fat := vol.fat) && Freed(vol.fat, c) == Freed(old(vol).fat, start)
        decreases NonZero(vol.fat), if 2 <= c < END_OF_CHAIN then 1 else 0
      {
        var next := GetEntry(c);
        NonZeroUpdate(vol.fat, c, 0);
        SetEntry(c, 0);
        c := next;
      }
    }

    /** Read, modify and write back part of one sector of a cluster. */
    method PutInSector(c: u16, pos: nat, src: seq<byte>)
      requires Valid() && InTable(vol.fat, c) && pos < ClusterSize(g) && pos % SECTOR + |src| <= SECTOR
      modifies disk, this`vol
      ensures Valid() && |disk.sectors| == old(|disk.sectors|)
      ensures OutsideKept(g, old(disk.Bytes()), disk.Bytes())
      ensures |old(vol).data[c]| == ClusterSize(g)
      ensures vol == old(vol).(data := old(vol).data[c := Splice(old(vol).data[c], pos, src)])
    {
      var lba := ClusterLba(g, c) + pos / SECTOR;
      PutKeeps(disk.Bytes(), g, |disk.sectors|, vol, c, pos, src);
      assert SECTOR * lba + pos % SECTOR == SECTOR * ClusterLba(g, c) + pos;
      PartsInside(g, |disk.sectors|, 0, c);
      InsideVolume(disk.Bytes(), g, SECTOR * ClusterLba(g, c) + pos, src);
      RawDisk.UpdateSector(disk, lba, pos % SECTOR, src);
      vol := vol.(data := vol.data[c := Splice(vol.data[c], pos, src)]);
    }

    /** The inner loop of `fat16_node_write`. */
    method WriteCluster(c: u16, pos: nat, src: seq<byte>)
      requires Valid() && InTable(vol.fat, c) && pos + |src| <= ClusterSize(g)
      modifies disk, this`vol
      ensures Valid() && |disk.sectors| == old(|disk.sectors|)
      ensures OutsideKept(g, old(disk.Bytes()), disk.Bytes())
      ensures |old(vol).data[c]| == ClusterSize(g)
      ensures vol == old(vol).(data := old(vol).data[c := Splice(old(vol).data[c], pos, src)])
    {
      ghost var data := vol.data;
      ClusterLength(disk.Bytes(), g, vol, c);
      var done := 0;
      assert Splice(data[c], pos, src[..0]) == data[c] && data[c := data[c]] == data;
      while done < |src|
        invariant 0 <= done <= |src| && Valid() && |disk.sectors| == old(|disk.sectors|)
        invariant OutsideKept(g, old(disk.Bytes()), disk.Bytes())
        invariant vol == old(vol).(data := data[c := Splice(data[c], pos, src[..done])])
      {
        var take := SECTOR - (pos + done) % SECTOR;
        if take > |src| - done { take := |src| - done; }
        SpliceNext(data[c], pos, src, done, done + take);
        PutInSector(c, pos + done, src[done..done + take]);
        done := done + take;
      }
      assert src[..done] == src;
    }

    /** The inner loop of `fat16_node_read`. */
    method ReadCluster(c: u16, pos: nat, n: nat) returns (buf: seq<byte>)
      requires Valid() && InTable(vol.fat, c) && pos + n <= ClusterSize(g)
      ensures |vol.data[c]| == ClusterSize(g) && buf == vol.data[c][pos..pos + n]
    {
      ClusterLength(disk.Bytes(), g, vol, c);
      buf := [];
      while |buf| < n
        invariant |buf| <= n && buf == vol.data[c][pos..pos + |buf|]
      {
        var p := pos + |buf|;
        var take := SECTOR - p % SECTOR;
        if take > n - |buf| { take := n - |buf|; }
        var part := GetFromSector(c, p, take);
        buf := buf + part;
      }
    }

    /** Reads one sector of the root directory. */
    method ReadRootSector(sec: nat) returns (buf: seq<byte>)
      requires Valid() && sec < g.rootSectors
      ensures |vol.root| == SECTOR * g.rootSectors && buf == vol.root[SECTOR * sec..SECTOR * sec + SECTOR]
    {
      var lba := g.part + RootLba(g) + sec;
      var ok;
      ok, buf := disk.Read(lba, 1);
      RootSlice(disk.Bytes(), g, vol.root, sec);
    }

    /** Rewrites part of one sector of the root directory. */
    method UpdateRoot(sec: nat, at: nat, src: seq<byte>)
      requires Valid() && sec < g.rootSectors && at + |src| <= SECTOR
      modifies disk, this`vol
      ensures Valid() && |disk.sectors| == old(|disk.sectors|)
      ensures OutsideKept(g, old(disk.Bytes()), disk.Bytes())
      ensures |old(vol).root| == SECTOR * g.rootSectors
      ensures vol == old(vol).(root := Splice(old(vol).root, SECTOR * sec + at, src))
    {
      RootPut(disk.Bytes(), g, |disk.sectors|, vol, SECTOR * sec + at, src);
      PartsInside(g, |disk.sectors|, 0, 2);
      InsideVolume(disk.Bytes(), g, SECTOR * (g.part + RootLba(g)) + SECTOR * sec + at, src);
      RawDisk.UpdateSector(disk, g.part + RootLba(g) + sec, at, src);
      vol := vol.(root := Splice(vol.root, SECTOR * sec + at, src));
    }

    method GetFromSector(c: u16, pos: nat, n: nat) returns (part: seq<byte>)
      requires Valid() && InTable(vol.fat, c) && pos < ClusterSize(g) && pos % SECTOR + n <= SECTOR
      requires |vol.data[c]| == ClusterSize(g)
      ensures pos + n <= ClusterSize(g) && part == vol.data[c][pos..pos + n]
    {
      RegionBounds(g, |disk.sectors|, 0, c);
      assert ClusterAt(disk.Bytes(), g, c, vol.data[c]);
      var lba, at := ClusterLba(g, c) + pos / SECTOR, pos % SECTOR;
      var ok, sect := disk.Read(lba, 1);
      SectorOfCluster(disk.Bytes(), SECTOR * ClusterLba(g, c), vol.data[c], pos, n, sect);
      part := sect[at..at + n];
    }
  }

  lemma RootSlice(bytes: seq<byte>, g: Geo, root: seq<byte>, sec: nat)
    requires HoldsRoot(bytes, g, root) && sec < g.rootSectors
    ensures |root| == SECTOR * g.rootSectors
    ensures var lba := g.part + RootLba(g) + sec;
      root[SECTOR * sec..SECTOR * sec + SECTOR] == bytes[SECTOR * lba..SECTOR * (lba + 1)]
  {
    var lo, hi := SECTOR * (g.part + RootLba(g)), SECTOR * (g.part + DataLba(g));
    SliceOfSlice(bytes, lo, hi, SECTOR * sec, SECTOR);
  }

  lemma SectorOfCluster(bytes: seq<byte>, lo: nat, content: seq<byte>, pos: nat, n: nat, sect: seq<byte>)
    requires lo + |content| <= |bytes| && content == bytes[lo..lo + |content|]
    requires pos < |content| && |content| % SECTOR == 0 && pos % SECTOR + n <= SECTOR
    requires lo + SECTOR * (pos / SECTOR) + SECTOR <= |bytes|
    requires sect == bytes[lo + SECTOR * (pos / SECTOR)..lo + SECTOR * (pos / SECTOR) + SECTOR]
    ensures pos + n <= |content| && sect[pos % SECTOR..pos % SECTOR + n] == content[pos..pos + n]
  {
    var at, q := pos % SECTOR, SECTOR * (pos / SECTOR);
    assert pos == q + at && q + SECTOR <= |content|;
    SliceOfSlice(bytes, lo + q, lo + q + SECTOR, at, n);
    SliceOfSlice(bytes, lo, lo + |content|, pos, n);
  }

  lemma ClusterLength(bytes: seq<byte>, g: Geo, vol: Vol, c: nat)
    requires Holds(bytes, g, vol) && InTable(vol.fat, c)
    ensures |vol.data[c]| == ClusterSize(g)
  {
    assert ClusterAt(bytes, g, c, vol.data[c]);
  }

  lemma RootPut(bytes: seq<byte>, g: Geo, total: nat, vol: Vol, pos: nat, src: seq<byte>)
    requires GeoOk(g, total) && |bytes| == SECTOR * total && Holds(bytes, g, vol)
    requires pos + |src| <= SECTOR * g.rootSectors
    ensures |vol.root| == SECTOR * g.rootSectors && SECTOR * (g.part + RootLba(g)) + pos + |src| <= |bytes|
    ensures Holds(Splice(bytes, SECTOR * (g.part + RootLba(g)) + pos, src), g, vol.(root := Splice(vol.root, pos, src)))
  {
    var lo, hi := SECTOR * (g.part + RootLba(g)), SECTOR * (g.part + DataLba(g));
    var bytes' := Splice(bytes, lo + pos, src);
    SpliceWindow(bytes, lo, hi, pos, src);
    DataFrame(bytes, g, vol.data, lo + pos, src);
    forall copy | 0 <= copy < g.fatCount ensures CopyAt(bytes', g, copy, vol.fat) {
      assert CopyAt(bytes, g, copy, vol.fat);
      RegionBounds(g, total, copy, 2);
      CopyFrame(bytes, g, copy, vol.fat, lo + pos, src);
    }
  }

  lemma PutKeeps(bytes: seq<byte>, g: Geo, total: nat, vol: Vol, c: nat, pos: nat, src: seq<byte>)
    requires GeoOk(g, total) && |bytes| == SECTOR * total && Holds(bytes, g, vol)
    requires InTable(vol.fat, c) && pos + |src| <= ClusterSize(g)
    ensures |vol.data[c]| == ClusterSize(g) && SECTOR * ClusterLba(g, c) + pos + |src| <= |bytes|
    ensures Holds(Splice(bytes, SECTOR * ClusterLba(g, c) + pos, src), g,
                  vol.(data := vol.data[c := Splice(vol.data[c], pos, src)]))
  {
    DataPut(bytes, g, vol.data, c, pos, src);
    var off := SECTOR * ClusterLba(g, c) + pos;
    var bytes' := Splice(bytes, off, src);
    RegionBounds(g, total, 0, c);
    RootFrame(bytes, g, vol.root, off, src);
    forall copy | 0 <= copy < g.fatCount ensures CopyAt(bytes', g, copy, vol.fat) {
      assert CopyAt(bytes, g, copy, vol.fat);
      RegionBounds(g, total, copy, c);
      CopyFrame(bytes, g, copy, vol.fat, off, src);
    }
  }

  lemma AllCopies(bytes: seq<byte>, g: Geo, vol: Vol, fat': Fat, done: nat)
    requires |fat'| == |vol.fat|
    ensures done == 0 && Holds(bytes, g, vol) ==> Updating(bytes, g, vol, fat', 0)
    ensures done == g.fatCount && Updating(bytes, g, vol, fat', done) ==> Holds(bytes, g, vol.(fat := fat'))
  {
    if done == 0 && Holds(bytes, g, vol) {
      forall copy | 0 <= copy < g.fatCount ensures CopyDone(bytes, g, copy, vol.fat, fat', 0) {
        assert CopyAt(bytes, g, copy, vol.fat);
      }
    }
    if done == g.fatCount && Updating(bytes, g, vol, fat', done) {
      forall copy | 0 <= copy < g.fatCount ensures CopyAt(bytes, g, copy, fat') {
        assert CopyDone(bytes, g, copy, vol.fat, fat', done);
      }
    }
  }
}
