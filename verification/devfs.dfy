/** `/dev/sda`: byte-addressed access to the sector device (fs/devfs.c). */
module RawDisk {
  import opened Bytes
  import opened SectorDisk

  const MAX_SECTORS_PER_COMMAND: nat := 255

  /** The capacity as the driver computes it, in 32-bit arithmetic: a medium of 4 GiB or more
      exposes only the remainder. */
  function DiskBytes(sectors: nat): (r: nat)
    ensures r <= SECTOR * sectors
    ensures r == SECTOR * sectors <==> SECTOR * sectors < U32_LIMIT
    ensures r < U32_LIMIT && (SECTOR * sectors - r) % U32_LIMIT == 0
  {
    SECTOR * sectors % U32_LIMIT
  }

  /** How many bytes of a request at `off` lie on the device. */
  function Clamp(limit: nat, off: nat, size: nat): (r: nat)
    ensures limit <= off ==> r == 0
    ensures off <= limit ==> r <= size && off + r <= limit && (r == size || off + r == limit)
  {
    if off >= limit then 0 else Min(size, limit - off)
  }

  /** One pass of the read loop: whole sectors when aligned, else part of one sector. */
  method ReadPass(disk: Disk, pos: nat, want: nat) returns (data: seq<byte>)
    requires 0 < want && pos + want <= SECTOR * |disk.sectors|
    ensures 0 < |data| <= want
    ensures data == disk.Bytes()[pos..pos + |data|]
  {
    var lba, soff := pos / SECTOR, pos % SECTOR;
    if soff == 0 && want >= SECTOR {
      var nsec := want / SECTOR;
      if nsec > MAX_SECTORS_PER_COMMAND { nsec := MAX_SECTORS_PER_COMMAND; }
      var ok, sects := disk.Read(lba, nsec);
      return sects;
    }
    var ok, sect := disk.Read(lba, 1);
    var chunk := SECTOR - soff;
    if chunk > want { chunk := want; }
    SliceOfSlice(disk.Bytes(), SECTOR * lba, SECTOR * (lba + 1), soff, chunk);
    return sect[soff..soff + chunk];
  }

  method SdaRead(disk: Disk, off: u32, size: u32) returns (buf: seq<byte>)
    requires off + size < U32_LIMIT
    ensures |buf| == Clamp(DiskBytes(|disk.sectors|), off, size)
    ensures |buf| > 0 ==> buf == disk.Bytes()[off..off + |buf|]
  {
    var limit := DiskBytes(|disk.sectors|);
    buf := [];
    if off >= limit { return; }
    var size := if off + size > limit then limit - off else size;
    while |buf| < size
      invariant |buf| <= size && off + size <= limit
      invariant buf == disk.Bytes()[off..off + |buf|]
    {
      var data := ReadPass(disk, off + |buf|, size - |buf|);
      buf := buf + data;
    }
  }

  /** Read, modify and write back part of one sector. */
  method UpdateSector(disk: Disk, lba: nat, soff: nat, src: seq<byte>)
    requires lba < |disk.sectors| && soff + |src| <= SECTOR
    modifies disk
    ensures |disk.sectors| == old(|disk.sectors|)
    ensures disk.Bytes() == Splice(old(disk.Bytes()), SECTOR * lba + soff, src)
  {
    var ok, sect := disk.Read(lba, 1);
    SpliceWindow(disk.Bytes(), SECTOR * lba, SECTOR * (lba + 1), soff, src);
    ok := disk.Write(lba, 1, Splice(sect, soff, src));
  }

  /** One pass of the write loop; a partial sector is read, modified and written back. */
  method WritePass(disk: Disk, pos: nat, src: seq<byte>) returns (chunk: nat)
    requires 0 < |src| && pos + |src| <= SECTOR * |disk.sectors|
    modifies disk
    ensures |disk.sectors| == old(|disk.sectors|)
    ensures 0 < chunk <= |src|
    ensures disk.Bytes() == Splice(old(disk.Bytes()), pos, src[..chunk])
  {
    var lba, soff := pos / SECTOR, pos % SECTOR;
    if soff == 0 && |src| >= SECTOR {
      var nsec := |src| / SECTOR;
      if nsec > MAX_SECTORS_PER_COMMAND { nsec := MAX_SECTORS_PER_COMMAND; }
      chunk := nsec * SECTOR;
      var ok := disk.Write(lba, nsec, src[..chunk]);
      return;
    }
    chunk := SECTOR - soff;
    if chunk > |src| { chunk := |src|; }
    UpdateSector(disk, lba, soff, src[..chunk]);
  }

  /** The image `now` when `done` bytes of `buf` have been stored at `off`. */
  ghost predicate Written(start: seq<byte>, off: nat, buf: seq<byte>, done: nat, now: seq<byte>) {
    && done <= |buf| && off + done <= |start|
    && now == if done == 0 then start else Splice(start, off, buf[..done])
  }

  lemma WrittenNext(start: seq<byte>, off: nat, buf: seq<byte>, done: nat, size: nat, n: nat, now: seq<byte>,
                    next: seq<byte>)
    requires done + n <= size <= |buf| && off + size <= |start| == |now| && Written(start, off, buf, done, now)
    requires next == Splice(now, off + done, buf[done..size][..n])
    ensures Written(start, off, buf, done + n, next)
  {
    assert Splice(start, off, buf[..0]) == start;
    SplicePrefix(start, off, buf, done, size, n);
  }

  method WriteNext(disk: Disk, ghost start: seq<byte>, off: nat, buf: seq<byte>, done: nat, size: nat)
    returns (done': nat)
    requires done < size <= |buf| && off + size <= SECTOR * |disk.sectors| == |start|
    requires Written(start, off, buf, done, disk.Bytes())
    modifies disk
    ensures |disk.sectors| == old(|disk.sectors|)
    ensures done < done' <= size && Written(start, off, buf, done', disk.Bytes())
  {
    ghost var now := disk.Bytes();
    var chunk := WritePass(disk, off + done, buf[done..size]);
    WrittenNext(start, off, buf, done, size, chunk, now, disk.Bytes());
    done' := done + chunk;
  }

  /** `sda_write`. */
  method SdaWrite(disk: Disk, off: u32, buf: seq<byte>) returns (done: nat)
    requires off + |buf| < U32_LIMIT
    modifies disk
    ensures |disk.sectors| == old(|disk.sectors|)
    ensures done == Clamp(DiskBytes(|disk.sectors|), off, |buf|)
    ensures disk.Bytes() ==
      if done == 0 then old(disk.Bytes()) else Splice(old(disk.Bytes()), off, buf[..done])
  {
    var limit := DiskBytes(|disk.sectors|);
    done := 0;
    if off >= limit { return; }
    var size := if off + |buf| > limit then limit - off else |buf|;
    ghost var start := disk.Bytes();
    while done < size
      invariant 0 <= done <= size <= |buf| && off + size <= limit
      invariant |disk.sectors| == old(|disk.sectors|)
      invariant Written(start, off, buf, done, disk.Bytes())
    {
      done := WriteNext(disk, start, off, buf, done, size);
    }
  }

  /** What is written at an offset is what is read there afterwards, and every byte outside
      the request keeps its value. */
  method WriteThenRead(disk: Disk, off: u32, buf: seq<byte>) returns (back: seq<byte>)
    requires off + |buf| < U32_LIMIT
    modifies disk
    ensures |disk.sectors| == old(|disk.sectors|)
    ensures back == buf[..Clamp(DiskBytes(|disk.sectors|), off, |buf|)]
    ensures forall i {:trigger disk.Bytes()[i]} :: 0 <= i < |disk.Bytes()| && !(off <= i < off + |buf|) ==>
      disk.Bytes()[i] == old(disk.Bytes()[i])
  {
    var done := SdaWrite(disk, off, buf);
    back := SdaRead(disk, off, |buf|);
  }
}
