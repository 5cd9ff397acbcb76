/** The block device under every file system: an array of 512-byte sectors that is read and
    written in whole sectors. The device is reliable: a transfer inside the medium succeeds.
    `Flat` is the byte array that the file systems reason about. */
module SectorDisk {
  import opened Bytes

  const SECTOR: nat := 512

  type Sector = s: seq<byte> | |s| == SECTOR witness seq(SECTOR, i => 0)

  function Flat(ss: seq<Sector>): (r: seq<byte>)
    ensures |r| == SECTOR * |ss|
  {
    seq(SECTOR * |ss|, i requires 0 <= i < SECTOR * |ss| => ss[i / SECTOR][i % SECTOR])
  }

  /** Cuts a buffer into sectors. */
  function Chunks(data: seq<byte>, n: nat): (r: seq<Sector>)
    requires |data| == SECTOR * n
    ensures |r| == n
  {
    seq(n, i requires 0 <= i < n => data[SECTOR * i..SECTOR * i + SECTOR])
  }

  lemma FlatRead(ss: seq<Sector>, lba: nat, n: nat)
    requires lba + n <= |ss|
    ensures Flat(ss[lba..lba + n]) == Flat(ss)[SECTOR * lba..SECTOR * (lba + n)]
  {
    var a, b := Flat(ss[lba..lba + n]), Flat(ss)[SECTOR * lba..SECTOR * (lba + n)];
    forall i | 0 <= i < |a| ensures a[i] == b[i] {
      assert (SECTOR * lba + i) / SECTOR == lba + i / SECTOR;
      assert (SECTOR * lba + i) % SECTOR == i % SECTOR;
    }
  }

  lemma FlatWrite(ss: seq<Sector>, lba: nat, n: nat, data: seq<byte>)
    requires lba + n <= |ss| && |data| == SECTOR * n
    ensures Flat(Splice(ss, lba, Chunks(data, n))) == Splice(Flat(ss), SECTOR * lba, data)
  {
    var ss' := Splice(ss, lba, Chunks(data, n));
    var a, b := Flat(ss'), Splice(Flat(ss), SECTOR * lba, data);
    forall i | 0 <= i < |a| ensures a[i] == b[i] {
      var q, r := i / SECTOR, i % SECTOR;
      if lba <= q < lba + n {
        assert ss'[q] == data[SECTOR * (q - lba)..SECTOR * (q - lba) + SECTOR];
        assert a[i] == data[SECTOR * (q - lba) + r];
      }
    }
  }

  /** How many sectors a command with an 8-bit count transfers. */
  function Transfer(count: byte): (n: nat)
    ensures 0 < n <= 256 && n % 256 == count
  {
    if count == 0 then 256 else count
  }

  class Disk {
    var sectors: seq<Sector>

    constructor (image: seq<Sector>)
      ensures sectors == image
    {
      sectors := image;
    }

    ghost function Bytes(): (r: seq<byte>)
      reads this
      ensures |r| == SECTOR * |sectors|
    {
      Flat(sectors)
    }

    /** `ata_read_sectors`: fails only outside the medium. */
    method Read(lba: nat, count: byte) returns (ok: bool, data: seq<byte>)
      ensures ok <==> lba + Transfer(count) <= |sectors|
      ensures ok ==> data == Bytes()[512 * lba..512 * (lba + Transfer(count))]
    {
      var n := Transfer(count);
      ok, data := lba + n <= |sectors|, [];
      if ok {
        FlatRead(sectors, lba, n);
        data := Flat(sectors[lba..lba + n]);
      }
    }

    /** `ata_write_sectors`: a failed transfer writes nothing. */
    method Write(lba: nat, count: byte, data: seq<byte>) returns (ok: bool)
      requires |data| == SECTOR * Transfer(count)
      modifies this
      ensures |sectors| == old(|sectors|)
      ensures ok <==> lba + Transfer(count) <= |sectors|
      ensures Bytes() == if ok then Splice(old(Bytes()), SECTOR * lba, data) else old(Bytes())
    {
      var n := Transfer(count);
      ok := lba + n <= |sectors|;
      if ok {
        FlatWrite(sectors, lba, n, data);
        sectors := Splice(sectors, lba, Chunks(data, n));
      }
    }

    /** The transfer loops of the file systems: at most `max` sectors for each command. */
    method ReadRun(lba: nat, n: nat, max: nat) returns (ok: bool, data: seq<byte>)
      requires 0 < max < 256
      ensures ok <==> n == 0 || lba + n <= |sectors|
      ensures ok && n > 0 ==> data == Bytes()[SECTOR * lba..SECTOR * (lba + n)]
    {
      var done := 0;
      ok, data := true, [];
      while done < n
        invariant 0 <= done <= n
        invariant done > 0 ==> lba + done <= |sectors| && data == Bytes()[SECTOR * lba..SECTOR * (lba + done)]
        invariant done == 0 ==> data == []
      {
        var chunk := if n - done > max then max else n - done;
        var sects;
        ok, sects := Read(lba + done, chunk);
        if !ok { return; }
        data := data + sects;
        done := done + chunk;
      }
    }

    method WriteNext(lba: nat, done: nat, chunk: nat, data: seq<byte>, ghost start: seq<byte>)
      requires 0 < chunk < 256
      requires SECTOR * (done + chunk) <= |data| && lba + done + chunk <= |sectors|
      requires SECTOR * lba + |data| <= |start|
      requires Bytes() == Splice(start, SECTOR * lba, data[..SECTOR * done])
      modifies this
      ensures |sectors| == old(|sectors|)
      ensures Bytes() == Splice(start, SECTOR * lba, data[..SECTOR * (done + chunk)])
    {
      var lo, hi := SECTOR * done, SECTOR * (done + chunk);
      var ok := Write(lba + done, chunk, data[lo..hi]);
      SpliceNext(start, SECTOR * lba, data, lo, hi);
    }

    method WriteRun(lba: nat, n: nat, data: seq<byte>, max: nat)
      requires 0 < max < 256 && |data| == SECTOR * n && lba + n <= |sectors|
      modifies this
      ensures |sectors| == old(|sectors|)
      ensures Bytes() == Splice(old(Bytes()), SECTOR * lba, data)
    {
      var done := 0;
      ghost var start := Bytes();
      assert Splice(start, SECTOR * lba, data[..0]) == start;
      while done < n
        invariant 0 <= done <= n && |sectors| == old(|sectors|)
        invariant Bytes() == Splice(start, SECTOR * lba, data[..SECTOR * done])
      {
        var chunk := if n - done > max then max else n - done;
        WriteNext(lba, done, chunk, data, start);
        done := done + chunk;
      }
      assert data[..SECTOR * n] == data;
    }
  }
}
