/** A file whose bytes live in a list of disk blocks (the disk-backed half of fs/ramfs.c),
    seen as one flat byte array over the capacity of its list. */
module BlockFile {
  import opened Bytes
  import opened Layout
  import opened Bitmap
  import opened BlockStore

  const ZERO_BLOCK: Block := Zeros(BLOCK_SIZE)

  ghost predicate InRange(blocks: seq<u32>, n: nat) {
    forall i :: 0 <= i < |blocks| ==> blocks[i] < n
  }

  ghost predicate NoDup(blocks: seq<u32>) {
    forall i, j :: 0 <= i < j < |blocks| ==> blocks[i] != blocks[j]
  }

  /** The flat array: block `blocks[k]` holds bytes `[4096 k, 4096 (k + 1))`. */
  ghost function Content(data: seq<Block>, blocks: seq<u32>): (r: seq<byte>)
    requires InRange(blocks, |data|)
    ensures |r| == 4096 * |blocks|
  {
    seq(BLOCK_SIZE * |blocks|, i requires 0 <= i < BLOCK_SIZE * |blocks| =>
      data[blocks[i / BLOCK_SIZE]][i % BLOCK_SIZE])
  }

  lemma ContentAt(data: seq<Block>, blocks: seq<u32>, k: nat)
    requires InRange(blocks, |data|) && k < |blocks|
    ensures Content(data, blocks)[BLOCK_SIZE * k..BLOCK_SIZE * (k + 1)] == data[blocks[k]]
  {
  }

  lemma ContentUpdate(data: seq<Block>, blocks: seq<u32>, k: nat, blk: Block)
    requires InRange(blocks, |data|) && NoDup(blocks) && k < |blocks|
    ensures Content(data[blocks[k] := blk], blocks) == Splice(Content(data, blocks), BLOCK_SIZE * k, blk)
  {
    var data' := data[blocks[k] := blk];
    var a, b := Content(data', blocks), Splice(Content(data, blocks), BLOCK_SIZE * k, blk);
    forall i | 0 <= i < |a| ensures a[i] == b[i] {
      var q := i / BLOCK_SIZE;
      assert q != k ==> blocks[q] != blocks[k];
    }
  }

  /** Contents depend only on the file's own blocks. */
  lemma ContentFrame(data: seq<Block>, data': seq<Block>, blocks: seq<u32>)
    requires InRange(blocks, |data|) && |data'| == |data|
    requires forall i :: 0 <= i < |blocks| ==> data'[blocks[i]] == data[blocks[i]]
    ensures Content(data', blocks) == Content(data, blocks)
  {
  }

  /** Previously free blocks are appended to a list and marked used; no other bit changes. */
  ghost predicate Taken(used: seq<bool>, blocks: seq<u32>, used': seq<bool>, blocks': seq<u32>) {
    && |used'| == |used|
    && |blocks| <= |blocks'| && blocks == blocks'[..|blocks|]
    && (forall k :: |blocks| <= k < |blocks'| ==>
         blocks'[k] < |used| && !used[blocks'[k]] && used'[blocks'[k]])
    && NoDup(blocks'[|blocks|..])
    && (forall b: u32 :: b < |used| && b !in blocks'[|blocks|..] ==> used'[b] == used[b])
    && Count(used') == Count(used) + |blocks'| - |blocks|
  }

  /** Growing a block list: taken blocks are zeroed and no other block is written. */
  ghost predicate GrownBy(s: Store, blocks: seq<u32>, s': Store, blocks': seq<u32>) {
    && s.Valid() && s'.Valid()
    && Taken(s.used, blocks, s'.used, blocks')
    && (forall k :: |blocks| <= k < |blocks'| ==> s'.data[blocks'[k]] == ZERO_BLOCK)
    && (forall b: u32 :: b < |s.used| && b !in blocks'[|blocks|..] ==> s'.data[b] == s.data[b])
  }

  lemma TakenNext(used: seq<bool>, blocks: seq<u32>, used': seq<bool>, blocks': seq<u32>, b: u32)
    requires Taken(used, blocks, used', blocks') && b < |used'| && !used'[b]
    ensures Taken(used, blocks, used'[b := true], blocks' + [b])
  {
    var added, added' := blocks'[|blocks|..], (blocks' + [b])[|blocks|..];
    assert added' == added + [b];
    assert forall k :: 0 <= k < |added| ==> added[k] == blocks'[|blocks| + k];
    CountUpdate(used', b, true);
  }

  lemma GrownNext(s: Store, blocks: seq<u32>, s': Store, blocks': seq<u32>, b: u32, s'': Store)
    requires GrownBy(s, blocks, s', blocks')
    requires b < |s'.used| && !s'.used[b]
    requires s'' == Store(s'.used[b := true], s'.data[b := ZERO_BLOCK])
    ensures GrownBy(s, blocks, s'', blocks' + [b])
  {
    TakenNext(s.used, blocks, s'.used, blocks', b);
    assert (blocks' + [b])[|blocks|..] == blocks'[|blocks|..] + [b];
  }

  /** Growth keeps the old bytes and extends the file with zeros. */
  lemma {:induction false} GrownContent(s: Store, blocks: seq<u32>, s': Store, blocks': seq<u32>)
    requires GrownBy(s, blocks, s', blocks') && InRange(blocks, |s.used|)
    requires forall i :: 0 <= i < |blocks| ==> s.used[blocks[i]]
    ensures InRange(blocks', |s.used|)
    ensures Content(s'.data, blocks') == Content(s.data, blocks) + Zeros(BLOCK_SIZE * (|blocks'| - |blocks|))
  {
    forall k | 0 <= k < |blocks'| ensures blocks'[k] < |s.used| {
      assert k < |blocks| ==> blocks'[k] == blocks[k];
    }
    var added := blocks'[|blocks|..];
    assert forall k :: 0 <= k < |added| ==> added[k] == blocks'[|blocks| + k];
    forall k | 0 <= k < |blocks| ensures s'.data[blocks'[k]] == s.data[blocks[k]] {
      assert blocks'[k] == blocks[k] && blocks[k] !in added;
    }
    var a, b := Content(s'.data, blocks'), Content(s.data, blocks) + Zeros(BLOCK_SIZE * (|blocks'| - |blocks|));
    forall i | 0 <= i < |a| ensures a[i] == b[i] {
      var q := i / BLOCK_SIZE;
      if q >= |blocks| {
        assert s'.data[blocks'[q]] == ZERO_BLOCK;
      }
    }
  }

  /** `ensure_blocks`, after its `krealloc`. Without block storage no block can be had. */
  method Grow(fs: BlockFs, blocks: seq<u32>, n: nat) returns (ok: bool, blocks': seq<u32>)
    requires fs.Valid()
    modifies fs`bitmap, fs`usedBlocks, fs`view, fs.disk
    ensures fs.Valid() && |fs.disk.sectors| == old(|fs.disk.sectors|)
    ensures OutsideKept(fs.available, fs.geo, old(fs.disk.Bytes()), fs.disk.Bytes())
    ensures fs.available ==> GrownBy(old(fs.view), blocks, fs.view, blocks')
    ensures !fs.available ==> blocks' == blocks
    ensures ok <==> |blocks'| >= n
    ensures ok ==> |blocks'| == if n < |blocks| then |blocks| else n
    ensures !ok && fs.available ==> forall b :: 0 <= b < |fs.view.used| ==> fs.view.used[b]
    ensures ok <==> n - |blocks| <= 0 || (fs.available && n - |blocks| <= Free(old(fs.view).used))
  {
    blocks' := blocks;
    ghost var s, was := fs.view, fs.disk.Bytes();
    while |blocks'| < n
      invariant fs.Valid() && |fs.disk.sectors| == old(|fs.disk.sectors|)
      invariant OutsideKept(fs.available, fs.geo, was, fs.disk.Bytes())
      invariant if fs.available then GrownBy(s, blocks, fs.view, blocks') else blocks' == blocks
      invariant |blocks'| <= if n < |blocks| then |blocks| else n
      decreases n - |blocks'|
    {
      ghost var before := fs.view;
      var b := fs.Alloc();
      if b == BLOCK_INVALID {
        NoneFree(fs.view.used);
        return false, blocks';
      }
      var written := fs.WriteBlock(b, Zeros(BLOCK_SIZE));
      GrownNext(s, blocks, before, blocks', b, fs.view);
      blocks' := blocks' + [b];
    }
    ok := true;
  }

  /** The part of one block that a read at `pos` needs. */
  method ReadPass(fs: BlockFs, blocks: seq<u32>, pos: nat, want: nat) returns (data: seq<byte>)
    requires fs.Valid() && fs.available && InRange(blocks, fs.geo.blocks)
    requires pos < BLOCK_SIZE * |blocks| && 0 < want
    ensures |data| == Min(want, BLOCK_SIZE - pos % BLOCK_SIZE)
    ensures pos + |data| <= BLOCK_SIZE * |blocks|
    ensures data == Content(fs.view.data, blocks)[pos..pos + |data|]
  {
    var bindex, boff := pos / BLOCK_SIZE, pos % BLOCK_SIZE;
    var chunk := BLOCK_SIZE - boff;
    if chunk > want { chunk := want; }
    var ok, blk := fs.ReadBlock(blocks[bindex]);
    ContentAt(fs.view.data, blocks, bindex);
    data := blk[boff..boff + chunk];
  }

  /** The copy loop of `diskfile_read`; it stops early at a block the list does not have. */
  method ReadSpan(fs: BlockFs, blocks: seq<u32>, off: nat, size: nat) returns (buf: seq<byte>)
    requires fs.Valid() && (blocks != [] ==> fs.available && InRange(blocks, fs.geo.blocks))
    ensures |buf| == if off < BLOCK_SIZE * |blocks| then Min(size, BLOCK_SIZE * |blocks| - off) else 0
    ensures |buf| > 0 ==> buf == Content(fs.view.data, blocks)[off..off + |buf|]
  {
    buf := [];
    while |buf| < size && (off + |buf|) / BLOCK_SIZE < |blocks|
      invariant |buf| <= size
      invariant |buf| > 0 ==>
        off + |buf| <= BLOCK_SIZE * |blocks| && buf == Content(fs.view.data, blocks)[off..off + |buf|]
    {
      var data := ReadPass(fs, blocks, off + |buf|, size - |buf|);
      buf := buf + data;
    }
  }

  /** Overwrites part of block `k` of the list, reading it first unless it is replaced whole. */
  method PatchBlock(fs: BlockFs, blocks: seq<u32>, k: nat, boff: nat, src: seq<byte>)
    requires fs.Valid() && fs.available && InRange(blocks, fs.geo.blocks) && NoDup(blocks)
    requires k < |blocks| && boff + |src| <= BLOCK_SIZE
    modifies fs.disk, fs`view
    ensures fs.Valid() && |fs.disk.sectors| == old(|fs.disk.sectors|)
    ensures OutsideKept(true, fs.geo, old(fs.disk.Bytes()), fs.disk.Bytes())
    ensures Rewritten(old(fs.view), fs.view, blocks)
    ensures Content(fs.view.data, blocks) ==
      Splice(Content(old(fs.view).data, blocks), BLOCK_SIZE * k + boff, src)
  {
    var blk: seq<byte> := src;
    if |src| != BLOCK_SIZE {
      var ok, was := fs.ReadBlock(blocks[k]);
      blk := Splice(was, boff, src);
    }
    PatchContent(fs.view.data, blocks, k, boff, src, blk);
    var ok := fs.WriteBlock(blocks[k], blk);
  }

  /** The state of the copy loop of `diskfile_write` when `done` bytes are stored. */
  ghost predicate Stored(s: Store, s': Store, blocks: seq<u32>, off: nat, buf: seq<byte>, done: nat) {
    && InRange(blocks, |s.data|) && off + |buf| <= BLOCK_SIZE * |blocks| && done <= |buf|
    && Rewritten(s, s', blocks)
    && Content(s'.data, blocks) == Splice(Content(s.data, blocks), off, buf[..done])
  }

  lemma StoredNext(s: Store, s1: Store, s2: Store, blocks: seq<u32>, off: nat, buf: seq<byte>, done: nat, n: nat)
    requires Stored(s, s1, blocks, off, buf, done) && done + n <= |buf|
    requires Rewritten(s1, s2, blocks)
    requires Content(s2.data, blocks) == Splice(Content(s1.data, blocks), off + done, buf[done..done + n])
    ensures Stored(s, s2, blocks, off, buf, done + n)
  {
    SpliceNext(Content(s.data, blocks), off, buf, done, done + n);
  }

  /** One pass of that loop. */
  method WritePass(fs: BlockFs, blocks: seq<u32>, off: nat, buf: seq<byte>, done: nat, ghost s: Store)
    returns (chunk: nat)
    requires fs.Valid() && fs.available && InRange(blocks, fs.geo.blocks) && NoDup(blocks)
    requires Stored(s, fs.view, blocks, off, buf, done) && done < |buf|
    modifies fs.disk, fs`view
    ensures fs.Valid() && |fs.disk.sectors| == old(|fs.disk.sectors|)
    ensures OutsideKept(true, fs.geo, old(fs.disk.Bytes()), fs.disk.Bytes())
    ensures 0 < chunk <= |buf| - done
    ensures Stored(s, fs.view, blocks, off, buf, done + chunk)
  {
    var pos := off + done;
    var bindex, boff := pos / BLOCK_SIZE, pos % BLOCK_SIZE;
    chunk := BLOCK_SIZE - boff;
    if chunk > |buf| - done { chunk := |buf| - done; }
    ghost var before := fs.view;
    PatchBlock(fs, blocks, bindex, boff, buf[done..done + chunk]);
    StoredNext(s, before, fs.view, blocks, off, buf, done, chunk);
  }

  lemma PatchContent(data: seq<Block>, blocks: seq<u32>, k: nat, boff: nat, src: seq<byte>, blk: Block)
    requires InRange(blocks, |data|) && NoDup(blocks) && k < |blocks| && boff + |src| <= BLOCK_SIZE
    requires blk == Splice(data[blocks[k]], boff, src) || (blk == src && boff == 0)
    ensures Content(data[blocks[k] := blk], blocks) == Splice(Content(data, blocks), BLOCK_SIZE * k + boff, src)
  {
    ContentAt(data, blocks, k);
    ContentUpdate(data, blocks, k, blk);
    SpliceWindow(Content(data, blocks), BLOCK_SIZE * k, BLOCK_SIZE * (k + 1), boff, src);
    assert |src| == BLOCK_SIZE ==> blk == src;
  }

  /** Only blocks of the list may differ, and no block changes hands. */
  ghost predicate Rewritten(s: Store, s': Store, blocks: seq<u32>) {
    && s'.used == s.used && |s'.data| == |s.data|
    && forall b: u32 :: b < |s.data| && b !in blocks ==> s'.data[b] == s.data[b]
  }

  /** The copy loop of `diskfile_write`: exactly `[off, off + |buf|)` is replaced. */
  method WriteSpan(fs: BlockFs, blocks: seq<u32>, off: nat, buf: seq<byte>)
    requires fs.Valid() && NoDup(blocks) && off + |buf| <= BLOCK_SIZE * |blocks|
    requires blocks != [] ==> fs.available && InRange(blocks, fs.geo.blocks)
    modifies fs.disk, fs`view
    ensures fs.Valid() && |fs.disk.sectors| == old(|fs.disk.sectors|)
    ensures OutsideKept(fs.available, fs.geo, old(fs.disk.Bytes()), fs.disk.Bytes())
    ensures Rewritten(old(fs.view), fs.view, blocks) && InRange(blocks, |fs.view.data|)
    ensures Content(fs.view.data, blocks) == Splice(Content(old(fs.view).data, blocks), off, buf)
  {
    ghost var s, was := fs.view, fs.disk.Bytes();
    var done := 0;
    assert Stored(s, s, blocks, off, buf, 0);
    while done < |buf|
      invariant 0 <= done <= |buf| && fs.Valid() && |fs.disk.sectors| == old(|fs.disk.sectors|)
      invariant OutsideKept(fs.available, fs.geo, was, fs.disk.Bytes())
      invariant Stored(s, fs.view, blocks, off, buf, done)
    {
      var chunk := WritePass(fs, blocks, off, buf, done, s);
      done := done + chunk;
    }
    assert buf[..done] == buf;
  }
}
