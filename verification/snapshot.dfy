/** The on-disk image of the tree (fs/diskfs.c, format version 2): records in preorder, each
    naming its parent by index. */
module SnapshotFormat {
  import opened Bytes
  import FileState

  const MAGIC: u32 := 0x5346_4B4D
  const VERSION: u32 := 2
  const MAX_NODES: nat := 16384
  const MAX_IMAGE: nat := 64 * 1024 * 1024

  datatype Payload = Inline(bytes: seq<byte>) | InBlocks(blocks: seq<u32>)

  /** What is saved of a node. */
  datatype Meta = Meta(kind: u32, perms: u32, uid: u32, gid: u32, size: u32, name: seq<byte>, payload: Payload)

  datatype Record = Record(parent: int, meta: Meta)

  /** An ordered forest, first child and next sibling. */
  datatype Forest = Empty | Grove(meta: Meta, kids: Forest, next: Forest)

  predicate MetaOk(m: Meta) {
    && |m.name| < FileState.VFS_NAME_MAX
    && (m.payload.Inline? ==> |m.payload.bytes| == m.size)
    && (m.payload.InBlocks? ==> |m.payload.blocks| < U32_LIMIT)
  }

  predicate RecordOk(r: Record) {
    -1 <= r.parent < MAX_NODES && MetaOk(r.meta)
  }

  // ---- words ----

  function EncodeWords(ws: seq<u32>): (r: seq<byte>)
    ensures |r| == 4 * |ws|
  {
    if ws == [] then [] else EncodeU32(ws[0]) + EncodeWords(ws[1..])
  }

  function DecodeWords(s: seq<byte>, off: nat, n: nat): (r: seq<u32>)
    requires off + 4 * n <= |s|
  {
    seq(n, j requires 0 <= j < n => DecodeU32(s, off + 4 * j))
  }

  lemma {:induction false} WordAt(ws: seq<u32>, s: seq<byte>, off: nat, k: nat)
    requires k < |ws| && off + 4 * |ws| <= |s| && s[off..off + 4 * |ws|] == EncodeWords(ws)
    ensures DecodeU32(s, off + 4 * k) == ws[k]
  {
    var e := s[off..off + 4 * |ws|];
    if k == 0 {
      assert s[off..off + 4] == e[..4] == EncodeU32(ws[0]);
      U32RoundTrip(ws[0], s, off);
    } else {
      assert s[off + 4..off + 4 + 4 * |ws[1..]|] == e[4..] == EncodeWords(ws[1..]);
      WordAt(ws[1..], s, off + 4, k - 1);
    }
  }

  lemma {:induction false} EncodeWordsAppend(a: seq<u32>, b: seq<u32>)
    ensures EncodeWords(a + b) == EncodeWords(a) + EncodeWords(b)
  {
    if a == [] {
      assert a + b == b;
    } else {
      EncodeWordsAppend(a[1..], b);
      EncodeWordsFirst(a[0], a[1..]);
      EncodeWordsFirst(a[0], a[1..] + b);
      assert a == [a[0]] + a[1..] && a + b == [a[0]] + (a[1..] + b);
      Associates(EncodeU32(a[0]), EncodeWords(a[1..]), EncodeWords(b));
    }
  }

  lemma EncodeWordsFirst(w: u32, ws: seq<u32>)
    ensures EncodeWords([w] + ws) == EncodeU32(w) + EncodeWords(ws)
  {
    assert ([w] + ws)[1..] == ws;
  }

  lemma Associates<T>(a: seq<T>, b: seq<T>, c: seq<T>)
    ensures a + (b + c) == (a + b) + c
  {
  }

  lemma {:induction false} WordsRoundTrip(ws: seq<u32>, s: seq<byte>, off: nat)
    requires off + 4 * |ws| <= |s| && s[off..off + 4 * |ws|] == EncodeWords(ws)
    ensures DecodeWords(s, off, |ws|) == ws
  {
    forall k | 0 <= k < |ws| ensures DecodeWords(s, off, |ws|)[k] == ws[k] {
      WordAt(ws, s, off, k);
    }
  }

  // ---- records ----

  function ParentWord(parent: int): (r: u32)
    requires -1 <= parent < MAX_NODES
  {
    if parent < 0 then 0xFFFF_FFFF else parent
  }

  function SignedWord(w: u32): (r: int)
    ensures -0x8000_0000 <= r < 0x8000_0000 && (r - w) % U32_LIMIT == 0
  {
    if w < 0x8000_0000 then w else w - U32_LIMIT
  }

  function HeaderWords(r: Record): (ws: seq<u32>)
    requires RecordOk(r)
    ensures |ws| == 8
  {
    var m := r.meta;
    [ParentWord(r.parent), m.kind, m.perms, m.uid, m.gid, m.size, |m.name|, if m.payload.InBlocks? then 1 else 0]
  }

  function EncodePayload(p: Payload): seq<byte>
    requires p.InBlocks? ==> |p.blocks| < U32_LIMIT
  {
    match p
    case Inline(bytes) => bytes
    case InBlocks(blocks) => EncodeWords([|blocks|] + blocks)
  }

  /** One record as `serialize_node` appends it. */
  function Encode(r: Record): (s: seq<byte>)
    requires RecordOk(r)
    ensures |s| >= 32
  {
    EncodeWords(HeaderWords(r)) + r.meta.name + EncodePayload(r.meta.payload)
  }

  datatype Parsed = Parsed(record: Record, next: nat)

  /** The payload part of one pass of the loop in `diskfs_load`. */
  function ParsePayload(img: seq<byte>, off: nat, limit: nat, flags: u32, size: u32): (r: Option<(Payload, nat)>)
    requires limit <= |img|
    ensures r.Some? ==> off <= r.value.1 <= limit || off > limit
  {
    if flags % 2 == 1 then
      if off + 4 > limit then None else
      var bc := DecodeU32(img, off);
      if off + 4 + 4 * (bc as int) > limit then None else
      Some((InBlocks(DecodeWords(img, off + 4, bc)), off + 4 + 4 * bc))
    else if size > 0 then
      if off + size > limit then None else Some((Inline(img[off..off + size]), off + size))
    else Some((Inline([]), off))
  }

  /** The name and payload behind a header that has been read. */
  function ParseBody(img: seq<byte>, o: nat, limit: nat, ws: seq<u32>): (r: Option<Parsed>)
    requires limit <= |img| && |ws| == 8
  {
    if o + ws[6] > limit || ws[6] >= FileState.VFS_NAME_MAX then None else
    var p := ParsePayload(img, o + ws[6], limit, ws[7], ws[5]);
    if p.None? then None else
    Some(Parsed(
      Record(SignedWord(ws[0]), Meta(ws[1], ws[2], ws[3], ws[4], ws[5], img[o..o + ws[6]], p.value.0)),
      p.value.1))
  }

  /** One pass of the loop in `diskfs_load`: the record at `off` and the offset behind it, or
      nothing when a bounds check fails. */
  function ParseRecord(img: seq<byte>, off: nat, limit: nat): (r: Option<Parsed>)
    requires limit <= |img|
  {
    if off + 32 > limit then None else ParseBody(img, off + 32, limit, DecodeWords(img, off, 8))
  }

  /** Which records the loader accepts: name and payload must fit. */
  lemma ParseMeans(img: seq<byte>, off: nat, limit: nat)
    requires off + 32 <= limit <= |img|
    ensures var n, size, flags := DecodeU32(img, off + 24), DecodeU32(img, off + 20), DecodeU32(img, off + 28);
      var q := off + 32 + n;
      ParseRecord(img, off, limit).Some?
      <==> n < 64 && q <= limit && if flags % 2 == 1 then BlocksFit(img, q, limit) else q + size <= limit
  {
    var ws := DecodeWords(img, off, 8);
    HeaderWordsAt(img, off, ws);
    PayloadMeans(img, off + 32 + ws[6], limit, ws[7], ws[5]);
  }

  /** And what it reads of them. */
  lemma ParseFields(img: seq<byte>, off: nat, limit: nat)
    requires off + 32 <= limit <= |img| && ParseRecord(img, off, limit).Some?
    ensures var n, size, flags := DecodeU32(img, off + 24), DecodeU32(img, off + 20), DecodeU32(img, off + 28);
      var q, p := off + 32 + n, ParseRecord(img, off, limit).value;
      && q <= limit && FieldsRead(img, off, p.record) && p.record.meta.name == img[off + 32..q]
      && if flags % 2 == 1 then BlocksRead(img, q, p)
         else q + size <= limit && p.record.meta.payload == Inline(img[q..q + size]) && p.next == q + size
  {
    var ws := DecodeWords(img, off, 8);
    HeaderWordsAt(img, off, ws);
    PayloadMeans(img, off + 32 + ws[6], limit, ws[7], ws[5]);
  }

  lemma HeaderWordsAt(img: seq<byte>, off: nat, ws: seq<u32>)
    requires off + 32 <= |img| && ws == DecodeWords(img, off, 8)
    ensures ws[0] == DecodeU32(img, off) && ws[1] == DecodeU32(img, off + 4) && ws[2] == DecodeU32(img, off + 8)
    ensures ws[3] == DecodeU32(img, off + 12) && ws[4] == DecodeU32(img, off + 16) && ws[5] == DecodeU32(img, off + 20)
    ensures ws[6] == DecodeU32(img, off + 24) && ws[7] == DecodeU32(img, off + 28)
  {
  }

  lemma PayloadMeans(img: seq<byte>, q: nat, limit: nat, flags: u32, size: u32)
    requires limit <= |img|
    ensures var p := ParsePayload(img, q, limit, flags, size);
      && (q <= limit ==> (p.Some? <==> if flags % 2 == 1 then BlocksFit(img, q, limit) else q + size <= limit))
      && (q <= limit && p.Some? && flags % 2 == 0 ==> p.value == (Inline(img[q..q + size]), q + size))
      && (q <= limit && p.Some? && flags % 2 == 1 ==>
            p.value == (InBlocks(DecodeWords(img, q + 4, DecodeU32(img, q))), q + 4 + 4 * DecodeU32(img, q)))
  {
    if q <= limit && size == 0 { assert img[q..q + size] == []; }
  }

  /** A list of blocks lies in the image: their number, then each of them. */
  predicate BlocksFit(img: seq<byte>, q: nat, limit: nat)
    requires limit <= |img|
  {
    q + 4 <= limit && q + 4 + 4 * DecodeU32(img, q) <= limit
  }

  ghost predicate BlocksRead(img: seq<byte>, q: nat, p: Parsed) {
    && p.record.meta.payload.InBlocks? && BlocksFit(img, q, |img|)
    && var blocks := p.record.meta.payload.blocks;
    && |blocks| == DecodeU32(img, q) && p.next == q + 4 + 4 * |blocks|
    && forall j :: 0 <= j < |blocks| ==> blocks[j] == DecodeU32(img, q + 4 + 4 * j)
  }

  ghost predicate FieldsRead(img: seq<byte>, off: nat, r: Record) {
    && off + 32 <= |img| && r.parent == SignedWord(DecodeU32(img, off)) && r.meta.kind == DecodeU32(img, off + 4)
    && r.meta.perms == DecodeU32(img, off + 8) && r.meta.uid == DecodeU32(img, off + 12)
    && r.meta.gid == DecodeU32(img, off + 16) && r.meta.size == DecodeU32(img, off + 20)
  }

  lemma {:induction false} ParseEncodedPayload(m: Meta, img: seq<byte>, off: nat, limit: nat)
    requires MetaOk(m)
    requires off + |EncodePayload(m.payload)| <= limit <= |img|
    requires img[off..off + |EncodePayload(m.payload)|] == EncodePayload(m.payload)
    ensures ParsePayload(img, off, limit, if m.payload.InBlocks? then 1 else 0, m.size)
            == Some((m.payload, off + |EncodePayload(m.payload)|))
  {
    if m.payload.InBlocks? {
      var blocks := m.payload.blocks;
      var ws: seq<u32> := [|blocks|] + blocks;
      WordAt(ws, img, off, 0);
      assert ws[1..] == blocks;
      assert img[off + 4..off + 4 + 4 * |blocks|] == img[off..off + 4 * |ws|][4..] == EncodeWords(blocks);
      WordsRoundTrip(blocks, img, off + 4);
    }
  }

  lemma {:induction false} ParseEncodedBody(r: Record, img: seq<byte>, o: nat, limit: nat)
    requires RecordOk(r)
    requires var m := r.meta; var q := o + |m.name|;
      && q + |EncodePayload(m.payload)| <= limit <= |img|
      && img[o..q] == m.name && img[q..q + |EncodePayload(m.payload)|] == EncodePayload(m.payload)
    ensures ParseBody(img, o, limit, HeaderWords(r))
            == Some(Parsed(r, o + |r.meta.name| + |EncodePayload(r.meta.payload)|))
  {
    ParseEncodedPayload(r.meta, img, o + |r.meta.name|, limit);
  }

  /** The bytes of record `r` lie at `off`, below `limit`, and end at `next`. */
  ghost predicate EncodedAt(r: Record, img: seq<byte>, off: nat, limit: nat, next: nat) {
    RecordOk(r) && next == off + |Encode(r)| && next <= limit <= |img| && img[off..next] == Encode(r)
  }

  ghost predicate ParsesTo(r: Record, img: seq<byte>, off: nat, limit: nat, next: nat) {
    limit <= |img| && ParseRecord(img, off, limit) == Some(Parsed(r, next))
  }

  /** Parsing undoes encoding, at any place of any image. */
  lemma {:induction false} ParseEncoded(r: Record, img: seq<byte>, off: nat, limit: nat, next: nat)
    requires EncodedAt(r, img, off, limit, next)
    ensures ParsesTo(r, img, off, limit, next)
  {
    var ws, q := HeaderWords(r), off + 32 + |r.meta.name|;
    EncodedParts(r, img, off, limit, next, ws, q);
    ParseParts(r, img, off, limit, next, ws, q);
  }

  lemma {:induction false} ParseParts(r: Record, img: seq<byte>, off: nat, limit: nat, next: nat, ws: seq<u32>, q: nat)
    requires RecordOk(r) && ws == HeaderWords(r) && q == off + 32 + |r.meta.name|
    requires q + |EncodePayload(r.meta.payload)| == next <= limit <= |img| && DecodeWords(img, off, 8) == ws
    requires img[off + 32..q] == r.meta.name && img[q..next] == EncodePayload(r.meta.payload)
    ensures ParsesTo(r, img, off, limit, next)
  {
    ParseEncodedBody(r, img, off + 32, limit);
  }

  /** The header words, the name and the payload lie one after the other. */
  lemma {:induction false} EncodedParts(r: Record, img: seq<byte>, off: nat, limit: nat, next: nat, ws: seq<u32>,
                                        q: nat)
    requires EncodedAt(r, img, off, limit, next) && ws == HeaderWords(r) && q == off + 32 + |r.meta.name|
    ensures q + |EncodePayload(r.meta.payload)| == next && off + 32 <= |img| && DecodeWords(img, off, 8) == ws
    ensures img[off + 32..q] == r.meta.name && img[q..next] == EncodePayload(r.meta.payload)
  {
    var h, name, p := EncodeWords(ws), r.meta.name, EncodePayload(r.meta.payload);
    Parts(img, off, h + name, p);
    Parts(img, off, h, name);
    WordsRoundTrip(ws, img, off);
  }

  /** The bytes of a record: eight words (index of the parent, type, permissions, owner, group, size, length of the
      name, flags), the name, then the bytes of a file in RAM, or the number of blocks and each of them. */
  lemma RecordBytes(r: Record, k: nat)
    requires RecordOk(r)
    ensures var e, m, n := Encode(r), r.meta, |r.meta.name|;
      && |e| == 32 + n + |EncodePayload(m.payload)|
      && DecodeU32(e, 0) == (if r.parent == -1 then 0xFFFF_FFFF else r.parent)
      && DecodeU32(e, 4) == m.kind && DecodeU32(e, 8) == m.perms && DecodeU32(e, 12) == m.uid
      && DecodeU32(e, 16) == m.gid && DecodeU32(e, 20) == m.size && DecodeU32(e, 24) == n
      && DecodeU32(e, 28) == (if m.payload.InBlocks? then 1 else 0)
      && e[32..32 + n] == m.name
      && (m.payload.Inline? ==> e[32 + n..] == m.payload.bytes)
      && (m.payload.InBlocks? ==> |e| == 36 + n + 4 * |m.payload.blocks|)
      && (m.payload.InBlocks? ==> DecodeU32(e, 32 + n) == |m.payload.blocks|)
      && (m.payload.InBlocks? && k < |m.payload.blocks| ==> DecodeU32(e, 36 + n + 4 * k) == m.payload.blocks[k])
  {
    var e, n, ws := Encode(r), |r.meta.name|, HeaderWords(r);
    EncodedParts(r, e, 0, |e|, |e|, ws, 32 + n);
    HeaderAt(e, ws);
    if r.meta.payload.InBlocks? { BlocksAt(r.meta.payload.blocks, e, 32 + n, k); }
  }

  lemma HeaderAt(e: seq<byte>, ws: seq<u32>)
    requires |ws| == 8 && |e| >= 32 && DecodeWords(e, 0, 8) == ws
    ensures DecodeU32(e, 0) == ws[0] && DecodeU32(e, 4) == ws[1] && DecodeU32(e, 8) == ws[2]
    ensures DecodeU32(e, 12) == ws[3] && DecodeU32(e, 16) == ws[4] && DecodeU32(e, 20) == ws[5]
    ensures DecodeU32(e, 24) == ws[6] && DecodeU32(e, 28) == ws[7]
  {
    var ds := DecodeWords(e, 0, 8);
    assert ds[0] == ws[0] && ds[1] == ws[1] && ds[2] == ws[2] && ds[3] == ws[3];
    assert ds[4] == ws[4] && ds[5] == ws[5] && ds[6] == ws[6] && ds[7] == ws[7];
  }

  lemma BlocksAt(blocks: seq<u32>, e: seq<byte>, at: nat, k: nat)
    requires |blocks| < U32_LIMIT && at <= |e| && e[at..] == EncodePayload(InBlocks(blocks))
    ensures |e| == at + 4 + 4 * |blocks| && DecodeU32(e, at) == |blocks|
    ensures k < |blocks| ==> DecodeU32(e, at + 4 + 4 * k) == blocks[k]
  {
    var ws: seq<u32> := [|blocks|] + blocks;
    assert e[at..at + 4 * |ws|] == e[at..];
    WordAt(ws, e, at, 0);
    if k < |blocks| { WordAt(ws, e, at, k + 1); }
  }

  ghost predicate RecordsOk(rs: seq<Record>) {
    forall i :: 0 <= i < |rs| ==> RecordOk(rs[i])
  }

  function EncodeAll(rs: seq<Record>): (s: seq<byte>)
    requires RecordsOk(rs)
  {
    if rs == [] then [] else EncodeAll(rs[..|rs| - 1]) + Encode(rs[|rs| - 1])
  }

  lemma {:induction false} EncodeAllAppend(a: seq<Record>, b: seq<Record>)
    requires RecordsOk(a) && RecordsOk(b)
    ensures RecordsOk(a + b) && EncodeAll(a + b) == EncodeAll(a) + EncodeAll(b)
    decreases |b|
  {
    if b == [] {
      assert a + b == a;
    } else {
      var c, r := b[..|b| - 1], b[|b| - 1];
      assert b == c + [r] && a + b == (a + c) + [r];
      EncodeAllAppend(a, c);
      EncodeAllLast(c, r);
      EncodeAllLast(a + c, r);
      Associates(EncodeAll(a), EncodeAll(c), Encode(r));
    }
  }

  lemma {:induction false} EncodeAllLast(rs: seq<Record>, r: Record)
    requires RecordsOk(rs) && RecordOk(r)
    ensures RecordsOk(rs + [r]) && EncodeAll(rs + [r]) == EncodeAll(rs) + Encode(r)
  {
    assert (rs + [r])[..|rs|] == rs;
  }

  /** The superblock. */
  function Superblock(count: u32, length: u32): (s: seq<byte>)
    ensures |s| == 16
  {
    EncodeWords([MAGIC, VERSION, count, length])
  }

  /** The whole image of a list of records. */
  function Image(rs: seq<Record>): (s: seq<byte>)
    requires RecordsOk(rs) && |rs| <= MAX_NODES && 16 + |EncodeAll(rs)| < U32_LIMIT
  {
    Superblock(|rs|, 16 + |EncodeAll(rs)|) + EncodeAll(rs)
  }

  /** Where the `i`-th record of an image starts. */
  function RecordOffset(rs: seq<Record>, i: nat): nat
    requires RecordsOk(rs) && i <= |rs|
  {
    16 + |EncodeAll(rs[..i])|
  }

  lemma {:induction false} RecordOffsetNext(rs: seq<Record>, i: nat)
    requires RecordsOk(rs) && i < |rs|
    ensures RecordOffset(rs, i + 1) == RecordOffset(rs, i) + |Encode(rs[i])|
    ensures EncodeAll(rs) == EncodeAll(rs[..i]) + Encode(rs[i]) + EncodeAll(rs[i + 1..])
  {
    var pre, suf := rs[..i + 1], rs[i + 1..];
    assert rs == pre + suf && pre[..i] == rs[..i];
    EncodeAllAppend(pre, suf);
  }

  ghost predicate ImageFits(rs: seq<Record>) {
    RecordsOk(rs) && |rs| <= MAX_NODES && 16 + |EncodeAll(rs)| < U32_LIMIT
  }

  /** Every record of an image parses, at the offset where the previous one ended. */
  lemma {:induction false} ParseImage(rs: seq<Record>, img: seq<byte>, i: nat)
    requires ImageFits(rs) && Image(rs) <= img && i < |rs|
    ensures ParsesTo(rs[i], img, RecordOffset(rs, i), |Image(rs)|, RecordOffset(rs, i + 1))
  {
    RecordInImage(rs, img, i);
    ParseEncoded(rs[i], img, RecordOffset(rs, i), |Image(rs)|, RecordOffset(rs, i + 1));
  }

  lemma {:induction false} RecordInImage(rs: seq<Record>, img: seq<byte>, i: nat)
    requires ImageFits(rs) && Image(rs) <= img && i < |rs|
    ensures EncodedAt(rs[i], img, RecordOffset(rs, i), |Image(rs)|, RecordOffset(rs, i + 1))
  {
    var all, e := EncodeAll(rs), Encode(rs[i]);
    var before, rest := EncodeAll(rs[..i]), EncodeAll(rs[i + 1..]);
    assert all == before + e + rest && RecordOffset(rs, i + 1) == 16 + |before| + |e| by {
      RecordOffsetNext(rs, i);
    }
    ImageParts(img, Image(rs), Superblock(|rs|, 16 + |all|), all, before, e, rest);
  }

  lemma {:induction false} ImageParts(img: seq<byte>, image: seq<byte>, sb: seq<byte>, all: seq<byte>,
                   before: seq<byte>, e: seq<byte>, rest: seq<byte>)
    requires image <= img && image == sb + all && all == before + e + rest
    ensures |sb| + |before| + |e| <= |image|
    ensures img[|sb| + |before|..|sb| + |before| + |e|] == e
  {
    Parts(all, 0, before, e + rest);
    Parts(all, |before|, e, rest);
    Parts(image, 0, sb, all);
    assert img[|sb| + |before|..|sb| + |before| + |e|] == image[|sb|..|sb| + |all|][|before|..|before| + |e|];
  }

  lemma {:induction false} ParseSuperblock(count: u32, length: u32, img: seq<byte>)
    requires Superblock(count, length) <= img
    ensures img[..4] == [0x4D, 0x4B, 0x46, 0x53] && DecodeU32(img, 0) == MAGIC && DecodeU32(img, 4) == 2 == VERSION
    ensures DecodeU32(img, 8) == count && DecodeU32(img, 12) == length
  {
    var ws: seq<u32> := [MAGIC, VERSION, count, length];
    assert img[0..16] == EncodeWords(ws);
    WordAt(ws, img, 0, 0);
    WordAt(ws, img, 0, 1);
    WordAt(ws, img, 0, 2);
    WordAt(ws, img, 0, 3);
    assert img[..4] == EncodeWords(ws)[..4] == EncodeU32(MAGIC);
  }
}
