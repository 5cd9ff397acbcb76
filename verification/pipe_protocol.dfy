/** The ring buffer of an in-memory pipe (fs/pipe.c), as a value. */
module PipeRing {
  import opened Bytes

  const SIZE: nat := 4096

  datatype Ring = Ring(buf: seq<byte>, head: nat, tail: nat, used: nat)

  predicate RingOk(r: Ring) {
    |r.buf| == SIZE && r.head < SIZE && r.used <= SIZE && r.tail == (r.head + r.used) % SIZE
  }

  /** The bytes waiting to be read, oldest first. */
  ghost function Contents(r: Ring): (q: seq<byte>)
    requires RingOk(r)
    ensures |q| == r.used
  {
    seq(r.used, i requires 0 <= i < r.used => r.buf[(r.head + i) % SIZE])
  }

  const EMPTY: Ring := Ring(Zeros(SIZE), 0, 0, 0)

  function PutByte(r: Ring, b: byte): Ring
    requires r.tail < |r.buf|
  {
    r.(buf := r.buf[r.tail := b], tail := (r.tail + 1) % SIZE, used := r.used + 1)
  }

  function TakeByte(r: Ring): Ring
    requires r.used > 0
  {
    r.(head := (r.head + 1) % SIZE, used := r.used - 1)
  }

  /** A byte put into the ring comes behind all others. */
  lemma PutAppends(r: Ring, b: byte)
    requires RingOk(r) && r.used < SIZE
    ensures RingOk(PutByte(r, b)) && Contents(PutByte(r, b)) == Contents(r) + [b]
  {
    var r' := PutByte(r, b);
    assert RingOk(r');
    forall i | 0 <= i < r.used ensures Contents(r')[i] == Contents(r)[i] {
      assert (r.head + i) % SIZE != r.tail;
    }
  }

  /** The byte at the head is the oldest one. */
  lemma TakeRemoves(r: Ring)
    requires RingOk(r) && r.used > 0
    ensures RingOk(TakeByte(r)) && Contents(r) == [r.buf[r.head]] + Contents(TakeByte(r))
  {
    var r' := TakeByte(r);
    forall i | 0 <= i < r'.used ensures Contents(r)[i + 1] == Contents(r')[i] {
      assert (r'.head + i) % SIZE == (r.head + (i + 1)) % SIZE;
    }
  }
}

/** A reader and a writer at the two ends of one pipe (fs/pipe.c), stepping in any order. A call
    is a sequence of steps, each of which moves at most one byte; another step of the other side
    may come between any two, so every schedule of the real calls is among the runs. */
module PipeProtocol {
  import opened Bytes
  import opened PipeRing

  /** Where `pipe_read` stands: at the head of its loop, or with `left` bytes of a chunk to copy. */
  datatype Reader = NotReading | ReadLoop(len: nat, got: seq<byte>) | ReadCopy(len: nat, got: seq<byte>, left: nat)
  datatype Writer = NotWriting | WriteLoop(src: seq<byte>, sent: nat) | WriteCopy(src: seq<byte>, sent: nat, left: nat)

  /** `delivered` and `accepted` are all bytes that finished reads and writes have reported. */
  datatype State = State(ring: Ring, writeClosed: bool, readClosed: bool, r: Reader, w: Writer,
                         delivered: seq<byte>, accepted: seq<byte>)

  const FRESH: State := State(EMPTY, false, false, NotReading, NotWriting, [], [])

  datatype Act = CallRead(len: nat) | Read | CloseRead | CallWrite(src: seq<byte>) | Write | CloseWrite

  /** The callers make one call at a time, and none on an end that they have closed. */
  ghost predicate Enabled(s: State, a: Act) {
    match a
    case CallRead(_) => s.r.NotReading? && !s.readClosed
    case CloseRead => s.r.NotReading? && !s.readClosed
    case Read => !s.r.NotReading?
    case CallWrite(_) => s.w.NotWriting? && !s.writeClosed
    case CloseWrite => s.w.NotWriting? && !s.writeClosed
    case Write => !s.w.NotWriting?
  }

  predicate ReaderOk(s: State) {
    match s.r
    case NotReading => true
    case ReadLoop(len, got) => |got| <= len && !s.readClosed
    case ReadCopy(len, got, left) => |got| + left <= len && left <= s.ring.used && !s.readClosed
  }

  predicate WriterOk(s: State) {
    match s.w
    case NotWriting => true
    case WriteLoop(src, sent) => sent <= |src| && !s.writeClosed
    case WriteCopy(src, sent, left) => sent + left <= |src| && left <= SIZE - s.ring.used && !s.writeClosed
  }

  /** Cursors and chunk counts are in bounds; every reachable state is of this shape. */
  predicate Shape(s: State) {
    RingOk(s.ring) && ReaderOk(s) && WriterOk(s)
  }

  /** One step of `pipe_read`; waiting in `schedule` changes nothing. */
  function ReadStep(s: State): State
    requires Shape(s)
  {
    match s.r
    case NotReading => s
    case ReadLoop(len, got) =>
      if |got| >= len || (s.ring.used == 0 && s.writeClosed) then
        s.(r := NotReading, delivered := s.delivered + got)
      else if s.ring.used == 0 then s
      else s.(r := ReadCopy(len, got, Min(s.ring.used, len - |got|)))
    case ReadCopy(len, got, left) =>
      if left == 0 then s.(r := ReadLoop(len, got))
      else s.(ring := TakeByte(s.ring), r := ReadCopy(len, got + [s.ring.buf[s.ring.head]], left - 1))
  }

  /** One step of `pipe_write`. */
  function WriteStep(s: State): State
    requires Shape(s)
  {
    match s.w
    case NotWriting => s
    case WriteLoop(src, sent) =>
      if sent >= |src| || (s.ring.used == SIZE && s.readClosed) then
        s.(w := NotWriting, accepted := s.accepted + src[..sent])
      else if s.ring.used == SIZE then s
      else s.(w := WriteCopy(src, sent, Min(SIZE - s.ring.used, |src| - sent)))
    case WriteCopy(src, sent, left) =>
      if left == 0 then s.(w := WriteLoop(src, sent))
      else s.(ring := PutByte(s.ring, src[sent]), w := WriteCopy(src, sent + 1, left - 1))
  }

  /** Bytes an unfinished call has moved so far. */
  function Got(r: Reader): seq<byte> {
    if r.NotReading? then [] else r.got
  }

  function Sent(w: Writer): seq<byte>
    requires !w.NotWriting? ==> w.sent <= |w.src|
  {
    if w.NotWriting? then [] else w.src[..w.sent]
  }

  /** Bytes written are bytes read followed by the bytes in the ring. */
  ghost predicate Inv(s: State) {
    && Shape(s)
    && s.accepted + Sent(s.w) == s.delivered + Got(s.r) + Contents(s.ring)
  }

  function Next(s: State, a: Act): State
    requires Shape(s)
  {
    match a
    case CallRead(len) => s.(r := ReadLoop(len, []))
    case Read => ReadStep(s)
    case CloseRead => s.(readClosed := true)
    case CallWrite(src) => if s.readClosed then s else s.(w := WriteLoop(src, 0))
    case Write => WriteStep(s)
    case CloseWrite => s.(writeClosed := true)
  }

  lemma ReadKeeps(s: State)
    requires Inv(s)
    ensures Inv(ReadStep(s))
  {
    if s.r.ReadCopy? && s.r.left > 0 {
      TakeRemoves(s.ring);
      var b := [s.ring.buf[s.ring.head]];
      assert s.delivered + (s.r.got + b) + Contents(TakeByte(s.ring))
        == s.delivered + s.r.got + (b + Contents(TakeByte(s.ring)));
    }
  }

  lemma WriteKeeps(s: State)
    requires Inv(s)
    ensures Inv(WriteStep(s))
  {
    if s.w.WriteCopy? && s.w.left > 0 {
      var src, sent := s.w.src, s.w.sent;
      PutAppends(s.ring, src[sent]);
      assert src[..sent + 1] == src[..sent] + [src[sent]];
      assert s.accepted + src[..sent] == s.delivered + Got(s.r) + Contents(s.ring);
      assert s.accepted + (src[..sent] + [src[sent]]) == s.accepted + src[..sent] + [src[sent]];
    }
  }

  /** Every step of either side keeps the order of bytes. */
  lemma StepKeeps(s: State, a: Act)
    requires Inv(s) && Enabled(s, a)
    ensures Inv(Next(s, a))
  {
    match a
    case Read => ReadKeeps(s);
    case Write => WriteKeeps(s);
    case _ =>
  }

  ghost predicate Step(s: State, a: Act, t: State) {
    Enabled(s, a) && Shape(s) && t == Next(s, a)
  }

  /** A run: `acts[i]` takes `run[i]` to `run[i + 1]`. */
  ghost predicate IsRun(run: seq<State>, acts: seq<Act>) {
    && |run| == |acts| + 1 && run[0] == FRESH
    && forall i :: 0 <= i < |acts| ==> Step(run[i], acts[i], run[i + 1])
  }

  lemma FreshInv()
    ensures Inv(FRESH)
  {
  }

  /** First in, first out, in every state of every interleaving. */
  lemma {:induction false} RunFifo(run: seq<State>, acts: seq<Act>, i: nat)
    requires IsRun(run, acts) && i < |run|
    ensures Inv(run[i])
  {
    if i == 0 {
      FreshInv();
    } else {
      RunFifo(run, acts, i - 1);
      assert Step(run[i - 1], acts[i - 1], run[i]);
      StepKeeps(run[i - 1], acts[i - 1]);
    }
  }

  // ---- what the callers asked for ----

  /** All bytes handed to `pipe_write`, call by call, and the total that `pipe_read` was asked for. */
  function Asked(acts: seq<Act>): (r: seq<byte>) {
    if acts == [] then [] else
    Asked(acts[..|acts| - 1]) + match acts[|acts| - 1] { case CallWrite(src) => src case _ => [] }
  }

  function Wanted(acts: seq<Act>): (r: nat) {
    if acts == [] then 0 else
    Wanted(acts[..|acts| - 1]) + match acts[|acts| - 1] { case CallRead(len) => len case _ => 0 }
  }

  /** The whole buffer of the write in progress, and the length of the read in progress. */
  function Source(w: Writer): seq<byte> { if w.NotWriting? then [] else w.src }
  function Length(r: Reader): nat { if r.NotReading? then 0 else r.len }

  /** Calls in progress and finished ones are what was asked for, unless the other end has closed. */
  ghost predicate Serves(s: State, asked: seq<byte>, wanted: nat) {
    && s.accepted + Source(s.w) <= asked && (!s.readClosed ==> s.accepted + Source(s.w) == asked)
    && |s.delivered| + Length(s.r) <= wanted && (!s.writeClosed ==> |s.delivered| + Length(s.r) == wanted)
  }

  lemma StepServes(s: State, a: Act, asked: seq<byte>, wanted: nat)
    requires Inv(s) && Enabled(s, a) && Serves(s, asked, wanted)
    ensures var bytes := match a { case CallWrite(src) => src case _ => [] };
      var len := match a { case CallRead(len) => len case _ => 0 };
      Serves(Next(s, a), asked + bytes, wanted + len)
  {
    var t := Next(s, a);
    assert asked + [] == asked && s.accepted + [] == s.accepted;
    if a.Write? && t.w.NotWriting? {
      assert s.w.src[..s.w.sent] <= s.w.src;
      assert t.accepted + [] == t.accepted;
      assert s.accepted + s.w.src[..s.w.sent] <= s.accepted + s.w.src;
      if s.w.sent == |s.w.src| { assert s.w.src[..s.w.sent] == s.w.src; }
    }
  }

  lemma {:induction false} RunServes(run: seq<State>, acts: seq<Act>, i: nat)
    requires IsRun(run, acts) && i < |run|
    ensures Inv(run[i]) && Serves(run[i], Asked(acts[..i]), Wanted(acts[..i]))
  {
    if i == 0 {
      FreshInv();
    } else {
      RunServes(run, acts, i - 1);
      assert Step(run[i - 1], acts[i - 1], run[i]);
      StepKeeps(run[i - 1], acts[i - 1]);
      assert acts[..i][..i - 1] == acts[..i - 1];
      StepServes(run[i - 1], acts[i - 1], Asked(acts[..i - 1]), Wanted(acts[..i - 1]));
    }
  }

  /** What readers have received is a prefix of all that was ever handed to `pipe_write`, and with nothing in
      progress or in the ring it is all of it, unless the reader has closed. Reads return no more than they
      asked for, and while the writer is open exactly that. */
  lemma RunDelivers(run: seq<State>, acts: seq<Act>, i: nat)
    requires IsRun(run, acts) && i < |run|
    ensures run[i].delivered <= Asked(acts[..i])
    ensures run[i].r.NotReading? && run[i].w.NotWriting? && run[i].ring.used == 0 && !run[i].readClosed ==>
      run[i].delivered == Asked(acts[..i])
    ensures |run[i].delivered| <= Wanted(acts[..i])
    ensures run[i].r.NotReading? && !run[i].writeClosed ==> |run[i].delivered| == Wanted(acts[..i])
  {
    RunServes(run, acts, i);
    var s := run[i];
    assert s.accepted + Sent(s.w) <= s.accepted + Source(s.w);
    assert s.delivered <= s.accepted + Sent(s.w);
  }

  /** An end is closed if and only if it was closed by a call. */
  lemma {:induction false} RunClosed(run: seq<State>, acts: seq<Act>, i: nat)
    requires IsRun(run, acts) && i < |run|
    ensures run[i].readClosed <==> CloseRead in acts[..i]
    ensures run[i].writeClosed <==> CloseWrite in acts[..i]
  {
    if i > 0 {
      RunClosed(run, acts, i - 1);
      RunFifo(run, acts, i - 1);
      assert Step(run[i - 1], acts[i - 1], run[i]);
      assert acts[..i] == acts[..i - 1] + [acts[i - 1]];
    }
  }

  /** What a reader receives is always a prefix of what the writer sent. */
  lemma RunPrefix(run: seq<State>, acts: seq<Act>, i: nat)
    requires IsRun(run, acts) && i < |run|
    ensures Inv(run[i]) && run[i].delivered <= run[i].accepted + Sent(run[i].w)
  {
    RunFifo(run, acts, i);
  }

  /** A read that returns fewer bytes than asked for has reached the end of the file: the writer
      has closed, the ring is empty, and every byte ever accepted has been delivered. */
  lemma ShortRead(run: seq<State>, acts: seq<Act>, i: nat)
    requires IsRun(run, acts) && i < |acts| && acts[i] == Read
    requires run[i].r.ReadLoop? && run[i + 1].r.NotReading?
    ensures run[i + 1].delivered == run[i].delivered + run[i].r.got && |run[i].r.got| <= run[i].r.len
    ensures |run[i].r.got| < run[i].r.len ==>
      run[i].writeClosed && run[i].ring.used == 0 && run[i + 1].delivered == run[i + 1].accepted
  {
    RunFifo(run, acts, i);
    assert Step(run[i], acts[i], run[i + 1]);
    RunFifo(run, acts, i + 1);
    var t := run[i + 1];
    if |run[i].r.got| < run[i].r.len {
      assert t.accepted == t.accepted + Sent(t.w) == t.delivered + Got(t.r) + Contents(t.ring) == t.delivered;
    }
  }

  /** A write falls short only once the reader has closed, and then the ring is full. */
  lemma ShortWrite(run: seq<State>, acts: seq<Act>, i: nat)
    requires IsRun(run, acts) && i < |acts| && acts[i] == Write
    requires run[i].w.WriteLoop? && run[i + 1].w.NotWriting?
    ensures run[i].w.sent <= |run[i].w.src|
    ensures run[i + 1].accepted == run[i].accepted + run[i].w.src[..run[i].w.sent]
    ensures run[i].w.sent < |run[i].w.src| ==> run[i].readClosed && run[i].ring.used == 4096
  {
    RunFifo(run, acts, i);
    assert Step(run[i], acts[i], run[i + 1]);
  }

  // ---- progress ----

  /** In `schedule`, waiting for the other side. */
  predicate ReadWaits(s: State) {
    s.r.ReadLoop? && |s.r.got| < s.r.len && s.ring.used == 0 && !s.writeClosed
  }

  predicate WriteWaits(s: State) {
    s.w.WriteLoop? && s.w.sent < |s.w.src| && s.ring.used == SIZE && !s.readClosed
  }

  /** Bounds the steps that the calls in progress can still make. */
  function ReadWork(r: Reader): int {
    match r
    case NotReading => 0
    case ReadLoop(len, got) => 3 * (len - |got|) + 1
    case ReadCopy(len, got, left) => 3 * (len - |got|) + (if left == 0 then 2 else 0)
  }

  function WriteWork(w: Writer): int {
    match w
    case NotWriting => 0
    case WriteLoop(src, sent) => 3 * (|src| - sent) + 1
    case WriteCopy(src, sent, left) => 3 * (|src| - sent) + (if left == 0 then 2 else 0)
  }

  /** A step either waits and changes nothing, or uses up work of its own side and none of the
      other side's. */
  lemma ReadProgress(s: State)
    requires Inv(s) && !s.r.NotReading?
    ensures ReadStep(s) == s <==> ReadWaits(s)
    ensures !ReadWaits(s) ==> 0 <= ReadWork(ReadStep(s).r) < ReadWork(s.r)
    ensures ReadStep(s).w == s.w
  {
  }

  lemma WriteProgress(s: State)
    requires Inv(s) && !s.w.NotWriting?
    ensures WriteStep(s) == s <==> WriteWaits(s)
    ensures !WriteWaits(s) ==> 0 <= WriteWork(WriteStep(s).w) < WriteWork(s.w)
    ensures WriteStep(s).r == s.r
  {
  }

  /** The two sides are never both waiting. */
  lemma NeverBothWait(run: seq<State>, acts: seq<Act>, i: nat)
    requires IsRun(run, acts) && i < |run|
    ensures !(ReadWaits(run[i]) && WriteWaits(run[i]))
  {
    RunFifo(run, acts, i);
  }

  /** The state when the sides have stepped, in any order, until neither has anything left to do
      but wait. `readFirst` decides who goes when both can. */
  ghost function Settle(s: State, readFirst: State -> bool): (t: State)
    requires Inv(s)
    ensures Inv(t)
    decreases ReadWork(s.r) + WriteWork(s.w)
  {
    var canRead, canWrite := !s.r.NotReading? && !ReadWaits(s), !s.w.NotWriting? && !WriteWaits(s);
    if canRead && (readFirst(s) || !canWrite) then
      ReadProgress(s); ReadKeeps(s);
      Settle(ReadStep(s), readFirst)
    else if canWrite then
      WriteProgress(s); WriteKeeps(s);
      Settle(WriteStep(s), readFirst)
    else s
  }

  /** Under every schedule a call ends: two calls in progress never hold each other up, a read
      ends if the writer has closed, and a write ends if the reader has closed. */
  lemma {:induction false} CallsEnd(s: State, readFirst: State -> bool)
    requires Inv(s)
    ensures var t := Settle(s, readFirst);
      && (t.r.NotReading? || t.w.NotWriting?)
      && (s.writeClosed ==> t.r.NotReading?) && (s.readClosed ==> t.w.NotWriting?)
    decreases ReadWork(s.r) + WriteWork(s.w)
  {
    var canRead, canWrite := !s.r.NotReading? && !ReadWaits(s), !s.w.NotWriting? && !WriteWaits(s);
    if canRead && (readFirst(s) || !canWrite) {
      ReadProgress(s);
      ReadKeeps(s);
      CallsEnd(ReadStep(s), readFirst);
    } else if canWrite {
      WriteProgress(s);
      WriteKeeps(s);
      CallsEnd(WriteStep(s), readFirst);
    }
  }
}
