/** Pipes in memory (fs/pipe.c): the ring buffer updated in place, and the table of slots behind
    the file descriptors. */
module Pipes {
  import opened Bytes
  import opened PipeRing
  import opened PipeProtocol

  /** `n` steps of one side alone. */
  ghost function ReadSteps(s: State, n: nat): State {
    if n == 0 then s else
    var t := ReadSteps(s, n - 1);
    if Shape(t) then ReadStep(t) else t
  }

  ghost function WriteSteps(s: State, n: nat): State {
    if n == 0 then s else
    var t := WriteSteps(s, n - 1);
    if Shape(t) then WriteStep(t) else t
  }

  /** `s` is reached from `s0` by steps of the reader (or the writer) alone. */
  ghost predicate ByReads(s0: State, n: nat, s: State) { Inv(s0) && Inv(s) && s == ReadSteps(s0, n) }
  ghost predicate ByWrites(s0: State, n: nat, s: State) { Inv(s0) && Inv(s) && s == WriteSteps(s0, n) }

  lemma {:induction false} ByReadsNext(s0: State, n: nat, s: State)
    requires ByReads(s0, n, s)
    ensures ByReads(s0, n + 1, ReadStep(s))
  {
    ReadKeeps(s);
    assert ReadSteps(s0, n + 1) == ReadStep(ReadSteps(s0, n));
  }

  lemma {:induction false} ByWritesNext(s0: State, n: nat, s: State)
    requires ByWrites(s0, n, s)
    ensures ByWrites(s0, n + 1, WriteStep(s))
  {
    WriteKeeps(s);
    assert WriteSteps(s0, n + 1) == WriteStep(WriteSteps(s0, n));
  }

  /** `pipe_t`. The ghost state follows the calls of both sides step by step. */
  class Pipe {
    const buf: array<byte>
    var head: nat
    var tail: nat
    var used: nat
    var writeClosed: bool
    var readClosed: bool
    ghost var s: State

    ghost predicate Valid()
      reads this, buf
    {
      && Inv(s) && s.ring == Ring(buf[..], head, tail, used)
      && s.writeClosed == writeClosed && s.readClosed == readClosed
    }

    constructor ()
      ensures Valid() && s == FRESH && fresh(buf)
    {
      buf := new byte[SIZE](i => 0);
      head, tail, used, writeClosed, readClosed := 0, 0, 0, false, false;
      new;
      s := FRESH;
      assert buf[..] == Zeros(SIZE);
      FreshInv();
    }

    /** The entry of `pipe_read` for a valid descriptor. */
    method BeginRead(len: nat)
      requires Valid() && Enabled(s, CallRead(len))
      modifies this`s
      ensures Valid() && s == Next(old(s), CallRead(len))
    {
      StepKeeps(s, CallRead(len));
      s := Next(s, CallRead(len));
    }

    /** The entry of `pipe_write`, which fails once the reader has closed. */
    method BeginWrite(src: seq<byte>) returns (ok: bool)
      requires Valid() && Enabled(s, CallWrite(src))
      modifies this`s
      ensures Valid() && s == Next(old(s), CallWrite(src)) && ok == !s.readClosed
    {
      StepKeeps(s, CallWrite(src));
      ok := !readClosed;
      s := Next(s, CallWrite(src));
    }

    /** `pipe_close` for one end. */
    method CloseEnd(read: bool)
      requires Valid() && Enabled(s, if read then CloseRead else CloseWrite)
      modifies this`s, this`readClosed, this`writeClosed
      ensures Valid() && s == Next(old(s), if read then CloseRead else CloseWrite)
    {
      StepKeeps(s, if read then CloseRead else CloseWrite);
      if read { readClosed := true; } else { writeClosed := true; }
      s := Next(s, if read then CloseRead else CloseWrite);
    }

    /** One pass of the copy loop of `pipe_read`. */
    method TakeOne(ghost s0: State, ghost n: nat) returns (b: byte)
      requires Valid() && ByReads(s0, n, s) && s.r.ReadCopy? && s.r.left > 0
      modifies this`head, this`used, this`s
      ensures Valid() && ByReads(s0, n + 1, s) && s.delivered == old(s).delivered
      ensures s.r == ReadCopy(old(s).r.len, old(s).r.got + [b], old(s).r.left - 1)
    {
      ByReadsNext(s0, n, s);
      b := buf[head];
      head := (head + 1) % SIZE;
      used := used - 1;
      s := ReadStep(s);
    }

    /** One pass of the copy loop of `pipe_write`. */
    method PutOne(b: byte, ghost s0: State, ghost n: nat)
      requires Valid() && ByWrites(s0, n, s) && s.w.WriteCopy? && s.w.left > 0 && b == s.w.src[s.w.sent]
      modifies this`tail, this`used, this`s, buf
      ensures Valid() && ByWrites(s0, n + 1, s) && s.accepted == old(s).accepted
      ensures s.w == WriteCopy(old(s).w.src, old(s).w.sent + 1, old(s).w.left - 1)
    {
      ByWritesNext(s0, n, s);
      buf[tail] := b;
      tail := (tail + 1) % SIZE;
      used := used + 1;
      s := WriteStep(s);
    }

    // The ghost state moves with the control flow of the two calls.

    ghost method EnterCopyOut(chunk: nat, s0: State, n: nat)
      requires Valid() && ByReads(s0, n, s) && s.r.ReadLoop? && |s.r.got| < s.r.len
      requires used > 0 && chunk == Min(used, s.r.len - |s.r.got|)
      modifies this`s
      ensures Valid() && ByReads(s0, n + 1, s)
      ensures s == old(s).(r := ReadCopy(old(s).r.len, old(s).r.got, chunk))
    {
      ByReadsNext(s0, n, s);
      s := ReadStep(s);
    }

    ghost method LeaveCopyOut(s0: State, n: nat)
      requires Valid() && ByReads(s0, n, s) && s.r.ReadCopy? && s.r.left == 0
      modifies this`s
      ensures Valid() && ByReads(s0, n + 1, s) && s == old(s).(r := ReadLoop(old(s).r.len, old(s).r.got))
    {
      ByReadsNext(s0, n, s);
      s := ReadStep(s);
    }

    ghost method ReturnRead(s0: State, n: nat)
      requires Valid() && ByReads(s0, n, s) && s.r.ReadLoop? && (|s.r.got| >= s.r.len || (used == 0 && writeClosed))
      modifies this`s
      ensures Valid() && ByReads(s0, n + 1, s)
      ensures s == old(s).(r := NotReading, delivered := old(s).delivered + old(s).r.got)
    {
      ByReadsNext(s0, n, s);
      s := ReadStep(s);
    }

    ghost method EnterCopyIn(chunk: nat, s0: State, n: nat)
      requires Valid() && ByWrites(s0, n, s) && s.w.WriteLoop? && s.w.sent < |s.w.src|
      requires used < SIZE && chunk == Min(SIZE - used, |s.w.src| - s.w.sent)
      modifies this`s
      ensures Valid() && ByWrites(s0, n + 1, s)
      ensures s == old(s).(w := WriteCopy(old(s).w.src, old(s).w.sent, chunk))
    {
      ByWritesNext(s0, n, s);
      s := WriteStep(s);
    }

    ghost method LeaveCopyIn(s0: State, n: nat)
      requires Valid() && ByWrites(s0, n, s) && s.w.WriteCopy? && s.w.left == 0
      modifies this`s
      ensures Valid() && ByWrites(s0, n + 1, s) && s == old(s).(w := WriteLoop(old(s).w.src, old(s).w.sent))
    {
      ByWritesNext(s0, n, s);
      s := WriteStep(s);
    }

    ghost method ReturnWrite(s0: State, n: nat)
      requires Valid() && ByWrites(s0, n, s) && s.w.WriteLoop?
      requires (s.w.sent >= |s.w.src| || (used == SIZE && readClosed))
      modifies this`s
      ensures Valid() && ByWrites(s0, n + 1, s)
      ensures s == old(s).(w := NotWriting, accepted := old(s).accepted + old(s).w.src[..old(s).w.sent])
    {
      ByWritesNext(s0, n, s);
      s := WriteStep(s);
    }

    /** What `pipe_read` does until it returns or calls `schedule`. */
    method ReadTurn(len: nat, got0: seq<byte>) returns (got: seq<byte>, done: bool, ghost n: nat)
      requires Valid() && s.r == ReadLoop(len, got0)
      modifies this`head, this`used, this`s
      ensures Valid() && s == ReadSteps(old(s), n)
      ensures done ==> s.r.NotReading? && s.delivered == old(s).delivered + got
      ensures !done ==> ReadWaits(s) && s.r == ReadLoop(len, got)
    {
      got, n := got0, 0;
      while |got| < len
        invariant |got| <= len && Valid() && ByReads(old(s), n, s)
        invariant s.r == ReadLoop(len, got) && s.delivered == old(s).delivered
      {
        if used == 0 {
          if writeClosed { break; }
          return got, false, n;
        }
        got, n := ReadPass(len, got, old(s), n);
      }
      done := true;
      ReturnRead(old(s), n);
      n := n + 1;
    }

    /** One pass of the loop of `pipe_read` when there are bytes. */
    method ReadPass(len: nat, got0: seq<byte>, ghost s0: State, ghost n0: nat) returns (got: seq<byte>, ghost n: nat)
      requires Valid() && ByReads(s0, n0, s) && s.r == ReadLoop(len, got0) && |got0| < len && used > 0
      modifies this`head, this`used, this`s
      ensures Valid() && ByReads(s0, n, s) && s.delivered == old(s).delivered
      ensures |got0| < |got| <= len && s.r == ReadLoop(len, got)
    {
      var chunk := used;
      if chunk > len - |got0| { chunk := len - |got0|; }
      EnterCopyOut(chunk, s0, n0);
      got, n := ReadChunk(len, got0, chunk, s0, n0 + 1);
      LeaveCopyOut(s0, n);
      n := n + 1;
    }

    method ReadChunk(len: nat, got0: seq<byte>, chunk: nat, ghost s0: State, ghost n0: nat)
      returns (got: seq<byte>, ghost n: nat)
      requires Valid() && ByReads(s0, n0, s) && s.r == ReadCopy(len, got0, chunk)
      modifies this`head, this`used, this`s
      ensures Valid() && ByReads(s0, n, s) && s.delivered == old(s).delivered
      ensures |got| == |got0| + chunk && s.r == ReadCopy(len, got, 0)
    {
      got, n := got0, n0;
      var i := 0;
      while i < chunk
        invariant 0 <= i <= chunk && Valid() && ByReads(s0, n, s)
        invariant |got| == |got0| + i && s.r == ReadCopy(len, got, chunk - i) && s.delivered == old(s).delivered
      {
        var b := TakeOne(s0, n);
        got, i, n := got + [b], i + 1, n + 1;
      }
    }

    /** What `pipe_write` does until it returns or calls `schedule`. */
    method WriteTurn(src: seq<byte>, sent0: nat) returns (sent: nat, done: bool, ghost n: nat)
      requires Valid() && s.w == WriteLoop(src, sent0)
      modifies this`tail, this`used, this`s, buf
      ensures Valid() && s == WriteSteps(old(s), n) && sent <= |src|
      ensures done ==> s.w.NotWriting? && s.accepted == old(s).accepted + src[..sent]
      ensures !done ==> WriteWaits(s) && s.w == WriteLoop(src, sent)
    {
      sent, n := sent0, 0;
      while sent < |src|
        invariant 0 <= sent <= |src| && Valid() && ByWrites(old(s), n, s)
        invariant s.w == WriteLoop(src, sent) && s.accepted == old(s).accepted
      {
        if used == SIZE {
          if readClosed { break; }
          return sent, false, n;
        }
        sent, n := WritePass(src, sent, old(s), n);
      }
      done := true;
      ReturnWrite(old(s), n);
      n := n + 1;
    }

    /** One pass of the loop of `pipe_write` when there is space. */
    method WritePass(src: seq<byte>, sent0: nat, ghost s0: State, ghost n0: nat) returns (sent: nat, ghost n: nat)
      requires Valid() && ByWrites(s0, n0, s) && s.w == WriteLoop(src, sent0) && sent0 < |src| && used < SIZE
      modifies this`tail, this`used, this`s, buf
      ensures Valid() && ByWrites(s0, n, s) && s.accepted == old(s).accepted
      ensures sent0 < sent <= |src| && s.w == WriteLoop(src, sent)
    {
      var space, chunk := SIZE - used, |src| - sent0;
      if chunk > space { chunk := space; }
      EnterCopyIn(chunk, s0, n0);
      n := WriteChunk(src, sent0, chunk, s0, n0 + 1);
      sent := sent0 + chunk;
      LeaveCopyIn(s0, n);
      n := n + 1;
    }

    method WriteChunk(src: seq<byte>, sent: nat, chunk: nat, ghost s0: State, ghost n0: nat) returns (ghost n: nat)
      requires Valid() && ByWrites(s0, n0, s) && s.w == WriteCopy(src, sent, chunk)
      modifies this`tail, this`used, this`s, buf
      ensures Valid() && ByWrites(s0, n, s) && s.accepted == old(s).accepted
      ensures s.w == WriteCopy(src, sent + chunk, 0)
    {
      n := n0;
      var i := 0;
      while i < chunk
        invariant 0 <= i <= chunk && Valid() && ByWrites(s0, n, s)
        invariant s.w == WriteCopy(src, sent + i, chunk - i) && s.accepted == old(s).accepted
      {
        PutOne(src[sent + i], s0, n);
        i, n := i + 1, n + 1;
      }
    }
  }

  // ---- descriptors and slots ----

  const MAX_OPEN: nat := 16
  const FD_BASE: int := 100

  datatype FdType = Vfs | ReadEnd | WriteEnd

  function ReadFd(slot: nat): int { FD_BASE + 2 * slot }
  function WriteFd(slot: nat): int { FD_BASE + 2 * slot + 1 }

  /** `fd_to_slot`, for descriptors from `FD_BASE` on. */
  function SlotOf(fd: int): int
    requires fd >= FD_BASE
  {
    (fd - FD_BASE) / 2
  }

  /** A slot of the table: which ends have been closed, and the reference count. */
  datatype Slot = Slot(inUse: bool, writeClosed: bool, readClosed: bool, refcount: int)

  const FREE_SLOT: Slot := Slot(false, false, false, 0)

  /** The reference count is the number of open ends, and is positive while the slot is in use. */
  predicate SlotOk(x: Slot) {
    if !x.inUse then x == FREE_SLOT
    else
      && x.refcount == (if x.readClosed then 0 else 1) + (if x.writeClosed then 0 else 1)
      && x.refcount > 0
  }

  class Table {
    const slots: array<Slot>

    ghost predicate Valid()
      reads this, slots
    {
      slots.Length == MAX_OPEN && forall i :: 0 <= i < MAX_OPEN ==> SlotOk(slots[i])
    }

    /** `pipe_init`. */
    constructor ()
      ensures Valid() && fresh(slots) && slots.Length == 16
      ensures forall i :: 0 <= i < 16 ==> slots[i] == Slot(false, false, false, 0)
    {
      slots := new Slot[MAX_OPEN](i => FREE_SLOT);
    }

    /** `pipe_fd_type`, which includes `pipe_is_pipe`. */
    function TypeOf(fd: int): (t: FdType)
      requires slots.Length == MAX_OPEN
      reads this, slots
      ensures t != Vfs <==> exists k: nat :: k < MAX_OPEN && slots[k].inUse && (fd == ReadFd(k) || fd == WriteFd(k))
      ensures forall k: nat :: k < MAX_OPEN && slots[k].inUse ==>
        (t == ReadEnd <== fd == ReadFd(k)) && (t == WriteEnd <== fd == WriteFd(k))
    {
      if fd < FD_BASE || SlotOf(fd) >= MAX_OPEN || !slots[SlotOf(fd)].inUse then Vfs
      else if (fd - FD_BASE) % 2 == 0 then
        assert fd == ReadFd(SlotOf(fd)); ReadEnd
      else
        assert fd == WriteFd(SlotOf(fd)); WriteEnd
    }

    /** `pipe_create`: the lowest free slot, and the descriptors of its two ends. */
    method Create() returns (ok: bool, rfd: int, wfd: int, ghost slot: nat)
      requires Valid()
      modifies slots
      ensures Valid()
      ensures ok <==> exists i :: 0 <= i < MAX_OPEN && !old(slots[i]).inUse
      ensures !ok ==> slots[..] == old(slots[..])
      ensures ok ==> slot < MAX_OPEN && !old(slots[slot]).inUse && forall i :: 0 <= i < slot ==> old(slots[i]).inUse
      ensures ok ==> slots[..] == old(slots[..])[slot := Slot(true, false, false, 2)]
      ensures ok ==> rfd == ReadFd(slot) && wfd == WriteFd(slot)
    {
      ok, rfd, wfd, slot := false, -1, -1, 0;
      var i := 0;
      while i < MAX_OPEN
        invariant 0 <= i <= MAX_OPEN && forall j :: 0 <= j < i ==> slots[j].inUse
      {
        if !slots[i].inUse {
          slots[i] := Slot(true, false, false, 2);
          return true, FD_BASE + 2 * i, FD_BASE + 2 * i + 1, i;
        }
        i := i + 1;
      }
    }

    /** `pipe_close`. */
    method Close(fd: int)
      requires Valid() && FD_BASE <= fd < FD_BASE + 2 * MAX_OPEN
      modifies slots
      ensures Valid()
      ensures slots[..] == old(slots[..])[SlotOf(fd) := Closed(old(slots[SlotOf(fd)]), fd % 2 == 0)]
    {
      var k := SlotOf(fd);
      if !slots[k].inUse { return; }
      var x := slots[k];
      x := if TypeOf(fd) == ReadEnd then x.(readClosed := true) else x.(writeClosed := true);
      x := x.(refcount := x.refcount - 1);
      slots[k] := if x.refcount <= 0 then FREE_SLOT else x;
    }
  }

  predicate EndClosed(x: Slot, read: bool) {
    if read then x.readClosed else x.writeClosed
  }

  /** The slot after its read or its write end is closed. */
  function Closed(x: Slot, read: bool): (y: Slot)
    requires SlotOk(x)
    ensures SlotOk(y)
    ensures y.inUse ==>
      EndClosed(y, read) && EndClosed(y, !read) == EndClosed(x, !read) && y.refcount == x.refcount - 1
  {
    if !x.inUse then x
    else if x.refcount == 1 then FREE_SLOT
    else if read then x.(readClosed := true, refcount := x.refcount - 1)
    else x.(writeClosed := true, refcount := x.refcount - 1)
  }

  /** The slot is given back exactly when the other end was closed before, if and only if the end
      being closed was still open: closing one end twice takes the pipe from under the other. */
  lemma FreedWithLastEnd(x: Slot, read: bool)
    requires SlotOk(x) && x.inUse
    ensures (Closed(x, read) == FREE_SLOT <==> EndClosed(x, !read)) <==> !EndClosed(x, read)
  {
  }

  /** Closing the read end of a new pipe twice frees the slot although the write end is open. */
  lemma DoubleClose()
    ensures var x := Slot(true, false, false, 2);
      !EndClosed(Closed(x, true), false) && Closed(Closed(x, true), true) == Slot(false, false, false, 0)
  {
  }

  /** Descriptors of different slots or ends differ, and both lead back to the slot. */
  lemma FdCodec(j: nat, k: nat)
    ensures ReadFd(j) == 100 + 2 * j && WriteFd(j) == 101 + 2 * j
    ensures SlotOf(ReadFd(j)) == j && SlotOf(WriteFd(j)) == j
    ensures ReadFd(j) != WriteFd(k)
    ensures ReadFd(j) == ReadFd(k) || WriteFd(j) == WriteFd(k) ==> j == k
  {
  }
}
