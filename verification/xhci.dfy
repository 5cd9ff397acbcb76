/** Transfer request blocks of an xHCI controller (drivers/xhci.c; sections 4.9.2 to 4.9.4 of the
    xHCI specification). */
module Trbs {
  import opened Bytes

  datatype Trb = Trb(lo: u32, hi: u32, status: u32, control: u32)

  const LINK: int := 6
  const TRB_BYTES: nat := 16
  const ZERO: Trb := Trb(0, 0, 0, 0)

  /** The cycle bit, the type field and the toggle-cycle flag. */
  function Cycle(t: Trb): (c: int) ensures 0 <= c <= 1 { t.control % 2 }
  function Type(t: Trb): int { t.control / 0x400 % 0x40 }
  predicate Toggles(t: Trb) { t.control / 2 % 2 == 1 }
  predicate IsLink(t: Trb) { Type(t) == LINK }

  function Flip(c: int): int { 1 - c }

  /** The same block: all of it but the cycle bit, which is the lowest bit of `control`. */
  predicate SameBlock(t: Trb, u: Trb) {
    u.lo == t.lo && u.hi == t.hi && u.status == t.status && u.control / 2 == t.control / 2
  }

  /** The block with its cycle bit set to `c`. */
  function Stamp(t: Trb, c: int): (r: Trb)
    requires 0 <= c <= 1
    ensures Cycle(r) == c && IsLink(r) == IsLink(t)
    ensures r.lo == t.lo && r.hi == t.hi && r.status == t.status && r.control / 2 == t.control / 2
  {
    t.(control := t.control - t.control % 2 + c)
  }

  /** One after the other the same blocks. */
  ghost predicate Copies(sent: seq<Trb>, got: seq<Trb>) {
    |got| == |sent| && forall i :: 0 <= i < |sent| ==> SameBlock(sent[i], got[i])
  }

  /** The oldest pending block moves to the consumed ones. */
  lemma HeadMoves(sent: seq<Trb>, seen: seq<Trb>, q: seq<Trb>)
    requires Copies(sent, seen + q) && q != []
    ensures Copies(sent, (seen + [q[0]]) + q[1..])
    ensures |seen| < |sent| && SameBlock(sent[|seen|], q[0])
  {
    assert (seen + [q[0]]) + q[1..] == seen + q;
    assert (seen + q)[|seen|] == q[0];
  }

  /** A new block joins the pending ones. */
  lemma TailJoins(sent: seq<Trb>, seen: seq<Trb>, q: seq<Trb>, t: Trb, c: int)
    requires Copies(sent, seen + q) && 0 <= c <= 1
    ensures Copies(sent + [t], seen + (q + [Stamp(t, c)]))
  {
    assert seen + (q + [Stamp(t, c)]) == (seen + q) + [Stamp(t, c)];
  }

  lemma SeenFirst(sent: seq<Trb>, seen: seq<Trb>, q: seq<Trb>)
    requires Copies(sent, seen + q)
    ensures |seen| <= |sent| && forall k :: 0 <= k < |seen| ==> SameBlock(sent[k], seen[k])
  {
    assert forall k :: 0 <= k < |seen| ==> (seen + q)[k] == seen[k];
  }

  function LinkTo(base: u32, c: int): (r: Trb)
    requires 0 <= c <= 1
    ensures IsLink(r) && Toggles(r) && Cycle(r) == c
    ensures r.lo == base && r.hi == 0 && r.status == 0 && r.control == 0x1802 + c
  {
    Trb(base, 0, 0, LINK * 0x400 + 2 + c)
  }

  /** Slots before `at` carry cycle bit `c`, the others do not: where a producer stands. */
  ghost predicate Front(ring: seq<Trb>, at: nat, c: int) {
    && at <= |ring|
    && (forall j :: 0 <= j < at ==> Cycle(ring[j]) == c)
    && (forall j :: at <= j < |ring| ==> Cycle(ring[j]) != c)
  }
}

/** A command or transfer ring: the driver enqueues, the controller consumes. The last slot holds
    a Link TRB back to the first. */
module CommandRing {
  import opened Bytes
  import opened Trbs

  /** The driver's half, and the slots. */
  datatype Producer = Producer(ring: seq<Trb>, enq: nat, cycle: int)

  predicate ProducerOk(p: Producer) {
    |p.ring| >= 3 && p.enq < |p.ring| - 1 && 0 <= p.cycle <= 1
  }

  /** What `ring_enqueue` leaves: the block in the slot of the index with the cycle state as its lowest bit,
      and, when only the last slot is left, the link there and the next lap. */
  function Enqueued(p: Producer, base: u32, t: Trb): (q: Producer)
    requires ProducerOk(p)
    ensures ProducerOk(q) && |q.ring| == |p.ring|
    ensures SameBlock(t, q.ring[p.enq]) && q.ring[p.enq].control % 2 == p.cycle
    ensures forall j :: 0 <= j < |p.ring| - 1 && j != p.enq ==> q.ring[j] == p.ring[j]
    ensures p.enq + 2 < |p.ring| ==>
      q.enq == p.enq + 1 && q.cycle == p.cycle && q.ring[|p.ring| - 1] == p.ring[|p.ring| - 1]
    ensures p.enq + 2 == |p.ring| ==>
      q.enq == 0 && q.cycle == 1 - p.cycle && q.ring[|p.ring| - 1] == Trb(base, 0, 0, 0x1802 + p.cycle)
  {
    var ring := p.ring[p.enq := Stamp(t, p.cycle)];
    if p.enq + 1 < |ring| - 1 then Producer(ring, p.enq + 1, p.cycle)
    else Producer(ring[|ring| - 1 := LinkTo(base, p.cycle)], 0, Flip(p.cycle))
  }

  class Ring {
    const slots: array<Trb>
    const base: u32
    var enq: nat
    var cycle: int

    ghost function View(): Producer
      reads this, slots
    {
      Producer(slots[..], enq, cycle)
    }

    /** `ring_alloc` and the initial indices. */
    constructor (size: nat, base: u32)
      requires size >= 3
      ensures fresh(slots) && this.base == base && View() == Start(size)
      ensures slots.Length == size && forall i :: 0 <= i < size ==> slots[i] == Trb(0, 0, 0, 0)
    {
      slots := new Trb[size](i => ZERO);
      this.base, enq, cycle := base, 0, 1;
      new;
      assert slots[..] == seq(size, i => ZERO);
    }

    /** `ring_enqueue`. */
    method Enqueue(t: Trb)
      requires ProducerOk(View())
      modifies this, slots
      ensures View() == Enqueued(old(View()), base, t)
    {
      slots[enq] := Stamp(t, cycle);
      enq := enq + 1;
      if enq >= slots.Length - 1 {
        slots[enq] := LinkTo(base, cycle);
        enq := 0;
        cycle := Flip(cycle);
      }
    }
  }

  function Start(size: nat): Producer {
    Producer(seq(size, i => ZERO), 0, 1)
  }

  // ---- driver and controller together ----

  /** `deq` and `ccs` are the controller's dequeue index and consumer cycle state; `sent` and `seen`
      record what was enqueued and what was consumed. */
  datatype State = State(p: Producer, base: u32, deq: nat, ccs: int, sent: seq<Trb>, seen: seq<Trb>)

  datatype Act = Send(t: Trb) | Poll

  function Last(s: State): int { |s.p.ring| - 1 }

  function SendStep(s: State, t: Trb): State
    requires ProducerOk(s.p)
  {
    s.(p := Enqueued(s.p, s.base, t), sent := s.sent + [t])
  }

  /** The controller looks at one slot: a block it does not own stops it, a Link TRB takes it to the
      address in the block and toggles its cycle state, any other block is executed. */
  function PollStep(s: State): State
    requires s.deq < |s.p.ring|
  {
    var t := s.p.ring[s.deq];
    if Cycle(t) != s.ccs then s
    else if IsLink(t) then
      s.(deq := if t.lo >= s.base then (t.lo - s.base) / TRB_BYTES else 0,
         ccs := if Toggles(t) then Flip(s.ccs) else s.ccs)
    else s.(deq := s.deq + 1, seen := s.seen + [t])
  }

  /** Enqueued and not yet consumed. */
  ghost function Pending(s: State): seq<Trb>
    requires ProducerOk(s.p) && 0 <= s.ccs <= 1 && Placed(s)
  {
    if s.p.cycle == s.ccs then s.p.ring[s.deq..s.p.enq]
    else s.p.ring[s.deq..Last(s)] + s.p.ring[..s.p.enq]
  }

  /** The controller is behind the driver in the same lap, or one lap back with the link ahead of
      it and the driver not past it. */
  ghost predicate Placed(s: State)
    requires ProducerOk(s.p) && 0 <= s.ccs <= 1
  {
    if s.p.cycle == s.ccs then s.deq <= s.p.enq
    else s.p.enq <= s.deq <= Last(s) && s.p.ring[Last(s)] == LinkTo(s.base, s.ccs)
  }

  ghost predicate Inv(s: State) {
    && ProducerOk(s.p) && 0 <= s.ccs <= 1 && Front(s.p.ring, s.p.enq, s.p.cycle)
    && (forall j :: 0 <= j < Last(s) ==> !IsLink(s.p.ring[j]))
    && Placed(s)
    && Copies(s.sent, s.seen + Pending(s))
  }

  /** At most this many blocks are outstanding when the driver enqueues: one slot is the link, and
      one more must stay free if the controller stands on the link. */
  ghost predicate Room(s: State)
    requires Inv(s)
  {
    && |Pending(s)| < Last(s)
    && !(s.deq == Last(s) && |Pending(s)| == Last(s) - 1)
  }

  lemma SendShape(s: State, t: Trb)
    requires Inv(s) && Room(s) && !IsLink(t)
    ensures var u := SendStep(s, t);
      && Front(u.p.ring, u.p.enq, u.p.cycle) && Placed(u)
      && (forall j :: 0 <= j < Last(u) ==> !IsLink(u.p.ring[j]))
      && Pending(u) == Pending(s) + [Stamp(t, s.p.cycle)]
  {
    var u := SendStep(s, t);
    var stamped := s.p.ring[s.p.enq := Stamp(t, s.p.cycle)];
    assert stamped[..s.p.enq + 1] == s.p.ring[..s.p.enq] + [Stamp(t, s.p.cycle)];
    if s.p.cycle == s.ccs {
      assert stamped[s.deq..s.p.enq + 1] == s.p.ring[s.deq..s.p.enq] + [Stamp(t, s.p.cycle)];
    } else {
      assert stamped[s.deq..Last(s)] == s.p.ring[s.deq..Last(s)];
    }
  }

  lemma SendKeeps(s: State, t: Trb)
    requires Inv(s) && Room(s) && !IsLink(t)
    ensures Inv(SendStep(s, t))
  {
    SendShape(s, t);
    TailJoins(s.sent, s.seen, Pending(s), t, s.p.cycle);
  }

  /** A poll executes the oldest pending block, or follows the link, or finds nothing pending. */
  lemma PollShape(s: State)
    requires Inv(s)
    ensures var u := PollStep(s);
      && u.p == s.p && u.base == s.base && u.sent == s.sent
      && 0 <= u.ccs <= 1 && Placed(u)
      && (u == s <==> Pending(s) == [] && s.deq < Last(s))
      && (u.seen == s.seen ==> Pending(u) == Pending(s))
      && (u.seen != s.seen ==>
            Pending(s) != [] && u.seen == s.seen + [Pending(s)[0]] && Pending(u) == Pending(s)[1..])
  {
    if s.deq == Last(s) {
      FollowsLink(s);
    } else if Pending(s) == [] {
      assert s.deq == s.p.enq;
    } else {
      TakesHead(s);
    }
  }

  lemma TakesHead(s: State)
    requires Inv(s) && s.deq < Last(s) && Pending(s) != []
    ensures var u := s.(deq := s.deq + 1, seen := s.seen + [Pending(s)[0]]);
      PollStep(s) == u && Placed(u) && Pending(u) == Pending(s)[1..]
  {
    assert Pending(s)[0] == s.p.ring[s.deq];
  }

  lemma PollKeeps(s: State)
    requires Inv(s)
    ensures Inv(PollStep(s))
  {
    PollShape(s);
    var u := PollStep(s);
    if u.seen != s.seen {
      HeadMoves(s.sent, s.seen, Pending(s));
    }
  }

  /** The driver sends only when fewer than `ring_size - 2` blocks are outstanding; the controller
      polls whenever it likes. */
  ghost predicate Step(s: State, a: Act, t: State) {
    match a
    case Send(b) => ProducerOk(s.p) && !IsLink(b) && |s.sent| - |s.seen| < |s.p.ring| - 2 && t == SendStep(s, b)
    case Poll => s.deq < |s.p.ring| && t == PollStep(s)
  }

  ghost predicate IsRun(run: seq<State>, acts: seq<Act>, size: nat, base: u32) {
    && size >= 3 && |run| == |acts| + 1 && run[0] == State(Start(size), base, 0, 1, [], [])
    && forall i :: 0 <= i < |acts| ==> Step(run[i], acts[i], run[i + 1])
  }

  lemma StepKeeps(s: State, a: Act, t: State)
    requires Inv(s) && Step(s, a, t)
    ensures Inv(t)
  {
    match a
    case Send(b) => SendKeeps(s, b);
    case Poll => PollKeeps(s);
  }

  lemma {:induction false} RunInv(run: seq<State>, acts: seq<Act>, size: nat, base: u32, i: nat)
    requires IsRun(run, acts, size, base) && i < |run|
    ensures Inv(run[i])
  {
    if i == 0 {
      assert Pending(run[0]) == [];
    } else {
      RunInv(run, acts, size, base, i - 1);
      assert Step(run[i - 1], acts[i - 1], run[i]);
      StepKeeps(run[i - 1], acts[i - 1], run[i]);
    }
  }

  /** Over any number of laps the controller has seen the first of the blocks that were sent, one by one with
      all their fields: nothing is lost, repeated, reordered, altered or stale. */
  lemma RunFifo(run: seq<State>, acts: seq<Act>, size: nat, base: u32, i: nat)
    requires IsRun(run, acts, size, base) && i < |run|
    ensures Inv(run[i]) && |run[i].seen| <= |run[i].sent|
    ensures forall k :: 0 <= k < |run[i].seen| ==>
      var t, u := run[i].sent[k], run[i].seen[k];
      u.lo == t.lo && u.hi == t.hi && u.status == t.status && u.control / 2 == t.control / 2
  {
    RunInv(run, acts, size, base, i);
    SeenFirst(run[i].sent, run[i].seen, Pending(run[i]));
  }

  /** Nothing gets stuck: while a block is outstanding, one poll, or two when the controller stands
      on the link, executes the next one. */
  lemma NextSeen(s: State)
    requires Inv(s) && |s.seen| < |s.sent|
    ensures var u := if s.deq == Last(s) then PollStep(PollStep(s)) else PollStep(s);
      |u.seen| == |s.seen| + 1 && s.seen <= u.seen && SameBlock(s.sent[|s.seen|], u.seen[|s.seen|])
  {
    HeadMoves(s.sent, s.seen, Pending(s));
    if s.deq == Last(s) {
      FollowsLink(s);
      PollKeeps(s);
      Executes(PollStep(s));
    } else {
      Executes(s);
    }
  }

  lemma Executes(s: State)
    requires Inv(s) && Pending(s) != [] && s.deq < Last(s)
    ensures PollStep(s).seen == s.seen + [Pending(s)[0]]
  {
    PollShape(s);
  }

  lemma FollowsLink(s: State)
    requires Inv(s) && s.deq == Last(s)
    ensures PollStep(s) == s.(deq := 0, ccs := s.p.cycle) && Placed(PollStep(s)) && Pending(PollStep(s)) == Pending(s)
  {
  }

  /** The bound is exact. After one more block the controller stalls with blocks outstanding if and
      only if there was no room: all slots were taken, or all but one with the controller on the
      link. */
  lemma StallsWithoutRoom(s: State, t: Trb)
    requires Inv(s) && !IsLink(t)
    ensures Room(s) <==> PollStep(SendStep(s, t)) != SendStep(s, t)
  {
    if Room(s) {
      SendShape(s, t);
      SendKeeps(s, t);
      PollShape(SendStep(s, t));
    } else if s.p.cycle == s.ccs {
      assert false;
    }
  }

  /** A controller on the link of a ring of three, with one block outstanding. */
  ghost function Parked(base: u32, t: Trb): State {
    State(Producer([Stamp(t, 0), Stamp(t, 1), LinkTo(base, 1)], 1, 0), base, 2, 1, [t, t, t], [t, t])
  }

  /** With `ring_size - 2` outstanding, one block more can be one too many. */
  lemma OneTooMany(base: u32, t: Trb)
    requires !IsLink(t)
    ensures var s := Parked(base, t); Inv(s) && |s.sent| - |s.seen| == |s.p.ring| - 2 && !Room(s)
  {
    var s := Parked(base, t);
    ParkedPending(s, [Stamp(t, 0)]);
  }

  lemma ParkedPending(s: State, q: seq<Trb>)
    requires ProducerOk(s.p) && s.ccs == 1 && s.p.cycle == 0 && s.p.enq == 1 && s.deq == Last(s) == 2
    requires s.p.ring[2] == LinkTo(s.base, 1) && Cycle(s.p.ring[0]) == 0 && Cycle(s.p.ring[1]) == 1
    requires !IsLink(s.p.ring[0]) && !IsLink(s.p.ring[1])
    requires q == [s.p.ring[0]] && Copies(s.sent, s.seen + q)
    ensures Inv(s) && Pending(s) == q
  {
    assert Pending(s) == q;
  }
}

/** The event ring: the controller posts events, the driver polls them. One segment, no link. */
module EventRing {
  import opened Trbs

  const HANDLER_BUSY: nat := 8

  /** The driver's half. `erdp` is the dequeue pointer register as last written. */
  class Driver {
    const slots: array<Trb>
    const base: nat
    var deq: nat
    var cycle: int
    var erdp: nat

    constructor (size: nat, base: nat)
      requires size > 0
      ensures fresh(slots) && this.base == base && slots[..] == seq(size, i => ZERO)
      ensures deq == 0 && cycle == 1 && erdp == base
    {
      slots := new Trb[size](i => ZERO);
      this.base, deq, cycle, erdp := base, 0, 1, base;
    }

    /** One pass of the polling loop of `poll_event`. */
    method PollOnce() returns (found: bool, out: Trb)
      requires deq < slots.Length && 0 <= cycle <= 1
      modifies this
      ensures (found, out) == Polled(slots[..], old(deq), old(cycle))
      ensures found ==>
        (deq, cycle) == Advanced(old(deq), old(cycle), slots.Length) && erdp == base + 16 * deq + 8
      ensures !found ==> deq == old(deq) && cycle == old(cycle) && erdp == old(erdp)
    {
      found, out := false, ZERO;
      var evt := slots[deq];
      if Cycle(evt) == cycle {
        found, out := true, evt;
        deq := deq + 1;
        if deq >= slots.Length {
          deq := 0;
          cycle := Flip(cycle);
        }
        erdp := base + TRB_BYTES * deq + HANDLER_BUSY;
      }
    }
  }

  function Polled(ring: seq<Trb>, deq: nat, cycle: int): (r: (bool, Trb))
    requires deq < |ring|
    ensures r.0 <==> ring[deq].control % 2 == cycle
    ensures r.0 ==> r.1 == ring[deq]
  {
    if Cycle(ring[deq]) == cycle then (true, ring[deq]) else (false, ZERO)
  }

  function Advanced(at: nat, cycle: int, size: nat): (r: (nat, int))
    requires at < size
    ensures r.0 == (at + 1) % size && r.1 == if r.0 == 0 then 1 - cycle else cycle
  {
    if at + 1 >= size then (0, Flip(cycle)) else (at + 1, cycle)
  }

  // ---- controller and driver together ----

  /** `at` and `pcs` are the controller's enqueue index and producer cycle state. */
  datatype State = State(ring: seq<Trb>, at: nat, pcs: int, deq: nat, ccs: int, base: nat, erdp: nat,
                         posted: seq<Trb>, taken: seq<Trb>)

  datatype Act = Post(t: Trb) | Poll

  function PostStep(s: State, t: Trb): State
    requires s.at < |s.ring| && 0 <= s.pcs <= 1
  {
    var (at, pcs) := Advanced(s.at, s.pcs, |s.ring|);
    s.(ring := s.ring[s.at := Stamp(t, s.pcs)], at := at, pcs := pcs, posted := s.posted + [t])
  }

  function PollStep(s: State): State
    requires s.deq < |s.ring|
  {
    var (found, out) := Polled(s.ring, s.deq, s.ccs);
    if !found then s else
    var (deq, ccs) := Advanced(s.deq, s.ccs, |s.ring|);
    s.(deq := deq, ccs := ccs, erdp := s.base + TRB_BYTES * deq + HANDLER_BUSY, taken := s.taken + [out])
  }

  ghost predicate Placed(s: State) {
    && s.at < |s.ring| && s.deq < |s.ring|
    && (if s.pcs == s.ccs then s.deq <= s.at else s.at <= s.deq)
  }

  ghost function Pending(s: State): seq<Trb>
    requires Placed(s)
  {
    if s.pcs == s.ccs then s.ring[s.deq..s.at] else s.ring[s.deq..] + s.ring[..s.at]
  }

  ghost predicate Inv(s: State) {
    && Placed(s) && 0 <= s.ccs <= 1 && 0 <= s.pcs <= 1 && Front(s.ring, s.at, s.pcs)
    && Copies(s.posted, s.taken + Pending(s))
    && (s.erdp == s.base + TRB_BYTES * s.deq + HANDLER_BUSY || (s.erdp == s.base && s.taken == [] && s.deq == 0))
  }

  /** The controller never overruns: it posts only while fewer events are unread than the ring has slots. */
  ghost predicate Step(s: State, a: Act, t: State) {
    match a
    case Post(e) =>
      s.at < |s.ring| && 0 <= s.pcs <= 1 && |s.posted| - |s.taken| < |s.ring| && t == PostStep(s, e)
    case Poll => s.deq < |s.ring| && t == PollStep(s)
  }

  lemma PostShape(s: State, t: Trb)
    requires Inv(s) && |Pending(s)| < |s.ring|
    ensures var u := PostStep(s, t);
      Placed(u) && Front(u.ring, u.at, u.pcs) && Pending(u) == Pending(s) + [Stamp(t, s.pcs)]
  {
    var ring := s.ring[s.at := Stamp(t, s.pcs)];
    assert ring[..s.at + 1] == s.ring[..s.at] + [Stamp(t, s.pcs)];
    if s.pcs == s.ccs {
      assert ring[s.deq..s.at + 1] == s.ring[s.deq..s.at] + [Stamp(t, s.pcs)];
    } else {
      assert ring[s.deq..] == s.ring[s.deq..];
    }
  }

  lemma PostKeeps(s: State, t: Trb)
    requires Inv(s) && |Pending(s)| < |s.ring|
    ensures Inv(PostStep(s, t))
  {
    PostShape(s, t);
    TailJoins(s.posted, s.taken, Pending(s), t, s.pcs);
  }

  lemma PollShape(s: State)
    requires Inv(s)
    ensures var u := PollStep(s);
      && Placed(u) && 0 <= u.ccs <= 1
      && (if Pending(s) == [] then u == s
          else u.taken == s.taken + [Pending(s)[0]] && Pending(u) == Pending(s)[1..])
  {
    if Pending(s) == [] {
      assert s.deq == s.at;
    } else {
      assert Pending(s)[0] == s.ring[s.deq];
      if s.pcs != s.ccs {
        assert s.ring[s.deq..][1..] == s.ring[s.deq + 1..];
        assert Pending(s)[1..] == s.ring[s.deq + 1..] + s.ring[..s.at];
      }
    }
  }

  lemma PollKeeps(s: State)
    requires Inv(s)
    ensures Inv(PollStep(s))
    ensures |s.taken| < |s.posted| ==>
      var u := PollStep(s);
      |u.taken| == |s.taken| + 1 && s.taken <= u.taken && SameBlock(s.posted[|s.taken|], u.taken[|s.taken|])
    ensures |s.taken| == |s.posted| ==> PollStep(s) == s
  {
    PollShape(s);
    var u := PollStep(s);
    if Pending(s) != [] {
      HeadMoves(s.posted, s.taken, Pending(s));
    }
  }

  ghost predicate IsRun(run: seq<State>, acts: seq<Act>, size: nat, base: nat) {
    && size > 0 && |run| == |acts| + 1 && run[0] == State(seq(size, i => ZERO), 0, 1, 0, 1, base, base, [], [])
    && forall i :: 0 <= i < |acts| ==> Step(run[i], acts[i], run[i + 1])
  }

  lemma {:induction false} RunInv(run: seq<State>, acts: seq<Act>, size: nat, base: nat, i: nat)
    requires IsRun(run, acts, size, base) && i < |run|
    ensures Inv(run[i])
  {
    if i == 0 {
      assert Pending(run[0]) == [];
    } else {
      RunInv(run, acts, size, base, i - 1);
      var s, a := run[i - 1], acts[i - 1];
      assert Step(s, a, run[i]);
      match a
      case Post(t) => PostKeeps(s, t);
      case Poll => PollKeeps(s);
    }
  }

  /** Each event is delivered exactly once, in order and with all its fields, and the register always names
      the next unread slot. */
  lemma RunInOrder(run: seq<State>, acts: seq<Act>, size: nat, base: nat, i: nat)
    requires IsRun(run, acts, size, base) && i < |run|
    ensures Inv(run[i]) && |run[i].taken| <= |run[i].posted|
    ensures forall k :: 0 <= k < |run[i].taken| ==>
      var t, u := run[i].posted[k], run[i].taken[k];
      u.lo == t.lo && u.hi == t.hi && u.status == t.status && u.control / 2 == t.control / 2
  {
    RunInv(run, acts, size, base, i);
    SeenFirst(run[i].posted, run[i].taken, Pending(run[i]));
  }

  /** The pointer part of the register, for a ring aligned as its blocks are, is the address of the
      next unread slot: the flag in the low bits does not disturb it. */
  lemma RegisterNamesNext(s: State)
    requires Inv(s) && s.base % TRB_BYTES == 0
    ensures s.erdp / TRB_BYTES * TRB_BYTES == s.base + TRB_BYTES * s.deq
    ensures Pending(s) != [] ==> Pending(s)[0] == s.ring[s.deq]
  {
  }
}
