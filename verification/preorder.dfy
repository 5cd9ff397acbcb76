/** Trees and their preorder listings with parent indices, and the truncation that
    `serialize_node` performs at `DISKFS_MAX_NODES`. */
module Preorder {
  import opened Bytes
  import opened SnapshotFormat
  import FileState

  function Size(f: Forest): nat {
    match f
    case Empty => 0
    case Grove(_, kids, next) => 1 + Size(kids) + Size(next)
  }

  ghost predicate ForestOk(f: Forest) {
    match f
    case Empty => true
    case Grove(m, kids, next) => MetaOk(m) && ForestOk(kids) && ForestOk(next)
  }

  /** The records of a forest whose roots hang below index `parent` and whose first node gets
      index `idx`. */
  function Pre(f: Forest, parent: int, idx: nat): (r: seq<Record>)
    ensures |r| == Size(f)
  {
    match f
    case Empty => []
    case Grove(m, kids, next) =>
      [Record(parent, m)] + Pre(kids, idx, idx + 1) + Pre(next, parent, idx + 1 + Size(kids))
  }

  /** One unfolding of `Pre`. */
  lemma PreOne(f: Forest, parent: int, idx: nat)
    requires f.Grove?
    ensures Pre(f, parent, idx) ==
      [Record(parent, f.meta)] + Pre(f.kids, idx, idx + 1) + Pre(f.next, parent, idx + 1 + Size(f.kids))
  {
  }

  ghost predicate ParentsOk(rs: seq<Record>, parent: int, idx: nat) {
    forall i :: 0 <= i < |rs| ==> rs[i].parent == parent || idx <= rs[i].parent < idx + i
  }

  lemma ParentsOk3(r: Record, a: seq<Record>, b: seq<Record>, parent: int, idx: nat)
    requires r.parent == parent < idx && ParentsOk(a, idx, idx + 1) && ParentsOk(b, parent, idx + 1 + |a|)
    ensures ParentsOk([r] + a + b, parent, idx)
  {
    var s := [r] + a + b;
    forall i | 0 <= i < |s| ensures s[i].parent == parent || idx <= s[i].parent < idx + i {
      assert s[i] == if i == 0 then r else if i <= |a| then a[i - 1] else b[i - 1 - |a|];
    }
  }

  /** Every record names an earlier one as its parent, or the given `parent`. */
  lemma {:induction false} ParentsFirst(f: Forest, parent: int, idx: nat)
    requires parent < idx
    ensures ParentsOk(Pre(f, parent, idx), parent, idx)
  {
    if f.Grove? {
      var a, b := Pre(f.kids, idx, idx + 1), Pre(f.next, parent, idx + 1 + Size(f.kids));
      ParentsFirst(f.kids, idx, idx + 1);
      ParentsFirst(f.next, parent, idx + 1 + Size(f.kids));
      PreOne(f, parent, idx);
      ParentsOk3(Record(parent, f.meta), a, b, parent, idx);
    }
  }

  /** A listing whose indices stay below the limit can be encoded. */
  lemma {:induction false} PreEncodes(f: Forest, parent: int, idx: nat)
    requires ForestOk(f) && -1 <= parent < idx && idx + Size(f) <= MAX_NODES
    ensures RecordsOk(Pre(f, parent, idx))
  {
    if f.Grove? {
      PreEncodes(f.kids, idx, idx + 1);
      PreEncodes(f.next, parent, idx + 1 + Size(f.kids));
      PreOne(f, parent, idx);
    }
  }

  /** The forest of the first `n` nodes in preorder. */
  function Take(f: Forest, n: nat): Forest {
    match f
    case Empty => Empty
    case Grove(m, kids, next) =>
      if n == 0 then Empty
      else Grove(m, Take(kids, n - 1), if n - 1 < Size(kids) then Empty else Take(next, n - 1 - Size(kids)))
  }

  lemma {:induction false} TakeAll(f: Forest, n: nat)
    requires n >= Size(f)
    ensures Take(f, n) == f
  {
    if f.Grove? {
      TakeAll(f.kids, n - 1);
      TakeAll(f.next, n - 1 - Size(f.kids));
    }
  }

  lemma {:induction false} TakeOk(f: Forest, n: nat)
    requires ForestOk(f)
    ensures ForestOk(Take(f, n))
  {
    if f.Grove? && n > 0 {
      TakeOk(f.kids, n - 1);
      if n - 1 >= Size(f.kids) {
        TakeOk(f.next, n - 1 - Size(f.kids));
      }
    }
  }

  /** Cutting the listing is listing the cut forest. */
  lemma {:induction false} PreTake(f: Forest, n: nat, parent: int, idx: nat)
    ensures Size(Take(f, n)) == Min(n, Size(f))
    ensures Pre(Take(f, n), parent, idx) == Pre(f, parent, idx)[..Min(n, Size(f))]
    decreases f, 2
  {
    if n >= Size(f) {
      TakeAll(f, n);
      assert Pre(f, parent, idx)[..Size(f)] == Pre(f, parent, idx);
    } else if n == 0 {
      assert Take(f, n) == Empty;
    } else {
      PreTakeStep(f, n, parent, idx, Take(f, n), Pre(f, parent, idx));
    }
  }

  lemma {:induction false} PreTakeStep(f: Forest, n: nat, parent: int, idx: nat, t: Forest, rs: seq<Record>)
    requires 0 < n < Size(f) && t == Take(f, n) && rs == Pre(f, parent, idx)
    ensures Size(t) == n && Pre(t, parent, idx) == rs[..n]
    decreases f, 1
  {
    var k := Size(f.kids);
    var r, a, b := Record(parent, f.meta), Pre(f.kids, idx, idx + 1), Pre(f.next, parent, idx + 1 + k);
    assert rs == [r] + a + b by { PreOne(f, parent, idx); }
    Cut3(r, a, b, n);
    if n - 1 >= k {
      PreTakeNext(f, n, parent, idx, t, r, a, b);
    } else {
      PreTakeKids(f, n, parent, idx, t, r, a);
    }
  }

  lemma {:induction false} PreTakeNext(f: Forest, n: nat, parent: int, idx: nat, t: Forest, r: Record, a: seq<Record>,
                                       b: seq<Record>)
    requires f.Grove? && |a| < n < Size(f) && t == Take(f, n) && r == Record(parent, f.meta)
    requires a == Pre(f.kids, idx, idx + 1) && b == Pre(f.next, parent, idx + 1 + |a|)
    ensures Size(t) == n && Pre(t, parent, idx) == [r] + a + b[..n - 1 - |a|]
    decreases f, 0
  {
    var m := n - 1 - |a|;
    var next := Take(f.next, m);
    assert t == Grove(f.meta, f.kids, next) by { TakeShape(f, n); }
    assert Pre(next, parent, idx + 1 + |a|) == b[..m] by { PreTake(f.next, m, parent, idx + 1 + |a|); }
    TookBoth(t, r, a, b, n, parent, idx);
  }

  lemma {:induction false} PreTakeKids(f: Forest, n: nat, parent: int, idx: nat, t: Forest, r: Record, a: seq<Record>)
    requires f.Grove? && 0 < n <= |a| && t == Take(f, n) && r == Record(parent, f.meta)
    requires a == Pre(f.kids, idx, idx + 1)
    ensures Size(t) == n && Pre(t, parent, idx) == [r] + a[..n - 1] + []
    decreases f, 0
  {
    var kids := Take(f.kids, n - 1);
    assert t == Grove(f.meta, kids, Empty) by { TakeShape(f, n); }
    assert Pre(kids, idx, idx + 1) == a[..n - 1] by { PreTake(f.kids, n - 1, idx, idx + 1); }
    TookKids(t, r, a, n, parent, idx);
  }

  lemma {:induction false} TakeShape(f: Forest, n: nat)
    requires f.Grove? && n > 0
    ensures n - 1 >= Size(f.kids) ==> Take(f, n) == Grove(f.meta, f.kids, Take(f.next, n - 1 - Size(f.kids)))
    ensures n - 1 < Size(f.kids) ==> Take(f, n) == Grove(f.meta, Take(f.kids, n - 1), Empty)
  {
    if n - 1 >= Size(f.kids) { TakeAll(f.kids, n - 1); }
  }

  /** A cut listing whose indices stay below the limit can be encoded. */
  lemma CutOk(f: Forest, n: nat, parent: int, idx: nat)
    requires ForestOk(f) && -1 <= parent < idx && idx + n <= MAX_NODES
    ensures RecordsOk(Pre(Take(f, n), parent, idx)) && |Pre(Take(f, n), parent, idx)| == Min(n, Size(f))
  {
    TakeOk(f, n);
    PreTake(f, n, parent, idx);
    PreEncodes(Take(f, n), parent, idx);
  }

  lemma TookBoth(t: Forest, r: Record, a: seq<Record>, b: seq<Record>, n: nat, parent: int, idx: nat)
    requires t.Grove? && r == Record(parent, t.meta) && a == Pre(t.kids, idx, idx + 1) && |a| < n <= 1 + |a| + |b|
    requires Pre(t.next, parent, idx + 1 + Size(t.kids)) == b[..n - 1 - |a|]
    ensures Size(t) == n && Pre(t, parent, idx) == [r] + a + b[..n - 1 - |a|]
  {
    PreOne(t, parent, idx);
  }

  lemma TookKids(t: Forest, r: Record, a: seq<Record>, n: nat, parent: int, idx: nat)
    requires t.Grove? && t.next.Empty? && r == Record(parent, t.meta) && 0 < n <= 1 + |a|
    requires Pre(t.kids, idx, idx + 1) == a[..n - 1]
    ensures Size(t) == n && Pre(t, parent, idx) == [r] + a[..n - 1] + []
  {
    PreOne(t, parent, idx);
  }

  lemma Cut3<T>(r: T, a: seq<T>, b: seq<T>, n: nat)
    requires 0 < n <= 1 + |a| + |b|
    ensures n - 1 <= |a| ==> ([r] + a + b)[..n] == [r] + a[..n - 1] + []
    ensures n - 1 >= |a| ==> ([r] + a + b)[..n] == [r] + a + b[..n - 1 - |a|]
  {
  }

  /** What `measure_node` counts for the node itself. */
  function Own(m: Meta): nat {
    32 + |m.name|
    + (if m.kind != FileState.VFS_FILE then 0
       else if m.payload.InBlocks? then 4 + 4 * |m.payload.blocks| else m.size)
  }

  /** `measure_node`, summed over a forest. */
  function Measure(f: Forest): nat {
    match f
    case Empty => 0
    case Grove(m, kids, next) => Own(m) + Measure(kids) + Measure(next)
  }

  /** Only files carry a payload; the assumption `measure_node` makes. */
  ghost predicate PayloadsInFiles(f: Forest) {
    match f
    case Empty => true
    case Grove(m, kids, next) =>
      (m.kind != FileState.VFS_FILE ==> m.payload == Inline([])) && PayloadsInFiles(kids) && PayloadsInFiles(next)
  }

  /** What is saved of a node that is not a file has size 0. */
  ghost predicate SizesInFiles(f: Forest) {
    match f
    case Empty => true
    case Grove(m, kids, next) =>
      (m.kind != FileState.VFS_FILE ==> m.size == 0) && SizesInFiles(kids) && SizesInFiles(next)
  }

  lemma RecordLength(r: Record)
    requires RecordOk(r) && (r.meta.kind != FileState.VFS_FILE ==> r.meta.size == 0)
    ensures |Encode(r)| >= Own(r.meta)
    ensures |Encode(r)| == Own(r.meta) <==> (r.meta.kind != FileState.VFS_FILE ==> r.meta.payload == Inline([]))
  {
  }

  lemma EncodeAll3(r: Record, a: seq<Record>, b: seq<Record>)
    requires RecordOk(r) && RecordsOk(a) && RecordsOk(b)
    ensures RecordsOk([r] + a + b)
    ensures EncodeAll([r] + a + b) == Encode(r) + EncodeAll(a) + EncodeAll(b)
  {
    EncodeAllAppend([r], a);
    EncodeAllAppend([r] + a, b);
    assert EncodeAll([r]) == Encode(r) by { assert [r][..0] == []; }
  }

  /** The records `rs` of `f` take at least as many bytes as `measure_node` predicts, and exactly as
      many if and only if nothing but files carries a payload. */
  ghost predicate Measured(f: Forest, rs: seq<Record>) {
    && RecordsOk(rs) && |EncodeAll(rs)| >= Measure(f)
    && (|EncodeAll(rs)| == Measure(f) <==> PayloadsInFiles(f))
  }

  /** This holds of everything that the serializer emits. */
  lemma {:induction false} MeasureIsLength(f: Forest, parent: int, idx: nat)
    requires ForestOk(f) && SizesInFiles(f) && -1 <= parent < idx && idx + Size(f) <= MAX_NODES
    ensures Measured(f, Pre(f, parent, idx))
  {
    if f.Grove? {
      var a, b := Pre(f.kids, idx, idx + 1), Pre(f.next, parent, idx + 1 + Size(f.kids));
      assert Measured(f.kids, a) by { MeasureIsLength(f.kids, idx, idx + 1); }
      assert Measured(f.next, b) by { MeasureIsLength(f.next, parent, idx + 1 + Size(f.kids)); }
      MeasureStep(f, Record(parent, f.meta), a, b);
      PreOne(f, parent, idx);
    }
  }

  lemma MeasureStep(f: Forest, r: Record, a: seq<Record>, b: seq<Record>)
    requires f.Grove? && RecordOk(r) && r.meta == f.meta && (f.meta.kind != FileState.VFS_FILE ==> f.meta.size == 0)
    requires Measured(f.kids, a) && Measured(f.next, b)
    ensures Measured(f, [r] + a + b)
  {
    EncodeAll3(r, a, b);
    RecordLength(r);
  }

  /** The listing of a cut forest is the listing of its first tree, cut, followed by the listing
      of the remaining trees, cut to what is left: the step of the loop over children. */
  lemma TakeSplit(f: Forest, n: nat, parent: int, idx: nat)
    requires f.Grove?
    ensures var one := Min(n, 1 + Size(f.kids));
      Pre(Take(f, n), parent, idx) ==
        Pre(Take(Grove(f.meta, f.kids, Empty), n), parent, idx) + Pre(Take(f.next, n - one), parent, idx + one)
  {
    var first := Grove(f.meta, f.kids, Empty);
    if n > 0 {
      PreTake(f.kids, n - 1, idx, idx + 1);
      PreOne(Take(f, n), parent, idx);
      PreOne(Take(first, n), parent, idx);
      TakeNone(f.next);
    }
  }

  lemma TakeNone(f: Forest)
    ensures Take(f, 0) == Empty
  {
  }

  /** The listing of one cut tree: its record, then the listing of its children, cut. */
  lemma TakeTree(m: Meta, kids: Forest, n: nat, parent: int, idx: nat)
    requires n > 0
    ensures Pre(Take(Grove(m, kids, Empty), n), parent, idx) ==
      [Record(parent, m)] + Pre(Take(kids, n - 1), idx, idx + 1)
  {
    PreOne(Take(Grove(m, kids, Empty), n), parent, idx);
  }
}
