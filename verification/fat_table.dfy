/** The FAT16 allocation table as a heap of linked clusters (fs/fat16.c): chains, their
    acyclicity and separation, and the effect of allocating, linking and freeing. */
module FatTable {
  import opened Bytes

  const END_OF_CHAIN: u16 := 0xFFF8      // this and above end a chain
  const NEW_END: u16 := 0xFFFF
  const MAX_CLUSTERS: nat := 65524       // bound for FAT16 in Microsoft's FAT specification v1.03

  /** Entries 0 and 1 are reserved; entry `c` belongs to cluster `c`. */
  type Fat = seq<u16>

  predicate FatOk(fat: Fat) {
    2 <= |fat| <= MAX_CLUSTERS + 2
  }

  predicate InTable(fat: Fat, c: nat) {
    2 <= c < |fat|
  }

  /** The lowest free cluster. */
  ghost predicate Lowest(fat: Fat, c: u16) {
    InTable(fat, c) && fat[c] == 0 && forall k: nat :: 2 <= k < c ==> fat[k] != 0
  }

  /** Following entry by entry from the first cluster of `ch` visits `ch` and then ends. */
  ghost predicate Chain(fat: Fat, ch: seq<u16>) {
    && ch != []
    && (forall i :: 0 <= i < |ch| ==> InTable(fat, ch[i]))
    && (forall i :: 0 <= i < |ch| - 1 ==> fat[ch[i]] == ch[i + 1])
    && fat[ch[|ch| - 1]] >= END_OF_CHAIN
  }

  /** The clusters of a file; a file without contents may have none. */
  ghost predicate ChainOk(fat: Fat, ch: seq<u16>) {
    ch == [] || Chain(fat, ch)
  }

  ghost predicate Distinct(ch: seq<u16>) {
    forall i, j :: 0 <= i < j < |ch| ==> ch[i] != ch[j]
  }

  lemma {:induction false} NoRevisit(fat: Fat, ch: seq<u16>, i: nat, j: nat)
    requires FatOk(fat) && Chain(fat, ch) && i < j < |ch|
    ensures ch[i] != ch[j]
    decreases |ch| - j
  {
    assert fat[ch[i]] == ch[i + 1] && InTable(fat, ch[i + 1]);
    if ch[i] == ch[j] && j < |ch| - 1 {
      assert fat[ch[j]] == ch[j + 1];
      NoRevisit(fat, ch, i + 1, j + 1);
    }
  }

  /** A chain that ends cannot visit a cluster twice. */
  lemma ChainDistinct(fat: Fat, ch: seq<u16>)
    requires FatOk(fat) && Chain(fat, ch)
    ensures Distinct(ch)
  {
    forall i, j | 0 <= i < j < |ch| ensures ch[i] != ch[j] {
      NoRevisit(fat, ch, i, j);
    }
  }

  /** The first cluster determines the chain. */
  lemma {:induction false} ChainUnique(fat: Fat, a: seq<u16>, b: seq<u16>)
    requires FatOk(fat) && Chain(fat, a) && Chain(fat, b) && a[0] == b[0]
    ensures a == b
    decreases |a|
  {
    ChainGoesOn(fat, a);
    ChainGoesOn(fat, b);
    if |a| > 1 {
      ChainTail(fat, a);
      ChainTail(fat, b);
      ChainUnique(fat, a[1..], b[1..]);
      assert a == [a[0]] + a[1..] && b == [b[0]] + b[1..];
    } else {
      assert a == [a[0]] && b == [b[0]];
    }
  }

  lemma ChainGoesOn(fat: Fat, ch: seq<u16>)
    requires FatOk(fat) && Chain(fat, ch)
    ensures |ch| > 1 <==> fat[ch[0]] < END_OF_CHAIN
    ensures |ch| > 1 ==> fat[ch[0]] == ch[1]
  {
    if |ch| > 1 {
      assert InTable(fat, ch[1]);
    }
  }

  /** The entry of a cluster is the next cluster, or an end mark exactly at the end. */
  lemma ChainLink(fat: Fat, ch: seq<u16>, k: nat)
    requires FatOk(fat) && Chain(fat, ch) && k < |ch|
    ensures fat[ch[k]] >= 0xFFF8 <==> k == |ch| - 1
    ensures k < |ch| - 1 ==> fat[ch[k]] == ch[k + 1] && InTable(fat, ch[k + 1])
  {
    if k < |ch| - 1 {
      assert InTable(fat, ch[k + 1]);
    }
  }

  /** Every mark from 0xFFF8 on ends a chain. */
  lemma EndMark(fat: Fat, c: u16)
    requires FatOk(fat) && InTable(fat, c)
    ensures Chain(fat, [c]) <==> fat[c] >= 0xFFF8
    ensures fat[c] >= 0xFFF8 && InRange(fat) ==> Freed(fat, c) == fat[c := 0]
  {
  }

  lemma ChainTail(fat: Fat, ch: seq<u16>)
    requires Chain(fat, ch) && |ch| > 1
    ensures Chain(fat, ch[1..])
  {
  }

  lemma ChainFrame(fat: Fat, fat': Fat, ch: seq<u16>)
    requires ChainOk(fat, ch) && |fat'| == |fat| && forall c :: c in ch ==> c < |fat| && fat'[c] == fat[c]
    ensures ChainOk(fat', ch)
  {
  }

  // ---- allocating and linking ----

  /** Takes free cluster `c` and puts it at the end of `ch`. */
  function Linked(fat: Fat, ch: seq<u16>, c: u16): (r: Fat)
    requires InTable(fat, c) && forall i :: 0 <= i < |ch| ==> ch[i] < |fat|
    ensures |r| == |fat|
  {
    var taken := fat[c := NEW_END];
    if ch == [] then taken else taken[ch[|ch| - 1] := c]
  }

  lemma LinkedChain(fat: Fat, ch: seq<u16>, c: u16)
    requires FatOk(fat) && ChainOk(fat, ch) && InTable(fat, c) && fat[c] == 0
    ensures c !in ch && Chain(Linked(fat, ch, c), ch + [c])
  {
    var fat', ch' := Linked(fat, ch, c), ch + [c];
    if ch != [] {
      ChainDistinct(fat, ch);
      NonZeroOnChain(fat, ch);
      forall i | 0 <= i < |ch'| - 1 ensures fat'[ch'[i]] == ch'[i + 1] {
        if i < |ch| - 1 {
          assert ch[i] != ch[|ch| - 1] && ch[i] != c;
        }
      }
    }
  }

  lemma NonZeroOnChain(fat: Fat, ch: seq<u16>)
    requires FatOk(fat) && Chain(fat, ch)
    ensures forall c :: c in ch ==> fat[c] != 0
  {
    forall i | 0 <= i < |ch| ensures fat[ch[i]] != 0 {
      assert i < |ch| - 1 ==> InTable(fat, ch[i + 1]);
    }
  }

  // ---- freeing ----

  /** Every entry is free, an end mark or a cluster of the volume. */
  ghost predicate InRange(fat: Fat) {
    forall c :: 2 <= c < |fat| ==> fat[c] < 2 || fat[c] >= END_OF_CHAIN || fat[c] < |fat|
  }

  function NonZero(fat: Fat): (r: nat)
    ensures r <= |fat|
  {
    if fat == [] then 0 else NonZero(fat[..|fat| - 1]) + (if fat[|fat| - 1] != 0 then 1 else 0)
  }

  lemma {:induction false} NonZeroUpdate(fat: Fat, c: nat, v: u16)
    requires c < |fat|
    ensures NonZero(fat[c := v]) == NonZero(fat) + (if v != 0 then 1 else 0) - (if fat[c] != 0 then 1 else 0)
  {
    var n := |fat| - 1;
    if c == n {
      assert fat[c := v][..n] == fat[..n];
    } else {
      assert fat[c := v][..n] == fat[..n][c := v];
      NonZeroUpdate(fat[..n], c, v);
    }
  }

  predicate Follows(fat: Fat, c: u16) {
    2 <= c < END_OF_CHAIN ==> c < |fat|
  }

  /** What `fat16_free_cluster_chain` leaves. It is defined on every table whose entries are in
      range, also on one with cycles: each step clears an entry that was not clear, or stops. */
  function Freed(fat: Fat, c: u16): (r: Fat)
    requires InRange(fat) && Follows(fat, c)
    ensures |r| == |fat| && InRange(r)
    ensures forall k :: 0 <= k < |fat| ==> r[k] == fat[k] || r[k] == 0
    decreases NonZero(fat), if 2 <= c < END_OF_CHAIN then 1 else 0
  {
    if !(2 <= c < END_OF_CHAIN) then fat
    else
      NonZeroUpdate(fat, c, 0);
      Freed(fat[c := 0], fat[c])
  }

  /** Clears the entries of a list. */
  function Cleared(fat: Fat, ch: seq<u16>): (r: Fat)
    requires forall i :: 0 <= i < |ch| ==> ch[i] < |fat|
    ensures |r| == |fat|
    ensures forall k: u16 :: k < |fat| ==> r[k] == if k in ch then 0 else fat[k]
    decreases |ch|
  {
    if ch == [] then fat else
    assert forall i :: 1 <= i < |ch| ==> ch[i] == ch[1..][i - 1];
    Cleared(fat[ch[0] := 0], ch[1..])
  }

  /** On a well-formed file exactly its chain is freed. */
  lemma {:induction false} FreedIsCleared(fat: Fat, ch: seq<u16>)
    requires FatOk(fat) && InRange(fat) && Chain(fat, ch)
    ensures Freed(fat, ch[0]) == Cleared(fat, ch)
    decreases |ch|
  {
    var fat' := fat[ch[0] := 0];
    ChainDistinct(fat, ch);
    if |ch| == 1 {
      assert ch[1..] == [];
    } else {
      assert fat[ch[0]] == ch[1];
      ChainTail(fat, ch);
      ChainFrame(fat, fat', ch[1..]);
      FreedIsCleared(fat', ch[1..]);
    }
  }

  // ---- the volume as a forest of chains ----

  /** The table together with the chain of every live file. */
  datatype Files = Files(fat: Fat, chains: map<nat, seq<u16>>, next: nat)

  ghost predicate Apart(a: seq<u16>, b: seq<u16>) {
    forall c: u16 :: c in a ==> c !in b
  }

  ghost predicate Held(chains: map<nat, seq<u16>>, c: u16) {
    exists id :: id in chains && c in chains[id]
  }

  ghost function SumLengths(chains: map<nat, seq<u16>>, n: nat): nat {
    if n == 0 then 0 else SumLengths(chains, n - 1) + (if n - 1 in chains then |chains[n - 1]| else 0)
  }

  function FreeClusters(fat: Fat): nat
    requires FatOk(fat)
  {
    |fat[2..]| - NonZero(fat[2..])
  }

  /** Live chains are in range, acyclic and pairwise disjoint, no cluster is lost, and free
      clusters plus chain lengths make up the volume. */
  ghost predicate ForestInv(s: Files) {
    && FatOk(s.fat)
    && (forall id :: id in s.chains ==> id < s.next)
    && (forall id {:trigger ChainOk(s.fat, s.chains[id])} :: id in s.chains ==> ChainOk(s.fat, s.chains[id]))
    && (forall id, jd {:trigger Apart(s.chains[id], s.chains[jd])} ::
         id in s.chains && jd in s.chains && id != jd ==> Apart(s.chains[id], s.chains[jd]))
    && (forall c: u16 {:trigger Held(s.chains, c)} :: InTable(s.fat, c) && s.fat[c] != 0 ==> Held(s.chains, c))
    && FreeClusters(s.fat) + SumLengths(s.chains, s.next) == |s.fat| - 2
  }

  lemma {:induction false} SumSame(a: map<nat, seq<u16>>, b: map<nat, seq<u16>>, n: nat)
    requires forall id :: id < n ==> (id in a <==> id in b)
    requires forall id :: id < n && id in a ==> |a[id]| == |b[id]|
    ensures SumLengths(a, n) == SumLengths(b, n)
  {
    if n > 0 { SumSame(a, b, n - 1); }
  }

  lemma {:induction false} SumPut(a: map<nat, seq<u16>>, id: nat, ch: seq<u16>, n: nat)
    requires id in a && id < n
    ensures SumLengths(a[id := ch], n) == SumLengths(a, n) + |ch| - |a[id]|
  {
    if id < n - 1 { SumPut(a, id, ch, n - 1); } else { SumSame(a, a[id := ch], n - 1); }
  }

  lemma {:induction false} SumDrop(a: map<nat, seq<u16>>, id: nat, n: nat)
    requires id in a && id < n
    ensures SumLengths(a - {id}, n) == SumLengths(a, n) - |a[id]|
  {
    if id < n - 1 { SumDrop(a, id, n - 1); } else { SumSame(a, a - {id}, n - 1); }
  }

  /** A new file owns no cluster yet. */
  function Added(s: Files): Files {
    s.(chains := s.chains[s.next := []], next := s.next + 1)
  }

  /** File `id` takes free cluster `c`. */
  function Grown(s: Files, id: nat, c: u16): Files
    requires id in s.chains && InTable(s.fat, c) && ChainOk(s.fat, s.chains[id])
  {
    s.(fat := Linked(s.fat, s.chains[id], c), chains := s.chains[id := s.chains[id] + [c]])
  }

  /** File `id` gives its clusters back. */
  function Dropped(s: Files, id: nat): Files
    requires id in s.chains && ChainOk(s.fat, s.chains[id])
  {
    s.(fat := Cleared(s.fat, s.chains[id]), chains := s.chains - {id})
  }

  lemma AddedKeeps(s: Files)
    requires ForestInv(s)
    ensures ForestInv(Added(s))
  {
    var t := Added(s);
    assert s.next !in s.chains;
    forall c: u16 | InTable(s.fat, c) && s.fat[c] != 0 ensures Held(t.chains, c) {
      assert Held(s.chains, c);
      var id :| id in s.chains && c in s.chains[id];
      assert id in t.chains && c in t.chains[id];
    }
    SumSame(s.chains, t.chains, s.next);
  }

  lemma LinkedCount(fat: Fat, ch: seq<u16>, c: u16)
    requires FatOk(fat) && ChainOk(fat, ch) && InTable(fat, c) && fat[c] == 0
    ensures NonZero(Linked(fat, ch, c)[2..]) == NonZero(fat[2..]) + 1
  {
    var taken := fat[c := NEW_END];
    NonZeroUpdate(fat[2..], c - 2, NEW_END);
    assert taken[2..] == fat[2..][c - 2 := NEW_END];
    if ch != [] {
      var last := ch[|ch| - 1];
      NonZeroOnChain(fat, ch);
      assert InTable(fat, last) && taken[last] != 0 && last in ch;
      NonZeroUpdate(taken[2..], last - 2, c);
      assert taken[last := c][2..] == taken[2..][last - 2 := c];
    }
  }

  /** Another file's chain neither holds the free cluster nor the changed link. */
  lemma GrownOthers(s: Files, id: nat, c: u16, jd: nat)
    requires ForestInv(s) && id in s.chains && InTable(s.fat, c) && s.fat[c] == 0
    requires jd in s.chains && jd != id
    ensures ChainOk(Grown(s, id, c).fat, s.chains[jd]) && c !in s.chains[jd]
    ensures Apart(s.chains[id] + [c], s.chains[jd]) && Apart(s.chains[jd], s.chains[id] + [c])
  {
    var ch, other := s.chains[id], s.chains[jd];
    assert Apart(ch, other) && Apart(other, ch) && ChainOk(s.fat, ch) && ChainOk(s.fat, other);
    if other != [] { NonZeroOnChain(s.fat, other); }
    assert ch != [] ==> ch[|ch| - 1] in ch;
    ChainFrame(s.fat, Linked(s.fat, ch, c), other);
  }

  lemma GrownHeld(s: Files, id: nat, c: u16, x: u16)
    requires ForestInv(s) && id in s.chains && InTable(s.fat, c) && s.fat[c] == 0
    requires InTable(s.fat, x) && Grown(s, id, c).fat[x] != 0
    ensures Held(Grown(s, id, c).chains, x)
  {
    var t, ch := Grown(s, id, c), s.chains[id];
    if x == c || x in ch {
      assert x in t.chains[id];
    } else {
      assert ch != [] ==> ch[|ch| - 1] in ch;
      assert t.fat[x] == s.fat[x] && Held(s.chains, x);
      var jd :| jd in s.chains && x in s.chains[jd];
      assert jd in t.chains && x in t.chains[jd];
    }
  }

  lemma GrownKeeps(s: Files, id: nat, c: u16)
    requires ForestInv(s) && id in s.chains && InTable(s.fat, c) && s.fat[c] == 0
    ensures ForestInv(Grown(s, id, c))
  {
    var t, ch := Grown(s, id, c), s.chains[id];
    assert ChainOk(s.fat, ch);
    LinkedChain(s.fat, ch, c);
    forall jd | jd in t.chains ensures ChainOk(t.fat, t.chains[jd]) {
      if jd != id { GrownOthers(s, id, c, jd); }
    }
    forall jd, kd | jd in t.chains && kd in t.chains && jd != kd ensures Apart(t.chains[jd], t.chains[kd]) {
      if jd == id { GrownOthers(s, id, c, kd); }
      else if kd == id { GrownOthers(s, id, c, jd); }
      else { assert Apart(s.chains[jd], s.chains[kd]); }
    }
    forall x: u16 | InTable(t.fat, x) && t.fat[x] != 0 ensures Held(t.chains, x) {
      GrownHeld(s, id, c, x);
    }
    LinkedCount(s.fat, ch, c);
    SumPut(s.chains, id, ch + [c], s.next);
  }

  lemma {:induction false} ClearedCount(fat: Fat, ch: seq<u16>)
    requires FatOk(fat) && Distinct(ch) && forall i :: 0 <= i < |ch| ==> 2 <= ch[i] < |fat|
    requires forall i :: 0 <= i < |ch| ==> fat[ch[i]] != 0
    ensures NonZero(Cleared(fat, ch)[2..]) == NonZero(fat[2..]) - |ch|
    decreases |ch|
  {
    if ch != [] {
      var fat' := fat[ch[0] := 0];
      NonZeroUpdate(fat[2..], ch[0] - 2, 0);
      assert fat'[2..] == fat[2..][ch[0] - 2 := 0];
      ClearedCount(fat', ch[1..]);
    }
  }

  lemma DroppedKeeps(s: Files, id: nat)
    requires ForestInv(s) && id in s.chains
    ensures ForestInv(Dropped(s, id))
  {
    var t, ch := Dropped(s, id), s.chains[id];
    assert ChainOk(s.fat, ch);
    forall jd | jd in t.chains ensures ChainOk(t.fat, t.chains[jd]) {
      assert Apart(s.chains[jd], ch) && ChainOk(s.fat, s.chains[jd]);
      ChainFrame(s.fat, t.fat, s.chains[jd]);
    }
    forall jd, kd | jd in t.chains && kd in t.chains && jd != kd ensures Apart(t.chains[jd], t.chains[kd]) {
      assert Apart(s.chains[jd], s.chains[kd]);
    }
    forall x: u16 | InTable(t.fat, x) && t.fat[x] != 0 ensures Held(t.chains, x) {
      assert Held(s.chains, x);
      var jd :| jd in s.chains && x in s.chains[jd];
      assert jd in t.chains && x in t.chains[jd];
    }
    if ch != [] {
      ChainDistinct(s.fat, ch);
      NonZeroOnChain(s.fat, ch);
      ClearedCount(s.fat, ch);
    }
    SumDrop(s.chains, id, s.next);
  }

  // ---- runs ----

  datatype Op = NewFile | Take(id: nat, c: u16) | Remove(id: nat)

  ghost predicate Step(s: Files, op: Op, t: Files) {
    match op
    case NewFile => t == Added(s)
    case Take(id, c) =>
      && id in s.chains && InTable(s.fat, c) && s.fat[c] == 0 && ChainOk(s.fat, s.chains[id])
      && t == Grown(s, id, c)
    case Remove(id) => id in s.chains && ChainOk(s.fat, s.chains[id]) && t == Dropped(s, id)
  }

  lemma StepForest(s: Files, op: Op, t: Files)
    requires ForestInv(s) && Step(s, op, t)
    ensures ForestInv(t)
  {
    match op
    case NewFile => AddedKeeps(s);
    case Take(id, c) => GrownKeeps(s, id, c);
    case Remove(id) => DroppedKeeps(s, id);
  }

  /** Creation, extension (by however many writes) and deletion in any order keep the forest. */
  lemma {:induction false} RunForest(run: seq<Files>, ops: seq<Op>, i: nat)
    requires |run| == |ops| + 1 && i < |run| && ForestInv(run[0])
    requires forall k :: 0 <= k < |ops| ==> Step(run[k], ops[k], run[k + 1])
    ensures ForestInv(run[i])
  {
    if i > 0 {
      RunForest(run, ops, i - 1);
      StepForest(run[i - 1], ops[i - 1], run[i]);
    }
  }

  /** Deleting a file right after creating it restores the table. */
  lemma CreateDeleteRestores(s: Files, c: u16)
    requires ForestInv(s) && InTable(s.fat, c) && s.fat[c] == 0
    ensures var t := Grown(Added(s), s.next, c);
      Dropped(t, s.next).fat == s.fat && Dropped(t, s.next).chains == s.chains
  {
    AddedKeeps(s);
    var t := Grown(Added(s), s.next, c);
    GrownKeeps(Added(s), s.next, c);
    assert t.chains[s.next] == [c];
    assert Cleared(t.fat, [c])[c] == 0;
    assert s.next !in s.chains;
  }

  /** The table of a sound volume is in range, so freeing is defined on it. */
  lemma ForestInRange(s: Files)
    requires ForestInv(s)
    ensures InRange(s.fat)
  {
    forall c | 2 <= c < |s.fat| ensures s.fat[c] < 2 || s.fat[c] >= END_OF_CHAIN || s.fat[c] < |s.fat| {
      if s.fat[c] != 0 {
        assert InTable(s.fat, c) && Held(s.chains, c);
        var id :| id in s.chains && c in s.chains[id];
        var ch := s.chains[id];
        assert ChainOk(s.fat, ch);
        var i :| 0 <= i < |ch| && ch[i] == c;
        assert i < |ch| - 1 ==> s.fat[ch[i]] == ch[i + 1] && InTable(s.fat, ch[i + 1]);
      }
    }
  }
}
