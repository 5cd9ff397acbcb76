/** Paths in a saved tree: which node they name, and how many nodes a snapshot lists before it. */
module Places {
  import opened Bytes
  import opened FileState
  import opened VfsTree
  import opened TreeImage
  import P = Preorder

  /** A node of a forest: how many nodes come before it in preorder, its saved form, what is below it. */
  datatype Hit = Hit(rank: nat, meta: Meta, kids: Forest)

  /** The first tree of the forest that has the name. */
  function Entry(f: Forest, name: Text): Option<Hit> {
    match f
    case Empty => None
    case Grove(m, kids, next) =>
      if m.name == name then Some(Hit(0, m, kids))
      else
        var r := Entry(next, name);
        if r.None? then None else Some(r.value.(rank := 1 + P.Size(kids) + r.value.rank))
  }

  /** The node of a tree that a path leads to. */
  function Seek(f: Forest, cs: seq<Text>): Option<Hit>
    requires f.Grove?
  {
    if cs == [] then Some(Hit(0, f.meta, f.kids))
    else
      var up := Seek(f, cs[..|cs| - 1]);
      if up.None? || up.value.meta.kind != VFS_DIRECTORY then None
      else
        var r := Entry(up.value.kids, cs[|cs| - 1]);
        if r.None? then None else Some(r.value.(rank := up.value.rank + 1 + r.value.rank))
  }

  // ---- a forest and the nodes that show it ----

  /** Node `w` is what was hit. */
  ghost predicate Shown(nodes: map<nat, Node>, w: Option<nat>, h: Option<Hit>, hi: nat) {
    && (w.Some? <==> h.Some?)
    && (w.Some? ==>
          && w.value in nodes && NodeSound(nodes[w.value]) && MetaOf(nodes[w.value]) == h.value.meta
          && Shows(nodes, nodes[w.value].children, h.value.kids, 0, hi))
  }

  lemma {:induction false} EntryShown(nodes: map<nat, Node>, ids: seq<nat>, f: Forest, hi: nat, name: Text)
    requires Shows(nodes, ids, f, 0, hi)
    ensures Shown(nodes, Find(nodes, ids, name), Entry(f, name), hi)
    decreases f
  {
    if f.Grove? && f.meta.name != name { EntryShown(nodes, ids[1..], f.next, hi, name); }
  }

  /** A path leads to a node if and only if it leads to its saved form. */
  lemma {:induction false} SeekShown(nodes: map<nat, Node>, f: Forest, hi: nat, cs: seq<Text>)
    requires ROOT in nodes && Shows(nodes, [ROOT], f, 0, hi)
    ensures f.Grove? && Shown(nodes, Walk(nodes, ROOT, cs), Seek(f, cs), hi)
    decreases |cs|
  {
    if cs != [] {
      var n := |cs| - 1;
      SeekShown(nodes, f, hi, cs[..n]);
      var up := Walk(nodes, ROOT, cs[..n]);
      if up.Some? { EntryShown(nodes, nodes[up.value].children, Seek(f, cs[..n]).value.kids, hi, cs[n]); }
    }
  }

  // ---- a cut listing ----

  /** What of a hit is left among the first `n` nodes. */
  function Cut(h: Option<Hit>, n: nat): Option<Hit> {
    if h.None? || h.value.rank >= n then None
    else Some(h.value.(kids := P.Take(h.value.kids, n - 1 - h.value.rank)))
  }

  lemma {:induction false} EntryCut(f: Forest, n: nat, name: Text)
    ensures Entry(P.Take(f, n), name) == Cut(Entry(f, name), n)
    decreases f
  {
    if f.Grove? && n > 0 && f.meta.name != name && n - 1 >= P.Size(f.kids) {
      P.TakeAll(f.kids, n - 1);
      EntryCut(f.next, n - 1 - P.Size(f.kids), name);
    }
  }

  /** Among the first `n` nodes a path leads where it led, if and only if fewer than `n` come before. */
  lemma {:induction false} SeekCut(f: Forest, n: nat, cs: seq<Text>)
    requires f.Grove? && n > 0
    ensures Seek(P.Take(f, n), cs) == Cut(Seek(f, cs), n)
    decreases |cs|
  {
    if cs != [] {
      var k := |cs| - 1;
      SeekCut(f, n, cs[..k]);
      var up := Seek(f, cs[..k]);
      if up.Some? && up.value.rank < n { EntryCut(up.value.kids, n - 1 - up.value.rank, cs[k]); }
    }
  }

  // ---- empty block lists ----

  function NormalHit(h: Option<Hit>): Option<Hit> {
    if h.None? then None else Some(Hit(h.value.rank, Normal(h.value.meta), NormalForest(h.value.kids)))
  }

  lemma {:induction false} NormalSize(f: Forest)
    ensures P.Size(NormalForest(f)) == P.Size(f) && Breadth(NormalForest(f)) == Breadth(f)
  {
    if f.Grove? {
      NormalSize(f.kids);
      NormalSize(f.next);
    }
  }

  lemma {:induction false} EntryNormal(f: Forest, name: Text)
    ensures Entry(NormalForest(f), name) == NormalHit(Entry(f, name))
    decreases f
  {
    if f.Grove? {
      NormalSize(f.kids);
      EntryNormal(f.next, name);
    }
  }

  lemma {:induction false} SeekNormal(f: Forest, cs: seq<Text>)
    requires f.Grove?
    ensures Seek(NormalForest(f), cs) == NormalHit(Seek(f, cs))
    decreases |cs|
  {
    if cs != [] {
      SeekNormal(f, cs[..|cs| - 1]);
      var up := Seek(f, cs[..|cs| - 1]);
      if up.Some? { EntryNormal(up.value.kids, cs[|cs| - 1]); }
    }
  }

  // ---- ranks ----

  lemma {:induction false} EntryRank(f: Forest, name: Text)
    ensures Entry(f, name).Some? ==> Entry(f, name).value.rank + 1 + P.Size(Entry(f, name).value.kids) <= P.Size(f)
    decreases f
  {
    if f.Grove? { EntryRank(f.next, name); }
  }

  /** A node and all below it lie inside the listing. */
  lemma {:induction false} SeekRank(f: Forest, cs: seq<Text>)
    requires f.Grove?
    ensures Seek(f, cs).Some? ==> Seek(f, cs).value.rank + 1 + P.Size(Seek(f, cs).value.kids) <= P.Size(f)
    decreases |cs|
  {
    if cs != [] {
      SeekRank(f, cs[..|cs| - 1]);
      var up := Seek(f, cs[..|cs| - 1]);
      if up.Some? { EntryRank(up.value.kids, cs[|cs| - 1]); }
    }
  }

  lemma {:induction false} ShowsBreadth(nodes: map<nat, Node>, ids: seq<nat>, f: Forest, hi: nat)
    requires Shows(nodes, ids, f, 0, hi)
    ensures Breadth(f) == |ids|
    decreases f
  {
    if f.Grove? { ShowsBreadth(nodes, ids[1..], f.next, hi); }
  }
}
