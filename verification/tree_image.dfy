/** The node heap against its image: what `serialize_node` saves of a node, and how the loop
    of `diskfs_load` rebuilds nodes from records. */
module TreeImage {
  import opened Bytes
  import opened FileState
  import F = SnapshotFormat
  import P = Preorder

  type Meta = F.Meta
  type Forest = F.Forest
  type Record = F.Record

  /** What `serialize_node` writes for a node. */
  function MetaOf(n: Node): (m: Meta)
  {
    var size := if n.kind == VFS_FILE then n.size else 0;
    var payload :=
      if n.diskBacked && n.blocks.Some? then F.InBlocks(n.blocks.value)
      else if n.data.Some? then F.Inline(n.data.value[..Min(size, |n.data.value|)])
      else F.Inline([]);
    F.Meta(n.kind, n.perms, n.uid, n.gid, size, n.name, payload)
  }

  /** A disk-backed file with an empty block list comes back as an empty file without one. */
  function Normal(m: Meta): Meta {
    if m.payload == F.InBlocks([]) then m.(payload := F.Inline([])) else m
  }

  function NormalForest(f: Forest): Forest {
    match f
    case Empty => F.Empty
    case Grove(m, kids, next) => F.Grove(Normal(m), NormalForest(kids), NormalForest(next))
  }

  /** What the saved form of a sound node satisfies. */
  predicate Savable(m: Meta) {
    && F.MetaOk(m)
    && (m.kind != VFS_FILE ==> m.size == 0)
    && (m.payload == F.InBlocks([]) ==> m.size == 0)
  }

  /** The ids in `ids`, with everything below them, hold the forest `f` in nodes numbered
      `lo` to `hi`. */
  ghost predicate Shows(nodes: map<nat, Node>, ids: seq<nat>, f: Forest, lo: nat, hi: nat)
    decreases f
  {
    match f
    case Empty => ids == []
    case Grove(m, kids, next) =>
      && ids != [] && lo <= ids[0] < hi && ids[0] in nodes
      && MetaOf(nodes[ids[0]]) == m && NodeSound(nodes[ids[0]])
      && Shows(nodes, nodes[ids[0]].children, kids, lo, hi)
      && Shows(nodes, ids[1..], next, lo, hi)
  }

  lemma {:induction false} ShowsFrame(nodes: map<nat, Node>, nodes': map<nat, Node>, ids: seq<nat>, f: Forest,
                                      lo: nat, hi: nat, lo': nat, hi': nat)
    requires Shows(nodes, ids, f, lo, hi) && lo' <= lo && hi <= hi'
    requires forall x :: lo <= x < hi && x in nodes ==> x in nodes' && nodes'[x] == nodes[x]
    ensures Shows(nodes', ids, f, lo', hi')
    decreases f
  {
    if f.Grove? {
      ShowsFrame(nodes, nodes', nodes[ids[0]].children, f.kids, lo, hi, lo', hi');
      ShowsFrame(nodes, nodes', ids[1..], f.next, lo, hi, lo', hi');
    }
  }

  function Breadth(f: Forest): nat {
    if f.Empty? then 0 else 1 + Breadth(f.next)
  }

  /** No directory has more than `VFS_MAX_CHILDREN` entries, and every node is savable. */
  ghost predicate Loadable(f: Forest) {
    match f
    case Empty => true
    case Grove(m, kids, next) =>
      Savable(m) && Breadth(kids) <= VFS_MAX_CHILDREN && Loadable(kids) && Loadable(next)
  }

  // ---- loading ----

  /** The heap during `diskfs_load`, and its `map` from record index to node. */
  datatype Loading = Loading(nodes: map<nat, Node>, next: nat, ids: seq<nat>)

  /** The fields that the loader sets from a record. */
  function Restore(n: Node, m: Meta): Node {
    var n := n.(kind := m.kind, perms := m.perms, uid := m.uid, gid := m.gid);
    match m.payload
    case InBlocks(blocks) =>
      n.(blocks := if blocks == [] then n.blocks else Some(blocks), diskBacked := true, size := m.size)
    case Inline(bytes) =>
      if m.size > 0 then n.(data := Some(bytes), size := m.size) else n
  }

  /** One pass of the loop in `diskfs_load`, after the record has been parsed. */
  function LoadRecord(st: Loading, r: Record): (o: Option<Loading>)
    requires ROOT in st.nodes && forall i :: 0 <= i < |st.ids| ==> st.ids[i] in st.nodes
    ensures o.Some? ==> ROOT in o.value.nodes && forall i :: 0 <= i < |o.value.ids| ==> o.value.ids[i] in o.value.nodes
  {
    if r.parent < 0 then
      var named := st.nodes[ROOT].(name := if r.meta.name == [] then [47] else StoredName(r.meta.name));
      Some(Loading(st.nodes[ROOT := Restore(named, r.meta)], st.next, st.ids + [ROOT]))
    else if r.parent >= |st.ids| then None
    else
      var p := st.ids[r.parent];
      if |st.nodes[p].children| >= VFS_MAX_CHILDREN then None else
      Some(Loading(
        st.nodes[p := st.nodes[p].(children := st.nodes[p].children + [st.next])]
                [st.next := Restore(FreshNode(Some(p), r.meta.name, r.meta.kind), r.meta)],
        st.next + 1, st.ids + [st.next]))
  }

  /** A record becomes a node if and only if it is the root's, or its parent came before and has fewer than 256
      children; a root without a name is called "/". */
  lemma RecordMade(st: Loading, r: Record)
    requires LoadingOk(st)
    ensures LoadRecord(st, r).Some? <==>
      r.parent < 0 || (r.parent < |st.ids| && |st.nodes[st.ids[r.parent]].children| < 256)
    ensures r.parent < 0 ==>
      LoadRecord(st, r).value.nodes[ROOT].name == if r.meta.name == [] then [47] else StoredName(r.meta.name)
  {
  }

  ghost predicate LoadingOk(st: Loading) {
    && ROOT in st.nodes
    && (forall i :: 0 <= i < |st.ids| ==> st.ids[i] in st.nodes)
    && (forall x :: x in st.nodes ==> x < st.next)
  }

  function LoadAll(st: Loading, rs: seq<Record>): (o: Option<Loading>)
    requires ROOT in st.nodes && forall i :: 0 <= i < |st.ids| ==> st.ids[i] in st.nodes
    ensures o.Some? ==> ROOT in o.value.nodes && forall i :: 0 <= i < |o.value.ids| ==> o.value.ids[i] in o.value.nodes
    decreases |rs|
  {
    if rs == [] then Some(st) else
    var o := LoadAll(st, rs[..|rs| - 1]);
    if o.None? then None else LoadRecord(o.value, rs[|rs| - 1])
  }

  lemma {:induction false} LoadAllAppend(st: Loading, a: seq<Record>, b: seq<Record>)
    requires LoadingOk(st) && LoadAll(st, a).Some?
    ensures LoadAll(st, a + b) == LoadAll(LoadAll(st, a).value, b)
    decreases |b|
  {
    if b == [] {
      assert a + b == a;
    } else {
      var n := |b| - 1;
      LoadAllAppend(st, a, b[..n]);
      assert (a + b)[..|a + b| - 1] == a + b[..n];
    }
  }

  lemma {:induction false} LoadAllPrefix(st: Loading, rs: seq<Record>, i: nat)
    requires LoadingOk(st) && LoadAll(st, rs).Some? && i <= |rs|
    ensures LoadAll(st, rs[..i]).Some?
    decreases |rs|
  {
    if i == |rs| {
      assert rs[..i] == rs;
    } else {
      assert rs[..|rs| - 1][..i] == rs[..i];
      LoadAllPrefix(st, rs[..|rs| - 1], i);
    }
  }

  /** A node without contents, restored from its saved form, saves to the same again. */
  lemma RestoreMeta(n: Node, m: Meta)
    requires Savable(m) && n.name == m.name && n.data.None? && n.blocks.None? && !n.diskBacked && n.size == 0
    ensures MetaOf(Restore(n, m)) == Normal(m) && NodeSound(Restore(n, m))
  {
  }

  /** Loading `size` records below node `p`, `width` of them its direct children, touches no
      earlier node except for the children of `p`. */
  ghost predicate Framed(st: Loading, st': Loading, p: nat, size: nat, width: nat) {
    && LoadingOk(st) && LoadingOk(st') && st.next <= st'.next
    && |st'.ids| == |st.ids| + size && st'.ids[..|st.ids|] == st.ids
    && p in st.nodes && p in st'.nodes
    && (forall x :: x in st.nodes && x != p ==> x in st'.nodes && st'.nodes[x] == st.nodes[x])
    && |st'.nodes[p].children| == |st.nodes[p].children| + width
    && st.nodes[p].children <= st'.nodes[p].children
    && st'.nodes[p] == st.nodes[p].(children := st'.nodes[p].children)
  }

  /** The effect of loading a forest below node `p`. */
  ghost predicate Hung(st: Loading, st': Loading, p: nat, f: Forest) {
    && Framed(st, st', p, P.Size(f), Breadth(f))
    && Shows(st'.nodes, st'.nodes[p].children[|st.nodes[p].children|..], NormalForest(f), st.next, st'.next)
  }

  lemma LoadOne(st: Loading, st1: Loading, pi: nat, m: Meta)
    requires LoadingOk(st) && pi < |st.ids| && Savable(m)
    requires LoadRecord(st, F.Record(pi, m)) == Some(st1)
    ensures var p, c := st.ids[pi], st.next;
      && Framed(st, st1, p, 1, 1) && st1.next == c + 1 && st1.ids == st.ids + [c]
      && st1.nodes[p].children == st.nodes[p].children + [c]
      && c in st1.nodes && st1.nodes[c].children == []
      && MetaOf(st1.nodes[c]) == Normal(m) && NodeSound(st1.nodes[c])
  {
    RestoreMeta(FreshNode(Some(st.ids[pi]), m.name, m.kind), m);
  }

  /** A node, then its children below it, then its siblings. */
  lemma FramedGrove(st: Loading, st1: Loading, st2: Loading, st3: Loading, p: nat, c: nat,
                    n: nat, w: nat, n': nat, w': nat)
    requires Framed(st, st1, p, 1, 1) && Framed(st1, st2, c, n, w) && Framed(st2, st3, p, n', w')
    requires c !in st.nodes
    ensures Framed(st, st3, p, 1 + n + n', 1 + w')
  {
    assert p != c;
    assert st3.ids[..|st.ids|] == st3.ids[..|st2.ids|][..|st1.ids|][..|st.ids|];
  }

  lemma HungGrove(st: Loading, st1: Loading, st2: Loading, st3: Loading, pi: nat, f: Forest)
    requires LoadingOk(st) && pi < |st.ids| && f.Grove? && Savable(f.meta)
    requires LoadRecord(st, F.Record(pi, f.meta)) == Some(st1)
    requires Hung(st1, st2, st.next, f.kids) && Hung(st2, st3, st.ids[pi], f.next)
    ensures Hung(st, st3, st.ids[pi], f)
  {
    var p, c := st.ids[pi], st.next;
    LoadOne(st, st1, pi, f.meta);
    FramedGrove(st, st1, st2, st3, p, c, P.Size(f.kids), Breadth(f.kids), P.Size(f.next), Breadth(f.next));
    ShowsGrove(st, st1, st2, st3, p, c, f);
  }

  lemma ShowsGrove(st: Loading, st1: Loading, st2: Loading, st3: Loading, p: nat, c: nat, f: Forest)
    requires Framed(st, st1, p, 1, 1) && c == st.next && c in st1.nodes && st1.next == c + 1
    requires st1.nodes[p].children == st.nodes[p].children + [c]
    requires st1.nodes[c].children == [] && NodeSound(st1.nodes[c])
    requires f.Grove? && MetaOf(st1.nodes[c]) == Normal(f.meta)
    requires Hung(st1, st2, c, f.kids) && Hung(st2, st3, p, f.next)
    ensures Shows(st3.nodes, st3.nodes[p].children[|st.nodes[p].children|..], NormalForest(f), st.next, st3.next)
  {
    var kids := st2.nodes[c].children;
    assert kids[0..] == kids;
    ShowsFrame(st2.nodes, st3.nodes, kids, NormalForest(f.kids), st1.next, st2.next, st.next, st3.next);
    var all, k := st3.nodes[p].children, |st.nodes[p].children|;
    assert all[k] == st2.nodes[p].children[k] == st1.nodes[p].children[k] == c;
    assert all[k..][1..] == all[k + 1..];
    ShowsFrame(st3.nodes, st3.nodes, all[k + 1..], NormalForest(f.next), st2.next, st3.next, st.next, st3.next);
  }

  /** Loading the preorder listing of a forest rebuilds the forest. */
  lemma {:induction false} LoadForest(st: Loading, f: Forest, pi: nat, rs: seq<Record>) returns (st': Loading)
    requires LoadingOk(st) && pi < |st.ids| && Loadable(f) && rs == P.Pre(f, pi, |st.ids|)
    requires |st.nodes[st.ids[pi]].children| + Breadth(f) <= VFS_MAX_CHILDREN
    ensures LoadAll(st, rs) == Some(st')
    ensures Hung(st, st', st.ids[pi], f)
    decreases f
  {
    if f.Empty? {
      st' := st;
    } else {
      var r := F.Record(pi, f.meta);
      var a, b := P.Pre(f.kids, |st.ids|, |st.ids| + 1), P.Pre(f.next, pi, |st.ids| + 1 + P.Size(f.kids));
      assert rs == [r] + a + b by { P.PreOne(f, pi, |st.ids|); }
      st' := LoadGrove(st, f, pi, r, a, b);
    }
  }

  lemma {:induction false} LoadGrove(st: Loading, f: Forest, pi: nat, r: Record, a: seq<Record>, b: seq<Record>)
    returns (st': Loading)
    requires LoadingOk(st) && pi < |st.ids| && Loadable(f) && f.Grove? && r == F.Record(pi, f.meta)
    requires a == P.Pre(f.kids, |st.ids|, |st.ids| + 1) && b == P.Pre(f.next, pi, |st.ids| + 1 + |a|)
    requires |st.nodes[st.ids[pi]].children| + Breadth(f) <= VFS_MAX_CHILDREN
    ensures LoadAll(st, [r] + a + b) == Some(st')
    ensures Hung(st, st', st.ids[pi], f)
    decreases f, 0
  {
    var st1 := LoadRecord(st, r).value;
    LoadOne(st, st1, pi, f.meta);
    var st2 := LoadForest(st1, f.kids, |st.ids|, a);
    assert |st2.ids| == |st.ids| + 1 + |a| && pi < |st2.ids| && st2.ids[pi] == st.ids[pi] && LoadingOk(st2)
      && |st2.nodes[st2.ids[pi]].children| + Breadth(f.next) <= VFS_MAX_CHILDREN by { AfterKids(st, st1, st2, pi, f); }
    st' := LoadForest(st2, f.next, pi, b);
    HungGrove(st, st1, st2, st', pi, f);
    LoadThree(st, st1, st2, r, a, b);
  }

  /** With the children loaded, the parent still has room for the siblings. */
  lemma AfterKids(st: Loading, st1: Loading, st2: Loading, pi: nat, f: Forest)
    requires LoadingOk(st) && pi < |st.ids| && f.Grove? && Framed(st, st1, st.ids[pi], 1, 1)
    requires st1.ids == st.ids + [st.next] && Framed(st1, st2, st.next, P.Size(f.kids), Breadth(f.kids))
    requires |st.nodes[st.ids[pi]].children| + Breadth(f) <= VFS_MAX_CHILDREN
    ensures pi < |st2.ids| == |st.ids| + 1 + P.Size(f.kids) && st2.ids[pi] == st.ids[pi]
    ensures LoadingOk(st2) && |st2.nodes[st2.ids[pi]].children| + Breadth(f.next) <= VFS_MAX_CHILDREN
  {
    assert st2.ids[pi] == st2.ids[..|st1.ids|][pi] == st.ids[pi];
  }

  lemma LoadThree(st: Loading, st1: Loading, st2: Loading, r: Record, a: seq<Record>, b: seq<Record>)
    requires LoadingOk(st) && LoadRecord(st, r) == Some(st1) && LoadAll(st1, a) == Some(st2)
    ensures LoadAll(st, [r] + a + b) == LoadAll(st2, b)
  {
    assert [r][..0] == [];
    assert LoadAll(st, [r]) == Some(st1);
    LoadAllAppend(st, [r], a);
    LoadAllAppend(st, [r] + a, b);
  }

  /** Loading the listing of a tree over a bare root rebuilds the tree. */
  lemma LoadTree(root: Node, next: nat, f: Forest, rs: seq<Record>) returns (st': Loading)
    requires next > ROOT && f.Grove? && f.next.Empty? && Loadable(f) && f.meta.name != []
    requires root.children == [] && root.data.None? && root.blocks.None? && !root.diskBacked && root.size == 0
    requires rs == P.Pre(f, -1, 0)
    ensures LoadAll(Loading(map[ROOT := root], next, []), rs) == Some(st')
    ensures LoadingOk(st') && Shows(st'.nodes, [ROOT], NormalForest(f), 0, st'.next)
  {
    var st := Loading(map[ROOT := root], next, []);
    var r, a := F.Record(-1, f.meta), P.Pre(f.kids, 0, 1);
    assert rs == [r] + a + [] by { P.PreOne(f, -1, 0); }
    var st1 := LoadRecord(st, r).value;
    RestoreMeta(root.(name := f.meta.name), f.meta);
    st' := LoadForest(st1, f.kids, 0, a);
    LoadThree(st, st1, st', r, a, []);
    var kids := st'.nodes[ROOT].children;
    assert kids[0..] == kids && [ROOT][1..] == [];
    ShowsFrame(st'.nodes, st'.nodes, kids, NormalForest(f.kids), next, st'.next, 0, st'.next);
  }
}
