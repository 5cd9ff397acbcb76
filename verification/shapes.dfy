/** What every operation keeps of the node graph, also after one that broke the tree: downwards from the
    root it stays a forest that can be saved and loaded. */
module Shapes {
  import opened Bytes
  import opened FileState
  import opened VfsTree

  /** The children of a node are younger nodes that point back, at most 256 and none twice; its name
      fits. */
  ghost predicate DownOk(nodes: map<nat, Node>, next: nat, id: nat)
    requires id in nodes
  {
    var kids := nodes[id].children;
    && id < next && |nodes[id].name| < VFS_NAME_MAX && |kids| <= VFS_MAX_CHILDREN
    && (forall i, j :: 0 <= i < j < |kids| ==> kids[i] != kids[j])
    && (forall c :: c in kids ==> c in nodes && nodes[c].parent == Some(id) && id < c < next)
  }

  ghost predicate Shaped(fs: Fs) {
    && ROOT in fs.nodes && fs.nodes[ROOT].parent.None? && fs.nodes[ROOT].name != []
    && (forall id {:trigger DownOk(fs.nodes, fs.next, id)} :: id in fs.nodes ==> DownOk(fs.nodes, fs.next, id))
  }

  /** Shaped, and blocks are owned exactly: what a sync needs, whether or not the names are distinct. */
  ghost predicate Held(fs: Fs) {
    Shaped(fs) && OwnershipInv(fs)
  }

  /** Parent pointers lead to older nodes, up to the root. */
  ghost predicate Ascending(nodes: map<nat, Node>) {
    && ROOT in nodes && nodes[ROOT].parent.None?
    && forall id {:trigger UpOk(nodes, id)} :: id in nodes ==> UpOk(nodes, id)
  }

  ghost predicate Upheld(nodes: map<nat, Node>, id: nat)
    requires id in nodes
  {
    id != ROOT && UpOk(nodes, id) ==> id in nodes[nodes[id].parent.value].children
  }

  /** No node has been cut off: each is listed by its parent. */
  ghost predicate Connected(fs: Fs) {
    && Shaped(fs) && Ascending(fs.nodes)
    && (forall id {:trigger Upheld(fs.nodes, id)} :: id in fs.nodes ==> Upheld(fs.nodes, id))
  }

  /** A tree has this shape. */
  lemma TreeShaped(fs: Fs)
    requires TreeInv(fs)
    ensures Shaped(fs) && Connected(fs)
  {
    forall id | id in fs.nodes ensures Upheld(fs.nodes, id) {
      assert LinkOk(fs.nodes, id);
    }
    assert Local(fs.nodes, ROOT);
    forall id | id in fs.nodes ensures DownOk(fs.nodes, fs.next, id) {
      assert Local(fs.nodes, id) && LinkOk(fs.nodes, id);
      var kids := fs.nodes[id].children;
      forall c | c in kids ensures c in fs.nodes && fs.nodes[c].parent == Some(id) && id < c < fs.next {
        assert UpOk(fs.nodes, c);
      }
      forall i, j | 0 <= i < j < |kids| ensures kids[i] != kids[j] {
        assert kids[i] in kids;
      }
    }
  }

  lemma FreshShaped(fs: Fs)
    requires Fresh(fs)
    ensures Held(fs)
  {
    FreshOwnership(fs);
  }

  lemma ShapeStays(fs: Fs, fs': Fs)
    requires Shaped(fs) && SameShape(fs.nodes, fs'.nodes) && fs'.next == fs.next
    ensures Shaped(fs')
  {
    forall id | id in fs'.nodes ensures DownOk(fs'.nodes, fs'.next, id) {
      assert DownOk(fs.nodes, fs.next, id);
    }
  }

  lemma Younger(fs: Fs, id: nat)
    requires Shaped(fs) && id in fs.nodes
    ensures var kids := fs.nodes[id].children;
      forall i :: 0 <= i < |kids| ==>
        kids[i] in fs.nodes && id < kids[i] < fs.next && fs.nodes[kids[i]].parent == Some(id)
  {
    assert DownOk(fs.nodes, fs.next, id);
    var kids: seq<nat> := fs.nodes[id].children;
    forall i | 0 <= i < |kids|
      ensures kids[i] in fs.nodes && id < kids[i] < fs.next && fs.nodes[kids[i]].parent == Some(id)
    {
      assert kids[i] in kids;
    }
  }

  lemma NumberedBelow(fs: Fs)
    requires Shaped(fs)
    ensures forall id :: id in fs.nodes ==> id < fs.next
  {
    forall id | id in fs.nodes ensures id < fs.next {
      assert DownOk(fs.nodes, fs.next, id);
    }
  }

  /** A new child without children of its own. */
  ghost predicate Joins(fs: Fs, fs': Fs, parent: nat, n: Node) {
    && parent in fs.nodes && |fs.nodes[parent].children| < VFS_MAX_CHILDREN
    && n.parent == Some(parent) && n.children == [] && |n.name| < VFS_NAME_MAX
    && fs'.next == fs.next + 1
    && fs'.nodes ==
         fs.nodes[parent := fs.nodes[parent].(children := fs.nodes[parent].children + [fs.next])][fs.next := n]
  }

  lemma JoinShaped(fs: Fs, fs': Fs, parent: nat, n: Node)
    requires Shaped(fs) && Joins(fs, fs', parent, n)
    ensures Shaped(fs')
  {
    assert DownOk(fs.nodes, fs.next, parent) && DownOk(fs.nodes, fs.next, ROOT);
    NumberedBelow(fs);
    Younger(fs, parent);
    forall id | id in fs'.nodes ensures DownOk(fs'.nodes, fs'.next, id) {
      if id in fs.nodes { assert DownOk(fs.nodes, fs.next, id); }
    }
  }

  /** And it is listed by its parent. */
  lemma JoinConnected(fs: Fs, fs': Fs, parent: nat, n: Node)
    requires Connected(fs) && Joins(fs, fs', parent, n)
    ensures Connected(fs')
  {
    JoinShaped(fs, fs', parent, n);
    NumberedBelow(fs);
    assert DownOk(fs.nodes, fs.next, ROOT);
    forall id | id in fs'.nodes ensures UpOk(fs'.nodes, id) && Upheld(fs'.nodes, id) {
      if id in fs.nodes { assert UpOk(fs.nodes, id) && Upheld(fs.nodes, id); }
    }
  }

  /** Other fields of a node may change. */
  lemma FieldsConnected(fs: Fs, fs': Fs, id: nat)
    requires Connected(fs) && id in fs.nodes && id in fs'.nodes && fs'.next == fs.next
    requires fs'.nodes == fs.nodes[id := fs'.nodes[id]]
    requires fs'.nodes[id].children == fs.nodes[id].children && fs'.nodes[id].parent == fs.nodes[id].parent
    requires 0 < |fs'.nodes[id].name| < VFS_NAME_MAX
    ensures Connected(fs')
  {
    forall x | x in fs'.nodes ensures DownOk(fs'.nodes, fs'.next, x) && UpOk(fs'.nodes, x) && Upheld(fs'.nodes, x) {
      assert DownOk(fs.nodes, fs.next, x) && UpOk(fs.nodes, x) && Upheld(fs.nodes, x);
    }
  }

  lemma WithoutOne(kids: seq<nat>, i: nat)
    requires i < |kids| && forall k, j :: 0 <= k < j < |kids| ==> kids[k] != kids[j]
    ensures var rest := Without(kids, i);
      && kids[i] !in rest && (forall c :: c in rest ==> c in kids)
      && (forall k, j :: 0 <= k < j < |rest| ==> rest[k] != rest[j])
  {
    var rest := Without(kids, i);
    assert forall k :: 0 <= k < |rest| ==> rest[k] == kids[if k < i then k else k + 1];
  }

  lemma LeaveShaped(fs: Fs, fs': Fs, id: nat, i: nat)
    requires Shaped(fs) && Unlinked(fs, fs', id, i)
    ensures Shaped(fs')
  {
    var p := fs.nodes[id].parent.value;
    var kids, kids' := fs.nodes[p].children, Without(fs.nodes[p].children, i);
    assert DownOk(fs.nodes, fs.next, p);
    WithoutOne(kids, i);
    forall x | x in fs'.nodes ensures DownOk(fs'.nodes, fs'.next, x) {
      assert DownOk(fs.nodes, fs.next, x);
    }
  }

  /** Every operation keeps the shape, in every state that has it. */
  lemma StepShaped(fs: Fs, op: Op, fs': Fs)
    requires Shaped(fs) && Step(fs, op, fs')
    ensures Shaped(fs')
  {
    match op
    case CreateOp(parent, name, kind) => JoinShaped(fs, fs', parent, FreshNode(Some(parent), name, kind));
    case RemoveOp(id, i) => LeaveShaped(fs, fs', id, i);
    case _ => ShapeStays(fs, fs');
  }

  lemma StepHeld(fs: Fs, op: Op, fs': Fs)
    requires Held(fs) && Step(fs, op, fs')
    ensures Held(fs')
  {
    StepShaped(fs, op, fs');
    StepOwnership(fs, op, fs');
  }

  // ---- positions ----

  /** Following positions in lists of children downwards from the root. */
  function At(nodes: map<nat, Node>, ks: seq<nat>): Option<nat> {
    if ks == [] then Some(ROOT)
    else
      var up := At(nodes, ks[..|ks| - 1]);
      if up.None? || up.value !in nodes || ks[|ks| - 1] >= |nodes[up.value].children| then None
      else Some(nodes[up.value].children[ks[|ks| - 1]])
  }

  lemma {:induction false} AtNode(fs: Fs, ks: seq<nat>)
    requires Shaped(fs) && At(fs.nodes, ks).Some?
    ensures At(fs.nodes, ks).value in fs.nodes
    decreases |ks|
  {
    if ks != [] {
      AtNode(fs, ks[..|ks| - 1]);
      Younger(fs, At(fs.nodes, ks[..|ks| - 1]).value);
    }
  }

  /** Each node has one position at most. */
  lemma {:induction false} AtUnique(fs: Fs, ks: seq<nat>, js: seq<nat>)
    requires Shaped(fs) && At(fs.nodes, ks).Some? && At(fs.nodes, ks) == At(fs.nodes, js)
    ensures ks == js
    decreases |ks|
  {
    if ks != [] { AtNode(fs, ks[..|ks| - 1]); Younger(fs, At(fs.nodes, ks[..|ks| - 1]).value); }
    if js != [] { AtNode(fs, js[..|js| - 1]); Younger(fs, At(fs.nodes, js[..|js| - 1]).value); }
    if ks != [] && js != [] {
      AtUnique(fs, ks[..|ks| - 1], js[..|js| - 1]);
      assert DownOk(fs.nodes, fs.next, At(fs.nodes, ks[..|ks| - 1]).value);
      assert ks == ks[..|ks| - 1] + [ks[|ks| - 1]] && js == js[..|js| - 1] + [js[|js| - 1]];
    }
  }

  lemma FoundChild(fs: Fs, up: nat, name: Text)
    requires Shaped(fs) && up in fs.nodes && FindDir(fs.nodes, up, name).Some?
    ensures var id := FindDir(fs.nodes, up, name).value;
      fs.nodes[id].parent == Some(up) && fs.nodes[id].name == name
  {
    assert DownOk(fs.nodes, fs.next, up);
  }

  /** One path at most leads to a node. */
  lemma {:induction false} WalkUnique(fs: Fs, cs: seq<Text>, ds: seq<Text>)
    requires Shaped(fs) && Walk(fs.nodes, ROOT, cs).Some? && Walk(fs.nodes, ROOT, cs) == Walk(fs.nodes, ROOT, ds)
    ensures cs == ds
    decreases |cs|
  {
    if cs != [] { FoundChild(fs, Walk(fs.nodes, ROOT, cs[..|cs| - 1]).value, cs[|cs| - 1]); }
    if ds != [] { FoundChild(fs, Walk(fs.nodes, ROOT, ds[..|ds| - 1]).value, ds[|ds| - 1]); }
    if cs != [] && ds != [] {
      WalkUnique(fs, cs[..|cs| - 1], ds[..|ds| - 1]);
      assert cs == cs[..|cs| - 1] + [cs[|cs| - 1]] && ds == ds[..|ds| - 1] + [ds[|ds| - 1]];
    }
  }
}
