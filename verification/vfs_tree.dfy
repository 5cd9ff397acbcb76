/** The shape of the node graph that fs/vfs.c and fs/ramfs.c maintain, and names as a way to
    reach nodes. */
module VfsTree {
  import opened Bytes
  import opened FileState
  import P = Path

  type Text = seq<byte>

  // The quantifiers below are instantiated through the named predicates only: a plain
  // "every node's parent is a node" would be followed up the tree for ever.

  /** A node other than the root has an older parent. */
  ghost predicate UpOk(nodes: map<nat, Node>, id: nat)
    requires id in nodes
  {
    id != ROOT ==> nodes[id].parent.Some? && nodes[id].parent.value in nodes && nodes[id].parent.value < id
  }

  /** Parent pointers lead down to the root. */
  ghost predicate Rooted(nodes: map<nat, Node>) {
    && ROOT in nodes && nodes[ROOT].parent.None? && nodes[ROOT].kind == VFS_DIRECTORY
    && (forall id {:trigger UpOk(nodes, id)} :: id in nodes ==> UpOk(nodes, id))
  }

  /** The parent lists the node, and the children point back. */
  ghost predicate LinkOk(nodes: map<nat, Node>, id: nat)
    requires id in nodes
  {
    && (nodes[id].parent.Some? && nodes[id].parent.value in nodes ==>
         var p := nodes[id].parent.value;
         id in nodes[p].children && nodes[p].kind == VFS_DIRECTORY)
    && (forall c :: c in nodes[id].children ==> c in nodes && nodes[c].parent == Some(id))
  }

  ghost predicate DistinctNames(nodes: map<nat, Node>, kids: seq<nat>) {
    forall i, j :: 0 <= i < j < |kids| && kids[i] in nodes && kids[j] in nodes ==>
      nodes[kids[i]].name != nodes[kids[j]].name
  }

  predicate GoodName(name: Text) {
    P.Plain(name) && |name| < VFS_NAME_MAX
  }

  /** The names on the way from the root. */
  ghost function Comps(nodes: map<nat, Node>, id: nat): (cs: seq<Text>)
    requires Rooted(nodes) && id in nodes
    decreases id
  {
    if id == ROOT then []
    else
      assert UpOk(nodes, id);
      Comps(nodes, nodes[id].parent.value) + [nodes[id].name]
  }

  /** A position that a path can name: within 64 components and 255 bytes. */
  ghost predicate Nameable(cs: seq<Text>) {
    |cs| <= P.MAX_COMPONENTS && |P.Render(cs)| < P.PATH_MAX
  }

  ghost predicate Local(nodes: map<nat, Node>, id: nat)
    requires id in nodes
  {
    && |nodes[id].children| <= VFS_MAX_CHILDREN
    && DistinctNames(nodes, nodes[id].children)
    && (if id == ROOT then nodes[id].name == [P.SLASH] else GoodName(nodes[id].name))
  }

  ghost predicate TreeInv(fs: Fs) {
    && Rooted(fs.nodes)
    && (forall id {:trigger LinkOk(fs.nodes, id)} :: id in fs.nodes ==> LinkOk(fs.nodes, id))
    && (forall id :: id in fs.nodes ==> id < fs.next)
    && (forall id {:trigger Local(fs.nodes, id)} :: id in fs.nodes ==> Local(fs.nodes, id))
    && (forall id {:trigger Comps(fs.nodes, id)} :: id in fs.nodes ==> Nameable(Comps(fs.nodes, id)))
  }

  // ---- looking names up ----

  /** The loop of `ramfs_finddir`. */
  function Find(nodes: map<nat, Node>, kids: seq<nat>, name: Text): (r: Option<nat>)
    ensures r.Some? ==> r.value in kids && r.value in nodes && nodes[r.value].name == name
    ensures r.None? ==> forall i :: 0 <= i < |kids| && kids[i] in nodes ==> nodes[kids[i]].name != name
  {
    if kids == [] then None
    else if kids[0] in nodes && nodes[kids[0]].name == name then Some(kids[0])
    else
      assert forall i :: 1 <= i < |kids| ==> kids[i] == kids[1..][i - 1];
      Find(nodes, kids[1..], name)
  }

  /** Of several nodes of one name the first in the directory is found. */
  lemma {:induction false} FindFirst(nodes: map<nat, Node>, kids: seq<nat>, name: Text, i: nat)
    requires i < |kids| && kids[i] in nodes && nodes[kids[i]].name == name
    requires forall j :: 0 <= j < i && kids[j] in nodes ==> nodes[kids[j]].name != name
    ensures Find(nodes, kids, name) == Some(kids[i])
  {
    if i > 0 {
      assert forall j :: 0 <= j < i - 1 ==> kids[1..][j] == kids[j + 1];
      FindFirst(nodes, kids[1..], name, i - 1);
    }
  }

  function FindDir(nodes: map<nat, Node>, id: nat, name: Text): (r: Option<nat>)
    requires id in nodes
    ensures r.Some? ==> r.value in nodes
  {
    if nodes[id].kind != VFS_DIRECTORY then None else Find(nodes, nodes[id].children, name)
  }

  /** Following names downwards. */
  function Walk(nodes: map<nat, Node>, id: nat, cs: seq<Text>): (r: Option<nat>)
    requires id in nodes
    ensures r.Some? ==> r.value in nodes
  {
    if cs == [] then Some(id)
    else
      var up := Walk(nodes, id, cs[..|cs| - 1]);
      if up.None? then None else FindDir(nodes, up.value, cs[|cs| - 1])
  }

  lemma FindChild(nodes: map<nat, Node>, kids: seq<nat>, id: nat)
    requires id in kids && id in nodes && DistinctNames(nodes, kids)
    ensures Find(nodes, kids, nodes[id].name) == Some(id)
  {
    var r := Find(nodes, kids, nodes[id].name);
    var i :| 0 <= i < |kids| && kids[i] == id;
    var j :| 0 <= j < |kids| && kids[j] == r.value;
  }

  /** Following the names of a node from the root leads to the node. */
  lemma {:induction false} WalkComps(fs: Fs, id: nat)
    requires TreeInv(fs) && id in fs.nodes
    ensures Walk(fs.nodes, ROOT, Comps(fs.nodes, id)) == Some(id)
    decreases id
  {
    if id != ROOT {
      assert UpOk(fs.nodes, id) && LinkOk(fs.nodes, id);
      var p := fs.nodes[id].parent.value;
      WalkComps(fs, p);
      var cs := Comps(fs.nodes, p);
      assert (cs + [fs.nodes[id].name])[..|cs|] == cs;
      assert Local(fs.nodes, p);
      FindChild(fs.nodes, fs.nodes[p].children, id);
    }
  }

  /** The names of a node are plain, so its path is canonical. */
  lemma {:induction false} CompsPlain(fs: Fs, id: nat)
    requires TreeInv(fs) && id in fs.nodes
    ensures P.AllPlain(Comps(fs.nodes, id))
    decreases id
  {
    if id != ROOT {
      assert UpOk(fs.nodes, id) && Local(fs.nodes, id);
      CompsPlain(fs, fs.nodes[id].parent.value);
    }
  }

  lemma FoundBelow(fs: Fs, up: nat, name: Text)
    requires TreeInv(fs) && up in fs.nodes && FindDir(fs.nodes, up, name).Some?
    ensures var id := FindDir(fs.nodes, up, name).value;
      Comps(fs.nodes, id) == Comps(fs.nodes, up) + [name]
  {
    var id := FindDir(fs.nodes, up, name).value;
    assert LinkOk(fs.nodes, up);
    assert id in fs.nodes[up].children;
  }

  /** What a walk finds lies at the walked position. */
  lemma {:induction false} WalkFinds(fs: Fs, cs: seq<Text>)
    requires TreeInv(fs) && Walk(fs.nodes, ROOT, cs).Some?
    ensures Comps(fs.nodes, Walk(fs.nodes, ROOT, cs).value) == cs
    decreases |cs|
  {
    if cs != [] {
      var n := |cs| - 1;
      WalkFinds(fs, cs[..n]);
      FoundBelow(fs, Walk(fs.nodes, ROOT, cs[..n]).value, cs[n]);
      assert cs[..n] + [cs[n]] == cs;
    }
  }

  // ---- what the operations keep ----

  lemma {:induction false} CompsFrame(small: map<nat, Node>, big: map<nat, Node>, id: nat)
    requires Rooted(small) && Rooted(big) && id in small
    requires forall x :: x in small ==> x in big && big[x].name == small[x].name && big[x].parent == small[x].parent
    ensures Comps(big, id) == Comps(small, id)
    decreases id
  {
    if id != ROOT {
      assert UpOk(small, id);
      CompsFrame(small, big, small[id].parent.value);
    }
  }

  /** Reads, writes, truncation and attribute changes keep the shape. */
  ghost predicate SameShape(nodes: map<nat, Node>, nodes': map<nat, Node>) {
    && nodes'.Keys == nodes.Keys
    && forall id :: id in nodes ==>
         && nodes'[id].name == nodes[id].name && nodes'[id].kind == nodes[id].kind
         && nodes'[id].parent == nodes[id].parent && nodes'[id].children == nodes[id].children
  }

  lemma ShapeKept(fs: Fs, fs': Fs)
    requires TreeInv(fs) && SameShape(fs.nodes, fs'.nodes) && fs'.next == fs.next
    ensures TreeInv(fs')
  {
    var nodes, nodes' := fs.nodes, fs'.nodes;
    forall id | id in nodes' ensures UpOk(nodes', id) && LinkOk(nodes', id) {
      assert UpOk(nodes, id) && LinkOk(nodes, id);
    }
    forall id | id in nodes' ensures Local(nodes', id) {
      assert Local(nodes, id) && LinkOk(nodes, id);
    }
    forall id | id in nodes' ensures Nameable(Comps(nodes', id)) {
      CompsFrame(nodes, nodes', id);
    }
  }

  /** The checks that `vfs_mkdir` and `vfs_create` make before creating, and the limits under
      which they may be called. */
  ghost predicate MayCreate(fs: Fs, parent: nat, name: Text)
    requires Rooted(fs.nodes)
  {
    && parent in fs.nodes && fs.nodes[parent].kind == VFS_DIRECTORY
    && GoodName(name) && FindDir(fs.nodes, parent, name).None?
    && Nameable(Comps(fs.nodes, parent) + [name])
  }

  lemma CreateLinks(fs: Fs, fs': Fs, parent: nat, name: Text, kind: u32)
    requires TreeInv(fs) && Create(fs, fs', parent, name, kind) && fs.nodes[parent].kind == VFS_DIRECTORY
    ensures Rooted(fs'.nodes) && forall id {:trigger LinkOk(fs'.nodes, id)} :: id in fs'.nodes ==> LinkOk(fs'.nodes, id)
  {
    var nodes, nodes', c := fs.nodes, fs'.nodes, fs.next;
    assert Local(nodes, parent) && Local(nodes, ROOT);
    assert c !in nodes;
    forall id | id in nodes' ensures UpOk(nodes', id) && LinkOk(nodes', id) {
      if id != c {
        assert UpOk(nodes, id) && LinkOk(nodes, id);
      }
    }
  }

  lemma CreateDistinct(fs: Fs, fs': Fs, parent: nat, name: Text, kind: u32, id: nat)
    requires TreeInv(fs) && Create(fs, fs', parent, name, kind) && MayCreate(fs, parent, name)
    requires id in fs'.nodes && fs.next !in fs.nodes
    ensures DistinctNames(fs'.nodes, fs'.nodes[id].children)
  {
    var nodes, nodes', c := fs.nodes, fs'.nodes, fs.next;
    if id != c {
      var kids := nodes[id].children;
      assert Local(nodes, id) && LinkOk(nodes, id);
      assert forall k :: k in kids ==> k in nodes && nodes'[k].name == nodes[k].name;
      if id == parent {
        assert nodes'[id].children == kids + [c] && nodes'[c].name == name;
      }
    }
  }

  /** Creating a checked name keeps the tree. */
  lemma CreateKeeps(fs: Fs, fs': Fs, parent: nat, name: Text, kind: u32)
    requires TreeInv(fs) && Create(fs, fs', parent, name, kind) && MayCreate(fs, parent, name)
    ensures TreeInv(fs') && Comps(fs'.nodes, fs.next) == Comps(fs.nodes, parent) + [name]
  {
    var nodes, nodes', c := fs.nodes, fs'.nodes, fs.next;
    CreateLinks(fs, fs', parent, name, kind);
    assert Local(nodes, parent) && Local(nodes, ROOT);
    assert c !in nodes;
    CompsFrame(nodes, nodes', parent);
    forall id | id in nodes' ensures Local(nodes', id) {
      CreateDistinct(fs, fs', parent, name, kind, id);
      if id != c {
        assert Local(nodes, id);
      }
    }
    forall id | id in nodes' ensures Nameable(Comps(nodes', id)) {
      if id != c {
        CompsFrame(nodes, nodes', id);
      }
    }
  }

  /** Nothing in fs/vfs.c limits a component to the 63 bytes that a node stores. A name that was not
      there is found again under the requested name if and only if it fits, and the siblings stay
      distinct if and only if the stored name was not there either. */
  lemma LongNames(fs: Fs, fs': Fs, parent: nat, name: Text, kind: u32)
    requires TreeInv(fs) && Create(fs, fs', parent, name, kind) && fs.nodes[parent].kind == VFS_DIRECTORY
    requires FindDir(fs.nodes, parent, name).None?
    ensures var kids := fs'.nodes[parent].children;
      && (Find(fs'.nodes, kids, name) == Some(fs.next) <==> |name| < VFS_NAME_MAX)
      && (DistinctNames(fs'.nodes, kids) <==> FindDir(fs.nodes, parent, StoredName(name)).None?)
  {
    var nodes, nodes', c := fs.nodes, fs'.nodes, fs.next;
    var had, kids := nodes[parent].children, nodes'[parent].children;
    assert Local(nodes, parent) && LinkOk(nodes, parent) && c !in nodes;
    assert kids == had + [c] && nodes'[c].name == StoredName(name);
    SameNames(nodes, nodes', parent, had);
    assert DistinctNames(nodes', had);
    FoundAtEnd(nodes', had, c, name);
    DistinctAtEnd(nodes', had, c);
  }

  lemma FoundAtEnd(nodes: map<nat, Node>, had: seq<nat>, c: nat, name: Text)
    requires c in nodes && forall i :: 0 <= i < |had| ==> had[i] in nodes && nodes[had[i]].name != name
    ensures Find(nodes, had + [c], name) == Some(c) <==> nodes[c].name == name
  {
    var r := Find(nodes, had + [c], name);
    assert (had + [c])[|had|] == c;
  }

  lemma DistinctAtEnd(nodes: map<nat, Node>, had: seq<nat>, c: nat)
    requires c in nodes && (forall i :: 0 <= i < |had| ==> had[i] in nodes) && DistinctNames(nodes, had)
    ensures DistinctNames(nodes, had + [c]) <==> forall i :: 0 <= i < |had| ==> nodes[had[i]].name != nodes[c].name
  {
    var kids := had + [c];
    if DistinctNames(nodes, kids) {
      forall i | 0 <= i < |had| ensures nodes[had[i]].name != nodes[c].name {
        assert kids[i] == had[i] && kids[|had|] == c;
      }
    }
  }

  lemma SameNames(nodes: map<nat, Node>, nodes': map<nat, Node>, parent: nat, kids: seq<nat>)
    requires parent in nodes && kids == nodes[parent].children && LinkOk(nodes, parent)
    requires forall k :: k in nodes ==> k in nodes' && nodes'[k].name == nodes[k].name
    ensures forall i :: 0 <= i < |kids| ==>
      kids[i] in nodes && kids[i] in nodes' && nodes'[kids[i]].name == nodes[kids[i]].name
  {
    forall i | 0 <= i < |kids| ensures kids[i] in nodes {
      assert kids[i] in kids;
    }
  }

  /** What `vfs_mkdir` and `vfs_create` check, for the last name of a path that fits its buffer: a
      component of any length, or "/" itself, which is what the root path gives. */
  ghost predicate Checked(fs: Fs, parent: nat, name: Text)
    requires Rooted(fs.nodes)
  {
    && parent in fs.nodes && fs.nodes[parent].kind == VFS_DIRECTORY && FindDir(fs.nodes, parent, name).None?
    && ((P.Plain(name) && Nameable(Comps(fs.nodes, parent) + [name])) || (parent == ROOT && name == [P.SLASH]))
  }

  /** What would also have to be checked. */
  predicate Storable(fs: Fs, parent: nat, name: Text)
    requires parent in fs.nodes
  {
    name != [P.SLASH] && FindDir(fs.nodes, parent, StoredName(name)).None?
  }

  lemma StoredPlain(cs: seq<Text>, name: Text)
    requires P.Plain(name) && Nameable(cs + [name])
    ensures GoodName(StoredName(name)) && StoredName(StoredName(name)) == StoredName(name)
    ensures Nameable(cs + [StoredName(name)])
  {
    var s := StoredName(name);
    assert forall i :: 0 <= i < |s| ==> s[i] == name[i];
    assert (cs + [name])[..|cs|] == cs && (cs + [s])[..|cs|] == cs;
  }

  /** After the checks of the code, creation keeps the tree if and only if the path is not the root
      and the stored name was not there. */
  lemma CreateIff(fs: Fs, fs': Fs, parent: nat, name: Text, kind: u32)
    requires TreeInv(fs) && Create(fs, fs', parent, name, kind) && Checked(fs, parent, name)
    ensures TreeInv(fs') <==> Storable(fs, parent, name)
  {
    assert fs.next !in fs.nodes && ROOT in fs.nodes;
    if name == [P.SLASH] {
      assert TreeInv(fs') ==> Local(fs'.nodes, fs.next);
    } else if Storable(fs, parent, name) {
      StoredPlain(Comps(fs.nodes, parent), name);
      CreateKeeps(fs, fs', parent, StoredName(name), kind);
    } else {
      LongNames(fs, fs', parent, name, kind);
      assert TreeInv(fs') ==> Local(fs'.nodes, parent);
    }
  }

  /** Two different names that become the same one: both pass the checks, and the second breaks the
      tree. */
  lemma NamesCollide(fs: Fs, fs1: Fs, fs2: Fs, parent: nat, x: Text, y: Text, kind: u32)
    requires x == seq(63, i => 97) + [98] && y == seq(63, i => 97) + [99]
    requires TreeInv(fs) && parent in fs.nodes && fs.nodes[parent].kind == VFS_DIRECTORY
    requires FindDir(fs.nodes, parent, StoredName(x)).None? && Nameable(Comps(fs.nodes, parent) + [x])
    requires Create(fs, fs1, parent, x, kind) && Create(fs1, fs2, parent, y, kind)
    ensures Checked(fs, parent, x) && TreeInv(fs1) && Checked(fs1, parent, y) && !TreeInv(fs2)
  {
    assert x[63] != y[63] && x[..63] == y[..63] && x[0] == 97 && y[0] == 97;
    assert StoredName(x) == StoredName(y);
    NoLongName(fs, parent, x);
    CreateIff(fs, fs1, parent, x, kind);
    NoLongName(fs1, parent, y);
    SamePlace(fs, fs1, parent, x, y, kind);
    FoundStored(fs, fs1, parent, x, kind);
    CreateIff(fs1, fs2, parent, y, kind);
  }

  /** In a tree no node has a name that is too long. */
  lemma NoLongName(fs: Fs, parent: nat, name: Text)
    requires TreeInv(fs) && parent in fs.nodes && |name| >= VFS_NAME_MAX
    ensures FindDir(fs.nodes, parent, name).None?
  {
    ShortNames(fs);
  }

  lemma ShortNames(fs: Fs)
    requires TreeInv(fs)
    ensures forall id :: id in fs.nodes ==> |fs.nodes[id].name| < VFS_NAME_MAX
  {
    forall id | id in fs.nodes ensures |fs.nodes[id].name| < VFS_NAME_MAX {
      assert Local(fs.nodes, id);
    }
  }

  /** The path of the directory is as long as before, and so is that of the second name. */
  lemma SamePlace(fs: Fs, fs1: Fs, parent: nat, x: Text, y: Text, kind: u32)
    requires TreeInv(fs) && TreeInv(fs1) && Create(fs, fs1, parent, x, kind) && |y| == |x|
    requires Nameable(Comps(fs.nodes, parent) + [x])
    ensures Nameable(Comps(fs1.nodes, parent) + [y])
  {
    assert fs.next !in fs.nodes;
    CompsFrame(fs.nodes, fs1.nodes, parent);
    var cs := Comps(fs.nodes, parent);
    assert (cs + [x])[..|cs|] == cs && (cs + [y])[..|cs|] == cs;
  }

  /** The new node is there under its stored name. */
  lemma FoundStored(fs: Fs, fs1: Fs, parent: nat, x: Text, kind: u32)
    requires TreeInv(fs) && TreeInv(fs1) && Create(fs, fs1, parent, x, kind) && fs.nodes[parent].kind == VFS_DIRECTORY
    ensures FindDir(fs1.nodes, parent, StoredName(x)).Some?
  {
    assert fs.next !in fs.nodes;
    var kids := fs1.nodes[parent].children;
    assert kids[|kids| - 1] == fs.next;
    assert Local(fs1.nodes, parent);
    FindChild(fs1.nodes, kids, fs.next);
  }

  lemma RemoveLinks(fs: Fs, fs': Fs, id: nat, i: nat)
    requires TreeInv(fs) && Unlinked(fs, fs', id, i) && fs.nodes[id].children == []
    ensures Rooted(fs'.nodes) && forall x {:trigger LinkOk(fs'.nodes, x)} :: x in fs'.nodes ==> LinkOk(fs'.nodes, x)
  {
    var nodes, nodes', p := fs.nodes, fs'.nodes, fs.nodes[id].parent.value;
    WithoutMembers(nodes, nodes[p].children, i) by {
      assert Local(nodes, p) && LinkOk(nodes, p);
    }
    forall x | x in nodes' ensures UpOk(nodes', x) && LinkOk(nodes', x) {
      assert UpOk(nodes, x) && LinkOk(nodes, x);
    }
  }

  lemma WithoutMembers(nodes: map<nat, Node>, kids: seq<nat>, i: nat)
    requires i < |kids| && DistinctNames(nodes, kids) && forall k :: k in kids ==> k in nodes
    ensures forall k :: k in Without(kids, i) <==> k in kids && k != kids[i]
  {
    var kids' := Without(kids, i);
    forall j | 0 <= j < |kids'| ensures kids'[j] in kids && kids'[j] != kids[i] {
      assert kids'[j] == kids[if j < i then j else j + 1];
    }
    forall k | k in kids && k != kids[i] ensures k in kids' {
      var j :| 0 <= j < |kids| && kids[j] == k;
      assert kids'[if j < i then j else j - 1] == k;
    }
  }

  /** Removing an empty node keeps the tree. */
  lemma RemoveKeeps(fs: Fs, fs': Fs, id: nat, i: nat)
    requires TreeInv(fs) && Unlinked(fs, fs', id, i) && fs.nodes[id].children == []
    ensures TreeInv(fs')
  {
    var nodes, nodes', p := fs.nodes, fs'.nodes, fs.nodes[id].parent.value;
    RemoveLinks(fs, fs', id, i);
    forall x | x in nodes' ensures Local(nodes', x) {
      assert Local(nodes, x);
      RemoveDistinct(nodes, nodes', nodes[x].children, nodes'[x].children, if x == p then i else |nodes[x].children|);
    }
    forall x | x in nodes' ensures Nameable(Comps(nodes', x)) {
      CompsFrame(nodes', nodes, x);
    }
  }

  lemma RemoveDistinct(nodes: map<nat, Node>, nodes': map<nat, Node>, kids: seq<nat>, kids': seq<nat>, i: nat)
    requires DistinctNames(nodes, kids) && i <= |kids|
    requires kids' == if i < |kids| then Without(kids, i) else kids
    requires forall k :: k in nodes' ==> k in nodes && nodes'[k].name == nodes[k].name
    ensures DistinctNames(nodes', kids')
  {
    forall a, b | 0 <= a < b < |kids'| && kids'[a] in nodes' && kids'[b] in nodes'
      ensures nodes'[kids'[a]].name != nodes'[kids'[b]].name
    {
      assert kids'[a] == kids[if a < i then a else a + 1];
      assert kids'[b] == kids[if b < i then b else b + 1];
    }
  }
}
