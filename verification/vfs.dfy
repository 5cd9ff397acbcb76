/** fs/vfs.c: paths to nodes and back, creation and removal by path, and what every run of
    these operations keeps. */
module Vfs {
  import opened Bytes
  import opened FileState
  import opened VfsTree
  import R = RamFs
  import P = Path

  // ---- runs ----

  /** A step of the virtual file system: creation in a tree goes through the checks of `vfs_mkdir` and
      `vfs_create`. */
  ghost predicate VStep(fs: Fs, op: Op, fs': Fs) {
    && Step(fs, op, fs')
    && (op.CreateOp? && TreeInv(fs) ==> Checked(fs, op.parent, op.name))
  }

  /** Creation stores the name that was asked for under no name that is taken. */
  predicate Safe(fs: Fs, op: Op) {
    op.CreateOp? && op.parent in fs.nodes ==> Storable(fs, op.parent, op.name)
  }

  lemma ParentIsDirectory(fs: Fs, id: nat, c: nat)
    requires TreeInv(fs) && id in fs.nodes && c in fs.nodes[id].children
    ensures fs.nodes[id].kind == VFS_DIRECTORY
  {
    assert LinkOk(fs.nodes, id);
    assert LinkOk(fs.nodes, c);
  }

  lemma LeafIsEmpty(fs: Fs, id: nat)
    requires TreeInv(fs) && id in fs.nodes && fs.nodes[id].kind != VFS_DIRECTORY
    ensures fs.nodes[id].children == []
  {
    if fs.nodes[id].children != [] {
      ParentIsDirectory(fs, id, fs.nodes[id].children[0]);
    }
  }

  /** A step keeps the tree if and only if it is not an unsafe creation. */
  lemma StepTree(fs: Fs, op: Op, fs': Fs)
    requires TreeInv(fs) && VStep(fs, op, fs')
    ensures TreeInv(fs') <==> Safe(fs, op)
  {
    match op
    case CreateOp(parent, name, kind) => CreateIff(fs, fs', parent, name, kind);
    case RemoveOp(id, i) =>
      if fs.nodes[id].kind != VFS_DIRECTORY { LeafIsEmpty(fs, id); }
      RemoveKeeps(fs, fs', id, i);
    case _ => ShapeKept(fs, fs');
  }

  ghost predicate IsVRun(run: seq<Fs>, ops: seq<Op>) {
    && |run| == |ops| + 1
    && forall i :: 0 <= i < |ops| ==> VStep(run[i], ops[i], run[i + 1])
  }

  /** No unsafe creation among the first `n` steps. */
  ghost predicate SafeUpTo(run: seq<Fs>, ops: seq<Op>, n: nat)
    requires n <= |ops| && n <= |run|
  {
    forall k :: 0 <= k < n ==> Safe(run[k], ops[k])
  }

  ghost predicate TreesUpTo(run: seq<Fs>, n: nat)
    requires n < |run|
  {
    forall k :: 0 <= k <= n ==> TreeInv(run[k])
  }

  lemma FreshTree(fs: Fs)
    requires Fresh(fs)
    ensures TreeInv(fs)
  {
  }

  /** All states of a run are trees with distinct sibling names if and only if it has no unsafe
      creation. */
  lemma {:induction false} RunTree(run: seq<Fs>, ops: seq<Op>, n: nat)
    requires IsVRun(run, ops) && n < |run| && TreeInv(run[0])
    ensures TreesUpTo(run, n) <==> SafeUpTo(run, ops, n)
  {
    if n > 0 {
      RunTree(run, ops, n - 1);
      assert VStep(run[n - 1], ops[n - 1], run[n]);
      if TreeInv(run[n - 1]) { StepTree(run[n - 1], ops[n - 1], run[n]); }
      assert SafeUpTo(run, ops, n) <==> SafeUpTo(run, ops, n - 1) && Safe(run[n - 1], ops[n - 1]);
      assert TreesUpTo(run, n) <==> TreesUpTo(run, n - 1) && TreeInv(run[n]);
    }
  }

  /** Block ownership is exact in every state, and the state is a tree as long as no unsafe creation
      has happened. */
  lemma RunInvariant(run: seq<Fs>, ops: seq<Op>, i: nat)
    requires IsVRun(run, ops) && i < |run| && Fresh(run[0])
    ensures OwnershipInv(run[i]) && (SafeUpTo(run, ops, i) ==> TreeInv(run[i]))
  {
    FreshTree(run[0]);
    RunTree(run, ops, i);
    FreshOwnership(run[0]);
    assert IsRun(run, ops) by {
      forall k | 0 <= k < |ops| ensures Step(run[k], ops[k], run[k + 1]) {
        assert VStep(run[k], ops[k], run[k + 1]);
      }
    }
    RunOwnership(run, ops, i);
  }

  // ---- paths ----

  /** The path of a node. */
  ghost function PathOf(nodes: map<nat, Node>, id: nat): Text
    requires Rooted(nodes) && id in nodes
  {
    P.Render(Comps(nodes, id))
  }

  /** `abs_normalize`. */
  ghost function AbsNormal(nodes: map<nat, Node>, path: Text, cwd: nat): Text
    requires Rooted(nodes) && cwd in nodes
  {
    if P.IsAbsolute(path) then P.Normal([P.SLASH], path) else P.Normal(PathOf(nodes, cwd), path)
  }

  /** The node that `vfs_resolve` returns. */
  ghost function Lookup(nodes: map<nat, Node>, path: Text, cwd: nat): Option<nat>
    requires Rooted(nodes) && cwd in nodes
  {
    Walk(nodes, ROOT, P.Split(AbsNormal(nodes, path, cwd)))
  }

  /** Resolving the path of a node gives the node, from any working directory. */
  lemma ResolveOfPath(fs: Fs, id: nat, cwd: nat)
    requires TreeInv(fs) && id in fs.nodes && cwd in fs.nodes
    ensures Lookup(fs.nodes, PathOf(fs.nodes, id), cwd) == Some(id)
  {
    var cs := Comps(fs.nodes, id);
    assert Nameable(cs);
    CompsPlain(fs, id);
    P.RenderAbsolute(cs);
    P.NormalOfRender([P.SLASH], cs);
    P.SplitRender(cs);
    WalkComps(fs, id);
  }

  /** For every node of every state of every run without unsafe creations. */
  lemma RunResolves(run: seq<Fs>, ops: seq<Op>, i: nat, id: nat, cwd: nat)
    requires IsVRun(run, ops) && i < |run| && Fresh(run[0]) && SafeUpTo(run, ops, i)
    ensures TreeInv(run[i])
    ensures id in run[i].nodes && cwd in run[i].nodes ==>
      Lookup(run[i].nodes, PathOf(run[i].nodes, id), cwd) == Some(id)
  {
    FreshTree(run[0]);
    RunTree(run, ops, i);
    if id in run[i].nodes && cwd in run[i].nodes {
      ResolveOfPath(run[i], id, cwd);
    }
  }

  /** A node that the checks let through is found under its own path if and only if its creation was
      safe: a child called "/" has the path "//", which is the root, and a second node of the same
      stored name is hidden by the first. */
  lemma NewNodeResolves(fs: Fs, fs': Fs, parent: nat, name: Text, kind: u32)
    requires TreeInv(fs) && Create(fs, fs', parent, name, kind) && Checked(fs, parent, name)
    ensures Rooted(fs'.nodes) && fs.next in fs'.nodes && ROOT in fs'.nodes
    ensures Lookup(fs'.nodes, PathOf(fs'.nodes, fs.next), ROOT) == Some(fs.next) <==> Storable(fs, parent, name)
  {
    CreateLinks(fs, fs', parent, name, kind);
    CreateIff(fs, fs', parent, name, kind);
    assert fs.next !in fs.nodes;
    if Storable(fs, parent, name) {
      ResolveOfPath(fs', fs.next, ROOT);
    } else {
      CompsFrame(fs.nodes, fs'.nodes, parent);
      if name == [P.SLASH] {
        RootChildPath(fs'.nodes, fs.next);
      } else {
        HiddenNode(fs, fs', parent, name, kind, Comps(fs.nodes, parent) + [StoredName(name)]);
      }
    }
  }

  lemma HiddenNode(fs: Fs, fs': Fs, parent: nat, name: Text, kind: u32, cs: seq<Text>)
    requires TreeInv(fs) && Create(fs, fs', parent, name, kind) && Checked(fs, parent, name)
    requires !Storable(fs, parent, name) && name != [P.SLASH] && Rooted(fs'.nodes) && fs.next in fs'.nodes
    requires cs == Comps(fs.nodes, parent) + [StoredName(name)] == Comps(fs'.nodes, fs.next)
    ensures Lookup(fs'.nodes, PathOf(fs'.nodes, fs.next), ROOT) != Some(fs.next)
  {
    StoredPlain(Comps(fs.nodes, parent), name);
    CompsPlain(fs, parent);
    P.RenderAbsolute(cs);
    P.NormalOfRender([P.SLASH], cs);
    P.SplitRender(cs);
    Hidden(fs, fs', parent, name, kind, cs);
  }

  lemma RootChildPath(nodes: map<nat, Node>, id: nat)
    requires Rooted(nodes) && id in nodes && Comps(nodes, id) == [[P.SLASH]]
    ensures Lookup(nodes, PathOf(nodes, id), ROOT) == Some(ROOT)
  {
    var path, cs: seq<Text> := PathOf(nodes, id), [[P.SLASH]];
    assert cs[..|cs| - 1] == [] && cs[|cs| - 1] == [P.SLASH];
    assert P.Joined(cs) == [] + [P.SLASH] + [P.SLASH];
    assert path == [P.SLASH, P.SLASH];
    assert path[1..] == [P.SLASH] && [P.SLASH][1..] == [];
    assert P.Split(path) == P.Split([P.SLASH]) == P.Split([]) == [];
  }

  /** The older node of the name comes first in the list of children. */
  lemma Hidden(fs: Fs, fs': Fs, parent: nat, name: Text, kind: u32, cs: seq<Text>)
    requires TreeInv(fs) && Create(fs, fs', parent, name, kind) && fs.nodes[parent].kind == VFS_DIRECTORY
    requires FindDir(fs.nodes, parent, StoredName(name)).Some? && cs != [] && cs[|cs| - 1] == StoredName(name)
    ensures Walk(fs'.nodes, ROOT, cs) != Some(fs.next)
  {
    var up := Walk(fs'.nodes, ROOT, cs[..|cs| - 1]);
    assert fs.next !in fs.nodes;
    if up.Some? && FindDir(fs'.nodes, up.value, StoredName(name)) == Some(fs.next) {
      assert fs.next in fs'.nodes[up.value].children;
      OnlyParentLists(fs, fs', parent, name, kind, up.value);
      FirstHides(fs.nodes, fs'.nodes, fs.nodes[parent].children, fs.next, StoredName(name));
    }
  }

  lemma OnlyParentLists(fs: Fs, fs': Fs, parent: nat, name: Text, kind: u32, up: nat)
    requires TreeInv(fs) && Create(fs, fs', parent, name, kind) && up in fs'.nodes && fs.next in fs'.nodes[up].children
    ensures up == parent && fs.next !in fs.nodes[parent].children
  {
    assert fs.next !in fs.nodes && LinkOk(fs.nodes, parent);
    if up in fs.nodes { assert LinkOk(fs.nodes, up); }
  }

  lemma {:induction false} FirstHides(nodes: map<nat, Node>, nodes': map<nat, Node>, kids: seq<nat>, c: nat, name: Text)
    requires c !in kids && Find(nodes, kids, name).Some?
    requires forall k :: k in nodes ==> k in nodes' && nodes'[k].name == nodes[k].name
    ensures Find(nodes', kids + [c], name) != Some(c)
    decreases |kids|
  {
    assert (kids + [c])[0] == kids[0] && kids[0] in kids;
    if !(kids[0] in nodes && nodes[kids[0]].name == name) && !(kids[0] in nodes' && nodes'[kids[0]].name == name) {
      assert (kids + [c])[1..] == kids[1..] + [c];
      FirstHides(nodes, nodes', kids[1..], c, name);
    }
  }

  /** `vfs_get_path`, for a node whose path fits the buffer. */
  method GetPath(fs: R.RamFs, id: nat) returns (out: Text)
    requires Rooted(fs.nodes) && id in fs.nodes && |PathOf(fs.nodes, id)| < P.PATH_MAX
    ensures out == PathOf(fs.nodes, id)
  {
    if fs.nodes[id].parent.None? {
      assert UpOk(fs.nodes, id);
      return [P.SLASH];
    }
    var rev, n := [], id;
    while fs.nodes[n].parent.Some?
      invariant n in fs.nodes
      invariant P.Joined(Comps(fs.nodes, id)) == P.Joined(Comps(fs.nodes, n)) + rev
      decreases n
    {
      assert UpOk(fs.nodes, n);
      var p := fs.nodes[n].parent.value;
      ghost var cs := Comps(fs.nodes, p);
      assert (cs + [fs.nodes[n].name])[..|cs|] == cs;
      rev := [P.SLASH] + fs.nodes[n].name + rev;
      n := p;
    }
    assert UpOk(fs.nodes, n);
    out := if rev != [] then rev else [P.SLASH];
  }

  lemma {:induction false} WalkStops(nodes: map<nat, Node>, a: seq<Text>, b: seq<Text>)
    requires ROOT in nodes && Walk(nodes, ROOT, a).None?
    ensures Walk(nodes, ROOT, a + b).None?
    decreases |b|
  {
    if b == [] {
      assert a + b == a;
    } else {
      WalkStops(nodes, a, b[..|b| - 1]);
      assert (a + b)[..|a + b| - 1] == a + b[..|b| - 1];
    }
  }

  /** The token loop of `vfs_resolve` over a normalized path. */
  method WalkPath(fs: R.RamFs, norm: Text) returns (r: Option<nat>)
    requires ROOT in fs.nodes
    ensures r == Walk(fs.nodes, ROOT, P.Split(norm))
  {
    var cur, p := ROOT, 0;
    ghost var seen: seq<Text> := [];
    while p < |norm|
      invariant 0 <= p <= |norm| && cur in fs.nodes
      invariant P.Split(norm) == seen + P.Split(norm[p..])
      invariant Walk(fs.nodes, ROOT, seen) == Some(cur)
    {
      p := P.SkipSlashes(norm, p);
      if p == |norm| { break; }
      var start := p;
      p := P.SkipComponent(norm, p);
      var name := norm[start..p];
      P.SeenNext(P.Split(norm), seen, name, P.Split(norm[p..]));
      assert (seen + [name])[..|seen|] == seen;
      seen := seen + [name];
      var next := FindDir(fs.nodes, cur, name);
      if next.None? {
        WalkStops(fs.nodes, seen, P.Split(norm[p..]));
        return None;
      }
      cur := next.value;
    }
    assert P.Split(norm) == seen by { assert norm[|norm|..] == []; }
    r := Some(cur);
  }

  method AbsNormalize(fs: R.RamFs, path: Text, cwd: nat) returns (norm: Text)
    requires TreeInv(fs.Nodes()) && cwd in fs.nodes
    ensures norm == AbsNormal(fs.nodes, path, cwd)
  {
    if P.IsAbsolute(path) {
      norm := P.Normalize([P.SLASH], path);
    } else {
      assert Nameable(Comps(fs.nodes, cwd));
      var base := GetPath(fs, cwd);
      norm := P.Normalize(base, path);
    }
  }

  /** `vfs_resolve`. */
  method Resolve(fs: R.RamFs, path: Text, cwd: nat) returns (r: Option<nat>)
    requires TreeInv(fs.Nodes()) && cwd in fs.nodes
    ensures r == Lookup(fs.nodes, path, cwd)
  {
    var norm := AbsNormalize(fs, path, cwd);
    r := WalkPath(fs, norm);
  }

  /** From a directory, a relative path leads where its components lead, each in turn, after those of the
      directory. */
  lemma RelativeMeans(nodes: map<nat, Node>, path: Text, cwd: nat)
    requires Rooted(nodes) && cwd in nodes && !P.IsAbsolute(path) && P.AllPlain(Comps(nodes, cwd))
    requires |PathOf(nodes, cwd)| + 1 + |path| <= P.WORK_MAX
    ensures Lookup(nodes, path, cwd) == Walk(nodes, ROOT, P.Resolve(Comps(nodes, cwd) + P.Split(path)))
  {
    P.NormalMeans(PathOf(nodes, cwd), path);
    P.SplitRender(Comps(nodes, cwd));
  }

  /** A name leads to the child of that name, ".." to the parent and "." to the directory itself. */
  lemma FromDirectory(fs: Fs, cwd: nat, name: Text)
    requires TreeInv(fs) && cwd in fs.nodes && P.Plain(name) && |Comps(fs.nodes, cwd)| < P.MAX_COMPONENTS
    requires |name| <= P.WORK_MAX - P.PATH_MAX - 2
    ensures Lookup(fs.nodes, name, cwd) == FindDir(fs.nodes, cwd, name)
    ensures Lookup(fs.nodes, [46], cwd) == Some(cwd)
    ensures Lookup(fs.nodes, [46, 46], cwd) == if cwd == ROOT then Some(ROOT) else fs.nodes[cwd].parent
  {
    var cs := Comps(fs.nodes, cwd);
    assert Nameable(cs);
    CompsPlain(fs, cwd);
    WalkComps(fs, cwd);
    P.FromDirectory(cs, name);
    assert name[0] in name;
    DownFrom(fs.nodes, cwd, cs, name);
    P.SplitRender(cs);
    UpFrom(fs, cwd, cs);
  }

  lemma DownFrom(nodes: map<nat, Node>, cwd: nat, cs: seq<Text>, name: Text)
    requires ROOT in nodes && cwd in nodes && P.AllPlain(cs) && P.Plain(name) && Walk(nodes, ROOT, cs) == Some(cwd)
    ensures Walk(nodes, ROOT, P.Split(P.Render(cs + [name]))) == FindDir(nodes, cwd, name)
  {
    P.SplitRender(cs + [name]);
    assert (cs + [name])[..|cs|] == cs;
  }

  lemma UpFrom(fs: Fs, cwd: nat, cs: seq<Text>)
    requires TreeInv(fs) && cwd in fs.nodes && cs == Comps(fs.nodes, cwd)
    ensures var up := if cs == [] then [] else cs[..|cs| - 1];
      Walk(fs.nodes, ROOT, P.Split(P.Render(up))) == if cwd == ROOT then Some(ROOT) else fs.nodes[cwd].parent
  {
    if cwd == ROOT {
      P.SplitRender([]);
    } else {
      assert UpOk(fs.nodes, cwd);
      var p := fs.nodes[cwd].parent.value;
      assert cs[..|cs| - 1] == Comps(fs.nodes, p);
      CompsPlain(fs, p);
      P.SplitRender(Comps(fs.nodes, p));
      WalkComps(fs, p);
    }
  }

  // ---- creation and removal by path ----

  /** Creating at `norm` is safe: it is not the root, and nothing has the name that would be stored. */
  ghost predicate SafeAt(nodes: map<nat, Node>, norm: Text)
    requires ROOT in nodes
  {
    var cs := P.Split(norm);
    cs != [] && Walk(nodes, ROOT, cs[..|cs| - 1] + [StoredName(cs[|cs| - 1])]).None?
  }

  /** A path whose last name is stored whole. */
  predicate StoredWhole(norm: Text) {
    norm != [P.SLASH] && |P.Basename(norm)| < VFS_NAME_MAX
  }

  ghost predicate Canonical(norm: Text) {
    P.AllPlain(P.Split(norm)) && |P.Split(norm)| <= P.MAX_COMPONENTS && norm == P.Render(P.Split(norm))
  }

  lemma AbsNormalCanonical(nodes: map<nat, Node>, path: Text, cwd: nat)
    requires Rooted(nodes) && cwd in nodes
    ensures Canonical(AbsNormal(nodes, path, cwd))
  {
    P.NormalIsCanonical(if P.IsAbsolute(path) then [P.SLASH] else PathOf(nodes, cwd), path);
  }

  /** The directory and the name that a canonical path other than `/` splits into. */
  lemma ParentOfPath(nodes: map<nat, Node>, norm: Text)
    requires Rooted(nodes) && Canonical(norm) && norm != [P.SLASH] && |norm| < P.PATH_MAX
    ensures var cs := P.Split(norm);
      && cs != [] && P.Basename(norm) == cs[|cs| - 1]
      && P.Split(AbsNormal(nodes, P.Dirname(norm), ROOT)) == cs[..|cs| - 1]
  {
    var cs := P.Split(norm);
    P.BasenameDirname(cs);
    FrontIsCanonical(cs);
  }

  lemma FrontIsCanonical(cs: seq<Text>)
    requires P.AllPlain(cs) && cs != [] && |cs| <= P.MAX_COMPONENTS && |P.Render(cs)| < P.PATH_MAX
    ensures var dir := P.Render(cs[..|cs| - 1]);
      P.IsAbsolute(dir) && P.Split(P.Normal([P.SLASH], dir)) == cs[..|cs| - 1]
  {
    var up := cs[..|cs| - 1];
    P.RenderAbsolute(up);
    assert |P.Render(up)| <= |P.Render(cs)| by { assert |P.Joined(up)| <= |P.Joined(cs)|; }
    P.NormalOfRender([P.SLASH], up);
    P.SplitRender(up);
  }

  /** The effect of creating a node and setting its owner and mode. */
  ghost predicate Made(fs: Fs, fs': Fs, parent: nat, name: Text, kind: u32, perms: u32, uid: u32, gid: u32) {
    && fs.next in fs'.nodes
    && var bare := FreshNode(Some(parent), name, kind);
    && fs'.nodes[fs.next] == bare.(perms := perms, uid := uid, gid := gid)
    && Create(fs, fs'.(nodes := fs'.nodes[fs.next := bare]), parent, name, kind)
  }

  lemma MadeIff(fs: Fs, fs': Fs, parent: nat, name: Text, kind: u32, perms: u32, uid: u32, gid: u32)
    requires TreeInv(fs) && Made(fs, fs', parent, name, kind, perms, uid, gid) && Checked(fs, parent, name)
    ensures TreeInv(fs') <==> Storable(fs, parent, name)
    ensures TreeInv(fs') ==> Comps(fs'.nodes, fs.next) == Comps(fs.nodes, parent) + [StoredName(name)]
    ensures fs.next !in fs.nodes && ROOT in fs.nodes && forall x :: x in fs.nodes ==> x in fs'.nodes
  {
    assert fs.next !in fs.nodes;
    var mid := fs'.(nodes := fs'.nodes[fs.next := FreshNode(Some(parent), name, kind)]);
    CreateIff(fs, mid, parent, name, kind);
    assert SameShape(mid.nodes, fs'.nodes) && SameShape(fs'.nodes, mid.nodes);
    if TreeInv(mid) { ShapeKept(mid, fs'); }
    if TreeInv(fs') {
      ShapeKept(fs', mid);
      assert fs.next !in fs.nodes;
      CompsFrame(fs.nodes, fs'.nodes, parent);
    }
  }

  /** The common part of `vfs_mkdir` and `vfs_create`, below a directory that was found. */
  method MakeNode(fs: R.RamFs, parent: nat, name: Text, kind: u32, perms: u32, uid: u32, gid: u32, heapOk: bool)
    returns (r: Option<nat>)
    requires fs.Valid() && parent in fs.nodes
    modifies fs`nodes, fs`next
    ensures fs.Valid()
    ensures r == if |old(fs.nodes[parent]).children| >= VFS_MAX_CHILDREN || !heapOk then None else Some(old(fs.next))
    ensures r.None? ==> fs.State() == old(fs.State())
    ensures r.Some? ==> Made(old(fs.State()), fs.State(), parent, name, kind, perms, uid, gid)
    ensures r.Some? ==> Made(old(fs.Nodes()), fs.Nodes(), parent, name, kind, perms, uid, gid)
  {
    r := fs.CreateNode(parent, name, kind, heapOk);
    if r.Some? {
      ghost var mid := fs.State();
      fs.nodes := fs.nodes[r.value := fs.nodes[r.value].(perms := perms, uid := uid, gid := gid)];
      StepOwnership(mid, SetAttrOp(r.value, perms, uid, gid), fs.State());
      assert mid.nodes == fs.nodes[r.value := mid.nodes[r.value]];
    }
  }

  /** The directory and the name to create at a canonical path: for the root it is "/" in the root. */
  function DirOf(norm: Text): seq<Text> {
    var cs := P.Split(norm);
    if cs == [] then [] else cs[..|cs| - 1]
  }

  function NameOf(norm: Text): Text {
    var cs := P.Split(norm);
    if cs == [] then [47] else cs[|cs| - 1]
  }

  lemma PlaceOf(nodes: map<nat, Node>, norm: Text)
    requires Rooted(nodes) && Canonical(norm) && |norm| < P.PATH_MAX
    ensures P.Basename(norm) == NameOf(norm) && Lookup(nodes, P.Dirname(norm), ROOT) == Walk(nodes, ROOT, DirOf(norm))
  {
    if norm == [P.SLASH] { RootOfRoot(nodes); } else { ParentOfPath(nodes, norm); }
  }

  /** There is a directory for the new node, with no node of that name. */
  ghost predicate Vacant(nodes: map<nat, Node>, norm: Text)
    requires ROOT in nodes
  {
    var up := Walk(nodes, ROOT, DirOf(norm));
    up.Some? && nodes[up.value].kind == VFS_DIRECTORY && FindDir(nodes, up.value, NameOf(norm)).None?
  }

  /** And it has room. */
  ghost predicate Roomy(nodes: map<nat, Node>, norm: Text)
    requires ROOT in nodes && Walk(nodes, ROOT, DirOf(norm)).Some?
  {
    |nodes[Walk(nodes, ROOT, DirOf(norm)).value].children| < VFS_MAX_CHILDREN
  }

  /** The new node, and what it is for the path that was asked for. */
  ghost predicate MadeAt(fs: Fs, fs': Fs, parent: nat, norm: Text, kind: u32, perms: u32, uid: u32, gid: u32)
    requires ROOT in fs.nodes
  {
    && Rooted(fs.nodes) && Checked(fs, parent, NameOf(norm))
    && Walk(fs.nodes, ROOT, DirOf(norm)) == Some(parent)
    && Made(fs, fs', parent, NameOf(norm), kind, perms, uid, gid)
    && (norm != [P.SLASH] ==> Walk(fs.nodes, ROOT, P.Split(norm)).None?)
    && ROOT in fs'.nodes && (Walk(fs'.nodes, ROOT, P.Split(norm)) == Some(fs.next) <==> StoredWhole(norm))
  }

  /** `vfs_mkdir` (kind `VFS_DIRECTORY`), and `vfs_create` for a name that does not exist yet.
      `allowed` is the outcome of the permission check on the directory, `parent` the directory. */
  method MakeAt(fs: R.RamFs, path: Text, cwd: nat, kind: u32, perms: u32, uid: u32, gid: u32, allowed: bool,
                heapOk: bool)
    returns (r: Option<nat>, ghost parent: nat)
    requires fs.Valid() && TreeInv(fs.Nodes()) && cwd in fs.nodes
    requires |AbsNormal(fs.nodes, path, cwd)| < P.PATH_MAX
    modifies fs`nodes, fs`next
    ensures fs.Valid()
    ensures r.None? ==> fs.State() == old(fs.State())
    ensures var norm := AbsNormal(old(fs.nodes), path, cwd);
      r.Some? <==> allowed && heapOk && Vacant(old(fs.nodes), norm) && Roomy(old(fs.nodes), norm)
    ensures var norm := AbsNormal(old(fs.nodes), path, cwd);
      r.Some? ==>
        && r.value == old(fs.next) && r.value in fs.nodes
        && fs.nodes[r.value] == Node(StoredName(NameOf(norm)), kind, perms, uid, gid, 0, Some(parent), [], None, None,
                                     false)
        && MadeAt(old(fs.State()), fs.State(), parent, norm, kind, perms, uid, gid)
        && (TreeInv(fs.Nodes()) <==> SafeAt(old(fs.nodes), norm))
  {
    var norm := AbsNormalize(fs, path, cwd);
    AbsNormalCanonical(fs.nodes, path, cwd);
    PlaceOf(fs.nodes, norm);
    parent := ROOT;
    var up := Resolve(fs, P.Dirname(norm), ROOT);
    if up.None? || fs.nodes[up.value].kind != VFS_DIRECTORY || !allowed { return None, parent; }
    parent := up.value;
    var name := P.Basename(norm);
    if FindDir(fs.nodes, up.value, name).Some? { return None, parent; }
    r := MakeBelow(fs, up.value, norm, name, kind, perms, uid, gid, heapOk);
  }

  /** The end of both, below a directory that was found, for a name that was not. */
  method MakeBelow(fs: R.RamFs, parent: nat, ghost norm: Text, name: Text, kind: u32, perms: u32, uid: u32, gid: u32,
                   heapOk: bool)
    returns (r: Option<nat>)
    requires fs.Valid() && TreeInv(fs.Nodes()) && Canonical(norm) && |norm| < P.PATH_MAX && name == NameOf(norm)
    requires Walk(fs.nodes, ROOT, DirOf(norm)) == Some(parent) && Vacant(fs.nodes, norm)
    modifies fs`nodes, fs`next
    ensures fs.Valid()
    ensures r.None? ==> fs.State() == old(fs.State())
    ensures r.Some? <==> heapOk && Roomy(old(fs.nodes), norm)
    ensures r.Some? ==>
      && r.value == old(fs.next) && r.value in fs.nodes
      && fs.nodes[r.value] == Node(StoredName(name), kind, perms, uid, gid, 0, Some(parent), [], None, None, false)
      && MadeAt(old(fs.State()), fs.State(), parent, norm, kind, perms, uid, gid)
      && (TreeInv(fs.Nodes()) <==> SafeAt(old(fs.nodes), norm))
  {
    ghost var before := fs.Nodes();
    PlaceOf(fs.nodes, norm);
    NewChecked(before, parent, norm);
    r := MakeNode(fs, parent, name, kind, perms, uid, gid, heapOk);
    if r.Some? {
      NewNode(before, fs.Nodes(), parent, norm, kind, perms, uid, gid);
    }
  }

  /** `vfs_create`: a file that exists is opened if it may be written, otherwise one is made. `allowed` and
      `writable` are the outcomes of the permission checks on the directory and on the file. */
  method CreateFile(fs: R.RamFs, path: Text, cwd: nat, perms: u32, uid: u32, gid: u32, allowed: bool, writable: bool,
                    heapOk: bool)
    returns (r: Option<nat>, ghost parent: nat)
    requires fs.Valid() && TreeInv(fs.Nodes()) && cwd in fs.nodes
    requires |AbsNormal(fs.nodes, path, cwd)| < P.PATH_MAX
    modifies fs`nodes, fs`next
    ensures fs.Valid()
    ensures var norm, there := AbsNormal(old(fs.nodes), path, cwd), Lookup(old(fs.nodes), path, cwd);
      if norm != [P.SLASH] && there.Some? then
        fs.State() == old(fs.State()) && r == if writable then there else None
      else
        && (r.None? ==> fs.State() == old(fs.State()))
        && (r.Some? <==> allowed && heapOk && Vacant(old(fs.nodes), norm) && Roomy(old(fs.nodes), norm))
        && (r.Some? ==>
              && r.value == old(fs.next) && r.value in fs.nodes
              && fs.nodes[r.value] == Node(StoredName(NameOf(norm)), VFS_FILE, perms, uid, gid, 0, Some(parent), [],
                                           None, None, false)
              && MadeAt(old(fs.State()), fs.State(), parent, norm, VFS_FILE, perms, uid, gid)
              && (TreeInv(fs.Nodes()) <==> SafeAt(old(fs.nodes), norm)))
  {
    var norm := AbsNormalize(fs, path, cwd);
    AbsNormalCanonical(fs.nodes, path, cwd);
    PlaceOf(fs.nodes, norm);
    Existing(fs.Nodes(), norm);
    parent, r := ROOT, None;
    var up := Resolve(fs, P.Dirname(norm), ROOT);
    if up.None? || fs.nodes[up.value].kind != VFS_DIRECTORY { return; }
    parent := up.value;
    var name := P.Basename(norm);
    var existing := FindDir(fs.nodes, up.value, name);
    if existing.Some? {
      r := if writable then existing else None;
    } else if allowed {
      r := MakeBelow(fs, up.value, norm, name, VFS_FILE, perms, uid, gid, heapOk);
    }
  }

  lemma FoundPlain(fs: Fs, up: nat, name: Text)
    requires TreeInv(fs) && up in fs.nodes
    ensures FindDir(fs.nodes, up, name).Some? ==> P.Plain(name)
  {
    var c := FindDir(fs.nodes, up, name);
    if c.Some? {
      FoundBelow(fs, up, name);
      CompsPlain(fs, c.value);
      var cs := Comps(fs.nodes, c.value);
      assert P.Plain(cs[|cs| - 1]);
    }
  }

  /** The name is there if and only if the path leads somewhere; the root has no child called "/". */
  lemma Existing(fs: Fs, norm: Text)
    requires TreeInv(fs) && Canonical(norm)
    ensures var up := Walk(fs.nodes, ROOT, DirOf(norm));
      (up.Some? && FindDir(fs.nodes, up.value, NameOf(norm)).Some?)
      <==> (norm != [P.SLASH] && Walk(fs.nodes, ROOT, P.Split(norm)).Some?)
    ensures norm != [P.SLASH] && Walk(fs.nodes, ROOT, P.Split(norm)).Some? ==>
      var up := Walk(fs.nodes, ROOT, DirOf(norm));
      FindDir(fs.nodes, up.value, NameOf(norm)) == Walk(fs.nodes, ROOT, P.Split(norm))
  {
    RootOfRoot(fs.nodes);
    if norm == [P.SLASH] {
      FoundPlain(fs, ROOT, [P.SLASH]);
    }
  }

  /** What the code has looked up is what the step relation calls checked. */
  lemma NewChecked(fs: Fs, parent: nat, norm: Text)
    requires TreeInv(fs) && Canonical(norm) && |norm| < P.PATH_MAX
    requires Lookup(fs.nodes, P.Dirname(norm), ROOT) == Some(parent)
    requires fs.nodes[parent].kind == VFS_DIRECTORY && FindDir(fs.nodes, parent, P.Basename(norm)).None?
    ensures Checked(fs, parent, P.Basename(norm))
  {
    if norm == [P.SLASH] {
      RootOfRoot(fs.nodes);
    } else {
      var cs := P.Split(norm);
      ParentOfPath(fs.nodes, norm);
      SplitLast(cs);
      WalkFinds(fs, cs[..|cs| - 1]);
    }
  }

  lemma RootOfRoot(nodes: map<nat, Node>)
    requires Rooted(nodes)
    ensures P.Basename([P.SLASH]) == [P.SLASH] && P.Dirname([P.SLASH]) == [P.SLASH] && P.Split([P.SLASH]) == []
    ensures Lookup(nodes, [P.SLASH], ROOT) == Some(ROOT)
  {
    var root: Text := [P.SLASH];
    assert root[1..] == [] && P.AfterLastSlash(root) == 1;
    assert P.Basename(root) == root && P.Dirname(root) == root && P.Split(root) == [];
    assert P.Render([]) == root && P.Normal(root, root) == root;
  }

  lemma NewNode(fs: Fs, fs': Fs, parent: nat, norm: Text, kind: u32, perms: u32, uid: u32, gid: u32)
    requires TreeInv(fs) && Canonical(norm) && |norm| < P.PATH_MAX
    requires Lookup(fs.nodes, P.Dirname(norm), ROOT) == Some(parent)
    requires fs.nodes[parent].kind == VFS_DIRECTORY && FindDir(fs.nodes, parent, P.Basename(norm)).None?
    requires Made(fs, fs', parent, P.Basename(norm), kind, perms, uid, gid)
    ensures norm != [P.SLASH] ==> Walk(fs.nodes, ROOT, P.Split(norm)).None?
    ensures TreeInv(fs') <==> SafeAt(fs.nodes, norm)
    ensures ROOT in fs'.nodes && (Walk(fs'.nodes, ROOT, P.Split(norm)) == Some(fs.next) <==> StoredWhole(norm))
  {
    if norm == [P.SLASH] {
      NewAtRoot(fs, fs', parent, kind, perms, uid, gid);
    } else {
      var cs := P.Split(norm);
      ParentOfPath(fs.nodes, norm);
      SplitLast(cs);
      NewBelow(fs, fs', parent, cs[..|cs| - 1], cs[|cs| - 1], kind, perms, uid, gid);
    }
  }

  lemma SplitLast(cs: seq<Text>)
    requires P.AllPlain(cs) && |cs| <= P.MAX_COMPONENTS && |P.Render(cs)| < P.PATH_MAX && cs != []
    ensures cs[..|cs| - 1] + [cs[|cs| - 1]] == cs && P.Plain(cs[|cs| - 1]) && Nameable(cs)
  {
  }

  /** Asked for the root path, creation makes a child of the root called "/". */
  lemma NewAtRoot(fs: Fs, fs': Fs, parent: nat, kind: u32, perms: u32, uid: u32, gid: u32)
    requires TreeInv(fs) && Lookup(fs.nodes, P.Dirname([P.SLASH]), ROOT) == Some(parent)
    requires fs.nodes[parent].kind == VFS_DIRECTORY && FindDir(fs.nodes, parent, P.Basename([P.SLASH])).None?
    requires Made(fs, fs', parent, P.Basename([P.SLASH]), kind, perms, uid, gid)
    ensures !TreeInv(fs') && P.Split([P.SLASH]) == []
    ensures ROOT in fs'.nodes && Walk(fs'.nodes, ROOT, []) == Some(ROOT) && fs.next != ROOT
  {
    RootOfRoot(fs.nodes);
    MadeIff(fs, fs', parent, [P.SLASH], kind, perms, uid, gid);
    assert fs.next !in fs.nodes;
  }

  lemma NewBelow(fs: Fs, fs': Fs, parent: nat, up: seq<Text>, name: Text, kind: u32, perms: u32, uid: u32, gid: u32)
    requires TreeInv(fs) && P.Plain(name) && Nameable(up + [name]) && Walk(fs.nodes, ROOT, up) == Some(parent)
    requires fs.nodes[parent].kind == VFS_DIRECTORY && FindDir(fs.nodes, parent, name).None?
    requires Made(fs, fs', parent, name, kind, perms, uid, gid)
    ensures Walk(fs.nodes, ROOT, up + [name]).None?
    ensures TreeInv(fs') <==> Walk(fs.nodes, ROOT, up + [StoredName(name)]).None?
    ensures ROOT in fs'.nodes && (Walk(fs'.nodes, ROOT, up + [name]) == Some(fs.next) <==> |name| < VFS_NAME_MAX)
  {
    WalkFinds(fs, up);
    assert (up + [name])[..|up|] == up && (up + [StoredName(name)])[..|up|] == up;
    MadeIff(fs, fs', parent, name, kind, perms, uid, gid);
    FoundByName(fs, fs', parent, up, name);
  }

  /** The new node is found under the name given exactly when that name is stored in full. */
  lemma FoundByName(fs: Fs, fs': Fs, parent: nat, up: seq<Text>, name: Text)
    requires ROOT in fs'.nodes && fs.next in fs'.nodes && fs'.nodes[fs.next].name == StoredName(name)
    requires Nameable(up + [name])
    requires |name| < VFS_NAME_MAX ==> TreeInv(fs') && Comps(fs'.nodes, fs.next) == up + [StoredName(name)]
    ensures Walk(fs'.nodes, ROOT, up + [name]) == Some(fs.next) <==> |name| < VFS_NAME_MAX
  {
    if |name| < VFS_NAME_MAX {
      WalkComps(fs', fs.next);
    }
  }

  /** `vfs_delete`; `verdict` is the outcome of the permission and sticky-bit checks, 0 if they allow it. */
  method Delete(fs: R.RamFs, path: Text, cwd: nat, verdict: int) returns (rc: int)
    requires fs.blockfs.Valid() && (fs.blockfs.available ==> fs.Valid()) && TreeInv(fs.Nodes()) && cwd in fs.nodes
    requires verdict == 0 || verdict == -3 || verdict == -4
    modifies fs`nodes, fs.blockfs`bitmap, fs.blockfs`usedBlocks, fs.blockfs`view
    ensures fs.blockfs.Valid() && (old(fs.Valid()) ==> fs.Valid()) && TreeInv(fs.Nodes())
    ensures var node := Lookup(old(fs.nodes), path, cwd);
      rc == if node.None? || node.value == ROOT then -1
            else if verdict != 0 then verdict
            else if Busy(old(fs.nodes), node.value) then -2
            else 0
    ensures rc != 0 ==> fs.State() == old(fs.State())
    ensures rc == 0 ==> Walk(fs.nodes, ROOT, P.Split(AbsNormal(old(fs.nodes), path, cwd))).None?
    ensures rc == 0 ==>
      && Lookup(old(fs.nodes), path, cwd).Some?
      && fs.nodes.Keys == old(fs.nodes.Keys) - {Lookup(old(fs.nodes), path, cwd).value}
  {
    var node := Resolve(fs, path, cwd);
    if node.None? { return -1; }
    assert UpOk(fs.nodes, node.value);
    if fs.nodes[node.value].parent.Some? && verdict != 0 { return verdict; }
    rc := DeleteNode(fs, node.value, P.Split(AbsNormal(fs.nodes, path, cwd)));
  }

  /** A directory that is not empty. */
  predicate Busy(nodes: map<nat, Node>, id: nat)
    requires id in nodes
  {
    nodes[id].kind == VFS_DIRECTORY && nodes[id].children != []
  }

  method DeleteNode(fs: R.RamFs, id: nat, ghost cs: seq<Text>) returns (rc: int)
    requires fs.blockfs.Valid() && (fs.blockfs.available ==> fs.Valid())
    requires TreeInv(fs.Nodes()) && id in fs.nodes && Walk(fs.nodes, ROOT, cs) == Some(id)
    modifies fs`nodes, fs.blockfs`bitmap, fs.blockfs`usedBlocks, fs.blockfs`view
    ensures fs.blockfs.Valid() && (old(fs.Valid()) ==> fs.Valid()) && TreeInv(fs.Nodes())
    ensures rc == if id == ROOT then -1 else if Busy(old(fs.nodes), id) then -2 else 0
    ensures rc != 0 ==> fs.State() == old(fs.State())
    ensures rc == 0 ==> Walk(fs.nodes, ROOT, cs).None? && fs.nodes.Keys == old(fs.nodes.Keys) - {id}
  {
    assert UpOk(fs.nodes, id) && LinkOk(fs.nodes, id);
    ghost var before, i := fs.Nodes(), 0;
    rc, i := fs.RemoveNode(id);
    if rc == 0 { RemovedNode(before, fs.Nodes(), id, i, cs); }
  }

  lemma RemovedNode(fs: Fs, fs': Fs, id: nat, i: nat, cs: seq<Text>)
    requires TreeInv(fs) && Unlinked(fs, fs', id, i) && Walk(fs.nodes, ROOT, cs) == Some(id)
    ensures TreeInv(fs') && Walk(fs'.nodes, ROOT, cs).None?
  {
    if fs.nodes[id].kind != VFS_DIRECTORY { LeafIsEmpty(fs, id); }
    RemoveKeeps(fs, fs', id, i);
    var w := Walk(fs'.nodes, ROOT, cs);
    if w.Some? {
      WalkFinds(fs', cs);
      CompsFrame(fs'.nodes, fs.nodes, w.value);
      WalkComps(fs, w.value);
    }
  }
}
