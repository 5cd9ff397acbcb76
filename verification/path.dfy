/** fs/path.c: normalizing, splitting and joining paths. A C string is the bytes before its
    terminating NUL. */
module Path {
  import opened Bytes

  const SLASH: byte := 47
  const DOT: byte := 46
  const PATH_MAX: nat := 256
  const WORK_MAX: nat := 511      // sizeof(work) - 1
  const MAX_COMPONENTS: nat := 64

  type Text = seq<byte>

  function Here(): Text { [DOT] }
  function Up(): Text { [DOT, DOT] }

  predicate IsAbsolute(path: Text) {
    path != [] && path[0] == SLASH
  }

  // ---- splitting and joining ----

  /** Index of the first slash, or the length. */
  function FirstSlash(s: Text): (n: nat)
    ensures n <= |s| && (n < |s| ==> s[n] == SLASH)
    ensures SLASH !in s[..n]
  {
    if s == [] || s[0] == SLASH then 0
    else
      var n := 1 + FirstSlash(s[1..]);
      assert s[..n] == [s[0]] + s[1..][..n - 1];
      n
  }

  /** The nonempty stretches between slashes. */
  function Split(s: Text): (cs: seq<Text>)
    decreases |s|
  {
    if s == [] then []
    else if s[0] == SLASH then Split(s[1..])
    else [s[..FirstSlash(s)]] + Split(s[FirstSlash(s)..])
  }

  /** A component that normalization keeps. */
  predicate Plain(c: Text) {
    c != [] && SLASH !in c && c != Here() && c != Up()
  }

  ghost predicate AllPlain(cs: seq<Text>) {
    forall i :: 0 <= i < |cs| ==> Plain(cs[i])
  }

  function Joined(cs: seq<Text>): (s: Text) {
    if cs == [] then [] else Joined(cs[..|cs| - 1]) + [SLASH] + cs[|cs| - 1]
  }

  /** The canonical absolute path of a component stack. */
  function Render(cs: seq<Text>): (s: Text) {
    if cs == [] then [SLASH] else Joined(cs)
  }

  lemma {:induction false} JoinedFront(c: Text, cs: seq<Text>)
    ensures Joined([c] + cs) == [SLASH] + c + Joined(cs)
  {
    if cs == [] {
      assert [c] + cs == [c] && [c][..0] == [];
    } else {
      var n := |cs| - 1;
      assert ([c] + cs)[..|cs|] == [c] + cs[..n];
      JoinedFront(c, cs[..n]);
    }
  }

  lemma {:induction false} FirstSlashOf(c: Text, rest: Text)
    requires SLASH !in c && (rest == [] || rest[0] == SLASH)
    ensures FirstSlash(c + rest) == |c|
  {
    if c == [] {
      assert c + rest == rest;
    } else {
      assert (c + rest)[1..] == c[1..] + rest;
      FirstSlashOf(c[1..], rest);
    }
  }

  /** Splitting undoes joining. */
  lemma {:induction false} SplitJoined(cs: seq<Text>)
    requires AllPlain(cs)
    ensures Split(Joined(cs)) == cs
  {
    if cs != [] {
      var c, rest := cs[0], cs[1..];
      assert cs == [c] + rest;
      JoinedFront(c, rest);
      assert Plain(c);
      var tail := Joined(rest);
      if rest != [] {
        JoinedFront(rest[0], rest[1..]);
        assert rest == [rest[0]] + rest[1..];
      }
      FirstSlashOf(c, tail);
      var body := c + tail;
      assert Joined(cs)[1..] == body && body[..|c|] == c && body[|c|..] == tail;
      assert Split(body) == [c] + Split(tail);
      SplitJoined(rest);
    }
  }

  lemma SplitRender(cs: seq<Text>)
    requires AllPlain(cs)
    ensures Split(Render(cs)) == cs
  {
    SplitJoined(cs);
    if cs == [] {
      assert [SLASH][1..] == [];
    }
  }

  // ---- the component stack ----

  /** What one component does to the stack; a push beyond 64 components is dropped. */
  function Push(stack: seq<Text>, c: Text): (r: seq<Text>)
    ensures |stack| <= MAX_COMPONENTS ==> |r| <= MAX_COMPONENTS
  {
    if c == Here() then stack
    else if c == Up() then (if stack == [] then [] else stack[..|stack| - 1])
    else if |stack| < MAX_COMPONENTS then stack + [c]
    else stack
  }

  function Resolve(cs: seq<Text>): (r: seq<Text>)
    ensures |r| <= MAX_COMPONENTS
  {
    if cs == [] then [] else Push(Resolve(cs[..|cs| - 1]), cs[|cs| - 1])
  }

  /** An independent reading of the same path: from the right, each `..` cancels one earlier
      component. `pending` counts cancellations still to do. */
  function Cancel(cs: seq<Text>, pending: nat): seq<Text> {
    if cs == [] then []
    else
      var c, rest := cs[|cs| - 1], cs[..|cs| - 1];
      if c == Here() then Cancel(rest, pending)
      else if c == Up() then Cancel(rest, pending + 1)
      else if pending > 0 then Cancel(rest, pending - 1)
      else Cancel(rest, 0) + [c]
  }

  function DropLast(cs: seq<Text>, k: nat): seq<Text> {
    if k >= |cs| then [] else cs[..|cs| - k]
  }

  /** The stack computes the cancellation reading, for every path of at most 64 components. */
  lemma {:induction false} ResolveIsCancel(cs: seq<Text>, k: nat)
    requires |cs| <= MAX_COMPONENTS
    ensures |Resolve(cs)| <= |cs| && DropLast(Resolve(cs), k) == Cancel(cs, k)
  {
    if cs != [] {
      var c, rest := cs[|cs| - 1], cs[..|cs| - 1];
      ResolveIsCancel(rest, if c == Up() then k + 1 else if c == Here() || k == 0 then k else k - 1);
    }
  }

  ghost predicate NoSlashes(cs: seq<Text>) {
    forall i :: 0 <= i < |cs| ==> cs[i] != [] && SLASH !in cs[i]
  }

  lemma {:induction false} SplitNoSlashes(s: Text)
    ensures NoSlashes(Split(s))
    decreases |s|
  {
    if s != [] {
      if s[0] == SLASH {
        SplitNoSlashes(s[1..]);
      } else {
        SplitNoSlashes(s[FirstSlash(s)..]);
      }
    }
  }

  lemma {:induction false} ResolvePlain(cs: seq<Text>)
    requires NoSlashes(cs)
    ensures AllPlain(Resolve(cs))
  {
    if cs != [] {
      ResolvePlain(cs[..|cs| - 1]);
    }
  }

  lemma {:induction false} ResolvePlainIsIdentity(cs: seq<Text>)
    requires AllPlain(cs)
    ensures Resolve(cs) == if |cs| <= MAX_COMPONENTS then cs else cs[..MAX_COMPONENTS]
  {
    if cs != [] {
      var n := |cs| - 1;
      ResolvePlainIsIdentity(cs[..n]);
      assert Plain(cs[n]);
      if n < MAX_COMPONENTS {
        assert cs[..n] + [cs[n]] == cs;
      } else if n > MAX_COMPONENTS {
        assert cs[..n][..MAX_COMPONENTS] == cs[..MAX_COMPONENTS];
      }
    }
  }

  // ---- path_normalize ----

  function Truncate(s: Text, n: nat): Text {
    if |s| <= n then s else s[..n]
  }

  /** The raw path that `path_normalize` assembles in its 512-byte work buffer. */
  function Combine(base: Text, path: Text): Text {
    if IsAbsolute(path) then Truncate(path, WORK_MAX)
    else
      var b := Truncate(base, WORK_MAX);
      var b' := if (b == [] || b[|b| - 1] != SLASH) && |b| < WORK_MAX then b + [SLASH] else b;
      Truncate(b' + path, WORK_MAX)
  }

  /** What `path_normalize` writes. */
  function Normal(base: Text, path: Text): Text {
    Render(Resolve(Split(Combine(base, path))))
  }

  method Normalize(base: Text, path: Text) returns (out: Text)
    ensures out == Normal(base, path)
  {
    var work := Combine(base, path);
    var stack: seq<Text> := [];
    ghost var seen: seq<Text> := [];
    var p := 0;
    while p < |work|
      invariant 0 <= p <= |work|
      invariant Split(work) == seen + Split(work[p..])
      invariant stack == Resolve(seen)
    {
      p := SkipSlashes(work, p);
      if p == |work| { break; }
      var start := p;
      p := SkipComponent(work, p);
      stack := Apply(stack, work[start..p]);
      SeenNext(Split(work), seen, work[start..p], Split(work[p..]));
      seen := seen + [work[start..p]];
    }
    assert Split(work) == seen by { assert work[|work|..] == []; }
    out := BuildPath(stack);
  }

  lemma SeenNext(all: seq<Text>, seen: seq<Text>, c: Text, rest: seq<Text>)
    requires all == seen + ([c] + rest)
    ensures all == (seen + [c]) + rest && Resolve(seen + [c]) == Push(Resolve(seen), c)
  {
    assert (seen + [c])[..|seen|] == seen;
  }

  method Apply(stack: seq<Text>, c: Text) returns (r: seq<Text>)
    ensures r == Push(stack, c)
  {
    r := stack;
    if c == Here() {
    } else if c == Up() {
      if |r| > 0 { r := r[..|r| - 1]; }
    } else if |r| < MAX_COMPONENTS {
      r := r + [c];
    }
  }

  method SkipSlashes(work: Text, from: nat) returns (p: nat)
    requires from <= |work|
    ensures from <= p <= |work| && (p < |work| ==> work[p] != SLASH)
    ensures Split(work[p..]) == Split(work[from..])
  {
    p := from;
    while p < |work| && work[p] == SLASH
      invariant from <= p <= |work| && Split(work[p..]) == Split(work[from..])
    {
      assert work[p..][1..] == work[p + 1..];
      p := p + 1;
    }
  }

  method SkipComponent(work: Text, from: nat) returns (p: nat)
    requires from < |work| && work[from] != SLASH
    ensures from < p <= |work| && Split(work[from..]) == [work[from..p]] + Split(work[p..])
  {
    p := from;
    while p < |work| && work[p] != SLASH
      invariant from <= p <= |work| && SLASH !in work[from..p]
    {
      p := p + 1;
    }
    assert work[from..] == work[from..p] + work[p..];
    FirstSlashOf(work[from..p], work[p..]);
  }

  /** The rebuilding loop of `path_normalize`. */
  method BuildPath(stack: seq<Text>) returns (out: Text)
    ensures out == Render(stack)
  {
    if |stack| == 0 { return [SLASH]; }
    out := [];
    var i := 0;
    while i < |stack|
      invariant 0 <= i <= |stack| && out == Joined(stack[..i])
    {
      assert stack[..i + 1][..i] == stack[..i];
      out := out + [SLASH] + stack[i];
      i := i + 1;
    }
    assert stack[..i] == stack;
  }

  // ---- what a path means ----

  /** A stretch without slashes is one component, and a slash ends one. */
  lemma {:induction false} SplitConcat(a: Text, b: Text)
    ensures Split(a + [SLASH] + b) == Split(a) + Split(b)
    decreases |a|
  {
    var s := a + [SLASH] + b;
    if a == [] {
      assert s[1..] == b;
    } else if a[0] == SLASH {
      assert s[1..] == a[1..] + [SLASH] + b;
      SplitConcat(a[1..], b);
    } else {
      var n := FirstSlash(a);
      FirstSlashOf(a[..n], a[n..] + [SLASH] + b);
      assert a == a[..n] + a[n..];
      assert s == a[..n] + (a[n..] + [SLASH] + b);
      assert s[..n] == a[..n] && s[n..] == a[n..] + [SLASH] + b;
      SplitConcat(a[n..], b);
      assert [a[..n]] + (Split(a[n..]) + Split(b)) == ([a[..n]] + Split(a[n..])) + Split(b);
    }
  }

  lemma SplitOne(c: Text)
    requires c != [] && SLASH !in c
    ensures Split(c) == [c]
  {
    FirstSlashOf(c, []);
    assert c + [] == c && c[..|c|] == c && c[|c|..] == [];
  }

  /** A path is read from the base, and an absolute one alone. */
  function Reading(base: Text, path: Text): (r: Text) {
    if path != [] && path[0] == 47 then path else base + [47] + path
  }

  /** The work buffer holds the reading up to its length; a slash at the end of the base is not doubled. */
  lemma CombineReads(base: Text, path: Text)
    ensures IsAbsolute(path) ==> Combine(base, path) == Truncate(Reading(base, path), 511)
    ensures !IsAbsolute(path) && (base == [] || base[|base| - 1] != SLASH) ==>
      Combine(base, path) == Truncate(Reading(base, path), 511)
    ensures !IsAbsolute(path) && base != [] && base[|base| - 1] == SLASH ==>
      Combine(base, path) == Truncate(base + path, 511)
  {
  }

  /** The components of the base come before those of the path. */
  lemma SplitRelative(base: Text, path: Text)
    ensures base != [] && base[|base| - 1] == SLASH ==> Split(base + path) == Split(base) + Split(path)
    ensures Split(base + [SLASH] + path) == Split(base) + Split(path)
  {
    SplitConcat(base, path);
    if base != [] && base[|base| - 1] == SLASH { SplitBehind(base, base[..|base| - 1], path); }
  }

  lemma SplitBehind(base: Text, front: Text, path: Text)
    requires base == front + [SLASH]
    ensures Split(base + path) == Split(base) + Split(path)
  {
    SplitConcat(front, []);
    SplitConcat(front, path);
    assert front + [SLASH] + [] == base;
  }

  /** What normalization computes: the components of the base and of the path, resolved in order. */
  lemma NormalMeans(base: Text, path: Text)
    requires |Reading(base, path)| <= 511
    ensures Split(Normal(base, path)) ==
      Resolve(if path != [] && path[0] == 47 then Split(path) else Split(base) + Split(path))
  {
    var work := Combine(base, path);
    assert Split(work) == if IsAbsolute(path) then Split(path) else Split(base) + Split(path) by {
      CombineReads(base, path);
      SplitRelative(base, path);
    }
    SplitNoSlashes(work);
    ResolvePlain(Split(work));
    SplitRender(Resolve(Split(work)));
  }

  /** "." stays, ".." goes up and stops at the root, any other component goes down, to depth 64. */
  lemma ResolveDots(cs: seq<Text>, c: Text)
    ensures Resolve([]) == []
    ensures c == [46] ==> Resolve(cs + [c]) == Resolve(cs)
    ensures c == [46, 46] && Resolve(cs) == [] ==> Resolve(cs + [c]) == []
    ensures c == [46, 46] && Resolve(cs) != [] ==> Resolve(cs + [c]) == Resolve(cs)[..|Resolve(cs)| - 1]
    ensures c != [46] && c != [46, 46] ==>
      Resolve(cs + [c]) == if |Resolve(cs)| < 64 then Resolve(cs) + [c] else Resolve(cs)
  {
    assert (cs + [c])[..|cs|] == cs;
  }

  /** From a directory, a name leads into it, ".." to its parent, and "." back to it. */
  lemma FromDirectory(cs: seq<Text>, c: Text)
    requires AllPlain(cs) && Plain(c) && |cs| < MAX_COMPONENTS && |Render(cs)| + 3 + |c| <= WORK_MAX
    ensures Normal(Render(cs), c) == Render(cs + [c]) && Normal(Render(cs), [46]) == Render(cs)
    ensures Normal(Render(cs), [46, 46]) == if cs == [] then Render([]) else Render(cs[..|cs| - 1])
  {
    SplitRender(cs);
    ResolvePlainIsIdentity(cs);
    OneStep(cs, c);
    OneStep(cs, [46]);
    OneStep(cs, [46, 46]);
  }

  lemma OneStep(cs: seq<Text>, c: Text)
    requires c != [] && SLASH !in c && |Render(cs)| + 1 + |c| <= WORK_MAX && Split(Render(cs)) == cs
    requires Resolve(cs) == cs
    ensures Normal(Render(cs), c) == Render(Resolve(cs + [c]))
    ensures c == [46] ==> Resolve(cs + [c]) == cs
    ensures c == [46, 46] ==> Resolve(cs + [c]) == if cs == [] then [] else cs[..|cs| - 1]
    ensures c != [46] && c != [46, 46] && |cs| < 64 ==> Resolve(cs + [c]) == cs + [c]
  {
    assert c[0] in c;
    SplitOne(c);
    Canonical(Render(cs), c, cs + [c]);
    ResolveDots(cs, c);
  }

  lemma Canonical(base: Text, path: Text, cs: seq<Text>)
    requires |Reading(base, path)| <= WORK_MAX && !IsAbsolute(path) && cs == Split(base) + Split(path)
    ensures Normal(base, path) == Render(Resolve(cs))
  {
    NormalIsCanonical(base, path);
    NormalMeans(base, path);
  }

  /** The result is absolute and names a stack of plain components. */
  lemma NormalIsCanonical(base: Text, path: Text)
    ensures IsAbsolute(Normal(base, path))
    ensures AllPlain(Split(Normal(base, path))) && |Split(Normal(base, path))| <= MAX_COMPONENTS
    ensures Normal(base, path) == Render(Split(Normal(base, path)))
  {
    var cs := Split(Combine(base, path));
    SplitNoSlashes(Combine(base, path));
    ResolvePlain(cs);
    RenderAbsolute(Resolve(cs));
    SplitRender(Resolve(cs));
  }

  lemma RenderAbsolute(cs: seq<Text>)
    ensures IsAbsolute(Render(cs))
  {
    if cs != [] {
      JoinedFront(cs[0], cs[1..]);
      assert cs == [cs[0]] + cs[1..];
    }
  }

  /** The canonical path of a plain stack normalizes to itself, unless it is too deep or too long. */
  lemma NormalOfRender(base: Text, cs: seq<Text>)
    requires AllPlain(cs) && |Render(cs)| <= WORK_MAX
    ensures Normal(base, Render(cs)) == Render(if |cs| <= MAX_COMPONENTS then cs else cs[..MAX_COMPONENTS])
  {
    RenderAbsolute(cs);
    SplitRender(cs);
    ResolvePlainIsIdentity(cs);
  }

  /** Normalizing again changes nothing. */
  lemma NormalIdempotent(base: Text, path: Text, base': Text)
    requires |Normal(base, path)| < PATH_MAX
    ensures Normal(base', Normal(base, path)) == Normal(base, path)
  {
    NormalIsCanonical(base, path);
    NormalOfRender(base', Split(Normal(base, path)));
  }

  // ---- basename, dirname, join ----

  /** `strrchr(s, '/')`: the index behind the last slash, 0 when there is none. */
  function AfterLastSlash(s: Text): (n: nat)
    ensures n <= |s| && SLASH !in s[n..]
    ensures n > 0 ==> s[n - 1] == SLASH
  {
    if s == [] then 0
    else if s[|s| - 1] == SLASH then |s|
    else
      var n := AfterLastSlash(s[..|s| - 1]);
      assert s[n..] == s[..|s| - 1][n..] + [s[|s| - 1]];
      n
  }

  function Basename(path: Text): Text {
    var n := AfterLastSlash(path);
    if path[n..] == [] then [SLASH] else path[n..]
  }

  function Dirname(path: Text): Text {
    var n := AfterLastSlash(path);
    if n == 0 then Here()
    else if n == 1 then [SLASH]
    else path[..n - 1]
  }

  function JoinPaths(a: Text, b: Text): Text {
    var head := if a == [] || a[|a| - 1] != SLASH then a + [SLASH] else a;
    head + if b != [] && b[0] == SLASH then b[1..] else b
  }

  lemma {:induction false} LastSlashOf(a: Text, c: Text)
    requires SLASH !in c
    ensures AfterLastSlash(a + [SLASH] + c) == |a| + 1
  {
    var s := a + [SLASH] + c;
    if c == [] {
      assert s[|s| - 1] == SLASH;
    } else {
      var n := |c| - 1;
      assert s[|s| - 1] == c[n] && s[..|s| - 1] == a + [SLASH] + c[..n];
      LastSlashOf(a, c[..n]);
    }
  }

  /** The parts of any path: what follows the last slash, or "/" if nothing does; and what comes before it, "."
      without a slash and "/" for a slash in front. */
  lemma PartsOfPath(a: Text, c: Text)
    requires SLASH !in c
    ensures c != [] ==> Basename(a + [47] + c) == c && Basename(c) == c
    ensures Basename(a + [47]) == [47] && Basename([]) == [47]
    ensures Dirname(a + [47] + c) == (if a == [] then [47] else a) && Dirname(c) == [46]
  {
    LastSlashOf(a, c);
    LastSlashOf(a, []);
    NoLastSlash(c);
    assert (a + [SLASH] + c)[|a| + 1..] == c && (a + [SLASH])[|a| + 1..] == [] && a + [SLASH] + [] == a + [SLASH];
    assert c[0..] == c && (a + [SLASH] + c)[..|a|] == a;
  }

  lemma {:induction false} NoLastSlash(c: Text)
    requires SLASH !in c
    ensures AfterLastSlash(c) == 0
  {
    if c != [] {
      assert c[|c| - 1] in c;
      NoLastSlash(c[..|c| - 1]);
    }
  }

  /** Joining puts one slash between the parts, whether or not they bring some. */
  lemma JoinsOnce(a: Text, b: Text)
    requires (a == [] || a[|a| - 1] != SLASH) && (b == [] || b[0] != SLASH)
    ensures JoinPaths(a, b) == a + [47] + b && JoinPaths(a + [47], b) == a + [47] + b
    ensures JoinPaths(a, [47] + b) == a + [47] + b && JoinPaths(a + [47], [47] + b) == a + [47] + b
  {
    assert ([SLASH] + b)[1..] == b;
  }

  /** The parts of a canonical path other than `/`, and the way back. */
  lemma BasenameDirname(cs: seq<Text>)
    requires AllPlain(cs) && cs != []
    ensures Basename(Render(cs)) == cs[|cs| - 1]
    ensures Dirname(Render(cs)) == Render(cs[..|cs| - 1])
    ensures JoinPaths(Dirname(Render(cs)), Basename(Render(cs))) == Render(cs)
  {
    var front, c := cs[..|cs| - 1], cs[|cs| - 1];
    assert Plain(c);
    if front != [] { JoinedEnds(front); }
    PartsAndBack(Joined(front), c, Render(cs));
  }

  lemma PartsAndBack(a: Text, c: Text, path: Text)
    requires path == a + [SLASH] + c && c != [] && SLASH !in c && (a == [] || a[|a| - 1] != SLASH)
    ensures Basename(path) == c && Dirname(path) == (if a == [] then [SLASH] else a)
    ensures JoinPaths(Dirname(path), Basename(path)) == path
  {
    PartsOfPath(a, c);
    assert c[0] in c;
    JoinsOnce(a, c);
    assert [] + [SLASH] == [SLASH];
  }

  lemma JoinedEnds(cs: seq<Text>)
    requires AllPlain(cs) && cs != []
    ensures Joined(cs) != [] && Joined(cs)[|Joined(cs)| - 1] != SLASH
  {
    var d := cs[|cs| - 1];
    assert Plain(d) && d[|d| - 1] in d;
    assert Joined(cs)[|Joined(cs)| - 1] == d[|d| - 1];
  }
}
