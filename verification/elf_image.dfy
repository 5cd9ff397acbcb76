/** What a program's memory holds after `execve` (kernel/elf.c): loaded segments, and the
    argument block on the user stack. */
module ElfImage {
  import opened Bytes

  const LIMIT: nat := 0x4000_0000        // the identity-mapped first gigabyte

  // ---- segments ----

  datatype Segment = Segment(offset: u32, vaddr: u32, filesz: u32, memsz: u32)

  /** What the first pass accepts. */
  predicate Acceptable(s: Segment, fileLength: nat) {
    s.vaddr + s.memsz <= LIMIT && s.offset + s.filesz <= fileLength
  }

  /** Also what the ELF format demands. */
  predicate Loadable(s: Segment, fileLength: nat) {
    Acceptable(s, fileLength) && s.filesz <= s.memsz
  }

  predicate AllLoadable(segs: seq<Segment>, fileLength: nat) {
    forall i :: 0 <= i < |segs| ==> Loadable(segs[i], fileLength)
  }

  /** The bytes from the file, then zeros. */
  function Image(file: seq<byte>, s: Segment): (r: seq<byte>)
    requires Loadable(s, |file|)
    ensures |r| == s.memsz
  {
    file[s.offset..s.offset + s.filesz] + Zeros(s.memsz - s.filesz)
  }

  /** Memory after loading the segments in order. */
  function LoadAll(mem: seq<byte>, file: seq<byte>, segs: seq<Segment>): (r: seq<byte>)
    requires |mem| == LIMIT && AllLoadable(segs, |file|)
    ensures |r| == LIMIT
  {
    if segs == [] then mem else
    var n := |segs| - 1;
    Splice(LoadAll(mem, file, segs[..n]), segs[n].vaddr, Image(file, segs[n]))
  }

  predicate Apart(a: Segment, b: Segment) {
    a.vaddr + a.memsz <= b.vaddr || b.vaddr + b.memsz <= a.vaddr
  }

  ghost predicate AllApart(segs: seq<Segment>) {
    forall i, j :: 0 <= i < j < |segs| ==> Apart(segs[i], segs[j])
  }

  lemma ReadBack<T>(s: seq<T>, off: nat, b: seq<T>)
    requires off + |b| <= |s|
    ensures Splice(s, off, b)[off..off + |b|] == b
  {
  }

  lemma ReadBeside<T>(s: seq<T>, off: nat, b: seq<T>, lo: nat, hi: nat)
    requires off + |b| <= |s| && lo <= hi <= |s| && (hi <= off || off + |b| <= lo)
    ensures Splice(s, off, b)[lo..hi] == s[lo..hi]
  {
  }

  /** Non-overlapping segments are all in place after loading: file bytes and zero tails. */
  lemma {:induction false} Loaded(mem: seq<byte>, file: seq<byte>, segs: seq<Segment>, j: nat)
    requires |mem| == LIMIT && AllLoadable(segs, |file|) && AllApart(segs) && j < |segs|
    ensures LoadAll(mem, file, segs)[segs[j].vaddr..segs[j].vaddr + segs[j].memsz] == Image(file, segs[j])
  {
    var n := |segs| - 1;
    var before, s := LoadAll(mem, file, segs[..n]), segs[j];
    if j == n {
      ReadBack(before, s.vaddr, Image(file, s));
    } else {
      Loaded(mem, file, segs[..n], j);
      assert Apart(segs[j], segs[n]);
      ReadBeside(before, segs[n].vaddr, Image(file, segs[n]), s.vaddr, s.vaddr + s.memsz);
    }
  }

  /** Nothing outside the segments changes. */
  lemma {:induction false} LoadFrame(mem: seq<byte>, file: seq<byte>, segs: seq<Segment>, x: nat)
    requires |mem| == LIMIT && AllLoadable(segs, |file|) && x < LIMIT
    requires forall i :: 0 <= i < |segs| ==> !(segs[i].vaddr <= x < segs[i].vaddr + segs[i].memsz)
    ensures LoadAll(mem, file, segs)[x] == mem[x]
  {
    if segs != [] {
      LoadFrame(mem, file, segs[..|segs| - 1], x);
    }
  }

  /** The end of the highest segment. */
  function MaxEnd(segs: seq<Segment>): (m: nat)
    ensures forall i :: 0 <= i < |segs| ==> segs[i].vaddr + segs[i].memsz <= m
    ensures m == 0 || exists i :: 0 <= i < |segs| && m == segs[i].vaddr + segs[i].memsz
  {
    if segs == [] then 0 else
    var n := |segs| - 1;
    var m := MaxEnd(segs[..n]);
    if segs[n].vaddr + segs[n].memsz > m then segs[n].vaddr + segs[n].memsz
    else
      assert m == 0 || exists i :: 0 <= i < n && m == segs[..n][i].vaddr + segs[..n][i].memsz;
      m
  }

  // ---- arguments ----

  type Text = seq<byte>

  /** The C string at `p`: up to the first zero, or the end of memory. */
  ghost function CString(mem: seq<byte>, p: nat): Text
    decreases |mem| - p
  {
    if p >= |mem| || mem[p] == 0 then [] else [mem[p]] + CString(mem, p + 1)
  }

  lemma {:induction false} CStringIs(mem: seq<byte>, p: nat, s: Text)
    requires p + |s| < |mem| && mem[p..p + |s|] == s && mem[p + |s|] == 0 && 0 !in s
    ensures CString(mem, p) == s
    decreases |s|
  {
    if s != [] {
      assert mem[p] == s[0] && s[0] in s;
      CStringIs(mem, p + 1, s[1..]);
    }
  }

  /** The strings one after the other, each with its zero. */
  ghost function Block(args: seq<Text>): Text {
    if args == [] then [] else args[0] + [0] + Block(args[1..])
  }

  /** Where each string starts, for a block that ends at `top`. */
  ghost function Pointers(args: seq<Text>, top: nat): (ps: seq<u32>)
    requires |Block(args)| <= top < U32_LIMIT
    ensures |ps| == |args|
  {
    if args == [] then [] else [top - |Block(args)|] + Pointers(args[1..], top)
  }

  ghost function Words(ws: seq<u32>): (r: Text)
    ensures |r| == 4 * |ws|
  {
    if ws == [] then [] else Words(ws[..|ws| - 1]) + EncodeU32(ws[|ws| - 1])
  }

  lemma {:induction false} WordIn(mem: Text, at: nat, ws: seq<u32>, i: nat)
    requires at + 4 * |ws| <= |mem| && mem[at..at + 4 * |ws|] == Words(ws) && i < |ws|
    ensures DecodeU32(mem, at + 4 * i) == ws[i]
    decreases |ws|
  {
    var n := |ws| - 1;
    Parts(mem, at, Words(ws[..n]), EncodeU32(ws[n]));
    if i == n {
      U32RoundTrip(ws[n], mem, at + 4 * n);
    } else {
      WordIn(mem, at, ws[..n], i);
    }
  }

  /** Each pointer leads to its string. */
  lemma {:induction false} StringIn(mem: Text, top: nat, args: seq<Text>, i: nat)
    requires |Block(args)| <= top <= |mem| < U32_LIMIT && mem[top - |Block(args)|..top] == Block(args)
    requires i < |args| && 0 !in args[i]
    ensures top - |Block(args)| <= Pointers(args, top)[i] && Pointers(args, top)[i] + |args[i]| < top
    ensures CString(mem, Pointers(args, top)[i]) == args[i]
    decreases |args|
  {
    var at, head, rest := top - |Block(args)|, args[0] + [0], Block(args[1..]);
    Parts(mem, at, head, rest);
    if i == 0 {
      Parts(mem, at, args[0], [0]);
      CStringIs(mem, at, args[0]);
    } else {
      StringIn(mem, top, args[1..], i - 1);
    }
  }
}
