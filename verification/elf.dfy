/** `elf_execve` (kernel/elf.c): replacing the image of a process, all or nothing. */
module Elf {
  import opened Bytes
  import opened ElfImage

  const HEADER_SIZE: nat := 52
  const PHDR_SIZE: nat := 32
  const PT_LOAD: u32 := 1
  const STACK_SIZE: nat := 0x1_0000
  const PAGE: nat := 0x1000
  const MAX_ARGS: nat := 32
  const NAME_MAX: nat := 32
  const SLASH: byte := 47

  // ---- the file ----

  /** `elf_validate`: magic, 32-bit, little-endian, executable, i386. */
  predicate ValidHeader(f: seq<byte>)
    requires |f| >= HEADER_SIZE
  {
    DecodeU32(f, 0) == 0x464C_457F && f[4] == 1 && f[5] == 1 && DecodeU16(f, 16) == 2 && DecodeU16(f, 18) == 3
  }

  function Entry(f: seq<byte>): u32 requires |f| >= HEADER_SIZE { DecodeU32(f, 24) }
  function HeaderCount(f: seq<byte>): u16 requires |f| >= HEADER_SIZE { DecodeU16(f, 44) }

  function HeaderAt(f: seq<byte>, i: nat): nat
    requires |f| >= HEADER_SIZE
  {
    DecodeU32(f, 28) + i * (DecodeU16(f, 42) as nat)
  }

  predicate HeaderInside(f: seq<byte>, i: nat): (r: bool)
    requires |f| >= HEADER_SIZE
    ensures r <==> HeaderAt(f, i) + 32 <= |f|
  {
    HeaderAt(f, i) + PHDR_SIZE <= |f|
  }

  predicate IsLoad(f: seq<byte>, i: nat)
    requires |f| >= HEADER_SIZE && HeaderInside(f, i)
  {
    DecodeU32(f, HeaderAt(f, i)) == PT_LOAD
  }

  function SegmentAt(f: seq<byte>, i: nat): Segment
    requires |f| >= HEADER_SIZE && HeaderInside(f, i)
  {
    var h := HeaderAt(f, i);
    Segment(DecodeU32(f, h + 4), DecodeU32(f, h + 8), DecodeU32(f, h + 16), DecodeU32(f, h + 20))
  }

  /** The header as the ELF specification lays it out: 16 bytes of identification, type and machine, five words
      (version, entry, program headers, section headers, flags), three halves (size of this header, size and
      number of program headers), and the rest. */
  ghost function HeaderBytes(ident: seq<byte>, kind: u16, machine: u16, words: seq<u32>, ehsize: u16, phentsize: u16,
                             phnum: u16, rest: seq<byte>): (r: seq<byte>)
  {
    ident + EncodeU16(kind) + EncodeU16(machine) + Words(words)
    + (EncodeU16(ehsize) + EncodeU16(phentsize) + EncodeU16(phnum) + rest)
  }

  /** What is read is what the fields say. */
  lemma HeaderFields(ident: seq<byte>, kind: u16, machine: u16, words: seq<u32>, ehsize: u16, phentsize: u16,
                     phnum: u16, rest: seq<byte>, f: seq<byte>, i: nat)
    requires |ident| == 16 && |words| == 5 && |rest| >= 6
    requires f == HeaderBytes(ident, kind, machine, words, ehsize, phentsize, phnum, rest)
    ensures |f| >= HEADER_SIZE && Entry(f) == words[1]
    ensures HeaderCount(f) == phnum && HeaderAt(f, i) == words[2] + i * phentsize
  {
    var tail := EncodeU16(ehsize) + EncodeU16(phentsize) + EncodeU16(phnum) + rest;
    var front := ident + EncodeU16(kind) + EncodeU16(machine);
    assert f == front + Words(words) + tail;
    assert f[20..20 + 4 * |words|] == Words(words) && f[40..] == tail;
    WordIn(f, 20, words, 1);
    WordIn(f, 20, words, 2);
    assert tail[2..4] == EncodeU16(phentsize) && tail[4..6] == EncodeU16(phnum);
    assert f[42..44] == tail[2..4] && f[44..46] == tail[4..6];
    U16RoundTrip(phentsize, f, 42);
    U16RoundTrip(phnum, f, 44);
  }

  /** An executable is 7F 'E' 'L' 'F', 32-bit, little-endian, of type 2 for machine 3. */
  lemma HeaderValid(ident: seq<byte>, kind: u16, machine: u16, rest: seq<byte>, f: seq<byte>)
    requires |ident| == 16 && f == ident + EncodeU16(kind) + EncodeU16(machine) + rest && |f| >= HEADER_SIZE
    ensures ValidHeader(f) <==>
      && ident[0] == 0x7F && ident[1] == 0x45 && ident[2] == 0x4C && ident[3] == 0x46
      && ident[4] == 1 && ident[5] == 1 && kind == 2 && machine == 3
  {
    assert f[16..18] == EncodeU16(kind) && f[18..20] == EncodeU16(machine);
    U16RoundTrip(kind, f, 16);
    U16RoundTrip(machine, f, 18);
  }

  /** A program header is eight words: type, offset, virtual and physical address, size in the file and in memory,
      flags, alignment. It is read as the segment it says, and is loaded if and only if its type is 1. */
  lemma SegmentFields(f: seq<byte>, i: nat, words: seq<u32>)
    requires |f| >= HEADER_SIZE && HeaderInside(f, i) && |words| == 8
    requires f[HeaderAt(f, i)..HeaderAt(f, i) + 4 * |words|] == Words(words)
    ensures SegmentAt(f, i) == Segment(words[1], words[2], words[4], words[5]) && (IsLoad(f, i) <==> words[0] == 1)
    ensures var s := SegmentAt(f, i);
      s.offset == words[1] && s.vaddr == words[2] && s.filesz == words[4] && s.memsz == words[5]
  {
    var h := HeaderAt(f, i);
    WordIn(f, h, words, 0);
    WordIn(f, h, words, 1);
    WordIn(f, h, words, 2);
    WordIn(f, h, words, 4);
    WordIn(f, h, words, 5);
  }

  predicate HeadersInside(f: seq<byte>)
    requires |f| >= HEADER_SIZE
  {
    forall i {:trigger HeaderInside(f, i)} :: 0 <= i < HeaderCount(f) ==> HeaderInside(f, i)
  }

  /** The loadable segments among the first `n` program headers. */
  function SegmentsUpTo(f: seq<byte>, n: nat): seq<Segment>
    requires |f| >= HEADER_SIZE && HeadersInside(f) && n <= HeaderCount(f)
  {
    if n == 0 then [] else
    var before := SegmentsUpTo(f, n - 1);
    assert HeaderInside(f, n - 1);
    if IsLoad(f, n - 1) then before + [SegmentAt(f, n - 1)] else before
  }

  function Segments(f: seq<byte>): seq<Segment>
    requires |f| >= HEADER_SIZE && HeadersInside(f)
  {
    SegmentsUpTo(f, HeaderCount(f))
  }

  /** A file that is an executable by its header is well formed: its program headers lie in the
      file, and no segment has more bytes in the file than in memory. */
  ghost predicate WellFormed(f: seq<byte>) {
    |f| >= HEADER_SIZE && ValidHeader(f) ==>
      HeadersInside(f) && forall i :: 0 <= i < |Segments(f)| ==> Segments(f)[i].filesz <= Segments(f)[i].memsz
  }

  ghost predicate AllAcceptable(segs: seq<Segment>, fileLength: nat) {
    forall i :: 0 <= i < |segs| ==> Acceptable(segs[i], fileLength)
  }

  /** The first pass: 0, or the error for the first segment that does not fit. */
  method CheckSegments(f: seq<byte>) returns (rc: int)
    requires |f| >= HEADER_SIZE && HeadersInside(f)
    ensures rc == 0 <==> AllAcceptable(Segments(f), |f|)
    ensures rc == SegmentCode(Segments(f), |f|)
  {
    var i: nat := 0;
    while i < HeaderCount(f)
      invariant 0 <= i <= HeaderCount(f) && AllAcceptable(SegmentsUpTo(f, i), |f|)
    {
      assert HeaderInside(f, i);
      if IsLoad(f, i) {
        var s := SegmentAt(f, i);
        if !Acceptable(s, |f|) {
          Rejected(f, i);
          FirstBad(f, i);
          return if s.vaddr + s.memsz > LIMIT then -3 else -2;
        }
      }
      i := i + 1;
    }
    rc := 0;
  }

  /** The error for the first segment that is not acceptable: its end lies above the limit, or its bytes are not
      in the file. */
  ghost function SegmentCode(segs: seq<Segment>, fileLength: nat): (rc: int)
    ensures rc == 0 <==> AllAcceptable(segs, fileLength)
    ensures rc != 0 ==>
      exists i :: 0 <= i < |segs| && rc == OneCode(segs[i], fileLength) && AllAcceptable(segs[..i], fileLength)
  {
    if segs == [] then 0
    else
      var n := |segs| - 1;
      var rc := SegmentCode(segs[..n], fileLength);
      if rc != 0 then
        var i :| 0 <= i < n && rc == OneCode(segs[..n][i], fileLength) && AllAcceptable(segs[..n][..i], fileLength);
        assert segs[..n][..i] == segs[..i] && segs[..n][i] == segs[i];
        rc
      else
        assert segs == segs[..n] + [segs[n]];
        OneCode(segs[n], fileLength)
  }

  function OneCode(s: Segment, fileLength: nat): (rc: int)
    ensures rc == 0 <==> Acceptable(s, fileLength)
    ensures rc == -3 <==> s.vaddr + s.memsz > 0x4000_0000
    ensures rc == -2 <==> s.vaddr + s.memsz <= 0x4000_0000 && s.offset + s.filesz > fileLength
    ensures rc == 0 || rc == -2 || rc == -3
  {
    if s.vaddr + s.memsz > LIMIT then -3 else if s.offset + s.filesz > fileLength then -2 else 0
  }

  lemma FirstBad(f: seq<byte>, i: nat)
    requires |f| >= HEADER_SIZE && HeadersInside(f) && i < HeaderCount(f) && HeaderInside(f, i) && IsLoad(f, i)
    requires AllAcceptable(SegmentsUpTo(f, i), |f|) && !Acceptable(SegmentAt(f, i), |f|)
    ensures SegmentCode(Segments(f), |f|) == OneCode(SegmentAt(f, i), |f|)
  {
    SegmentsGrow(f, i + 1, HeaderCount(f));
    var done := SegmentsUpTo(f, i);
    assert SegmentsUpTo(f, i + 1) == done + [SegmentAt(f, i)];
    CodeStays(done + [SegmentAt(f, i)], Segments(f), |f|);
  }

  lemma {:induction false} CodeStays(a: seq<Segment>, b: seq<Segment>, fileLength: nat)
    requires a <= b && a != [] && AllAcceptable(a[..|a| - 1], fileLength) && !Acceptable(a[|a| - 1], fileLength)
    ensures SegmentCode(b, fileLength) == OneCode(a[|a| - 1], fileLength)
    decreases |b|
  {
    if |b| > |a| { CodeStays(a, b[..|b| - 1], fileLength); } else { assert a == b; }
  }

  lemma {:induction false} SegmentsGrow(f: seq<byte>, i: nat, n: nat)
    requires |f| >= HEADER_SIZE && HeadersInside(f) && i <= n <= HeaderCount(f)
    ensures SegmentsUpTo(f, i) <= SegmentsUpTo(f, n)
    decreases n
  {
    if i < n {
      assert HeaderInside(f, n - 1);
      SegmentsGrow(f, i, n - 1);
    }
  }

  lemma Rejected(f: seq<byte>, i: nat)
    requires |f| >= HEADER_SIZE && HeadersInside(f) && i < HeaderCount(f) && HeaderInside(f, i) && IsLoad(f, i)
    requires !Acceptable(SegmentAt(f, i), |f|)
    ensures !AllAcceptable(Segments(f), |f|)
  {
    SegmentsGrow(f, i + 1, HeaderCount(f));
    var k := |SegmentsUpTo(f, i)|;
    assert SegmentsUpTo(f, i + 1)[k] == SegmentAt(f, i) == Segments(f)[k];
  }

  lemma LoadableAt(f: seq<byte>, i: nat, done: seq<Segment>, s: Segment)
    requires |f| >= HEADER_SIZE && HeadersInside(f) && i < HeaderCount(f) && HeaderInside(f, i) && IsLoad(f, i)
    requires done == SegmentsUpTo(f, i) && s == SegmentAt(f, i) && AllLoadable(Segments(f), |f|)
    ensures Loadable(s, |f|) && SegmentsUpTo(f, i + 1) == done + [s]
  {
    SegmentsGrow(f, i + 1, HeaderCount(f));
    assert Segments(f)[|done|] == s;
  }

  lemma LoadNext(mem: seq<byte>, f: seq<byte>, done: seq<Segment>, s: Segment)
    requires |mem| == LIMIT && AllLoadable(done, |f|) && Loadable(s, |f|)
    ensures AllLoadable(done + [s], |f|)
    ensures LoadAll(mem, f, done + [s]) == Splice(LoadAll(mem, f, done), s.vaddr, Image(f, s))
    ensures MaxEnd(done + [s]) == if s.vaddr + s.memsz > MaxEnd(done) then s.vaddr + s.memsz else MaxEnd(done)
  {
    assert (done + [s])[..|done|] == done;
  }

  // ---- the stack ----

  /** The stack of the nesting level at which the caller runs. */
  function StackTop(nest: int): (top: u32)
    ensures STACK_SIZE < top < LIMIT && top % 4 == 0
    ensures 1 <= nest <= 5 ==> top == 0x0F00_0000 - 0x20_0000 * (nest - 1)
  {
    if nest == 1 then 0x0F00_0000 else if nest == 2 then 0x0EE0_0000 else if nest == 3 then 0x0EC0_0000
    else if nest == 4 then 0x0EA0_0000 else 0x0E80_0000
  }

  /** Addresses of the strings, of the pointer array, and of the frame below it. */
  ghost function StringsAt(args: seq<Text>, top: nat): int { top - 16 - |Block(args)| }
  function ArrayBelow(strings: int, n: nat): int { strings / 4 * 4 - 4 * (n + 1) }
  ghost function FrameAt(args: seq<Text>, top: nat): int {
    if args == [] then top - 28 else ArrayBelow(StringsAt(args, top), |args|) - 12
  }

  /** There is memory for the block at all; the kernel does not check this. */
  ghost predicate Addressable(args: seq<Text>, top: nat) {
    16 <= top <= LIMIT && |args| <= MAX_ARGS && 0 <= FrameAt(args, top)
  }

  /** Return address, argument count, argument array; then the array with its null. */
  ghost function FrameWords(args: seq<Text>, top: nat): (ws: seq<u32>)
    requires Addressable(args, top)
  {
    if args == [] then [0, 0, 0]
    else [0, |args|, FrameAt(args, top) + 12] + Pointers(args, top - 16) + [0]
  }

  ghost predicate StackHolds(mem: seq<byte>, args: seq<Text>, top: nat)
    requires Addressable(args, top)
  {
    && |mem| == LIMIT
    && mem[StringsAt(args, top)..top - 16] == Block(args)
    && FrameAt(args, top) + 4 * |FrameWords(args, top)| <= LIMIT
    && mem[FrameAt(args, top)..FrameAt(args, top) + 4 * |FrameWords(args, top)|] == Words(FrameWords(args, top))
  }

  /** The rest of the stack, below and above the block, is zero. */
  ghost predicate StackCleared(mem: seq<byte>, top: nat, esp: int) {
    && |mem| == LIMIT && 0x1_0000 <= top <= LIMIT
    && (forall x :: top - 0x1_0000 <= x < top && (x < esp || top - 16 <= x) ==> mem[x] == 0)
  }

  /** What the new program finds from its stack pointer. */
  ghost function ArgCount(mem: seq<byte>, esp: nat): u32
    requires esp + 12 <= |mem|
  {
    DecodeU32(mem, esp + 4)
  }

  ghost function ArgPointer(mem: seq<byte>, esp: nat, i: nat): u32
    requires esp + 12 <= |mem| && DecodeU32(mem, esp + 8) + 4 * i + 4 <= |mem|
  {
    DecodeU32(mem, DecodeU32(mem, esp + 8) + 4 * i)
  }

  /** The words of the frame, read back. */
  lemma FrameRead(mem: seq<byte>, esp: nat, ws: seq<u32>, ps: seq<u32>, i: nat)
    requires esp + 12 < U32_LIMIT && ws == [0, |ps|, esp + 12] + ps + [0] && i <= |ps|
    requires esp + 4 * |ws| <= |mem| && mem[esp..esp + 4 * |ws|] == Words(ws)
    ensures ArgCount(mem, esp) == |ps| && DecodeU32(mem, esp + 8) == esp + 12
    ensures ArgPointer(mem, esp, i) == if i < |ps| then ps[i] else 0
  {
    WordIn(mem, esp, ws, 1);
    WordIn(mem, esp, ws, 2);
    WordIn(mem, esp, ws, 3 + i);
  }

  lemma FrameLayout(args: seq<Text>, top: nat, esp: nat)
    requires Addressable(args, top) && esp == FrameAt(args, top) && args != []
    ensures esp + 16 + 4 * |args| <= StringsAt(args, top)
    ensures FrameWords(args, top) == [0, |args|, esp + 12] + Pointers(args, top - 16) + [0]
  {
  }

  /** The stack decodes to the arguments: their number, and each string. Array and strings lie apart,
      in this order, below the top. */
  lemma {:induction false} Decodes(mem: seq<byte>, args: seq<Text>, top: nat, esp: nat, i: nat)
    requires Addressable(args, top) && StackHolds(mem, args, top) && esp == FrameAt(args, top)
    requires args != [] && i < |args| && 0 !in args[i]
    ensures esp + 16 + 4 * |args| <= StringsAt(args, top)
    ensures ArgCount(mem, esp) == |args| && DecodeU32(mem, esp + 8) == esp + 12
    ensures StringsAt(args, top) <= ArgPointer(mem, esp, i) && ArgPointer(mem, esp, i) + |args[i]| < top - 16
    ensures CString(mem, ArgPointer(mem, esp, i)) == args[i]
  {
    FrameHolds(mem, args, top, esp, i);
    StringHolds(mem, args, top, i, Pointers(args, top - 16)[i]);
  }

  lemma {:induction false} StringHolds(mem: seq<byte>, args: seq<Text>, top: nat, i: nat, p: u32)
    requires Addressable(args, top) && StackHolds(mem, args, top) && i < |args| && 0 !in args[i]
    requires |Block(args)| <= top - 16 && p == Pointers(args, top - 16)[i]
    ensures StringsAt(args, top) <= p && p + |args[i]| < top - 16 && CString(mem, p) == args[i]
  {
    StringIn(mem, top - 16, args, i);
  }

  /** The array ends with a null. */
  lemma {:induction false} NullAfterLast(mem: seq<byte>, args: seq<Text>, top: nat, esp: nat)
    requires Addressable(args, top) && StackHolds(mem, args, top) && esp == FrameAt(args, top) && args != []
    ensures esp + 16 + 4 * |args| <= |mem| && DecodeU32(mem, esp + 8) == esp + 12 && ArgPointer(mem, esp, |args|) == 0
  {
    FrameHolds(mem, args, top, esp, |args|);
  }

  lemma {:induction false} FrameHolds(mem: seq<byte>, args: seq<Text>, top: nat, esp: nat, i: nat)
    requires Addressable(args, top) && StackHolds(mem, args, top) && esp == FrameAt(args, top) && args != []
    requires i <= |args|
    ensures esp + 16 + 4 * |args| <= StringsAt(args, top) && |Block(args)| <= top - 16
    ensures ArgCount(mem, esp) == |args| && DecodeU32(mem, esp + 8) == esp + 12
    ensures ArgPointer(mem, esp, i) == if i < |args| then Pointers(args, top - 16)[i] else 0
  {
    FrameLayout(args, top, esp);
    FrameRead(mem, esp, FrameWords(args, top), Pointers(args, top - 16), i);
  }

  /** The block stays inside the stack if and only if it is small enough. */
  lemma InsideStack(args: seq<Text>, top: nat)
    requires top % 4 == 0 && args != []
    ensures FrameAt(args, top) >= top - 0x1_0000
       <==> (|Block(args)| + 3) / 4 * 4 + 4 * |args| + 32 <= 0x1_0000
  {
  }

  /** One argument of 64 KiB writes below the stack. */
  lemma ArgumentTooLong(top: nat)
    requires top % 4 == 0
    ensures FrameAt([seq(STACK_SIZE, i => 97)], top) < top - STACK_SIZE
  {
    var args: seq<Text> := [seq(STACK_SIZE, i => 97)];
    assert Block(args) == args[0] + [0] + Block(args[1..]);
    InsideStack(args, top);
  }

  lemma SplicePrepend<T>(s: seq<T>, off: nat, a: seq<T>, b: seq<T>)
    requires off + |a| + |b| <= |s|
    ensures Splice(Splice(s, off + |a|, b), off, a) == Splice(s, off, a + b)
  {
  }

  lemma {:induction false} WordsConcat(a: seq<u32>, b: seq<u32>)
    ensures Words(a + b) == Words(a) + Words(b)
    decreases |b|
  {
    if b == [] {
      assert a + b == a;
    } else {
      var n := |b| - 1;
      assert (a + b)[..|a + b| - 1] == a + b[..n];
      WordsConcat(a, b[..n]);
    }
  }

  lemma {:induction false} BlockSuffix(args: seq<Text>, i: nat)
    requires i < |args|
    ensures Block(args[i..]) == args[i] + [0] + Block(args[i + 1..]) && |Block(args[i..])| <= |Block(args)|
    decreases i
  {
    assert args[i..][1..] == args[i + 1..];
    if i == 0 {
      assert args[0..] == args;
    } else {
      BlockSuffix(args, i - 1);
    }
  }

  /** The name a process gets: what follows the last slash of the path, cut to fit. */
  function NameOf(path: Text): (r: Text)
    ensures |r| == Min(|AfterSlash(path)|, 31) && r <= AfterSlash(path)
  {
    var s := AfterSlash(path);
    s[..Min(|s|, NAME_MAX - 1)]
  }

  function AfterSlash(path: Text): Text {
    if path == [] || path[|path| - 1] == SLASH then [] else AfterSlash(path[..|path| - 1]) + [path[|path| - 1]]
  }

  lemma {:induction false} AfterSlashMeans(path: Text)
    ensures 47 !in AfterSlash(path)
    ensures AfterSlash(path) == path || exists dir: Text :: path == dir + [47] + AfterSlash(path)
  {
    if path != [] && path[|path| - 1] != SLASH {
      var p, c := path[..|path| - 1], path[|path| - 1];
      AfterSlashMeans(p);
      if AfterSlash(p) != p {
        var dir: Text :| p == dir + [SLASH] + AfterSlash(p);
        assert path == dir + [SLASH] + (AfterSlash(p) + [c]);
      }
    } else if path != [] {
      assert path == path[..|path| - 1] + [SLASH] + [];
    }
  }

  /** `slash` is the position after the last slash among the first `p` characters. */
  ghost predicate PartAt(path: Text, slash: nat, p: nat) {
    slash <= p <= |path| && path[slash..p] == AfterSlash(path[..p])
  }

  lemma PartNext(path: Text, slash: nat, p: nat)
    requires PartAt(path, slash, p) && p < |path|
    ensures PartAt(path, if path[p] == SLASH then p + 1 else slash, p + 1)
  {
    assert path[..p + 1][..p] == path[..p];
    if path[p] != SLASH {
      assert path[slash..p + 1] == path[slash..p] + [path[p]];
    }
  }

  predicate Terminated(mem: seq<byte>, p: nat): (r: bool)
    ensures p < |mem| && mem[p] == 0 ==> r
  {
    exists q :: p <= q < |mem| && mem[q] == 0
  }

  /** Strings in memory, by address. */
  ghost function Strings(mem: seq<byte>, argv: seq<u32>): (r: seq<Text>)
    ensures |r| == |argv|
  {
    seq(|argv|, i requires 0 <= i < |argv| => CString(mem, argv[i]))
  }

  lemma {:induction false} CStringNoZero(mem: seq<byte>, p: nat)
    ensures 0 !in CString(mem, p)
    decreases |mem| - p
  {
    if !(p >= |mem| || mem[p] == 0) { CStringNoZero(mem, p + 1); }
  }

  class Process {
    var mem: seq<byte>
    var heapStart: u32
    var heapBrk: u32
    var name: Text

    /** Copies one string out of the caller's memory. */
    method ReadString(p: u32) returns (s: Text)
      requires Terminated(mem, p)
      ensures s == CString(mem, p)
    {
      s := [];
      var q: nat := p;
      ghost var end :| p <= end < |mem| && mem[end] == 0;
      while mem[q] != 0
        invariant p <= q <= end && CString(mem, p) == s + CString(mem, q)
        decreases end - q
      {
        s := s + [mem[q]];
        q := q + 1;
      }
    }

    /** Copies the arguments before the memory they live in is overwritten. */
    method CopyArgs(argv: seq<u32>) returns (args: seq<Text>)
      requires forall i :: 0 <= i < |argv| ==> Terminated(mem, argv[i])
      ensures args == Strings(mem, argv)
    {
      args := [];
      var i := 0;
      while i < |argv|
        invariant 0 <= i <= |argv| && args == Strings(mem, argv)[..i]
      {
        var s := ReadString(argv[i]);
        args := args + [s];
        i := i + 1;
      }
    }

    /** The second pass. */
    method LoadSegments(f: seq<byte>) returns (maxEnd: nat)
      requires |mem| == LIMIT && |f| >= HEADER_SIZE && HeadersInside(f) && AllLoadable(Segments(f), |f|)
      modifies this`mem
      ensures mem == LoadAll(old(mem), f, Segments(f)) && maxEnd == MaxEnd(Segments(f))
    {
      maxEnd := 0;
      var i: nat := 0;
      ghost var done: seq<Segment> := [];
      while i < HeaderCount(f)
        invariant 0 <= i <= HeaderCount(f) && done == SegmentsUpTo(f, i) && AllLoadable(done, |f|)
        invariant mem == LoadAll(old(mem), f, done) && maxEnd == MaxEnd(done)
      {
        assert HeaderInside(f, i);
        if IsLoad(f, i) {
          var s := SegmentAt(f, i);
          LoadableAt(f, i, done, s);
          LoadNext(old(mem), f, done, s);
          if s.vaddr + s.memsz > maxEnd { maxEnd := s.vaddr + s.memsz; }
          Place(f, s);
          done := done + [s];
        }
        i := i + 1;
      }
    }

    /** File bytes, then zeros up to the size in memory. */
    method Place(f: seq<byte>, s: Segment)
      requires |mem| == LIMIT && Loadable(s, |f|)
      modifies this`mem
      ensures mem == Splice(old(mem), s.vaddr, Image(f, s))
    {
      ghost var m := mem;
      if s.filesz > 0 { mem := Splice(mem, s.vaddr, f[s.offset..s.offset + s.filesz]); }
      assert mem == Splice(m, s.vaddr, f[s.offset..s.offset + s.filesz]);
      SpliceAppend(m, s.vaddr, f[s.offset..s.offset + s.filesz], Zeros(s.memsz - s.filesz));
      if s.memsz > s.filesz { mem := Splice(mem, s.vaddr + s.filesz, Zeros(s.memsz - s.filesz)); }
    }

    method PutWords(at: nat, ws: seq<u32>)
      requires at + 4 * |ws| <= |mem|
      modifies this`mem
      ensures |mem| == |old(mem)| && mem == Splice(old(mem), at, Words(ws))
    {
      ghost var m := mem;
      var i := 0;
      assert Splice(m, at, Words(ws[..0])) == m;
      while i < |ws|
        invariant 0 <= i <= |ws| && |mem| == |m| && mem == Splice(m, at, Words(ws[..i]))
      {
        assert ws[..i + 1][..i] == ws[..i];
        SpliceAppend(m, at, Words(ws[..i]), EncodeU32(ws[i]));
        mem := Splice(mem, at + 4 * i, EncodeU32(ws[i]));
        i := i + 1;
      }
      assert ws[..i] == ws;
    }

    /** Copies the strings downwards from `end`. */
    method PutStrings(args: seq<Text>, end: nat) returns (strTop: nat, ptrs: seq<u32>)
      requires |mem| == LIMIT && |Block(args)| <= end <= LIMIT
      modifies this`mem
      ensures strTop == end - |Block(args)| && ptrs == Pointers(args, end)
      ensures |mem| == LIMIT && mem == Splice(old(mem), strTop, Block(args))
    {
      ghost var m := mem;
      strTop, ptrs := end, [];
      var i := |args|;
      assert args[i..] == [] && Splice(m, end, []) == m;
      while i > 0
        invariant 0 <= i <= |args| && |mem| == LIMIT && |Block(args[i..])| <= end
        invariant strTop == end - |Block(args[i..])| && ptrs == Pointers(args[i..], end)
        invariant mem == Splice(m, strTop, Block(args[i..]))
      {
        i := i - 1;
        BlockSuffix(args, i);
        assert args[i..][1..] == args[i + 1..];
        strTop := strTop - (|args[i]| + 1);
        SplicePrepend(m, strTop, args[i] + [0], Block(args[i + 1..]));
        mem := Splice(mem, strTop, args[i] + [0]);
        ptrs := [strTop] + ptrs;
      }
      assert args[0..] == args;
    }

    /** The stack of the new program: cleared, then the arguments. */
    method BuildStack(args: seq<Text>, top: nat) returns (esp: nat)
      requires |mem| == LIMIT && STACK_SIZE < top <= LIMIT && Addressable(args, top)
      modifies this`mem
      ensures esp == FrameAt(args, top) && |mem| == LIMIT && StackHolds(mem, args, top)
      ensures KeptOutside(old(mem), mem, StackLow(args, top), top) && StackCleared(mem, top, esp)
    {
      ghost var m := mem;
      esp := ClearStack(top);
      ghost var m1 := mem;
      if args != [] {
        esp := PutArgs(args, top);
        assert KeptOutside(m1, mem, esp, top);
        KeptTwice(m, m1, mem, StackLow(args, top), top, top - STACK_SIZE, esp);
      }
    }

    /** The stack of a program without arguments. */
    method ClearStack(top: nat) returns (esp: nat)
      requires |mem| == LIMIT && STACK_SIZE < top <= LIMIT
      modifies this`mem
      ensures esp == FrameAt([], top) && |mem| == LIMIT && StackHolds(mem, [], top)
      ensures KeptOutside(old(mem), mem, top - STACK_SIZE, top)
      ensures forall x :: top - STACK_SIZE <= x < top ==> mem[x] == 0
    {
      mem := Splice(mem, top - STACK_SIZE, Zeros(STACK_SIZE));
      esp := top - 28;
      ghost var m := mem;
      PutWords(esp, [0, 0, 0]);
      ReadBack(m, esp, Words([0, 0, 0]));
    }

    method PutArgs(args: seq<Text>, top: nat) returns (esp: nat)
      requires |mem| == LIMIT && 16 <= top <= LIMIT && Addressable(args, top) && args != []
      modifies this`mem
      ensures esp == FrameAt(args, top) && |mem| == LIMIT && StackHolds(mem, args, top)
      ensures KeptOutside(old(mem), mem, esp, top - 16)
    {
      ghost var m := mem;
      ghost var frame: nat := FrameAt(args, top);
      assert frame + 16 + 4 * |args| <= LIMIT && |Block(args)| <= top - 16 by { FrameLayout(args, top, frame); }
      var strTop, ptrs := PutStrings(args, top - 16);
      esp := ArrayBelow(strTop, |args|) - 12;
      assert esp == frame;
      ghost var m1, ws := mem, [0, |ptrs|, esp + 12] + ptrs + [0];
      PutFrame(esp, ptrs, ws);
      ArgsWritten(m, m1, mem, args, top, strTop, ptrs, esp, ws);
    }

    /** The pointer array with its null, and the three words below it. */
    method PutFrame(esp: nat, ptrs: seq<u32>, ghost ws: seq<u32>)
      requires esp + 16 + 4 * |ptrs| <= |mem| <= LIMIT && ws == [0, |ptrs|, esp + 12] + ptrs + [0]
      modifies this`mem
      ensures |mem| == |old(mem)| && mem == Splice(old(mem), esp, Words(ws))
    {
      var a, b := [0, |ptrs|, esp + 12], ptrs + [0];
      PutWords(esp + 12, b);
      PutWords(esp, a);
      WordsConcat(a, b);
      SplicePrepend(old(mem), esp, Words(a), Words(b));
      assert ws == a + b;
    }

    /** Names the process after the program. */
    method Rename(path: Text)
      modifies this`name
      ensures name == NameOf(path)
    {
      var slash := LastPart(path);
      var s := path[slash..];
      name := s[..Min(|s|, NAME_MAX - 1)];
    }

    /** The position after the last slash. */
    method LastPart(path: Text) returns (slash: nat)
      ensures slash <= |path| && path[slash..] == AfterSlash(path)
    {
      slash := 0;
      var p := 0;
      while p < |path|
        invariant 0 <= p <= |path| && PartAt(path, slash, p)
      {
        PartNext(path, slash, p);
        if path[p] == SLASH { slash := p + 1; }
        p := p + 1;
      }
      assert path[..p] == path && path[slash..p] == path[slash..];
    }

    /** `elf_execve`. The file found under the path, the permission and the success of the two heap
        allocations are inputs. */
    method Execve(file: Option<seq<byte>>, mayExec: bool, bufOk: bool, blobOk: bool, nest: int, argv: seq<u32>,
                  path: Text)
      returns (rc: int, eip: u32, esp: nat)
      requires |mem| == LIMIT && (file.Some? ==> WellFormed(file.value))
      requires forall i :: 0 <= i < |argv| ==> Terminated(mem, argv[i])
      requires Addressable(FirstArgs(mem, argv), StackTop(nest))
      modifies this
      ensures rc == 0 <==> CanRun(file, mayExec, bufOk, blobOk || argv == [])
      ensures rc != 0 ==> mem == old(mem) && heapStart == old(heapStart) && heapBrk == old(heapBrk) && name == old(name)
      ensures rc == -1 <==> file.None?
      ensures rc == -5 <==> file.Some? && !mayExec
      ensures rc == -4 <==> Readable(file, mayExec, bufOk) && ValidHeader(file.value) && Entry(file.value) == 0
      ensures rc == -2 <==>
        || (file.Some? && mayExec && |file.value| < 52)
        || (Readable(file, mayExec, bufOk)
            && (!ValidHeader(file.value)
                || (Entry(file.value) != 0 && SegmentCode(Segments(file.value), |file.value|) == -2)))
      ensures -5 <= rc <= 0
      ensures rc == 0 ==> eip == Entry(file.value) && name == NameOf(path)
      ensures rc == 0 ==> Replaced(old(mem), file.value, FirstArgs(old(mem), argv), StackTop(nest), esp, mem)
      ensures rc == 0 ==> HeapAbove(Segments(file.value), old(heapStart), old(heapBrk), heapStart, heapBrk)
    {
      rc, eip, esp := -1, 0, 0;
      if file.None? { return; }
      var f := file.value;
      if !mayExec { rc := -5; return; }
      if |f| < HEADER_SIZE { rc := -2; return; }
      if !bufOk { rc := -3; return; }
      if !ValidHeader(f) { rc := -2; return; }
      if Entry(f) == 0 { rc := -4; return; }
      rc := CheckSegments(f);
      if rc != 0 { return; }
      if argv != [] && !blobOk { rc := -3; return; }
      esp := Commit(f, nest, argv);
      Rename(path);
      eip := Entry(f);
    }

    /** The part of `elf_execve` that cannot fail. */
    method Commit(f: seq<byte>, nest: int, argv: seq<u32>) returns (esp: nat)
      requires |mem| == LIMIT && |f| >= HEADER_SIZE && HeadersInside(f) && AllLoadable(Segments(f), |f|)
      requires forall i :: 0 <= i < |argv| ==> Terminated(mem, argv[i])
      requires Addressable(FirstArgs(mem, argv), StackTop(nest))
      modifies this`mem, this`heapStart, this`heapBrk
      ensures Replaced(old(mem), f, FirstArgs(old(mem), argv), StackTop(nest), esp, mem)
      ensures HeapAbove(Segments(f), old(heapStart), old(heapBrk), heapStart, heapBrk)
    {
      ghost var first := FirstArgs(mem, argv);
      var args := CopyArgs(argv);
      var maxEnd := LoadSegments(f);
      ResetHeap(maxEnd, Segments(f), |f|);
      if |args| > MAX_ARGS { args := args[..MAX_ARGS]; }
      assert args == first;
      esp := BuildStack(args, StackTop(nest));
    }

    method ResetHeap(maxEnd: nat, ghost segs: seq<Segment>, ghost fileLength: nat)
      requires maxEnd == MaxEnd(segs) && AllLoadable(segs, fileLength)
      modifies this`heapStart, this`heapBrk
      ensures HeapAbove(segs, old(heapStart), old(heapBrk), heapStart, heapBrk)
    {
      MaxEndBound(segs, fileLength);
      if maxEnd > 0 {
        heapStart := (maxEnd + PAGE) / PAGE * PAGE;
        heapBrk := heapStart;
      }
    }
  }

  lemma MaxEndBound(segs: seq<Segment>, fileLength: nat)
    requires AllLoadable(segs, fileLength)
    ensures MaxEnd(segs) <= LIMIT
  {
  }

  /** The first 32 arguments, as they stand in the caller's memory. */
  ghost function FirstArgs(mem: seq<byte>, argv: seq<u32>): seq<Text> {
    Strings(mem, argv)[..Min(|argv|, MAX_ARGS)]
  }

  /** The header of the file has been read. */
  ghost predicate Readable(file: Option<seq<byte>>, mayExec: bool, bufOk: bool) {
    file.Some? && mayExec && bufOk && |file.value| >= HEADER_SIZE
  }

  /** When the call succeeds, in terms of the file. */
  ghost predicate CanRun(file: Option<seq<byte>>, mayExec: bool, bufOk: bool, blobOk: bool)
    requires file.Some? ==> WellFormed(file.value)
  {
    && file.Some? && mayExec && bufOk && blobOk
    && |file.value| >= HEADER_SIZE && ValidHeader(file.value) && Entry(file.value) != 0
    && AllAcceptable(Segments(file.value), |file.value|)
  }

  /** Memory is the loaded segments, overlaid with the new stack. */
  ghost predicate Replaced(m: seq<byte>, f: seq<byte>, args: seq<Text>, top: nat, esp: nat, mem: seq<byte>) {
    && |m| == LIMIT && |f| >= HEADER_SIZE && HeadersInside(f) && AllLoadable(Segments(f), |f|)
    && Addressable(args, top) && StackHolds(mem, args, top) && esp == FrameAt(args, top)
    && StackCleared(mem, top, esp)
    && KeptOutside(LoadAll(m, f, Segments(f)), mem, StackLow(args, top), top)
  }

  /** The heap starts on a page boundary above every segment, and empty; without segments it stays. */
  ghost predicate HeapAbove(segs: seq<Segment>, start0: u32, brk0: u32, start: u32, brk: u32) {
    if MaxEnd(segs) == 0 then start == start0 && brk == brk0
    else
      && brk == start && start % 0x1000 == 0
      && (forall i :: 0 <= i < |segs| ==> segs[i].vaddr + segs[i].memsz < start <= MaxEnd(segs) + 0x1000)
  }

  /** After a successful call every segment that overlaps neither another one nor the stack area
      holds its file bytes and zeros. */
  lemma ImageInPlace(m: seq<byte>, f: seq<byte>, args: seq<Text>, top: nat, esp: nat, mem: seq<byte>, j: nat)
    requires Replaced(m, f, args, top, esp, mem) && AllApart(Segments(f)) && j < |Segments(f)|
    requires var s := Segments(f)[j]; s.vaddr + s.memsz <= StackLow(args, top) || top <= s.vaddr
    ensures var s := Segments(f)[j];
      && mem[s.vaddr..s.vaddr + s.filesz] == f[s.offset..s.offset + s.filesz]
      && forall x :: s.vaddr + s.filesz <= x < s.vaddr + s.memsz ==> mem[x] == 0
  {
    var segs, s := Segments(f), Segments(f)[j];
    var loaded := LoadAll(m, f, segs);
    Loaded(m, f, segs, j);
    KeptSlice(loaded, mem, StackLow(args, top), top, s.vaddr, s.vaddr + s.memsz);
    ImageParts(mem, f, s);
  }

  lemma KeptSlice(m: seq<byte>, m': seq<byte>, lo: int, hi: int, x: nat, y: nat)
    requires KeptOutside(m, m', lo, hi) && x <= y <= |m| && (y <= lo || hi <= x)
    ensures m'[x..y] == m[x..y]
  {
  }

  lemma ImageParts(mem: seq<byte>, f: seq<byte>, s: Segment)
    requires Loadable(s, |f|) && s.vaddr + s.memsz <= |mem| && mem[s.vaddr..s.vaddr + s.memsz] == Image(f, s)
    ensures mem[s.vaddr..s.vaddr + s.filesz] == f[s.offset..s.offset + s.filesz]
    ensures forall x :: s.vaddr + s.filesz <= x < s.vaddr + s.memsz ==> mem[x] == 0
  {
    var placed := mem[s.vaddr..s.vaddr + s.memsz];
    assert mem[s.vaddr..s.vaddr + s.filesz] == placed[..s.filesz];
    forall x | s.vaddr + s.filesz <= x < s.vaddr + s.memsz ensures mem[x] == 0 {
      assert mem[x] == placed[x - s.vaddr];
    }
  }

  /** Every address outside the segments and the stack area keeps its byte. */
  lemma RestInPlace(m: seq<byte>, f: seq<byte>, args: seq<Text>, top: nat, esp: nat, mem: seq<byte>, x: nat)
    requires Replaced(m, f, args, top, esp, mem) && x < LIMIT && !(StackLow(args, top) <= x < top)
    requires forall i :: 0 <= i < |Segments(f)| ==>
      !(Segments(f)[i].vaddr <= x < Segments(f)[i].vaddr + Segments(f)[i].memsz)
    ensures mem[x] == m[x]
  {
    LoadFrame(m, f, Segments(f), x);
  }

  /** The new program finds the caller's first 32 arguments, although the memory they were in has
      been overwritten. */
  lemma ArgumentsArrive(m: seq<byte>, f: seq<byte>, argv: seq<u32>, top: nat, esp: nat, mem: seq<byte>, i: nat)
    requires Replaced(m, f, FirstArgs(m, argv), top, esp, mem) && i < Min(|argv|, 32)
    ensures esp + 12 <= |mem| && ArgCount(mem, esp) == Min(|argv|, 32) && DecodeU32(mem, esp + 8) == esp + 12
    ensures CString(mem, ArgPointer(mem, esp, i)) == CString(m, argv[i])
  {
    CStringNoZero(m, argv[i]);
    Decodes(mem, FirstArgs(m, argv), top, esp, i);
  }

  /** A program without arguments finds none, on an aligned stack. */
  lemma NoArguments(mem: seq<byte>, top: nat, esp: nat)
    requires Addressable([], top) && StackHolds(mem, [], top) && esp == FrameAt([], top) && top % 4 == 0
    ensures esp == top - 28 && esp % 4 == 0 && DecodeU32(mem, esp) == 0
    ensures ArgCount(mem, esp) == 0 && DecodeU32(mem, esp + 8) == 0
  {
    var ws := FrameWords([], top);
    assert |ws| == 3 && ws[0] == 0 && ws[1] == 0 && ws[2] == 0;
    WordIn(mem, esp, ws, 0);
    WordIn(mem, esp, ws, 1);
    WordIn(mem, esp, ws, 2);
  }

  lemma KeptTwice(a: seq<byte>, b: seq<byte>, c: seq<byte>, lo: int, hi: int, lo1: int, lo2: int)
    requires KeptOutside(a, b, lo1, hi) && KeptOutside(b, c, lo2, hi) && lo <= lo1 && lo <= lo2
    ensures KeptOutside(a, c, lo, hi)
  {
  }

  lemma ArgsWritten(m: seq<byte>, m1: seq<byte>, mem: seq<byte>, args: seq<Text>, top: nat, strTop: nat,
                    ptrs: seq<u32>, esp: nat, ws: seq<u32>)
    requires |m| == LIMIT && Addressable(args, top) && args != [] && |Block(args)| <= top - 16
    requires strTop == top - 16 - |Block(args)| && m1 == Splice(m, strTop, Block(args))
    requires esp == FrameAt(args, top) && ptrs == Pointers(args, top - 16) && ws == [0, |ptrs|, esp + 12] + ptrs + [0]
    requires esp + 4 * |ws| <= LIMIT && mem == Splice(m1, esp, Words(ws))
    ensures StackHolds(mem, args, top) && KeptOutside(m, mem, esp, top - 16)
  {
    FrameLayout(args, top, esp);
    assert ws == FrameWords(args, top);
    StackWritten(m, m1, mem, args, top, esp, ws);
  }

  lemma StackWritten(m: seq<byte>, m1: seq<byte>, mem: seq<byte>, args: seq<Text>, top: nat, esp: nat, ws: seq<u32>)
    requires |m| == LIMIT && Addressable(args, top) && args != [] && esp == FrameAt(args, top)
    requires ws == FrameWords(args, top)
    requires 0 <= StringsAt(args, top) && m1 == Splice(m, StringsAt(args, top), Block(args))
    requires esp + 4 * |ws| <= StringsAt(args, top) && mem == Splice(m1, esp, Words(ws))
    ensures StackHolds(mem, args, top)
    ensures KeptOutside(m, mem, esp, top - 16)
  {
    var at := StringsAt(args, top);
    ReadBack(m, at, Block(args));
    ReadBack(m1, esp, Words(ws));
    ReadBeside(m1, esp, Words(ws), at, top - 16);
  }

  /** Only addresses in `[lo, hi)` differ. */
  ghost predicate KeptOutside(m: seq<byte>, m': seq<byte>, lo: int, hi: int) {
    |m'| == |m| && forall x :: 0 <= x < |m| && !(lo <= x < hi) ==> m'[x] == m[x]
  }

  /** The lowest address that building the stack writes. */
  ghost function StackLow(args: seq<Text>, top: nat): int {
    Min(top - 0x1_0000, FrameAt(args, top))
  }
}
