/** Machine bytes and words, and the byte-string operations the kernel performs with
    `memcpy`, `memset` and little-endian loads and stores. */
module Bytes {

  type byte = x: int | 0 <= x < 0x100
  type u16 = x: int | 0 <= x < 0x1_0000
  type u32 = x: int | 0 <= x < 0x1_0000_0000

  const U32_LIMIT: int := 0x1_0000_0000

  datatype Option<+T> = None | Some(value: T)

  function Min(a: int, b: int): int {
    if a <= b then a else b
  }

  /** `memset(p, 0, n)` on a fresh buffer. */
  function Zeros(n: nat): (r: seq<byte>)
    ensures |r| == n
  {
    seq(n, i => 0)
  }

  /** `memcpy(s + off, b, |b|)`. */
  function Splice<T>(s: seq<T>, off: nat, b: seq<T>): (r: seq<T>)
    requires off + |b| <= |s|
    ensures |r| == |s|
  {
    s[..off] + b + s[off + |b|..]
  }

  /** Two adjacent copies are one copy: the step of every chunked copy loop. */
  lemma SpliceAppend<T>(s: seq<T>, off: nat, a: seq<T>, b: seq<T>)
    requires off + |a| + |b| <= |s|
    ensures Splice(Splice(s, off, a), off + |a|, b) == Splice(s, off, a + b)
  {
  }

  /** The same, for the next `n` bytes of a source buffer that is consumed from the left. */
  lemma SplicePrefix<T>(s: seq<T>, off: nat, src: seq<T>, done: nat, hi: nat, n: nat)
    requires done + n <= hi <= |src| && off + hi <= |s|
    ensures Splice(Splice(s, off, src[..done]), off + done, src[done..hi][..n]) == Splice(s, off, src[..done + n])
  {
    SpliceAppend(s, off, src[..done], src[done..hi][..n]);
    assert src[..done] + src[done..hi][..n] == src[..done + n];
  }

  lemma SpliceNext<T>(s: seq<T>, off: nat, src: seq<T>, lo: nat, hi: nat)
    requires lo <= hi <= |src| && off + hi <= |s|
    ensures Splice(Splice(s, off, src[..lo]), off + lo, src[lo..hi]) == Splice(s, off, src[..hi])
  {
    SpliceAppend(s, off, src[..lo], src[lo..hi]);
    assert src[..lo] + src[lo..hi] == src[..hi];
  }

  /** A copy inside a window is a copy of the rewritten window. */
  lemma SpliceWindow<T>(s: seq<T>, lo: nat, hi: nat, off: nat, b: seq<T>)
    requires lo + off + |b| <= hi <= |s|
    ensures Splice(s, lo + off, b) == Splice(s, lo, Splice(s[lo..hi], off, b))
    ensures Splice(s, lo + off, b)[lo..hi] == Splice(s[lo..hi], off, b)
  {
  }

  /** Reading back the parts of a concatenation found inside a buffer. */
  lemma Parts<T>(s: seq<T>, off: nat, a: seq<T>, b: seq<T>)
    requires off + |a| + |b| <= |s| && s[off..off + |a| + |b|] == a + b
    ensures s[off..off + |a|] == a
    ensures s[off + |a|..off + |a| + |b|] == b
  {
    var t := s[off..off + |a| + |b|];
    assert s[off..off + |a|] == t[..|a|];
    assert s[off + |a|..off + |a| + |b|] == t[|a|..];
  }

  // ---- little-endian words ----

  function EncodeU16(v: u16): (r: seq<byte>)
    ensures |r| == 2
  {
    [v % 0x100, v / 0x100]
  }

  function DecodeU16(s: seq<byte>, off: nat): (v: u16)
    requires off + 2 <= |s|
  {
    s[off] + 0x100 * (s[off + 1] as int)
  }

  function EncodeU32(v: u32): (r: seq<byte>)
    ensures |r| == 4
  {
    [v % 0x100, v / 0x100 % 0x100, v / 0x1_0000 % 0x100, v / 0x100_0000]
  }

  /** `rd_u32`. */
  function DecodeU32(s: seq<byte>, off: nat): (v: u32)
    requires off + 4 <= |s|
  {
    s[off] + 0x100 * (s[off + 1] as int) + 0x1_0000 * (s[off + 2] as int) + 0x100_0000 * (s[off + 3] as int)
  }

  /** The low byte comes first, as the i386 stores words. */
  lemma LittleEndian(a: byte, b: byte, c: byte, d: byte)
    ensures DecodeU16([a, b], 0) == 0x100 * b + a
    ensures DecodeU32([a, b, c, d], 0) == 0x100_0000 * d + 0x1_0000 * c + 0x100 * b + a
  {
  }

  lemma U16RoundTrip(v: u16, s: seq<byte>, off: nat)
    requires off + 2 <= |s| && s[off..off + 2] == EncodeU16(v)
    ensures DecodeU16(s, off) == v
  {
    var e := s[off..off + 2];
    assert s[off] == e[0] && s[off + 1] == e[1];
  }

  lemma U32Digits(v: u32)
    ensures v % 0x100 + 0x100 * (v / 0x100 % 0x100) + 0x1_0000 * (v / 0x1_0000 % 0x100)
            + 0x100_0000 * (v / 0x100_0000) == v
  {
  }

  lemma U32RoundTrip(v: u32, s: seq<byte>, off: nat)
    requires off + 4 <= |s| && s[off..off + 4] == EncodeU32(v)
    ensures DecodeU32(s, off) == v
  {
    var e := s[off..off + 4];
    assert s[off] == e[0] && s[off + 1] == e[1] && s[off + 2] == e[2] && s[off + 3] == e[3];
    U32Digits(v);
  }

  lemma SliceOfSlice<T>(s: seq<T>, lo: nat, hi: nat, a: nat, n: nat)
    requires lo <= hi <= |s| && lo + a + n <= hi
    ensures s[lo..hi][a..a + n] == s[lo + a..lo + a + n]
  {
    var x, y := s[lo..hi][a..a + n], s[lo + a..lo + a + n];
    assert |x| == |y|;
    forall i | 0 <= i < n ensures x[i] == y[i] {
      assert x[i] == s[lo..hi][a + i] == s[lo + (a + i)];
      assert y[i] == s[lo + a + i];
    }
  }

  // ---- products, kept linear ----

  /** Where item number `k` of size `n` starts: `n * k`, by repeated addition. */
  function Base(n: nat, k: nat): nat {
    if k == 0 then 0 else Base(n, k - 1) + n
  }

  lemma {:induction false} BaseIsProduct(n: nat, k: nat)
    ensures Base(n, k) == n * k
  {
    if k > 0 {
      BaseIsProduct(n, k - 1);
      assert n * k == n * (k - 1) + n;
    }
  }

  /** Items do not overlap. */
  lemma {:induction false} BaseApart(n: nat, i: nat, j: nat)
    requires i < j
    ensures Base(n, i) + n <= Base(n, j)
    decreases j
  {
    if i < j - 1 { BaseApart(n, i, j - 1); }
  }
}
