/** The Internet checksum (drivers/net.c; section 1 of RFC 1071). */
module Checksum {
  import opened Bytes

  const ONES: int := 0xFFFF

  /** No buffer up to this length makes the 32-bit accumulator wrap. */
  const MAX_LENGTH: nat := 131074

  /** The sum of the 16-bit words in memory order; an odd byte at the end is a word of its own. */
  function WordSum(data: seq<byte>): nat {
    if |data| == 0 then 0
    else if |data| == 1 then data[0]
    else data[0] + 0x100 * data[1] + WordSum(data[2..])
  }

  /** End-around carry: the representative of `s` modulo 65535 in 1..65535, and 0 only for 0. */
  function OnesComplementSum(s: nat): (r: u16)
    ensures s % ONES == r % ONES && (r == 0 <==> s == 0)
  {
    if s == 0 then 0 else (s - 1) % ONES + 1
  }

  /** The example of section 3 of RFC 1071: its eight bytes add up to DD F2. */
  lemma ExampleSum()
    ensures OnesComplementSum(WordSum([0x00, 0x01, 0xF2, 0x03, 0xF4, 0xF5, 0xF6, 0xF7])) == DecodeU16([0xDD, 0xF2], 0)
  {
    var a: seq<byte>, b: seq<byte> := [0x00, 0x01], [0xF2, 0x03];
    var c: seq<byte>, d: seq<byte> := [0xF4, 0xF5], [0xF6, 0xF7];
    var all: seq<byte> := [0x00, 0x01, 0xF2, 0x03, 0xF4, 0xF5, 0xF6, 0xF7];
    assert all == a + b + c + d;
    WordFirst(a, b + c + d);
    WordFirst(b, c + d);
    WordFirst(c, d);
    WordFirst(d, []);
    assert a + (b + c + d) == all && b + (c + d) == b + c + d && d + [] == d;
  }

  lemma WordFirst(w: seq<byte>, rest: seq<byte>)
    requires |w| == 2
    ensures WordSum(w + rest) == w[0] + 0x100 * w[1] + WordSum(rest)
  {
    assert (w + rest)[2..] == rest;
  }

  lemma {:induction false} WordSumBound(data: seq<byte>)
    ensures 2 * WordSum(data) <= ONES * (|data| + |data| % 2)
  {
    if |data| >= 2 { WordSumBound(data[2..]); }
  }

  lemma {:induction false} WordSumSplit(data: seq<byte>, k: nat)
    requires k <= |data| && k % 2 == 0
    ensures WordSum(data) == WordSum(data[..k]) + WordSum(data[k..])
  {
    if k == 0 {
      assert data[0..] == data;
    } else {
      WordSumSplit(data[2..], k - 2);
      assert data[..k][2..] == data[2..][..k - 2] && data[2..][k - 2..] == data[k..];
    }
  }

  /** One pass of the folding loop: it keeps the residue, never reaches 0, and shrinks the sum. */
  lemma FoldStep(s: nat)
    requires s >= 0x1_0000
    ensures var t := s % 0x1_0000 + s / 0x1_0000;
      0 < t < s && OnesComplementSum(t) == OnesComplementSum(s)
  {
    var h, l := s / 0x1_0000, s % 0x1_0000;
    var t := l + h;
    assert s == t + ONES * h;
    ResidueShift(t - 1, h);
  }

  lemma {:induction false} ResidueShift(x: nat, h: nat)
    ensures (x + ONES * h) % ONES == x % ONES
  {
    if h > 0 {
      ResidueShift(x, h - 1);
      assert x + ONES * h == x + ONES * (h - 1) + ONES;
    }
  }

  function WordAt(data: seq<byte>, p: nat): u16
    requires p + 2 <= |data|
  {
    DecodeU16(data, p)
  }

  /** The 32-bit accumulator after all words, which may have wrapped. */
  function Accumulated(sum: nat): u32 { sum % U32_LIMIT }

  /** `inet_checksum`, for every length that its 32-bit argument can hold. */
  method InetChecksum(data: seq<byte>) returns (r: u16)
    requires |data| < U32_LIMIT
    ensures r == ONES - OnesComplementSum(Accumulated(WordSum(data)))
    ensures r == ONES - OnesComplementSum(WordSum(data)) <==> WordSum(data) < U32_LIMIT
  {
    var sum := AddWords(data);
    sum := Fold(sum);
    r := ONES - sum;
    RightWithoutWrap(data);
  }

  method AddWords(data: seq<byte>) returns (sum: u32)
    requires |data| < U32_LIMIT
    ensures sum == Accumulated(WordSum(data))
  {
    var p, len := 0, |data|;
    sum := 0;
    while len > 1
      invariant 0 <= len && p + len == |data| && p % 2 == 0
      invariant sum == Accumulated(WordSum(data[..p]))
    {
      NextWord(data, p);
      sum := (sum + WordAt(data, p)) % U32_LIMIT;
      p, len := p + 2, len - 2;
    }
    if len > 0 {
      LastByte(data, p);
      sum := (sum + data[p]) % U32_LIMIT;
    } else {
      assert data[..p] == data;
    }
  }

  /** The folding loop. */
  method Fold(sum0: u32) returns (sum: u16)
    ensures sum == OnesComplementSum(sum0)
  {
    var t: u32 := sum0;
    while t / 0x1_0000 != 0
      invariant OnesComplementSum(t) == OnesComplementSum(sum0)
      decreases t
    {
      FoldStep(t);
      t := t % 0x1_0000 + t / 0x1_0000;
    }
    sum := t;
  }

  /** The sum takes the next word, or the odd byte. */
  lemma NextWord(data: seq<byte>, p: nat)
    requires p + 2 <= |data| && p % 2 == 0
    ensures Accumulated(WordSum(data[..p + 2])) == (Accumulated(WordSum(data[..p])) + WordAt(data, p)) % U32_LIMIT
  {
    var d := data[..p + 2];
    WordSumSplit(d, p);
    assert d[..p] == data[..p] && d[p..] == [data[p], data[p + 1]];
    assert d[p..][2..] == [];
    assert WordSum(d) == WordSum(data[..p]) + WordAt(data, p);
  }

  lemma LastByte(data: seq<byte>, p: nat)
    requires p + 1 == |data| && p % 2 == 0
    ensures Accumulated(WordSum(data)) == (Accumulated(WordSum(data[..p])) + data[p]) % U32_LIMIT
  {
    WordSumSplit(data, p);
    assert data[p..] == [data[p]];
    assert WordSum(data) == WordSum(data[..p]) + data[p];
  }

  // ---- when the accumulator wraps ----

  /** 2^32 is 1 modulo 65535: each wrap loses one. */
  lemma WrapLoses(sum: nat)
    ensures sum % ONES == (Accumulated(sum) + sum / U32_LIMIT) % ONES
  {
    var q := sum / U32_LIMIT;
    assert sum == (Accumulated(sum) + q) + ONES * (65537 * q);
    ResidueShift(Accumulated(sum) + q, 65537 * q);
  }

  /** The result is the checksum of RFC 1071 if and only if the words add up to less than 2^32. */
  lemma RightWithoutWrap(data: seq<byte>)
    requires |data| < U32_LIMIT
    ensures OnesComplementSum(Accumulated(WordSum(data))) == OnesComplementSum(WordSum(data))
       <==> WordSum(data) < U32_LIMIT
  {
    var sum := WordSum(data);
    var q := sum / U32_LIMIT;
    WordSumBound(data);
    assert q < ONES;
    if OnesComplementSum(Accumulated(sum)) == OnesComplementSum(sum) {
      WrapLoses(sum);
      assert Accumulated(sum) % ONES == (Accumulated(sum) + q) % ONES;
      SameResidueGap(Accumulated(sum), q);
    }
  }

  lemma SameResidueGap(x: nat, q: nat)
    requires q < ONES && x % ONES == (x + q) % ONES
    ensures q == 0
  {
    var a, b := x / ONES, (x + q) / ONES;
    assert q == ONES * (b - a);
  }

  /** The sums of all-ones buffers of even and of odd length. */
  lemma {:induction false} AllOnes(n: nat)
    ensures WordSum(seq(2 * n, i => 0xFF)) == ONES * n
    ensures WordSum(seq(2 * n + 1, i => 0xFF)) == ONES * n + 0xFF
  {
    var d: seq<byte>, e: seq<byte> := seq(2 * n, i => 0xFF), seq(2 * n + 1, i => 0xFF);
    if n > 0 {
      AllOnes(n - 1);
      assert d[2..] == seq(2 * (n - 1), i => 0xFF);
      assert e[2..] == seq(2 * (n - 1) + 1, i => 0xFF);
    }
  }

  /** No buffer of a given length wraps the accumulator if and only if the length is at most 131074. */
  lemma LengthBoundExact(n: nat)
    ensures (forall data: seq<byte> :: |data| == n ==> WordSum(data) < U32_LIMIT) <==> n <= MAX_LENGTH
  {
    if n <= MAX_LENGTH {
      forall data: seq<byte> | |data| == n ensures WordSum(data) < U32_LIMIT {
        WordSumBound(data);
      }
    } else {
      AllOnes(n / 2);
      var d: seq<byte> := seq(n, i => 0xFF);
      assert d == seq(2 * (n / 2) + n % 2, i => 0xFF);
      assert |d| == n && WordSum(d) >= U32_LIMIT;
    }
  }

  /** At 131076 bytes of 0xFF the code returns 1 and the checksum is 0. */
  lemma WrongChecksum()
    ensures var d: seq<byte> := seq(131076, i => 0xFF);
      ONES - OnesComplementSum(Accumulated(WordSum(d))) == 1 && ONES - OnesComplementSum(WordSum(d)) == 0
  {
    AllOnes(65538);
    var d: seq<byte> := seq(131076, i => 0xFF);
    assert d == seq(2 * 65538, i => 0xFF);
  }

  /** Storing a word in a zero field at an even offset adds it to the sum. */
  lemma StoreAdds(data: seq<byte>, k: nat, v: u16)
    requires k % 2 == 0 && k + 2 <= |data| && data[k] == 0 && data[k + 1] == 0
    ensures WordSum(Splice(data, k, EncodeU16(v))) == WordSum(data) + v
  {
    var data' := Splice(data, k, EncodeU16(v));
    WordSumSplit(data, k);
    WordSumSplit(data', k);
    assert data'[..k] == data[..k] && data'[k..][2..] == data[k..][2..];
    assert data'[k] == v % 0x100 && data'[k + 1] == v / 0x100;
  }

  /** A checksum of 0 means that the words add up to a positive multiple of 65535. */
  lemma ZeroChecksum(s: nat)
    ensures Verifies(s) <==> s > 0 && s % ONES == 0
  {
  }

  /** A buffer that carries its checksum in a zero field at an even offset verifies, also when the
      accumulator has wrapped. */
  method StoreAndVerify(data: seq<byte>, k: nat) returns (sealed: seq<byte>, check: u16)
    requires |data| < U32_LIMIT && k % 2 == 0 && k + 2 <= |data| && data[k] == 0 && data[k + 1] == 0
    ensures |sealed| == |data| && sealed[..k] == data[..k] && sealed[k + 2..] == data[k + 2..]
    ensures check == 0
  {
    var c := InetChecksum(data);
    sealed := Splice(data, k, EncodeU16(c));
    SelfVerifies(data, k);
    check := InetChecksum(sealed);
  }

  lemma SelfVerifies(data: seq<byte>, k: nat)
    requires k % 2 == 0 && k + 2 <= |data| && data[k] == 0 && data[k + 1] == 0
    ensures var c := ONES - OnesComplementSum(Accumulated(WordSum(data)));
      Verifies(Accumulated(WordSum(Splice(data, k, EncodeU16(c)))))
  {
    var s := WordSum(data);
    var acc := Accumulated(s);
    var c: u16 := ONES - OnesComplementSum(acc);
    var sealed := WordSum(Splice(data, k, EncodeU16(c)));
    assert sealed == s + c by { StoreAdds(data, k, c); }
    SealedSum(acc, c);
    assert Accumulated(sealed) == acc + c;
  }

  /** Adding its checksum takes a sum to the next multiple of 65535, which still fits 32 bits. */
  lemma SealedSum(acc: u32, c: u16)
    requires c == ONES - OnesComplementSum(acc)
    ensures acc + c < U32_LIMIT && Verifies(acc + c)
  {
    var r := OnesComplementSum(acc);
    assert acc + c == (acc - r) + ONES * 1 && (acc - r) % ONES == 0;
    assert (acc + c) % ONES == 0;
    ZeroChecksum(acc + c);
    assert U32_LIMIT == ONES * 65537 + 1;
  }

  /** 0 and 65535 are both zero in one's complement. */
  predicate ZeroSwap(v: u16, w: u16) { (v == 0 && w == ONES) || (v == ONES && w == 0) }

  /** What a receiver checks: the checksum over the whole buffer is 0. */
  predicate Verifies(s: nat) { OnesComplementSum(s) == ONES }

  /** Verification catches every change of a single word, except one between 0 and 65535. */
  lemma {:induction false} DetectsWordChange(data: seq<byte>, k: nat, v: u16, w: u16)
    requires k % 2 == 0 && k + 2 <= |data| && data[k] == 0 && data[k + 1] == 0 && v != w
    requires Verifies(WordSum(Splice(data, k, EncodeU16(v))))
    ensures Verifies(WordSum(Splice(data, k, EncodeU16(w)))) ==> ZeroSwap(v, w)
    ensures ZeroSwap(v, w) && WordSum(data) > 0 ==> Verifies(WordSum(Splice(data, k, EncodeU16(w))))
  {
    var s, sv, sw := WordSum(data), WordSum(Splice(data, k, EncodeU16(v))), WordSum(Splice(data, k, EncodeU16(w)));
    assert sv == s + v by { StoreAdds(data, k, v); }
    assert sw == s + w by { StoreAdds(data, k, w); }
    SumChange(s, v, w, sv, sw);
  }

  lemma SumChange(s: nat, v: u16, w: u16, sv: nat, sw: nat)
    requires sv == s + v && sw == s + w && Verifies(sv) && v != w
    ensures Verifies(sw) ==> ZeroSwap(v, w)
    ensures ZeroSwap(v, w) && s > 0 ==> Verifies(sw)
  {
    assert sv % ONES == 0 by { ZeroChecksum(sv); }
    assert Verifies(sw) <==> sw > 0 && sw % ONES == 0 by { ZeroChecksum(sw); }
    if sw % ONES == 0 {
      SameResidue(s, v, w);
    } else if ZeroSwap(v, w) {
      SwappedZero(s, v, w);
    }
  }

  lemma SameResidue(s: nat, v: u16, w: u16)
    requires (s + v) % ONES == 0 && (s + w) % ONES == 0 && v != w
    ensures ZeroSwap(v, w)
  {
    var a, b := (s + v) / ONES, (s + w) / ONES;
    assert v - w == ONES * (a - b);
    assert a != b && -1 <= a - b <= 1;
  }

  lemma SwappedZero(s: nat, v: u16, w: u16)
    requires (s + v) % ONES == 0 && v != w && ZeroSwap(v, w)
    ensures (s + w) % ONES == 0
  {
    if w == 0 {
      assert s == (s + v) - ONES;
    }
  }
}
