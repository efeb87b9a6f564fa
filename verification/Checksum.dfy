/** The Internet checksum over a fragmented buffer chain (docker/bench/cksumbench.c).

    `RefCksum` is the flat reference and `CksumC` the portable in_cksum: unrolled, with
    deferred carries, a half word carried between pieces, and pieces at odd addresses
    summed byte-swapped. `CksumC` is proved to return what `RefCksum` returns. */
module Checksum {
  import opened Common

  const MASK: int := 65535

  // ---- What a checksum is: one's complement sums -------------------------------------------

  /** Carries added back in until the sum fits in 16 bits: 0 only for 0. */
  ghost function Fold(x: nat): u16 {
    if x <= MASK then x else Fold(x - MASK)
  }

  /** Equal as one's complement sums. */
  ghost predicate Eqv(a: nat, b: nat) {
    Fold(a) == Fold(b)
  }

  /** A 16-bit word of two bytes, the first one high, as the 68000 reads it. */
  function Word(hi: byte, lo: byte): u16 {
    256 * (hi as int) + lo as int
  }

  /** Positional sum of the first n bytes of s: a byte counts 256-fold in a high position. */
  ghost function SumTo(s: seq<byte>, n: nat, high: bool): nat
    requires n <= |s|
  {
    if n == 0 then 0
    else SumTo(s, n - 1, high) + if high == (n % 2 == 1) then Word(s[n - 1], 0) else Word(0, s[n - 1])
  }

  ghost function ByteSum(s: seq<byte>, high: bool): nat {
    SumTo(s, |s|, high)
  }

  /** The RFC 1071 checksum: complement of the folded sum of big-endian words. */
  ghost function Checksum(s: seq<byte>): u16 {
    MASK - Fold(ByteSum(s, true))
  }

  /** Carries may be added back at any time (RFC 1071 section 2(C), deferred carries). */
  lemma {:induction false} FoldAdd(a: nat, b: nat)
    ensures Fold(a + b) == Fold(Fold(a) + b)
    decreases a
  {
    if a > MASK {
      FoldAdd(a - MASK, b);
      if a + b - MASK > MASK {
        assert Fold(a + b) == Fold(a - MASK + b);
      }
    }
  }

  lemma {:induction false} FoldMultiple(a: nat, k: nat)
    requires a > 0
    ensures Fold(a + MASK * k) == Fold(a)
    decreases k
  {
    if k > 0 {
      FoldMultiple(a, k - 1);
      assert a + MASK * k - MASK == a + MASK * (k - 1);
    }
  }

  lemma EqvAdd(a: nat, b: nat, c: nat, d: nat)
    requires Eqv(a, b) && Eqv(c, d)
    ensures Eqv(a + c, b + d)
  {
    FoldAdd(a, c);
    FoldAdd(b, c);
    FoldAdd(c, b);
    FoldAdd(d, b);
  }

  /** Multiplying by 2^16 changes nothing: shifting by a byte twice restores the sum. */
  lemma EqvTwoShifts(a: nat)
    ensures Eqv(a * 256 * 256, a)
  {
    if a > 0 {
      FoldMultiple(a, a);
      assert a * 256 * 256 == a + MASK * a;
    }
  }

  lemma {:induction false} EqvShift(a: nat, b: nat)
    requires Eqv(a, b)
    ensures Eqv(a * 256, b * 256)
    decreases a + b
  {
    if a > MASK {
      EqvShift(a - MASK, b);
      FoldMultiple((a - MASK) * 256, 256);
    } else if b > MASK {
      EqvShift(a, b - MASK);
      FoldMultiple((b - MASK) * 256, 256);
    }
  }

  /** RFC 1071 section 2(B): shifting the sum by a byte is summing at the other parity. */
  lemma {:induction false} SumToSwap(s: seq<byte>, n: nat, high: bool)
    requires n <= |s|
    ensures Eqv(SumTo(s, n, high) * 256, SumTo(s, n, !high))
  {
    if n > 0 {
      SumToSwap(s, n - 1, high);
      var b := s[n - 1];
      EqvTwoShifts(Word(0, b));
      var v, v' := if high == (n % 2 == 1) then Word(b, 0) else Word(0, b),
                   if high == (n % 2 == 1) then Word(0, b) else Word(b, 0);
      EqvAdd(SumTo(s, n - 1, high) * 256, SumTo(s, n - 1, !high), v * 256, v');
    }
  }

  lemma ByteSumSwap(s: seq<byte>, high: bool)
    ensures Eqv(ByteSum(s, high) * 256, ByteSum(s, !high))
  {
    SumToSwap(s, |s|, high);
  }

  lemma {:induction false} SumToPrefix(a: seq<byte>, b: seq<byte>, n: nat, high: bool)
    requires n <= |a|
    ensures SumTo(a + b, n, high) == SumTo(a, n, high)
  {
    if n > 0 {
      SumToPrefix(a, b, n - 1, high);
    }
  }

  lemma {:induction false} SumToConcat(a: seq<byte>, b: seq<byte>, n: nat, high: bool)
    requires n <= |b|
    ensures SumTo(a + b, |a| + n, high) == ByteSum(a, high) + SumTo(b, n, high == (|a| % 2 == 0))
  {
    if n == 0 {
      SumToPrefix(a, b, |a|, high);
    } else {
      SumToConcat(a, b, n - 1, high);
    }
  }

  lemma ByteSumConcat(a: seq<byte>, b: seq<byte>, high: bool)
    ensures ByteSum(a + b, high) == ByteSum(a, high) + ByteSum(b, high == (|a| % 2 == 0))
  {
    SumToConcat(a, b, |b|, high);
  }

  lemma ByteSumSlice(s: seq<byte>, a: nat, b: nat, c: nat, high: bool)
    requires a <= b <= c <= |s|
    ensures ByteSum(s[a..c], high) == ByteSum(s[a..b], high) + ByteSum(s[b..c], high == ((b - a) % 2 == 0))
  {
    assert s[a..c] == s[a..b] + s[b..c];
    ByteSumConcat(s[a..b], s[b..c], high);
  }

  lemma ByteSumWord(s: seq<byte>, w: nat)
    requires w + 2 <= |s|
    ensures ByteSum(s[w..w + 2], true) == Word(s[w], s[w + 1])
  {
    assert SumTo(s[w..w + 2], 1, true) == Word(s[w], 0);
  }

  /** Appending one byte. */
  lemma ByteSumSnoc(s: seq<byte>, b: byte)
    ensures ByteSum(s + [b], true) == ByteSum(s, true) + (if |s| % 2 == 0 then Word(b, 0) else Word(0, b))
  {
    ByteSumConcat(s, [b], true);
    assert SumTo([b], 0, |s| % 2 == 0) == 0;
  }

  // ---- What the checksum is, by RFC 1071 ----------------------------------------------------

  /** The plain sum of an input's 16-bit words, big end first, an odd last byte padded with a zero. */
  ghost function PairSum(s: seq<byte>): nat
    decreases |s|
  {
    if s == [] then 0
    else if |s| == 1 then s[0] * 256
    else s[0] * 256 + s[1] as int + PairSum(s[2..])
  }

  lemma {:induction false} ByteSumIsPairSum(s: seq<byte>)
    ensures ByteSum(s, true) == PairSum(s)
    decreases |s|
  {
    if |s| == 1 {
      assert s == [] + [s[0]];
      ByteSumSnoc([], s[0]);
    } else if |s| > 1 {
      assert s == s[0..2] + s[2..];
      ByteSumConcat(s[0..2], s[2..], true);
      ByteSumWord(s, 0);
      ByteSumIsPairSum(s[2..]);
    }
  }

  lemma {:induction false} FoldIsRemainder(x: nat)
    ensures Fold(x) % 65535 == x % 65535 && (Fold(x) == 0 <==> x == 0)
    decreases x
  {
    if x > MASK {
      FoldIsRemainder(x - MASK);
    }
  }

  /** For an input of any length: the checksum is what completes the sum of the words to a multiple of
      65535, and of the two numbers below 2^16 that may do so it is 0 unless every word is 0. */
  lemma ChecksumCompletes(s: seq<byte>)
    ensures (PairSum(s) + Checksum(s)) % 65535 == 0
    ensures Checksum(s) == 65535 <==> PairSum(s) == 0
  {
    ByteSumIsPairSum(s);
    FoldIsRemainder(PairSum(s));
  }

  // ---- The flat reference ------------------------------------------------------------------

  /** The longest input for which neither routine can wrap its 32-bit accumulator. */
  const LEN_MAX: nat := 130558

  function Take(s: seq<byte>, n: nat): seq<byte> {
    s[..Min(n, |s|)]
  }

  lemma AddHalves(sum: u32)
    ensures Eqv(sum % 0x1_0000 + sum / 0x1_0000, sum)
  {
    if sum != 0 {
      FoldMultiple(sum % 0x1_0000 + sum / 0x1_0000, sum / 0x1_0000);
    }
  }

  method RefCksum(p: seq<byte>) returns (r: u16)
    requires |p| <= LEN_MAX
    ensures r == Checksum(p)
  {
    var sum: u32 := 0;
    var i := 0;
    while i + 1 < |p|
      invariant 0 <= i <= |p| && i % 2 == 0
      invariant sum == ByteSum(p[..i], true) <= MASK * (i / 2)
    {
      ByteSumSlice(p, 0, i, i + 2, true);
      ByteSumWord(p, i);
      sum := sum + Word(p[i], p[i + 1]);
      i := i + 2;
    }
    if i < |p| {
      assert p == p[..i] + [p[i]];
      ByteSumSnoc(p[..i], p[i]);
      sum := sum + Word(p[i], 0);
    } else {
      assert p == p[..i];
    }
    while sum / 0x1_0000 != 0
      invariant Eqv(sum, ByteSum(p, true))
      decreases sum
    {
      AddHalves(sum);
      sum := sum % 0x1_0000 + sum / 0x1_0000;
    }
    r := MASK - sum;
  }

  /** What the checksum is for: with it appended, big end first, the sum checks to zero. */
  lemma ChecksumVerifies(s: seq<byte>)
    requires |s| % 2 == 0
    ensures Checksum(s + [Checksum(s) / 0x100, Checksum(s) % 0x100]) == 0
  {
    var c := Checksum(s);
    var word: seq<byte> := [c / 0x100, c % 0x100];
    ByteSumConcat(s, word, true);
    ByteSumWord(word, 0);
    assert word[0..2] == word;
    FoldAdd(ByteSum(s, true), c);
  }

  // ---- The portable in_cksum ----------------------------------------------------------------

  /** One mbuf: its bytes, and whether its first byte lies at an odd address. */
  datatype Piece = Piece(data: seq<byte>, odd: bool)

  function Bytes(chain: seq<Piece>): seq<byte> {
    if chain == [] then [] else chain[0].data + Bytes(chain[1..])
  }

  /** The REDUCE macro: add the two halves and fold the carry back. */
  function Reduce(sum: u32): (r: u16)
    ensures r == Fold(sum) && Eqv(r, sum)
  {
    AddHalves(sum);
    var x := sum % 0x1_0000 + sum / 0x1_0000;
    assert Fold(x) == Fold(sum);
    if x > 65535 then x - 65535 else x
  }

  /** What the half word in s_util is worth while mlen == -1 says that it is pending. */
  function Pending(mlen: int, c0: byte): u16 {
    if mlen == -1 then Word(c0, 0) else 0
  }

  /** Between pieces: the accumulator and the pending byte stand for the bytes done so far. */
  ghost predicate Between(sum: u32, mlen: int, c0: byte, done: seq<byte>) {
    && (mlen == -1 <==> |done| % 2 == 1)
    && Eqv(sum + Pending(mlen, c0), ByteSum(done, true))
    && 2 * sum <= MASK * (514 + |done| - |done| % 2)
  }

  /** Four unrolled additions from offset w. */
  method AddFour(data: seq<byte>, w: nat, sum0: u32) returns (sum: u32)
    requires w + 8 <= |data| && sum0 <= 0xFFFF_FFFF - 4 * MASK
    ensures sum == sum0 + ByteSum(data[w..w + 8], true) <= sum0 + 4 * MASK
  {
    ByteSumWord(data, w);
    ByteSumWord(data, w + 2);
    ByteSumWord(data, w + 4);
    ByteSumWord(data, w + 6);
    ByteSumSlice(data, w, w + 2, w + 4, true);
    ByteSumSlice(data, w, w + 4, w + 6, true);
    ByteSumSlice(data, w, w + 6, w + 8, true);
    sum := sum0 + Word(data[w], data[w + 1]);
    sum := sum + Word(data[w + 2], data[w + 3]);
    sum := sum + Word(data[w + 4], data[w + 5]);
    sum := sum + Word(data[w + 6], data[w + 7]);
  }

  /** The sixteen unrolled additions of the 32-byte loop. */
  method AddSixteen(data: seq<byte>, w: nat, sum0: u32) returns (sum: u32)
    requires w + 32 <= |data| && sum0 <= 0xFFFF_FFFF - 16 * MASK
    ensures sum == sum0 + ByteSum(data[w..w + 32], true) <= sum0 + 16 * MASK
  {
    ByteSumSlice(data, w, w + 8, w + 16, true);
    ByteSumSlice(data, w, w + 16, w + 24, true);
    ByteSumSlice(data, w, w + 24, w + 32, true);
    sum := AddFour(data, w, sum0);
    sum := AddFour(data, w + 8, sum);
    sum := AddFour(data, w + 16, sum);
    sum := AddFour(data, w + 24, sum);
  }

  /** The accumulator after the words of data[w0..w]. */
  ghost predicate Summed(data: seq<byte>, w0: nat, w: nat, sum0: u32, sum: u32)
    requires w0 <= w <= |data|
  {
    && (w - w0) % 2 == 0
    && sum == sum0 + ByteSum(data[w0..w], true)
    && 2 * sum <= 2 * sum0 + MASK * (w - w0)
  }

  lemma SummedExtend(data: seq<byte>, w0: nat, w: nat, k: nat, sum0: u32, sum: u32, sum': u32)
    requires w0 <= w && w + k <= |data| && k % 2 == 0
    requires Summed(data, w0, w, sum0, sum)
    requires sum' == sum + ByteSum(data[w..w + k], true) && 2 * sum' <= 2 * sum + MASK * k
    ensures Summed(data, w0, w + k, sum0, sum')
  {
    ByteSumSlice(data, w0, w, w + k, true);
  }

  /** The inner loops over one piece: 32 bytes at a time, then 8; n bytes remain from w0. */
  method SumBlocks(data: seq<byte>, w0: nat, n: nat, sum0: u32) returns (sum: u32, w: nat, mlen: int)
    requires w0 + n <= |data| && 2 * sum0 + MASK * n <= 2 * 0xFFFF_FFFF
    ensures w0 <= w && w + mlen == w0 + n && 0 <= mlen < 8
    ensures Summed(data, w0, w, sum0, sum)
  {
    sum, w, mlen := sum0, w0, n;
    mlen := mlen - 32;
    while mlen >= 0
      invariant w0 <= w && w + mlen + 32 == w0 + n && mlen >= -32
      invariant Summed(data, w0, w, sum0, sum)
    {
      ghost var was := sum;
      sum := AddSixteen(data, w, sum);
      SummedExtend(data, w0, w, 32, sum0, was, sum);
      w := w + 32;
      mlen := mlen - 32;
    }
    mlen := mlen + 32;
    mlen := mlen - 8;
    while mlen >= 0
      invariant w0 <= w && w + mlen + 8 == w0 + n && mlen >= -8
      invariant Summed(data, w0, w, sum0, sum)
    {
      ghost var was := sum;
      sum := AddFour(data, w, sum);
      SummedExtend(data, w0, w, 8, sum0, was, sum);
      w := w + 8;
      mlen := mlen - 8;
    }
    mlen := mlen + 8;
  }

  /** The last 16-bit additions; leaves mlen == -1 when one byte remains, else -2. */
  method SumTail(data: seq<byte>, w0: nat, n: nat, sum0: u32) returns (sum: u32, w: nat, mlen: int)
    requires w0 + n <= |data| && n < 8 && sum0 <= MASK
    ensures w == w0 + n / 2 * 2 && mlen == (if n % 2 == 1 then -1 else -2)
    ensures Summed(data, w0, w, sum0, sum)
  {
    sum, w, mlen := sum0, w0, n;
    mlen := mlen - 2;
    while mlen >= 0
      invariant w0 <= w && w + mlen + 2 == w0 + n && mlen >= -2
      invariant Summed(data, w0, w, sum0, sum)
    {
      ghost var was := sum;
      ByteSumWord(data, w);
      sum := sum + Word(data[w], data[w + 1]);
      SummedExtend(data, w0, w, 2, sum0, was, sum);
      w := w + 2;
      mlen := mlen - 2;
    }
  }

  /** The words of an unswapped run. */
  lemma PlainRun(done: seq<byte>, d: seq<byte>, s0: nat, sum: nat)
    requires |done| % 2 == 0 && Eqv(s0, ByteSum(done, true))
    requires Eqv(sum, s0 + ByteSum(d, true))
    ensures Eqv(sum, ByteSum(done + d, true))
  {
    ByteSumConcat(done, d, true);
    EqvAdd(s0, ByteSum(done, true), ByteSum(d, true), ByteSum(d, true));
  }

  /** One more byte, high or low by its position. */
  lemma OneMore(done: seq<byte>, b: byte, s: nat)
    requires Eqv(s, ByteSum(done, true))
    ensures Eqv(s + (if |done| % 2 == 0 then Word(b, 0) else Word(0, b)), ByteSum(done + [b], true))
  {
    ByteSumSnoc(done, b);
    var v := if |done| % 2 == 0 then Word(b, 0) else Word(0, b);
    EqvAdd(s, ByteSum(done, true), v, v);
  }

  /** A swapped run: after the second shift its words count at the other parity. */
  lemma SwappedRun(done: seq<byte>, c0: byte, d: seq<byte>, s0: nat, s1: nat)
    requires |done| % 2 == 0 && |d| % 2 == 0
    requires Eqv(s0, ByteSum(done, true) * 256)
    requires Eqv(s1, s0 + ByteSum(d, true))
    ensures Eqv(s1 * 256 + Word(c0, 0), ByteSum(done + [c0] + d, true))
  {
    var a, b := ByteSum(done, true), ByteSum(d, true);
    EqvShift(s1, s0 + b);
    EqvShift(s0, a * 256);
    EqvTwoShifts(a);
    ByteSumSwap(d, true);
    EqvAdd(s0 * 256, a, b * 256, ByteSum(d, false));
    ByteSumSnoc(done, c0);
    ByteSumConcat(done + [c0], d, true);
    EqvAdd(s1 * 256, a + ByteSum(d, false), Word(c0, 0), Word(c0, 0));
  }

  /** REDUCE, then the last words of the run that began at w0 with the accumulator at s0. */
  method ReduceAndSumTail(x: seq<byte>, ghost w0: nat, w1: nat, n: nat, ghost s0: u32, s1: u32)
    returns (sum: u32, w: nat, mlen: int)
    requires w0 <= w1 && w1 + n == |x| && n < 8 && Summed(x, w0, w1, s0, s1)
    ensures w0 <= w <= |x| <= w + 1 && (w - w0) % 2 == 0 && mlen == (if w < |x| then -1 else -2)
    ensures Eqv(sum, s0 + ByteSum(x[w0..w], true)) && sum <= 5 * MASK
  {
    sum := Reduce(s1);
    ghost var s2 := sum;
    sum, w, mlen := SumTail(x, w1, n, sum);
    ByteSumSlice(x, w0, w1, w, true);
    EqvAdd(s2, s1, ByteSum(x[w1..w], true), ByteSum(x[w1..w], true));
  }

  /** How an unswapped run x == d + last ends: an odd last byte becomes the pending one. */
  lemma PlainEnd(done: seq<byte>, x: seq<byte>, d: seq<byte>, last: seq<byte>, s0: nat, sum: nat)
    requires |done| % 2 == 0 && |d| % 2 == 0 && x == d + last && |last| <= 1
    requires Eqv(s0, ByteSum(done, true)) && Eqv(sum, s0 + ByteSum(d, true))
    ensures Eqv(sum + (if last == [] then 0 else Word(last[0], 0)), ByteSum(done + x, true))
  {
    PlainRun(done, d, s0, sum);
    if last == [] {
      assert x == d;
    } else {
      assert done + x == (done + d) + [last[0]];
      OneMore(done + d, last[0], sum);
    }
  }

  /** How a swapped run x == [c0] + d + last ends: its first byte waits, or is completed. */
  lemma SwappedEnd(done: seq<byte>, x: seq<byte>, c0: byte, d: seq<byte>, last: seq<byte>, s0: nat, sum: nat)
    requires |done| % 2 == 0 && |d| % 2 == 0 && x == [c0] + d + last && |last| <= 1
    requires Eqv(s0, ByteSum(done, true) * 256) && Eqv(sum, s0 + ByteSum(d, true))
    ensures Eqv(sum * 256 + Word(c0, if last == [] then 0 else last[0]), ByteSum(done + x, true))
  {
    var e := done + [c0] + d;
    SwappedRun(done, c0, d, s0, sum);
    if last == [] {
      assert done + x == e;
    } else {
      assert done + x == e + [last[0]];
      var s := sum * 256 + Word(c0, 0);
      OneMore(e, last[0], s);
      assert s + Word(0, last[0]) == sum * 256 + Word(c0, last[0]);
    }
  }

  /** A run whose first byte lies at an even address (byte_swapped == 0): an odd last byte is
      kept as the pending one. */
  method AddPlainRun(x: seq<byte>, sum0: u32, c: byte, ghost done: seq<byte>)
    returns (sum: u32, mlen: int, c0: byte)
    requires |done| % 2 == 0 && |done| + |x| <= LEN_MAX
    requires Eqv(sum0, ByteSum(done, true)) && 2 * sum0 <= MASK * (514 + |done|)
    ensures Between(sum, mlen, c0, done + x)
  {
    var w;
    c0 := c;
    sum, w, mlen := SumBlocks(x, 0, |x|, sum0);
    if mlen == 0 {
      PlainEnd(done, x, x[0..w], [], sum0, sum);
      return;
    }
    sum, w, mlen := ReduceAndSumTail(x, 0, w, mlen, sum0, sum);
    assert x == x[0..w] + x[w..];
    PlainEnd(done, x, x[0..w], x[w..], sum0, sum);
    if mlen == -1 {
      c0 := x[w];
    }
  }

  /** Shift back, then use up the first byte of a swapped run, or keep it as the pending one. */
  method FinishSwapped(x: seq<byte>, w: nat, mlen0: int, sum0: u32, c0: byte, ghost done: seq<byte>,
                       ghost d: seq<byte>, ghost s0: nat)
    returns (sum: u32, mlen: int)
    requires |done| % 2 == 0 && |d| % 2 == 0 && w <= |x| <= w + 1 && (mlen0 == -1 <==> w < |x|)
    requires x == [c0] + d + x[w..]
    requires Eqv(s0, ByteSum(done, true) * 256) && Eqv(sum0, s0 + ByteSum(d, true))
    ensures Between(sum, mlen, c0, done + x)
  {
    sum := Reduce(sum0);
    SwappedEnd(done, x, c0, d, x[w..], s0, sum);
    sum := sum * 256;
    if mlen0 == -1 {
      sum := sum + Word(c0, x[w]);
      mlen := 0;
    } else {
      mlen := -1;
    }
  }

  /** A run whose first byte lies at an odd address (byte_swapped == 1): shift, sum the words
      after the first byte, shift back, then use up or keep the first byte. */
  method AddSwappedRun(x: seq<byte>, sum0: u32, ghost done: seq<byte>)
    returns (sum: u32, mlen: int, c0: byte)
    requires x != [] && |done| % 2 == 0 && |done| + |x| <= LEN_MAX
    requires Eqv(sum0, ByteSum(done, true))
    ensures Between(sum, mlen, c0, done + x)
  {
    var w;
    sum := Reduce(sum0);
    EqvShift(sum, ByteSum(done, true));
    sum := sum * 256;
    c0 := x[0];
    ghost var s0 := sum;
    sum, w, mlen := SumBlocks(x, 1, |x| - 1, sum);
    sum, w, mlen := ReduceAndSumTail(x, 1, w, mlen, s0, sum);
    assert x == [c0] + x[1..w] + x[w..];
    sum, mlen := FinishSwapped(x, w, mlen, sum, c0, done, x[1..w], s0);
  }

  /** One turn of the outer loop, on a piece of at least one byte. */
  method AddPiece(p: Piece, sum0: u32, mlen0: int, c: byte, len0: nat, ghost done: seq<byte>)
    returns (sum: u32, mlen: int, c0: byte, len: nat)
    requires p.data != [] && len0 > 0 && |done| + len0 <= LEN_MAX
    requires Between(sum0, mlen0, c, done)
    ensures len == len0 - Min(len0, |p.data|)
    ensures Between(sum, mlen, c0, done + Take(p.data, len0))
  {
    var w, odd, run := 0, p.odd, |p.data|;
    sum, len := sum0, len0;
    ghost var before := done;
    if mlen0 == -1 {
      sum := sum + Word(c, p.data[0]);
      w, odd, run, len := 1, !odd, |p.data| - 1, len - 1;
      OneMore(done, p.data[0], sum0 + Word(c, 0));
      before := done + [p.data[0]];
    }
    if len < run {
      run := len;
    }
    len := len - run;
    var x := p.data[w..w + run];
    assert before + x == done + Take(p.data, len0);
    if odd && run > 0 {
      sum, mlen, c0 := AddSwappedRun(x, sum, before);
    } else {
      sum, mlen, c0 := AddPlainRun(x, sum, c, before);
    }
  }

  /** The bytes still to be summed are the first len of chain[m..]. */
  ghost predicate Remaining(chain: seq<Piece>, m: nat, len: nat, done: seq<byte>, all: seq<byte>) {
    m <= |chain| && done + Take(Bytes(chain[m..]), len) == all
  }

  lemma RemainingNext(chain: seq<Piece>, m: nat, len: nat, done: seq<byte>, all: seq<byte>)
    requires m < |chain| && Remaining(chain, m, len, done, all)
    ensures Remaining(chain, m + 1, len - Min(len, |chain[m].data|), done + Take(chain[m].data, len), all)
  {
    assert chain[m..][1..] == chain[m + 1..];
    TakeConcat(chain[m].data, Bytes(chain[m + 1..]), len);
    Assoc(done, Take(chain[m].data, len), Take(Bytes(chain[m + 1..]), len - Min(len, |chain[m].data|)));
  }

  lemma TakeConcat(a: seq<byte>, b: seq<byte>, n: nat)
    ensures Take(a + b, n) == Take(a, n) + Take(b, n - Min(n, |a|))
  {
  }

  /** After the last piece: a pending byte counts as if a zero followed it. */
  method FinishSum(sum0: u32, mlen: int, c0: byte, ghost done: seq<byte>) returns (r: u16)
    requires Between(sum0, mlen, c0, done) && |done| <= LEN_MAX
    ensures r == Checksum(done)
  {
    var sum := sum0;
    if mlen == -1 {
      sum := sum + Word(c0, 0);
    }
    sum := Reduce(sum);
    r := MASK - sum;
  }

  method CksumC(chain: seq<Piece>, len0: nat) returns (r: u16)
    requires len0 <= LEN_MAX
    ensures var all := Bytes(chain); r == Checksum(if len0 < |all| then all[..len0] else all)
  {
    var sum: u32, mlen: int, c0: byte, len: nat := 0, 0, 0, len0;
    var m := 0;
    ghost var done: seq<byte>, all := [], Take(Bytes(chain), len0);
    assert chain[0..] == chain && [] + all == all;
    while m < |chain| && len != 0
      invariant m <= |chain| && |done| + len <= len0
      invariant Between(sum, mlen, c0, done) && Remaining(chain, m, len, done, all)
    {
      var p := chain[m];
      RemainingNext(chain, m, len, done, all);
      ghost var next := done + Take(p.data, len);
      if |p.data| != 0 {
        sum, mlen, c0, len := AddPiece(p, sum, mlen, c0, len, done);
      } else {
        assert next == done;
      }
      done := next;
      m := m + 1;
    }
    assert done == all by {
      assert Take(Bytes(chain[m..]), len) == [];
    }
    assert Bytes(chain)[..|Bytes(chain)|] == Bytes(chain);
    r := FinishSum(sum, mlen, c0, done);
  }

  // ---- The harness's chain builder ----------------------------------------------------------

  lemma BytesSnoc(chain: seq<Piece>, p: Piece)
    ensures Bytes(chain + [p]) == Bytes(chain) + p.data
  {
    if chain == [] {
      assert Bytes([p]) == p.data;
    } else {
      assert (chain + [p])[1..] == chain[1..] + [p];
      BytesSnoc(chain[1..], p);
    }
  }

  /** Each piece starts where the bytes before it end, so its parity is the buffer's parity
      moved on by that many bytes. */
  ghost predicate Contiguous(chain: seq<Piece>, odd: bool) {
    forall k | 0 <= k < |chain| :: chain[k].odd == (odd != (|Bytes(chain[..k])| % 2 == 1))
  }

  lemma ContiguousSnoc(chain: seq<Piece>, p: Piece, odd: bool)
    requires Contiguous(chain, odd) && p.odd == (odd != (|Bytes(chain)| % 2 == 1))
    ensures Contiguous(chain + [p], odd)
  {
    assert forall k | 0 <= k < |chain| :: (chain + [p])[..k] == chain[..k];
    assert (chain + [p])[..|chain|] == chain;
  }

  const SEGMENTS: nat := 63

  /** Split buf at the cut points into gmb[..seg]; at most 63 pieces are built. */
  method BuildChain(gmb: array<Piece>, buf: seq<byte>, odd: bool, cuts: seq<int>) returns (seg: nat)
    requires gmb.Length == 64
    modifies gmb
    ensures seg == Min(|cuts| + 1, SEGMENTS)
    ensures Bytes(gmb[..seg]) <= buf && Contiguous(gmb[..seg], odd)
    ensures |cuts| < SEGMENTS ==> Bytes(gmb[..seg]) == buf
  {
    var pos := 0;
    seg := 0;
    var i := 0;
    while i <= |cuts|
      invariant 0 <= i <= |cuts| + 1 && seg == i < SEGMENTS && pos <= |buf|
      invariant Bytes(gmb[..seg]) == buf[..pos] && Contiguous(gmb[..seg], odd)
      invariant i == |cuts| + 1 ==> pos == |buf|
    {
      var end := if i < |cuts| then cuts[i] else |buf|;
      if end < pos {
        end := pos;
      }
      if end > |buf| {
        end := |buf|;
      }
      ghost var was := gmb[..seg];
      gmb[seg] := Piece(buf[pos..end], odd != (pos % 2 == 1));
      assert gmb[..seg + 1] == was + [gmb[seg]];
      BytesSnoc(was, gmb[seg]);
      ContiguousSnoc(was, gmb[seg], odd);
      assert buf[..end] == buf[..pos] + buf[pos..end];
      pos, seg := end, seg + 1;
      i := i + 1;
      if seg >= SEGMENTS {
        break;
      }
    }
    assert |cuts| < SEGMENTS ==> buf[..pos] == buf;
  }

  /** The comparison that the harness makes on each case: both routines agree. */
  method CheckCase(gmb: array<Piece>, buf: seq<byte>, odd: bool, cuts: seq<int>) returns (want: u16, got: u16)
    requires gmb.Length == 64 && |buf| <= LEN_MAX && |cuts| < SEGMENTS
    modifies gmb
    ensures want == got == Checksum(buf)
  {
    want := RefCksum(buf);
    var seg := BuildChain(gmb, buf, odd, cuts);
    assert Take(buf, |buf|) == buf;
    got := CksumC(gmb[..seg], |buf|);
  }
}
