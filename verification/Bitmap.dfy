/** Words of the descriptor usage bitmap (fd_mask), and the two bit searches that the library
    does without loops: the lowest clear bit (sdFind in src/api/amiga_syscalls.c) and the highest
    set bit (getLastSockFd in src/api/amiga_generic2.c). */
module Bitmap {

  const FULL: bv32 := 0xFFFF_FFFF

  /** The word with only bit i set. */
  function Bit(i: nat): bv32
    requires i < 32
  {
    if i == 0 then 1 else Bit(i - 1) + Bit(i - 1)
  }

  predicate Has(w: bv32, i: nat)
    requires i < 32
  {
    w & Bit(i) != 0
  }

  /** The add, xor and shift that leave one bit: the lowest that is clear in w. */
  function LowestClear(w: bv32): bv32 {
    ((w ^ (w + 1)) >> 1) + 1
  }

  /** The position of the only set bit of m, by five masks. */
  function Position(m: bv32): nat {
    (if m & 0xFFFF_0000 != 0 then 16 else 0) + (if m & 0xFF00_FF00 != 0 then 8 else 0)
    + (if m & 0xF0F0_F0F0 != 0 then 4 else 0) + (if m & 0xCCCC_CCCC != 0 then 2 else 0)
    + (if m & 0xAAAA_AAAA != 0 then 1 else 0)
  }

  /** One step of the highest-bit cascade: keep the masked half if it is not empty. */
  function Keep(w: bv32, half: bv32): bv32 {
    if w & half != 0 then w & half else w
  }

  function Gain(w: bv32, half: bv32, bits: nat): nat {
    if w & half != 0 then bits else 0
  }

  /** The position of the highest set bit of w, by five masks of which each narrows the word. */
  function Highest(w: bv32): nat {
    var w16 := Keep(w, 0xFFFF_0000);
    var w8 := Keep(w16, 0xFF00_FF00);
    var w4 := Keep(w8, 0xF0F0_F0F0);
    var w2 := Keep(w4, 0xCCCC_CCCC);
    Gain(w, 0xFFFF_0000, 16) + Gain(w16, 0xFF00_FF00, 8) + Gain(w8, 0xF0F0_F0F0, 4)
    + Gain(w4, 0xCCCC_CCCC, 2) + Gain(w2, 0xAAAA_AAAA, 1)
  }

  // ---- Facts about single bits --------------------------------------------------------------

  ghost predicate Single(m: bv32) {
    m != 0 && m & (m - 1) == 0
  }

  lemma BitTable()
    ensures Bit(0) == 1 && Bit(1) == 2 && Bit(2) == 4 && Bit(3) == 8
    ensures Bit(4) == 0x10 && Bit(5) == 0x20 && Bit(6) == 0x40 && Bit(7) == 0x80
    ensures Bit(8) == 0x100 && Bit(9) == 0x200 && Bit(10) == 0x400 && Bit(11) == 0x800
    ensures Bit(12) == 0x1000 && Bit(13) == 0x2000 && Bit(14) == 0x4000 && Bit(15) == 0x8000
    ensures Bit(16) == 0x10000 && Bit(17) == 0x20000 && Bit(18) == 0x40000 && Bit(19) == 0x80000
    ensures Bit(20) == 0x100000 && Bit(21) == 0x200000 && Bit(22) == 0x400000 && Bit(23) == 0x800000
    ensures Bit(24) == 0x1000000 && Bit(25) == 0x2000000 && Bit(26) == 0x4000000 && Bit(27) == 0x8000000
    ensures Bit(28) == 0x10000000 && Bit(29) == 0x20000000 && Bit(30) == 0x40000000 && Bit(31) == 0x80000000
  {
    assert Bit(0) == 1 && Bit(1) == 2 && Bit(2) == 4 && Bit(3) == 8;
    assert Bit(4) == 0x10 && Bit(5) == 0x20 && Bit(6) == 0x40 && Bit(7) == 0x80;
    assert Bit(8) == 0x100 && Bit(9) == 0x200 && Bit(10) == 0x400 && Bit(11) == 0x800;
    assert Bit(12) == 0x1000 && Bit(13) == 0x2000 && Bit(14) == 0x4000 && Bit(15) == 0x8000;
    assert Bit(16) == 0x10000 && Bit(17) == 0x20000 && Bit(18) == 0x40000 && Bit(19) == 0x80000;
    assert Bit(20) == 0x100000 && Bit(21) == 0x200000 && Bit(22) == 0x400000 && Bit(23) == 0x800000;
    assert Bit(24) == 0x1000000 && Bit(25) == 0x2000000 && Bit(26) == 0x4000000 && Bit(27) == 0x8000000;
    assert Bit(28) == 0x10000000 && Bit(29) == 0x20000000 && Bit(30) == 0x40000000 && Bit(31) == 0x80000000;
  }

  lemma BitStep(i: nat)
    requires i < 32
    ensures Single(Bit(i)) && (i < 31 ==> Bit(i) < Bit(i + 1))
  {
    BitTable();
    match i {
      case 0 => case 1 => case 2 => case 3 => case 4 => case 5 => case 6 => case 7 =>
      case 8 => case 9 => case 10 => case 11 => case 12 => case 13 => case 14 => case 15 =>
      case 16 => case 17 => case 18 => case 19 => case 20 => case 21 => case 22 => case 23 =>
      case 24 => case 25 => case 26 => case 27 => case 28 => case 29 => case 30 => case 31 =>
    }
  }

  lemma {:induction false} BitOrder(j: nat, i: nat)
    requires j < i < 32
    ensures Bit(j) < Bit(i)
    decreases i
  {
    BitStep(i - 1);
    if j < i - 1 {
      BitOrder(j, i - 1);
    }
  }

  /** The masks name each single bit's position. */
  lemma OneBit(m: bv32)
    requires Single(m)
    ensures Position(m) < 32 && m == Bit(Position(m))
  {
    BitTable();
  }

  lemma LowestClearFacts(w: bv32)
    requires w != FULL
    ensures var m := LowestClear(w); Single(m) && w & m == 0 && w & (m - 1) == m - 1
  {
  }

  lemma BelowIsSet(w: bv32, m: bv32, c: bv32)
    requires Single(m) && Single(c) && c < m && w & (m - 1) == m - 1
    ensures w & c != 0
  {
  }

  /** The bit found by LowestClear and Position is clear, and every lower bit is set. */
  lemma LowestClearIsLowest(w: bv32, j: nat)
    requires w != FULL
    ensures var b := Position(LowestClear(w));
            b < 32 && LowestClear(w) == Bit(b) && !Has(w, b) && (j < b ==> Has(w, j))
  {
    LowestClearFacts(w);
    SetBelow(w, LowestClear(w), j);
  }

  lemma SetBelow(w: bv32, m: bv32, j: nat)
    requires Single(m) && w & m == 0 && w & (m - 1) == m - 1
    ensures Position(m) < 32 && m == Bit(Position(m)) && !Has(w, Position(m))
    ensures j < Position(m) ==> Has(w, j)
  {
    OneBit(m);
    var b := Position(m);
    if j < b {
      BitOrder(j, b);
      BitStep(j);
      BelowIsSet(w, m, Bit(j));
    }
  }

  /** The word with every bit at or below its highest set bit: what each cascade step keeps. */
  function Smear(w: bv32): bv32 {
    var w1 := w | (w >> 1);
    var w2 := w1 | (w1 >> 2);
    var w4 := w2 | (w2 >> 4);
    var w8 := w4 | (w4 >> 8);
    w8 | (w8 >> 16)
  }

  /** w lies wholly inside the masked half or wholly outside it. */
  ghost predicate Within(w: bv32, half: bv32) {
    w & half == 0 || w & !half == 0
  }

  ghost predicate SameTest(w: bv32, v: bv32, half: bv32) {
    (w & half != 0) == (v & half != 0)
  }

  lemma Keep16(w: bv32, v: bv32)
    requires v == Keep(w, 0xFFFF_0000)
    ensures Smear(v) == Smear(w) && Within(v, 0xFFFF_0000) && SameTest(w, v, 0xFFFF_0000)
  {
    KeepSmear16(w, v);
  }

  lemma KeepSmear16(w: bv32, v: bv32)
    requires v == Keep(w, 0xFFFF_0000)
    ensures Smear(v) == Smear(w)
  {
  }

  lemma Keep8(w: bv32, v: bv32)
    requires v == Keep(w, 0xFF00_FF00) && Within(w, 0xFFFF_0000)
    ensures Smear(v) == Smear(w) && Within(v, 0xFFFF_0000) && Within(v, 0xFF00_FF00)
    ensures SameTest(w, v, 0xFFFF_0000) && SameTest(w, v, 0xFF00_FF00)
  {
  }

  lemma Keep4(w: bv32, v: bv32)
    requires v == Keep(w, 0xF0F0_F0F0) && Within(w, 0xFFFF_0000) && Within(w, 0xFF00_FF00)
    ensures Smear(v) == Smear(w)
    ensures Within(v, 0xFFFF_0000) && Within(v, 0xFF00_FF00) && Within(v, 0xF0F0_F0F0)
    ensures SameTest(w, v, 0xFFFF_0000) && SameTest(w, v, 0xFF00_FF00) && SameTest(w, v, 0xF0F0_F0F0)
  {
  }

  lemma Keep2(w: bv32, v: bv32)
    requires v == Keep(w, 0xCCCC_CCCC)
    requires Within(w, 0xFFFF_0000) && Within(w, 0xFF00_FF00) && Within(w, 0xF0F0_F0F0)
    ensures Smear(v) == Smear(w)
    ensures Within(v, 0xFFFF_0000) && Within(v, 0xFF00_FF00) && Within(v, 0xF0F0_F0F0) && Within(v, 0xCCCC_CCCC)
    ensures SameTest(w, v, 0xFFFF_0000) && SameTest(w, v, 0xFF00_FF00) && SameTest(w, v, 0xF0F0_F0F0)
    ensures SameTest(w, v, 0xCCCC_CCCC)
  {
  }

  lemma Keep1(w: bv32, v: bv32)
    requires v == Keep(w, 0xAAAA_AAAA)
    requires Within(w, 0xFFFF_0000) && Within(w, 0xFF00_FF00) && Within(w, 0xF0F0_F0F0) && Within(w, 0xCCCC_CCCC)
    ensures Smear(v) == Smear(w) && v & (v - 1) == 0
    ensures SameTest(w, v, 0xFFFF_0000) && SameTest(w, v, 0xFF00_FF00) && SameTest(w, v, 0xF0F0_F0F0)
    ensures SameTest(w, v, 0xCCCC_CCCC) && SameTest(w, v, 0xAAAA_AAAA)
  {
  }

  /** h is the highest set bit of w. */
  ghost predicate IsTop(w: bv32, h: bv32) {
    Single(h) && w & h != 0 && w & (h | (h - 1)) == w
  }

  /** A single bit with w's smear is w's highest. */
  lemma SingleSmear(w: bv32, v: bv32)
    requires w != 0 && v & (v - 1) == 0 && Smear(v) == Smear(w)
    ensures IsTop(w, v)
  {
  }

  /** The cascade narrows the word to its highest set bit, and adds up that bit's position. */
  lemma Cascade(w: bv32) returns (h: bv32)
    requires w != 0
    ensures IsTop(w, h) && Position(h) == Highest(w)
  {
    var w16 := Keep(w, 0xFFFF_0000);
    var w8 := Keep(w16, 0xFF00_FF00);
    var w4 := Keep(w8, 0xF0F0_F0F0);
    var w2 := Keep(w4, 0xCCCC_CCCC);
    h := Keep(w2, 0xAAAA_AAAA);
    Keep16(w, w16);
    Keep8(w16, w8);
    Keep4(w8, w4);
    Keep2(w4, w2);
    Keep1(w2, h);
    SingleSmear(w, h);
    Tests(w, w16, w8, w4, w2, h);
  }

  lemma Tests(w: bv32, w16: bv32, w8: bv32, w4: bv32, w2: bv32, w1: bv32)
    requires SameTest(w, w1, 0xFFFF_0000) && SameTest(w16, w1, 0xFF00_FF00) && SameTest(w8, w1, 0xF0F0_F0F0)
    requires SameTest(w4, w1, 0xCCCC_CCCC) && SameTest(w2, w1, 0xAAAA_AAAA)
    ensures Position(w1) == Gain(w, 0xFFFF_0000, 16) + Gain(w16, 0xFF00_FF00, 8)
      + Gain(w8, 0xF0F0_F0F0, 4) + Gain(w4, 0xCCCC_CCCC, 2) + Gain(w2, 0xAAAA_AAAA, 1)
  {
  }

  lemma AboveIsClear(w: bv32, h: bv32, c: bv32)
    requires IsTop(w, h) && Single(c) && h < c
    ensures w & c == 0
  {
  }

  /** The bit found by the cascade is set, and no higher bit is. */
  lemma HighestIsHighest(w: bv32, j: nat)
    requires w != 0
    ensures Highest(w) < 32 && Has(w, Highest(w))
    ensures Highest(w) < j < 32 ==> !Has(w, j)
  {
    var h := Cascade(w);
    ClearAbove(w, h, j);
  }

  lemma ClearAbove(w: bv32, h: bv32, j: nat)
    requires IsTop(w, h)
    ensures Position(h) < 32 && Has(w, Position(h))
    ensures Position(h) < j < 32 ==> !Has(w, j)
  {
    OneBit(h);
    var b := Position(h);
    if b < j < 32 {
      BitOrder(b, j);
      BitStep(j);
      AboveIsClear(w, h, Bit(j));
    }
  }

  lemma TwoBits(i: nat, j: nat)
    requires i < 32 && j < 32
    ensures Single(Bit(i)) && Single(Bit(j)) && (Bit(i) == Bit(j) <==> i == j)
  {
    BitStep(i);
    BitStep(j);
    if j < i {
      BitOrder(j, i);
    } else if i < j {
      BitOrder(i, j);
    }
  }

  /** Setting or clearing one bit leaves the others. */
  lemma SetClear(w: bv32, m: bv32, i: nat, j: nat)
    requires i < 32 && j < 32 && m == Bit(i)
    ensures Has(w | m, j) == (i == j || Has(w, j))
    ensures Has(w & !m, j) == (i != j && Has(w, j))
  {
    TwoBits(i, j);
    SetClearAt(w, m, Bit(j), i, j);
  }

  lemma SetClearAt(w: bv32, m: bv32, c: bv32, i: nat, j: nat)
    requires Single(m) && Single(c) && (m == c <==> i == j) && j < 32 && c == Bit(j)
    ensures Has(w | m, j) == (i == j || Has(w, j))
    ensures Has(w & !m, j) == (i != j && Has(w, j))
  {
    SetClearBits(w, m, c, i, j);
    HasAt(w, c, j);
    HasAt(w | m, c, j);
    HasAt(w & !m, c, j);
  }

  lemma HasAt(w: bv32, c: bv32, j: nat)
    requires j < 32 && c == Bit(j)
    ensures Has(w, j) == (w & c != 0)
  {
  }

  lemma SetClearBits(w: bv32, m: bv32, c: bv32, i: int, j: int)
    requires Single(m) && Single(c) && (m == c <==> i == j)
    ensures ((w | m) & c != 0) == (i == j || w & c != 0)
    ensures ((w & !m) & c != 0) == (i != j && w & c != 0)
  {
  }

  lemma EmptyWord(w: bv32, j: nat)
    requires j < 32
    ensures w == 0 ==> !Has(w, j)
    ensures w == FULL ==> Has(w, j)
  {
    BitStep(j);
  }
}
