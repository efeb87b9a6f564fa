/** The per-opener descriptor table: socket pointers and a usage bitmap that share one block
    (src/api/amiga_generic2.c and src/api/amiga_syscalls.c). A socket pointer is a natural number,
    0 for NULL. Descriptor 32 * w + i is bit i of bitmap word w. */
module DescriptorTable {

  import opened Common
  import opened Bitmap

  const NFDBITS := 32
  const MAX_SIZE := 32767   // the largest WORD

  /** The bitmap words a table of n descriptors has. */
  function Words(n: nat): (w: nat)
    requires n > 0
    ensures 32 * (w - 1) < n <= 32 * w
  {
    (n - 1) / NFDBITS + 1
  }

  predicate BitAt(mask: seq<bv32>, w: nat, i: nat) {
    w < |mask| && i < 32 && Has(mask[w], i)
  }

  // ---- The search for a free descriptor -----------------------------------------------------

  /** The first descriptor from (w, i) on that is unused and not refused; 32 * |mask| if none. */
  function FirstFree(mask: seq<bv32>, refuses: nat -> bool, w: nat, i: nat): nat
    requires w <= |mask| && i <= 32
    decreases |mask| - w, 32 - i
  {
    if w == |mask| then 32 * w
    else if i == 32 then FirstFree(mask, refuses, w + 1, 0)
    else if Has(mask[w], i) || refuses(32 * w + i) then FirstFree(mask, refuses, w, i + 1)
    else 32 * w + i
  }

  /** FirstFree is the least acceptable descriptor at or after its start. */
  lemma {:induction false} FirstFreeIsLeast(mask: seq<bv32>, refuses: nat -> bool, w: nat, i: nat, v: nat, j: nat)
    requires w <= |mask| && i <= 32 && v < |mask| && j < 32
    ensures var f := FirstFree(mask, refuses, w, i);
            && f <= 32 * |mask|
            && (w < |mask| ==> 32 * w + i <= f)
            && (f == 32 * v + j ==> !Has(mask[v], j) && !refuses(f))
            && (32 * w + i <= 32 * v + j < f ==> Has(mask[v], j) || refuses(32 * v + j))
    decreases |mask| - w, 32 - i
  {
    if w < |mask| {
      if i == 32 {
        FirstFreeIsLeast(mask, refuses, w + 1, 0, v, j);
      } else if Has(mask[w], i) || refuses(32 * w + i) {
        FirstFreeIsLeast(mask, refuses, w, i + 1, v, j);
      }
    }
  }

  /** now has was's bits, and every bit below p. */
  ghost predicate MarkedBelow(was: seq<bv32>, now: seq<bv32>, p: nat) {
    && |now| == |was|
    && forall v: nat, j: nat | v < |was| && j < 32 :: Has(now[v], j) <==> Has(was[v], j) || 32 * v + j < p
  }

  /** Where the search stands: every bit below p = 32 * w + i was used or has been refused and
      marked, so the answer is still ahead. */
  ghost predicate Searched(was: seq<bv32>, now: seq<bv32>, refuses: nat -> bool, w: nat, i: nat) {
    && w <= |was| && i <= 32
    && MarkedBelow(was, now, 32 * w + i)
    && FirstFree(was, refuses, w, i) == FirstFree(was, refuses, 0, 0)
  }

  lemma SearchStarts(was: seq<bv32>, refuses: nat -> bool)
    ensures Searched(was, was, refuses, 0, 0)
  {
  }

  /** Bits of was from i up to k in word w are used, so the search may skip them. */
  lemma {:induction false} Skip(was: seq<bv32>, refuses: nat -> bool, w: nat, i: nat, k: nat)
    requires w < |was| && i <= k <= 32
    requires forall j: nat | i <= j < k :: Has(was[w], j)
    ensures FirstFree(was, refuses, w, i) == FirstFree(was, refuses, w, k)
    decreases k - i
  {
    if i < k {
      Skip(was, refuses, w, i + 1, k);
    }
  }

  /** If now shows every bit of word w below k used, the search stands at k. */
  lemma SkipTo(was: seq<bv32>, now: seq<bv32>, refuses: nat -> bool, w: nat, i: nat, k: nat)
    requires Searched(was, now, refuses, w, i) && w < |was| && k <= 32
    requires forall j: nat | j < k :: Has(now[w], j)
    requires k < 32 ==> !Has(now[w], k)
    ensures Searched(was, now, refuses, w, k) && i <= k
    ensures k < 32 ==> !Has(was[w], k)
  {
    forall j: nat | i <= j < k
      ensures Has(was[w], j)
    {
      assert Has(now[w], j);
    }
    if k < 32 {
      assert !Has(now[w], k);
    }
    Skip(was, refuses, w, i, k);
    Unmoved(was, now, w, i, k);
  }

  lemma Unmoved(was: seq<bv32>, now: seq<bv32>, w: nat, i: nat, k: nat)
    requires MarkedBelow(was, now, 32 * w + i) && w < |was| && i <= k <= 32
    requires forall j: nat | i <= j < k :: Has(was[w], j)
    ensures MarkedBelow(was, now, 32 * w + k)
  {
    forall v: nat, j: nat | v < |was| && j < 32
      ensures Has(now[v], j) <==> Has(was[v], j) || 32 * v + j < 32 * w + k
    {
      if v == w && i <= j < k {
        assert Has(was[w], j);
      }
    }
  }

  /** Marking a refused bit moves the search one further. */
  lemma MarkRefused(was: seq<bv32>, now: seq<bv32>, next: seq<bv32>, refuses: nat -> bool, w: nat, i: nat)
    requires Searched(was, now, refuses, w, i) && w < |was| && i < 32
    requires refuses(32 * w + i) && OnlyBitOf(now, next, w, i, true)
    ensures Searched(was, next, refuses, w, i + 1)
  {
  }

  /** The words x and y differ at most at bit i, which is b in y. */
  ghost predicate OnlyBit(x: bv32, y: bv32, i: nat, b: bool) {
    forall j: nat | j < 32 :: Has(y, j) == if j == i then b else Has(x, j)
  }

  /** Likewise for whole bitmaps, at bit i of word w. */
  ghost predicate OnlyBitOf(x: seq<bv32>, y: seq<bv32>, w: nat, i: nat, b: bool) {
    && |x| == |y|
    && forall v: nat, j: nat | v < |x| && j < 32 ::
         Has(y[v], j) == if v == w && j == i then b else Has(x[v], j)
  }

  lemma SetWord(x: bv32, m: bv32, i: nat)
    requires i < 32 && m == Bit(i)
    ensures OnlyBit(x, x | m, i, true)
  {
    forall j: nat | j < 32
      ensures Has(x | m, j) == if j == i then true else Has(x, j)
    {
      SetClear(x, m, i, j);
    }
  }

  lemma ClearWord(x: bv32, m: bv32, i: nat)
    requires i < 32 && m == Bit(i)
    ensures OnlyBit(x, x & !m, i, false)
  {
    forall j: nat | j < 32
      ensures Has(x & !m, j) == if j == i then false else Has(x, j)
    {
      SetClear(x, m, i, j);
    }
  }

  lemma InWord(x: seq<bv32>, y: seq<bv32>, word: bv32, w: nat, i: nat, b: bool)
    requires w < |x| && i < 32 && y == x[w := word] && OnlyBit(x[w], word, i, b)
    ensures OnlyBitOf(x, y, w, i, b)
  {
  }

  /** The word search of sdFind: the lowest clear bit of a word that is not full. */
  method LowestFree(word: bv32) returns (m: bv32, bit: nat)
    requires word != FULL
    ensures bit < 32 && m == Bit(bit) && !Has(word, bit)
    ensures forall j: nat | j < bit :: Has(word, j)
  {
    m := ((word ^ (word + 1)) >> 1) + 1;
    bit := if m & 0xFFFF_0000 != 0 then 16 else 0;
    if m & 0xFF00_FF00 != 0 { bit := bit + 8; }
    if m & 0xF0F0_F0F0 != 0 { bit := bit + 4; }
    if m & 0xCCCC_CCCC != 0 { bit := bit + 2; }
    if m & 0xAAAA_AAAA != 0 { bit := bit + 1; }
    assert bit == Position(LowestClear(word));
    LowestClearIsLowest(word, 0);
    forall j: nat | j < bit
      ensures Has(word, j)
    {
      LowestClearIsLowest(word, j);
    }
  }

  method Narrow(c: bv32, half: bv32, bits: nat) returns (narrowed: bv32, gain: nat)
    ensures narrowed == Keep(c, half) && gain == Gain(c, half, bits)
  {
    narrowed := c & half;
    if narrowed != 0 {
      gain := bits;
    } else {
      narrowed, gain := c, 0;
    }
  }

  /** The highest set bit of a word, by the narrowing masks of getLastSockFd. */
  method HighestUsed(word: bv32) returns (bit: nat)
    requires word != 0
    ensures bit == Highest(word) < 32 && Has(word, bit)
    ensures forall j: nat | bit < j < 32 :: !Has(word, j)
  {
    var c16, b16 := Narrow(word, 0xFFFF_0000, 16);
    var c8, b8 := Narrow(c16, 0xFF00_FF00, 8);
    var c4, b4 := Narrow(c8, 0xF0F0_F0F0, 4);
    var c2, b2 := Narrow(c4, 0xCCCC_CCCC, 2);
    var _, b1 := Narrow(c2, 0xAAAA_AAAA, 1);
    bit := b16 + b8 + b4 + b2 + b1;
    assert bit == Highest(word);
    HighestIsHighest(word, 0);
    forall j: nat | bit < j < 32
      ensures !Has(word, j)
    {
      HighestIsHighest(word, j);
    }
  }

  // ---- The table as a value -----------------------------------------------------------------

  datatype Table = Table(slots: seq<nat>, mask: seq<bv32>)

  ghost predicate WellSized(t: Table) {
    0 < |t.slots| <= MAX_SIZE && |t.mask| == Words(|t.slots|)
  }

  /** A descriptor with a socket behind it has its usage bit set. */
  ghost predicate Guarded(t: Table) {
    forall w: nat, i: nat | w < |t.mask| && i < 32 ::
      32 * w + i < |t.slots| && t.slots[32 * w + i] != 0 ==> Has(t.mask[w], i)
  }

  /** The search fails exactly when every descriptor of the table is used or refused. */
  lemma NoneFree(t: Table, refuses: nat -> bool)
    requires WellSized(t)
    ensures |t.slots| <= FirstFree(t.mask, refuses, 0, 0)
      <==> forall w: nat, i: nat | w < |t.mask| && i < 32 ::
             32 * w + i < |t.slots| ==> Has(t.mask[w], i) || refuses(32 * w + i)
  {
    var f := FirstFree(t.mask, refuses, 0, 0);
    forall w: nat, i: nat | w < |t.mask| && i < 32 && 32 * w + i < f
      ensures Has(t.mask[w], i) || refuses(32 * w + i)
    {
      FirstFreeIsLeast(t.mask, refuses, 0, 0, w, i);
    }
    if f < |t.slots| {
      FirstFreeIsLeast(t.mask, refuses, 0, 0, f / 32, f % 32);
      assert !Has(t.mask[f / 32], f % 32);
    }
  }

  /** The highest used descriptor of the first n bitmap words, or -1. */
  function LastUsed(mask: seq<bv32>, n: nat): int
    requires n <= |mask|
  {
    if n == 0 then -1
    else if mask[n - 1] != 0 then 32 * (n - 1) + Highest(mask[n - 1])
    else LastUsed(mask, n - 1)
  }

  lemma {:induction false} LastUsedIsHighest(mask: seq<bv32>, n: nat, w: nat, i: nat)
    requires n <= |mask| && w < n && i < 32
    ensures var last := LastUsed(mask, n);
            && -1 <= last < 32 * n
            && (last == 32 * w + i ==> Has(mask[w], i))
            && (last < 32 * w + i ==> !Has(mask[w], i))
  {
    if mask[n - 1] != 0 {
      HighestIsHighest(mask[n - 1], i);
    } else {
      EmptyWord(0, i);
      if w < n - 1 {
        LastUsedIsHighest(mask, n - 1, w, i);
      } else if n > 1 {
        LastUsedIsHighest(mask, n - 1, 0, 0);
      }
    }
  }

  /** The size a resize to n really gives: a shrink keeps what lies above n. */
  function NewSize(t: Table, n: nat): nat {
    var last := LastUsed(t.mask, |t.mask|);
    if n < |t.slots| && n < last then last + 1 else n
  }

  function CopySize(t: Table, n: nat): nat {
    if n < |t.slots| then NewSize(t, n) else |t.slots|
  }

  /** The copy would read past the old pointers: a shrink with a usage bit set at or beyond the
      old table's end. */
  predicate Overreads(t: Table, n: nat) {
    |t.slots| < CopySize(t, n)
  }

  function Resized(t: Table, n: nat): Table
    requires WellSized(t) && 0 < n && !Overreads(t, n)
  {
    var size, copy := NewSize(t, n), CopySize(t, n);
    Table(t.slots[..copy] + seq(size - copy, _ => 0),
          t.mask[..Words(copy)] + seq(Words(size) - Words(copy), _ => 0))
  }

  /** The copied words are the old ones, the rest are empty, and the pointers likewise. */
  lemma ResizedAt(t: Table, n: nat, w: nat, i: nat)
    requires WellSized(t) && 0 < n && !Overreads(t, n) && i < 32
    ensures var r := Resized(t, n); var copy := CopySize(t, n);
            && (BitAt(r.mask, w, i) <==> w < Words(copy) && BitAt(t.mask, w, i))
            && (32 * w + i < |r.slots| ==> r.slots[32 * w + i] == if 32 * w + i < copy then t.slots[32 * w + i] else 0)
  {
    EmptyWord(0, i);
  }

  /** No descriptor above fd is used. */
  ghost predicate NoneAbove(t: Table, fd: int) {
    forall w: nat, i: nat | BitAt(t.mask, w, i) :: 32 * w + i <= fd
  }

  /** A resize gives the size asked for, unless it is a shrink and a higher descriptor is used: then the least
      size that holds them all. What is new is empty. */
  lemma ResizedSize(t: Table, n: nat)
    requires WellSized(t) && 0 < n && !Overreads(t, n)
    ensures var r := Resized(t, n); var size := |r.slots|;
            && 32 * (|r.mask| - 1) < size <= 32 * |r.mask|
            && (size == n <==> |t.slots| <= n || NoneAbove(t, n))
            && (size != n ==> n < size - 1 && NoneAbove(t, size - 1) && BitAt(t.mask, (size - 1) / 32, (size - 1) % 32))
            && forall fd | CopySize(t, n) <= fd < size :: r.slots[fd] == 0
  {
    var last := LastUsed(t.mask, |t.mask|);
    LastUsedIsHighest(t.mask, |t.mask|, 0, 0);
    forall w: nat, i: nat | BitAt(t.mask, w, i)
      ensures 32 * w + i <= last
    {
      LastUsedIsHighest(t.mask, |t.mask|, w, i);
    }
    if 0 <= last {
      LastUsedIsHighest(t.mask, |t.mask|, last / 32, last % 32);
      assert BitAt(t.mask, last / 32, last % 32);
    }
  }

  /** Every used descriptor keeps its place, its bit and its pointer, and nothing else is used. */
  ghost predicate Preserved(t: Table, r: Table) {
    && (forall w: nat, i: nat | w < |t.mask| && i < 32 ::
          Has(t.mask[w], i) ==> BitAt(r.mask, w, i) && SameSlot(t, r, 32 * w + i))
    && (forall w: nat, i: nat | w < |r.mask| && i < 32 ::
          Has(r.mask[w], i) ==> BitAt(t.mask, w, i))
  }

  ghost predicate SameSlot(t: Table, r: Table, fd: nat) {
    fd < |t.slots| ==> fd < |r.slots| && r.slots[fd] == t.slots[fd]
  }

  /** A resize preserves the table unless it shrinks it to exactly its highest used descriptor:
      the size test is > where it should be >=, and that descriptor's pointer is dropped. */
  lemma ResizePreserves(t: Table, n: nat)
    requires WellSized(t) && 0 < n && !Overreads(t, n)
    ensures Preserved(t, Resized(t, n)) <==> !(n < |t.slots| && LastUsed(t.mask, |t.mask|) == n)
  {
    var r, last := Resized(t, n), LastUsed(t.mask, |t.mask|);
    if n < |t.slots| && last == n {
      LastUsedIsHighest(t.mask, |t.mask|, n / 32, n % 32);
      assert Has(t.mask[n / 32], n % 32) && !SameSlot(t, r, n);
    } else {
      forall w: nat, i: nat | w < |t.mask| && i < 32 && Has(t.mask[w], i)
        ensures BitAt(r.mask, w, i) && SameSlot(t, r, 32 * w + i)
      {
        UsedIsCopied(t, n, w, i);
        ResizedAt(t, n, w, i);
      }
      forall w: nat, i: nat | w < |r.mask| && i < 32 && Has(r.mask[w], i)
        ensures BitAt(t.mask, w, i)
      {
        ResizedAt(t, n, w, i);
      }
    }
  }

  lemma UsedIsCopied(t: Table, n: nat, w: nat, i: nat)
    requires WellSized(t) && 0 < n && !Overreads(t, n) && BitAt(t.mask, w, i)
    requires !(n < |t.slots| && LastUsed(t.mask, |t.mask|) == n)
    ensures w < Words(CopySize(t, n))
    ensures 32 * w + i < |t.slots| ==> 32 * w + i < CopySize(t, n)
  {
    LastUsedIsHighest(t.mask, |t.mask|, w, i);
  }

  /** No usage bit lies at or past the end of the table. */
  ghost predicate NoStray(t: Table) {
    LastUsed(t.mask, |t.mask|) < |t.slots|
  }

  /** A shrink reads past the old pointers exactly when a bit lies past the end. */
  lemma OverreadExactly(t: Table, n: nat)
    requires WellSized(t) && 0 < n
    ensures Overreads(t, n) <==> n < |t.slots| && !NoStray(t)
  {
  }

  /** A table without stray bits gets one by a resize exactly when the dropped descriptor's bit
      shares a copied word with the new table's last one. */
  lemma ResizeStray(t: Table, n: nat)
    requires WellSized(t) && 0 < n && NoStray(t)
    ensures !Overreads(t, n)
    ensures NoStray(Resized(t, n))
      <==> !(n < |t.slots| && LastUsed(t.mask, |t.mask|) == n && n % 32 != 0)
  {
    LastResized(t, n);
    var last, kept := LastUsed(t.mask, |t.mask|), LastUsed(Resized(t, n).mask, |Resized(t, n).mask|);
    StraySizes(|t.slots|, n, last, kept, Words(CopySize(t, n)));
  }

  lemma StraySizes(slots: nat, n: nat, last: int, kept: int, words: nat)
    requires 0 < n && last < slots && kept <= last && kept < 32 * words && (last < 32 * words ==> kept == last)
    requires var copy := if n < slots then (if n < last then last + 1 else n) else slots;
             32 * (words - 1) < copy <= 32 * words
    ensures kept < (if n < slots && n < last then last + 1 else n) <==> !(n < slots && last == n && n % 32 != 0)
  {
  }

  /** What is the highest used descriptor after a resize: the old one if its word is copied, and
      otherwise a lower one in the copied words. */
  lemma LastResized(t: Table, n: nat)
    requires WellSized(t) && 0 < n && !Overreads(t, n)
    ensures var last := LastUsed(t.mask, |t.mask|);
            var kept := LastUsed(Resized(t, n).mask, |Resized(t, n).mask|);
            && kept <= last && kept < 32 * Words(CopySize(t, n))
            && (last < 32 * Words(CopySize(t, n)) ==> kept == last)
  {
    var mask := Resized(t, n).mask;
    LastUsedIsHighest(mask, |mask|, 0, 0);
    LastUsedIsHighest(t.mask, |t.mask|, 0, 0);
    KeptIsOld(t, n, mask, LastUsed(mask, |mask|));
    OldIsKept(t, n, mask, LastUsed(t.mask, |t.mask|));
  }

  lemma KeptIsOld(t: Table, n: nat, mask: seq<bv32>, kept: int)
    requires WellSized(t) && 0 < n && !Overreads(t, n) && mask == Resized(t, n).mask
    requires kept == LastUsed(mask, |mask|) && -1 <= kept < 32 * |mask|
    ensures 0 <= kept ==> kept <= LastUsed(t.mask, |t.mask|) && kept < 32 * Words(CopySize(t, n))
  {
    if 0 <= kept {
      LastUsedIsHighest(mask, |mask|, kept / 32, kept % 32);
      ResizedAt(t, n, kept / 32, kept % 32);
      LastUsedIsHighest(t.mask, |t.mask|, kept / 32, kept % 32);
    }
  }

  lemma OldIsKept(t: Table, n: nat, mask: seq<bv32>, last: int)
    requires WellSized(t) && 0 < n && !Overreads(t, n) && mask == Resized(t, n).mask
    requires last == LastUsed(t.mask, |t.mask|) && -1 <= last < 32 * |t.mask|
    ensures 0 <= last < 32 * Words(CopySize(t, n)) ==> last <= LastUsed(mask, |mask|)
  {
    if 0 <= last < 32 * Words(CopySize(t, n)) {
      LastUsedIsHighest(t.mask, |t.mask|, last / 32, last % 32);
      ResizedAt(t, n, last / 32, last % 32);
      LastUsedIsHighest(mask, |mask|, last / 32, last % 32);
    }
  }

  /** Every pointer of the resized table is still guarded by its bit. */
  lemma ResizeGuarded(t: Table, n: nat)
    requires WellSized(t) && 0 < n && !Overreads(t, n) && Guarded(t)
    ensures Guarded(Resized(t, n))
  {
    var r := Resized(t, n);
    forall w: nat, i: nat | w < |r.mask| && i < 32 && 32 * w + i < |r.slots| && r.slots[32 * w + i] != 0
      ensures Has(r.mask[w], i)
    {
      ResizedAt(t, n, w, i);
      assert Has(t.mask[w], i);
    }
  }

  /** A shrink to 40 of a table whose one descriptor is 40 loses that descriptor. */
  lemma ShrinkDropsLast(so: nat)
    requires so != 0
    ensures var t := Table(seq(64, k => if k == 40 then so else 0), [0, 0x100]);
            && Guarded(t) && NoStray(t) && !Preserved(t, Resized(t, 40))
  {
    BitTable();
    var t := Table(seq(64, k => if k == 40 then so else 0), [0, 0x100]);
    assert Highest(0x100) == 8;
    assert LastUsed(t.mask, 2) == 40;
    ResizePreserves(t, 40);
    assert Has(t.mask[1], 8);
  }

  /** A search leaves a usage bit past the end of a table that had none exactly when it went past the
      descriptor just beyond the end: when the link library refused that too. */
  lemma SearchStray(t: Table, refuses: nat -> bool, now: seq<bv32>)
    requires WellSized(t) && NoStray(t) && MarkedBelow(t.mask, now, FirstFree(t.mask, refuses, 0, 0))
    ensures NoStray(Table(t.slots, now)) <==> FirstFree(t.mask, refuses, 0, 0) <= |t.slots|
  {
    var f, last := FirstFree(t.mask, refuses, 0, 0), LastUsed(now, |now|);
    FirstFreeIsLeast(t.mask, refuses, 0, 0, 0, 0);
    LastUsedIsHighest(now, |now|, 0, 0);
    if |t.slots| < f {
      var w, i := (f - 1) / 32, (f - 1) % 32;
      assert Has(now[w], i);
      LastUsedIsHighest(now, |now|, w, i);
    } else if 0 <= last {
      var w, i := last / 32, last % 32;
      LastUsedIsHighest(now, |now|, w, i);
      assert Has(now[w], i);
      LastUsedIsHighest(t.mask, |t.mask|, w, i);
    }
  }

  /** A link library that refuses every descriptor makes the search mark bits past the end, after
      which any shrink reads past the old pointers. */
  lemma RefusalsLeaveStrayBits(t: Table, now: seq<bv32>, n: nat)
    requires WellSized(t) && 0 < n < |t.slots| && |t.slots| % 32 != 0
    requires MarkedBelow(t.mask, now, FirstFree(t.mask, _ => true, 0, 0))
    ensures Overreads(Table(t.slots, now), n)
  {
    var w := |t.mask| - 1;
    var f := FirstFree(t.mask, _ => true, 0, 0);
    FirstFreeIsLeast(t.mask, _ => true, 0, 0, w, 31);
    if f < 32 * |t.mask| {
      FirstFreeIsLeast(t.mask, _ => true, 0, 0, f / 32, f % 32);
    }
    assert Has(now[w], 31);
    LastUsedIsHighest(now, |now|, w, 31);
  }

  lemma GuardedInstall(t: Table, r: Table, fd: nat, so: nat)
    requires WellSized(t) && fd < |t.slots| && r.slots == t.slots[fd := so]
    requires OnlyBitOf(t.mask, r.mask, fd / NFDBITS, fd % NFDBITS, true)
    ensures Guarded(t) ==> Guarded(r)
  {
  }

  lemma GuardedRemove(t: Table, r: Table, fd: nat)
    requires WellSized(t) && fd < |t.slots| && r.slots == t.slots[fd := 0]
    requires OnlyBitOf(t.mask, r.mask, fd / NFDBITS, fd % NFDBITS, false)
    ensures Guarded(t) ==> Guarded(r)
  {
  }

  /** Without its highest used descriptor a bitmap's highest is lower. */
  lemma LastCleared(mask: seq<bv32>, mask': seq<bv32>, fd: nat)
    requires fd / NFDBITS < |mask| && LastUsed(mask, |mask|) == fd
    requires OnlyBitOf(mask, mask', fd / NFDBITS, fd % NFDBITS, false)
    ensures LastUsed(mask', |mask'|) < fd
  {
    var last := LastUsed(mask', |mask'|);
    LastUsedIsHighest(mask', |mask'|, 0, 0);
    if fd <= last {
      LastUsedIsHighest(mask', |mask'|, last / 32, last % 32);
      assert Has(mask'[last / 32], last % 32);
      LastUsedIsHighest(mask, |mask|, last / 32, last % 32);
      assert false;
    }
  }

  // ---- The table in place -------------------------------------------------------------------

  /** One allocation: the pointers and, after them, the bitmap. */
  datatype Block = Block(slots: array<nat>, mask: array<bv32>)

  class DescriptorBase {
    var block: Block
    var retired: seq<Block>   // replaced blocks, newest first; freed only with the base

    ghost predicate Valid()
      reads this
    {
      && 0 < block.slots.Length <= MAX_SIZE
      && block.mask.Length == Words(block.slots.Length)
      && block.slots as object != block.mask
      && forall b <- retired :: b.slots != block.slots && b.mask != block.mask
    }

    ghost function Contents(): Table
      reads this, block.slots, block.mask
    {
      Table(block.slots[..], block.mask[..])
    }

    /** sdFind: the lowest descriptor that is unused and not refused by the link library. Refused
        ones met on the way are marked as used. None stands for EMFILE. */
    method Find(refuses: nat -> bool) returns (fd: Option<nat>)
      requires Valid()
      modifies block.mask
      ensures Valid() && Contents().slots == old(Contents().slots)
      ensures var f := FirstFree(old(Contents()).mask, refuses, 0, 0);
              && fd == (if f < block.slots.Length then Some(f) else None)
              && MarkedBelow(old(Contents()).mask, Contents().mask, f)
    {
      ghost var was := Contents().mask;
      ghost var f := FirstFree(was, refuses, 0, 0);
      var w: nat := 0;
      ghost var i: nat := 0;
      SearchStarts(was, refuses);
      while w < block.mask.Length
        invariant w <= block.mask.Length && (w == block.mask.Length ==> i == 0)
        invariant Searched(was, block.mask[..], refuses, w, i)
        invariant block.slots[..] == old(block.slots[..])
        decreases block.mask.Length - w, 32 - i
      {
        var word := block.mask[w];
        if word == FULL {
          FullWord(was, block.mask[..], refuses, w, i);
          w, i := w + 1, 0;
        } else {
          var m, bit := LowestFree(word);
          SkipTo(was, block.mask[..], refuses, w, i, bit);
          if refuses(32 * w + bit) {
            Refuse(block.mask, was, refuses, w, m, bit);
            i := bit + 1;
          } else {
            assert f == 32 * w + bit;
            if 32 * w + bit >= block.slots.Length {
              return None;
            }
            return Some(32 * w + bit);
          }
        }
      }
      assert f == 32 * w;
      return None;
    }

    /** Publishes a socket at a descriptor: pointer and usage bit. */
    method Install(fd: nat, so: nat)
      requires Valid() && fd < block.slots.Length
      modifies block.slots, block.mask
      ensures Valid() && Contents().slots == old(Contents()).slots[fd := so]
      ensures OnlyBitOf(old(Contents()).mask, Contents().mask, fd / NFDBITS, fd % NFDBITS, true)
      ensures old(Guarded(Contents())) ==> Guarded(Contents())
    {
      block.slots[fd] := so;
      Set(block.mask, fd / NFDBITS, Bit(fd % NFDBITS), fd % NFDBITS);
      GuardedInstall(old(Contents()), Contents(), fd, so);
    }

    /** Takes a descriptor out of use, as closing and releasing do. */
    method Remove(fd: nat)
      requires Valid() && fd < block.slots.Length
      modifies block.slots, block.mask
      ensures Valid() && Contents().slots == old(Contents()).slots[fd := 0]
      ensures OnlyBitOf(old(Contents()).mask, Contents().mask, fd / NFDBITS, fd % NFDBITS, false)
      ensures old(Guarded(Contents())) ==> Guarded(Contents())
    {
      block.slots[fd] := 0;
      Clear(block.mask, fd / NFDBITS, Bit(fd % NFDBITS), fd % NFDBITS);
      GuardedRemove(old(Contents()), Contents(), fd);
    }

    /** getLastSockFd: the highest used descriptor of the whole bitmap, or -1. */
    method LastSockFd() returns (fd: int)
      requires Valid()
      ensures fd == LastUsed(Contents().mask, |Contents().mask|)
    {
      var w := (block.slots.Length - 1) / NFDBITS;
      while 0 <= w && block.mask[w] == 0
        invariant -1 <= w < block.mask.Length
        invariant LastUsed(block.mask[..], w + 1) == LastUsed(block.mask[..], block.mask.Length)
      {
        w := w - 1;
      }
      if w < 0 {
        return -1;
      }
      var bit := HighestUsed(block.mask[w]);
      return w * 32 + bit;
    }

    /** The size to allocate and how many pointers to copy. */
    method Sizes(n: nat) returns (newSize: nat, copySize: nat)
      requires Valid() && 0 < n <= MAX_SIZE
      ensures newSize == NewSize(Contents(), n) && copySize == CopySize(Contents(), n)
      ensures copySize <= block.slots.Length ==> 0 < copySize <= newSize <= MAX_SIZE
    {
      newSize, copySize := n, block.slots.Length;
      if n < block.slots.Length {
        var last := LastSockFd();
        if last > n {
          newSize := last + 1;
        }
        copySize := newSize;
      }
    }

    /** setdtablesize: allocate, copy, publish, retire. The flags say whether the two allocations
        succeed; overran that the copy left the old pointers. The replaced block is not
        written and, if its node could be allocated, is kept on the retired list. */
    method SetDTableSize(n: nat, blockFits: bool, nodeFits: bool) returns (size: nat, overran: bool)
      requires Valid() && 0 < n <= MAX_SIZE
      modifies this
      ensures overran <==> blockFits && Overreads(old(Contents()), n)
      ensures !blockFits || overran ==> block == old(block) && retired == old(retired)
      ensures !overran ==> Valid() && size == block.slots.Length
      ensures blockFits && !overran ==> (
          && fresh(block.slots) && fresh(block.mask)
          && Contents() == Resized(old(Contents()), n)
          && retired == (if nodeFits then [old(block)] else []) + old(retired))
    {
      var oldSize := block.slots.Length;
      var newSize, copySize := Sizes(n);
      if !blockFits {
        return oldSize, false;
      }
      if copySize > oldSize {
        return oldSize, true;
      }
      var slots := CopyPart(block.slots, copySize, newSize, 0);
      var mask := CopyPart(block.mask, Words(copySize), Words(newSize), 0);
      var was := block;
      block := Block(slots, mask);
      if nodeFits {
        retired := [was] + retired;
      }
      return newSize, false;
    }
  }

  /** A zeroed block with the first part of an old one copied in. */
  method CopyPart<T(0)>(from: array<T>, copy: nat, size: nat, zero: T) returns (to: array<T>)
    requires copy <= size && copy <= from.Length
    ensures fresh(to) && to[..] == from[..][..copy] + seq(size - copy, _ => zero)
  {
    to := new T[size](_ => zero);
    forall k | 0 <= k < copy { to[k] := from[k]; }
  }

  lemma FullWord(was: seq<bv32>, now: seq<bv32>, refuses: nat -> bool, w: nat, i: nat)
    requires Searched(was, now, refuses, w, i) && w < |was| && now[w] == FULL
    ensures Searched(was, now, refuses, w + 1, 0)
  {
    forall j: nat | j < 32
      ensures Has(now[w], j)
    {
      EmptyWord(now[w], j);
    }
    SkipTo(was, now, refuses, w, i, 32);
  }

  /** FD_SET, with the bit's mask at hand. */
  method Set(mask: array<bv32>, w: nat, m: bv32, ghost i: nat)
    requires w < mask.Length && i < 32 && m == Bit(i)
    modifies mask
    ensures OnlyBitOf(old(mask[..]), mask[..], w, i, true)
  {
    SetWord(mask[w], m, i);
    ghost var word := mask[w] | m;
    mask[w] := mask[w] | m;
    InWord(old(mask[..]), mask[..], word, w, i, true);
  }

  /** Marks a descriptor the link library refused, so that the search passes it. */
  method Refuse(mask: array<bv32>, ghost was: seq<bv32>, ghost refuses: nat -> bool, w: nat, m: bv32, ghost i: nat)
    requires w < |was| && i < 32 && m == Bit(i)
    requires Searched(was, mask[..], refuses, w, i) && refuses(32 * w + i)
    modifies mask
    ensures Searched(was, mask[..], refuses, w, i + 1)
  {
    Set(mask, w, m, i);
    MarkRefused(was, old(mask[..]), mask[..], refuses, w, i);
  }

  /** FD_CLR. */
  method Clear(mask: array<bv32>, w: nat, m: bv32, ghost i: nat)
    requires w < mask.Length && i < 32 && m == Bit(i)
    modifies mask
    ensures OnlyBitOf(old(mask[..]), mask[..], w, i, false)
  {
    ClearWord(mask[w], m, i);
    ghost var word := mask[w] & !m;
    mask[w] := mask[w] & !m;
    InWord(old(mask[..]), mask[..], word, w, i, false);
  }
}
