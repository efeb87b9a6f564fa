/** The chains of select items that hang off socket buffers (selenter, selwakeup and unselect in
    src/api/amiga_generic.c). An item is linked by a next pointer and by a back pointer to the slot
    that points at it: a buffer's head or another item's next. NIL is -1. */
module SelectChains {

  const NIL: int := -1

  datatype Slot = Head(h: nat) | Next(si: nat)

  datatype SbState = SB_CLEAR | SB_WILLWAIT | SB_WAITING

  /** A chain is written oldest item first: new items are pushed in front, so the head of the list
      is the last element. */
  type Chain = seq<nat>

  // ---- Forward and back pointers ------------------------------------------------------------

  /** The first item below position k that has not gone; NIL if none. */
  function Below(c: Chain, k: nat, gone: set<nat>): int
    requires k <= |c|
  {
    if k == 0 then NIL else if c[k - 1] in gone then Below(c, k - 1, gone) else c[k - 1]
  }

  /** Items carry the stamp of their entry, increasing along each chain, and know their chain. */
  ghost predicate Placed(chains: seq<Chain>, home: map<nat, nat>, stamp: map<nat, nat>, n: nat) {
    && (forall h, k | 0 <= h < |chains| && 0 <= k < |chains[h]| ::
          var si := chains[h][k]; si < n && si in stamp && si in home && home[si] == h)
    && (forall h, j, k | 0 <= h < |chains| && 0 <= j < k < |chains[h]| ::
          chains[h][j] in stamp && chains[h][k] in stamp && stamp[chains[h][j]] < stamp[chains[h][k]])
  }

  /** Following next pointers from each head visits the chain's items that have not gone. */
  ghost predicate Forward(hdr: seq<int>, next: seq<int>, chains: seq<Chain>, gone: set<nat>) {
    && |hdr| == |chains|
    && (forall h | 0 <= h < |chains| :: hdr[h] == Below(chains[h], |chains[h]|, gone))
    && (forall h, k | 0 <= h < |chains| && 0 <= k < |chains[h]| && chains[h][k] !in gone ::
          chains[h][k] < |next| && next[chains[h][k]] == Below(chains[h], k, gone))
  }

  function BackSlot(c: Chain, h: nat, k: nat): Slot
    requires k < |c|
  {
    if k + 1 < |c| then Next(c[k + 1]) else Head(h)
  }

  ghost predicate Back(prev: seq<Slot>, chains: seq<Chain>) {
    forall h, k | 0 <= h < |chains| && 0 <= k < |chains[h]| ::
      chains[h][k] < |prev| && prev[chains[h][k]] == BackSlot(chains[h], h, k)
  }

  ghost predicate OnChain(chains: seq<Chain>, si: nat) {
    exists h, k | 0 <= h < |chains| && 0 <= k < |chains[h]| :: chains[h][k] == si
  }

  // ---- Taking one item out ------------------------------------------------------------------

  lemma {:induction false} BelowSame(c: Chain, k: nat, gone: set<nat>, x: nat)
    requires k <= |c| && x !in c[..k]
    ensures Below(c, k, gone + {x}) == Below(c, k, gone)
  {
    if k > 0 {
      assert c[k - 1] == c[..k][k - 1];
      assert c[..k - 1] == c[..k][..k - 1];
      BelowSame(c, k - 1, gone, x);
    }
  }

  /** With a surviving item right above x, nothing further up notices x's going. */
  lemma {:induction false} BelowAbove(c: Chain, k: nat, gone: set<nat>, p: nat)
    requires p + 1 < k <= |c| && c[p + 1] !in gone && c[p + 1] != c[p]
    requires forall j | p + 1 < j < k :: c[j] != c[p]
    ensures Below(c, k, gone + {c[p]}) == Below(c, k, gone)
  {
    if k > p + 2 {
      BelowAbove(c, k - 1, gone, p);
    }
  }

  lemma SamePlace(chains: seq<Chain>, home: map<nat, nat>, stamp: map<nat, nat>, n: nat, h: nat, q: nat, g: nat, k: nat)
    requires Placed(chains, home, stamp, n)
    requires h < |chains| && q < |chains[h]| && g < |chains| && k < |chains[g]| && chains[h][q] == chains[g][k]
    ensures h == g && q == k
  {
  }

  /** unselect's one assignment, *si->si_prev = si->si_next, at position p of chain h. */
  ghost predicate Unlinks(hdr: seq<int>, next: seq<int>, chains: seq<Chain>, h: nat, p: nat, hdr': seq<int>,
                          next': seq<int>)
    requires h < |chains| && p < |chains[h]| && chains[h][p] < |next| && |hdr| == |chains|
  {
    var x := next[chains[h][p]];
    if p + 1 < |chains[h]| then chains[h][p + 1] < |next| && hdr' == hdr && next' == next[chains[h][p + 1] := x]
    else hdr' == hdr[h := x] && next' == next
  }

  lemma Unlink(hdr: seq<int>, next: seq<int>, chains: seq<Chain>, gone: set<nat>, hdr': seq<int>, next': seq<int>,
               home: map<nat, nat>, stamp: map<nat, nat>, n: nat, h: nat, p: nat)
    requires Placed(chains, home, stamp, n) && n == |next| && Forward(hdr, next, chains, gone)
    requires h < |chains| && p < |chains[h]| && chains[h][p] !in gone
    requires p + 1 < |chains[h]| ==> chains[h][p + 1] !in gone
    requires Unlinks(hdr, next, chains, h, p, hdr', next')
    ensures Forward(hdr', next', chains, gone + {chains[h][p]})
  {
    var x := chains[h][p];
    forall g | 0 <= g < |chains|
      ensures hdr'[g] == Below(chains[g], |chains[g]|, gone + {x})
    {
      UnlinkBelow(chains, gone, home, stamp, n, h, p, g, |chains[g]|);
    }
    forall g, k | 0 <= g < |chains| && 0 <= k < |chains[g]| && chains[g][k] !in gone + {x}
      ensures chains[g][k] < |next'| && next'[chains[g][k]] == Below(chains[g], k, gone + {x})
    {
      UnlinkBelow(chains, gone, home, stamp, n, h, p, g, k);
      if p + 1 < |chains[h]| && chains[h][p + 1] == chains[g][k] {
        SamePlace(chains, home, stamp, n, h, p + 1, g, k);
      }
      UnlinkNext(hdr, next, chains, gone, hdr', next', h, p, g, k);
    }
  }

  lemma UnlinkNext(hdr: seq<int>, next: seq<int>, chains: seq<Chain>, gone: set<nat>, hdr': seq<int>, next': seq<int>,
                   h: nat, p: nat, g: nat, k: nat)
    requires h < |chains| && p < |chains[h]| && chains[h][p] < |next| && |hdr| == |chains|
    requires g < |chains| && k < |chains[g]| && chains[g][k] < |next|
    requires next[chains[h][p]] == Below(chains[h], p, gone) && next[chains[g][k]] == Below(chains[g], k, gone)
    requires Unlinks(hdr, next, chains, h, p, hdr', next')
    requires p + 1 < |chains[h]| && chains[h][p + 1] == chains[g][k] ==> g == h && k == p + 1
    ensures |next'| == |next|
    ensures next'[chains[g][k]] == if g == h && k == p + 1 then Below(chains[h], p, gone) else Below(chains[g], k, gone)
  {
    if g == h && k == p + 1 {
      assert next'[chains[h][p + 1]] == next[chains[h][p]];
    }
  }

  lemma UnlinkBelow(chains: seq<Chain>, gone: set<nat>, home: map<nat, nat>, stamp: map<nat, nat>, n: nat,
                    h: nat, p: nat, g: nat, k: nat)
    requires Placed(chains, home, stamp, n) && h < |chains| && p < |chains[h]| && chains[h][p] !in gone
    requires p + 1 < |chains[h]| ==> chains[h][p + 1] !in gone
    requires g < |chains| && k <= |chains[g]|
    ensures Below(chains[g], k, gone + {chains[h][p]})
      == if g == h && k == p + 1 then Below(chains[h], p, gone) else Below(chains[g], k, gone)
  {
    var c, x := chains[g], chains[h][p];
    if g != h || k <= p {
      forall j | 0 <= j < k
        ensures c[j] != x
      {
        assert chains[g][j] in stamp && home[chains[g][j]] == g;
      }
      BelowSame(c, k, gone, x);
    } else if k == p + 1 {
      UnlinkBelow(chains, gone, home, stamp, n, h, p, h, p);
    } else {
      BelowAbove(c, k, gone, p);
    }
  }

  /** An item that is on no chain goes unnoticed. */
  lemma {:induction false} NotThere(hdr: seq<int>, next: seq<int>, chains: seq<Chain>, gone: set<nat>, x: nat)
    requires Forward(hdr, next, chains, gone) && !OnChain(chains, x)
    ensures Forward(hdr, next, chains, gone + {x})
  {
    forall g, k | 0 <= g < |chains| && 0 <= k <= |chains[g]|
      ensures Below(chains[g], k, gone + {x}) == Below(chains[g], k, gone)
    {
      forall j | 0 <= j < k
        ensures chains[g][j] != x
      {
      }
      BelowSame(chains[g], k, gone, x);
    }
  }

  // ---- What is left of the chains -----------------------------------------------------------

  /** The first k items of a chain without those that have gone. */
  function Rest(c: Chain, k: nat, gone: set<nat>): (r: Chain)
    requires k <= |c|
    ensures |r| <= k
  {
    if k == 0 then [] else if c[k - 1] in gone then Rest(c, k - 1, gone) else Rest(c, k - 1, gone) + [c[k - 1]]
  }

  ghost function Rests(chains: seq<Chain>, gone: set<nat>): (r: seq<Chain>)
    ensures |r| == |chains|
  {
    seq(|chains|, h requires 0 <= h < |chains| => Rest(chains[h], |chains[h]|, gone))
  }

  /** Item j of what is left stood at position p. */
  lemma {:induction false} Origin(c: Chain, k: nat, gone: set<nat>, j: nat) returns (p: nat)
    requires k <= |c| && j < |Rest(c, k, gone)|
    ensures p < k && c[p] !in gone && Rest(c, k, gone)[j] == c[p] && Rest(c, k, gone)[..j] == Rest(c, p, gone)
  {
    var r := Rest(c, k, gone);
    if c[k - 1] !in gone && j == |r| - 1 {
      p := k - 1;
    } else {
      p := Origin(c, k - 1, gone, j);
      assert r[..j] == Rest(c, k - 1, gone)[..j];
    }
  }

  /** And a survivor is found again at the length of what is left below it. */
  lemma {:induction false} Survives(c: Chain, k: nat, gone: set<nat>, p: nat)
    requires p < k <= |c| && c[p] !in gone
    ensures |Rest(c, p, gone)| < |Rest(c, k, gone)| && Rest(c, k, gone)[|Rest(c, p, gone)|] == c[p]
  {
    if p < k - 1 {
      Survives(c, k - 1, gone, p);
    }
  }

  lemma {:induction false} BelowIsLast(c: Chain, k: nat, gone: set<nat>)
    requires k <= |c|
    ensures var r := Rest(c, k, gone); Below(c, k, gone) == if r == [] then NIL else r[|r| - 1]
  {
    if k > 0 && c[k - 1] in gone {
      BelowIsLast(c, k - 1, gone);
    }
  }

  lemma BelowNone(c: Chain, k: nat)
    requires k <= |c|
    ensures Below(c, k, {}) == if k == 0 then NIL else c[k - 1]
  {
  }

  /** Once items have gone, the next pointers run through exactly the survivors, in order. */
  lemma ForwardRest(hdr: seq<int>, next: seq<int>, chains: seq<Chain>, gone: set<nat>)
    requires Forward(hdr, next, chains, gone)
    ensures Forward(hdr, next, Rests(chains, gone), {})
  {
    var rests := Rests(chains, gone);
    forall h | 0 <= h < |rests|
      ensures hdr[h] == Below(rests[h], |rests[h]|, {})
    {
      BelowIsLast(chains[h], |chains[h]|, gone);
      BelowNone(rests[h], |rests[h]|);
    }
    forall h, j | 0 <= h < |rests| && 0 <= j < |rests[h]|
      ensures rests[h][j] < |next| && next[rests[h][j]] == Below(rests[h], j, {})
    {
      var p := Origin(chains[h], |chains[h]|, gone, j);
      BelowIsLast(chains[h], p, gone);
      BelowNone(rests[h], j);
      assert chains[h][p] !in gone;
      assert j > 0 ==> rests[h][j - 1] == rests[h][..j][j - 1];
    }
  }

  /** No survivor stands right below one that has gone: in every chain the gone are the oldest. */
  ghost predicate GoneAreOldest(chains: seq<Chain>, gone: set<nat>) {
    forall h, k | 0 <= h < |chains| && 0 <= k < |chains[h]| && chains[h][k] !in gone ::
      SurvivorAbove(chains[h], k, gone)
  }

  ghost predicate SurvivorAbove(c: Chain, k: nat, gone: set<nat>) {
    0 <= k && (k + 1 < |c| ==> c[k + 1] !in gone)
  }

  /** unselect writes no back pointer. The ones left are right exactly when, in every chain, the
      items it took out were the oldest. */
  lemma BackRest(prev: seq<Slot>, chains: seq<Chain>, gone: set<nat>)
    requires Back(prev, chains)
    ensures Back(prev, Rests(chains, gone)) <==> GoneAreOldest(chains, gone)
  {
    var rests := Rests(chains, gone);
    if GoneAreOldest(chains, gone) {
      forall h, j | 0 <= h < |rests| && 0 <= j < |rests[h]|
        ensures rests[h][j] < |prev| && prev[rests[h][j]] == BackSlot(rests[h], h, j)
      {
        BackKept(prev, chains, gone, h, j);
      }
    } else {
      var h, k :| 0 <= h < |chains| && 0 <= k < |chains[h]|
                  && chains[h][k] !in gone && !SurvivorAbove(chains[h], k, gone);
      BackLost(prev, chains, gone, h, k);
    }
  }

  lemma BackKept(prev: seq<Slot>, chains: seq<Chain>, gone: set<nat>, h: nat, j: nat)
    requires Back(prev, chains) && GoneAreOldest(chains, gone)
    requires h < |chains| && j < |Rests(chains, gone)[h]|
    ensures var r := Rests(chains, gone)[h]; r[j] < |prev| && prev[r[j]] == BackSlot(r, h, j)
  {
    var c := chains[h];
    var r := Rest(c, |c|, gone);
    var p := Origin(c, |c|, gone, j);
    assert c[p] !in gone && SurvivorAbove(c, p, gone);
    if p + 1 < |c| {
      Survives(c, |c|, gone, p + 1);
      assert Rest(c, p + 1, gone) == Rest(c, p, gone) + [c[p]];
    } else {
      assert r == Rest(c, p, gone) + [c[p]];
    }
  }

  lemma BackLost(prev: seq<Slot>, chains: seq<Chain>, gone: set<nat>, h: nat, k: nat)
    requires Back(prev, chains) && h < |chains| && k + 1 < |chains[h]|
    requires chains[h][k] !in gone && chains[h][k + 1] in gone
    ensures !Back(prev, Rests(chains, gone))
  {
    var c := chains[h];
    var r := Rest(c, |c|, gone);
    Survives(c, |c|, gone, k);
    var j := |Rest(c, k, gone)|;
    assert Rests(chains, gone)[h] == r && prev[r[j]] == Next(c[k + 1]);
    if j + 1 < |r| {
      var p := Origin(c, |c|, gone, j + 1);
    }
    assert prev[r[j]] != BackSlot(r, h, j);
  }

  // ---- Select buffers and the three operations ----------------------------------------------

  /** The items a select buffer has entered, oldest first, are known by their stamps; each is on a
      chain or has been passed by a wakeup, which points its back pointer at itself. */
  ghost predicate ItemsOk(items: seq<seq<nat>>, owner: seq<nat>, prev: seq<Slot>, chains: seq<Chain>, stamp: map<nat,
                          nat>) {
    && |owner| == |prev|
    && (forall b, j | 0 <= b < |items| && 0 <= j < |items[b]| ::
          ItemOk(items[b][j], b, owner, prev, chains, stamp))
    && (forall b, i, j | 0 <= b < |items| && 0 <= i < j < |items[b]| ::
          items[b][i] in stamp && items[b][j] in stamp && stamp[items[b][i]] < stamp[items[b][j]])
  }

  ghost predicate ItemOk(si: nat, b: nat, owner: seq<nat>, prev: seq<Slot>, chains: seq<Chain>, stamp: map<nat, nat>)
    requires |owner| == |prev|
  {
    && si < |owner| && owner[si] == b && si in stamp
    && (OnChain(chains, si) || prev[si] == Next(si))
  }

  /** Every item on a chain belongs to its owner. */
  ghost predicate Owned(chains: seq<Chain>, owner: seq<nat>, items: seq<seq<nat>>) {
    forall h, k | 0 <= h < |chains| && 0 <= k < |chains[h]| :: OwnedItem(chains[h][k], owner, items)
  }

  ghost predicate OwnedItem(si: nat, owner: seq<nat>, items: seq<seq<nat>>) {
    si < |owner| && owner[si] < |items| && si in items[owner[si]]
  }

  ghost predicate StampsBelow(stamp: map<nat, nat>, time: nat) {
    forall si <- stamp :: stamp[si] < time
  }

  function Push(chains: seq<Chain>, h: nat, si: nat): seq<Chain>
    requires h < |chains|
  {
    chains[h := chains[h] + [si]]
  }

  /** The back pointers after a push: the old head's, if any, and the new item's. */
  function Repointed(prev: seq<Slot>, old_head: int, h: nat, si: nat): seq<Slot>
    requires si < |prev| && old_head < |prev|
  {
    (if 0 <= old_head then prev[old_head := Next(si)] else prev)[si := Head(h)]
  }

  lemma {:induction false} EnterForward(hdr: seq<int>, next: seq<int>, chains: seq<Chain>, h: nat, si: nat)
    requires Forward(hdr, next, chains, {}) && h < |chains| && si < |next| && !OnChain(chains, si)
    ensures Forward(hdr[h := si], next[si := hdr[h]], Push(chains, h, si), {})
  {
    var after := Push(chains, h, si);
    forall g | 0 <= g < |after|
      ensures hdr[h := si][g] == Below(after[g], |after[g]|, {})
    {
    }
    forall g, k | 0 <= g < |after| && 0 <= k < |after[g]|
      ensures after[g][k] < |next| && next[si := hdr[h]][after[g][k]] == Below(after[g], k, {})
    {
      BelowNone(after[g], k);
      if g == h && k == |chains[h]| {
        BelowNone(chains[h], k);
      } else {
        assert chains[g][k] == after[g][k] != si && chains[g][k] !in {};
        BelowNone(chains[g], k);
      }
    }
  }

  lemma EnterBack(next: seq<int>, prev: seq<Slot>, hdr: seq<int>, chains: seq<Chain>, h: nat, si: nat, home: map<nat,
                  nat>, stamp: map<nat, nat>)
    requires Forward(hdr, next, chains, {}) && Back(prev, chains) && Placed(chains, home, stamp, |next|)
    requires |prev| == |next| && h < |chains| && si < |next| && !OnChain(chains, si)
    ensures hdr[h] < |prev| && Back(Repointed(prev, hdr[h], h, si), Push(chains, h, si))
  {
    BelowNone(chains[h], |chains[h]|);
    forall g, k | 0 <= g < |chains| && 0 <= k < |Push(chains, h, si)[g]|
      ensures var c := Push(chains, h, si)[g];
              c[k] < |prev| && Repointed(prev, hdr[h], h, si)[c[k]] == BackSlot(c, g, k)
    {
      EnterBackAt(prev, hdr[h], chains, h, si, home, stamp, g, k);
    }
  }

  lemma EnterBackAt(prev: seq<Slot>, old_head: int, chains: seq<Chain>, h: nat, si: nat,
                    home: map<nat, nat>, stamp: map<nat, nat>, g: nat, k: nat)
    requires Back(prev, chains) && Placed(chains, home, stamp, |prev|)
    requires h < |chains| && si < |prev| && !OnChain(chains, si)
    requires old_head < |prev| && old_head == if chains[h] == [] then NIL else chains[h][|chains[h]| - 1]
    requires g < |chains| && k < |Push(chains, h, si)[g]|
    ensures var c := Push(chains, h, si)[g];
            c[k] < |prev| && Repointed(prev, old_head, h, si)[c[k]] == BackSlot(c, g, k)
  {
    var c := chains[h];
    if !(g == h && k == |c|) {
      assert chains[g][k] == Push(chains, h, si)[g][k] != si;
      if |c| > 0 && chains[g][k] == c[|c| - 1] {
        SamePlace(chains, home, stamp, |prev|, h, |c| - 1, g, k);
      }
    }
  }

  lemma EnterPlaced(chains: seq<Chain>, home: map<nat, nat>, stamp: map<nat, nat>, time: nat, n: nat, h: nat, si: nat)
    requires Placed(chains, home, stamp, n) && StampsBelow(stamp, time)
    requires h < |chains| && si < n && !OnChain(chains, si)
    ensures Placed(Push(chains, h, si), home[si := h], stamp[si := time], n)
    ensures StampsBelow(stamp[si := time], time + 1)
  {
  }

  lemma EnterItems(prev: seq<Slot>, owner: seq<nat>, items: seq<seq<nat>>, chains: seq<Chain>, stamp: map<nat, nat>,
                   time: nat, old_head: int, b: nat, h: nat, si: nat)
    requires ItemsOk(items, owner, prev, chains, stamp) && StampsBelow(stamp, time)
    requires b < |items| && h < |chains| && si < |owner| && old_head < |prev|
    requires forall c | 0 <= c < |items| :: si !in items[c]
    requires 0 <= old_head ==> OnChain(chains, old_head)
    ensures ItemsOk(items[b := items[b] + [si]], owner[si := b], Repointed(prev, old_head, h, si),
                    Push(chains, h, si), stamp[si := time])
  {
    var after, prev' := items[b := items[b] + [si]], Repointed(prev, old_head, h, si);
    var owner', stamp' := owner[si := b], stamp[si := time];
    forall c, j | 0 <= c < |after| && 0 <= j < |after[c]|
      ensures ItemOk(after[c][j], c, owner', prev', Push(chains, h, si), stamp')
    {
      var x := after[c][j];
      if c == b && j == |items[b]| {
        assert Push(chains, h, si)[h][|chains[h]|] == si;
      } else {
        assert x == items[c][j] != si && ItemOk(items[c][j], c, owner, prev, chains, stamp);
        if OnChain(chains, x) {
          PushKeeps(chains, h, si, x);
        }
      }
    }
  }

  lemma PushKeeps(chains: seq<Chain>, h: nat, si: nat, x: nat)
    requires h < |chains| && OnChain(chains, x)
    ensures OnChain(Push(chains, h, si), x)
  {
    var g, k :| 0 <= g < |chains| && 0 <= k < |chains[g]| && chains[g][k] == x;
    assert Push(chains, h, si)[g][k] == x;
  }

  lemma EnterOwned(chains: seq<Chain>, owner: seq<nat>, items: seq<seq<nat>>, h: nat, b: nat, si: nat)
    requires Owned(chains, owner, items) && h < |chains| && b < |items| && si < |owner| && !OnChain(chains, si)
    ensures Owned(Push(chains, h, si), owner[si := b], items[b := items[b] + [si]])
  {
  }

  datatype Memory = Memory(
    hdr: seq<int>,            // the select heads of the socket buffers
    next: seq<int>,           // si_next of every item
    prev: seq<Slot>,          // si_prev
    owner: seq<nat>,          // si_selbuf
    items: seq<seq<nat>>,     // s_item[0 .. s_count - 1] of every select buffer
    state: seq<SbState>)      // s_state

  datatype View = View(chains: seq<Chain>, home: map<nat, nat>, stamp: map<nat, nat>, time: nat)

  ghost predicate Linked(m: Memory, v: View) {
    && Forward(m.hdr, m.next, v.chains, {}) && Placed(v.chains, v.home, v.stamp, |m.next|)
    && |m.prev| == |m.owner| == |m.next| && |m.state| == |m.items|
    && Owned(v.chains, m.owner, m.items) && StampsBelow(v.stamp, v.time)
  }

  ghost predicate WellFormed(m: Memory, v: View) {
    Linked(m, v) && Back(m.prev, v.chains) && ItemsOk(m.items, m.owner, m.prev, v.chains, v.stamp)
  }

  /** selenter's four assignments, and the count. */
  function Entered(m: Memory, b: nat, h: nat, si: nat): Memory
    requires b < |m.items| && h < |m.hdr| && si < |m.next| == |m.prev| == |m.owner| && m.hdr[h] < |m.prev|
  {
    m.(hdr := m.hdr[h := si], next := m.next[si := m.hdr[h]], prev := Repointed(m.prev, m.hdr[h], h, si),
       owner := m.owner[si := b], items := m.items[b := m.items[b] + [si]])
  }

  ghost function EnteredView(v: View, h: nat, si: nat): View
    requires h < |v.chains|
  {
    View(Push(v.chains, h, si), v.home[si := h], v.stamp[si := v.time], v.time + 1)
  }

  lemma EnterOk(m: Memory, v: View, b: nat, h: nat, si: nat)
    requires WellFormed(m, v) && b < |m.items| && h < |m.hdr| && si < |m.next|
    requires !OnChain(v.chains, si) && forall c | 0 <= c < |m.items| :: si !in m.items[c]
    ensures m.hdr[h] < |m.prev| && WellFormed(Entered(m, b, h, si), EnteredView(v, h, si))
  {
    EnterForward(m.hdr, m.next, v.chains, h, si);
    EnterBack(m.next, m.prev, m.hdr, v.chains, h, si, v.home, v.stamp);
    EnterPlaced(v.chains, v.home, v.stamp, v.time, |m.next|, h, si);
    HeadOnChain(m.hdr, m.next, v.chains, h);
    EnterItems(m.prev, m.owner, m.items, v.chains, v.stamp, v.time, m.hdr[h], b, h, si);
    EnterOwned(v.chains, m.owner, m.items, h, b, si);
  }

  lemma HeadOnChain(hdr: seq<int>, next: seq<int>, chains: seq<Chain>, h: nat)
    requires Forward(hdr, next, chains, {}) && h < |chains|
    ensures hdr[h] == NIL || (0 <= hdr[h] && OnChain(chains, hdr[h]))
  {
    BelowNone(chains[h], |chains[h]|);
  }

  // ---- What following the pointers gives ----------------------------------------------------

  /** From x, the next pointers lead through xs, in order, and end in NIL. */
  ghost predicate Runs(next: seq<int>, x: int, xs: seq<nat>)
    decreases |xs|
  {
    if xs == [] then x == -1 else x == xs[0] && xs[0] < |next| && Runs(next, next[xs[0]], xs[1..])
  }

  lemma {:induction false} RunsOneWay(next: seq<int>, x: int, xs: seq<nat>, ys: seq<nat>)
    requires Runs(next, x, xs) && Runs(next, x, ys)
    ensures xs == ys
    decreases |xs|
  {
    if xs != [] {
      RunsOneWay(next, next[xs[0]], xs[1..], ys[1..]);
      assert xs == [xs[0]] + xs[1..] && ys == [ys[0]] + ys[1..];
    }
  }

  /** The first k items of a chain, newest first. */
  ghost function Newest(c: Chain, k: nat): (xs: seq<nat>)
    requires k <= |c|
    ensures |xs| == k && forall i | 0 <= i < k :: xs[i] == c[k - 1 - i]
  {
    if k == 0 then [] else [c[k - 1]] + Newest(c, k - 1)
  }

  lemma {:induction false} NewestRuns(next: seq<int>, c: Chain, k: nat)
    requires k <= |c| && forall j | 0 <= j < k :: c[j] < |next| && next[c[j]] == Below(c, j, {})
    ensures Runs(next, Below(c, k, {}), Newest(c, k))
  {
    if k > 0 {
      NewestRuns(next, c, k - 1);
      BelowNone(c, k);
      assert Newest(c, k)[1..] == Newest(c, k - 1);
    }
  }

  /** What a head leads to is its chain, newest item first, and nothing else. */
  lemma ChainRuns(hdr: seq<int>, next: seq<int>, chains: seq<Chain>, h: nat)
    requires Forward(hdr, next, chains, {}) && h < |chains|
    ensures Runs(next, hdr[h], Newest(chains[h], |chains[h]|))
    ensures forall xs | Runs(next, hdr[h], xs) :: xs == Newest(chains[h], |chains[h]|)
  {
    var c := chains[h];
    forall j | 0 <= j < |c|
      ensures c[j] < |next| && next[c[j]] == Below(c, j, {})
    {
      assert chains[h][j] !in {};
    }
    NewestRuns(next, c, |c|);
    forall xs | Runs(next, hdr[h], xs)
      ensures xs == Newest(c, |c|)
    {
      RunsOneWay(next, hdr[h], xs, Newest(c, |c|));
    }
  }

  /** Item i of a list is left on it after bs have gone and then cs: it is one of neither, or one of cs that
      stood right behind one of bs. */
  ghost predicate Stays(xs: seq<nat>, i: nat, bs: seq<nat>, cs: seq<nat>)
    requires i < |xs|
  {
    xs[i] !in bs && (xs[i] in cs ==> 0 < i && xs[i - 1] in bs)
  }

  ghost function Staying(xs: seq<nat>, i: nat, bs: seq<nat>, cs: seq<nat>): seq<nat>
    requires i <= |xs|
    decreases |xs| - i
  {
    if i == |xs| then []
    else (if Stays(xs, i, bs, cs) then [xs[i]] else []) + Staying(xs, i + 1, bs, cs)
  }

  lemma {:induction false} NewestSame(c: Chain, d: Chain, k: nat)
    requires k <= |c| <= |d| && c <= d
    ensures Newest(d, k) == Newest(c, k)
  {
    if k > 0 {
      NewestSame(c, d, k - 1);
    }
  }

  lemma NewestSnoc(c: Chain, x: nat)
    ensures Newest(c + [x], |c| + 1) == [x] + Newest(c, |c|)
  {
    NewestSame(c, c + [x], |c|);
  }

  /** Of the chain c, listed as xs, those that do not stay are in left. */
  ghost predicate Leave(c: Chain, xs: seq<nat>, left: set<nat>, bs: seq<nat>, cs: seq<nat>) {
    && |xs| == |c|
    && forall i | 0 <= i < |xs| :: xs[i] == c[|c| - 1 - i] && (xs[i] in left <==> !Stays(xs, i, bs, cs))
  }

  lemma {:induction false} RestStays(c: Chain, k: nat, xs: seq<nat>, left: set<nat>, bs: seq<nat>, cs: seq<nat>)
    requires k <= |c| && Leave(c, xs, left, bs, cs)
    ensures var r := Rest(c, k, left); Newest(r, |r|) == Staying(xs, |c| - k, bs, cs)
  {
    if k > 0 {
      RestStays(c, k - 1, xs, left, bs, cs);
      var i := |c| - k;
      assert xs[i] == c[k - 1] && (xs[i] in left <==> !Stays(xs, i, bs, cs));
      RestStep(c, k, left);
    }
  }

  lemma RestStep(c: Chain, k: nat, left: set<nat>)
    requires 0 < k <= |c|
    ensures var q, r := Rest(c, k - 1, left), Rest(c, k, left);
            Newest(r, |r|) == (if c[k - 1] in left then [] else [c[k - 1]]) + Newest(q, |q|)
  {
    NewestSnoc(Rest(c, k - 1, left), c[k - 1]);
  }

  /** After unselects of bs and then cs, following the pointers of a head gives what stays of its list. */
  lemma StayingRuns(hdr: seq<int>, next: seq<int>, v: View, n: nat, bs: seq<nat>, cs: seq<nat>, h: nat)
    requires Placed(v.chains, v.home, v.stamp, n) && h < |v.chains|
    requires Forward(hdr, next, Rests(v.chains, Left(v, Firsts(bs, |bs|), cs, |cs|)), {})
    ensures Runs(next, hdr[h], Staying(Newest(v.chains[h], |v.chains[h]|), 0, bs, cs))
  {
    var gone := Firsts(bs, |bs|);
    var left, c := Left(v, gone, cs, |cs|), v.chains[h];
    assert bs[..|bs|] == bs && cs[..|cs|] == cs;
    var xs := Newest(c, |c|);
    forall i | 0 <= i < |xs|
      ensures xs[i] == c[|c| - 1 - i] && (xs[i] in left <==> !Stays(xs, i, bs, cs))
    {
      StuckAt(v, n, gone, h, |c| - 1 - i);
    }
    RestStays(c, |c|, xs, left, bs, cs);
    ChainRuns(hdr, next, Rests(v.chains, left), h);
  }

  /** The lists that the heads lead to, before and after: what was xs is F of it. */
  lemma UnselectLists(m: Memory, v: View, hdr: seq<int>, next: seq<int>, bs: seq<nat>, cs: seq<nat>)
    requires Forward(m.hdr, m.next, v.chains, {}) && Placed(v.chains, v.home, v.stamp, |m.next|)
    requires Forward(hdr, next, Rests(v.chains, Left(v, Firsts(bs, |bs|), cs, |cs|)), {})
    ensures |hdr| == |m.hdr|
    ensures forall h, xs | 0 <= h < |m.hdr| && Runs(m.next, m.hdr[h], xs) :: Runs(next, hdr[h], Staying(xs, 0, bs, cs))
  {
    forall h, xs | 0 <= h < |m.hdr| && Runs(m.next, m.hdr[h], xs)
      ensures Runs(next, hdr[h], Staying(xs, 0, bs, cs))
    {
      ChainRuns(m.hdr, m.next, v.chains, h);
      StayingRuns(hdr, next, v, |m.next|, bs, cs, h);
    }
  }

  lemma TakenOut(m: Memory, v: View, b: nat, m': Memory, v': View)
    requires Linked(m, v) && Unselects(m, v, b, m', v')
    ensures |m'.hdr| == |m.hdr|
    ensures forall h, xs | 0 <= h < |m.hdr| && Runs(m.next, m.hdr[h], xs) ::
              Runs(m'.next, m'.hdr[h], Staying(xs, 0, m.items[b], []))
  {
    var bs := m.items[b];
    assert Left(v, Firsts(bs, |bs|), [], 0) == Firsts(bs, |bs|);
    UnselectLists(m, v, m'.hdr, m'.next, bs, []);
  }

  /** A push puts the item in front of one list, and no other list changes. */
  lemma EnterLists(m: Memory, v: View, hdr: seq<int>, next: seq<int>, h: nat, si: nat)
    requires Forward(m.hdr, m.next, v.chains, {}) && h < |m.hdr|
    requires Forward(hdr, next, Push(v.chains, h, si), {})
    ensures |hdr| == |m.hdr|
    ensures forall g, xs | 0 <= g < |m.hdr| && Runs(m.next, m.hdr[g], xs) :: Runs(next, hdr[g], Pushed(xs, g == h, si))
  {
    forall g, xs | 0 <= g < |m.hdr| && Runs(m.next, m.hdr[g], xs)
      ensures Runs(next, hdr[g], Pushed(xs, g == h, si))
    {
      EnterList(m, v, hdr, next, h, si, g, xs);
    }
  }

  function Pushed(xs: seq<nat>, here: bool, si: nat): seq<nat> {
    if here then [si] + xs else xs
  }

  lemma EnterList(m: Memory, v: View, hdr: seq<int>, next: seq<int>, h: nat, si: nat, g: nat, xs: seq<nat>)
    requires Forward(m.hdr, m.next, v.chains, {}) && h < |m.hdr| && g < |m.hdr| && Runs(m.next, m.hdr[g], xs)
    requires Forward(hdr, next, Push(v.chains, h, si), {})
    ensures Runs(next, hdr[g], Pushed(xs, g == h, si))
  {
    var chains := Push(v.chains, h, si);
    ChainRuns(m.hdr, m.next, v.chains, g);
    ChainRuns(hdr, next, chains, g);
    if g == h {
      NewestSnoc(v.chains[h], si);
      assert chains[g] == v.chains[h] + [si];
    } else {
      assert chains[g] == v.chains[g];
    }
  }

  /** A wakeup empties one list, and no other list changes. */
  lemma WakeLists(m: Memory, v: View, hdr: seq<int>, h: nat)
    requires Forward(m.hdr, m.next, v.chains, {}) && h < |m.hdr|
    requires Forward(hdr, m.next, v.chains[h := []], {})
    ensures forall g, xs | 0 <= g < |m.hdr| && Runs(m.next, m.hdr[g], xs) ::
              Runs(m.next, hdr[g], if g == h then [] else xs)
  {
    forall g, xs | 0 <= g < |m.hdr| && Runs(m.next, m.hdr[g], xs)
      ensures Runs(m.next, hdr[g], if g == h then [] else xs)
    {
      ChainRuns(m.hdr, m.next, v.chains, g);
      ChainRuns(hdr, m.next, v.chains[h := []], g);
    }
  }

  /** A select buffer has an item among xs. */
  ghost predicate Among(owner: seq<nat>, xs: seq<nat>, b: nat) {
    exists i | 0 <= i < |xs| :: xs[i] < |owner| && owner[xs[i]] == b
  }

  /** Whoever waits on a chain is on the list its head leads to. */
  lemma WaitsOnList(owner: seq<nat>, c: Chain, b: nat)
    ensures Waits(c, owner, b) <==> Among(owner, Newest(c, |c|), b)
  {
    var xs := Newest(c, |c|);
    if Waits(c, owner, b) {
      var k :| 0 <= k < |c| && c[k] < |owner| && owner[c[k]] == b;
      assert xs[|c| - 1 - k] == c[k];
    }
  }

  /** On the list xs of a wakeup: what becomes of each select buffer, and who is woken. */
  ghost predicate WokeList(m: Memory, m': Memory, xs: seq<nat>, woken: seq<nat>) {
    && |m'.state| == |m.state|
    && forall b: nat | b < |m.state| ::
         && m'.state[b] == (if Among(m.owner, xs, b) then SB_CLEAR else m.state[b])
         && (b in woken <==> m.state[b] == SB_WAITING && Among(m.owner, xs, b))
  }

  lemma WakesList(m: Memory, v: View, h: nat, m': Memory, v': View, woken: seq<nat>, xs: seq<nat>)
    requires Forward(m.hdr, m.next, v.chains, {}) && Wakes(m, v, h, m', v', woken) && Runs(m.next, m.hdr[h], xs)
    ensures WokeList(m, m', xs, woken)
  {
    ChainRuns(m.hdr, m.next, v.chains, h);
    forall b: nat
      ensures Waits(v.chains[h], m.owner, b) <==> Among(m.owner, xs, b)
    {
      WaitsOnList(m.owner, v.chains[h], b);
    }
  }

  lemma WakesLists(m: Memory, v: View, h: nat, m': Memory, v': View, woken: seq<nat>)
    requires Forward(m.hdr, m.next, v.chains, {}) && Wakes(m, v, h, m', v', woken)
    ensures forall xs | Runs(m.next, m.hdr[h], xs) :: WokeList(m, m', xs, woken)
  {
    forall xs | Runs(m.next, m.hdr[h], xs)
      ensures WokeList(m, m', xs, woken)
    {
      WakesList(m, v, h, m', v', woken, xs);
    }
  }

  /** Memory with a head emptied, and back pointers and states as the scan of its chain left them. */
  function Awake(m: Memory, h: nat, prev: seq<Slot>, state: seq<SbState>): Memory
    requires h < |m.hdr|
  {
    m.(hdr := m.hdr[h := NIL], prev := prev, state := state)
  }

  lemma WakesSo(m: Memory, v: View, h: nat, prev: seq<Slot>, state: seq<SbState>, woken: seq<nat>)
    requires WellFormed(m, v) && h < |m.hdr| && Scanned(m, v.chains[h], prev, state, woken)
    ensures var m', v' := Awake(m, h, prev, state), v.(chains := v.chains[h := []]);
            WellFormed(m', v') && Wakes(m, v, h, m', v', woken)
  {
    WakeOk(m, v, h, prev, state);
  }

  class SelectMemory {
    var mem: Memory
    ghost var view: View

    ghost predicate Valid()
      reads this
    {
      WellFormed(mem, view)
    }

    constructor (heads: nat, cells: nat, buffers: nat)
      ensures Valid() && |mem.hdr| == heads && |mem.next| == cells
      ensures view.chains == seq(heads, _ => []) && mem.items == seq(buffers, _ => [])
    {
      mem := Memory(seq(heads, _ => NIL), seq(cells, _ => NIL), seq(cells, i requires 0 <= i => Next(i)),
                    seq(cells, _ => 0), seq(buffers, _ => []), seq(buffers, _ => SB_CLEAR));
      view := View(seq(heads, _ => []), map[], map[], 0);
    }

    /** selenter, with si = &sb->s_item[sb->s_count++]: memory no list refers to. */
    method SelEnter(b: nat, h: nat, si: nat)
      requires Valid() && b < |mem.items| && h < |mem.hdr| && si < |mem.next|
      requires !OnChain(view.chains, si) && forall c | 0 <= c < |mem.items| :: si !in mem.items[c]
      modifies this
      ensures Valid() && view.chains == Push(old(view.chains), h, si)
      ensures mem == Entered(old(mem), b, h, si)
      ensures forall g, xs | 0 <= g < |old(mem).hdr| && Runs(old(mem).next, old(mem).hdr[g], xs) ::
                Runs(mem.next, mem.hdr[g], Pushed(xs, g == h, si))
    {
      EnterOk(mem, view, b, h, si);
      HeadOnChain(mem.hdr, mem.next, view.chains, h);
      var next := mem.hdr[h];
      var prev := mem.prev;
      if next != NIL {
        prev := prev[next := Next(si)];
      }
      mem := mem.(items := mem.items[b := mem.items[b] + [si]], owner := mem.owner[si := b],
                  next := mem.next[si := next], prev := prev[si := Head(h)], hdr := mem.hdr[h := si]);
      view := EnteredView(view, h, si);
      EnterLists(old(mem), old(view), mem.hdr, mem.next, h, si);
    }
  
    /** selwakeup: every select buffer with an item on the chain is cleared, those waiting are woken
        once each, the items are pointed at themselves and the chain is emptied. */
    method SelWakeup(h: nat) returns (woken: seq<nat>)
      requires Valid() && h < |mem.hdr|
      modifies this
      ensures Valid() && Wakes(old(mem), old(view), h, mem, view, woken) && mem.next == old(mem).next
      ensures forall g, xs | 0 <= g < |old(mem).hdr| && Runs(old(mem).next, old(mem).hdr[g], xs) ::
                Runs(mem.next, mem.hdr[g], if g == h then [] else xs)
      ensures forall xs | Runs(old(mem).next, old(mem).hdr[h], xs) :: WokeList(old(mem), mem, xs, woken)
    {
      woken := WakeAll(h);
      WakeLists(old(mem), old(view), mem.hdr, h);
      WakesLists(old(mem), old(view), h, mem, view, woken);
    }

    /** The scan, and the chain emptied. */
    method WakeAll(h: nat) returns (woken: seq<nat>)
      requires Valid() && h < |mem.hdr|
      modifies this
      ensures Valid() && Wakes(old(mem), old(view), h, mem, view, woken) && mem.next == old(mem).next
    {
      var m, prev, state := mem, [], [];
      ChainThreads(m, view, h);
      prev, state, woken := WakeChain(m, view.chains[h], h);
      WakesSo(m, view, h, prev, state, woken);
      mem := Awake(m, h, prev, state);
      view := view.(chains := view.chains[h := []]);
    }

    /** unselect, in the order of entry, after which the caller starts its items afresh. Every list keeps
        exactly the other buffers' items, in order; the back pointers that are left are right if and only
        if the items taken out were the oldest of their chains. */
    method Unselect(b: nat)
      requires Valid() && b < |mem.items|
      modifies this
      ensures Unselects(old(mem), old(view), b, mem, view) && |mem.hdr| == |old(mem).hdr|
      ensures forall h, xs | 0 <= h < |old(mem).hdr| && Runs(old(mem).next, old(mem).hdr[h], xs) ::
                Runs(mem.next, mem.hdr[h], Staying(xs, 0, old(mem).items[b], []))
    {
      TakeOut(b);
      TakenOut(old(mem), old(view), b, mem, view);
    }

    /** The loop of it, on the chains as a whole. */
    method TakeOut(b: nat)
      requires Valid() && b < |mem.items|
      modifies this
      ensures Unselects(old(mem), old(view), b, mem, view)
    {
      ghost var gone := Firsts(mem.items[b], |mem.items[b]|);
      WellFormedIsTorn(mem, view, b);
      var m := UnselectAll(mem, view, {}, b);
      ForwardRest(m.hdr, m.next, view.chains, gone);
      PlacedRest(view.chains, view.home, view.stamp, |mem.next|, gone);
      OwnedRest(mem, view, b);
      ItemsRest(mem, view, b);
      BackRest(mem.prev, view.chains, gone);
      mem := m.(items := m.items[b := []]);
      view := view.(chains := Rests(view.chains, gone));
    }

    /** Two unselects in a row, b's and then c's. c's leaves one of its own items on a chain exactly if the
        item right above it was one of b's: the head then still leads to memory that c's caller is
        about to use afresh. */
    method UnselectTwo(b: nat, c: nat)
      requires Valid() && b < |mem.items| && c < |mem.items| && b != c
      modifies this
      ensures mem.items == old(mem).items[b := []][c := []] && mem.prev == old(mem).prev
      ensures var gone := Firsts(old(mem).items[b], |old(mem).items[b]|); var xs := old(mem).items[c];
              && Forward(mem.hdr, mem.next, view.chains, {})
              && view == old(view).(chains := Rests(old(view).chains, Left(old(view), gone, xs, |xs|)))
              && forall x <- xs :: OnChain(view.chains, x) <==> Stuck(old(view), gone, x)
      ensures |mem.hdr| == |old(mem).hdr|
      ensures forall h, xs | 0 <= h < |old(mem).hdr| && Runs(old(mem).next, old(mem).hdr[h], xs) ::
                Runs(mem.next, mem.hdr[h], Staying(xs, 0, old(mem).items[b], old(mem).items[c]))
    {
      ghost var gone := Firsts(mem.items[b], |mem.items[b]|);
      WellFormedIsTorn(mem, view, b);
      var m := UnselectAll(mem, view, {}, b);
      TornAfter(mem, m, view, b);
      m := m.(items := m.items[b := []]);
      var m2 := UnselectAll(m, view, gone, c);
      ghost var left := Left(view, gone, m.items[c], |m.items[c]|);
      ForwardRest(m2.hdr, m2.next, view.chains, left);
      StuckStay(m, view, gone, c);
      mem := m2.(items := m2.items[c := []]);
      view := view.(chains := Rests(view.chains, left));
      UnselectLists(old(mem), old(view), mem.hdr, mem.next, old(mem).items[b], old(mem).items[c]);
    }
  }

  /** One pass of unselect's loop: through the back pointer, whatever it points at. */
  function Unchained(m: Memory, si: nat): Memory
    requires si < |m.prev| == |m.next|
  {
    match m.prev[si]
    case Head(h) => if h < |m.hdr| then m.(hdr := m.hdr[h := m.next[si]]) else m
    case Next(p) => if p < |m.next| then m.(next := m.next[p := m.next[si]]) else m
  }

  /** Where unselect stands after its first items: the next pointers of the survivors skip them. */
  ghost predicate Unselecting(m0: Memory, m: Memory, v: View, gone: set<nat>) {
    && m == m0.(hdr := m.hdr, next := m.next) && |m.next| == |m0.next|
    && Forward(m.hdr, m.next, v.chains, gone)
  }

  ghost function Firsts(xs: seq<nat>, i: nat): set<nat>
    requires i <= |xs|
  {
    set x | x in xs[..i]
  }

  /** The item right above x on its chain has gone: x's back pointer is left at that item's next. */
  ghost predicate Stuck(v: View, gone: set<nat>, x: nat) {
    exists h, k | 0 <= h < |v.chains| && 0 <= k < |v.chains[h]| ::
      v.chains[h][k] == x && !SurvivorAbove(v.chains[h], k, gone)
  }

  /** What has gone once the first i items of a buffer have been taken out after others had gone: of
      those that are on a chain, all but the stuck ones. */
  ghost function Left(v: View, gone: set<nat>, xs: seq<nat>, i: nat): set<nat>
    requires i <= |xs|
  {
    gone + set x | x in xs[..i] && !Stuck(v, gone, x)
  }

  /** Memory as unselects leave it: v is the view from before, gone the items they have taken out. The
      next pointers skip those; the back pointers still are what they were. */
  ghost predicate Torn(m: Memory, v: View, gone: set<nat>) {
    && Forward(m.hdr, m.next, v.chains, gone) && Placed(v.chains, v.home, v.stamp, |m.next|)
    && |m.prev| == |m.owner| == |m.next|
    && Back(m.prev, v.chains) && ItemsOk(m.items, m.owner, m.prev, v.chains, v.stamp)
    && forall b, i | 0 <= b < |m.items| && 0 <= i < |m.items[b]| :: m.items[b][i] !in gone
  }

  /** Item i of the select buffer is on a chain, and neither it nor another item of the buffer above it
      has gone yet, since those were entered later; then it goes, unless it is stuck, when only the
      next pointer of a departed item is written. Or a wakeup passed it, and nothing happens. */
  lemma UnselectStep(m0: Memory, m: Memory, v: View, gone: set<nat>, b: nat, i: nat)
    requires Torn(m0, v, gone) && b < |m0.items| && i < |m0.items[b]|
    requires Unselecting(m0, m, v, Left(v, gone, m0.items[b], i))
    ensures m0.items[b][i] < |m.prev| == |m.next|
    ensures Unselecting(m0, Unchained(m, m0.items[b][i]), v, Left(v, gone, m0.items[b], i + 1))
  {
    var si, left := m0.items[b][i], Left(v, gone, m0.items[b], i);
    assert ItemOk(si, b, m0.owner, m0.prev, v.chains, v.stamp);
    LeftNext(v, gone, m0.items[b], i);
    if OnChain(v.chains, si) {
      var h, k :| 0 <= h < |v.chains| && 0 <= k < |v.chains[h]| && v.chains[h][k] == si;
      StuckAt(v, |m0.next|, gone, h, k);
      if SurvivorAbove(v.chains[h], k, gone) {
        UnselectFree(m0, m, v, gone, b, i, h, k);
      } else {
        UnselectStuck(m0, m, v, gone, left, h, k);
      }
    } else {
      NotThere(m.hdr, m.next, v.chains, left, si);
    }
  }

  lemma UnselectStuck(m0: Memory, m: Memory, v: View, gone: set<nat>, left: set<nat>, h: nat, k: nat)
    requires Torn(m0, v, gone) && gone <= left && Unselecting(m0, m, v, left)
    requires h < |v.chains| && k < |v.chains[h]| && !SurvivorAbove(v.chains[h], k, gone)
    ensures v.chains[h][k] < |m.prev| == |m.next| && Unselecting(m0, Unchained(m, v.chains[h][k]), v, left)
  {
    assert m0.prev[v.chains[h][k]] == BackSlot(v.chains[h], h, k);
    WritesGone(m, v, left, v.chains[h][k], v.chains[h][k + 1]);
  }

  lemma UnselectFree(m0: Memory, m: Memory, v: View, gone: set<nat>, b: nat, i: nat, h: nat, k: nat)
    requires Torn(m0, v, gone) && b < |m0.items| && i < |m0.items[b]|
    requires Unselecting(m0, m, v, Left(v, gone, m0.items[b], i))
    requires h < |v.chains| && k < |v.chains[h]| && v.chains[h][k] == m0.items[b][i]
    requires SurvivorAbove(v.chains[h], k, gone)
    ensures v.chains[h][k] < |m.prev|
    ensures Unselecting(m0, Unchained(m, v.chains[h][k]), v, Left(v, gone, m0.items[b], i) + {v.chains[h][k]})
  {
    var si, left := m0.items[b][i], Left(v, gone, m0.items[b], i);
    assert ItemOk(si, b, m0.owner, m0.prev, v.chains, v.stamp);
    NotGoneYet(m0, v, gone, b, i, si);
    assert m0.prev[v.chains[h][k]] == BackSlot(v.chains[h], h, k);
    if k + 1 < |v.chains[h]| {
      NotGoneYet(m0, v, gone, b, i, v.chains[h][k + 1]);
    }
    var u := Unchained(m, si);
    UnlinksBy(m, v, h, k);
    Unlink(m.hdr, m.next, v.chains, left, u.hdr, u.next, v.home, v.stamp, |m.next|, h, k);
  }

  lemma LeftNext(v: View, gone: set<nat>, xs: seq<nat>, i: nat)
    requires i < |xs|
    ensures var left := Left(v, gone, xs, i);
            Left(v, gone, xs, i + 1) == if Stuck(v, gone, xs[i]) then left else left + {xs[i]}
  {
    assert xs[..i + 1] == xs[..i] + [xs[i]];
  }

  lemma StuckAt(v: View, n: nat, gone: set<nat>, h: nat, k: nat)
    requires Placed(v.chains, v.home, v.stamp, n) && h < |v.chains| && k < |v.chains[h]|
    ensures Stuck(v, gone, v.chains[h][k]) <==> !SurvivorAbove(v.chains[h], k, gone)
  {
    if Stuck(v, gone, v.chains[h][k]) {
      var g, j :| 0 <= g < |v.chains| && 0 <= j < |v.chains[g]|
                  && v.chains[g][j] == v.chains[h][k] && !SurvivorAbove(v.chains[g], j, gone);
      SamePlace(v.chains, v.home, v.stamp, n, h, k, g, j);
    }
  }

  /** Through a back pointer that was left at a departed item, nothing on a chain is written. */
  lemma WritesGone(m: Memory, v: View, left: set<nat>, si: nat, y: nat)
    requires Forward(m.hdr, m.next, v.chains, left) && si < |m.prev| == |m.next|
    requires m.prev[si] == Next(y) && y in left
    ensures var u := Unchained(m, si);
            u == m.(next := u.next) && |u.next| == |m.next| && Forward(u.hdr, u.next, v.chains, left)
  {
  }

  lemma UnlinksBy(m: Memory, v: View, h: nat, k: nat)
    requires |m.prev| == |m.next| && |m.hdr| == |v.chains| && Placed(v.chains, v.home, v.stamp, |m.next|)
    requires h < |v.chains| && k < |v.chains[h]|
    requires v.chains[h][k] < |m.next| && m.prev[v.chains[h][k]] == BackSlot(v.chains[h], h, k)
    ensures var u := Unchained(m, v.chains[h][k]); Unlinks(m.hdr, m.next, v.chains, h, k, u.hdr, u.next)
    ensures var u := Unchained(m, v.chains[h][k]); u == m.(hdr := u.hdr, next := u.next) && |u.next| == |m.next|
  {
    if k + 1 < |v.chains[h]| {
      assert v.chains[h][k + 1] < |m.next|;
    }
  }

  /** What was entered no earlier than item i has not gone with the first i. */
  lemma NotGoneYet(m: Memory, v: View, gone: set<nat>, b: nat, i: nat, x: nat)
    requires ItemsOk(m.items, m.owner, m.prev, v.chains, v.stamp) && b < |m.items| && i < |m.items[b]|
    requires m.items[b][i] in v.stamp && x in v.stamp && v.stamp[m.items[b][i]] <= v.stamp[x] && x !in gone
    ensures x !in Left(v, gone, m.items[b], i)
  {
  }

  // What is left stays in place.

  lemma PlacedRest(chains: seq<Chain>, home: map<nat, nat>, stamp: map<nat, nat>, n: nat, gone: set<nat>)
    requires Placed(chains, home, stamp, n)
    ensures Placed(Rests(chains, gone), home, stamp, n)
  {
    var rests := Rests(chains, gone);
    forall h, k | 0 <= h < |rests| && 0 <= k < |rests[h]|
      ensures var si := rests[h][k]; si < n && si in stamp && si in home && home[si] == h
    {
      var p := Origin(chains[h], |chains[h]|, gone, k);
      assert chains[h][p] == rests[h][k];
    }
    forall h, j, k | 0 <= h < |rests| && 0 <= j < k < |rests[h]|
      ensures rests[h][j] in stamp && rests[h][k] in stamp && stamp[rests[h][j]] < stamp[rests[h][k]]
    {
      var c := chains[h];
      var p := Origin(c, |c|, gone, k);
      assert rests[h][j] == rests[h][..k][j] == Rest(c, p, gone)[j];
      var q := Origin(c, p, gone, j);
      assert chains[h][q] == rests[h][j] && chains[h][p] == rests[h][k];
    }
  }

  lemma RestOnChain(chains: seq<Chain>, gone: set<nat>, x: nat)
    ensures OnChain(Rests(chains, gone), x) <==> OnChain(chains, x) && x !in gone
  {
    var rests := Rests(chains, gone);
    if OnChain(rests, x) {
      var h, j :| 0 <= h < |rests| && 0 <= j < |rests[h]| && rests[h][j] == x;
      var p := Origin(chains[h], |chains[h]|, gone, j);
      assert chains[h][p] == x;
    }
    if OnChain(chains, x) && x !in gone {
      var h, k :| 0 <= h < |chains| && 0 <= k < |chains[h]| && chains[h][k] == x;
      Survives(chains[h], |chains[h]|, gone, k);
      assert rests[h][|Rest(chains[h], k, gone)|] == x;
    }
  }

  lemma OwnedRest(m: Memory, v: View, b: nat)
    requires Owned(v.chains, m.owner, m.items) && b < |m.items|
    ensures Owned(Rests(v.chains, Firsts(m.items[b], |m.items[b]|)), m.owner, m.items[b := []])
  {
    var gone := Firsts(m.items[b], |m.items[b]|);
    var rests := Rests(v.chains, gone);
    forall h, k | 0 <= h < |rests| && 0 <= k < |rests[h]|
      ensures OwnedItem(rests[h][k], m.owner, m.items[b := []])
    {
      var p := Origin(v.chains[h], |v.chains[h]|, gone, k);
      assert OwnedItem(v.chains[h][p], m.owner, m.items);
    }
  }

  lemma ItemsRest(m: Memory, v: View, b: nat)
    requires ItemsOk(m.items, m.owner, m.prev, v.chains, v.stamp) && b < |m.items|
    ensures ItemsOk(m.items[b := []], m.owner, m.prev, Rests(v.chains, Firsts(m.items[b], |m.items[b]|)), v.stamp)
  {
    var gone, after := Firsts(m.items[b], |m.items[b]|), m.items[b := []];
    forall c, j | 0 <= c < |after| && 0 <= j < |after[c]|
      ensures ItemOk(after[c][j], c, m.owner, m.prev, Rests(v.chains, gone), v.stamp)
    {
      assert ItemOk(m.items[c][j], c, m.owner, m.prev, v.chains, v.stamp);
      NotOthers(m, v, b, m.items[c][j]);
      RestOnChain(v.chains, gone, m.items[c][j]);
    }
  }

  lemma NotOthers(m: Memory, v: View, b: nat, x: nat)
    requires ItemsOk(m.items, m.owner, m.prev, v.chains, v.stamp) && b < |m.items|
    requires x < |m.owner| && m.owner[x] != b
    ensures x !in Firsts(m.items[b], |m.items[b]|)
  {
    forall j | 0 <= j < |m.items[b]|
      ensures m.items[b][j] != x
    {
      assert ItemOk(m.items[b][j], b, m.owner, m.prev, v.chains, v.stamp);
    }
  }

  /** If every item on the chains has gone, the chains are empty. */
  lemma AllGone(chains: seq<Chain>, gone: set<nat>)
    requires forall h, k | 0 <= h < |chains| && 0 <= k < |chains[h]| :: chains[h][k] in gone
    ensures GoneAreOldest(chains, gone) && forall h | 0 <= h < |chains| :: Rests(chains, gone)[h] == []
  {
    forall h | 0 <= h < |chains|
      ensures Rests(chains, gone)[h] == []
    {
      if Rests(chains, gone)[h] != [] {
        var p := Origin(chains[h], |chains[h]|, gone, 0);
        assert false;
      }
    }
  }

  /** What the scan of the chain c has done. */
  ghost predicate Scanned(m: Memory, c: Chain, prev: seq<Slot>, state: seq<SbState>, woken: seq<nat>) {
    Passed(m.prev, prev, c) && Cleared(m.state, state, m.owner, c) && WokenAre(woken, m.state, m.owner, c)
  }

  /** The next pointers run through c, whose items have owners. */
  ghost predicate Threads(m: Memory, c: Chain) {
    && |m.prev| == |m.owner| == |m.next|
    && forall k | 0 <= k < |c| :: ThreadAt(m, c, k)
  }

  ghost predicate ThreadAt(m: Memory, c: Chain, k: nat)
    requires |m.prev| == |m.owner| == |m.next| && k < |c|
  {
    c[k] < |m.next| && m.owner[c[k]] < |m.state| && m.next[c[k]] == (if k == 0 then NIL else c[k - 1])
  }

  lemma ChainThreads(m: Memory, v: View, h: nat)
    requires WellFormed(m, v) && h < |m.hdr|
    ensures Threads(m, v.chains[h])
    ensures m.hdr[h] == if v.chains[h] == [] then NIL else v.chains[h][|v.chains[h]| - 1]
  {
    var c := v.chains[h];
    BelowNone(c, |c|);
    forall k | 0 <= k < |c|
      ensures ThreadAt(m, c, k)
    {
      assert v.chains[h][k] !in {} && OwnedItem(v.chains[h][k], m.owner, m.items);
      BelowNone(c, k);
    }
  }

  /** The scan of a chain by selwakeup. */
  method WakeChain(m: Memory, ghost c: Chain, h: nat) returns (prev: seq<Slot>, state: seq<SbState>, woken: seq<nat>)
    requires h < |m.hdr| && Threads(m, c) && m.hdr[h] == if c == [] then NIL else c[|c| - 1]
    ensures Scanned(m, c, prev, state, woken)
  {
    ghost var k: nat, done: Chain := |c|, [];
    var si := m.hdr[h];
    prev, state, woken := m.prev, m.state, [];
    while si != NIL
      invariant k <= |c| && si == (if k == 0 then NIL else c[k - 1]) && done == c[k..]
      invariant Scanned(m, done, prev, state, woken)
      decreases k
    {
      assert ThreadAt(m, c, k - 1);
      TailCons(c, k);
      prev, state, woken := WakeItemOf(m, si, prev, state, woken, done);
      done := [c[k - 1]] + done;
      si, k := m.next[si], k - 1;
    }
    assert done == c;
  }

  /** One item: it is pointed at itself, and its select buffer is cleared, and woken if it waits. */
  method WakeItemOf(m: Memory, si: nat, prev0: seq<Slot>, state0: seq<SbState>, woken0: seq<nat>, ghost c: Chain)
    returns (prev: seq<Slot>, state: seq<SbState>, woken: seq<nat>)
    requires |m.prev| == |m.owner| && si < |m.prev| && m.owner[si] < |m.state|
    requires Scanned(m, c, prev0, state0, woken0)
    ensures Scanned(m, [si] + c, prev, state, woken)
  {
    prev, state, woken := prev0, state0, woken0;
    PassedMore(m.prev, prev, c, si);
    ClearedMore(m.state, state, woken, m.owner, c, si);
    var b := m.owner[si];
    prev := prev[si := Next(si)];
    if state[b] == SB_WAITING {
      woken := woken + [b];
    }
    state := state[b := SB_CLEAR];
  }

  ghost predicate Waits(c: Chain, owner: seq<nat>, b: nat) {
    exists k | 0 <= k < |c| :: c[k] < |owner| && owner[c[k]] == b
  }

  ghost predicate Passed(prev: seq<Slot>, prev': seq<Slot>, c: Chain) {
    |prev'| == |prev| && forall x: nat | x < |prev| :: prev'[x] == if x in c then Next(x) else prev[x]
  }

  ghost predicate Cleared(state: seq<SbState>, state': seq<SbState>, owner: seq<nat>, c: Chain) {
    |state'| == |state| && forall b: nat | b < |state| :: state'[b] == if Waits(c, owner, b) then SB_CLEAR else state[b]
  }

  ghost predicate WokenAre(woken: seq<nat>, state: seq<SbState>, owner: seq<nat>, c: Chain) {
    && (forall b: nat | b < |state| :: b in woken <==> state[b] == SB_WAITING && Waits(c, owner, b))
    && (forall b <- woken :: b < |state|)
    && (forall i, j | 0 <= i < j < |woken| :: woken[i] != woken[j])
  }

  /** What a wakeup on head h does. */
  ghost predicate Wakes(m: Memory, v: View, h: nat, m': Memory, v': View, woken: seq<nat>) {
    && h < |v.chains| && v' == v.(chains := v.chains[h := []])
    && m' == m.(hdr := m'.hdr, prev := m'.prev, state := m'.state)
    && Cleared(m.state, m'.state, m.owner, v.chains[h])
    && WokenAre(woken, m.state, m.owner, v.chains[h])
  }

  /** What unselect does for select buffer b. */
  ghost predicate Unselects(m: Memory, v: View, b: nat, m': Memory, v': View) {
    && b < |m.items| && m' == m.(hdr := m'.hdr, next := m'.next, items := m.items[b := []])
    && v' == v.(chains := Rests(v.chains, Firsts(m.items[b], |m.items[b]|)))
    && Linked(m', v')
    && (WellFormed(m', v') <==> GoneAreOldest(v.chains, Firsts(m.items[b], |m.items[b]|)))
  }

  lemma TailCons(c: Chain, k: nat)
    requires 0 < k <= |c|
    ensures c[k - 1..] == [c[k - 1]] + c[k..]
  {
  }

  lemma PassedMore(prev: seq<Slot>, prev': seq<Slot>, c: Chain, x: nat)
    requires Passed(prev, prev', c) && x < |prev|
    ensures Passed(prev, prev'[x := Next(x)], [x] + c)
  {
  }

  lemma ClearedMore(state: seq<SbState>, state': seq<SbState>, woken: seq<nat>, owner: seq<nat>, c: Chain, x: nat)
    requires Cleared(state, state', owner, c) && WokenAre(woken, state, owner, c) && x < |owner| && owner[x] < |state|
    ensures Cleared(state, state'[owner[x] := SB_CLEAR], owner, [x] + c)
    ensures WokenAre(if state'[owner[x]] == SB_WAITING then woken + [owner[x]] else woken, state, owner, [x] + c)
  {
    forall b: nat
      ensures Waits([x] + c, owner, b) <==> owner[x] == b || Waits(c, owner, b)
    {
      var d := [x] + c;
      assert d[0] == x && d[1..] == c;
      if Waits(c, owner, b) {
        var k :| 0 <= k < |c| && c[k] < |owner| && owner[c[k]] == b;
        assert d[k + 1] == c[k];
      }
    }
  }

  lemma WakeOk(m: Memory, v: View, h: nat, prev: seq<Slot>, state: seq<SbState>)
    requires WellFormed(m, v) && h < |m.hdr| && Passed(m.prev, prev, v.chains[h]) && |state| == |m.state|
    ensures WellFormed(m.(hdr := m.hdr[h := NIL], prev := prev, state := state), v.(chains := v.chains[h := []]))
  {
    WakeForward(m.hdr, m.next, v.chains, h);
    WakePlaced(v.chains, v.home, v.stamp, |m.next|, h);
    WakeOwned(v.chains, m.owner, m.items, h);
    WakeBack(m.prev, prev, v.chains, v.home, v.stamp, |m.next|, h);
    WakeItems(m.items, m.owner, m.prev, prev, v.chains, v.stamp, h);
  }

  lemma WakeForward(hdr: seq<int>, next: seq<int>, chains: seq<Chain>, h: nat)
    requires Forward(hdr, next, chains, {}) && h < |chains|
    ensures Forward(hdr[h := NIL], next, chains[h := []], {})
  {
  }

  lemma WakePlaced(chains: seq<Chain>, home: map<nat, nat>, stamp: map<nat, nat>, n: nat, h: nat)
    requires Placed(chains, home, stamp, n) && h < |chains|
    ensures Placed(chains[h := []], home, stamp, n)
  {
  }

  lemma WakeOwned(chains: seq<Chain>, owner: seq<nat>, items: seq<seq<nat>>, h: nat)
    requires Owned(chains, owner, items) && h < |chains|
    ensures Owned(chains[h := []], owner, items)
  {
  }

  lemma WakeBack(prev: seq<Slot>, prev': seq<Slot>, chains: seq<Chain>, home: map<nat, nat>, stamp: map<nat, nat>,
                 n: nat, h: nat)
    requires Back(prev, chains) && Placed(chains, home, stamp, n) && h < |chains| && Passed(prev, prev', chains[h])
    ensures Back(prev', chains[h := []])
  {
    var after := chains[h := []];
    forall g, k | 0 <= g < |after| && 0 <= k < |after[g]|
      ensures after[g][k] < |prev'| && prev'[after[g][k]] == BackSlot(after[g], g, k)
    {
      assert chains[g][k] == after[g][k] && home[chains[g][k]] == g;
      assert forall j | 0 <= j < |chains[h]| :: home[chains[h][j]] == h;
    }
  }

  lemma WakeItems(items: seq<seq<nat>>, owner: seq<nat>, prev: seq<Slot>, prev': seq<Slot>, chains: seq<Chain>,
                  stamp: map<nat, nat>, h: nat)
    requires ItemsOk(items, owner, prev, chains, stamp) && h < |chains| && Passed(prev, prev', chains[h])
    ensures ItemsOk(items, owner, prev', chains[h := []], stamp)
  {
    forall b, j | 0 <= b < |items| && 0 <= j < |items[b]|
      ensures ItemOk(items[b][j], b, owner, prev', chains[h := []], stamp)
    {
      assert ItemOk(items[b][j], b, owner, prev, chains, stamp);
      WakeItem(chains, h, prev, prev', items[b][j]);
    }
  }

  lemma WakeItem(chains: seq<Chain>, h: nat, prev: seq<Slot>, prev': seq<Slot>, x: nat)
    requires h < |chains| && Passed(prev, prev', chains[h]) && x < |prev|
    requires OnChain(chains, x) || prev[x] == Next(x)
    ensures OnChain(chains[h := []], x) || prev'[x] == Next(x)
  {
    if OnChain(chains, x) {
      var g, k :| 0 <= g < |chains| && 0 <= k < |chains[g]| && chains[g][k] == x;
      if g != h {
        assert chains[h := []][g][k] == x;
      }
    }
  }

  /** unselect's loop, on memory that may be torn. */
  method UnselectAll(m0: Memory, ghost v: View, ghost gone: set<nat>, b: nat) returns (m: Memory)
    requires Torn(m0, v, gone) && b < |m0.items|
    ensures Unselecting(m0, m, v, Left(v, gone, m0.items[b], |m0.items[b]|))
  {
    m := m0;
    var i: nat := 0;
    assert Left(v, gone, m0.items[b], 0) == gone;
    while i < |m0.items[b]|
      invariant i <= |m0.items[b]| && Unselecting(m0, m, v, Left(v, gone, m0.items[b], i))
    {
      UnselectStep(m0, m, v, gone, b, i);
      m := UnselectOne(m, m0.items[b][i]);
      i := i + 1;
    }
  }

  lemma WellFormedIsTorn(m: Memory, v: View, b: nat)
    requires WellFormed(m, v) && b < |m.items|
    ensures Torn(m, v, {}) && Left(v, {}, m.items[b], |m.items[b]|) == Firsts(m.items[b], |m.items[b]|)
  {
  }

  /** After one unselect of well-formed memory, in terms of the view from before it. */
  lemma TornAfter(m0: Memory, m: Memory, v: View, b: nat)
    requires WellFormed(m0, v) && b < |m0.items|
    requires Unselecting(m0, m, v, Firsts(m0.items[b], |m0.items[b]|))
    ensures Torn(m.(items := m.items[b := []]), v, Firsts(m0.items[b], |m0.items[b]|))
  {
    var gone, items := Firsts(m0.items[b], |m0.items[b]|), m0.items[b := []];
    forall c, j | 0 <= c < |items| && 0 <= j < |items[c]|
      ensures ItemOk(items[c][j], c, m0.owner, m0.prev, v.chains, v.stamp) && items[c][j] !in gone
    {
      assert ItemOk(m0.items[c][j], c, m0.owner, m0.prev, v.chains, v.stamp);
      NotOthers(m0, v, b, m0.items[c][j]);
    }
  }

  /** *si->si_prev = si->si_next */
  method UnselectOne(m: Memory, si: nat) returns (u: Memory)
    requires si < |m.prev| == |m.next|
    ensures u == Unchained(m, si)
  {
    u := m;
    match m.prev[si] {
      case Head(h) => if h < |m.hdr| { u := m.(hdr := m.hdr[h := m.next[si]]); }
      case Next(p) => if p < |m.next| { u := m.(next := m.next[p := m.next[si]]); }
    }
  }

  /** One select buffer waits: whatever it entered, however often on the same chain, and whichever
      wakeups came between, unselect leaves every chain empty and every pointer in order. */
  lemma SoleWaiterLeavesNothing(m: Memory, v: View, b: nat)
    requires WellFormed(m, v) && b < |m.items|
    requires forall x: nat | OnChain(v.chains, x) :: x < |m.owner| && m.owner[x] == b
    ensures var gone := Firsts(m.items[b], |m.items[b]|);
            && GoneAreOldest(v.chains, gone)
            && forall h | 0 <= h < |v.chains| :: Rests(v.chains, gone)[h] == []
  {
    var gone := Firsts(m.items[b], |m.items[b]|);
    forall h, k | 0 <= h < |v.chains| && 0 <= k < |v.chains[h]|
      ensures v.chains[h][k] in gone
    {
      SoleOwns(m, v, b, h, k);
    }
    AllGone(v.chains, gone);
  }

  lemma SoleOwns(m: Memory, v: View, b: nat, h: nat, k: nat)
    requires Owned(v.chains, m.owner, m.items) && b < |m.items| && h < |v.chains| && k < |v.chains[h]|
    requires forall x: nat | OnChain(v.chains, x) :: x < |m.owner| && m.owner[x] == b
    ensures v.chains[h][k] in Firsts(m.items[b], |m.items[b]|)
  {
    assert OnChain(v.chains, v.chains[h][k]) && OwnedItem(v.chains[h][k], m.owner, m.items);
    assert m.items[b][..|m.items[b]|] == m.items[b];
  }

  lemma StuckStay(m: Memory, v: View, gone: set<nat>, c: nat)
    requires Torn(m, v, gone) && c < |m.items|
    ensures var xs := m.items[c];
            forall x <- xs :: OnChain(Rests(v.chains, Left(v, gone, xs, |xs|)), x) <==> Stuck(v, gone, x)
  {
    var xs := m.items[c];
    var left := Left(v, gone, xs, |xs|);
    forall x | x in xs
      ensures OnChain(Rests(v.chains, left), x) <==> Stuck(v, gone, x)
    {
      RestOnChain(v.chains, left, x);
      assert xs[..|xs|] == xs;
    }
  }

  /** Item 0 of buffer 0 and, above it, item 1 of buffer 1 on one chain. */
  function TwoOnOneChain(): Memory {
    Memory([1], [NIL, 0], [Next(1), Head(0)], [0, 1], [[0], [1]], [SB_WAITING, SB_WAITING])
  }

  /** The one that entered first may leave first; but if the second leaves first, the chain still leads to
      item 0 after both have left. */
  lemma LeavingFromAboveBreaksBack()
    ensures WellFormed(TwoOnOneChain(), View([[0, 1]], map[0 := 0, 1 := 0], map[0 := 0, 1 := 1], 2))
    ensures Unchained(Unchained(TwoOnOneChain(), 0), 1).hdr == [NIL]
    ensures Unchained(Unchained(TwoOnOneChain(), 1), 0).hdr == [0]
  {
    var v := View([[0, 1]], map[0 := 0, 1 := 0], map[0 := 0, 1 := 1], 2);
    TwoForward(TwoOnOneChain(), v);
    TwoItems(TwoOnOneChain(), v);
    TwoPlaced(v);
    TwoLeave();
  }

  lemma TwoPlaced(v: View)
    requires v == View([[0, 1]], map[0 := 0, 1 := 0], map[0 := 0, 1 := 1], 2)
    ensures Placed(v.chains, v.home, v.stamp, 2) && StampsBelow(v.stamp, v.time)
  {
    assert v.chains[0][0] == 0 && v.chains[0][1] == 1;
  }

  lemma TwoLeave()
    ensures Unchained(Unchained(TwoOnOneChain(), 0), 1).hdr == [NIL]
    ensures Unchained(Unchained(TwoOnOneChain(), 1), 0).hdr == [0]
  {
    var m := TwoOnOneChain();
    assert m.prev[0] == Next(1) && m.prev[1] == Head(0);
    assert Unchained(m, 0).next == [NIL, NIL] && Unchained(m, 1).hdr == [0];
  }

  lemma TwoForward(m: Memory, v: View)
    requires m == TwoOnOneChain() && v.chains == [[0, 1]]
    ensures Forward(m.hdr, m.next, v.chains, {}) && Back(m.prev, v.chains)
  {
    var c := v.chains[0];
    assert c[0] == 0 && c[1] == 1;
    assert Below(c, 0, {}) == NIL && Below(c, 1, {}) == 0 && Below(c, 2, {}) == 1;
  }

  lemma TwoItems(m: Memory, v: View)
    requires m == TwoOnOneChain() && v.chains == [[0, 1]] && v.stamp == map[0 := 0, 1 := 1]
    ensures ItemsOk(m.items, m.owner, m.prev, v.chains, v.stamp) && Owned(v.chains, m.owner, m.items)
  {
    assert OnChain(v.chains, v.chains[0][0]) && OnChain(v.chains, v.chains[0][1]);
    assert v.chains[0][0] == 0 && v.chains[0][1] == 1;
    assert m.items[0] == [0] && m.items[1] == [1];
  }
}
