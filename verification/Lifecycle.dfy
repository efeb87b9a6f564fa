/** Library bases from open to close, and the descriptor-table blocks that scans of a WaitSelect may
    still be reading when a table is replaced or a base closed (src/api/amiga_api.c,
    src/api/amiga_generic.c, src/api/amiga_generic2.c). Every vector is one atomic step; a scan is
    many: a snapshot of the table and its size, reads, and an end. */
module Lifecycle {

  import opened Common

  /** holder: the task that opened the base. owner: thisTask, 0 once the base is dead. block and size:
      dTable and dTableSize. uncounted: how often the master's open count has been given back for it. */
  datatype Base = Base(
    holder: nat, owner: nat, opens: int, dead: bool, freed: bool, canShare: bool, everShared: bool,
    block: nat, size: nat, retired: seq<nat>, uncounted: nat)

  /** What was allocated for a table: for which base, and how many descriptors there is room for. */
  datatype Block = Block(base: nat, size: nat)

  /** A running scan's copy of dTable and dTableSize. */
  datatype Snapshot = Snapshot(base: nat, block: nat, size: nat)

  /** bases: every base ever made, by number. list: socketBaseList. opens: the master's open count.
      blocks: every table block ever allocated; live: those not freed. calls: the base each task is in a
      WaitSelect on; scans: the snapshot of each task that is scanning. */
  datatype World = World(
    bases: seq<Base>, list: seq<nat>, opens: int, blocks: map<nat, Block>, live: set<nat>,
    calls: map<nat, nat>, scans: map<nat, Snapshot>)

  const FD_SETSIZE: nat := 64

  // ---- The invariant ------------------------------------------------------------------------

  ghost predicate Listed(w: World, b: nat) {
    b in w.list
  }

  /** A base is on the list until it is given back, and then it is dead or freed. */
  ghost predicate BaseOk(w: World, b: nat)
    requires b < |w.bases|
  {
    var x := w.bases[b];
    && x.uncounted == (if Listed(w, b) then 0 else 1)
    && (Listed(w, b) ==> !x.dead && !x.freed && x.owner != 0 && x.owner == x.holder && x.opens >= 1)
    && (!Listed(w, b) ==> x.dead || x.freed)
    && (x.dead ==> x.owner == 0 && !x.freed)
    && (x.freed ==> !x.everShared)
    && (x.canShare ==> x.everShared)
    && (!x.freed ==> BlockOf(w, x.block, b) && w.blocks[x.block].size == x.size)
    && (!x.freed ==> forall r <- x.retired :: BlockOf(w, r, b))
  }

  ghost predicate BlockOf(w: World, k: nat, b: nat) {
    k in w.live && k in w.blocks && w.blocks[k].base == b
  }

  ghost predicate ListOk(w: World) {
    && w.opens == |w.list|
    && (forall i | 0 <= i < |w.list| :: w.list[i] < |w.bases|)
    && (forall i, j | 0 <= i < j < |w.list| ::
          w.list[i] != w.list[j] && OwnerAt(w, w.list[i]) != OwnerAt(w, w.list[j]))
  }

  ghost function OwnerAt(w: World, b: nat): nat {
    if b < |w.bases| then w.bases[b].owner else 0
  }

  /** A task in a call: on a base that is still there, and its own unless that was ever shared. */
  ghost predicate CallOk(w: World, t: nat, b: nat) {
    b < |w.bases| && !w.bases[b].freed && (w.bases[b].holder == t || w.bases[b].everShared)
  }

  /** The table a scan reads has room for as many descriptors as the scan goes by, and is not freed. */
  ghost predicate ScanOk(w: World, t: nat, s: Snapshot) {
    && t in w.calls && w.calls[t] == s.base
    && s.block in w.live && s.block in w.blocks && w.blocks[s.block] == Block(s.base, s.size)
  }

  ghost predicate Inv(w: World) {
    && ListOk(w)
    && (forall b: nat | b < |w.bases| :: BaseOk(w, b))
    && (forall t <- w.calls :: CallOk(w, t, w.calls[t]))
    && (forall t <- w.scans :: ScanOk(w, t, w.scans[t]))
  }

  // ---- Steps --------------------------------------------------------------------------------

  datatype Step =
    | OpenNew(t: nat, block: nat)          // ELL_Open by a task that has no base
    | OpenAgain(t: nat, b: nat)
    | Close(b: nat)                        // UL_Close by the task that opened the base
    | Abandon(b: nat)                      // one turn of api_abandon_bases
    | Share(b: nat, on: bool)              // SBTC_CAN_SHARE_LIBRARY_BASES
    | Resize(b: nat, block: nat, size: nat, nodeFits: bool)
    | Enter(t: nat, b: nat)                // WaitSelect is called, and passes its checks
    | StartScan(t: nat)                    // selscan's snapshot, at the start or after any sleep
    | EndScan(t: nat)
    | Leave(t: nat)

  ghost predicate Owns(w: World, t: nat, b: nat) {
    b < |w.bases| && Listed(w, b) && w.bases[b].owner == t
  }

  ghost predicate Enabled(w: World, step: Step) {
    match step
    case OpenNew(t, block) => t != 0 && block !in w.blocks && block !in w.live && forall b: nat :: !Owns(w, t, b)
    case OpenAgain(t, b) => t != 0 && Owns(w, t, b)
    case Close(b) =>
      b < |w.bases| && !w.bases[b].freed && w.bases[b].opens >= 1 && w.bases[b].holder !in w.calls
    case Abandon(b) => b < |w.bases| && Listed(w, b)
    case Share(b, _) => b < |w.bases| && !w.bases[b].freed && !w.bases[b].dead
    case Resize(b, block, size, _) =>
      b < |w.bases| && !w.bases[b].freed && !w.bases[b].dead && block !in w.blocks && block !in w.live && 0 < size
    case Enter(t, b) =>
      && b < |w.bases| && !w.bases[b].freed && !w.bases[b].dead && t !in w.calls
      && (w.bases[b].canShare || w.bases[b].owner == t)
    case StartScan(t) => t in w.calls && w.calls[t] < |w.bases| && t !in w.scans
    case EndScan(t) => t in w.scans
    case Leave(t) => t in w.calls && t !in w.scans
  }

  function Unlist(list: seq<nat>, b: nat): seq<nat> {
    if list == [] then [] else if list[0] == b then list[1..] else [list[0]] + Unlist(list[1..], b)
  }

  function Put(w: World, b: nat, x: Base): World
    requires b < |w.bases|
  {
    w.(bases := w.bases[b := x])
  }

  /** Taken off the list and given back, but left allocated. */
  function Buried(w: World, b: nat): World
    requires b < |w.bases|
  {
    var x := w.bases[b];
    Put(w, b, x.(owner := 0, dead := true, uncounted := x.uncounted + 1)).(
      list := Unlist(w.list, b), opens := w.opens - 1)
  }

  ghost function BlocksOf(x: Base): set<nat> {
    {x.block} + set r | r in x.retired
  }

  /** The ordinary teardown: its table and the retired ones are freed, and the base itself. */
  ghost function Freed(w: World, b: nat): World
    requires b < |w.bases|
  {
    var x := w.bases[b];
    Put(w, b, x.(owner := 0, freed := true, uncounted := x.uncounted + 1)).(
      list := Unlist(w.list, b), opens := w.opens - 1, live := w.live - BlocksOf(x))
  }

  /** The last close: dead bases are left as they are, shared ones buried, others freed. */
  ghost function Closed(w: World, b: nat): World
    requires b < |w.bases|
  {
    var x := w.bases[b].(opens := w.bases[b].opens - 1);
    var v := Put(w, b, x);
    if x.opens > 0 || x.dead then v
    else if x.everShared then Buried(v, b)
    else Freed(v, b)
  }

  ghost function Next(w: World, step: Step): World
    requires Enabled(w, step)
  {
    match step
    case OpenNew(t, block) =>
      w.(bases := w.bases + [Base(t, t, 1, false, false, false, false, block, FD_SETSIZE, [], 0)],
         list := w.list + [|w.bases|], opens := w.opens + 1,
         blocks := w.blocks[block := Block(|w.bases|, FD_SETSIZE)], live := w.live + {block})
    case OpenAgain(t, b) => Put(w, b, w.bases[b].(opens := w.bases[b].opens + 1))
    case Close(b) => Closed(w, b)
    case Abandon(b) => Buried(w, b)
    case Share(b, on) => Put(w, b, w.bases[b].(canShare := on, everShared := w.bases[b].everShared || on))
    case Resize(b, block, size, nodeFits) =>
      var x := w.bases[b];
      Put(w, b, x.(block := block, size := size, retired := if nodeFits then [x.block] + x.retired else x.retired)).(
        blocks := w.blocks[block := Block(b, size)], live := w.live + {block})
    case Enter(t, b) => w.(calls := w.calls[t := b])
    case StartScan(t) =>
      var b := w.calls[t];
      w.(scans := w.scans[t := Snapshot(b, w.bases[b].block, w.bases[b].size)])
    case EndScan(t) => w.(scans := w.scans - {t})
    case Leave(t) => w.(calls := w.calls - {t})
  }

  // ---- Every step keeps the invariant -------------------------------------------------------

  lemma {:induction false} UnlistFacts(list: seq<nat>, b: nat, c: nat)
    requires b in list && forall i, j | 0 <= i < j < |list| :: list[i] != list[j]
    ensures |Unlist(list, b)| == |list| - 1 && (c in Unlist(list, b) <==> c in list && c != b)
    ensures forall i, j | 0 <= i < j < |Unlist(list, b)| :: Unlist(list, b)[i] != Unlist(list, b)[j]
  {
    if list[0] != b {
      UnlistFacts(list[1..], b, c);
      var r := Unlist(list[1..], b);
      forall j | 0 <= j < |r|
        ensures r[j] != list[0]
      {
        UnlistFacts(list[1..], b, r[j]);
      }
    }
  }

  lemma UnlistWhole(list: seq<nat>, b: nat)
    requires b in list && forall i, j | 0 <= i < j < |list| :: list[i] != list[j]
    ensures |Unlist(list, b)| == |list| - 1
    ensures forall c: nat :: c in Unlist(list, b) <==> c in list && c != b
    ensures forall i, j | 0 <= i < j < |Unlist(list, b)| :: Unlist(list, b)[i] != Unlist(list, b)[j]
  {
    forall c: nat
      ensures c in Unlist(list, b) <==> c in list && c != b
    {
      UnlistFacts(list, b, c);
    }
    UnlistFacts(list, b, b);
  }

  /** Taking one base off the list, whatever is done to that base, keeps the rest in order. */
  lemma UnlistOk(w: World, b: nat, x: Base)
    requires ListOk(w) && b < |w.bases| && Listed(w, b)
    ensures ListOk(Put(w, b, x).(list := Unlist(w.list, b), opens := w.opens - 1))
    ensures forall c: nat :: c in Unlist(w.list, b) <==> c in w.list && c != b
  {
    var list := Unlist(w.list, b);
    var v := Put(w, b, x).(list := list, opens := w.opens - 1);
    UnlistWhole(w.list, b);
    forall i | 0 <= i < |list|
      ensures list[i] < |w.bases| && OwnerAt(v, list[i]) == OwnerAt(w, list[i])
    {
      assert list[i] in list;
    }
    forall i, j | 0 <= i < j < |list|
      ensures OwnerAt(w, list[i]) != OwnerAt(w, list[j])
    {
      assert list[i] in list && list[j] in list && list[i] != list[j];
      OwnersDiffer(w, list[i], list[j]);
    }
  }

  lemma OwnersDiffer(w: World, b: nat, c: nat)
    requires ListOk(w) && b in w.list && c in w.list && b != c
    ensures OwnerAt(w, b) != OwnerAt(w, c)
  {
  }

  /** Calls and scans go on undisturbed while their bases and tables stay. */
  lemma CallsKept(w: World, v: World)
    requires forall t <- w.calls :: CallOk(w, t, w.calls[t])
    requires forall t <- w.scans :: ScanOk(w, t, w.scans[t])
    requires v.calls == w.calls && (forall t <- v.scans :: t in w.scans && v.scans[t] == w.scans[t])
    requires forall t <- w.calls :: StaysCallable(w, v, w.calls[t])
    requires forall t <- w.scans :: StaysLive(w, v, w.scans[t].block)
    ensures forall t <- v.calls :: CallOk(v, t, v.calls[t])
    ensures forall t <- v.scans :: ScanOk(v, t, v.scans[t])
  {
    forall t | t in v.calls
      ensures CallOk(v, t, v.calls[t])
    {
      assert CallOk(w, t, w.calls[t]) && StaysCallable(w, v, w.calls[t]);
    }
    forall t | t in v.scans
      ensures ScanOk(v, t, v.scans[t])
    {
      assert ScanOk(w, t, w.scans[t]) && StaysLive(w, v, w.scans[t].block);
    }
  }

  ghost predicate StaysCallable(w: World, v: World, b: nat) {
    b < |w.bases| && !w.bases[b].freed ==>
      && b < |v.bases| && !v.bases[b].freed && v.bases[b].holder == w.bases[b].holder
      && (w.bases[b].everShared ==> v.bases[b].everShared)
  }

  ghost predicate StaysLive(w: World, v: World, k: nat) {
    k in w.live && k in w.blocks ==> k in v.live && k in v.blocks && v.blocks[k] == w.blocks[k]
  }

  /** A base that keeps its place, its opener and its owner. */
  lemma PutOk(w: World, b: nat, x: Base)
    requires Inv(w) && b < |w.bases| && BaseOk(Put(w, b, x), b)
    requires var y := w.bases[b];
             && x.owner == y.owner && x.holder == y.holder && x.freed == y.freed
             && (y.everShared ==> x.everShared)
    ensures Inv(Put(w, b, x))
  {
    var v := Put(w, b, x);
    forall c: nat | c < |v.bases|
      ensures BaseOk(v, c)
    {
      assert BaseOk(w, c);
    }
    CallsKept(w, v);
  }

  /** A new live block disturbs nothing. */
  lemma NewBlockOk(w: World, block: nat, k: Block)
    requires Inv(w) && block !in w.blocks && block !in w.live
    ensures Inv(w.(blocks := w.blocks[block := k], live := w.live + {block}))
  {
    var v := w.(blocks := w.blocks[block := k], live := w.live + {block});
    forall c: nat | c < |v.bases|
      ensures BaseOk(v, c)
    {
      assert BaseOk(w, c);
    }
    CallsKept(w, v);
  }

  /** Burying a listed base, whatever its own open count has become. */
  lemma BuriedOk(w: World, b: nat, opens: int)
    requires Inv(w) && b < |w.bases| && Listed(w, b)
    ensures Inv(Buried(Put(w, b, w.bases[b].(opens := opens)), b))
  {
    var x := w.bases[b];
    var y := x.(opens := opens, owner := 0, dead := true, uncounted := x.uncounted + 1);
    var v := Put(w, b, y).(list := Unlist(w.list, b), opens := w.opens - 1);
    assert v == Buried(Put(w, b, x.(opens := opens)), b);
    UnlistOk(w, b, y);
    assert BaseOk(w, b);
    forall c: nat | c < |v.bases|
      ensures BaseOk(v, c)
    {
      assert BaseOk(w, c);
    }
    CallsKept(w, v);
  }

  /** Freeing a base that was never shared, by its opener who is not scanning. */
  lemma FreedOk(w: World, b: nat, opens: int)
    requires Inv(w) && b < |w.bases| && Listed(w, b) && !w.bases[b].everShared && w.bases[b].holder !in w.calls
    ensures Inv(Freed(Put(w, b, w.bases[b].(opens := opens)), b))
  {
    var x := w.bases[b];
    var y := x.(opens := opens, owner := 0, freed := true, uncounted := x.uncounted + 1);
    var v := Put(w, b, y).(list := Unlist(w.list, b), opens := w.opens - 1, live := w.live - BlocksOf(x));
    assert v == Freed(Put(w, b, x.(opens := opens)), b);
    UnlistOk(w, b, y);
    assert BaseOk(w, b);
    forall c: nat | c < |v.bases|
      ensures BaseOk(v, c)
    {
      assert BaseOk(w, c);
      if c != b {
        OthersBlocks(w, b, c);
      }
    }
    CallsKept(w, v);
  }

  /** The blocks of one base are not another's. */
  lemma OthersBlocks(w: World, b: nat, c: nat)
    requires Inv(w) && b < |w.bases| && !w.bases[b].freed && c != b
    ensures forall k: nat :: BlockOf(w, k, c) ==> k !in BlocksOf(w.bases[b])
  {
    assert BaseOk(w, b);
  }

  lemma CloseKeeps(w: World, b: nat)
    requires Inv(w) && Enabled(w, Close(b))
    ensures Inv(Closed(w, b))
  {
    var opens := w.bases[b].opens - 1;
    assert BaseOk(w, b);
    if opens > 0 || w.bases[b].dead {
      PutOk(w, b, w.bases[b].(opens := opens));
    } else if w.bases[b].everShared {
      BuriedOk(w, b, opens);
    } else {
      FreedOk(w, b, opens);
    }
  }

  lemma EnterKeeps(w: World, t: nat, b: nat)
    requires Inv(w) && Enabled(w, Enter(t, b))
    ensures Inv(Next(w, Enter(t, b)))
  {
    var v := Next(w, Enter(t, b));
    BasesKept(w, v);
    assert BaseOk(w, b);
    forall u | u in v.calls
      ensures CallOk(v, u, v.calls[u])
    {
      if u != t {
        assert CallOk(w, u, w.calls[u]);
      }
    }
    forall u | u in v.scans
      ensures ScanOk(v, u, v.scans[u])
    {
      assert ScanOk(w, u, w.scans[u]);
    }
  }

  lemma BasesKept(w: World, v: World)
    requires forall c: nat | c < |w.bases| :: BaseOk(w, c)
    requires v == w.(calls := v.calls, scans := v.scans)
    ensures forall c: nat | c < |v.bases| :: BaseOk(v, c)
  {
    forall c: nat | c < |v.bases|
      ensures BaseOk(v, c)
    {
      assert BaseOk(w, c);
    }
  }

  /** The snapshot takes the base's two fields as they stand together. */
  lemma ScanKeeps(w: World, t: nat)
    requires Inv(w) && Enabled(w, StartScan(t))
    ensures Inv(Next(w, StartScan(t)))
  {
    var v := Next(w, StartScan(t));
    BasesKept(w, v);
    assert CallOk(w, t, w.calls[t]) && BaseOk(w, w.calls[t]);
    forall u | u in v.scans
      ensures ScanOk(v, u, v.scans[u])
    {
      if u != t {
        assert ScanOk(w, u, w.scans[u]);
      }
    }
    forall u | u in v.calls
      ensures CallOk(v, u, v.calls[u])
    {
      assert CallOk(w, u, w.calls[u]);
    }
  }

  lemma LeaveKeeps(w: World, t: nat)
    requires Inv(w) && Enabled(w, Leave(t))
    ensures Inv(Next(w, Leave(t)))
  {
    var v := Next(w, Leave(t));
    BasesKept(w, v);
    forall u | u in v.calls
      ensures CallOk(v, u, v.calls[u])
    {
      assert CallOk(w, u, w.calls[u]);
    }
    forall u | u in v.scans
      ensures ScanOk(v, u, v.scans[u])
    {
      assert ScanOk(w, u, w.scans[u]);
    }
  }

  lemma OpenKeeps(w: World, t: nat, block: nat)
    requires Inv(w) && Enabled(w, OpenNew(t, block))
    ensures Inv(Next(w, OpenNew(t, block)))
  {
    var v := Next(w, OpenNew(t, block));
    forall i | 0 <= i < |w.list|
      ensures OwnerAt(w, w.list[i]) != t && OwnerAt(v, w.list[i]) == OwnerAt(w, w.list[i])
    {
      assert w.list[i] in w.list && !Owns(w, t, w.list[i]);
    }
    forall c: nat | c < |v.bases|
      ensures BaseOk(v, c)
    {
      if c < |w.bases| {
        assert BaseOk(w, c);
      }
    }
    CallsKept(w, v);
  }

  /** Every step keeps the invariant. */
  lemma StepKeepsInv(w: World, step: Step)
    requires Inv(w) && Enabled(w, step)
    ensures Inv(Next(w, step))
  {
    match step
    case OpenNew(t, block) => OpenKeeps(w, t, block);
    case OpenAgain(t, b) =>
      assert BaseOk(w, b);
      PutOk(w, b, w.bases[b].(opens := w.bases[b].opens + 1));
    case Close(b) => CloseKeeps(w, b);
    case Abandon(b) =>
      assert Put(w, b, w.bases[b].(opens := w.bases[b].opens)) == w;
      BuriedOk(w, b, w.bases[b].opens);
    case Share(b, on) =>
      assert BaseOk(w, b);
      PutOk(w, b, w.bases[b].(canShare := on, everShared := w.bases[b].everShared || on));
    case Resize(b, block, size, nodeFits) =>
      ResizeKeeps(w, b, block, size, nodeFits);
    case Enter(t, b) => EnterKeeps(w, t, b);
    case StartScan(t) => ScanKeeps(w, t);
    case EndScan(t) => EndKeeps(w, t);
    case Leave(t) => LeaveKeeps(w, t);
  }

  lemma EndKeeps(w: World, t: nat)
    requires Inv(w) && Enabled(w, EndScan(t))
    ensures Inv(Next(w, EndScan(t)))
  {
    var v := Next(w, EndScan(t));
    forall c: nat | c < |v.bases|
      ensures BaseOk(v, c)
    {
      assert BaseOk(w, c);
    }
    CallsKept(w, v);
  }

  lemma ResizeKeeps(w: World, b: nat, block: nat, size: nat, nodeFits: bool)
    requires Inv(w) && Enabled(w, Resize(b, block, size, nodeFits))
    ensures Inv(Next(w, Resize(b, block, size, nodeFits)))
  {
    var v := w.(blocks := w.blocks[block := Block(b, size)], live := w.live + {block});
    NewBlockOk(w, block, Block(b, size));
    var x := w.bases[b];
    assert BaseOk(v, b);
    PutOk(v, b, x.(block := block, size := size, retired := if nodeFits then [x.block] + x.retired else x.retired));
  }

  // ---- Whole runs ---------------------------------------------------------------------------

  ghost predicate Reached(w: World, steps: seq<Step>, v: World)
    decreases |steps|
  {
    if steps == [] then w == v else Enabled(w, steps[0]) && Reached(Next(w, steps[0]), steps[1..], v)
  }

  /** In every run: the open count is the number of listed bases, no two of which have the same
      owner, and each base has been given back once if it is off the list and not at all if it is
      on it. */
  lemma {:induction false} OpenCountHolds(w: World, steps: seq<Step>, v: World)
    requires Inv(w) && Reached(w, steps, v)
    ensures Inv(v) && v.opens == |v.list|
    ensures forall i, j | 0 <= i < j < |v.list| :: OwnerAt(v, v.list[i]) != OwnerAt(v, v.list[j])
    ensures forall b: nat | b < |v.bases| :: v.bases[b].uncounted == if b in v.list then 0 else 1
    decreases |steps|
  {
    if steps != [] {
      StepKeepsInv(w, steps[0]);
      OpenCountHolds(Next(w, steps[0]), steps[1..], v);
    } else {
      forall b: nat | b < |v.bases|
        ensures v.bases[b].uncounted == if b in v.list then 0 else 1
      {
        assert BaseOk(v, b);
      }
    }
  }

  /** In every run: as long as a scan goes on, its snapshot stays what it was, a table and size that
      were published together, and the table is not freed. */
  lemma {:induction false} ScansReadLiveTables(w: World, steps: seq<Step>, v: World, t: nat)
    requires Inv(w) && Reached(w, steps, v) && t in w.scans && EndScan(t) !in steps
    ensures t in v.scans && v.scans[t] == w.scans[t]
    ensures var s := v.scans[t]; s.block in v.live && s.block in v.blocks && v.blocks[s.block] == Block(s.base, s.size)
    decreases |steps|
  {
    if steps != [] {
      StepKeepsInv(w, steps[0]);
      assert steps[0] in steps;
      ScansReadLiveTables(Next(w, steps[0]), steps[1..], v, t);
    } else {
      assert ScanOk(w, t, w.scans[t]);
    }
  }

  // ---- A base lives as long as it has openers -----------------------------------------------

  /** The opens outstanding after one more step. */
  function Counted(n: int, step: Step, b: nat): int {
    match step
    case OpenAgain(_, c) => if c == b then n + 1 else n
    case Close(c) => if c == b then n - 1 else n
    case _ => n
  }

  /** The opens outstanding after some steps. */
  function Outstanding(n: int, steps: seq<Step>, b: nat): int
    decreases |steps|
  {
    if steps == [] then n else Outstanding(Counted(n, steps[0], b), steps[1..], b)
  }

  /** Never, from n opens on, do the closes catch up with them. */
  predicate KeptOpen(n: int, steps: seq<Step>, b: nat)
    decreases |steps|
  {
    n >= 1 && (steps != [] ==> KeptOpen(Counted(n, steps[0], b), steps[1..], b))
  }

  /** A base on the list, with its owner, its table and a number of opens. */
  ghost predicate IsOpen(w: World, b: nat, owner: nat, opens: int) {
    && b < |w.bases| && b in w.list && w.bases[b].owner == owner && w.bases[b].opens == opens
    && !w.bases[b].dead && !w.bases[b].freed && w.bases[b].block in w.live
  }

  /** One step. */
  lemma StaysOpen(w: World, step: Step, b: nat, owner: nat, opens: int)
    requires Inv(w) && Enabled(w, step) && IsOpen(w, b, owner, opens) && step != Abandon(b)
    requires Counted(opens, step, b) >= 1
    ensures IsOpen(Next(w, step), b, owner, Counted(opens, step, b))
  {
    StepKeepsInv(w, step);
    assert BaseOk(Next(w, step), b);
    match step
    case Close(c) =>
      if c != b && c in w.list {
        UnlistOk(w, c, w.bases[c]);
        OthersBlocks(w, c, b);
        assert BaseOk(w, b);
      }
    case Abandon(c) => UnlistOk(w, c, w.bases[c]);
    case _ =>
  }

  /** In every run a base that is not abandoned is listed and owned as before, with its table, as long as the
      closes have not caught up with the opens; and it counts what is outstanding. */
  lemma {:induction false} OpenersKeepTheBase(w: World, steps: seq<Step>, v: World, b: nat, owner: nat, opens: int)
    requires Inv(w) && Reached(w, steps, v) && IsOpen(w, b, owner, opens)
    requires Abandon(b) !in steps && KeptOpen(opens, steps, b)
    ensures IsOpen(v, b, owner, Outstanding(opens, steps, b))
    decreases |steps|
  {
    if steps != [] {
      assert steps[0] in steps;
      StepKeepsInv(w, steps[0]);
      StaysOpen(w, steps[0], b, owner, opens);
      OpenersKeepTheBase(Next(w, steps[0]), steps[1..], v, b, owner, Counted(opens, steps[0], b));
    }
  }

  /** The close that uses up the last open takes exactly this base off the list and gives it back once. One
      that was ever shared is dead from then on, and nothing of it is freed; of any other, the table and the
      retired ones are freed, and no other base's. */
  lemma LastCloseEnds(w: World, b: nat, owner: nat)
    requires Inv(w) && IsOpen(w, b, owner, 1) && Enabled(w, Close(b))
    ensures var x, v := w.bases[b], Next(w, Close(b));
            && v.opens == w.opens - 1 && (forall c: nat :: c in v.list <==> c in w.list && c != b)
            && v.bases[b].owner == 0 && v.bases[b].uncounted == 1
            && (forall c: nat | c < |w.bases| && c != b :: v.bases[c] == w.bases[c])
            && if x.everShared then v.bases[b].dead && !v.bases[b].freed && v.live == w.live
               else v.bases[b].freed && forall k: nat ::
                      k in v.live <==> k in w.live && k != x.block && k !in x.retired
  {
    UnlistOk(w, b, w.bases[b]);
    assert BaseOk(w, b);
  }

  /** A dead base keeps what it has however often it is closed again: only its own count goes down. */
  lemma DeadStaysDead(w: World, b: nat)
    requires Enabled(w, Close(b)) && w.bases[b].dead
    ensures Next(w, Close(b)) == w.(bases := w.bases[b := w.bases[b].(opens := w.bases[b].opens - 1)])
  {
  }

  // ---- Nothing is leaked --------------------------------------------------------------------

  /** A table block in use is its base's table or one that waits to be freed with the base. */
  ghost predicate Accounted(w: World, k: nat) {
    k in w.blocks && var b := w.blocks[k].base;
    b < |w.bases| && !w.bases[b].freed && (k == w.bases[b].block || k in w.bases[b].retired)
  }

  ghost predicate AllAccounted(w: World) {
    forall k <- w.live :: Accounted(w, k)
  }

  /** One step, if a resize can have the node it keeps the old table by. */
  lemma AccountsKept(w: World, step: Step)
    requires Inv(w) && Enabled(w, step) && AllAccounted(w) && (step.Resize? ==> step.nodeFits)
    ensures AllAccounted(Next(w, step))
  {
    var v := Next(w, step);
    forall k | k in v.live
      ensures Accounted(v, k)
    {
      if k in w.live {
        assert Accounted(w, k);
        assert BaseOk(w, w.blocks[k].base);
      }
    }
  }

  /** In every run from the start in which those nodes could be had, whatever is still allocated belongs to a
      base that is not freed: a base that is freed leaves no table behind. */
  lemma {:induction false} NothingLeaks(w: World, steps: seq<Step>, v: World)
    requires Inv(w) && AllAccounted(w) && Reached(w, steps, v)
    requires forall step <- steps :: step.Resize? ==> step.nodeFits
    ensures forall k <- v.live :: k in v.blocks && v.blocks[k].base < |v.bases| && !v.bases[v.blocks[k].base].freed
    decreases |steps|
  {
    if steps != [] {
      assert steps[0] in steps;
      StepKeepsInv(w, steps[0]);
      AccountsKept(w, steps[0]);
      NothingLeaks(Next(w, steps[0]), steps[1..], v);
    } else {
      assert forall k <- v.live :: Accounted(v, k);
    }
  }

  lemma EmptyInv()
    ensures var w := World([], [], 0, map[], {}, map[], map[]); Inv(w) && AllAccounted(w)
  {
  }

  /** Why a base that was ever shared is not freed: its opener may close it while a sharer scans, and
      the ordinary teardown would then take the sharer's table away. */
  lemma FreeingASharedBaseBreaksScans(w: World, b: nat, t: nat)
    requires Inv(w) && Enabled(w, Close(b)) && w.bases[b].everShared && !w.bases[b].dead && w.bases[b].opens == 1
    requires t in w.scans && w.scans[t].base == b && w.scans[t].block in BlocksOf(w.bases[b])
    ensures t != w.bases[b].holder && Inv(Closed(w, b))
    ensures !Inv(Freed(Put(w, b, w.bases[b].(opens := 0)), b))
  {
    CloseKeeps(w, b);
    assert ScanOk(w, t, w.scans[t]);
    var v := Freed(Put(w, b, w.bases[b].(opens := 0)), b);
    assert t in v.scans && !ScanOk(v, t, v.scans[t]);
  }

  /** A world with one base, which task 1 opened. */
  function OneBase(block: nat, shared: bool, dead: bool, calls: map<nat, nat>, scans: map<nat, Snapshot>): World {
    var one := if dead then 0 else 1;
    World([Base(1, one, one, dead, false, shared, shared, block, FD_SETSIZE, [], 1 - one)],
          if dead then [] else [0], one,
          map[block := Block(0, FD_SETSIZE)], {block}, calls, scans)
  }

  /** It comes to that: task 1 opens and shares a base, task 2 calls WaitSelect on it and scans, task 1
      closes it, and task 2 scans the dead base again after a sleep. */
  lemma SharerScansADeadBase(block: nat)
    ensures var scan, call := map[2 := Snapshot(0, block, FD_SETSIZE)], map[2 := 0];
            var w, v := OneBase(block, true, false, call, scan), OneBase(block, true, true, call, scan);
            && Inv(w) && Enabled(w, Close(0)) && w.bases[0].everShared && v == Next(w, Close(0))
            && Enabled(v, EndScan(2)) && Enabled(Next(v, EndScan(2)), StartScan(2))
            && Next(Next(v, EndScan(2)), StartScan(2)) == v
  {
    var empty := World([], [], 0, map[], {}, map[], map[]);
    var w1, w2 := OneBase(block, false, false, map[], map[]), OneBase(block, true, false, map[], map[]);
    var w3 := OneBase(block, true, false, map[2 := 0], map[]);
    Take(empty, OpenNew(1, block), w1);
    Take(w1, Share(0, true), w2);
    Take(w2, Enter(2, 0), w3);
    Take(w3, StartScan(2), OneBase(block, true, false, map[2 := 0], map[2 := Snapshot(0, block, FD_SETSIZE)]));
    LastClose(block);
  }

  lemma Take(w: World, step: Step, v: World)
    requires Inv(w) && Enabled(w, step) && v == Next(w, step)
    ensures Inv(v)
  {
    StepKeepsInv(w, step);
  }

  lemma LastClose(block: nat)
    ensures var scan, call := map[2 := Snapshot(0, block, FD_SETSIZE)], map[2 := 0];
            var w, v := OneBase(block, true, false, call, scan), OneBase(block, true, true, call, scan);
            && Enabled(w, Close(0)) && v == Next(w, Close(0))
            && Enabled(v, EndScan(2)) && Enabled(Next(v, EndScan(2)), StartScan(2))
            && Next(Next(v, EndScan(2)), StartScan(2)) == v
  {
    assert Unlist([0], 0) == [];
  }

  // ---- The vectors --------------------------------------------------------------------------

  class SocketLibrary {
    var w: World

    constructor ()
      ensures Inv(w) && w == World([], [], 0, map[], {}, map[], map[])
    {
      w := World([], [], 0, map[], {}, map[], map[]);
    }

    /** FindSocketBase: the listed base whose owner is the task. */
    method FindSocketBase(t: nat) returns (b: Option<nat>)
      requires Inv(w)
      ensures b.Some? ==> Owns(w, t, b.value)
      ensures b.None? ==> forall c: nat :: !Owns(w, t, c)
    {
      var i := 0;
      while i < |w.list|
        invariant 0 <= i <= |w.list| && forall j | 0 <= j < i :: OwnerAt(w, w.list[j]) != t
      {
        if w.bases[w.list[i]].owner == t {
          return Some(w.list[i]);
        }
        i := i + 1;
      }
      return None;
    }

    /** ELL_Open. block is the address of the new table, if one is needed. */
    method Open(t: nat, block: nat) returns (b: nat)
      requires Inv(w) && t != 0 && block !in w.blocks && block !in w.live
      modifies this
      ensures Inv(w) && Owns(w, t, b)
      ensures var step := if b < |old(w).bases| then OpenAgain(t, b) else OpenNew(t, block);
              Enabled(old(w), step) && w == Next(old(w), step)
    {
      var found := FindSocketBase(t);
      if found.Some? {
        b := found.value;
        StepKeepsInv(w, OpenAgain(t, b));
        w := Put(w, b, w.bases[b].(opens := w.bases[b].opens + 1));
      } else {
        StepKeepsInv(w, OpenNew(t, block));
        b := |w.bases|;
        w := w.(bases := w.bases + [Base(t, t, 1, false, false, false, false, block, FD_SETSIZE, [], 0)],
                list := w.list + [b], opens := w.opens + 1,
                blocks := w.blocks[block := Block(b, FD_SETSIZE)], live := w.live + {block});
      }
    }

    /** UL_Close: count down; leave a dead base alone; bury one that was ever shared; free any other
        with its table and the retired ones. */
    method Close(b: nat)
      requires Inv(w) && Enabled(w, Step.Close(b))
      modifies this
      ensures Inv(w) && w == Next(old(w), Step.Close(b))
    {
      CloseKeeps(w, b);
      var x := w.bases[b].(opens := w.bases[b].opens - 1);
      w := Put(w, b, x);
      if x.opens > 0 {
        return;
      }
      if x.dead {
        return;
      }
      if x.everShared {
        Bury(b);
        return;
      }
      Free(b);
    }

    /** Off the list, dead, given back, and left allocated. */
    method Bury(b: nat)
      requires b < |w.bases|
      modifies this
      ensures w == Buried(old(w), b)
    {
      var x := w.bases[b];
      w := w.(list := Unlist(w.list, b));
      w := Put(w, b, x.(owner := 0, dead := true, uncounted := x.uncounted + 1)).(opens := w.opens - 1);
    }

    /** The ordinary teardown. */
    method Free(b: nat)
      requires b < |w.bases|
      modifies this
      ensures w == Freed(old(w), b)
    {
      var x := w.bases[b];
      var live := FreeBlocks(w.live, x);
      w := w.(list := Unlist(w.list, b), live := live);
      w := Put(w, b, x.(owner := 0, freed := true, uncounted := x.uncounted + 1)).(opens := w.opens - 1);
    }

    /** api_abandon_bases: every listed base but the tracer's is buried, and nothing is freed. */
    method AbandonBases(tracer: nat)
      requires Inv(w)
      modifies this
      ensures Inv(w) && w == old(w).(bases := w.bases, list := w.list, opens := w.opens) && |w.bases| == |old(w).bases|
      ensures AllAbandoned(old(w), w, old(w).list, tracer)
    {
      var nodes := w.list;
      var i := 0;
      while i < |nodes|
        invariant 0 <= i <= |nodes| && nodes == old(w).list
        invariant Inv(w) && |w.bases| == |old(w).bases|
        invariant w == old(w).(bases := w.bases, list := w.list, opens := w.opens)
        invariant AllAbandoned(old(w), w, nodes[..i], tracer)
      {
        AbandonOne(old(w), nodes, i, tracer);
        i := i + 1;
      }
      assert nodes[..i] == old(w).list;
    }

    /** One turn: the base is buried unless it is the tracer's. */
    method AbandonOne(ghost was: World, nodes: seq<nat>, i: nat, tracer: nat)
      requires Inv(was) && Inv(w) && nodes == was.list && i < |nodes| && |w.bases| == |was.bases|
      requires w == was.(bases := w.bases, list := w.list, opens := w.opens)
      requires AllAbandoned(was, w, nodes[..i], tracer)
      modifies this
      ensures Inv(w) && |w.bases| == |was.bases| && w == was.(bases := w.bases, list := w.list, opens := w.opens)
      ensures AllAbandoned(was, w, nodes[..i + 1], tracer)
    {
      var b := nodes[i];
      var next := w;
      AbandonNext(was, w, w, nodes, i, tracer);
      if w.bases[b].owner != tracer {
        var x := w.bases[b];
        next := Put(w, b, x.(owner := 0, dead := true, uncounted := x.uncounted + 1)).(
                list := Unlist(w.list, b), opens := if w.opens > 0 then w.opens - 1 else w.opens);
      }
      AbandonNext(was, w, next, nodes, i, tracer);
      w := next;
    }
  }

  /** The table, then the chain of retired ones. */
  method FreeBlocks(live: set<nat>, x: Base) returns (left: set<nat>)
    ensures left == live - BlocksOf(x)
  {
    left := live - {x.block};
    var i := 0;
    while i < |x.retired|
      invariant 0 <= i <= |x.retired| && left == live - {x.block} - set r | r in x.retired[..i]
    {
      assert x.retired[..i + 1] == x.retired[..i] + [x.retired[i]];
      left := left - {x.retired[i]};
      i := i + 1;
    }
    assert x.retired[..i] == x.retired;
  }

  /** b, if among those done and not the tracer's, is off the list, dead and given back once; otherwise
      it is as it was. */
  ghost predicate AbandonedTo(was: World, now: World, done: seq<nat>, tracer: nat, b: nat)
    requires b < |was.bases| == |now.bases|
  {
    if b in done && was.bases[b].owner != tracer
    then !Listed(now, b) && now.bases[b] == was.bases[b].(owner := 0, dead := true, uncounted := 1)
    else Listed(now, b) == Listed(was, b) && now.bases[b] == was.bases[b]
  }

  ghost predicate AllAbandoned(was: World, now: World, done: seq<nat>, tracer: nat) {
    |now.bases| == |was.bases| && forall b: nat | b < |was.bases| :: AbandonedTo(was, now, done, tracer, b)
  }

  lemma AbandonNext(was: World, now: World, next: World, nodes: seq<nat>, i: nat, tracer: nat)
    requires Inv(was) && Inv(now) && nodes == was.list && i < |nodes|
    requires now == was.(bases := now.bases, list := now.list, opens := now.opens) && |now.bases| == |was.bases|
    requires AllAbandoned(was, now, nodes[..i], tracer)
    ensures nodes[i] < |now.bases| && Listed(now, nodes[i]) && now.opens > 0
    ensures now.bases[nodes[i]] == was.bases[nodes[i]]
    ensures Inv(Buried(now, nodes[i]))
    ensures next == (if was.bases[nodes[i]].owner != tracer then Buried(now, nodes[i]) else now) ==>
      AllAbandoned(was, next, nodes[..i + 1], tracer)
  {
    var b := nodes[i];
    assert b !in nodes[..i];
    assert nodes[..i + 1] == nodes[..i] + [b];
    assert AbandonedTo(was, now, nodes[..i], tracer, b);
    assert BaseOk(was, b) && BaseOk(now, b);
    assert Put(now, b, now.bases[b].(opens := now.bases[b].opens)) == now;
    BuriedOk(now, b, now.bases[b].opens);
    UnlistOk(now, b, now.bases[b]);
    if next == if was.bases[b].owner != tracer then Buried(now, b) else now {
      var done := nodes[..i + 1];
      forall c: nat | c < |was.bases|
        ensures AbandonedTo(was, next, done, tracer, c)
      {
        assert AbandonedTo(was, now, nodes[..i], tracer, c);
      }
    }
  }
}
