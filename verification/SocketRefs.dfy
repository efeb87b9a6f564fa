/** Sockets shared between descriptor tables and the list of released sockets, as a state machine
    whose steps are what one task can do without another running in between
    (src/api/amiga_generic.c). A close is two steps: dropping the reference, and soclose
    finishing; what other tasks do while it lingers comes between. */
module SocketRefs {

  import opened DescriptorTable
  import opened ReleaseIds
  import Bitmap

  datatype Node = Node(id: LONG, so: nat)

  /** tables: one descriptor table per opener. refcnt: so_refcnt of every socket that has been
      published and not yet freed. closing: those handed to soclose. reaping: the socket whose
      node the reaper has unlinked but not yet dropped, 0 if none. orphans: sockets created but
      never published because the link library refused the descriptor. */
  datatype State = State(
    tables: seq<Table>, released: seq<Node>, refcnt: map<nat, int>, closing: set<nat>,
    reaping: nat, orphans: set<nat>)

  // ---- Counting references ------------------------------------------------------------------

  ghost function TableRefs(tables: seq<Table>, so: nat, n: nat): nat
    requires n <= |tables|
  {
    if n == 0 then 0 else TableRefs(tables, so, n - 1) + multiset(tables[n - 1].slots)[so]
  }

  ghost function NodeRefs(nodes: seq<Node>, so: nat, n: nat): nat
    requires n <= |nodes|
  {
    if n == 0 then 0 else NodeRefs(nodes, so, n - 1) + One(nodes[n - 1].so, so)
  }

  function One(x: nat, so: nat): nat {
    if x == so then 1 else 0
  }

  /** Table entries over all bases, released nodes, and the node being reaped. */
  ghost function Refs(s: State, so: nat): nat {
    TableRefs(s.tables, so, |s.tables|) + NodeRefs(s.released, so, |s.released|) + One(s.reaping, so)
  }

  // ---- The counter, a 16-bit short ----------------------------------------------------------

  function Short(x: int): int {
    (x + 0x8000) % 0x1_0000 - 0x8000
  }

  function CountOf(s: State, so: nat): int {
    if so in s.refcnt then s.refcnt[so] else 0
  }

  ghost predicate TablesOk(tables: seq<Table>) {
    forall b: nat | b < |tables| :: TableOk(tables[b])
  }

  ghost predicate TableOk(t: Table) {
    WellSized(t) && Guarded(t)
  }

  /** Every counter is the number of references. */
  ghost predicate Counts(s: State) {
    forall so: nat | so != 0 :: CountOf(s, so) == Refs(s, so)
  }

  /** A socket is being closed exactly when it has been published and nothing refers to it. */
  ghost predicate Fates(s: State) {
    && 0 !in s.refcnt && 0 !in s.orphans
    && (forall so <- s.refcnt :: s.refcnt[so] <= 0x7FFF && (s.refcnt[so] != 0 <==> so !in s.closing))
    && (forall so <- s.closing :: so in s.refcnt)
    && (forall so <- s.orphans :: so !in s.refcnt)
  }

  ghost predicate Inv(s: State) {
    TablesOk(s.tables) && Counts(s) && Fates(s) && Distinct(Ids(s.released))
  }

  function Ids(nodes: seq<Node>): (ids: seq<LONG>)
    ensures |ids| == |nodes|
  {
    seq(|nodes|, k requires 0 <= k < |nodes| => nodes[k].id)
  }

  // ---- Steps --------------------------------------------------------------------------------

  datatype Step =
    | Create(b: nat, fd: nat, so: nat)          // _socket and _accept publish a new socket
    | Orphan(so: nat)                           // the new socket is dropped unpublished
    | Drop(b: nat, fd: nat)                     // a close up to soclose
    | Finish(so: nat)                           // soclose ends and frees the socket
    | Release(b: nat, fd: nat, id: LONG)
    | ReleaseCopy(b: nat, fd: nat, id: LONG)
    | Obtain(b: nat, fd: nat, k: nat)           // takes released node k
    | Dup(b: nat, fd1: nat, fd2: nat)
    | Pop                                       // the reaper unlinks the first node
    | Reap                                      // and drops its reference
    | Remark(b: nat, mask: seq<bv32>)           // usage bits change where there is no socket
    | Resize(b: nat, n: nat)
    | Open(n: nat)                              // a new base with n free descriptors

  function WithBit(t: Table, fd: nat, so: nat): Table
    requires fd < |t.slots| && fd / NFDBITS < |t.mask|
  {
    var w := fd / NFDBITS;
    Table(t.slots[fd := so], t.mask[w := t.mask[w] | Bitmap.Bit(fd % NFDBITS)])
  }

  function WithoutBit(t: Table, fd: nat): Table
    requires fd < |t.slots| && fd / NFDBITS < |t.mask|
  {
    var w := fd / NFDBITS;
    Table(t.slots[fd := 0], t.mask[w := t.mask[w] & !Bitmap.Bit(fd % NFDBITS)])
  }

  predicate At(s: State, b: nat, fd: nat) {
    b < |s.tables| && fd < |s.tables[b].slots| && fd / NFDBITS < |s.tables[b].mask|
  }

  predicate EmptyAt(s: State, b: nat, fd: nat) {
    At(s, b, fd) && s.tables[b].slots[fd] == 0
  }

  predicate SocketAt(s: State, b: nat, fd: nat) {
    At(s, b, fd) && s.tables[b].slots[fd] != 0
  }

  predicate FreeId(s: State, id: LONG) {
    MustBeUnique(id) ==> id !in Ids(s.released)
  }

  predicate Unused(s: State, so: nat) {
    so != 0 && so !in s.refcnt && so !in s.orphans
  }

  ghost predicate Enabled(s: State, step: Step) {
    match step
    case Create(b, fd, so) => EmptyAt(s, b, fd) && Unused(s, so)
    case Orphan(so) => Unused(s, so)
    case Drop(b, fd) => SocketAt(s, b, fd)
    case Finish(so) => so in s.closing
    case Release(b, fd, id) => SocketAt(s, b, fd) && FreeId(s, id)
    case ReleaseCopy(b, fd, id) => SocketAt(s, b, fd) && FreeId(s, id)
    case Obtain(b, fd, k) => EmptyAt(s, b, fd) && k < |s.released|
    case Dup(b, fd1, fd2) => SocketAt(s, b, fd1) && EmptyAt(s, b, fd2)
    case Pop => s.reaping == 0 && 0 < |s.released|
    case Reap => s.reaping != 0
    case Remark(b, mask) => b < |s.tables| && |mask| == |s.tables[b].mask| && TableOk(Table(s.tables[b].slots, mask))
    case Resize(b, n) => b < |s.tables| && 0 < n <= MAX_SIZE && TableOk(s.tables[b]) && !Overreads(s.tables[b], n)
    case Open(n) => 0 < n <= MAX_SIZE
  }

  function Put(s: State, b: nat, t: Table): State
    requires b < |s.tables|
  {
    s.(tables := s.tables[b := t])
  }

  function Counted(s: State, so: nat, change: int): State {
    s.(refcnt := s.refcnt[so := Short(CountOf(s, so) + change)])
  }

  /** --so->so_refcnt <= 0 hands the socket to soclose. */
  function Dropped(s: State, so: nat): State {
    var r := Counted(s, so, -1);
    if r.refcnt[so] <= 0 then r.(closing := r.closing + {so}) else r
  }

  ghost function Next(s: State, step: Step): State
    requires Enabled(s, step)
  {
    match step
    case Create(b, fd, so) => Put(s, b, WithBit(s.tables[b], fd, so)).(refcnt := s.refcnt[so := 1])
    case Orphan(so) => s.(orphans := s.orphans + {so})
    case Drop(b, fd) => Dropped(Put(s, b, WithoutBit(s.tables[b], fd)), s.tables[b].slots[fd])
    case Finish(so) => s.(closing := s.closing - {so}, refcnt := s.refcnt - {so})
    case Release(b, fd, id) =>
      Put(s, b, WithoutBit(s.tables[b], fd)).(released := s.released + [Node(id, s.tables[b].slots[fd])])
    case ReleaseCopy(b, fd, id) =>
      Counted(s.(released := s.released + [Node(id, s.tables[b].slots[fd])]), s.tables[b].slots[fd], 1)
    case Obtain(b, fd, k) =>
      Put(s, b, WithBit(s.tables[b], fd, s.released[k].so)).(released := s.released[..k] + s.released[k + 1..])
    case Dup(b, fd1, fd2) =>
      Counted(Put(s, b, WithBit(s.tables[b], fd2, s.tables[b].slots[fd1])), s.tables[b].slots[fd1], 1)
    case Pop => s.(released := s.released[1..], reaping := s.released[0].so)
    case Reap => Dropped(s.(reaping := 0), s.reaping)
    case Remark(b, mask) => Put(s, b, Table(s.tables[b].slots, mask))
    case Resize(b, n) => Put(s, b, Resized(s.tables[b], n))
    case Open(n) => s.(tables := s.tables + [Table(seq(n, _ => 0), seq(Words(n), _ => 0))])
  }

  // ---- What a step does to the number of references -----------------------------------------

  lemma {:induction false} TableChange(tables: seq<Table>, b: nat, t: Table, so: nat, n: nat)
    requires b < |tables| && n <= |tables|
    ensures TableRefs(tables[b := t], so, n) == TableRefs(tables, so, n)
      + if b < n then multiset(t.slots)[so] as int - multiset(tables[b].slots)[so] else 0
  {
    if n > 0 {
      TableChange(tables, b, t, so, n - 1);
    }
  }

  lemma SlotChange(slots: seq<nat>, fd: nat, v: nat, so: nat)
    requires fd < |slots|
    ensures multiset(slots[fd := v])[so] == multiset(slots)[so] - One(slots[fd], so) + One(v, so)
  {
  }

  /** Writing one slot moves the count by what was there and what is there now. */
  lemma PutRefs(s: State, b: nat, t: Table, fd: nat, v: nat, so: nat)
    requires b < |s.tables| && fd < |s.tables[b].slots| && t.slots == s.tables[b].slots[fd := v]
    ensures Refs(Put(s, b, t), so) == Refs(s, so) - One(s.tables[b].slots[fd], so) + One(v, so)
  {
    TableChange(s.tables, b, t, so, |s.tables|);
    SlotChange(s.tables[b].slots, fd, v, so);
  }

  lemma {:induction false} NodePrefix(a: seq<Node>, b: seq<Node>, so: nat, n: nat)
    requires n <= |a| && n <= |b| && a[..n] == b[..n]
    ensures NodeRefs(a, so, n) == NodeRefs(b, so, n)
  {
    if n > 0 {
      assert a[n - 1] == a[..n][n - 1] == b[..n][n - 1] == b[n - 1];
      assert a[..n - 1] == a[..n][..n - 1] == b[..n][..n - 1] == b[..n - 1];
      NodePrefix(a, b, so, n - 1);
    }
  }

  lemma NodeAppend(nodes: seq<Node>, x: Node, so: nat)
    ensures NodeRefs(nodes + [x], so, |nodes| + 1) == NodeRefs(nodes, so, |nodes|) + One(x.so, so)
  {
    NodePrefix(nodes, nodes + [x], so, |nodes|);
  }

  lemma {:induction false} NodeRemove(nodes: seq<Node>, k: nat, so: nat, n: nat)
    requires k < n <= |nodes|
    ensures NodeRefs(nodes[..k] + nodes[k + 1..], so, n - 1) == NodeRefs(nodes, so, n) - One(nodes[k].so, so)
  {
    if n == k + 1 {
      NodePrefix(nodes, nodes[..k] + nodes[k + 1..], so, k);
    } else {
      NodeRemove(nodes, k, so, n - 1);
    }
  }

  lemma {:induction false} Zeros(slots: seq<nat>, so: nat)
    requires so != 0 && forall k | 0 <= k < |slots| :: slots[k] == 0
    ensures multiset(slots)[so] == 0
  {
  }

  /** A resize loses a socket: a shrink to the highest used descriptor, which has one. */
  predicate Loses(t: Table, n: nat) {
    n < |t.slots| && LastUsed(t.mask, |t.mask|) == n && t.slots[n] != 0
  }

  lemma TailUnused(t: Table, n: nat, fd: nat)
    requires WellSized(t) && Guarded(t) && 0 < n && !Overreads(t, n)
    requires CopySize(t, n) <= fd < |t.slots| && t.slots[fd] != 0
    ensures fd == n && Loses(t, n)
  {
    assert fd == 32 * (fd / 32) + fd % 32;
    assert Bitmap.Has(t.mask[fd / 32], fd % 32);
    LastUsedIsHighest(t.mask, |t.mask|, fd / 32, fd % 32);
  }

  /** The pointers beyond the copied ones: none, or the one that is lost. */
  lemma TailRefs(t: Table, n: nat, so: nat)
    requires WellSized(t) && Guarded(t) && 0 < n && !Overreads(t, n) && so != 0
    ensures CopySize(t, n) <= |t.slots|
    ensures multiset(t.slots[CopySize(t, n)..])[so] == if Loses(t, n) then One(t.slots[n], so) else 0
  {
    var copy := CopySize(t, n);
    var tail := t.slots[copy..];
    if Loses(t, n) {
      var rest := t.slots[n + 1..];
      assert tail == [t.slots[n]] + rest;
      forall k | 0 <= k < |rest|
        ensures rest[k] == 0
      {
        if t.slots[n + 1 + k] != 0 {
          TailUnused(t, n, n + 1 + k);
        }
      }
      Zeros(rest, so);
    } else {
      forall k | 0 <= k < |tail|
        ensures tail[k] == 0
      {
        if t.slots[copy + k] != 0 {
          TailUnused(t, n, copy + k);
        }
      }
      Zeros(tail, so);
    }
  }

  /** Otherwise it keeps every socket. */
  lemma ResizeRefs(t: Table, n: nat, so: nat)
    requires WellSized(t) && Guarded(t) && 0 < n && !Overreads(t, n) && so != 0
    ensures multiset(Resized(t, n).slots)[so]
      == multiset(t.slots)[so] - if Loses(t, n) then One(t.slots[n], so) else 0
  {
    var copy := CopySize(t, n);
    TailRefs(t, n, so);
    assert t.slots == t.slots[..copy] + t.slots[copy..];
    Zeros(seq(NewSize(t, n) - copy, _ => 0), so);
  }

  /** By how much a step changes the number of references to so. */
  function Delta(s: State, step: Step, so: nat): int
    requires match step
             case Drop(b, fd) => At(s, b, fd)
             case ReleaseCopy(b, fd, _) => At(s, b, fd)
             case Dup(b, fd1, _) => At(s, b, fd1)
             case Resize(b, n) => b < |s.tables|
             case _ => true
  {
    match step
    case Create(_, _, x) => One(x, so)
    case Drop(b, fd) => 0 - One(s.tables[b].slots[fd], so) as int
    case ReleaseCopy(b, fd, _) => One(s.tables[b].slots[fd], so)
    case Dup(b, fd1, _) => One(s.tables[b].slots[fd1], so)
    case Reap => 0 - One(s.reaping, so) as int
    case Resize(b, n) => if Loses(s.tables[b], n) then 0 - One(s.tables[b].slots[n], so) as int else 0
    case _ => 0
  }

  lemma StepRefs(s: State, step: Step, so: nat)
    requires Enabled(s, step) && so != 0
    requires TablesOk(s.tables)
    ensures Refs(Next(s, step), so) == Refs(s, so) + Delta(s, step, so)
  {
    match step
    case Create(b, fd, x) => PutRefs(s, b, WithBit(s.tables[b], fd, x), fd, x, so);
    case Orphan(_) =>
    case Drop(b, fd) => PutRefs(s, b, WithoutBit(s.tables[b], fd), fd, 0, so);
    case Finish(_) =>
    case Release(b, fd, id) => ReleaseRefs(s, b, fd, id, so);
    case ReleaseCopy(b, fd, id) => NodeAppend(s.released, Node(id, s.tables[b].slots[fd]), so);
    case Obtain(b, fd, k) => ObtainRefs(s, b, fd, k, so);
    case Dup(b, fd1, fd2) => DupRefs(s, b, fd1, fd2, so);
    case Pop => PopRefs(s, so);
    case Reap =>
    case Remark(b, mask) => TableChange(s.tables, b, Table(s.tables[b].slots, mask), so, |s.tables|);
    case Resize(b, n) =>
      TableChange(s.tables, b, Resized(s.tables[b], n), so, |s.tables|);
      ResizeRefs(s.tables[b], n, so);
    case Open(n) => OpenRefs(s, n, so);
  }

  lemma ReleaseRefs(s: State, b: nat, fd: nat, id: LONG, so: nat)
    requires Enabled(s, Release(b, fd, id)) && so != 0
    ensures Refs(Next(s, Release(b, fd, id)), so) == Refs(s, so)
  {
    PutRefs(s, b, WithoutBit(s.tables[b], fd), fd, 0, so);
    NodeAppend(s.released, Node(id, s.tables[b].slots[fd]), so);
  }

  lemma ObtainRefs(s: State, b: nat, fd: nat, k: nat, so: nat)
    requires Enabled(s, Obtain(b, fd, k)) && so != 0
    ensures Refs(Next(s, Obtain(b, fd, k)), so) == Refs(s, so)
  {
    var x := s.released[k].so;
    PutRefs(s, b, WithBit(s.tables[b], fd, x), fd, x, so);
    NodeRemove(s.released, k, so, |s.released|);
  }

  lemma DupRefs(s: State, b: nat, fd1: nat, fd2: nat, so: nat)
    requires Enabled(s, Dup(b, fd1, fd2)) && so != 0
    ensures Refs(Next(s, Dup(b, fd1, fd2)), so) == Refs(s, so) + One(s.tables[b].slots[fd1], so)
  {
    var x := s.tables[b].slots[fd1];
    PutRefs(s, b, WithBit(s.tables[b], fd2, x), fd2, x, so);
  }

  lemma PopRefs(s: State, so: nat)
    requires Enabled(s, Pop) && so != 0
    ensures Refs(Next(s, Pop), so) == Refs(s, so)
  {
    NodeTail(s.released, so);
  }

  lemma NodeTail(nodes: seq<Node>, so: nat)
    requires |nodes| > 0
    ensures NodeRefs(nodes[1..], so, |nodes| - 1) == NodeRefs(nodes, so, |nodes|) - One(nodes[0].so, so)
  {
    NodeRemove(nodes, 0, so, |nodes|);
    assert nodes[..0] + nodes[1..] == nodes[1..];
  }

  lemma OpenRefs(s: State, n: nat, so: nat)
    requires Enabled(s, Open(n)) && so != 0
    ensures Refs(Next(s, Open(n)), so) == Refs(s, so)
  {
    OpenTableRefs(s.tables, Table(seq(n, _ => 0), seq(Words(n), _ => 0)), so, |s.tables|);
    Zeros(seq(n, _ => 0), so);
  }

  lemma {:induction false} OpenTableRefs(tables: seq<Table>, t: Table, so: nat, n: nat)
    requires n <= |tables|
    ensures TableRefs(tables + [t], so, n) == TableRefs(tables, so, n)
  {
    if n > 0 {
      OpenTableRefs(tables, t, so, n - 1);
    }
  }

  // ---- The invariant ------------------------------------------------------------------------

  /** What a step must avoid: taking a reference that the 16-bit counter cannot hold, and the one
      resize that loses a socket. */
  predicate Safe(s: State, step: Step) {
    match step
    case ReleaseCopy(b, fd, _) => At(s, b, fd) ==> CountOf(s, s.tables[b].slots[fd]) < 0x7FFF
    case Dup(b, fd1, _) => At(s, b, fd1) ==> CountOf(s, s.tables[b].slots[fd1]) < 0x7FFF
    case Resize(b, n) => b < |s.tables| ==> !Loses(s.tables[b], n)
    case _ => true
  }

  lemma BitSet(mask: seq<bv32>, w: nat, i: nat)
    requires w < |mask| && i < 32
    ensures OnlyBitOf(mask, mask[w := mask[w] | Bitmap.Bit(i)], w, i, true)
  {
    SetWord(mask[w], Bitmap.Bit(i), i);
    InWord(mask, mask[w := mask[w] | Bitmap.Bit(i)], mask[w] | Bitmap.Bit(i), w, i, true);
  }

  lemma BitCleared(mask: seq<bv32>, w: nat, i: nat)
    requires w < |mask| && i < 32
    ensures OnlyBitOf(mask, mask[w := mask[w] & !Bitmap.Bit(i)], w, i, false)
  {
    ClearWord(mask[w], Bitmap.Bit(i), i);
    InWord(mask, mask[w := mask[w] & !Bitmap.Bit(i)], mask[w] & !Bitmap.Bit(i), w, i, false);
  }

  lemma WithBitOk(t: Table, fd: nat, so: nat)
    requires TableOk(t) && fd < |t.slots|
    ensures TableOk(WithBit(t, fd, so))
  {
    BitSet(t.mask, fd / NFDBITS, fd % NFDBITS);
    GuardedInstall(t, WithBit(t, fd, so), fd, so);
  }

  lemma WithoutBitOk(t: Table, fd: nat)
    requires TableOk(t) && fd < |t.slots|
    ensures TableOk(WithoutBit(t, fd))
  {
    BitCleared(t.mask, fd / NFDBITS, fd % NFDBITS);
    GuardedRemove(t, WithoutBit(t, fd), fd);
  }

  /** The one table a step rewrites. */
  lemma StepTables(s: State, step: Step)
    requires Enabled(s, step) && TablesOk(s.tables)
    ensures TablesOk(Next(s, step).tables)
  {
    match step
    case Create(b, fd, x) => WithBitOk(s.tables[b], fd, x);
    case Drop(b, fd) => WithoutBitOk(s.tables[b], fd);
    case Release(b, fd, _) => WithoutBitOk(s.tables[b], fd);
    case Obtain(b, fd, k) => WithBitOk(s.tables[b], fd, s.released[k].so);
    case Dup(b, fd1, fd2) => WithBitOk(s.tables[b], fd2, s.tables[b].slots[fd1]);
    case Resize(b, n) => ResizeOk(s.tables[b], n);
    case _ =>
  }

  lemma ResizeOk(t: Table, n: nat)
    requires TableOk(t) && 0 < n <= MAX_SIZE && !Overreads(t, n)
    ensures TableOk(Resized(t, n))
  {
    ResizeGuarded(t, n);
  }

  /** Taking or dropping a reference to x moves x's counter by one while it fits, and the drop
      that reaches zero hands x to soclose. */
  lemma DropFate(s: State, x: nat)
    requires Fates(s) && 0 < CountOf(s, x)
    ensures var r := Dropped(s, x);
            && Fates(r) && r.refcnt == s.refcnt[x := CountOf(s, x) - 1]
            && r.closing == s.closing + if CountOf(s, x) == 1 then {x} else {}
  {
    assert Short(CountOf(s, x) - 1) == CountOf(s, x) - 1;
  }

  lemma TakeFate(s: State, x: nat)
    requires Fates(s) && 0 < CountOf(s, x) < 0x7FFF
    ensures var r := Counted(s, x, 1); Fates(r) && r.refcnt == s.refcnt[x := CountOf(s, x) + 1]
  {
    assert Short(CountOf(s, x) + 1) == CountOf(s, x) + 1;
  }

  /** A step moves a counter as it moves the references, and the counters of closing, free and
      unpublished sockets stay as they should. */
  lemma StepFates(s: State, step: Step)
    requires Inv(s) && Enabled(s, step) && Safe(s, step)
    ensures Fates(Next(s, step))
    ensures forall so: nat | so != 0 :: CountOf(Next(s, step), so) == CountOf(s, so) + Delta(s, step, so)
  {
    match step
    case Drop(b, fd) =>
      SlotHeld(s, b, fd);
      DropFate(Put(s, b, WithoutBit(s.tables[b], fd)), s.tables[b].slots[fd]);
    case ReleaseCopy(_, _, _) => TakeFates(s, step);
    case Dup(_, _, _) => TakeFates(s, step);
    case Reap =>
      assert CountOf(s, s.reaping) == Refs(s, s.reaping) > 0;
      DropFate(s.(reaping := 0), s.reaping);
    case _ => OtherFates(s, step);
  }

  lemma TakeFates(s: State, step: Step)
    requires Inv(s) && Enabled(s, step) && Safe(s, step) && (step.ReleaseCopy? || step.Dup?)
    ensures Fates(Next(s, step))
    ensures forall so: nat | so != 0 :: CountOf(Next(s, step), so) == CountOf(s, so) + Delta(s, step, so)
  {
    match step
    case ReleaseCopy(b, fd, _) =>
      SlotHeld(s, b, fd);
      TakeFate(s.(released := Next(s, step).released), s.tables[b].slots[fd]);
    case Dup(b, fd1, _) =>
      SlotHeld(s, b, fd1);
      TakeFate(s.(tables := Next(s, step).tables), s.tables[b].slots[fd1]);
  }

  lemma OtherFates(s: State, step: Step)
    requires Fates(s) && Enabled(s, step) && !step.Drop? && !step.ReleaseCopy? && !step.Dup? && !step.Reap?
    requires Safe(s, step)
    ensures Fates(Next(s, step))
    ensures forall so: nat | so != 0 :: CountOf(Next(s, step), so) == CountOf(s, so) + Delta(s, step, so)
  {
  }

  lemma StepDistinct(s: State, step: Step)
    requires Enabled(s, step) && Distinct(Ids(s.released))
    ensures Distinct(Ids(Next(s, step).released))
  {
    var ids, after := Ids(s.released), Ids(Next(s, step).released);
    match step
    case Release(_, _, id) =>
      AddKeepsDistinct(ids, id);
      assert after == ids + [id];
    case ReleaseCopy(_, _, id) =>
      AddKeepsDistinct(ids, id);
      assert after == ids + [id];
    case Obtain(_, _, k) =>
      RemoveKeepsDistinct(ids, k);
      assert after == ids[..k] + ids[k + 1..];
    case Pop =>
      RemoveKeepsDistinct(ids, 0);
      assert after == ids[..0] + ids[1..];
    case _ =>
  }

  /** A socket in a table has a positive count. */
  lemma SlotHeld(s: State, b: nat, fd: nat)
    requires Inv(s) && SocketAt(s, b, fd)
    ensures CountOf(s, s.tables[b].slots[fd]) > 0
  {
    var so := s.tables[b].slots[fd];
    TableHolds(s.tables, b, fd, |s.tables|);
    assert CountOf(s, so) == Refs(s, so);
  }

  lemma {:induction false} TableHolds(tables: seq<Table>, b: nat, fd: nat, n: nat)
    requires b < n <= |tables| && fd < |tables[b].slots|
    ensures TableRefs(tables, tables[b].slots[fd], n) > 0
  {
    if b < n - 1 {
      TableHolds(tables, b, fd, n - 1);
    } else {
      assert tables[b].slots[fd] in multiset(tables[b].slots);
    }
  }

  /** A step keeps the invariant exactly when it is safe. */
  lemma StepKeepsInv(s: State, step: Step)
    requires Inv(s) && Enabled(s, step)
    ensures Inv(Next(s, step)) <==> Safe(s, step)
  {
    var t := Next(s, step);
    if Safe(s, step) {
      StepTables(s, step);
      StepDistinct(s, step);
      StepFates(s, step);
      forall so: nat | so != 0
        ensures CountOf(t, so) == Refs(t, so)
      {
        StepRefs(s, step, so);
        assert CountOf(s, so) == Refs(s, so);
      }
    } else {
      Unsafe(s, step);
    }
  }

  lemma Unsafe(s: State, step: Step)
    requires Inv(s) && Enabled(s, step) && !Safe(s, step)
    ensures !Counts(Next(s, step))
  {
    var t := Next(s, step);
    var so := match step
              case ReleaseCopy(b, fd, _) => s.tables[b].slots[fd]
              case Dup(b, fd1, _) => s.tables[b].slots[fd1]
              case Resize(b, n) => s.tables[b].slots[n];
    assert so != 0;
    StepRefs(s, step, so);
    assert CountOf(s, so) == Refs(s, so);
    assert CountOf(t, so) != Refs(t, so);
  }

  // ---- Whole runs ---------------------------------------------------------------------------

  ghost predicate Reached(s: State, steps: seq<Step>, t: State)
    decreases |steps|
  {
    if steps == [] then s == t else Enabled(s, steps[0]) && Reached(Next(s, steps[0]), steps[1..], t)
  }

  ghost predicate AllSafe(s: State, steps: seq<Step>)
    decreases |steps|
  {
    steps != [] && Enabled(s, steps[0]) ==> Safe(s, steps[0]) && AllSafe(Next(s, steps[0]), steps[1..])
  }

  /** Every run of safe steps, in whatever order the tasks take them, keeps the invariant. */
  lemma {:induction false} RunKeepsInv(s: State, steps: seq<Step>, t: State)
    requires Inv(s) && Reached(s, steps, t) && AllSafe(s, steps)
    ensures Inv(t)
    decreases |steps|
  {
    if steps != [] {
      StepKeepsInv(s, steps[0]);
      RunKeepsInv(Next(s, steps[0]), steps[1..], t);
    }
  }

  lemma StartInv()
    ensures Inv(State([], [], map[], {}, 0, {}))
  {
  }

  /** soclose starts in exactly those steps that take the last reference away. */
  lemma ClosesExactlyAtZero(s: State, step: Step, so: nat)
    requires Inv(s) && Enabled(s, step) && Safe(s, step) && so != 0
    ensures so in Next(s, step).closing && so !in s.closing
      <==> Refs(s, so) > 0 && Refs(Next(s, step), so) == 0
  {
    StepKeepsInv(s, step);
    assert CountOf(s, so) == Refs(s, so);
    assert CountOf(Next(s, step), so) == Refs(Next(s, step), so);
  }

  /** What a table, a released node or the reaper refers to is a live socket: published, not freed
      and not being closed. */
  lemma ReferencedIsLive(s: State, so: nat)
    requires Inv(s) && so != 0 && Refs(s, so) > 0
    ensures so in s.refcnt && so !in s.closing && so !in s.orphans
  {
    assert CountOf(s, so) == Refs(s, so);
  }

  /** so_refcnt is a short: two copies released beyond its range, one close is enough to start
      soclose on a socket with 32768 references left. */
  lemma OverflowClosesEarly(s: State, b: nat, fd: nat)
    requires Inv(s) && SocketAt(s, b, fd) && CountOf(s, s.tables[b].slots[fd]) == 0x7FFF
    ensures var so := s.tables[b].slots[fd];
            var t := Next(Next(s, ReleaseCopy(b, fd, 0)), ReleaseCopy(b, fd, 0));
            var u := Next(t, Drop(b, fd));
            so in u.closing && Refs(u, so) == 0x8000
  {
    var so := s.tables[b].slots[fd];
    assert CountOf(s, so) == Refs(s, so);
    CopyCount(s, b, fd);
    CopyCount(Next(s, ReleaseCopy(b, fd, 0)), b, fd);
    DropCount(Next(Next(s, ReleaseCopy(b, fd, 0)), ReleaseCopy(b, fd, 0)), b, fd);
  }

  /** And it comes to that: releasing copies, all of them safe steps, brings the count of any socket in a
      table up to what the counter can hold. */
  lemma {:induction false} CountReaches(s: State, b: nat, fd: nat) returns (steps: seq<Step>, t: State)
    requires Inv(s) && SocketAt(s, b, fd)
    ensures Reached(s, steps, t) && AllSafe(s, steps) && Inv(t)
    ensures t.tables == s.tables && CountOf(t, s.tables[b].slots[fd]) == 0x7FFF
    decreases 0x7FFF - CountOf(s, s.tables[b].slots[fd])
  {
    SlotHeld(s, b, fd);
    if CountOf(s, s.tables[b].slots[fd]) == 0x7FFF {
      steps, t := [], s;
    } else {
      var step, rest := ReleaseCopy(b, fd, 0), [];
      StepKeepsInv(s, step);
      CopyCount(s, b, fd);
      rest, t := CountReaches(Next(s, step), b, fd);
      steps := [step] + rest;
      assert steps[1..] == rest;
    }
  }

  lemma CopyCount(s: State, b: nat, fd: nat)
    requires SocketAt(s, b, fd) && TablesOk(s.tables)
    ensures var so := s.tables[b].slots[fd]; var t := Next(s, ReleaseCopy(b, fd, 0));
            t.tables == s.tables && Refs(t, so) == Refs(s, so) + 1 && CountOf(t, so) == Short(CountOf(s, so) + 1)
  {
    StepRefs(s, ReleaseCopy(b, fd, 0), s.tables[b].slots[fd]);
  }

  lemma DropCount(s: State, b: nat, fd: nat)
    requires SocketAt(s, b, fd) && TablesOk(s.tables)
    ensures var so := s.tables[b].slots[fd]; var t := Next(s, Drop(b, fd));
            && Refs(t, so) == Refs(s, so) - 1
            && (so in t.closing <==> so in s.closing || Short(CountOf(s, so) - 1) <= 0)
  {
    StepRefs(s, Drop(b, fd), s.tables[b].slots[fd]);
  }

  // ---- What is released can be obtained -----------------------------------------------------

  /** Released under an id and obtained again, from whichever base and with whatever descriptor: the node
      that holds it is there, and taking it gives back that very socket, with its count, and leaves the
      other nodes as they were. */
  lemma ReleasedIsObtained(s: State, b: nat, fd: nat, id: LONG, b2: nat, fd2: nat)
    requires Enabled(s, Release(b, fd, id)) && EmptyAt(Next(s, Release(b, fd, id)), b2, fd2)
    ensures var so, t, k := s.tables[b].slots[fd], Next(s, Release(b, fd, id)), |s.released|;
            && |t.released| == k + 1 && t.released[k].id == id && t.released[k].so == so
            && Enabled(t, Obtain(b2, fd2, k))
            && var u := Next(t, Obtain(b2, fd2, k));
               && u.tables[b2].slots[fd2] == so && u.released == s.released
               && u.refcnt == s.refcnt && u.closing == s.closing
  {
    var t, k := Next(s, Release(b, fd, id)), |s.released|;
    assert t.released[..k] + t.released[k + 1..] == s.released;
  }

  // ---- Descriptors come free again ----------------------------------------------------------

  /** A descriptor of a base whose usage bit is clear. */
  ghost predicate FreeAt(s: State, b: nat, fd: nat) {
    b < |s.tables| && !BitAt(s.tables[b].mask, fd / 32, fd % 32)
  }

  /** Steps that put a socket at the descriptor, or mark it as used without one. */
  predicate Takes(step: Step, b: nat, fd: nat) {
    match step
    case Create(b1, fd1, _) => b1 == b && fd1 == fd
    case Obtain(b1, fd1, _) => b1 == b && fd1 == fd
    case Dup(b1, _, fd2) => b1 == b && fd2 == fd
    case Remark(b1, mask) => b1 == b && BitAt(mask, fd / 32, fd % 32)
    case _ => false
  }

  /** Bits of one table: publishing sets one, closing and releasing clear one, nothing else moves. */
  lemma TableBits(t: Table, fd: nat, so: nat)
    requires WellSized(t) && fd < |t.slots|
    ensures OnlyBitOf(t.mask, WithBit(t, fd, so).mask, fd / 32, fd % 32, true)
    ensures OnlyBitOf(t.mask, WithoutBit(t, fd).mask, fd / 32, fd % 32, false)
  {
    BitSet(t.mask, fd / NFDBITS, fd % NFDBITS);
    BitCleared(t.mask, fd / NFDBITS, fd % NFDBITS);
  }

  /** One step: a free descriptor stays free unless the step takes it. */
  lemma FreeStays(s: State, step: Step, b: nat, fd: nat)
    requires TablesOk(s.tables) && Enabled(s, step) && FreeAt(s, b, fd) && !Takes(step, b, fd)
    ensures FreeAt(Next(s, step), b, fd)
  {
    assert 32 * (fd / 32) + fd % 32 == fd;
    match step
    case Create(b1, fd1, x) => TableBits(s.tables[b1], fd1, x);
    case Drop(b1, fd1) => TableBits(s.tables[b1], fd1, 0);
    case Release(b1, fd1, _) => TableBits(s.tables[b1], fd1, 0);
    case Obtain(b1, fd1, k) => TableBits(s.tables[b1], fd1, s.released[k].so);
    case Dup(b1, fd1, fd2) => TableBits(s.tables[b1], fd2, s.tables[b1].slots[fd1]);
    case Resize(b1, n) => ResizedAt(s.tables[b1], n, fd / 32, fd % 32);
    case _ =>
  }

  /** A closed or released descriptor is free at once and for the rest of every run that does not take it:
      any search with a link library that accepts it comes to it at the latest, and gives exactly it back
      if every lower one is used or refused. */
  lemma {:induction false} ClosedIsFree(s: State, close: Step, steps: seq<Step>, t: State, b: nat, fd: nat,
                                        refuses: nat -> bool)
    requires TablesOk(s.tables) && Enabled(s, close) && Reached(Next(s, close), steps, t)
    requires close == Drop(b, fd) || (close.Release? && close.b == b && close.fd == fd)
    requires (forall step <- steps :: !Takes(step, b, fd)) && !refuses(fd)
    ensures b < |t.tables|
    ensures var mask := t.tables[b].mask; var f := FirstFree(mask, refuses, 0, 0);
            f <= fd && (fd < 32 * |mask| && BusyBelow(mask, refuses, fd) ==> f == fd)
  {
    CloseFrees(s, close, b, fd);
    FreeAlong(Next(s, close), steps, t, b, fd);
    FreeIsFound(t.tables[b].mask, refuses, fd);
  }

  ghost predicate BusyBelow(mask: seq<bv32>, refuses: nat -> bool, fd: nat) {
    forall v: nat, j: nat | j < 32 && 32 * v + j < fd :: BitAt(mask, v, j) || refuses(32 * v + j)
  }

  lemma CloseFrees(s: State, close: Step, b: nat, fd: nat)
    requires TablesOk(s.tables) && Enabled(s, close)
    requires close == Drop(b, fd) || (close.Release? && close.b == b && close.fd == fd)
    ensures TablesOk(Next(s, close).tables) && FreeAt(Next(s, close), b, fd)
  {
    StepTables(s, close);
    TableBits(s.tables[b], fd, 0);
  }

  lemma {:induction false} FreeAlong(s: State, steps: seq<Step>, t: State, b: nat, fd: nat)
    requires TablesOk(s.tables) && FreeAt(s, b, fd) && Reached(s, steps, t)
    requires forall step <- steps :: !Takes(step, b, fd)
    ensures FreeAt(t, b, fd)
    decreases |steps|
  {
    if steps != [] {
      assert steps[0] in steps;
      StepTables(s, steps[0]);
      FreeStays(s, steps[0], b, fd);
      FreeAlong(Next(s, steps[0]), steps[1..], t, b, fd);
    }
  }

  lemma FreeIsFound(mask: seq<bv32>, refuses: nat -> bool, fd: nat)
    requires !BitAt(mask, fd / 32, fd % 32) && !refuses(fd)
    ensures var f := FirstFree(mask, refuses, 0, 0);
            f <= fd && (fd < 32 * |mask| && BusyBelow(mask, refuses, fd) ==> f == fd)
  {
    var f := FirstFree(mask, refuses, 0, 0);
    assert 32 * (fd / 32) + fd % 32 == fd;
    if fd < 32 * |mask| {
      FirstFreeIsLeast(mask, refuses, 0, 0, fd / 32, fd % 32);
      if f < fd {
        FirstFreeIsLeast(mask, refuses, 0, 0, f / 32, f % 32);
        assert 32 * (f / 32) + f % 32 == f && !BitAt(mask, f / 32, f % 32);
      }
    } else if mask != [] {
      FirstFreeIsLeast(mask, refuses, 0, 0, 0, 0);
    }
  }

  // ---- What a scan reads --------------------------------------------------------------------

  /** The socket has been published and not freed, here and all along the run. */
  ghost predicate StaysPublished(s: State, steps: seq<Step>, so: nat)
    decreases |steps|
  {
    so in s.refcnt && (steps != [] && Enabled(s, steps[0]) ==> StaysPublished(Next(s, steps[0]), steps[1..], so))
  }

  /** Steps that leave the descriptor alone: it is neither closed nor released. */
  predicate Spares(step: Step, b: nat, fd: nat) {
    match step
    case Drop(b1, fd1) => !(b1 == b && fd1 == fd)
    case Release(b1, fd1, _) => !(b1 == b && fd1 == fd)
    case _ => true
  }

  ghost predicate Untouched(steps: seq<Step>, b: nat, fd: nat) {
    forall step <- steps :: Spares(step, b, fd)
  }

  predicate Names(s: State, b: nat, fd: nat, so: nat) {
    SocketAt(s, b, fd) && s.tables[b].slots[fd] == so
  }

  /** One step: nothing but closing and releasing takes a socket from its descriptor. */
  lemma StepHolds(s: State, step: Step, b: nat, fd: nat, so: nat)
    requires Inv(s) && Enabled(s, step) && Safe(s, step) && Spares(step, b, fd) && Names(s, b, fd, so)
    ensures Names(Next(s, step), b, fd, so)
  {
    if step.Resize? && step.b == b {
      ResizeHolds(s.tables[b], step.n, fd);
    }
  }

  lemma ResizeHolds(t: Table, n: nat, fd: nat)
    requires TableOk(t) && 0 < n && !Overreads(t, n) && !Loses(t, n) && fd < |t.slots| && t.slots[fd] != 0
    ensures var r := Resized(t, n); fd < |r.slots| && fd / NFDBITS < |r.mask| && r.slots[fd] == t.slots[fd]
  {
    if CopySize(t, n) <= fd {
      TailUnused(t, n, fd);
      assert false;
    }
  }

  /** As long as a descriptor is neither closed nor released, the socket it names stays there and stays
      published, whatever the other descriptors, tasks and resizes do. */
  lemma {:induction false} DescriptorHolds(s: State, steps: seq<Step>, t: State, b: nat, fd: nat, so: nat)
    requires Inv(s) && Reached(s, steps, t) && AllSafe(s, steps) && Untouched(steps, b, fd) && Names(s, b, fd, so)
    ensures StaysPublished(s, steps, so) && Names(t, b, fd, so)
    decreases |steps|
  {
    SlotHeld(s, b, fd);
    if steps != [] {
      var m := Next(s, steps[0]);
      StepKeepsInv(s, steps[0]);
      assert steps[0] in steps;
      StepHolds(s, steps[0], b, fd, so);
      DescriptorHolds(m, steps[1..], t, b, fd, so);
    }
  }

  /** Without such a descriptor the other references can all go: the reaper takes the released nodes, the
      remaining table entries are closed one by one, and soclose ends. */
  lemma {:induction false} OthersCanFree(s: State, b: nat, fd: nat, so: nat) returns (steps: seq<Step>, t: State)
    requires Inv(s) && so in s.refcnt && !Names(s, b, fd, so)
    ensures Reached(s, steps, t) && AllSafe(s, steps) && Untouched(steps, b, fd) && so !in t.refcnt
    decreases Refs(s, so) + 2 * |s.released| + if s.reaping != 0 then 1 else 0
  {
    var step := NextToFree(s, b, fd, so);
    var m := Next(s, step);
    StepKeepsInv(s, step);
    if step.Finish? {
      steps, t := [step], m;
      assert [step][1..] == [];
    } else {
      var rest;
      StepRefs(s, step, so);
      rest, t := OthersCanFree(m, b, fd, so);
      steps := [step] + rest;
      assert steps[1..] == rest;
    }
  }

  /** The next of those steps. */
  lemma NextToFree(s: State, b: nat, fd: nat, so: nat) returns (step: Step)
    requires Inv(s) && so in s.refcnt && !Names(s, b, fd, so)
    ensures Enabled(s, step) && Safe(s, step) && Spares(step, b, fd)
    ensures step == Finish(so) || (
      && so in Next(s, step).refcnt && !Names(Next(s, step), b, fd, so)
      && match step
         case Reap => true
         case Pop => true
         case Drop(b1, fd1) => Names(s, b1, fd1, so)
         case _ => false)
  {
    if so in s.closing {
      step := Finish(so);
    } else if s.reaping != 0 {
      step := Reap;
    } else if s.released != [] {
      step := Pop;
    } else {
      assert CountOf(s, so) == Refs(s, so) && Refs(s, so) > 0;
      var b1, fd1 := EntryOf(s.tables, so, |s.tables|);
      assert TableOk(s.tables[b1]);
      step := Drop(b1, fd1);
    }
  }

  lemma {:induction false} EntryOf(tables: seq<Table>, so: nat, n: nat) returns (b: nat, fd: nat)
    requires n <= |tables| && TableRefs(tables, so, n) > 0
    ensures b < n && fd < |tables[b].slots| && tables[b].slots[fd] == so
  {
    if so in multiset(tables[n - 1].slots) {
      b := n - 1;
      assert so in tables[b].slots;
      var k :| 0 <= k < |tables[b].slots| && tables[b].slots[k] == so;
      fd := k;
    } else {
      b, fd := EntryOf(tables, so, n - 1);
    }
  }

  lemma {:induction false} PublishedAtEnd(s: State, steps: seq<Step>, t: State, so: nat)
    requires Reached(s, steps, t) && StaysPublished(s, steps, so)
    ensures so in t.refcnt
    decreases |steps|
  {
    if steps != [] {
      PublishedAtEnd(Next(s, steps[0]), steps[1..], t, so);
    }
  }

  /** A run of safe steps that leaves the descriptor alone. */
  ghost predicate SparingRun(s: State, steps: seq<Step>, t: State, b: nat, fd: nat) {
    Reached(s, steps, t) && AllSafe(s, steps) && Untouched(steps, b, fd)
  }

  /** However such a run goes, the socket stays published. */
  ghost predicate CountedOn(s: State, b: nat, fd: nat, so: nat) {
    forall steps, t | SparingRun(s, steps, t, b, fd) :: StaysPublished(s, steps, so)
  }

  lemma NotCountedOn(s: State, b: nat, fd: nat, so: nat, steps: seq<Step>, t: State)
    requires SparingRun(s, steps, t, b, fd) && !StaysPublished(s, steps, so)
    ensures !CountedOn(s, b, fd, so)
  {
  }

  /** A scan goes by a table as it once was, and uses the sockets it finds there without a reference. Who
      keeps a descriptor, neither closing nor releasing it, can count on a socket throughout every
      run of the others exactly if that descriptor names it. */
  lemma SnapshotSocketLives(s: State, b: nat, fd: nat, so: nat)
    requires Inv(s) && so in s.refcnt
    ensures CountedOn(s, b, fd, so) <==> Names(s, b, fd, so)
  {
    if Names(s, b, fd, so) {
      forall steps, t | SparingRun(s, steps, t, b, fd)
        ensures StaysPublished(s, steps, so)
      {
        DescriptorHolds(s, steps, t, b, fd, so);
      }
    } else {
      var steps, t := OthersCanFree(s, b, fd, so);
      FreedIsNotPublished(s, steps, t, so);
      NotCountedOn(s, b, fd, so, steps, t);
    }
  }

  lemma FreedIsNotPublished(s: State, steps: seq<Step>, t: State, so: nat)
    requires Reached(s, steps, t) && so !in t.refcnt
    ensures !StaysPublished(s, steps, so)
  {
    if StaysPublished(s, steps, so) {
      PublishedAtEnd(s, steps, t, so);
    }
  }

  /** It need not be: the last reference is dropped and the socket freed between the snapshot and the
      use. A table replaced before that goes on naming it for ever, as nothing clears a retired one. */
  lemma SnapshotOutlivesSocket(s: State, b: nat, fd: nat, n: nat)
    requires Inv(s) && SocketAt(s, b, fd) && CountOf(s, s.tables[b].slots[fd]) == 1
    requires |s.tables[b].slots| <= n <= MAX_SIZE
    ensures var so := s.tables[b].slots[fd];
            var r := Next(s, Resize(b, n));
            && Enabled(s, Resize(b, n)) && Safe(s, Resize(b, n)) && Enabled(r, Drop(b, fd))
            && Enabled(Next(r, Drop(b, fd)), Finish(so)) && so !in Next(Next(r, Drop(b, fd)), Finish(so)).refcnt
  {
    var so := s.tables[b].slots[fd];
    assert TableOk(s.tables[b]);
    var r := Next(s, Resize(b, n));
    assert r.tables[b].slots[fd] == so && r.refcnt == s.refcnt;
    StepKeepsInv(s, Resize(b, n));
    DropFate(Put(r, b, WithoutBit(r.tables[b], fd)), so);
  }
}
