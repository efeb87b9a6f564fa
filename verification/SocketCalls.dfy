/** The library vectors that create, close, share and hand over sockets, each tied to the steps of
    SocketRefs it takes (src/api/amiga_generic.c, src/api/amiga_syscalls.c). A vector that can
    sleep is cut where it sleeps: other tasks may run any steps before it goes on. */
module SocketCalls {

  import opened Common
  import opened DescriptorTable
  import opened ReleaseIds
  import opened SocketRefs
  import Bitmap

  const EBADF := 9
  const ENOMEM := 12
  const EINVAL := 22
  const EMFILE := 24
  const EWOULDBLOCK := 35
  const EPFNOSUPPORT := 46

  /** What sdFind gives back: the bitmap with refused descriptors marked, and a free one. */
  datatype Search = Search(fd: Option<nat>, mask: seq<bv32>)

  ghost predicate Searches(t: Table, f: Search) {
    && |f.mask| == |t.mask|
    && (forall w: nat, i: nat | w < |t.mask| && i < 32 :: Bitmap.Has(t.mask[w], i) ==> Bitmap.Has(f.mask[w], i))
    && (f.fd.Some? ==> f.fd.value < |t.slots| && !BitAt(t.mask, f.fd.value / 32, f.fd.value % 32))
  }

  /** The search of DescriptorBase.Find is one. */
  lemma FindSearches(t: Table, refuses: nat -> bool, mask: seq<bv32>)
    requires TableOk(t) && MarkedBelow(t.mask, mask, FirstFree(t.mask, refuses, 0, 0))
    ensures var f := FirstFree(t.mask, refuses, 0, 0);
            Searches(t, Search(if f < |t.slots| then Some(f) else None, mask))
  {
    var f := FirstFree(t.mask, refuses, 0, 0);
    if f < |t.slots| {
      FirstFreeIsLeast(t.mask, refuses, 0, 0, f / 32, f % 32);
    }
  }

  /** The table r is t but for one descriptor: the socket there, and whether it is in use. */
  ghost predicate Holds(t: Table, r: Table, fd: int, so: nat, used: bool) {
    && 0 <= fd < |t.slots| && r.slots == t.slots[fd := so]
    && OnlyBitOf(t.mask, r.mask, fd / 32, fd % 32, used)
  }

  /** Dup2Socket after its first half: done, or about to take fd2 for the socket so (0 to only
      reserve fd2). slept says that it closed what was at fd2, and so may have slept; picked, that
      fd2 comes from sdFind. */
  datatype Dup2 = Done(error: int, fd: int) | Ready(so: nat, fd2: nat, slept: bool, picked: bool)

  class SocketLayer {
    var tables: seq<Table>
    var released: seq<Node>
    var refcnt: map<nat, int>
    var closing: set<nat>
    var reaping: nat
    var orphans: set<nat>
    const ids: IdCounter

    ghost predicate Valid()
      reads this, ids
    {
      ids.Valid() && TablesOk(tables)
    }

    ghost function Now(): State
      reads this
    {
      State(tables, released, refcnt, closing, reaping, orphans)
    }

    constructor ()
      ensures Valid() && fresh(ids) && Now() == State([], [], map[], {}, 0, {})
    {
      tables, released, refcnt, closing, reaping, orphans := [], [], map[], {}, 0, {};
      ids := new IdCounter();
    }

    /** getSock: the socket at a descriptor, 0 if there is none. */
    function Sock(b: nat, fd: int): (so: nat)
      requires b < |tables|
      reads this
      ensures so != 0 ==> 0 <= fd < |tables[b].slots| && so == tables[b].slots[fd]
    {
      if 0 <= fd < |tables[b].slots| then tables[b].slots[fd] else 0
    }

    /** The marks sdFind leaves on refused descriptors. */
    method Mark(b: nat, find: Search)
      requires Valid() && b < |tables| && Searches(tables[b], find)
      modifies this
      ensures Valid() && Enabled(old(Now()), Remark(b, find.mask))
      ensures Now() == Next(old(Now()), Remark(b, find.mask))
    {
      MarkOk(tables[b], find);
      tables := tables[b := Table(tables[b].slots, find.mask)];
    }

    /** _socket. created is what socreate makes, 0 when it fails with the given error. A socket
        whose descriptor the link library refuses is never published. */
    method Socket(b: nat, find: Search, created: nat, error: int, cbAlloc: int) returns (r: int, fd: nat)
      requires Valid() && b < |tables| && Searches(tables[b], find)
      requires created == 0 ==> error != 0
      requires created != 0 ==> Unused(Now(), created)
      modifies this
      ensures Valid()
      ensures r == if find.fd.None? then EMFILE else if created == 0 then error else cbAlloc
      ensures r == 0 ==> find.fd == Some(fd)
      ensures Reached(old(Now()), [Remark(b, find.mask)] + (
        if find.fd.None? || created == 0 then []
        else if r != 0 then [Orphan(created)] else [Create(b, fd, created)]), Now())
      ensures r == 0 ==> |tables| == |old(tables)| && refcnt == old(refcnt)[created := 1]
                         && Holds(Table(old(tables)[b].slots, find.mask), tables[b], fd, created, true)
    {
      ghost var s0 := Now();
      Mark(b, find);
      fd := 0;
      if find.fd.None? {
        r := EMFILE;
      } else if created == 0 {
        r := error;
      } else {
        fd := find.fd.value;
        r := cbAlloc;
        if r == 0 {
          refcnt := refcnt[created := 1];
          Publish(b, fd, created);
        } else {
          orphans := orphans + {created};
        }
      }
    }

    /** _accept from when a connection is queued on the listener. It leaves the queue only after
        the link library has agreed, so unlike _socket it orphans nothing. */
    method Accept(b: nat, find: Search, queued: nat, cbAlloc: int) returns (r: int, fd: nat)
      requires Valid() && b < |tables| && Searches(tables[b], find)
      requires Unused(Now(), queued)
      modifies this
      ensures Valid()
      ensures r == if find.fd.None? then EMFILE else cbAlloc
      ensures r == 0 ==> find.fd == Some(fd)
      ensures Reached(old(Now()), [Remark(b, find.mask)] + if r != 0 then [] else [Create(b, fd, queued)], Now())
      ensures r == 0 ==> |tables| == |old(tables)| && refcnt == old(refcnt)[queued := 1]
                         && Holds(Table(old(tables)[b].slots, find.mask), tables[b], fd, queued, true)
    {
      Mark(b, find);
      fd := 0;
      if find.fd.None? {
        return EMFILE, fd;
      }
      fd := find.fd.value;
      r := cbAlloc;
      if r == 0 {
        Publish(b, fd, queued);
        refcnt := refcnt[queued := 1];
      }
    }

    /** Writes pointer and bit. */
    method Publish(b: nat, fd: nat, so: nat)
      requires Valid() && b < |tables| && fd < |tables[b].slots|
      modifies this`tables
      ensures Valid() && tables == old(tables)[b := WithBit(old(tables)[b], fd, so)]
      ensures Holds(old(tables)[b], tables[b], fd, so, true)
    {
      TableBits(tables[b], fd, so);
      WithBitOk(tables[b], fd, so);
      tables := tables[b := WithBit(tables[b], fd, so)];
    }

    method Withdraw(b: nat, fd: nat)
      requires Valid() && b < |tables| && fd < |tables[b].slots|
      modifies this`tables
      ensures Valid() && tables == old(tables)[b := WithoutBit(old(tables)[b], fd)]
      ensures Holds(old(tables)[b], tables[b], fd, 0, false)
    {
      TableBits(tables[b], fd, 0);
      WithoutBitOk(tables[b], fd);
      tables := tables[b := WithoutBit(tables[b], fd)];
    }

    /** --so->so_refcnt <= 0 */
    method DropRef(so: nat)
      modifies this`refcnt, this`closing
      ensures Now() == Dropped(old(Now()), so)
    {
      var count := Short((if so in refcnt then refcnt[so] else 0) - 1);
      refcnt := refcnt[so := count];
      if count <= 0 {
        closing := closing + {so};
      }
    }

    /** closeSocketLocked up to soclose. The descriptor is released before the reference is
        dropped; one that is in use without a socket is just released. */
    method CloseSocketLocked(b: nat, fd: int, cbFree: int) returns (r: int)
      requires Valid() && b < |tables|
      modifies this
      ensures Valid()
      ensures var s := old(Now()); var t := s.tables[b];
              if !(0 <= fd < |t.slots|) || !BitAt(t.mask, fd / 32, fd % 32) then r == EBADF && Now() == s
              else if cbFree != 0 then r == cbFree && Now() == s
              else (var step := if t.slots[fd] == 0 then Remark(b, WithoutBit(t, fd).mask) else Drop(b, fd);
                    r == 0 && Enabled(s, step) && Now() == Next(s, step))
      ensures r == 0 ==> |tables| == |old(tables)| && Holds(old(tables)[b], tables[b], fd, 0, false)
    {
      if !(0 <= fd < |tables[b].slots|) || !BitAt(tables[b].mask, fd / 32, fd % 32) {
        return EBADF;
      }
      if cbFree != 0 {
        return cbFree;
      }
      var so := Sock(b, fd);
      Withdraw(b, fd);
      if so != 0 {
        DropRef(so);
      } else {
        NoSocket(old(tables)[b], fd);
        assert TableOk(tables[b]);
      }
      return 0;
    }

    /** soclose has ended and freed the socket. */
    method FinishClose(so: nat)
      requires Valid() && so in closing
      modifies this
      ensures Valid() && Enabled(old(Now()), Finish(so)) && Now() == Next(old(Now()), Finish(so))
    {
      closing, refcnt := closing - {so}, refcnt - {so};
    }

    /** The id part of both releases: the id to use, or -1 when a given one is taken. */
    method ReleaseId(id: LONG) returns (r: LONG)
      requires Valid() && (id == UNIQUE_ID ==> !AllTaken(Ids(released)))
      modifies ids
      ensures Valid()
      ensures if id == UNIQUE_ID then IsCounter(r) && r !in Ids(released)
              else r == if MustBeUnique(id) && id in Ids(released) then -1 else id
    {
      r := id;
      if MustBeUnique(id) {
        r := ids.MakeId(Ids(released), id);
      }
    }

    method ReleaseSocket(b: nat, fd: int, id: LONG, nodeFits: bool, cbFree: int) returns (r: int, got: LONG)
      requires Valid() && b < |tables| && (id == UNIQUE_ID ==> !AllTaken(Ids(released)))
      modifies this, ids
      ensures Valid() && ReleaseResult(old(Now()), b, fd, id, nodeFits, cbFree, r, got)
      ensures if r != 0 then Now() == old(Now())
              else Enabled(old(Now()), Release(b, fd, got)) && Now() == Next(old(Now()), Release(b, fd, got))
      ensures r == 0 ==> |tables| == |old(tables)| && Holds(old(tables)[b], tables[b], fd, 0, false)
                         && released == old(released) + [Node(got, old(tables)[b].slots[fd])]
    {
      got := ReleaseId(id);
      if id != UNIQUE_ID && got == -1 {
        return EINVAL, got;
      }
      var so := Sock(b, fd);
      if so == 0 {
        return EBADF, got;
      }
      if !nodeFits {
        return ENOMEM, got;
      }
      if cbFree != 0 {
        return cbFree, got;
      }
      released := released + [Node(got, so)];
      Withdraw(b, fd);
      return 0, got;
    }

    method ReleaseCopyOfSocket(b: nat, fd: int, id: LONG, nodeFits: bool) returns (r: int, got: LONG)
      requires Valid() && b < |tables| && (id == UNIQUE_ID ==> !AllTaken(Ids(released)))
      modifies this, ids
      ensures Valid() && ReleaseResult(old(Now()), b, fd, id, nodeFits, 0, r, got)
      ensures if r != 0 then Now() == old(Now())
              else Enabled(old(Now()), ReleaseCopy(b, fd, got)) && Now() == Next(old(Now()), ReleaseCopy(b, fd, got))
      ensures r == 0 ==> tables == old(tables) && 0 <= fd < |tables[b].slots|
                         && released == old(released) + [Node(got, tables[b].slots[fd])]
    {
      got := ReleaseId(id);
      if id != UNIQUE_ID && got == -1 {
        return EINVAL, got;
      }
      var so := Sock(b, fd);
      if so == 0 {
        return EBADF, got;
      }
      if !nodeFits {
        return ENOMEM, got;
      }
      released := released + [Node(got, so)];
      refcnt := refcnt[so := Short((if so in refcnt then refcnt[so] else 0) + 1)];
      return 0, got;
    }

    /** ObtainSocket: the first released socket with the id and, when a domain is given, the
        protocol asked for. protoError is the outcome of looking that protocol up. */
    method ObtainSocket(b: nat, id: LONG, anyDomain: bool, protoError: int, matches: nat -> bool,
                        find: Search, cbAlloc: int) returns (r: int, fd: nat)
      requires Valid() && b < |tables| && Searches(tables[b], find)
      modifies this
      ensures Valid()
      ensures var s := old(Now()); var marked := Remark(b, find.mask);
              var k := FirstNode(s.released, id, Acceptable(anyDomain, matches), 0);
              if anyDomain && id < FIRST then r == EPFNOSUPPORT && Now() == s
              else if !anyDomain && protoError != 0 then r == protoError && Now() == s
              else if find.fd.None? then r == EMFILE && Reached(s, [marked], Now())
              else if cbAlloc != 0 then r == cbAlloc && Reached(s, [marked], Now())
              else if k == |s.released| then r == EWOULDBLOCK && Reached(s, [marked], Now())
              else r == 0 && find.fd == Some(fd) && Reached(s, [marked, Obtain(b, fd, k)], Now())
      ensures r == 0 ==> |tables| == |old(tables)| && fd < |tables[b].slots|
                         && Hands(old(released), released, id, anyDomain, matches, tables[b].slots[fd])
                         && Holds(Table(old(tables)[b].slots, find.mask), tables[b], fd, tables[b].slots[fd], true)
    {
      fd := 0;
      if anyDomain && id < FIRST {
        return EPFNOSUPPORT, 0;
      }
      if !anyDomain && protoError != 0 {
        return protoError, 0;
      }
      ghost var s0 := Now();
      Mark(b, find);
      ghost var s1 := Now();
      if find.fd.None? {
        return EMFILE, 0;
      }
      fd := find.fd.value;
      if cbAlloc != 0 {
        return cbAlloc, fd;
      }
      var k := FindNode(released, id, anyDomain, matches);
      if k == |released| {
        return EWOULDBLOCK, fd;
      }
      TakeNode(b, fd, k);
      TwoSteps(s0, Remark(b, find.mask), Obtain(b, fd, k), s1, Now());
      return 0, fd;
    }

    /** The node is unlinked and its socket published. */
    method TakeNode(b: nat, fd: nat, k: nat)
      requires Valid() && EmptyAt(Now(), b, fd) && k < |released|
      modifies this
      ensures Valid() && Now() == Next(old(Now()), Obtain(b, fd, k))
      ensures |tables| == |old(tables)| && Holds(old(tables)[b], tables[b], fd, old(released)[k].so, true)
    {
      var so := released[k].so;
      released := released[..k] + released[k + 1..];
      Publish(b, fd, so);
    }

    /** Dup2Socket up to the end of the close of fd2. */
    method Dup2Start(b: nat, fd1: int, fd2: int, find: Search, cbFree: int) returns (d: Dup2)
      requires Valid() && b < |tables| && Searches(tables[b], find)
      modifies this
      ensures Valid() && b < |tables| && |tables[b].slots| == |old(tables)[b].slots|
      ensures d.Ready? ==> d.fd2 < |tables[b].slots| && (d.so == 0 <==> fd1 == -1)
      ensures d.Ready? && !d.slept ==> StillFits(Now(), b, fd1, d)
      ensures d.Ready? && fd2 != -1 ==> d.fd2 == fd2
      ensures var s := old(Now()); var size := |s.tables[b].slots|;
              if fd1 != -1 && !(0 <= fd1 < size && s.tables[b].slots[fd1] != 0) then d == Done(EBADF, fd2) && Now() == s
              else if fd2 == -1 then (
                && Reached(s, [Remark(b, find.mask)], Now())
                && if find.fd.None? then d == Done(EMFILE, fd2) else d.Ready? && d.picked && find.fd == Some(d.fd2))
              else if !(0 <= fd2 < size) then d == Done(EBADF, fd2) && Now() == s
              else if fd1 == fd2 then d == Done(0, fd2) && Now() == s
              else (&& d.Ready? && !d.picked && d.slept == (s.tables[b].slots[fd2] != 0)
                    && Now() == if d.slept && cbFree == 0 && BitAt(s.tables[b].mask, fd2 / 32, fd2 % 32)
                                then Next(s, Drop(b, fd2)) else s)
    {
      var so := 0;
      if fd1 != -1 {
        so := Sock(b, fd1);
        if so == 0 {
          return Done(EBADF, fd2);
        }
      }
      if fd2 == -1 {
        Mark(b, find);
        if find.fd.None? {
          return Done(EMFILE, fd2);
        }
        return Ready(so, find.fd.value, false, true);
      }
      if !(0 <= fd2 < |tables[b].slots|) {
        return Done(EBADF, fd2);
      }
      if fd1 == fd2 {
        return Done(0, fd2);
      }
      if tables[b].slots[fd2] != 0 {
        var _ := CloseSocketLocked(b, fd2, cbFree);
        return Ready(so, fd2, true, false);
      }
      return Ready(so, fd2, false, false);
    }

    /** Dup2Socket from there on. After a sleep nothing is known of the table: fd2 may have been
        reissued and fd1 closed, and both are checked again. overran says that a resize during
        the sleep left fd2 outside the table, which is not checked. */
    method Dup2Finish(b: nat, fd1: int, d: Dup2, cbCheck: int, cbAlloc: int) returns (r: int, overran: bool)
      requires Valid() && b < |tables| && d.Ready? && (d.so == 0 <==> fd1 == -1)
      requires !d.slept ==> StillFits(Now(), b, fd1, d)
      modifies this
      ensures Valid() && (overran <==> d.slept && |old(tables)[b].slots| <= d.fd2)
      ensures var s := old(Now());
              if overran then Now() == s
              else if !StillFits(s, b, fd1, d) || (d.slept && BitAt(s.tables[b].mask, d.fd2 / 32, d.fd2 % 32))
              then r == EBADF && Now() == s
              else (&& r == (if !d.picked && cbCheck != 0 then cbCheck else cbAlloc)
                    && if r != 0 then Now() == s
                       else var step := if d.so != 0 then Dup(b, fd1, d.fd2)
                                        else Remark(b, WithBit(s.tables[b], d.fd2, 0).mask);
                         Enabled(s, step) && Now() == Next(s, step))
      ensures r == 0 && !overran ==> |tables| == |old(tables)| && Holds(old(tables)[b], tables[b], d.fd2, d.so, true)
    {
      if d.slept {
        if |tables[b].slots| <= d.fd2 {
          return 0, true;
        }
        if BitAt(tables[b].mask, d.fd2 / 32, d.fd2 % 32) || tables[b].slots[d.fd2] != 0 {
          return EBADF, false;
        }
        if fd1 != -1 && Sock(b, fd1) != d.so {
          return EBADF, false;
        }
      }
      if !d.picked && cbCheck != 0 {
        return cbCheck, false;
      }
      if cbAlloc != 0 {
        return cbAlloc, false;
      }
      Publish(b, d.fd2, d.so);
      if d.so != 0 {
        refcnt := refcnt[d.so := Short((if d.so in refcnt then refcnt[d.so] else 0) + 1)];
      } else {
        NoSocket(old(tables)[b], d.fd2);
        assert TableOk(tables[b]);
      }
      return 0, false;
    }

    /** setdtablesize, on the table as a value: DescriptorBase.SetDTableSize does it in place. */
    method SetDTableSize(b: nat, n: nat, fits: bool) returns (size: nat, overran: bool)
      requires Valid() && b < |tables| && 0 < n <= MAX_SIZE
      modifies this
      ensures Valid() && (overran <==> fits && Overreads(old(tables)[b], n))
      ensures if !fits || overran then Now() == old(Now())
              else Enabled(old(Now()), Resize(b, n)) && Now() == Next(old(Now()), Resize(b, n))
      ensures !overran ==> size == |tables[b].slots|
    {
      size, overran := |tables[b].slots|, fits && Overreads(tables[b], n);
      if fits && !overran {
        assert TableOk(tables[b]);
        ResizeOk(tables[b], n);
        tables := tables[b := Resized(tables[b], n)];
        size := |tables[b].slots|;
      }
    }

    /** CloseSocket of a descriptor that has a socket, with no callback to object. */
    method CloseOne(b: nat, fd: nat)
      requires Valid() && b < |tables| && fd < |tables[b].slots| && tables[b].slots[fd] != 0
      modifies this
      ensures Valid() && Enabled(old(Now()), Drop(b, fd)) && Now() == Next(old(Now()), Drop(b, fd))
      ensures |tables| == |old(tables)| && Holds(old(tables)[b], tables[b], fd, 0, false)
    {
      UsedAt(tables[b], fd);
      var _ := CloseSocketLocked(b, fd, 0);
    }

    /** UL_Close's sweep of the table of a base that nobody shares: with no callback any more, every
        socket in it is closed, and nothing in it refers to a socket afterwards. */
    method CloseAll(b: nat) returns (ghost steps: seq<Step>)
      requires Valid() && b < |tables|
      modifies this
      ensures Valid() && |tables| == |old(tables)| && Reached(old(Now()), steps, Now())
      ensures forall fd | 0 <= fd < |tables[b].slots| :: tables[b].slots[fd] == 0
      ensures Swept(old(tables)[b], tables[b], |old(tables)[b].slots|)
      ensures forall step <- steps :: step.Drop? && step.b == b
    {
      steps := [];
      var i: nat := 0;
      while i < |tables[b].slots|
        invariant Valid() && |tables| == |old(tables)| && Reached(old(Now()), steps, Now())
        invariant i <= |tables[b].slots| && Swept(old(tables)[b], tables[b], i)
        invariant forall step <- steps :: step.Drop? && step.b == b
        decreases |tables[b].slots| - i
      {
        steps := SweepOne(b, i, old(Now()), steps);
        i := i + 1;
      }
    }

    /** One turn of it. */
    method SweepOne(b: nat, i: nat, ghost s: State, ghost steps: seq<Step>) returns (ghost more: seq<Step>)
      requires Valid() && b < |tables| == |s.tables| && i < |tables[b].slots|
      requires Reached(s, steps, Now()) && Swept(s.tables[b], tables[b], i)
      modifies this
      ensures Valid() && |tables| == |s.tables| && Reached(s, more, Now()) && Swept(s.tables[b], tables[b], i + 1)
      ensures more == steps || more == steps + [Drop(b, i)]
    {
      more := steps;
      if tables[b].slots[i] != 0 {
        ghost var m := Now();
        CloseOne(b, i);
        ReachedSnoc(s, steps, m, Drop(b, i), Now());
        more := steps + [Drop(b, i)];
      }
      SweptMore(s.tables[b], old(tables)[b], tables[b], i);
    }

    /** The reaper unlinks the first released node. */
    method PopNode() returns (found: bool)
      requires Valid() && reaping == 0
      modifies this
      ensures Valid() && found == (0 < |old(released)|)
      ensures if found then Enabled(old(Now()), Pop) && Now() == Next(old(Now()), Pop) else Now() == old(Now())
      ensures found ==> reaping == old(released)[0].so && released == old(released)[1..]
    {
      if |released| == 0 {
        return false;
      }
      reaping, released := released[0].so, released[1..];
      return true;
    }

    /** And, outside the critical section, drops the node's reference. */
    method DropReaped()
      requires Valid() && reaping != 0
      modifies this
      ensures Valid() && Enabled(old(Now()), Reap) && Now() == Next(old(Now()), Reap)
    {
      var so := reaping;
      reaping := 0;
      DropRef(so);
    }
  }

  lemma MarkOk(t: Table, find: Search)
    requires TableOk(t) && Searches(t, find)
    ensures TableOk(Table(t.slots, find.mask))
  {
  }

  /** The sockets below descriptor n are gone from the table, their usage bits are clear, and everything
      else is as it was. */
  ghost predicate Swept(t: Table, r: Table, n: nat) {
    && |r.slots| == |t.slots| && |r.mask| == |t.mask|
    && (forall fd | 0 <= fd < |t.slots| :: r.slots[fd] == if fd < n then 0 else t.slots[fd])
    && forall v: nat, j: nat | v < |t.mask| && j < 32 ::
         Bitmap.Has(r.mask[v], j) <==> Bitmap.Has(t.mask[v], j) && !HeldBelow(t, 32 * v + j, n)
  }

  ghost predicate HeldBelow(t: Table, fd: nat, n: nat) {
    fd < n && fd < |t.slots| && t.slots[fd] != 0
  }

  lemma SweptMore(t: Table, r: Table, r': Table, i: nat)
    requires Swept(t, r, i) && i < |t.slots|
    requires if r.slots[i] != 0 then Holds(r, r', i, 0, false) else r' == r
    ensures Swept(t, r', i + 1)
  {
    assert 32 * (i / 32) + i % 32 == i;
  }

  /** What Dup2Socket relies on when it takes fd2: fd2 has no socket, and fd1 still has d.so. */
  predicate StillFits(s: State, b: nat, fd1: int, d: Dup2)
    requires d.Ready?
  {
    && b < |s.tables| && d.fd2 < |s.tables[b].slots| && s.tables[b].slots[d.fd2] == 0
    && (fd1 != -1 ==> 0 <= fd1 < |s.tables[b].slots| && s.tables[b].slots[fd1] == d.so)
  }

  /** Rewriting a bit where there is no socket leaves the pointers. */
  lemma NoSocket(t: Table, fd: nat)
    requires fd < |t.slots| && fd / NFDBITS < |t.mask| && t.slots[fd] == 0
    ensures WithBit(t, fd, 0) == Table(t.slots, WithBit(t, fd, 0).mask)
    ensures WithoutBit(t, fd) == Table(t.slots, WithoutBit(t, fd).mask)
  {
  }

  /** The list gives up its first node with the id and, when a domain is given, the protocol: so's. */
  ghost predicate Hands(nodes: seq<Node>, left: seq<Node>, id: LONG, anyDomain: bool, matches: nat -> bool, so: nat) {
    exists k: nat :: IsObtained(nodes, id, anyDomain, matches, k) && nodes[k].so == so
                     && left == nodes[..k] + nodes[k + 1..]
  }

  /** Node k is the first with the id and, when a domain is given, the protocol. */
  ghost predicate IsObtained(nodes: seq<Node>, id: LONG, anyDomain: bool, matches: nat -> bool, k: nat) {
    && k < |nodes| && nodes[k].id == id && (anyDomain || matches(nodes[k].so))
    && forall j | 0 <= j < k :: !(nodes[j].id == id && (anyDomain || matches(nodes[j].so)))
  }

  function Acceptable(anyDomain: bool, matches: nat -> bool): nat -> bool {
    (so: nat) => anyDomain || matches(so)
  }

  lemma UsedAt(t: Table, fd: nat)
    requires TableOk(t) && fd < |t.slots| && t.slots[fd] != 0
    ensures BitAt(t.mask, fd / 32, fd % 32)
  {
    assert fd == 32 * (fd / 32) + fd % 32;
  }

  lemma {:induction false} ReachedSnoc(s: State, steps: seq<Step>, m: State, step: Step, t: State)
    requires Reached(s, steps, m) && Enabled(m, step) && t == Next(m, step)
    ensures Reached(s, steps + [step], t)
    decreases |steps|
  {
    if steps == [] {
      assert (steps + [step])[1..] == [];
    } else {
      ReachedSnoc(Next(s, steps[0]), steps[1..], m, step, t);
      assert (steps + [step])[1..] == steps[1..] + [step];
    }
  }

  lemma TwoSteps(s: State, a: Step, b: Step, m: State, t: State)
    requires Enabled(s, a) && m == Next(s, a) && Enabled(m, b) && t == Next(m, b)
    ensures Reached(s, [a, b], t)
  {
    assert [a, b][1..] == [b];
    assert Reached(m, [b], t);
  }

  /** The scan of the released list. */
  method FindNode(nodes: seq<Node>, id: LONG, anyDomain: bool, matches: nat -> bool) returns (k: nat)
    ensures k == FirstNode(nodes, id, Acceptable(anyDomain, matches), 0) <= |nodes|
    ensures k < |nodes| ==> IsObtained(nodes, id, anyDomain, matches, k)
  {
    ghost var ok := Acceptable(anyDomain, matches);
    k := 0;
    while k < |nodes| && !(nodes[k].id == id && (anyDomain || matches(nodes[k].so)))
      invariant k <= |nodes| && FirstNode(nodes, id, ok, k) == FirstNode(nodes, id, ok, 0)
      invariant forall j | 0 <= j < k :: !(nodes[j].id == id && (anyDomain || matches(nodes[j].so)))
    {
      k := k + 1;
    }
  }

  /** The first node from k on that has the id and an acceptable socket; |nodes| if none. */
  function FirstNode(nodes: seq<Node>, id: LONG, ok: nat -> bool, k: nat): nat
    requires k <= |nodes|
    decreases |nodes| - k
  {
    if k == |nodes| || (nodes[k].id == id && ok(nodes[k].so)) then k else FirstNode(nodes, id, ok, k + 1)
  }

  lemma {:induction false} FirstNodeIsFirst(nodes: seq<Node>, id: LONG, ok: nat -> bool, k: nat, j: nat)
    requires k <= |nodes|
    ensures var f := FirstNode(nodes, id, ok, k);
            && k <= f <= |nodes|
            && (f < |nodes| ==> nodes[f].id == id && ok(nodes[f].so))
            && (k <= j < f ==> !(nodes[j].id == id && ok(nodes[j].so)))
    decreases |nodes| - k
  {
    if k < |nodes| && !(nodes[k].id == id && ok(nodes[k].so)) {
      FirstNodeIsFirst(nodes, id, ok, k + 1, j);
    }
  }

  /** What a release returns, in the order of its checks. */
  ghost predicate ReleaseResult(s: State, b: nat, fd: int, id: LONG, nodeFits: bool, cbFree: int, r: int, got: LONG)
    requires b < |s.tables|
  {
    && r == (if id != UNIQUE_ID && MustBeUnique(id) && id in Ids(s.released) then EINVAL
             else if !(0 <= fd < |s.tables[b].slots| && s.tables[b].slots[fd] != 0) then EBADF
             else if !nodeFits then ENOMEM
             else cbFree)
    && (r == 0 ==> if id == UNIQUE_ID then IsCounter(got) && got !in Ids(s.released) else got == id)
  }

  /** How that comes about: fd2 is the highest used descriptor, its close sleeps, and meanwhile the
      table is made as small as fd2. Both steps are safe, and fd2 is then outside the table. */
  lemma ResizeDuringDup2(s: State, b: nat, fd2: nat)
    requires Inv(s) && SocketAt(s, b, fd2) && 0 < fd2
    requires LastUsed(s.tables[b].mask, |s.tables[b].mask|) == fd2
    ensures var t := Next(s, Drop(b, fd2));
            && Inv(t) && Enabled(t, Resize(b, fd2)) && Safe(t, Resize(b, fd2))
            && |Next(t, Resize(b, fd2)).tables[b].slots| == fd2
  {
    var t := Next(s, Drop(b, fd2));
    StepKeepsInv(s, Drop(b, fd2));
    var mask, mask' := s.tables[b].mask, t.tables[b].mask;
    BitCleared(mask, fd2 / NFDBITS, fd2 % NFDBITS);
    LastCleared(mask, mask', fd2);
    assert TableOk(s.tables[b]) && TableOk(t.tables[b]);
  }
}
