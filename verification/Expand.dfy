/** dn_expand and __dn_skipname (src/api/res_comp.c): reading a name out of a message. */
module Expand {
  import opened Common
  import opened Names

  // ---- What an unfinished expansion stands for -----------------------------------------------

  /** The whole name, once the labels in done have been read: `checked` octets were passed, the
      first `mark` of them up to the last pointer, and `rest` is what follows. */
  ghost function Resume(done: seq<Label>, mark: nat, checked: nat, rest: Option<Found>): Option<Found> {
    match rest
    case None => None
    case Some(f) => Some(Found(done + f.labels, if f.walked == 0 then mark else checked + f.walked))
  }

  lemma ResumeLabel(msg: seq<byte>, cp: nat, hops: nat, done: seq<Label>, mark: nat, checked: nat)
    requires cp < |msg| && 0 < msg[cp] <= MAXLABEL && cp + 1 + msg[cp] <= |msg|
    ensures Resume(done, mark, checked, Decode(msg, cp, hops))
         == Resume(done + [msg[cp + 1..cp + 1 + msg[cp]]], mark, checked + msg[cp] + 1,
                   Decode(msg, cp + 1 + msg[cp], hops))
  {
    var rest := Decode(msg, cp + 1 + msg[cp], hops);
    if rest.Some? {
      Assoc(done, [msg[cp + 1..cp + 1 + msg[cp]]], rest.value.labels);
    }
  }

  /** A caller of dn_expand gets a name exactly when there is one, its text and terminator fit,
      and fewer octets than the whole message are passed up to its last pointer. */
  ghost predicate Accepted(full: Option<Found>, room: int, budget: nat) {
    full.Some? && |Render(full.value.labels)| < room && full.value.walked < budget
  }

  lemma {:induction false} RenderGrows(labels: seq<Label>, more: seq<Label>)
    ensures |Render(labels)| <= |Render(labels + more)|
    decreases |more|
  {
    if more == [] {
      assert labels + more == labels;
    } else {
      var init, last := more[..|more| - 1], more[|more| - 1];
      RenderGrows(labels, init);
      RenderSnoc(labels + init, last);
      Assoc(labels, init, [last]);
      assert init + [last] == more;
    }
  }

  /** Text that already fills the buffer cannot belong to an accepted name. */
  lemma TooLong(done: seq<Label>, mark: nat, checked: nat, rest: Option<Found>, room: int, budget: nat)
    requires |Render(done)| >= room
    ensures !Accepted(Resume(done, mark, checked, rest), room, budget)
  {
    if rest.Some? {
      RenderGrows(done, rest.value.labels);
    }
  }

  // ---- The code -------------------------------------------------------------------------------

  /** `*dn++ = c`, inside the buffer. */
  method Put(out: array<byte>, ghost start: nat, dn: nat, c: byte) returns (next: nat)
    requires start <= dn < out.Length
    modifies out
    ensures next == dn + 1 && out[start..next] == old(out[start..dn]) + [c]
    ensures forall i | 0 <= i < out.Length && i != dn :: out[i] == old(out[i])
  {
    out[dn] := c;
    next := dn + 1;
    assert out[start..dn] == old(out[start..dn]);
  }

  /** One character of a label, with n more to come: false when an escaped dot leaves no room
      for them and a terminator. */
  method PutChar(out: array<byte>, start: nat, dn0: nat, c: byte, n: nat, eom: nat) returns (ok: bool, dn: nat)
    requires start <= dn0 && dn0 + n + 1 < eom <= out.Length
    modifies out
    ensures ok <==> dn0 + |EscapeByte(c)| + n < eom
    ensures ok ==> dn == dn0 + |EscapeByte(c)| && out[start..dn] == old(out[start..dn0]) + EscapeByte(c)
    ensures start <= dn < eom
    ensures forall i | 0 <= i < out.Length && !(start <= i < eom) :: out[i] == old(out[i])
  {
    dn, ok := dn0, true;
    if c == DOT {
      if dn + n + 2 >= eom {
        return false, dn;
      }
      dn := Put(out, start, dn, BACKSLASH);
    }
    dn := Put(out, start, dn, c);
  }

  /** The inner loop: one label, escaping dots, into out[dn..eom]. */
  method CopyLabel(msg: seq<byte>, cp0: nat, n0: nat, out: array<byte>, dn0: nat, eom: nat)
    returns (ok: bool, cp: nat, dn: nat)
    requires n0 <= MAXLABEL && cp0 <= |msg| && dn0 + n0 < eom <= out.Length
    modifies out
    ensures ok <==> cp0 + n0 <= |msg| && dn0 + |Escape(msg[cp0..cp0 + n0])| < eom
    ensures dn0 <= dn < eom
    ensures ok ==> cp == cp0 + n0 && out[dn0..dn] == Escape(msg[cp0..cp0 + n0])
    ensures forall i | 0 <= i < out.Length && !(dn0 <= i < eom) :: out[i] == old(out[i])
  {
    cp, dn := cp0, dn0;
    var n: int := n0;
    n := n - 1;
    while n >= 0
      invariant -1 <= n < n0 && cp + n + 1 == cp0 + n0 && cp0 <= cp <= |msg|
      invariant dn0 <= dn && dn + n + 1 < eom && out[dn0..dn] == Escape(msg[cp0..cp])
      invariant forall i | 0 <= i < out.Length && !(dn0 <= i < eom) :: out[i] == old(out[i])
    {
      if cp >= |msg| {
        return false, cp, dn;
      }
      var c := msg[cp];
      cp := cp + 1;
      EscapeSlice(msg, cp0, cp - 1);
      if cp0 + n0 <= |msg| {
        EscapeRest(msg, cp0, cp, cp0 + n0);
      }
      ok, dn := PutChar(out, dn0, dn, c, n, eom);
      if !ok {
        return false, cp, dn;
      }
      n := n - 1;
    }
    ok := true;
  }

  lemma EscapeSlice(msg: seq<byte>, cp: nat, k: nat)
    requires cp <= k < |msg|
    ensures Escape(msg[cp..k + 1]) == Escape(msg[cp..k]) + EscapeByte(msg[k])
  {
    assert msg[cp..k + 1] == msg[cp..k] + [msg[k]];
    EscapeToPrefix(msg[cp..k], [msg[k]], k - cp);
  }

  lemma EscapeRest(msg: seq<byte>, cp: nat, k: nat, e: nat)
    requires cp <= k <= e <= |msg|
    ensures |Escape(msg[cp..k])| + e - k <= |Escape(msg[cp..e])|
  {
    assert msg[cp..e] == msg[cp..k] + msg[k..e];
    EscapeToPrefix(msg[cp..k], msg[k..e], k - cp);
    EscapeToLength(msg[cp..e], k - cp);
  }

  lemma {:induction false} EscapeToPrefix(a: Label, b: Label, n: nat)
    requires n <= |a|
    ensures EscapeTo(a + b, n) == EscapeTo(a, n)
  {
    if n > 0 {
      EscapeToPrefix(a, b, n - 1);
    }
  }

  /** Where the expansion stands between two octets read at the top of the loop. */
  ghost predicate Expanding(msg: seq<byte>, comp: nat, cp: nat, hops: nat, done: seq<Label>, mark: nat, checked: nat,
                            len: int) {
    && NameAt(msg, comp) == Resume(done, mark, checked, Decode(msg, cp, hops))
    && mark <= checked && 2 * (|msg| - hops) <= mark
    && hops <= |msg| && (mark == 0 ==> hops == |msg|) && (mark == 0 || mark < |msg|)
    && (forall i | 0 <= i < |done| :: done[i] != [])
    && (if len < 0
        then mark == 0 && comp <= cp &&
             (match WireLength(msg, cp) case None => true case Some(n) => WireLength(msg, comp) == Some(cp - comp + n))
        else WireLength(msg, comp) == Some(len))
  }

  lemma ExpandingLabel(msg: seq<byte>, comp: nat, cp: nat, hops: nat, done: seq<Label>, mark: nat, checked: nat,
                       len: int)
    requires Expanding(msg, comp, cp, hops, done, mark, checked, len)
    requires cp < |msg| && 0 < msg[cp] <= MAXLABEL && cp + 1 + msg[cp] <= |msg|
    ensures var l := msg[cp + 1..cp + 1 + msg[cp]];
            Expanding(msg, comp, cp + 1 + msg[cp], hops, done + [l], mark, checked + msg[cp] + 1, len)
  {
    ResumeLabel(msg, cp, hops, done, mark, checked);
  }

  lemma ExpandingPointer(msg: seq<byte>, comp: nat, cp: nat, hops: nat, done: seq<Label>, mark: nat, checked: nat,
                         len: int, room: int)
    requires Expanding(msg, comp, cp, hops, done, mark, checked, len)
    requires cp + 1 < |msg| && msg[cp] >= INDIR
    ensures hops > 0
    ensures var target, len' := PointerTarget(msg[cp], msg[cp + 1]), if len < 0 then cp - comp + 2 else len;
            if checked + 2 < |msg|
            then Expanding(msg, comp, target, hops - 1, done, checked + 2, checked + 2, len')
            else !Accepted(NameAt(msg, comp), room, |msg|)
    ensures PointerTarget(msg[cp], msg[cp + 1]) >= |msg| ==> NameAt(msg, comp) == None
  {
  }

  lemma {:induction false} RenderNonempty(labels: seq<Label>)
    requires forall i | 0 <= i < |labels| :: labels[i] != []
    ensures Render(labels) == [] <==> labels == []
  {
    if labels != [] {
      EscapeLength(labels[|labels| - 1]);
    }
  }

  /** The dot before a label that is not the first. */
  method PutSeparator(out: array<byte>, base: nat, dn0: nat, eom: int, ghost done: seq<Label>)
    returns (ok: bool, dn: nat)
    requires base <= dn0 <= out.Length && eom <= out.Length
    requires out[base..dn0] == Render(done) && (Render(done) == [] <==> done == [])
    modifies out
    ensures ok ==> base <= dn <= out.Length && out[base..dn] == RenderBefore(done)
    ensures !ok ==> base + |RenderBefore(done)| > eom
    ensures forall i | 0 <= i < out.Length && !(base <= i < eom) :: out[i] == old(out[i])
  {
    ok, dn := true, dn0;
    if dn != base {
      if dn >= eom {
        return false, dn;
      }
      dn := Put(out, base, dn, DOT);
    }
  }

  /** Appending a label's text, of n octets at cp, to the text before it. */
  method AppendLabel(msg: seq<byte>, cp0: nat, n: nat, out: array<byte>, base: nat, dn0: nat, eom: int,
                     ghost before: seq<byte>)
    returns (ok: bool, cp: nat, dn: nat)
    requires 0 < n <= MAXLABEL && cp0 <= |msg| && base <= dn0 && dn0 + n < eom <= out.Length && out[base..dn0] == before
    modifies out
    ensures ok <==> cp0 + n <= |msg| && dn0 + |Escape(msg[cp0..cp0 + n])| < eom
    ensures ok ==> cp == cp0 + n && base <= dn < eom && out[base..dn] == before + Escape(msg[cp0..cp0 + n])
    ensures forall i | 0 <= i < out.Length && !(base <= i < eom) :: out[i] == old(out[i])
  {
    ok, cp, dn := CopyLabel(msg, cp0, n, out, dn0, eom);
    if ok {
      assert out[base..dn0] == before;
      assert out[base..dn] == out[base..dn0] + out[dn0..dn];
    }
  }

  /** The arm for a plain label: a separating dot if this is not the first, then the label. */
  method ExpandLabel(msg: seq<byte>, cp0: nat, n: nat, out: array<byte>, base: nat, dn0: nat, eom: int,
                     ghost done: seq<Label>)
    returns (ok: bool, cp: nat, dn: nat)
    requires 0 < n <= MAXLABEL && cp0 <= |msg| && base <= dn0 <= out.Length && eom <= out.Length
    requires out[base..dn0] == Render(done) && (Render(done) == [] <==> done == [])
    modifies out
    ensures ok <==> cp0 + n <= |msg| && base + |Render(done + [msg[cp0..cp0 + n]])| < eom
    ensures ok ==> cp == cp0 + n && base <= dn < eom && out[base..dn] == Render(done + [msg[cp0..cp0 + n]])
    ensures forall i | 0 <= i < out.Length && !(base <= i < eom) :: out[i] == old(out[i])
  {
    ghost var l := msg[cp0..Min(cp0 + n, |msg|)];
    RenderSnoc(done, l);
    EscapeLength(l);
    cp := cp0;
    ok, dn := PutSeparator(out, base, dn0, eom, done);
    if !ok {
      return;
    }
    if dn + n >= eom {
      return false, cp, dn;
    }
    ok, cp, dn := AppendLabel(msg, cp, n, out, base, dn, eom, RenderBefore(done));
  }

  /** A failed label leaves nothing to accept. */
  lemma LabelFails(msg: seq<byte>, cp: nat, hops: nat, done: seq<Label>, mark: nat, checked: nat, room: int,
                   budget: nat)
    requires cp < |msg| && 0 < msg[cp] <= MAXLABEL
    requires cp + 1 + msg[cp] <= |msg| ==> |Render(done + [msg[cp + 1..cp + 1 + msg[cp]]])| >= room
    ensures !Accepted(Resume(done, mark, checked, Decode(msg, cp, hops)), room, budget)
  {
    if cp + 1 + msg[cp] <= |msg| {
      ResumeLabel(msg, cp, hops, done, mark, checked);
      TooLong(done + [msg[cp + 1..cp + 1 + msg[cp]]], mark, checked + msg[cp] + 1,
              Decode(msg, cp + 1 + msg[cp], hops), room, budget);
    }
  }

  lemma AtStart(msg: seq<byte>, comp: nat)
    ensures Expanding(msg, comp, comp, |msg|, [], 0, 0, -1)
  {
    if NameAt(msg, comp).Some? {
      assert [] + NameAt(msg, comp).value.labels == NameAt(msg, comp).value.labels;
    }
  }

  /** The terminator: what has been read is the whole name. */
  lemma AtTerminator(msg: seq<byte>, comp: nat, cp: nat, hops: nat, done: seq<Label>, mark: nat, checked: nat, len: int)
    requires Expanding(msg, comp, cp, hops, done, mark, checked, len)
    requires cp < |msg| && msg[cp] == 0
    ensures NameAt(msg, comp) == Some(Found(done, mark)) && (mark < |msg|)
    ensures WireLength(msg, comp) == Some(if len < 0 then cp + 1 - comp else len)
  {
    assert done + [] == done;
  }

  /** The arm for a plain label, and what it means for the name as a whole. */
  method FollowLabel(msg: seq<byte>, comp: nat, at: nat, checked0: nat, out: array<byte>, base: nat, dn0: nat, eom: int,
                     ghost hops: nat, ghost done: seq<Label>, ghost mark: nat, ghost len: int)
    returns (ok: bool, cp: nat, checked: nat, dn: nat, ghost more: seq<Label>)
    requires Expanding(msg, comp, at, hops, done, mark, checked0, len)
    requires at < |msg| && 0 < msg[at] <= MAXLABEL
    requires base <= dn0 <= out.Length && eom <= out.Length && out[base..dn0] == Render(done)
    modifies out
    ensures ok ==> at < cp && Expanding(msg, comp, cp, hops, more, mark, checked, len)
    ensures ok ==> base <= dn <= out.Length && out[base..dn] == Render(more)
    ensures !ok ==> !Accepted(NameAt(msg, comp), eom - base, |msg|)
    ensures forall i | 0 <= i < out.Length && !(base <= i < eom) :: out[i] == old(out[i])
  {
    var n := msg[at];
    RenderNonempty(done);
    checked := checked0 + n + 1;
    ok, cp, dn := ExpandLabel(msg, at + 1, n, out, base, dn0, eom, done);
    if ok {
      more := done + [msg[at + 1..at + 1 + n]];
      ExpandingLabel(msg, comp, at, hops, done, mark, checked0, len);
    } else {
      more := done;
      LabelFails(msg, at, hops, done, mark, checked0, eom - base, |msg|);
    }
  }

  /** The arm for a pointer: its length is settled, its low octet read, and loops are cut off. */
  method FollowPointer(msg: seq<byte>, comp: nat, at: nat, checked0: nat, len0: int,
                       ghost hops: nat, ghost done: seq<Label>, ghost mark: nat, ghost room: int)
    returns (ok: bool, cp: nat, checked: nat, len: int)
    requires Expanding(msg, comp, at, hops, done, mark, checked0, len0)
    requires at < |msg| && msg[at] >= INDIR
    ensures ok ==> hops > 0 && len >= 0 && mark < checked < |msg|
    ensures ok ==> Expanding(msg, comp, cp, hops - 1, done, checked, checked, len)
    ensures !ok ==> !Accepted(NameAt(msg, comp), room, |msg|)
  {
    cp, checked, len := at + 1, checked0, len0;
    if len < 0 {
      len := cp - comp + 1;
    }
    if cp >= |msg| {
      return false, cp, checked, len;
    }
    ExpandingPointer(msg, comp, at, hops, done, mark, checked, len0, room);
    cp := PointerTarget(msg[at], msg[cp]);
    if cp >= |msg| {
      return false, cp, checked, len;
    }
    checked := checked + 2;
    ok := checked < |msg|;
  }

  /** `*dn = '\0'`, inside the buffer. */
  method Terminate(out: array<byte>, base: nat, dn: nat, eom: int, ghost text: seq<byte>) returns (ok: bool)
    requires base <= dn <= out.Length && eom <= out.Length && out[base..dn] == text
    modifies out
    ensures ok <==> base + |text| < eom
    ensures ok ==> out[base..base + |text|] == text && out[base + |text|] == 0
    ensures forall i | 0 <= i < out.Length && !(base <= i < eom) :: out[i] == old(out[i])
  {
    ok := dn < eom;
    if ok {
      out[dn] := 0;
      assert out[base..dn] == text;
    }
  }

  /** `dn_expand(msg, msg + |msg|, msg + comp, out + base, length)`. It succeeds exactly on the
      accepted names, prints their text and a terminator, returns the octets that the name
      occupies at comp, and writes nothing outside the buffer it was given. */
  method DnExpand(msg: seq<byte>, comp: nat, out: array<byte>, base: nat, length: int) returns (r: int)
    requires base <= out.Length && base + length <= out.Length
    modifies out
    ensures r >= 0 <==> Accepted(NameAt(msg, comp), length, |msg|)
    ensures r >= 0 ==>
              var text := Render(NameAt(msg, comp).value.labels);
              && WireLength(msg, comp) == Some(r)
              && out[base..base + |text|] == text && out[base + |text|] == 0
    ensures r < 0 ==> r == -1
    ensures forall i | 0 <= i < out.Length && !(base <= i < base + length) :: out[i] == old(out[i])
  {
    var dn, cp: nat, eom, len, checked: nat := base, comp, base + length, -1, 0;
    ghost var hops: nat, done: seq<Label>, mark: nat := |msg|, [], 0;
    AtStart(msg, comp);
    var ok := true;
    while true
      invariant Expanding(msg, comp, cp, hops, done, mark, checked, len)
      invariant base <= dn <= out.Length && out[base..dn] == Render(done)
      invariant forall i | 0 <= i < out.Length && !(base <= i < eom) :: out[i] == old(out[i])
      decreases |msg| - mark, |msg| - cp
    {
      if cp >= |msg| {
        return -1;
      }
      var n := msg[cp];
      if n == 0 {
        break;
      } else if n <= MAXLABEL {
        ok, cp, checked, dn, done := FollowLabel(msg, comp, cp, checked, out, base, dn, eom, hops, done, mark, len);
        if !ok {
          return -1;
        }
      } else if n >= INDIR {
        ok, cp, checked, len := FollowPointer(msg, comp, cp, checked, len, hops, done, mark, length);
        if !ok {
          return -1;
        }
        hops, mark := hops - 1, checked;
      } else {
        return -1;
      }
    }
    AtTerminator(msg, comp, cp, hops, done, mark, checked, len);
    cp := cp + 1;
    ok := Terminate(out, base, dn, eom, Render(done));
    if !ok {
      return -1;
    }
    r := if len < 0 then cp - comp else len;
  }

  /** `__dn_skipname(msg + comp, msg + |msg|)`. */
  method DnSkipname(msg: seq<byte>, comp: nat) returns (r: int)
    ensures r == match WireLength(msg, comp) case None => -1 case Some(n) => n
  {
    var cp := comp;
    while cp < |msg|
      invariant comp <= cp
      invariant match WireLength(msg, cp)
                case None => WireLength(msg, comp) == None
                case Some(n) => WireLength(msg, comp) == Some(cp - comp + n)
      decreases |msg| - cp
    {
      var n := msg[cp];
      cp := cp + 1;
      if n == 0 {
        return cp - comp;
      } else if n <= MAXLABEL {
        cp := cp + n;
      } else if n < INDIR {
        return -1;
      } else {
        return cp + 1 - comp;
      }
    }
    r := cp - comp;
  }

  /** Whenever dn_expand succeeds, __dn_skipname passes the same octets, all inside the message. */
  lemma {:induction false} NameHasLength(msg: seq<byte>, pos: nat, hops: nat)
    requires Decode(msg, pos, hops).Some?
    ensures WireLength(msg, pos).Some? && pos + WireLength(msg, pos).value <= |msg|
    ensures WireLength(msg, pos).value >= 1
    decreases |msg| - pos
  {
    if msg[pos] != 0 && msg[pos] <= MAXLABEL {
      NameHasLength(msg, pos + 1 + msg[pos], hops);
    }
  }

  /** The loop test is stricter than a test for loops: here the name at 0 ends, after a label of
      four octets and a pointer to its last, a zero; but seven octets were passed to reach it. */
  lemma BudgetRejectsSomeFiniteNames()
    ensures var msg: seq<byte> := [4, 97, 97, 97, 0, 192, 4];
            NameAt(msg, 0) == Some(Found([[97, 97, 97, 0]], 7)) && !Accepted(NameAt(msg, 0), 256, |msg|)
  {
    var msg: seq<byte> := [4, 97, 97, 97, 0, 192, 4];
    assert PointerTarget(msg[5], msg[6]) == 4;
    assert Decode(msg, 4, 6) == Some(Found([], 0));
    assert Decode(msg, 5, 7) == Some(Found([], 2));
    assert msg[1..5] == [97, 97, 97, 0] && msg[0] == 4;
    var l: Label := [97, 97, 97, 0];
    assert [l] + [] == [l];
    assert Decode(msg, 0, 7) == Some(Found([l], 7));
    assert |msg| == 7;
  }

  /** The bound on pointers is no restriction: whatever number of them is allowed, a name that passes
      no more octets than twice a smaller number is already found with that smaller number. */
  lemma {:induction false} FewerHops(msg: seq<byte>, pos: nat, few: nat, many: nat)
    requires Decode(msg, pos, many).Some? && Decode(msg, pos, many).value.walked <= 2 * few
    ensures Decode(msg, pos, few) == Decode(msg, pos, many)
    decreases many, |msg| - pos
  {
    if msg[pos] != 0 {
      if msg[pos] <= MAXLABEL {
        FewerHops(msg, pos + 1 + msg[pos], few, many);
      } else {
        FewerHops(msg, PointerTarget(msg[pos], msg[pos + 1]), few - 1, many - 1);
      }
    }
  }

  /** So dn_expand accepts a name if any number of pointers leads to its end within its budget. */
  lemma AcceptedForAnyHops(msg: seq<byte>, pos: nat, hops: nat, room: int)
    requires Accepted(Decode(msg, pos, hops), room, |msg|)
    ensures Accepted(NameAt(msg, pos), room, |msg|) && NameAt(msg, pos) == Decode(msg, pos, hops)
  {
    FewerHops(msg, pos, |msg|, hops);
  }
}
