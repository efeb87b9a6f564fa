/** One WaitSelect call against socket events, as a state machine (src/api/amiga_generic.c:285-520).
    The waiting task scans its conditions one at a time, entering an item for each that does not
    hold; then it decides to sleep or to scan again. Events happen at any moment: a condition
    comes to hold, and some time later the socket layer wakes the chain of its buffer. */
module WaitSelect {

  import opened SelectChains

  /** Where the task is. A scan that found something never sleeps. */
  datatype Pc = Start | Scanning(k: nat, found: bool) | Deciding | Asleep | Rescanning(k: nat) | Finished

  /** sel: heads whose buffers have SB_SEL set. ready: conditions that hold. evented: conditions that
      have come to hold since they were scanned. pending: heads whose event has not been announced
      yet. signalled: the sleeping task has been woken. */
  datatype World = World(
    mem: Memory, view: View, pc: Pc, sel: set<nat>, ready: set<nat>, evented: set<nat>, pending: set<nat>,
    signalled: bool)

  /** The call: its select buffer, and the head behind each condition it waits for. The same head
      may stand behind several, as a buffer is watched for reading and for exceptions. */
  datatype Call = Call(b: nat, watch: seq<nat>)

  datatype Step =
    | Begin
    | Scan(si: nat)
    | EndScan(m: Memory, v: View)
    | Decide(m: Memory, v: View)
    | Awaken(m: Memory, v: View)
    | Interrupt(m: Memory, v: View)   // the timeout or a signal
    | Rescan
    | Event(c: nat)
    | Quench(c: nat)                  // the condition ceases to hold
    | Announce(h: nat, m: Memory, v: View, woken: seq<nat>)

  ghost predicate Enabled(p: Call, w: World, step: Step) {
    match step
    case Begin => w.pc == Start
    case Scan(si) =>
      && w.pc.Scanning? && w.pc.k < |p.watch|
      && (w.pc.k !in w.ready ==> CanEnter(w.mem, w.view, p.b, p.watch[w.pc.k], si))
    case EndScan(m, v) => w.pc.Scanning? && w.pc.k == |p.watch| && Unselects(w.mem, w.view, p.b, m, v)
    case Decide(m, v) => w.pc == Deciding && Unselects(w.mem, w.view, p.b, m, v)
    case Awaken(m, v) => w.pc == Asleep && w.signalled && Unselects(w.mem, w.view, p.b, m, v)
    case Interrupt(m, v) => w.pc == Asleep && Unselects(w.mem, w.view, p.b, m, v)
    case Rescan => w.pc.Rescanning?
    case Event(c) => c < |p.watch|
    case Quench(c) => true
    case Announce(h, m, v, woken) => Wakes(w.mem, w.view, h, m, v, woken) && WellFormed(m, v)
  }

  /** There is memory for an item si that no list refers to, and a head h to push it on. */
  ghost predicate CanEnter(m: Memory, v: View, b: nat, h: nat, si: nat) {
    && b < |m.items| && h < |m.hdr| && h < |v.chains| && si < |m.next| == |m.prev| == |m.owner| && m.hdr[h] < |m.prev|
    && !OnChain(v.chains, si) && forall c | 0 <= c < |m.items| :: si !in m.items[c]
  }

  ghost function SetState(m: Memory, b: nat, s: SbState): Memory {
    if b < |m.state| then m.(state := m.state[b := s]) else m
  }

  ghost function StateOf(p: Call, w: World): SbState {
    if p.b < |w.mem.state| then w.mem.state[p.b] else SB_CLEAR
  }

  ghost function Next(p: Call, w: World, step: Step): World
    requires Enabled(p, w, step)
  {
    match step
    case Begin => w.(mem := SetState(w.mem, p.b, SB_WILLWAIT), pc := Scanning(0, false), evented := {})
    case Scan(si) => Scanned(p, w, si)
    case EndScan(m, v) => if w.pc.found then w.(mem := m, view := v, pc := Finished) else w.(pc := Deciding)
    case Decide(m, v) =>
      if StateOf(p, w) == SB_CLEAR then w.(mem := m, view := v, pc := Rescanning(0))
      else w.(mem := SetState(w.mem, p.b, SB_WAITING), pc := Asleep, signalled := false)
    case Awaken(m, v) => w.(mem := m, view := v, pc := Rescanning(0))
    case Interrupt(m, v) => w.(mem := m, view := v, pc := Finished)
    case Rescan =>
      if w.pc.k >= |p.watch| then w.(pc := Start)
      else if w.pc.k in w.ready then w.(pc := Finished)
      else w.(pc := Rescanning(w.pc.k + 1))
    case Event(c) => w.(ready := w.ready + {c}, evented := w.evented + {c}, pending := w.pending + {p.watch[c]})
    case Quench(c) => w.(ready := w.ready - {c})
    case Announce(h, m, v, woken) =>
      if h in w.sel then
        w.(mem := m, view := v, sel := w.sel - {h}, pending := w.pending - {h},
           signalled := w.signalled || p.b in woken)
      else w.(pending := w.pending - {h})
  }

  /** One condition: it holds, or an item is entered on its head and SB_SEL is set. */
  ghost function Scanned(p: Call, w: World, si: nat): World
    requires Enabled(p, w, Scan(si))
  {
    var k := w.pc.k;
    if k in w.ready then w.(pc := Scanning(k + 1, true))
    else
      w.(mem := Entered(w.mem, p.b, p.watch[k], si), view := EnteredView(w.view, p.watch[k], si),
         pc := Scanning(k + 1, w.pc.found), sel := w.sel + {p.watch[k]}, evented := w.evented - {k})
  }

  // ---- The invariant ------------------------------------------------------------------------

  /** Item j of the round watches condition j: it is still on the chain of that condition's head, and
      if the condition holds now there was an event since, still to be announced; or the wait condition
      is already cleared. */
  ghost predicate Tracked(p: Call, w: World, j: nat)
    requires p.b < |w.mem.items| && j < |w.mem.items[p.b]| && j < |p.watch|
  {
    var x := w.mem.items[p.b][j];
    StateOf(p, w) == SB_CLEAR
    || (OnChain(w.view.chains, x) && x in w.view.home && w.view.home[x] == p.watch[j] && p.watch[j] in w.sel
        && (j in w.ready ==> j in w.evented) && (j in w.evented ==> p.watch[j] in w.pending))
  }

  ghost predicate AllTracked(p: Call, w: World, n: nat)
    requires p.b < |w.mem.items|
  {
    |w.mem.items[p.b]| == n <= |p.watch| && forall j: nat | j < n :: Tracked(p, w, j)
  }

  ghost predicate Sole(p: Call, w: World) {
    forall x: nat | OnChain(w.view.chains, x) :: x < |w.mem.owner| && w.mem.owner[x] == p.b
  }

  ghost predicate Inv(p: Call, w: World) {
    && WellFormed(w.mem, w.view) && p.b < |w.mem.items| && Sole(p, w)
    && (forall j | 0 <= j < |p.watch| :: p.watch[j] < |w.mem.hdr|)
    && (match w.pc
        case Start => w.mem.items[p.b] == []
        case Scanning(k, found) => k <= |p.watch| && StateOf(p, w) != SB_WAITING && (!found ==> AllTracked(p, w, k))
        case Deciding => StateOf(p, w) != SB_WAITING && AllTracked(p, w, |p.watch|)
        case Asleep => AllTracked(p, w, |p.watch|) && StateOf(p, w) == if w.signalled then SB_CLEAR else SB_WAITING
        case Rescanning(_) => w.mem.items[p.b] == []
        case Finished => w.mem.items[p.b] == [])
  }

  /** The call starts in it, with nothing on any chain. */
  lemma StartInv(p: Call, w: World)
    requires WellFormed(w.mem, w.view) && p.b < |w.mem.items| && w.mem.items[p.b] == [] && w.pc == Start
    requires forall h | 0 <= h < |w.view.chains| :: w.view.chains[h] == []
    requires forall j | 0 <= j < |p.watch| :: p.watch[j] < |w.mem.hdr|
    ensures Inv(p, w)
  {
  }

  /** Every step of the task and of the sockets keeps the invariant. */
  lemma StepKeepsInv(p: Call, w: World, step: Step)
    requires Inv(p, w) && Enabled(p, w, step)
    ensures Inv(p, Next(p, w, step))
  {
    match step
    case Begin => SetStateOk(w.mem, w.view, p.b, SB_WILLWAIT);
    case Scan(si) => if w.pc.k !in w.ready { ScanKeeps(p, w, si); }
    case EndScan(m, v) =>
      UnselectKeeps(p, w, m, v);
      QuietKeeps(p, w, Next(p, w, step), |w.mem.items[p.b]|);
    case Decide(m, v) =>
      UnselectKeeps(p, w, m, v);
      SetStateOk(w.mem, w.view, p.b, SB_WAITING);
      if StateOf(p, w) != SB_CLEAR { SleepTracked(p, w, m, v); }
    case Awaken(m, v) => UnselectKeeps(p, w, m, v);
    case Interrupt(m, v) => UnselectKeeps(p, w, m, v);
    case Rescan =>
    case Event(c) => EventKeeps(p, w, c);
    case Quench(_) => QuietKeeps(p, w, Next(p, w, step), |w.mem.items[p.b]|);
    case Announce(h, m, v, woken) => AnnounceKeeps(p, w, h, m, v, woken);
  }

  // ---- No wakeup is lost --------------------------------------------------------------------

  /** Condition c was found not to hold in a scan that the task may still go to sleep on. */
  ghost predicate Awaited(p: Call, w: World, c: nat) {
    c < |p.watch|
    && match w.pc
       case Scanning(k, found) => c < k && !found
       case Deciding => true
       case Asleep => true
       case _ => false
  }

  /** An event on an awaited condition has cleared the wait condition, or woken the sleeper, or is
      about to be announced. */
  lemma EventIsNotLost(p: Call, w: World, c: nat)
    requires Inv(p, w) && Awaited(p, w, c) && (c in w.evented || c in w.ready)
    ensures StateOf(p, w) == SB_CLEAR || p.watch[c] in w.pending
    ensures w.pc == Asleep ==> w.signalled || p.watch[c] in w.pending
  {
    assert Tracked(p, w, c);
  }

  /** Its announcement does it: before the task sleeps it clears the wait condition, and afterwards it
      wakes the task. */
  lemma AnnouncementWakes(p: Call, w: World, c: nat, m: Memory, v: View, woken: seq<nat>)
    requires Inv(p, w) && Awaited(p, w, c) && Enabled(p, w, Announce(p.watch[c], m, v, woken))
    ensures var after := Next(p, w, Announce(p.watch[c], m, v, woken));
            StateOf(p, after) == SB_CLEAR && (w.pc == Asleep ==> after.signalled)
  {
    var h := p.watch[c];
    var x := w.mem.items[p.b][c];
    StepKeepsInv(p, w, Announce(h, m, v, woken));
    assert Tracked(p, w, c);
    if StateOf(p, w) != SB_CLEAR {
      WakeCase(w.mem, w.view, h, m, v, woken, p.b, x);
    }
  }

  /** A cleared wait condition stays cleared until the task has scanned again: it never sleeps on it. */
  lemma ClearedMeansRescan(p: Call, w: World, step: Step)
    requires Inv(p, w) && Enabled(p, w, step) && StateOf(p, w) == SB_CLEAR && step != Begin
    ensures StateOf(p, Next(p, w, step)) == SB_CLEAR
    ensures Next(p, w, step).pc == Asleep ==> w.pc == Asleep && w.signalled
  {
  }

  ghost predicate Reached(p: Call, w: World, steps: seq<Step>, t: World)
    decreases |steps|
  {
    if steps == [] then w == t
    else Enabled(p, w, steps[0]) && Reached(p, Next(p, w, steps[0]), steps[1..], t)
  }

  /** In every interleaving: a task left asleep with nothing still to be announced sleeps because
      every condition it waits for has not held since it was scanned. */
  lemma {:induction false} SleepsOnlyUnready(p: Call, w: World, steps: seq<Step>, t: World)
    requires Inv(p, w) && Reached(p, w, steps, t)
    ensures Inv(p, t)
    ensures t.pc == Asleep && !t.signalled && t.pending == {} ==>
      forall c: nat | c < |p.watch| :: c !in t.ready && c !in t.evented
    decreases |steps|
  {
    if steps != [] {
      StepKeepsInv(p, w, steps[0]);
      SleepsOnlyUnready(p, Next(p, w, steps[0]), steps[1..], t);
    } else if t.pc == Asleep && !t.signalled && t.pending == {} {
      forall c: nat | c < |p.watch|
        ensures c !in t.ready && c !in t.evented
      {
        assert Tracked(p, t, c);
      }
    }
  }

  // ---- When the call sleeps, and when it is over ----------------------------------------------

  /** The call has found something, or has ended. */
  ghost predicate Over(w: World) {
    w.pc == Finished || (w.pc.Scanning? && w.pc.found)
  }

  /** Somewhere along the run the timeout or a signal came, or a condition that held was looked at. */
  ghost predicate Stopped(p: Call, w: World, steps: seq<Step>)
    decreases |steps|
  {
    steps != [] && Enabled(p, w, steps[0])
    && (steps[0].Interrupt? || LooksAtReady(w, steps[0]) || Stopped(p, Next(p, w, steps[0]), steps[1..]))
  }

  ghost predicate LooksAtReady(w: World, step: Step) {
    match step
    case Scan(_) => w.pc.Scanning? && w.pc.k in w.ready
    case Rescan => w.pc.Rescanning? && w.pc.k in w.ready
    case _ => false
  }

  ghost predicate ReadyIsWatched(p: Call, w: World) {
    forall c <- w.ready :: c < |p.watch|
  }

  /** In every run a call is over exactly if it was stopped: by the timeout, a signal, or a condition that held
      when it was looked at. Nothing else ends it, and it goes on for nothing else. */
  lemma {:induction false} OverExactly(p: Call, w: World, steps: seq<Step>, t: World)
    requires !Over(w) && ReadyIsWatched(p, w) && Reached(p, w, steps, t)
    ensures Over(t) <==> Stopped(p, w, steps)
    decreases |steps|
  {
    if steps != [] {
      var m := Next(p, w, steps[0]);
      if Over(m) {
        StaysOver(p, m, steps[1..], t);
      } else {
        OverExactly(p, m, steps[1..], t);
      }
    }
  }

  lemma {:induction false} StaysOver(p: Call, w: World, steps: seq<Step>, t: World)
    requires Over(w) && Reached(p, w, steps, t)
    ensures Over(t)
    decreases |steps|
  {
    if steps != [] {
      StaysOver(p, Next(p, w, steps[0]), steps[1..], t);
    }
  }

  /** However the call ended, it leaves nothing of its own on any chain: every head is NIL. */
  lemma {:induction false} ReturnsClean(p: Call, w: World, steps: seq<Step>, t: World)
    requires Inv(p, w) && Reached(p, w, steps, t) && t.pc == Finished
    ensures forall h | 0 <= h < |t.mem.hdr| :: t.mem.hdr[h] == -1
    decreases |steps|
  {
    if steps != [] {
      StepKeepsInv(p, w, steps[0]);
      ReturnsClean(p, Next(p, w, steps[0]), steps[1..], t);
    } else {
      forall h | 0 <= h < |t.mem.hdr|
        ensures t.mem.hdr[h] == -1
      {
        HeadOnChain(t.mem.hdr, t.mem.next, t.view.chains, h);
      }
    }
  }

  /** How many steps the task itself has taken. */
  ghost function OwnSteps(steps: seq<Step>): nat {
    if steps == [] then 0
    else (if steps[0].Event? || steps[0].Quench? then 0 else 1) + OwnSteps(steps[1..])
  }

  /** Where a task that has found nothing is after so many steps of its own: past the start, at a condition,
      about to decide, and then asleep. */
  ghost predicate OnItsWay(p: Call, w: World, n: nat) {
    && p.b < |w.mem.state|
    && match w.pc
       case Start => n == 0
       case Scanning(k, found) => !found && n == 1 + k && k <= |p.watch| && w.mem.state[p.b] == SB_WILLWAIT
       case Deciding => n == |p.watch| + 2 && w.mem.state[p.b] == SB_WILLWAIT
       case Asleep => n == |p.watch| + 3 && w.mem.state[p.b] == SB_WAITING && !w.signalled
       case Rescanning(_) => false
       case Finished => false
  }

  /** A call that is not stopped and hears no announcement looks at its conditions one by one, decides and goes
      to sleep, and then does nothing: whatever events come meanwhile, its own steps alone say where it is. */
  lemma {:induction false} UndisturbedSleeps(p: Call, w: World, steps: seq<Step>, t: World, n: nat)
    requires OnItsWay(p, w, n) && Reached(p, w, steps, t) && !Stopped(p, w, steps)
    requires forall step <- steps :: !step.Announce?
    ensures OnItsWay(p, t, n + OwnSteps(steps))
    decreases |steps|
  {
    if steps != [] {
      assert steps[0] in steps;
      var m := Next(p, w, steps[0]);
      UndisturbedSleeps(p, m, steps[1..], t, n + if steps[0].Event? || steps[0].Quench? then 0 else 1);
    }
  }

  /** The task has yet to look at condition c before it can go to sleep. */
  ghost predicate Ahead(pc: Pc, c: nat) {
    match pc
    case Start => true
    case Scanning(k, _) => k <= c
    case Rescanning(k) => k <= c
    case _ => false
  }

  /** A condition that goes on holding is found by the scan or rescan under way or the next: in every run the
      call is over before the task could go to sleep on it. */
  lemma {:induction false} HoldingIsFound(p: Call, w: World, steps: seq<Step>, t: World, c: nat)
    requires c < |p.watch| && c in w.ready && (Over(w) || Ahead(w.pc, c))
    requires Reached(p, w, steps, t) && Quench(c) !in steps
    ensures c in t.ready && (Over(t) || Ahead(t.pc, c))
    decreases |steps|
  {
    if steps != [] {
      assert steps[0] in steps;
      HoldingIsFound(p, Next(p, w, steps[0]), steps[1..], t, c);
    }
  }

  // ---- Why every step keeps it --------------------------------------------------------------

  lemma SetStateOk(m: Memory, v: View, b: nat, s: SbState)
    requires WellFormed(m, v)
    ensures WellFormed(SetState(m, b, s), v)
  {
  }

  lemma ScanKeeps(p: Call, w: World, si: nat)
    requires Inv(p, w) && Enabled(p, w, Scan(si)) && w.pc.k !in w.ready
    ensures Inv(p, Next(p, w, Scan(si)))
  {
    var k := w.pc.k;
    var h, after := p.watch[k], Next(p, w, Scan(si));
    EnterOk(w.mem, w.view, p.b, h, si);
    forall x: nat | OnChain(after.view.chains, x)
      ensures x < |after.mem.owner| && after.mem.owner[x] == p.b
    {
      PushOnly(w.view.chains, h, si, x);
    }
    if !w.pc.found {
      forall j: nat | j < k + 1
        ensures Tracked(p, after, j)
      {
        if j < k {
          assert Tracked(p, w, j);
          StillTracked(p, w, si, j);
        } else {
          assert after.view.chains[h][|w.view.chains[h]|] == si;
        }
      }
    }
  }

  lemma PushOnly(chains: seq<Chain>, h: nat, si: nat, x: nat)
    requires h < |chains| && OnChain(Push(chains, h, si), x)
    ensures x == si || OnChain(chains, x)
  {
    var g, k :| 0 <= g < |chains| && 0 <= k < |Push(chains, h, si)[g]| && Push(chains, h, si)[g][k] == x;
    if k < |chains[g]| {
      assert chains[g][k] == x;
    }
  }

  lemma StillTracked(p: Call, w: World, si: nat, j: nat)
    requires Enabled(p, w, Scan(si)) && w.pc.k !in w.ready && p.b < |w.mem.items|
    requires |w.mem.state| == |w.mem.items|
    requires |w.mem.items[p.b]| == w.pc.k && j < w.pc.k && Tracked(p, w, j)
    ensures Tracked(p, Next(p, w, Scan(si)), j)
  {
    var x := w.mem.items[p.b][j];
    if StateOf(p, w) != SB_CLEAR {
      PushKeeps(w.view.chains, p.watch[w.pc.k], si, x);
      assert x != si;
    }
  }

  /** The sole waiter's unselect leaves nothing behind. */
  lemma UnselectKeeps(p: Call, w: World, m: Memory, v: View)
    requires Inv(p, w) && Unselects(w.mem, w.view, p.b, m, v)
    ensures WellFormed(m, v) && m.items[p.b] == [] && forall x: nat :: !OnChain(v.chains, x)
  {
    SoleWaiterLeavesNothing(w.mem, w.view, p.b);
  }

  lemma EventKeeps(p: Call, w: World, c: nat)
    requires Inv(p, w) && Enabled(p, w, Event(c))
    ensures Inv(p, Next(p, w, Event(c)))
  {
    var after := Next(p, w, Event(c));
    forall j: nat | j < |w.mem.items[p.b]| && j < |p.watch| && Tracked(p, w, j)
      ensures Tracked(p, after, j)
    {
    }
  }

  /** An item on head h's chain has its owner's wait condition cleared, and its owner woken if it
      waits; an item elsewhere stays where it is. */
  lemma WakeCase(m: Memory, v: View, h: nat, m': Memory, v': View, woken: seq<nat>, b: nat, x: nat)
    requires Placed(v.chains, v.home, v.stamp, |m.next|) && Wakes(m, v, h, m', v', woken)
    requires OnChain(v.chains, x) && x < |m.owner| && m.owner[x] == b < |m.state|
    ensures x in v.home
    ensures if v.home[x] == h then m'.state[b] == SB_CLEAR && (m.state[b] == SB_WAITING ==> b in woken)
            else OnChain(v'.chains, x)
  {
    var g, k :| 0 <= g < |v.chains| && 0 <= k < |v.chains[g]| && v.chains[g][k] == x;
    if g == h {
      assert Waits(v.chains[h], m.owner, b);
    } else {
      assert v'.chains[g][k] == x;
    }
  }

  lemma AnnounceTracked(p: Call, w: World, h: nat, m: Memory, v: View, woken: seq<nat>, j: nat)
    requires Inv(p, w) && Enabled(p, w, Announce(h, m, v, woken))
    requires j < |w.mem.items[p.b]| && j < |p.watch| && Tracked(p, w, j)
    ensures Next(p, w, Announce(h, m, v, woken)).mem.items == w.mem.items
    ensures Tracked(p, Next(p, w, Announce(h, m, v, woken)), j)
  {
    if h in w.sel && StateOf(p, w) != SB_CLEAR {
      WakeCase(w.mem, w.view, h, m, v, woken, p.b, w.mem.items[p.b][j]);
    } else if h in w.sel {
      StaysClear(w.mem, w.view, h, m, v, woken, p.b);
    }
  }

  lemma StaysClear(m: Memory, v: View, h: nat, m': Memory, v': View, woken: seq<nat>, b: nat)
    requires Wakes(m, v, h, m', v', woken) && b < |m.state| && m.state[b] == SB_CLEAR
    ensures m'.state[b] == SB_CLEAR
  {
  }

  lemma WokenChains(chains: seq<Chain>, h: nat, chains': seq<Chain>)
    requires h < |chains| && chains' == chains[h := []]
    ensures forall x: nat :: OnChain(chains', x) ==> OnChain(chains, x)
  {
    forall x: nat | OnChain(chains', x)
      ensures OnChain(chains, x)
    {
      var g, k :| 0 <= g < |chains'| && 0 <= k < |chains'[g]| && chains'[g][k] == x;
      assert chains[g][k] == x;
    }
  }

  lemma AnnounceKeeps(p: Call, w: World, h: nat, m: Memory, v: View, woken: seq<nat>)
    requires Inv(p, w) && Enabled(p, w, Announce(h, m, v, woken))
    ensures Inv(p, Next(p, w, Announce(h, m, v, woken)))
  {
    var after := Next(p, w, Announce(h, m, v, woken));
    if h in w.sel {
      WokenChains(w.view.chains, h, v.chains);
    }
    forall j: nat | j < |w.mem.items[p.b]| && j < |p.watch| && Tracked(p, w, j)
      ensures Tracked(p, after, j)
    {
      AnnounceTracked(p, w, h, m, v, woken, j);
    }
  }

  /** Steps that touch neither items nor events leave everything tracked. */
  lemma QuietKeeps(p: Call, w: World, w': World, n: nat)
    requires p.b < |w.mem.items|
    ensures w' == w.(pc := w'.pc, ready := w'.ready) && w'.ready <= w.ready && AllTracked(p, w, n)
      ==> AllTracked(p, w', n)
  {
    if w' == w.(pc := w'.pc, ready := w'.ready) && w'.ready <= w.ready && AllTracked(p, w, n) {
      forall j: nat | j < n
        ensures Tracked(p, w', j)
      {
        assert Tracked(p, w, j);
      }
    }
  }

  lemma SleepTracked(p: Call, w: World, m: Memory, v: View)
    requires Inv(p, w) && Enabled(p, w, Decide(m, v)) && StateOf(p, w) != SB_CLEAR
    ensures AllTracked(p, Next(p, w, Decide(m, v)), |p.watch|)
  {
    forall j: nat | j < |p.watch|
      ensures Tracked(p, Next(p, w, Decide(m, v)), j)
    {
      assert Tracked(p, w, j);
    }
  }
}
