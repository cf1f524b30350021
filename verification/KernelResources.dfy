// What every event does to the resources: who is served, in which order, and what is conserved.
module KernelResources {
  import opened Snapshot
  import opened KernelState
  import opened KernelInvariants

  function Min(a: nat, b: nat): nat {
    if a <= b then a else b
  }

  // ---- the meaning of an event for one resource ----

  /** KILL of a process that is past NEW. */
  predicate KillsActive(k: Kernel, pid: nat) {
    Killable(k, pid) && k.pcbs[pid].estado != NEW
  }

  /** Instances of the resource the event gives back. */
  function Returned(k: Kernel, ev: Event, name: string): nat {
    match ev
    case Signal(_, n) => if n == name then 1 else 0
    case Finish(pid) => if k.Running(pid) then Occurrences(k.HeldOf(pid), name) else 0
    case Kill(pid) => if KillsActive(k, pid) then Occurrences(k.HeldOf(pid), name) else 0
    case _ => 0
  }

  /** Whether the event takes a free instance. */
  predicate TakesFree(k: Kernel, ev: Event, name: string)
    requires name in k.resources
  {
    ev.Wait? && ev.name == name && k.Running(ev.pid) && 0 < k.resources[name].instances
  }

  /** The line of the resource before anybody is served: a killed process has left it, one that must wait is in. */
  function Line(k: Kernel, ev: Event, name: string): seq<nat>
    requires name in k.resources
  {
    var w := k.resources[name].waiting;
    match ev
    case Kill(pid) => if KillsActive(k, pid) then Remove(w, pid) else w
    case Wait(pid, n) => if n == name && k.Running(pid) && k.resources[name].instances <= 0 then w + [pid] else w
    case _ => w
  }

  function Served(k: Kernel, ev: Event, name: string): nat
    requires name in k.resources
  {
    Min(Returned(k, ev, name), |Line(k, ev, name)|)
  }

  // ---- handing over, exactly ----

  /** c returned instances: the first waiters get one each and the rest go to the pool. */
  ghost predicate Serves(r: Resource, r': Resource, c: nat) {
    && r'.waiting == r.waiting[Min(c, |r.waiting|)..]
    && r'.instances == r.instances + c - Min(c, |r.waiting|)
  }

  lemma GiveBackServes(k: Kernel, h: string, name: string)
    requires h in k.resources && name in k.resources
    ensures name in GiveBack(k, h).0.resources
    ensures Serves(k.resources[name], GiveBack(k, h).0.resources[name], if h == name then 1 else 0)
  {
  }

  lemma ServesTwice(r: Resource, r1: Resource, r2: Resource, a: nat, b: nat)
    requires Serves(r, r1, a) && Serves(r1, r2, b)
    ensures Serves(r, r2, a + b)
  {
    var w := r.waiting;
    var s := Min(a, |w|);
    assert w[s..][Min(b, |w| - s)..] == w[s + Min(b, |w| - s)..];
  }

  /** Dropping the first entry, and giving that instance back, leaves a state in which pid can go on. */
  lemma ReleaseFirst(k: Kernel, pid: nat)
    requires Waiters(k) && k.Live(pid) && !k.InLine(pid) && k.pcbs[pid].held != []
    ensures var k1 := SetHeld(k, pid, k.pcbs[pid].held[1..]);
            && Waiters(k1) && !k1.InLine(pid) && k1.Live(pid)
            && (forall n, q: nat :: k1.OnLine(n, q) <==> k.OnLine(n, q))
            && forall n :: n in k.resources ==>
                 var k2 := GiveBack(k1, n).0;
                 Waiters(k2) && k2.Live(pid) && !k2.InLine(pid) && k2.HeldOf(pid) == k.pcbs[pid].held[1..]
                 && forall m, q: nat :: k2.OnLine(m, q) ==> k1.OnLine(m, q)
  {
    SetHeldHandsOver(k, pid, k.pcbs[pid].held[1..]);
    var k1 := SetHeld(k, pid, k.pcbs[pid].held[1..]);
    assert forall n :: !k1.OnLine(n, pid);
    hide Waiters, SameQueues;
    forall n | n in k.resources
      ensures var k2 := GiveBack(k1, n).0;
              Waiters(k2) && k2.Live(pid) && !k2.InLine(pid) && k2.HeldOf(pid) == k.pcbs[pid].held[1..]
              && forall m, q: nat :: k2.OnLine(m, q) ==> k1.OnLine(m, q)
    {
      GiveBackHandsOver(k1, n);
      HeldSmaller(k1, n, pid);
      StillLive(k1, GiveBack(k1, n).0, pid);
      hide GiveBack;
      assert forall m :: !GiveBack(k1, n).0.OnLine(m, pid);
    }
  }

  lemma {:induction false} ReleaseServes(k: Kernel, pid: nat, name: string)
    requires Waiters(k) && k.Live(pid) && !k.InLine(pid) && name in k.resources
    ensures name in ReleaseAll(k, pid).0.resources
    ensures Serves(k.resources[name], ReleaseAll(k, pid).0.resources[name], Occurrences(k.HeldOf(pid), name))
    decreases |k.HeldOf(pid)|
  {
    var held := k.pcbs[pid].held;
    if held != [] {
      hide Waiters;
      ReleaseFirst(k, pid);
      var k1 := SetHeld(k, pid, held[1..]);
      if held[0] !in k.resources {
        ReleaseServes(k1, pid, name);
      } else {
        assert !k1.OnLine(held[0], pid);
        GiveBackServes(k1, held[0], name);
        var k2 := GiveBack(k1, held[0]).0;
        hide GiveBack, Serves;
        ReleaseServes(k2, pid, name);
        ServesTwice(k.resources[name], k2.resources[name], ReleaseAll(k2, pid).0.resources[name],
                    if held[0] == name then 1 else 0, Occurrences(k2.HeldOf(pid), name));
      }
    }
  }

  /** A process in no line keeps what it holds, and pid ends with nothing. */
  lemma {:induction false} ReleaseHolds(k: Kernel, pid: nat, p: nat)
    requires Waiters(k) && k.Live(pid) && !k.InLine(pid) && !k.InLine(p)
    ensures ReleaseAll(k, pid).0.HeldOf(p) == if p == pid then [] else k.HeldOf(p)
    decreases |k.HeldOf(pid)|
  {
    var held := k.pcbs[pid].held;
    if held != [] {
      hide Waiters;
      ReleaseFirst(k, pid);
      var k1 := SetHeld(k, pid, held[1..]);
      assert forall n :: !k1.OnLine(n, p);
      if held[0] !in k.resources {
        ReleaseHolds(k1, pid, p);
      } else {
        assert !k1.OnLine(held[0], pid);
        HeldSmaller(k1, held[0], p);
        hide GiveBack;
        ReleaseHolds(GiveBack(k1, held[0]).0, pid, p);
      }
    }
  }

  /** What a waiter for n gets when c instances of n come back. */
  function Prize(k: Kernel, n: string, c: nat, p: nat): seq<string>
    requires n in k.resources
  {
    var w := k.resources[n].waiting;
    if p in w[..Min(c, |w|)] then [n] else []
  }

  /** One instance of h: the first in its line gets it and leaves, every other waiter stays. */
  lemma GiveBackHolds(k: Kernel, h: string, n: string, p: nat)
    requires Waiters(k) && h in k.resources && k.OnLine(n, p)
    ensures var k' := GiveBack(k, h).0;
            if h == n && p == k.resources[n].waiting[0] then k'.HeldOf(p) == k.HeldOf(p) + [n] && !k'.InLine(p)
            else k'.HeldOf(p) == k.HeldOf(p) && k'.OnLine(n, p)
  {
    GiveBackHandsOver(k, h);
    var (k', woken) := GiveBack(k, h);
    if h != n && woken != [] {
      assert k.OnLine(h, woken[0]);
    }
    assert p in woken <==> h == n && p == k.resources[n].waiting[0];
    if p in woken {
      assert forall m :: !k'.OnLine(m, p);
    }
  }

  lemma PrizeStep(k: Kernel, h: string, n: string, c: nat, p: nat)
    requires h in k.resources && k.OnLine(n, p) && GiveBack(k, h).0.OnLine(n, p)
             && (h == n ==> p != k.resources[n].waiting[0])
    ensures Prize(GiveBack(k, h).0, n, c, p) == Prize(k, n, c + if h == n then 1 else 0, p)
  {
    GiveBackServes(k, h, n);
    var w := k.resources[n].waiting;
    if h == n {
      var t := w[1..];
      assert t[..Min(c, |t|)] == w[1..Min(c + 1, |w|)];
      assert w[..Min(c + 1, |w|)] == [w[0]] + w[1..Min(c + 1, |w|)];
    }
  }

  /** A waiter gets one instance if it is among the first Occurrences(held, n) of its line. */
  lemma {:induction false} ReleasePrizes(k: Kernel, pid: nat, n: string, p: nat)
    requires Waiters(k) && k.Live(pid) && !k.InLine(pid) && k.OnLine(n, p)
    ensures ReleaseAll(k, pid).0.HeldOf(p) == k.HeldOf(p) + Prize(k, n, Occurrences(k.HeldOf(pid), n), p)
    decreases |k.HeldOf(pid)|
  {
    assert p != pid;
    var held := k.pcbs[pid].held;
    if held != [] {
      var h, k1 := held[0], SetHeld(k, pid, held[1..]);
      ReleaseFirst(k, pid);
      if h !in k.resources {
        hide Waiters;
        ReleasePrizes(k1, pid, n, p);
      } else {
        assert !k1.OnLine(h, pid);
        GiveBackHolds(k1, h, n, p);
        hide Waiters;
        var k2 := GiveBack(k1, h).0;
        if h == n && p == k.resources[n].waiting[0] {
          ReleaseHolds(k2, pid, p);
        } else {
          PrizeStep(k1, h, n, Occurrences(k2.HeldOf(pid), n), p);
          ReleasePrizes(k2, pid, n, p);
        }
      }
    }
  }

  // ---- what moving processes leaves alone ----

  /** Resources and holdings are the same. */
  ghost predicate SameHoldings(k: Kernel, k': Kernel) {
    && k'.resources == k.resources && |k'.pcbs| == |k.pcbs|
    && forall p: nat :: k'.HeldOf(p) == k.HeldOf(p)
  }

  lemma MoveHoldings(k: Kernel, pid: nat, e: Estado)
    requires k.Live(pid) && k.pcbs[pid].estado != e && e != NEW
    ensures SameHoldings(k, Move(k, pid, e))
  {
    MoveExact(k, pid, e);
    hide Move;
  }

  lemma InterruptHoldings(k: Kernel, pid: nat, motivo: Motivo)
    ensures SameHoldings(k, Interrupt(k, pid, motivo))
  {
    if k.Running(pid) {
      MoveHoldings(k, pid, match motivo case QUANTUM => READY case BLOQUEO => BLOCK case FIN => EXIT);
    }
  }

  lemma {:induction false} WakeAllHoldings(k: Kernel, woken: seq<nat>)
    ensures SameHoldings(k, WakeAll(k, woken))
    decreases |woken|
  {
    if woken != [] {
      hide Move;
      if k.Is(woken[0], BLOCK) {
        MoveHoldings(k, woken[0], READY);
        WakeAllHoldings(Wake(k, woken[0]), woken[1..]);
      } else {
        WakeAllHoldings(k, woken[1..]);
      }
    }
  }

  // ---- the state in which a finished process releases what it holds ----

  predicate Releases(k: Kernel, ev: Event) {
    (ev.Finish? && k.Running(ev.pid)) || (ev.Kill? && KillsActive(k, ev.pid))
  }

  function Leaving(k: Kernel, ev: Event): Kernel
    requires Releases(k, ev)
  {
    if ev.Finish? then Interrupt(k, ev.pid, FIN) else LeaveQueues(Move(k, ev.pid, EXIT), ev.pid)
  }

  lemma LeavingExact(k: Kernel, ev: Event, degree: int)
    requires Inv(k, degree) && Releases(k, ev)
    ensures Inv(Leaving(k, ev), if ev.Finish? then degree else degree - 1)
    ensures var k' := Leaving(k, ev);
            && k'.Is(ev.pid, EXIT) && !k'.InLine(ev.pid)
            && (forall p: nat :: k'.HeldOf(p) == k.HeldOf(p))
            && k'.resources.Keys == k.resources.Keys && |k'.pcbs| == |k.pcbs|
            && forall n :: n in k.resources ==>
                 k'.resources[n].waiting == Line(k, ev, n) && k'.resources[n].instances == k.resources[n].instances
  {
    hide Inv;
    if ev.Finish? {
      FinLeaves(k, ev.pid, degree);
    } else {
      KillLeaves(k, ev.pid, degree);
    }
  }

  lemma FinLeaves(k: Kernel, pid: nat, degree: int)
    requires Inv(k, degree) && k.Running(pid)
    ensures var k' := Interrupt(k, pid, FIN);
            Inv(k', degree) && SameHoldings(k, k') && k'.Is(pid, EXIT) && !k'.InLine(pid)
  {
    hide Inv;
    RunningFree(k, pid, degree);
    FinKeeps(k, pid, degree);
    InterruptHoldings(k, pid, FIN);
    MoveExact(k, pid, EXIT);
    hide Move;
    var k' := Interrupt(k, pid, FIN);
    assert forall n :: k'.OnLine(n, pid) <==> k.OnLine(n, pid);
  }

  lemma KillLeaves(k: Kernel, pid: nat, degree: int)
    requires Inv(k, degree) && KillsActive(k, pid)
    ensures var k' := LeaveQueues(Move(k, pid, EXIT), pid);
            Inv(k', degree - 1) && SameHoldings(LeaveQueues(k, pid), k') && k'.Is(pid, EXIT) && !k'.InLine(pid)
  {
    hide Inv;
    var k1 := LeaveQueues(k, pid);
    LeaveKeeps(k, pid, degree);
    KillableFree(k, pid, degree);
    MoveToExit(k1, pid, degree);
    MoveHoldings(k1, pid, EXIT);
    MoveExact(k1, pid, EXIT);
    assert Move(k1, pid, EXIT) == LeaveQueues(Move(k, pid, EXIT), pid);
  }

  // ---- one event, one resource ----

  /** Who is served is the front of the line, and the pool gets what nobody takes. */
  ghost predicate Accounted(k: Kernel, k': Kernel, ev: Event, name: string)
    requires name in k.resources
  {
    && name in k'.resources
    && k'.resources[name].waiting == Line(k, ev, name)[Served(k, ev, name)..]
    && k'.resources[name].instances ==
       k.resources[name].instances + Returned(k, ev, name) - Served(k, ev, name)
       - if TakesFree(k, ev, name) then 1 else 0
  }

  lemma ReleaseAccounted(k: Kernel, ev: Event, name: string, degree: int)
    requires Inv(k, degree) && name in k.resources && Releases(k, ev)
    ensures Accounted(k, Step(k, ev), ev, name)
  {
    hide Inv, Move, Interrupt;
    LeavingExact(k, ev, degree);
    InvWaiters(Leaving(k, ev), if ev.Finish? then degree else degree - 1);
    hide Waiters, Line;
    ReleaseServes(Leaving(k, ev), ev.pid, name);
    var (k1, woken) := ReleaseAll(Leaving(k, ev), ev.pid);
    hide ReleaseAll;
    WakeAllHoldings(k1, woken);
  }

  lemma InvWaiters(k: Kernel, degree: int)
    requires Inv(k, degree)
    ensures Queues(k) && Waiters(k) && |k.inflight| <= 1
  {
  }

  lemma SignalAccounted(k: Kernel, pid: nat, name: string, n: string)
    requires name in k.resources && n in k.resources
    ensures Accounted(k, SignalBy(k, pid, name), Signal(pid, name), n)
  {
    var k0 := Forget(k, pid, name);
    GiveBackServes(k0, name, n);
    var (k1, woken) := GiveBack(k0, name);
    WakeAllHoldings(k1, woken);
    InterruptHoldings(WakeAll(k1, woken), pid, QUANTUM);
  }

  lemma WaitAccounted(k: Kernel, pid: nat, name: string, n: string)
    requires n in k.resources
    ensures Accounted(k, WaitFor(k, pid, name), Wait(pid, name), n)
  {
    if !k.Running(pid) {
    } else if name !in k.resources {
      InterruptHoldings(k, pid, QUANTUM);
    } else if 0 < k.resources[name].instances {
      InterruptHoldings(SetHeld(SetResource(k, name, k.resources[name].(instances := k.resources[name].instances - 1)),
                                pid, k.pcbs[pid].held + [name]), pid, QUANTUM);
    } else {
      InterruptHoldings(SetResource(k, name, k.resources[name].(waiting := k.resources[name].waiting + [pid])), pid,
        BLOQUEO);
    }
  }

  /** The resources after any event, exactly. */
  lemma StepAccounted(k: Kernel, ev: Event, name: string, degree: int)
    requires Inv(k, degree) && Enabled(k, ev) && name in k.resources
    ensures Accounted(k, Step(k, ev), ev, name)
  {
    hide Inv, Accounted, Move, Interrupt, ReleaseAndWake, LeaveQueues;
    if Releases(k, ev) {
      ReleaseAccounted(k, ev, name, degree);
    } else if ev.Signal? && ev.name in k.resources {
      SignalAccounted(k, ev.pid, ev.name, name);
    } else if ev.Wait? {
      WaitAccounted(k, ev.pid, ev.name, name);
    } else {
      InvWaiters(k, degree);
      QuietAccounted(k, ev, name);
    }
  }

  lemma QuietAccounted(k: Kernel, ev: Event, name: string)
    requires |k.inflight| <= 1 && name in k.resources
    requires !Releases(k, ev) && !ev.Wait? && !(ev.Signal? && ev.name in k.resources)
    ensures Accounted(k, Step(k, ev), ev, name)
  {
    hide Step;
    StepQuiet(k, ev);
  }

  /** Every other event leaves resources and holdings alone. */
  lemma StepQuiet(k: Kernel, ev: Event)
    requires |k.inflight| <= 1 && !Releases(k, ev) && !ev.Wait? && !(ev.Signal? && ev.name in k.resources)
    ensures Step(k, ev).resources == k.resources
    ensures |Step(k, ev).pcbs| == |k.pcbs| + if ev.Arrive? then 1 else 0
    ensures forall p: nat :: Step(k, ev).HeldOf(p) ==
              if ev.Admitted? && p in k.inflight && !ev.created then [] else k.HeldOf(p)
  {
    hide Move;
    match ev
    case Quantum(pid) => InterruptHoldings(k, pid, QUANTUM);
    case Preempt(pid) => InterruptHoldings(k, pid, QUANTUM);
    case Signal(pid, _) => InterruptHoldings(k, pid, QUANTUM);
    case Io(pid, _) => InterruptHoldings(k, pid, BLOQUEO);
    case Segfault(pid) => InterruptHoldings(k, pid, FIN);
    case IoDone(pid) =>
      if k.Is(pid, BLOCK) {
        var k1 := k.(io := k.io - {pid});
        MoveHoldings(k1, pid, READY);
        assert forall p: nat :: k1.HeldOf(p) == k.HeldOf(p);
      }
    case Kill(pid) =>
      if Killable(k, pid) {
        MoveHoldings(k, pid, EXIT);
      }
    case Dispatch(i) =>
      if i < |k.colaReady| && k.Is(k.colaReady[i], READY) {
        MoveHoldings(k, k.colaReady[i], EXEC);
      }
    case _ =>
  }

  lemma StepNames(k: Kernel, ev: Event, degree: int)
    requires Inv(k, degree)
    ensures Step(k, ev).resources.Keys == k.resources.Keys
  {
    InvWaiters(k, degree);
    hide Inv, Waiters, Queues, Interrupt, ReleaseAndWake, LeaveQueues, Move;
    if Releases(k, ev) {
      ReleaseNames(k, ev, degree);
    } else if ev.Signal? && ev.name in k.resources {
      SignalNames(k, ev.pid, ev.name);
    } else if ev.Wait? {
      WaitNames(k, ev.pid, ev.name);
    } else {
      StepQuiet(k, ev);
    }
  }

  lemma ReleaseNames(k: Kernel, ev: Event, degree: int)
    requires Inv(k, degree) && Releases(k, ev)
    ensures Step(k, ev).resources.Keys == k.resources.Keys
  {
    hide Inv, Step, Leaving, ReleaseAll, WakeAll, Line;
    ReleaseStep(k, ev, degree);
    LeavingExact(k, ev, degree);
    InvWaiters(Leaving(k, ev), if ev.Finish? then degree else degree - 1);
    ReleaseAllHandsOver(Leaving(k, ev), ev.pid);
    var (k1, woken) := ReleaseAll(Leaving(k, ev), ev.pid);
    WakeAllHoldings(k1, woken);
  }

  lemma SignalNames(k: Kernel, pid: nat, h: string)
    requires h in k.resources
    ensures SignalBy(k, pid, h).resources.Keys == k.resources.Keys
  {
    hide WakeAll, Interrupt;
    var (k1, woken) := GiveBack(Forget(k, pid, h), h);
    WakeAllHoldings(k1, woken);
    InterruptHoldings(WakeAll(k1, woken), pid, QUANTUM);
  }

  lemma WaitNames(k: Kernel, pid: nat, h: string)
    ensures WaitFor(k, pid, h).resources.Keys == k.resources.Keys
  {
    hide Interrupt;
    if !k.Running(pid) {
    } else if h !in k.resources {
      InterruptHoldings(k, pid, QUANTUM);
    } else if 0 < k.resources[h].instances {
      InterruptHoldings(SetHeld(SetResource(k, h, k.resources[h].(instances := k.resources[h].instances - 1)),
                                pid, k.pcbs[pid].held + [h]), pid, QUANTUM);
    } else {
      InterruptHoldings(SetResource(k, h, k.resources[h].(waiting := k.resources[h].waiting + [pid])), pid, BLOQUEO);
    }
  }

  // ---- what becomes of a waiter ----

  lemma LineSplit(line: seq<nat>, s: nat, p: nat)
    requires Distinct(line) && s <= |line| && p in line
    ensures p in line[..s] <==> p !in line[s..]
  {
    var i: nat :| i < |line| && line[i] == p;
    if i < s {
      assert line[..s][i] == p;
    } else {
      assert line[s..][i - s] == p;
    }
  }

  ghost predicate Outcome(k: Kernel, k': Kernel, p: nat, served: bool, name: string) {
    && k'.HeldOf(p) == k.HeldOf(p) + (if served then [name] else [])
    && k'.Is(p, if served then READY else BLOCK)
  }

  /** Waking up exactly those that left their line. */
  lemma WokenOutcome(k: Kernel, k1: Kernel, woken: seq<nat>, p: nat, name: string, degree: int)
    requires Inv(k, degree) && HandedOver(k, k1, woken) && k.OnLine(name, p)
    ensures WakeAll(k1, woken).Is(p, if k1.OnLine(name, p) then BLOCK else READY)
    ensures WakeAll(k1, woken).HeldOf(p) == k1.HeldOf(p)
  {
    SameQueuesKeep(k, k1, degree);
    HandedOverWakeable(k, k1, woken);
    assert Inv(k1, degree) && k.Is(p, BLOCK) && k1.Is(p, BLOCK);
    assert p in woken <==> !k1.OnLine(name, p);
    hide Inv, HandedOver, WakeAll;
    WakeAllKeeps(k1, woken, degree);
  }

  lemma InterruptOthers(k: Kernel, pid: nat, motivo: Motivo, p: nat)
    requires !k.Is(p, EXEC) && k.Live(p)
    ensures Interrupt(k, pid, motivo).Live(p) && Interrupt(k, pid, motivo).pcbs[p] == k.pcbs[p]
  {
    if k.Running(pid) {
      MoveExact(k, pid, match motivo case QUANTUM => READY case BLOQUEO => BLOCK case FIN => EXIT);
      hide Move;
    }
  }

  predicate IsServed(k: Kernel, ev: Event, name: string, p: nat)
    requires name in k.resources
  {
    p in Line(k, ev, name)[..Served(k, ev, name)]
  }

  lemma ReleaseStep(k: Kernel, ev: Event, degree: int)
    requires Inv(k, degree) && Releases(k, ev)
    ensures Leaving(k, ev).Live(ev.pid)
    ensures Step(k, ev).pcbs == ReleaseAndWake(Leaving(k, ev), ev.pid).pcbs
    ensures Step(k, ev).resources == ReleaseAndWake(Leaving(k, ev), ev.pid).resources
  {
    hide Inv, ReleaseAndWake;
    LeavingExact(k, ev, degree);
  }

  lemma LeavingWaiter(k: Kernel, ev: Event, name: string, p: nat, degree: int)
    requires Inv(k, degree) && Releases(k, ev) && k.OnLine(name, p) && (ev.Kill? ==> ev.pid != p)
    ensures var k0 := Leaving(k, ev);
            && Inv(k0, if ev.Finish? then degree else degree - 1) && k0.Live(ev.pid) && !k0.InLine(ev.pid)
            && k0.OnLine(name, p) && k0.resources[name].waiting == Line(k, ev, name)
            && k0.HeldOf(p) == k.HeldOf(p) && k0.HeldOf(ev.pid) == k.HeldOf(ev.pid)
  {
    hide Inv, Step, Leaving, Line;
    LineDistinct(k, ev, name, p, degree);
    LeavingExact(k, ev, degree);
  }

  lemma ReleaseOutcome(k: Kernel, ev: Event, name: string, p: nat, degree: int)
    requires Inv(k, degree) && Releases(k, ev) && k.OnLine(name, p) && (ev.Kill? ==> ev.pid != p)
    ensures Outcome(k, Step(k, ev), p, IsServed(k, ev, name, p), name)
  {
    hide Inv, Step, Leaving, ReleaseAndWake, Line;
    ReleaseStep(k, ev, degree);
    LeavingWaiter(k, ev, name, p, degree);
    LeavingOutcome(Leaving(k, ev), ev.pid, name, p, if ev.Finish? then degree else degree - 1);
  }

  lemma LeavingOutcome(k: Kernel, pid: nat, name: string, p: nat, degree: int)
    requires Inv(k, degree) && k.Live(pid) && !k.InLine(pid) && k.OnLine(name, p)
    ensures var w := k.resources[name].waiting; var s := Min(Occurrences(k.HeldOf(pid), name), |w|);
            Outcome(k, ReleaseAndWake(k, pid), p, p in w[..s], name)
  {
    var w := k.resources[name].waiting;
    InvWaiters(k, degree);
    assert Distinct(w);
    ReleasePrizes(k, pid, name, p);
    ReleaseServes(k, pid, name);
    ReleaseAllHandsOver(k, pid);
    var (k1, woken) := ReleaseAll(k, pid);
    hide ReleaseAll, Waiters, Queues;
    LineSplit(w, Min(Occurrences(k.HeldOf(pid), name), |w|), p);
    WokenOutcome(k, k1, woken, p, name, degree);
  }

  lemma LineDistinct(k: Kernel, ev: Event, name: string, p: nat, degree: int)
    requires Inv(k, degree) && k.OnLine(name, p) && (ev.Kill? ==> ev.pid != p)
    ensures Distinct(Line(k, ev, name)) && p in Line(k, ev, name)
  {
    var w := k.resources[name].waiting;
    assert Distinct(w);
    if ev.Kill? {
      RemoveExact(w, ev.pid);
    } else if ev.Wait? && k.Running(ev.pid) {
      RunningFree(k, ev.pid, degree);
      assert !k.OnLine(name, ev.pid);
      assert Distinct(w + [ev.pid]);
    }
  }

  lemma GiveBackOutcome(k: Kernel, name: string, n: string, p: nat, degree: int)
    requires Inv(k, degree) && name in k.resources && k.OnLine(n, p)
    ensures Outcome(k, WakeAll(GiveBack(k, name).0, GiveBack(k, name).1), p,
                    n == name && p == k.resources[n].waiting[0], n)
  {
    InvWaiters(k, degree);
    hide Inv;
    GiveBackHandsOver(k, name);
    GiveBackHolds(k, name, n, p);
    var (k1, woken) := GiveBack(k, name);
    hide GiveBack, Waiters, Queues, HandedOver;
    WokenOutcome(k, k1, woken, p, n, degree);
    assert n == name && p == k.resources[n].waiting[0] ==> !k1.OnLine(n, p);
  }

  lemma SignalOutcome(k: Kernel, pid: nat, name: string, n: string, p: nat, degree: int)
    requires Inv(k, degree) && name in k.resources && k.OnLine(n, p)
    ensures Outcome(k, SignalBy(k, pid, name), p, IsServed(k, Signal(pid, name), n, p), n)
  {
    assert k.Is(p, BLOCK);
    hide Inv;
    var k0 := Forget(k, pid, name);
    ForgetKeeps(k, pid, name, degree);
    assert k0.HeldOf(p) == k.HeldOf(p) && k0.OnLine(n, p);
    hide Forget;
    GiveBackOutcome(k0, name, n, p, degree);
    var (k1, woken) := GiveBack(k0, name);
    hide GiveBack, WakeAll;
    InterruptOthers(WakeAll(k1, woken), pid, QUANTUM, p);
    hide Interrupt;
    var w := k.resources[n].waiting;
    assert w[..Served(k, Signal(pid, name), n)] == if n == name then [w[0]] else [];
  }

  lemma WaitOutcome(k: Kernel, pid: nat, name: string, n: string, p: nat, degree: int)
    requires Inv(k, degree) && k.OnLine(n, p)
    ensures WaitFor(k, pid, name).HeldOf(p) == k.HeldOf(p) && WaitFor(k, pid, name).Is(p, BLOCK)
  {
    assert k.Is(p, BLOCK);
    hide Inv, Interrupt;
    if !k.Running(pid) {
    } else if name !in k.resources {
      InterruptOthers(k, pid, QUANTUM, p);
    } else if 0 < k.resources[name].instances {
      InterruptOthers(SetHeld(SetResource(k, name, k.resources[name].(instances := k.resources[name].instances - 1)),
                              pid, k.pcbs[pid].held + [name]), pid, QUANTUM, p);
    } else {
      InterruptOthers(SetResource(k, name, k.resources[name].(waiting := k.resources[name].waiting + [pid])), pid,
        BLOQUEO, p);
    }
  }

  lemma QuietState(k: Kernel, ev: Event, p: nat, degree: int)
    requires Inv(k, degree) && Enabled(k, ev) && !Releases(k, ev)
    requires !ev.Wait? && !(ev.Signal? && ev.name in k.resources)
    requires k.Is(p, BLOCK) && p !in k.io && (ev.Kill? ==> ev.pid != p)
    ensures Step(k, ev).Is(p, BLOCK)
  {
    match ev
    case Quantum(pid) => InterruptOthers(k, pid, QUANTUM, p);
    case Preempt(pid) => InterruptOthers(k, pid, QUANTUM, p);
    case Signal(pid, _) => InterruptOthers(k, pid, QUANTUM, p);
    case Io(pid, _) => InterruptOthers(k, pid, BLOQUEO, p);
    case Segfault(pid) => InterruptOthers(k, pid, FIN, p);
    case Admitted(_) =>
      assert k.inflight[0] in k.inflight;
    case _ =>
  }

  lemma QuietOutcome(k: Kernel, ev: Event, name: string, p: nat, degree: int)
    requires Inv(k, degree) && Enabled(k, ev) && !Releases(k, ev)
    requires !ev.Wait? && !(ev.Signal? && ev.name in k.resources)
    requires k.OnLine(name, p) && (ev.Kill? ==> ev.pid != p)
    ensures Outcome(k, Step(k, ev), p, IsServed(k, ev, name, p), name)
  {
    QuietState(k, ev, p, degree);
    StepQuiet(k, ev);
    assert p !in k.inflight;
    hide Step, Inv;
    assert Served(k, ev, name) == 0;
  }

  /** A waiter that is not killed gets one instance and becomes READY if it is among the served ones, and
      otherwise stays BLOCKED with what it held. */
  lemma WaiterOutcome(k: Kernel, ev: Event, name: string, p: nat, degree: int)
    requires Inv(k, degree) && Enabled(k, ev) && k.OnLine(name, p) && (ev.Kill? ==> ev.pid != p)
    ensures Outcome(k, Step(k, ev), p, IsServed(k, ev, name, p), name)
  {
    hide Inv, Move, Interrupt, ReleaseAndWake, LeaveQueues, Line;
    if Releases(k, ev) {
      ReleaseOutcome(k, ev, name, p, degree);
    } else if ev.Signal? && ev.name in k.resources {
      SignalOutcome(k, ev.pid, ev.name, name, p, degree);
    } else if ev.Wait? {
      WaitOutcome(k, ev.pid, ev.name, name, p, degree);
    } else {
      QuietOutcome(k, ev, name, p, degree);
    }
  }

  /** A process that finishes or is killed past NEW ends in EXIT holding nothing. */
  lemma LeaverHoldsNothing(k: Kernel, ev: Event, degree: int)
    requires Inv(k, degree) && Releases(k, ev)
    ensures Step(k, ev).Is(ev.pid, EXIT) && Step(k, ev).HeldOf(ev.pid) == []
  {
    hide Inv, Step, Leaving, ReleaseAndWake, Line;
    ReleaseStep(k, ev, degree);
    LeavingExact(k, ev, degree);
    LeaverReleased(Leaving(k, ev), ev.pid, if ev.Finish? then degree else degree - 1);
  }

  lemma LeaverReleased(k: Kernel, pid: nat, degree: int)
    requires Inv(k, degree) && k.Is(pid, EXIT) && !k.InLine(pid)
    ensures ReleaseAndWake(k, pid).Is(pid, EXIT) && ReleaseAndWake(k, pid).HeldOf(pid) == []
  {
    ReleaseHolds(k, pid, pid);
    ReleaseAllHandsOver(k, pid);
    var (k1, woken) := ReleaseAll(k, pid);
    hide ReleaseAll;
    assert k1.Is(pid, EXIT);
    SameQueuesKeep(k, k1, degree);
    HandedOverWakeable(k, k1, woken);
    hide WakeAll;
    assert pid !in woken;
    WakeAllKeeps(k1, woken, degree);
  }

  /** A process that is not executing, not in line and not the one killed keeps what it holds. */
  lemma Bystander(k: Kernel, ev: Event, p: nat, degree: int)
    requires Inv(k, degree) && !k.Running(p) && !k.InLine(p)
    requires ev != Kill(p) && !(ev.Admitted? && p in k.inflight)
    ensures Step(k, ev).HeldOf(p) == k.HeldOf(p)
  {
    InvWaiters(k, degree);
    hide Inv, Queues, Interrupt, ReleaseAndWake, LeaveQueues, Move, ReleaseAll, WakeAll;
    if Releases(k, ev) {
      BystanderOfRelease(k, ev, p, degree);
    } else if ev.Signal? && ev.name in k.resources {
      BystanderOfSignal(k, ev.pid, ev.name, p);
    } else if ev.Wait? {
      BystanderOfWait(k, ev.pid, ev.name, p);
    } else {
      StepQuiet(k, ev);
    }
  }

  lemma BystanderOfRelease(k: Kernel, ev: Event, p: nat, degree: int)
    requires Inv(k, degree) && Releases(k, ev) && !k.InLine(p) && p != ev.pid
    ensures Step(k, ev).HeldOf(p) == k.HeldOf(p)
  {
    InvWaiters(k, degree);
    forall n | n in k.resources
      ensures p !in Line(k, ev, n)
    {
      assert !k.OnLine(n, p) && Distinct(k.resources[n].waiting);
      RemoveExact(k.resources[n].waiting, ev.pid);
    }
    hide Inv, Step, Leaving, ReleaseAll, WakeAll, Line, Queues;
    ReleaseStep(k, ev, degree);
    LeavingExact(k, ev, degree);
    var k0 := Leaving(k, ev);
    InvWaiters(k0, if ev.Finish? then degree else degree - 1);
    assert forall n :: !k0.OnLine(n, p);
    ReleaseHolds(k0, ev.pid, p);
    var (k1, woken) := ReleaseAll(k0, ev.pid);
    WakeAllHoldings(k1, woken);
  }

  lemma BystanderOfSignal(k: Kernel, pid: nat, h: string, p: nat)
    requires h in k.resources && !k.InLine(p) && !k.Running(p)
    ensures SignalBy(k, pid, h).HeldOf(p) == k.HeldOf(p)
  {
    hide WakeAll, Interrupt;
    var k0 := Forget(k, pid, h);
    assert !k.OnLine(h, p) && !k0.OnLine(h, p);
    HeldSmaller(k0, h, p);
    var (k1, woken) := GiveBack(k0, h);
    WakeAllHoldings(k1, woken);
    InterruptHoldings(WakeAll(k1, woken), pid, QUANTUM);
  }

  lemma BystanderOfWait(k: Kernel, pid: nat, h: string, p: nat)
    requires !k.Running(p)
    ensures WaitFor(k, pid, h).HeldOf(p) == k.HeldOf(p)
  {
    hide Interrupt;
    if !k.Running(pid) {
    } else if h !in k.resources {
      InterruptHoldings(k, pid, QUANTUM);
    } else if 0 < k.resources[h].instances {
      InterruptHoldings(SetHeld(SetResource(k, h, k.resources[h].(instances := k.resources[h].instances - 1)),
                                pid, k.pcbs[pid].held + [h]), pid, QUANTUM);
    } else {
      InterruptHoldings(SetResource(k, h, k.resources[h].(waiting := k.resources[h].waiting + [pid])), pid, BLOQUEO);
    }
  }

  // ---- first come, first served ----

  ghost predicate Before(line: seq<nat>, x: nat, y: nat) {
    exists i: nat, j: nat :: i < j < |line| && line[i] == x && line[j] == y
  }

  lemma {:induction false} RemoveKeepsOrder(line: seq<nat>, x: nat, y: nat, pid: nat)
    requires Before(line, x, y) && pid != x && pid != y
    ensures Before(Remove(line, pid), x, y)
  {
    var i: nat, j: nat :| i < j < |line| && line[i] == x && line[j] == y;
    var t, r := line[1..], Remove(line[1..], pid);
    if i == 0 {
      RemoveKeeps(t, y, pid);
      var m: nat :| m < |r| && r[m] == y;
      assert ([x] + r)[0] == x && ([x] + r)[m + 1] == y;
    } else {
      assert t[i - 1] == x && t[j - 1] == y;
      RemoveKeepsOrder(t, x, y, pid);
      var a: nat, b: nat :| a < b < |r| && r[a] == x && r[b] == y;
      assert line[0] != pid ==> ([line[0]] + r)[a + 1] == x && ([line[0]] + r)[b + 1] == y;
    }
  }

  lemma {:induction false} RemoveKeeps(line: seq<nat>, y: nat, pid: nat)
    requires y in line && pid != y
    ensures y in Remove(line, pid)
  {
    if line[0] != y {
      RemoveKeeps(line[1..], y, pid);
    }
  }

  lemma DropKeepsOrder(line: seq<nat>, s: nat, x: nat, y: nat)
    requires Before(line, x, y) && s <= |line| && x in line[s..] && Distinct(line)
    ensures Before(line[s..], x, y)
  {
    var i: nat, j: nat :| i < j < |line| && line[i] == x && line[j] == y;
    var m: nat :| m < |line[s..]| && line[s..][m] == x;
    assert line[s + m] == x;
    assert i == s + m;
    assert line[s..][j - s] == y;
  }

  /** Nobody overtakes: as long as x stays in the line, whoever came after it stays behind it, unless killed. */
  lemma NoOvertaking(k: Kernel, ev: Event, name: string, x: nat, y: nat, degree: int)
    requires Inv(k, degree) && Enabled(k, ev) && name in k.resources && Before(k.resources[name].waiting, x, y)
    requires Step(k, ev).OnLine(name, x) && ev != Kill(y)
    ensures Before(Step(k, ev).resources[name].waiting, x, y)
  {
    StepAccounted(k, ev, name, degree);
    KilledLeaves(k, ev, name, x, degree);
    InvWaiters(k, degree);
    var w, line := k.resources[name].waiting, Line(k, ev, name);
    assert x in w && k.OnLine(name, x);
    LineDistinct(k, ev, name, x, degree);
    hide Step, Waiters, Queues, Inv;
    if ev.Kill? {
      RemoveKeepsOrder(w, x, y, ev.pid);
    } else {
      assert Before(line, x, y) by {
        var i: nat, j: nat :| i < j < |w| && w[i] == x && w[j] == y;
        assert line[i] == x && line[j] == y;
      }
    }
    DropKeepsOrder(line, Served(k, ev, name), x, y);
  }

  /** A killed process is in no line afterwards. */
  lemma KilledLeaves(k: Kernel, ev: Event, name: string, x: nat, degree: int)
    requires Inv(k, degree) && Enabled(k, ev) && k.OnLine(name, x) && Step(k, ev).OnLine(name, x)
    ensures ev != Kill(x)
  {
    if ev == Kill(x) {
      StepKeeps(k, ev, degree);
      assert k.Is(x, BLOCK) && KillsActive(k, x);
      LeaverHoldsNothing(k, ev, degree);
    }
  }

  /** The same over a whole run: x in the line after every event, and y not killed. */
  ghost predicate Stays(k: Kernel, events: seq<Event>, name: string, x: nat, y: nat)
    decreases |events|
  {
    events != [] ==>
      && Step(k, events[0]).OnLine(name, x) && events[0] != Kill(y)
      && Stays(Step(k, events[0]), events[1..], name, x, y)
  }

  lemma {:induction false} NoOvertakingInRun(k: Kernel, events: seq<Event>, name: string, x: nat, y: nat, degree: int)
    requires Inv(k, degree) && Possible(k, events) && Stays(k, events, name, x, y)
    requires name in k.resources && Before(k.resources[name].waiting, x, y)
    ensures name in Run(k, events).resources && Before(Run(k, events).resources[name].waiting, x, y)
    decreases |events|
  {
    if events != [] {
      NoOvertaking(k, events[0], name, x, y, degree);
      StepKeeps(k, events[0], degree);
      NoOvertakingInRun(Step(k, events[0]), events[1..], name, x, y, degree);
    }
  }
}
