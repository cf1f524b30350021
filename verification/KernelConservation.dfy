// Instances are conserved over every run, except for the SIGNALs of processes that do not hold the resource.
module KernelConservation {
  import opened Snapshot
  import opened KernelState
  import opened KernelInvariants
  import opened KernelResources

  function HeldIn(p: Pcb): seq<string> {
    if p.Pcb? then p.held else []
  }

  /** Instances of the resource in the hands of all processes, finished ones included. */
  function HeldTotal(pcbs: seq<Pcb>, name: string): nat {
    if pcbs == [] then 0
    else HeldTotal(pcbs[..|pcbs| - 1], name) + Occurrences(HeldIn(pcbs[|pcbs| - 1]), name)
  }

  /** Free instances and those held. */
  function Count(k: Kernel, name: string): int
    requires name in k.resources
  {
    k.resources[name].instances + HeldTotal(k.pcbs, name)
  }

  lemma {:induction false} HeldUpdate(pcbs: seq<Pcb>, i: nat, p: Pcb, name: string)
    requires i < |pcbs|
    ensures HeldTotal(pcbs[i := p], name) ==
            HeldTotal(pcbs, name) - Occurrences(HeldIn(pcbs[i]), name) + Occurrences(HeldIn(p), name)
  {
    var n := |pcbs| - 1;
    if i == n {
      assert pcbs[i := p][..n] == pcbs[..n];
    } else {
      assert pcbs[i := p][..n] == pcbs[..n][i := p];
      HeldUpdate(pcbs[..n], i, p, name);
    }
  }

  lemma {:induction false} HeldSame(a: seq<Pcb>, b: seq<Pcb>, name: string)
    requires |a| == |b| && forall i: nat :: i < |a| ==> HeldIn(a[i]) == HeldIn(b[i])
    ensures HeldTotal(a, name) == HeldTotal(b, name)
  {
    if a != [] {
      HeldSame(a[..|a| - 1], b[..|a| - 1], name);
    }
  }

  lemma SameHoldingsCount(k: Kernel, k': Kernel, name: string)
    requires SameHoldings(k, k') && name in k.resources
    ensures Count(k', name) == Count(k, name)
  {
    forall i: nat | i < |k.pcbs|
      ensures HeldIn(k.pcbs[i]) == HeldIn(k'.pcbs[i])
    {
      assert k'.HeldOf(i) == k.HeldOf(i);
    }
    HeldSame(k.pcbs, k'.pcbs, name);
  }

  lemma SetHeldCount(k: Kernel, pid: nat, held: seq<string>, name: string)
    requires k.Live(pid) && name in k.resources
    ensures Count(SetHeld(k, pid, held), name) ==
            Count(k, name) - Occurrences(k.HeldOf(pid), name) + Occurrences(held, name)
  {
    HeldUpdate(k.pcbs, pid, k.pcbs[pid].(held := held), name);
  }

  lemma GiveBackCount(k: Kernel, h: string, name: string)
    requires Waiters(k) && h in k.resources && name in k.resources
    ensures Count(GiveBack(k, h).0, name) == Count(k, name) + if h == name then 1 else 0
  {
    var w := k.resources[h].waiting;
    if w != [] {
      assert k.OnLine(h, w[0]);
      var k1 := SetResource(k, h, k.resources[h].(waiting := w[1..]));
      OccurrencesAppend(k.HeldOf(w[0]), [h], name);
      SetHeldCount(k1, w[0], k.HeldOf(w[0]) + [h], name);
    }
  }

  /** Releasing everything loses and creates nothing. */
  lemma {:induction false} ReleaseCount(k: Kernel, pid: nat, name: string)
    requires Waiters(k) && k.Live(pid) && !k.InLine(pid) && name in k.resources
    ensures name in ReleaseAll(k, pid).0.resources
    ensures Count(ReleaseAll(k, pid).0, name) == Count(k, name)
    decreases |k.HeldOf(pid)|
  {
    var held := k.pcbs[pid].held;
    if held != [] {
      hide Waiters, GiveBack, Count;
      ReleaseFirst(k, pid);
      SetHeldCount(k, pid, held[1..], name);
      var k1 := SetHeld(k, pid, held[1..]);
      if held[0] !in k.resources {
        ReleaseCount(k1, pid, name);
      } else {
        assert !k1.OnLine(held[0], pid);
        GiveBackCount(k1, held[0], name);
        GiveBackServes(k1, held[0], name);
        ReleaseCount(GiveBack(k1, held[0]).0, pid, name);
      }
    }
  }

  lemma {:induction false} RemoveNameExact(s: seq<string>, x: string, name: string)
    ensures Occurrences(RemoveName(s, x), name) == Occurrences(s, name) - if x == name && x in s then 1 else 0
  {
    OccurrencesIn(s, x);
    if s != [] && s[0] != x {
      RemoveNameExact(s[1..], x, name);
      OccurrencesIn(s[1..], x);
    }
  }

  /** The event is a SIGNAL by a process that does not hold the resource: it is not executing any more, or
      never took an instance. */
  predicate Foreign(k: Kernel, ev: Event, name: string) {
    ev.Signal? && ev.name == name && !(k.Running(ev.pid) && name in k.pcbs[ev.pid].held)
  }

  lemma ForgetCount(k: Kernel, pid: nat, h: string, name: string)
    requires name in k.resources
    ensures Forget(k, pid, h).resources == k.resources
    ensures Count(Forget(k, pid, h), name) ==
            Count(k, name) - if h == name && !Foreign(k, Signal(pid, h), h) then 1 else 0
  {
    if k.Running(pid) && h in k.pcbs[pid].held {
      RemoveNameExact(k.pcbs[pid].held, h, name);
      SetHeldCount(k, pid, RemoveName(k.pcbs[pid].held, h), name);
    }
  }

  lemma SignalCount(k: Kernel, pid: nat, h: string, name: string, degree: int)
    requires Inv(k, degree) && h in k.resources && name in k.resources
    ensures name in SignalBy(k, pid, h).resources
    ensures Count(SignalBy(k, pid, h), name) == Count(k, name) + if Foreign(k, Signal(pid, h), name) then 1 else 0
  {
    hide Inv, Waiters, Queues, Count, Forget, GiveBack, WakeAll, Interrupt;
    ForgetKeeps(k, pid, h, degree);
    var k0 := Forget(k, pid, h);
    InvWaiters(k0, degree);
    ForgetCount(k, pid, h, name);
    GiveBackCount(k0, h, name);
    GiveBackServes(k0, h, name);
    var (k1, woken) := GiveBack(k0, h);
    WakeAllHoldings(k1, woken);
    SameHoldingsCount(k1, WakeAll(k1, woken), name);
    InterruptHoldings(WakeAll(k1, woken), pid, QUANTUM);
    SameHoldingsCount(WakeAll(k1, woken), SignalBy(k, pid, h), name);
  }

  lemma WaitCount(k: Kernel, pid: nat, h: string, name: string)
    requires name in k.resources
    ensures name in WaitFor(k, pid, h).resources
    ensures Count(WaitFor(k, pid, h), name) == Count(k, name)
  {
    if !k.Running(pid) {
    } else if h !in k.resources {
      InterruptHoldings(k, pid, QUANTUM);
      SameHoldingsCount(k, Interrupt(k, pid, QUANTUM), name);
    } else if 0 < k.resources[h].instances {
      var k1 := SetResource(k, h, k.resources[h].(instances := k.resources[h].instances - 1));
      var k2 := SetHeld(k1, pid, k.pcbs[pid].held + [h]);
      OccurrencesAppend(k.pcbs[pid].held, [h], name);
      SetHeldCount(k1, pid, k.pcbs[pid].held + [h], name);
      InterruptHoldings(k2, pid, QUANTUM);
      SameHoldingsCount(k2, Interrupt(k2, pid, QUANTUM), name);
    } else {
      var k1 := SetResource(k, h, k.resources[h].(waiting := k.resources[h].waiting + [pid]));
      InterruptHoldings(k1, pid, BLOQUEO);
      SameHoldingsCount(k1, Interrupt(k1, pid, BLOQUEO), name);
    }
  }

  lemma ReleaseStepCount(k: Kernel, ev: Event, name: string, degree: int)
    requires Inv(k, degree) && Releases(k, ev) && name in k.resources
    ensures name in Step(k, ev).resources
    ensures Count(Step(k, ev), name) == Count(k, name)
  {
    hide Inv, Waiters, Queues, Step, Leaving, ReleaseAll, WakeAll, Line;
    ReleaseStep(k, ev, degree);
    LeavingExact(k, ev, degree);
    var k0 := Leaving(k, ev);
    InvWaiters(k0, if ev.Finish? then degree else degree - 1);
    forall i: nat | i < |k.pcbs|
      ensures HeldIn(k.pcbs[i]) == HeldIn(k0.pcbs[i])
    {
      assert k0.HeldOf(i) == k.HeldOf(i);
    }
    HeldSame(k.pcbs, k0.pcbs, name);
    ReleaseCount(k0, ev.pid, name);
    var (k1, woken) := ReleaseAll(k0, ev.pid);
    WakeAllHoldings(k1, woken);
    SameHoldingsCount(k1, WakeAll(k1, woken), name);
  }

  /** A process that was never admitted holds nothing. */
  ghost predicate NewHoldNothing(k: Kernel) {
    forall p: nat :: k.Is(p, NEW) ==> k.HeldOf(p) == []
  }

  lemma QuietCount(k: Kernel, ev: Event, name: string, degree: int)
    requires Inv(k, degree) && NewHoldNothing(k) && name in k.resources
    requires !Releases(k, ev) && !ev.Wait? && !(ev.Signal? && ev.name in k.resources)
    ensures name in Step(k, ev).resources
    ensures Count(Step(k, ev), name) == Count(k, name)
  {
    StepQuiet(k, ev);
    var k' := Step(k, ev);
    assert forall p: nat :: p in k.inflight ==> k.HeldOf(p) == [];
    hide Step, Inv;
    forall i: nat | i < |k.pcbs|
      ensures HeldIn(k.pcbs[i]) == HeldIn(k'.pcbs[i])
    {
      assert k'.HeldOf(i) == k.HeldOf(i);
    }
    HeldSame(k.pcbs, k'.pcbs[..|k.pcbs|], name);
    if ev.Arrive? {
      assert k'.HeldOf(|k.pcbs|) == k.HeldOf(|k.pcbs|) == [];
      assert k'.pcbs[..|k'.pcbs| - 1] == k'.pcbs[..|k.pcbs|];
    } else {
      assert k'.pcbs[..|k.pcbs|] == k'.pcbs;
    }
  }

  /** Only a foreign SIGNAL changes the number of instances, by one. */
  lemma StepCount(k: Kernel, ev: Event, name: string, degree: int)
    requires Inv(k, degree) && NewHoldNothing(k) && name in k.resources
    ensures name in Step(k, ev).resources
    ensures Count(Step(k, ev), name) == Count(k, name) + if Foreign(k, ev, name) then 1 else 0
  {
    hide Inv, Count, NewHoldNothing, Interrupt, ReleaseAndWake, LeaveQueues, Move;
    if Releases(k, ev) {
      ReleaseStepCount(k, ev, name, degree);
    } else if ev.Signal? && ev.name in k.resources {
      SignalCount(k, ev.pid, ev.name, name, degree);
    } else if ev.Wait? {
      WaitCount(k, ev.pid, ev.name, name);
    } else {
      QuietCount(k, ev, name, degree);
    }
  }

  // ---- processes before their admission and after their end ----

  lemma InterruptBack(k: Kernel, pid: nat, motivo: Motivo, p: nat, e: Estado)
    requires Interrupt(k, pid, motivo).Is(p, e) && (e == NEW || e == EXIT)
    ensures k.Is(p, e) || (e == EXIT && p == pid && motivo == FIN)
  {
    if k.Running(pid) {
      MoveExact(k, pid, match motivo case QUANTUM => READY case BLOQUEO => BLOCK case FIN => EXIT);
      hide Move;
    }
  }

  lemma {:induction false} WakeAllBack(k: Kernel, woken: seq<nat>, p: nat, e: Estado)
    requires WakeAll(k, woken).Is(p, e) && e != READY
    ensures k.Is(p, e)
    decreases |woken|
  {
    if woken != [] {
      if k.Is(woken[0], BLOCK) {
        WakeAllBack(Wake(k, woken[0]), woken[1..], p, e);
        MoveExact(k, woken[0], READY);
        hide Move;
      } else {
        WakeAllBack(k, woken[1..], p, e);
      }
    }
  }

  lemma SignalBack(k: Kernel, pid: nat, h: string, p: nat, e: Estado, degree: int)
    requires Inv(k, degree) && h in k.resources && SignalBy(k, pid, h).Is(p, e) && (e == NEW || e == EXIT)
    ensures k.Is(p, e)
  {
    ForgetKeeps(k, pid, h, degree);
    var k0 := Forget(k, pid, h);
    InvWaiters(k0, degree);
    GiveBackHandsOver(k0, h);
    hide Inv, Waiters, Queues;
    var (k1, woken) := GiveBack(k0, h);
    hide GiveBack, Interrupt, WakeAll;
    InterruptBack(WakeAll(k1, woken), pid, QUANTUM, p, e);
    WakeAllBack(k1, woken, p, e);
  }

  lemma WaitBack(k: Kernel, pid: nat, h: string, p: nat, e: Estado)
    requires WaitFor(k, pid, h).Is(p, e) && (e == NEW || e == EXIT)
    ensures k.Is(p, e)
  {
    hide Interrupt;
    if !k.Running(pid) {
    } else if h !in k.resources {
      InterruptBack(k, pid, QUANTUM, p, e);
    } else if 0 < k.resources[h].instances {
      InterruptBack(SetHeld(SetResource(k, h, k.resources[h].(instances := k.resources[h].instances - 1)),
                            pid, k.pcbs[pid].held + [h]), pid, QUANTUM, p, e);
    } else {
      InterruptBack(SetResource(k, h, k.resources[h].(waiting := k.resources[h].waiting + [pid])), pid, BLOQUEO, p, e);
    }
  }

  /** The process the event ends. */
  predicate Ends(ev: Event, p: nat) {
    ev == Finish(p) || ev == Segfault(p) || ev == Kill(p)
  }

  lemma ReleaseBack(k: Kernel, ev: Event, p: nat, e: Estado, degree: int)
    requires Inv(k, degree) && Releases(k, ev) && Step(k, ev).Is(p, e) && (e == NEW || e == EXIT)
    ensures k.Is(p, e) || (e == EXIT && Ends(ev, p))
  {
    hide Inv, Step, Leaving, ReleaseAll, WakeAll, Line;
    ReleaseStep(k, ev, degree);
    LeavingExact(k, ev, degree);
    var k0 := Leaving(k, ev);
    InvWaiters(k0, if ev.Finish? then degree else degree - 1);
    var (k1, woken) := ReleaseAll(k0, ev.pid);
    ReleaseAllHandsOver(k0, ev.pid);
    WakeAllBack(k1, woken, p, e);
    assert k0.Is(p, e);
    hide Queues, Waiters;
    LeavingBack(k, ev, p, e);
  }

  lemma LeavingBack(k: Kernel, ev: Event, p: nat, e: Estado)
    requires Releases(k, ev) && Leaving(k, ev).Is(p, e) && (e == NEW || e == EXIT)
    ensures k.Is(p, e) || (e == EXIT && Ends(ev, p))
  {
    hide Interrupt, Move;
    if ev.Finish? {
      InterruptBack(k, ev.pid, FIN, p, e);
    } else {
      MoveExact(k, ev.pid, EXIT);
    }
  }

  lemma QuietBack(k: Kernel, ev: Event, p: nat, e: Estado)
    requires !Releases(k, ev) && !ev.Wait? && !(ev.Signal? && ev.name in k.resources)
    requires Step(k, ev).Is(p, e) && (e == NEW || e == EXIT)
    ensures k.Is(p, e) || (e == EXIT && Ends(ev, p)) || (e == NEW && ev.Arrive? && p == |k.pcbs|)
  {
    hide Interrupt, Move;
    match ev
    case Quantum(pid) => InterruptBack(k, pid, QUANTUM, p, e);
    case Preempt(pid) => InterruptBack(k, pid, QUANTUM, p, e);
    case Signal(pid, _) => InterruptBack(k, pid, QUANTUM, p, e);
    case Segfault(pid) => InterruptBack(k, pid, FIN, p, e);
    case Io(pid, _) =>
      if k.Running(pid) {
        InterruptBack(k, pid, BLOQUEO, p, e);
      }
    case IoDone(pid) =>
      if k.Is(pid, BLOCK) {
        MoveExact(k.(io := k.io - {pid}), pid, READY);
      }
    case Kill(pid) =>
      if Killable(k, pid) {
        MoveExact(k, pid, EXIT);
      }
    case Dispatch(i) =>
      if i < |k.colaReady| && k.Is(k.colaReady[i], READY) {
        MoveExact(k, k.colaReady[i], EXEC);
      }
    case _ =>
  }

  /** Nobody goes back to NEW, and EXIT is reached only by EXIT, a segmentation fault or KILL. */
  lemma StepBack(k: Kernel, ev: Event, p: nat, e: Estado, degree: int)
    requires Inv(k, degree) && Step(k, ev).Is(p, e) && (e == NEW || e == EXIT)
    ensures k.Is(p, e) || (e == EXIT && Ends(ev, p)) || (e == NEW && ev.Arrive? && p == |k.pcbs|)
  {
    hide Inv, Interrupt, Move, ReleaseAndWake, LeaveQueues;
    if Releases(k, ev) {
      ReleaseBack(k, ev, p, e, degree);
    } else if ev.Signal? && ev.name in k.resources {
      SignalBack(k, ev.pid, ev.name, p, e, degree);
    } else if ev.Wait? {
      WaitBack(k, ev.pid, ev.name, p, e);
    } else {
      QuietBack(k, ev, p, e);
    }
  }

  lemma IdleFree(k: Kernel, p: nat, degree: int)
    requires Inv(k, degree) && (k.Is(p, NEW) || k.Is(p, EXIT))
    ensures !k.Running(p) && !k.InLine(p)
  {
    assert forall n :: !k.OnLine(n, p);
  }

  lemma StepNew(k: Kernel, ev: Event, degree: int)
    requires Inv(k, degree) && NewHoldNothing(k)
    ensures NewHoldNothing(Step(k, ev))
  {
    hide Inv, Interrupt, ReleaseAndWake, LeaveQueues, Move, WaitFor, SignalBy;
    forall p: nat | Step(k, ev).Is(p, NEW)
      ensures Step(k, ev).HeldOf(p) == []
    {
      StepBack(k, ev, p, NEW, degree);
      if k.Is(p, NEW) {
        IdleFree(k, p, degree);
        if ev == Kill(p) || (ev.Admitted? && p in k.inflight) {
          InvWaiters(k, degree);
          StepQuiet(k, ev);
        } else {
          Bystander(k, ev, p, degree);
        }
      }
    }
  }

  /** Finished processes hold nothing, unless they ended with a segmentation fault. */
  ghost predicate ExitHoldNothing(k: Kernel) {
    forall p: nat :: k.Is(p, EXIT) ==> k.HeldOf(p) == []
  }

  /** A segmentation fault of an executing process that holds something: the one way to leave instances behind. */
  predicate Leaks(k: Kernel, ev: Event) {
    ev.Segfault? && k.Running(ev.pid) && k.HeldOf(ev.pid) != []
  }

  lemma StepExit(k: Kernel, ev: Event, degree: int)
    requires Inv(k, degree) && NewHoldNothing(k) && ExitHoldNothing(k) && !Leaks(k, ev)
    ensures ExitHoldNothing(Step(k, ev))
  {
    hide Inv, Step;
    forall p: nat | Step(k, ev).Is(p, EXIT)
      ensures Step(k, ev).HeldOf(p) == []
    {
      InvWaiters(k, degree);
      if ev == Segfault(p) {
        FaultKeeps(k, p);
      } else if ev == Finish(p) || ev == Kill(p) {
        if Releases(k, ev) {
          LeaverHoldsNothing(k, ev, degree);
        } else {
          StepBack(k, ev, p, EXIT, degree);
          EndedIdle(k, ev, p);
          StepQuiet(k, ev);
        }
      } else {
        StepBack(k, ev, p, EXIT, degree);
        IdleFree(k, p, degree);
        assert p !in k.inflight;
        Bystander(k, ev, p, degree);
      }
    }
  }

  lemma FaultKeeps(k: Kernel, p: nat)
    requires Step(k, Segfault(p)).Is(p, EXIT)
    ensures Step(k, Segfault(p)).HeldOf(p) == k.HeldOf(p)
    ensures k.Is(p, EXIT) || k.Running(p)
  {
    InterruptHoldings(k, p, FIN);
  }

  /** Finished processes go on holding nothing exactly when the event does not leak. */
  lemma StepExitExact(k: Kernel, ev: Event, degree: int)
    requires Inv(k, degree) && NewHoldNothing(k) && ExitHoldNothing(k)
    ensures ExitHoldNothing(Step(k, ev)) <==> !Leaks(k, ev)
  {
    if Leaks(k, ev) {
      LeakRemains(k, ev.pid);
    } else {
      StepExit(k, ev, degree);
    }
  }

  lemma LeakRemains(k: Kernel, pid: nat)
    requires k.Running(pid)
    ensures Step(k, Segfault(pid)).Is(pid, EXIT) && Step(k, Segfault(pid)).HeldOf(pid) == k.HeldOf(pid)
  {
    MoveExact(k, pid, EXIT);
    hide Move;
  }

  /** A finished process keeps its state and whatever it holds for ever. */
  lemma ExitStays(k: Kernel, ev: Event, p: nat, degree: int)
    requires Inv(k, degree) && Enabled(k, ev) && k.Is(p, EXIT)
    ensures Step(k, ev).Is(p, EXIT) && Step(k, ev).HeldOf(p) == k.HeldOf(p)
  {
    IdleFree(k, p, degree);
    assert p !in k.inflight;
    hide Inv, Step;
    if ev == Kill(p) {
      KillOfFinished(k, p);
    } else {
      Bystander(k, ev, p, degree);
      ExitKept(k, ev, p, degree);
    }
  }

  lemma {:induction false} WakeAllKeepsExit(k: Kernel, woken: seq<nat>, p: nat)
    requires k.Is(p, EXIT)
    ensures WakeAll(k, woken).Is(p, EXIT)
    decreases |woken|
  {
    if woken != [] {
      if k.Is(woken[0], BLOCK) {
        MoveExact(k, woken[0], READY);
        hide Move;
        WakeAllKeepsExit(Wake(k, woken[0]), woken[1..], p);
      } else {
        WakeAllKeepsExit(k, woken[1..], p);
      }
    }
  }

  lemma ExitKept(k: Kernel, ev: Event, p: nat, degree: int)
    requires Inv(k, degree) && k.Is(p, EXIT) && ev != Kill(p) && p !in k.inflight
    ensures Step(k, ev).Is(p, EXIT)
  {
    hide Inv, Interrupt, Move, ReleaseAndWake, LeaveQueues, WaitFor, SignalBy;
    if Releases(k, ev) {
      ReleaseKeepsExit(k, ev, p, degree);
    } else if ev.Signal? && ev.name in k.resources {
      SignalKeepsExit(k, ev.pid, ev.name, p, degree);
    } else if ev.Wait? {
      WaitKeepsExit(k, ev.pid, ev.name, p);
    } else {
      QuietKeepsExit(k, ev, p);
    }
  }

  lemma ReleaseKeepsExit(k: Kernel, ev: Event, p: nat, degree: int)
    requires Inv(k, degree) && Releases(k, ev) && k.Is(p, EXIT) && ev != Kill(p)
    ensures Step(k, ev).Is(p, EXIT)
  {
    LeavingKeepsExit(k, ev, p);
    hide Inv, Step, Leaving, ReleaseAll, WakeAll, Line;
    ReleaseStep(k, ev, degree);
    LeavingExact(k, ev, degree);
    var k0 := Leaving(k, ev);
    InvWaiters(k0, if ev.Finish? then degree else degree - 1);
    var (k1, woken) := ReleaseAll(k0, ev.pid);
    ReleaseAllHandsOver(k0, ev.pid);
    WakeAllKeepsExit(k1, woken, p);
  }

  lemma LeavingKeepsExit(k: Kernel, ev: Event, p: nat)
    requires Releases(k, ev) && k.Is(p, EXIT) && ev != Kill(p)
    ensures Leaving(k, ev).Is(p, EXIT)
  {
    hide Interrupt, Move;
    if ev.Finish? {
      InterruptOthers(k, ev.pid, FIN, p);
    } else {
      MoveExact(k, ev.pid, EXIT);
    }
  }

  lemma SignalKeepsExit(k: Kernel, pid: nat, h: string, p: nat, degree: int)
    requires Inv(k, degree) && h in k.resources && k.Is(p, EXIT)
    ensures SignalBy(k, pid, h).Is(p, EXIT)
  {
    ForgetKeeps(k, pid, h, degree);
    var k0 := Forget(k, pid, h);
    InvWaiters(k0, degree);
    GiveBackHandsOver(k0, h);
    hide Inv, Waiters, Queues;
    var (k1, woken) := GiveBack(k0, h);
    hide GiveBack, Interrupt, WakeAll;
    WakeAllKeepsExit(k1, woken, p);
    InterruptOthers(WakeAll(k1, woken), pid, QUANTUM, p);
  }

  lemma WaitKeepsExit(k: Kernel, pid: nat, h: string, p: nat)
    requires k.Is(p, EXIT)
    ensures WaitFor(k, pid, h).Is(p, EXIT)
  {
    hide Interrupt;
    if !k.Running(pid) {
    } else if h !in k.resources {
      InterruptOthers(k, pid, QUANTUM, p);
    } else if 0 < k.resources[h].instances {
      InterruptOthers(SetHeld(SetResource(k, h, k.resources[h].(instances := k.resources[h].instances - 1)),
                              pid, k.pcbs[pid].held + [h]), pid, QUANTUM, p);
    } else {
      InterruptOthers(SetResource(k, h, k.resources[h].(waiting := k.resources[h].waiting + [pid])), pid, BLOQUEO, p);
    }
  }

  lemma QuietKeepsExit(k: Kernel, ev: Event, p: nat)
    requires !Releases(k, ev) && !ev.Wait? && !(ev.Signal? && ev.name in k.resources)
    requires k.Is(p, EXIT) && ev != Kill(p) && p !in k.inflight
    ensures Step(k, ev).Is(p, EXIT)
  {
    hide Move;
    match ev
    case Quantum(pid) => InterruptOthers(k, pid, QUANTUM, p);
    case Preempt(pid) => InterruptOthers(k, pid, QUANTUM, p);
    case Signal(pid, _) => InterruptOthers(k, pid, QUANTUM, p);
    case Io(pid, _) => InterruptOthers(k, pid, BLOQUEO, p);
    case Segfault(pid) => InterruptOthers(k, pid, FIN, p);
    case IoDone(pid) =>
      if k.Is(pid, BLOCK) {
        MoveExact(k.(io := k.io - {pid}), pid, READY);
      }
    case Kill(pid) =>
      if Killable(k, pid) {
        MoveExact(k, pid, EXIT);
      }
    case Dispatch(i) =>
      if i < |k.colaReady| && k.Is(k.colaReady[i], READY) {
        MoveExact(k, k.colaReady[i], EXEC);
      }
    case _ =>
  }

  lemma KillOfFinished(k: Kernel, p: nat)
    requires k.Is(p, EXIT)
    ensures Step(k, Kill(p)) == k
  {
  }

  /** When nothing is released the ended process was NEW, or had ended before. */
  lemma EndedIdle(k: Kernel, ev: Event, p: nat)
    requires (ev == Finish(p) || ev == Kill(p)) && !Releases(k, ev) && Step(k, ev).Is(p, EXIT)
    ensures k.Is(p, NEW) || k.Is(p, EXIT)
  {
  }

  /** Foreign SIGNALs for the resource in a run. */
  function ForeignSignals(k: Kernel, events: seq<Event>, name: string): nat
    decreases |events|
  {
    if events == [] then 0
    else (if Foreign(k, events[0], name) then 1 else 0) + ForeignSignals(Step(k, events[0]), events[1..], name)
  }

  lemma {:induction false} RunCount(k: Kernel, events: seq<Event>, name: string, degree: int)
    requires Inv(k, degree) && NewHoldNothing(k) && Possible(k, events) && name in k.resources
    ensures name in Run(k, events).resources && NewHoldNothing(Run(k, events))
    ensures Count(Run(k, events), name) == Count(k, name) + ForeignSignals(k, events, name)
    decreases |events|
  {
    if events != [] {
      hide Inv, Step, Count, NewHoldNothing;
      StepCount(k, events[0], name, degree);
      StepNew(k, events[0], degree);
      StepKeeps(k, events[0], degree);
      RunCount(Step(k, events[0]), events[1..], name, degree);
    }
  }

  /** In every reachable state: instances free and held are the initial ones plus one for each foreign SIGNAL. */
  lemma Conserved(degree: nat, initial: map<string, nat>, events: seq<Event>, name: string)
    requires name in initial && Possible(Start(degree, initial), events)
    ensures name in Run(Start(degree, initial), events).resources
    ensures Count(Run(Start(degree, initial), events), name) ==
            initial[name] + ForeignSignals(Start(degree, initial), events, name)
  {
    var k := Start(degree, initial);
    Reachable(degree, initial, []);
    assert Run(k, []) == k;
    RunCount(k, events, name, degree);
  }

  /** A process killed while the CPU executes its SIGNAL: without the KILL the SIGNAL of a holder leaves the number
      of instances alone; after the KILL has returned everything the process held, the late SIGNAL returns an
      instance once more. */
  lemma KilledWhileSignalling(k: Kernel, pid: nat, name: string, degree: int)
    requires Inv(k, degree) && NewHoldNothing(k) && k.Running(pid) && name in k.resources
    ensures name in Step(k, Signal(pid, name)).resources && name in Step(k, Kill(pid)).resources
    ensures name in Step(Step(k, Kill(pid)), Signal(pid, name)).resources
    ensures name in k.HeldOf(pid) ==> Count(Step(k, Signal(pid, name)), name) == Count(k, name)
    ensures Returned(k, Kill(pid), name) == Occurrences(k.HeldOf(pid), name)
    ensures Step(k, Kill(pid)).HeldOf(pid) == [] && Returned(Step(k, Kill(pid)), Signal(pid, name), name) == 1
    ensures Count(Step(Step(k, Kill(pid)), Signal(pid, name)), name) == Count(k, name) + 1
  {
    hide Inv, Step, Count, NewHoldNothing, Foreign;
    RunningIsKilled(k, pid, name, degree);
    StepCount(k, Signal(pid, name), name, degree);
    SignalForeign(k, pid, name);
    LeaverHoldsNothing(k, Kill(pid), degree);
    StepCount(k, Kill(pid), name, degree);
    StepNew(k, Kill(pid), degree);
    StepKeeps(k, Kill(pid), degree);
    SignalForeign(Step(k, Kill(pid)), pid, name);
    StepCount(Step(k, Kill(pid)), Signal(pid, name), name, degree);
  }

  lemma RunningIsKilled(k: Kernel, pid: nat, name: string, degree: int)
    requires Inv(k, degree) && k.Running(pid)
    ensures Enabled(k, Kill(pid)) && Releases(k, Kill(pid)) && !Foreign(k, Kill(pid), name)
    ensures Returned(k, Kill(pid), name) == Occurrences(k.HeldOf(pid), name)
  {
    assert k.colaExec == k.Queue(EXEC);
  }

  lemma SignalForeign(k: Kernel, pid: nat, name: string)
    ensures Foreign(k, Signal(pid, name), name) <==> !(k.Running(pid) && name in k.HeldOf(pid))
    ensures Returned(k, Signal(pid, name), name) == 1
  {
  }
}
