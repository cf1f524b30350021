// The two deadlock detectors on the states the kernel can reach.
module KernelDetectors {
  import opened Snapshot
  import opened KernelState
  import opened KernelInvariants
  import opened KernelConservation
  import opened DetectorsAgree
  import KernelResources
  import Banker
  import WaitGraph

  /** The processes both detectors collect: READY, EXEC and BLOCKED. */
  function Active(k: Kernel): seq<nat> {
    k.colaReady + k.colaExec + k.colaBlocked
  }

  function ProcOf(k: Kernel, pid: nat): Proc {
    if k.Live(pid) then Proc(pid, k.pcbs[pid].estado, k.pcbs[pid].held) else Proc(pid, EXIT, [])
  }

  function SnapshotOf(k: Kernel): System {
    System(seq(|Active(k)|, i requires 0 <= i < |Active(k)| => ProcOf(k, Active(k)[i])), k.resources)
  }

  lemma ActiveExact(k: Kernel, degree: int)
    requires Inv(k, degree)
    ensures Distinct(Active(k))
    ensures forall p: nat :: p in Active(k) <==> k.Is(p, READY) || k.Is(p, EXEC) || k.Is(p, BLOCK)
  {
    var r, x, b := k.Queue(READY), k.Queue(EXEC), k.Queue(BLOCK);
    assert r == k.colaReady && x == k.colaExec && b == k.colaBlocked;
    assert Distinct(r) && Distinct(x) && Distinct(b);
    forall p: nat
      ensures p in Active(k) <==> k.Is(p, READY) || k.Is(p, EXEC) || k.Is(p, BLOCK)
      ensures !(p in r && p in x) && !(p in r && p in b) && !(p in x && p in b)
    {
      assert p in r ==> k.Is(p, READY);
      assert p in x ==> k.Is(p, EXEC);
      assert p in b ==> k.Is(p, BLOCK);
    }
    DistinctAppend(r, x);
    DistinctAppend(r + x, b);
  }

  lemma DistinctAppend(a: seq<nat>, b: seq<nat>)
    requires Distinct(a) && Distinct(b) && forall p: nat :: !(p in a && p in b)
    ensures Distinct(a + b)
  {
    forall i: nat, j: nat | i < j < |a + b|
      ensures (a + b)[i] != (a + b)[j]
    {
      if i < |a| <= j {
        assert a[i] in a && b[j - |a|] in b;
      }
    }
  }

  // ---- the instances held by active processes are all that are held ----

  function SumOver(pcbs: seq<Pcb>, pids: seq<nat>, name: string): nat
    requires Below(pids, |pcbs|)
  {
    if pids == [] then 0
    else SumOver(pcbs, pids[..|pids| - 1], name) + Occurrences(HeldIn(pcbs[pids[|pids| - 1]]), name)
  }

  lemma {:induction false} NobodyHolds(pcbs: seq<Pcb>, name: string)
    requires forall i: nat :: i < |pcbs| ==> Occurrences(HeldIn(pcbs[i]), name) == 0
    ensures HeldTotal(pcbs, name) == 0
  {
    if pcbs != [] {
      NobodyHolds(pcbs[..|pcbs| - 1], name);
    }
  }

  lemma {:induction false} SumUntouched(pcbs: seq<Pcb>, pids: seq<nat>, i: nat, p: Pcb, name: string)
    requires Below(pids, |pcbs|) && i < |pcbs| && i !in pids
    ensures SumOver(pcbs[i := p], pids, name) == SumOver(pcbs, pids, name)
  {
    if pids != [] {
      assert pids[|pids| - 1] != i;
      SumUntouched(pcbs, pids[..|pids| - 1], i, p, name);
    }
  }

  lemma {:induction false} SumIsTotal(pcbs: seq<Pcb>, pids: seq<nat>, name: string)
    requires Below(pids, |pcbs|) && Distinct(pids)
    requires forall i: nat :: i < |pcbs| && 0 < Occurrences(HeldIn(pcbs[i]), name) ==> i in pids
    ensures SumOver(pcbs, pids, name) == HeldTotal(pcbs, name)
    decreases |pids|
  {
    if pids == [] {
      NobodyHolds(pcbs, name);
    } else {
      var n := |pids| - 1;
      var last, rest := pids[n], pids[..n];
      var pcbs' := pcbs[last := Destroyed];
      assert last !in rest;
      assert forall i: nat :: i in pids <==> i in rest || i == last;
      SumUntouched(pcbs, rest, last, Destroyed, name);
      HeldUpdate(pcbs, last, Destroyed, name);
      SumIsTotal(pcbs', rest, name);
    }
  }

  lemma SnapshotProc(k: Kernel, i: nat, name: string)
    requires i < |Active(k)| && k.Live(Active(k)[i])
    ensures |SnapshotOf(k).procs| == |Active(k)|
    ensures SnapshotOf(k).Held(i, name) == Occurrences(HeldIn(k.pcbs[Active(k)[i]]), name)
  {
  }

  lemma {:induction false} HeldByIsSum(k: Kernel, name: string, j: nat)
    requires j <= |Active(k)| && Below(Active(k), |k.pcbs|)
    requires forall p: nat :: p in Active(k) ==> k.Live(p)
    ensures HeldBy(SnapshotOf(k), name, j) == SumOver(k.pcbs, Active(k)[..j], name)
  {
    if j > 0 {
      assert Active(k)[j - 1] in Active(k);
      SnapshotProc(k, j - 1, name);
      hide SnapshotOf, Active;
      HeldByIsSum(k, name, j - 1);
      assert Active(k)[..j][..j - 1] == Active(k)[..j - 1];
    }
  }

  /** What the banker adds up is what the kernel conserves. */
  lemma TotalIsCount(k: Kernel, name: string, degree: int)
    requires Inv(k, degree) && NewHoldNothing(k) && ExitHoldNothing(k) && name in k.resources
    ensures Total(SnapshotOf(k), name) == Count(k, name)
  {
    ActiveExact(k, degree);
    hide Inv, Active;
    assert Below(Active(k), |k.pcbs|) by {
      forall i: nat | i < |Active(k)|
        ensures Active(k)[i] < |k.pcbs|
      {
        assert Active(k)[i] in Active(k);
      }
    }
    forall i: nat | i < |k.pcbs| && 0 < Occurrences(HeldIn(k.pcbs[i]), name)
      ensures i in Active(k)
    {
      assert k.Is(i, k.pcbs[i].estado) && k.HeldOf(i) != [];
    }
    SumIsTotal(k.pcbs, Active(k), name);
    HeldByIsSum(k, name, |Active(k)|);
    assert Active(k)[..|Active(k)|] == Active(k);
  }

  // ---- the detectors ----

  lemma SnapshotAccounted(k: Kernel, names: seq<string>, degree: int)
    requires Inv(k, degree) && NewHoldNothing(k) && ExitHoldNothing(k)
    requires Enumerates(names, k.resources) && forall n :: n in k.resources ==> 1 <= Count(k, n)
    ensures Accounted(SnapshotOf(k), names)
  {
    var sys := SnapshotOf(k);
    ActiveExact(k, degree);
    forall n | n in sys.resources
      ensures 0 <= sys.resources[n].instances && 1 <= Total(sys, n)
    {
      TotalIsCount(k, n, degree);
    }
    hide Active, Count;
    assert forall i: nat :: i < |Active(k)| ==> sys.procs[i].pid == Active(k)[i];
    assert forall p: nat, n :: sys.Waits(p, n) ==> k.OnLine(n, sys.procs[p].pid);
  }

  /** Some process waits for a resource of which it is the only holder. */
  ghost predicate SelfWait(k: Kernel) {
    exists n, p: nat :: k.OnLine(n, p) && n in k.HeldOf(p) && forall q: nat :: q != p ==> n !in k.HeldOf(q)
  }

  /** Where a holder stands among the processes collected. */
  lemma HolderIndex(k: Kernel, q: nat, degree: int) returns (i: nat)
    requires Inv(k, degree) && NewHoldNothing(k) && ExitHoldNothing(k) && k.HeldOf(q) != []
    ensures i < |SnapshotOf(k).procs| && SnapshotOf(k).procs[i] == Proc(q, k.pcbs[q].estado, k.HeldOf(q))
  {
    ActiveExact(k, degree);
    assert k.Is(q, k.pcbs[q].estado);
    assert q in Active(k);
    i :| i < |Active(k)| && Active(k)[i] == q;
  }

  lemma ProcAt(k: Kernel, i: nat, degree: int)
    requires Inv(k, degree) && i < |SnapshotOf(k).procs|
    ensures k.Live(SnapshotOf(k).procs[i].pid) && SnapshotOf(k).procs[i] == ProcOf(k, SnapshotOf(k).procs[i].pid)
    ensures forall j: nat :: j < |SnapshotOf(k).procs| && j != i ==>
              SnapshotOf(k).procs[j].pid != SnapshotOf(k).procs[i].pid
  {
    ActiveExact(k, degree);
    assert Active(k)[i] in Active(k);
  }

  lemma SelfWaitSeen(k: Kernel, degree: int)
    requires Inv(k, degree) && NewHoldNothing(k) && ExitHoldNothing(k)
    ensures SelfWait(k) <==> SelfBlocked(SnapshotOf(k))
  {
    if SelfWait(k) {
      SelfWaitBlocked(k, degree);
    }
    if SelfBlocked(SnapshotOf(k)) {
      SelfBlockedWaits(k, degree);
    }
  }

  lemma SelfWaitBlocked(k: Kernel, degree: int)
    requires Inv(k, degree) && NewHoldNothing(k) && ExitHoldNothing(k) && SelfWait(k)
    ensures SelfBlocked(SnapshotOf(k))
  {
    var sys := SnapshotOf(k);
    var n, p: nat :| k.OnLine(n, p) && n in k.HeldOf(p) && forall q: nat :: q != p ==> n !in k.HeldOf(q);
    assert k.Is(p, BLOCK);
    var i := HolderIndex(k, p, degree);
    ProcAt(k, i, degree);
    forall j: nat | j < |sys.procs| && j != i
      ensures n !in sys.procs[j].held
    {
      ProcAt(k, j, degree);
      assert sys.procs[j].pid != p && sys.procs[j].held == k.HeldOf(sys.procs[j].pid);
    }
    assert sys.resources == k.resources;
    hide Inv, SnapshotOf, ExitHoldNothing, NewHoldNothing;
    assert WaitsForItself(sys, i, n);
  }

  lemma SelfBlockedWaits(k: Kernel, degree: int)
    requires Inv(k, degree) && NewHoldNothing(k) && ExitHoldNothing(k) && SelfBlocked(SnapshotOf(k))
    ensures SelfWait(k)
  {
    var sys := SnapshotOf(k);
    var i: nat, n :| WaitsForItself(sys, i, n);
    ProcAt(k, i, degree);
    var p := sys.procs[i].pid;
    forall q: nat | q != p
      ensures n !in k.HeldOf(q)
    {
      if k.HeldOf(q) != [] {
        var j := HolderIndex(k, q, degree);
      }
    }
    assert sys.resources == k.resources;
    hide Inv, SnapshotOf, ExitHoldNothing, NewHoldNothing;
    assert k.OnLine(n, p);
  }

  // ---- the detectors ----

  lemma DetectorsAt(k: Kernel, names: seq<string>, degree: int)
    requires Inv(k, degree) && NewHoldNothing(k) && ExitHoldNothing(k)
    requires Enumerates(names, k.resources) && forall n :: n in k.resources ==> 1 <= Count(k, n)
    ensures !Banker.Safe(SnapshotOf(k)) ==> SelfWait(k) || WaitGraph.HasCycle(WaitGraph.GraphOf(SnapshotOf(k), names))
    ensures SelfWait(k) ==> !Banker.Safe(SnapshotOf(k))
    ensures (forall n :: n in k.resources ==> Count(k, n) == 1) ==>
              (Banker.Safe(SnapshotOf(k)) <==>
                 !WaitGraph.HasCycle(WaitGraph.GraphOf(SnapshotOf(k), names)) && !SelfWait(k))
  {
    SnapshotAccounted(k, names, degree);
    SelfWaitSeen(k, degree);
    var sys := SnapshotOf(k);
    forall n | n in sys.resources
      ensures Total(sys, n) == Count(k, n)
    {
      TotalIsCount(k, n, degree);
    }
    hide Inv, Count, NewHoldNothing, ExitHoldNothing, SelfWait, SelfBlocked, Accounted, Total;
    if SelfWait(k) {
      SelfBlockedImpliesUnsafe(sys, names);
    } else if !Banker.Safe(sys) {
      UnsafeImpliesCycle(sys, names);
    }
    if forall n :: n in k.resources ==> Count(k, n) == 1 {
      SingleInstanceAgreement(sys, names);
    }
  }

  /** Each resource started with one instance and only holders have signalled. */
  ghost predicate SingleInstances(degree: nat, initial: map<string, nat>, events: seq<Event>) {
    forall n :: n in initial ==> initial[n] == 1 && ForeignSignals(Start(degree, initial), events, n) == 0
  }

  /** In every reachable state where finished processes hold nothing and no resource started with 0 instances: an
      unsafe banker's verdict means that the wait-for graph has a cycle or a process waits for what only it holds,
      and the latter always is unsafe; with single instances unsafe means at least one of the two. */
  lemma DetectorsOnRuns(degree: nat, initial: map<string, nat>, events: seq<Event>, names: seq<string>)
    requires Possible(Start(degree, initial), events)
    requires Enumerates(names, Run(Start(degree, initial), events).resources)
    requires ExitHoldNothing(Run(Start(degree, initial), events))
    requires forall n :: n in initial ==> 1 <= initial[n]
    ensures var k := Run(Start(degree, initial), events); var sys := SnapshotOf(k);
            && (!Banker.Safe(sys) ==> SelfWait(k) || WaitGraph.HasCycle(WaitGraph.GraphOf(sys, names)))
            && (SelfWait(k) ==> !Banker.Safe(sys))
            && (SingleInstances(degree, initial, events) ==>
                  (Banker.Safe(sys) <==> !WaitGraph.HasCycle(WaitGraph.GraphOf(sys, names)) && !SelfWait(k)))
  {
    var k := Run(Start(degree, initial), events);
    Reachable(degree, initial, events);
    RunNew(degree, initial, events);
    forall n | n in k.resources
      ensures n in initial && Count(k, n) == initial[n] + ForeignSignals(Start(degree, initial), events, n)
    {
      Counted(degree, initial, events, n);
    }
    hide Inv, Count, Run, ForeignSignals, NewHoldNothing, ExitHoldNothing, SelfWait;
    DetectorsAt(k, names, degree);
  }

  lemma StartKeeps(degree: nat, initial: map<string, nat>)
    ensures Inv(Start(degree, initial), degree)
  {
    Reachable(degree, initial, []);
    assert Run(Start(degree, initial), []) == Start(degree, initial);
  }

  lemma Counted(degree: nat, initial: map<string, nat>, events: seq<Event>, name: string)
    requires Possible(Start(degree, initial), events) && name in Run(Start(degree, initial), events).resources
    ensures name in initial
    ensures Count(Run(Start(degree, initial), events), name) ==
            initial[name] + ForeignSignals(Start(degree, initial), events, name)
  {
    StartKeeps(degree, initial);
    RunNames(Start(degree, initial), events, degree);
    Conserved(degree, initial, events, name);
  }

  lemma RunNew(degree: nat, initial: map<string, nat>, events: seq<Event>)
    requires Possible(Start(degree, initial), events)
    ensures NewHoldNothing(Run(Start(degree, initial), events))
  {
    StartKeeps(degree, initial);
    RunNewFrom(Start(degree, initial), events, degree);
  }

  lemma {:induction false} RunNewFrom(k: Kernel, events: seq<Event>, degree: int)
    requires Inv(k, degree) && NewHoldNothing(k) && Possible(k, events)
    ensures NewHoldNothing(Run(k, events))
    decreases |events|
  {
    if events != [] {
      hide Inv, Step;
      StepNew(k, events[0], degree);
      StepKeeps(k, events[0], degree);
      RunNewFrom(Step(k, events[0]), events[1..], degree);
    }
  }

  /** Some event of the run is a segmentation fault of an executing process that holds something. */
  ghost predicate RunLeaks(k: Kernel, events: seq<Event>)
    decreases |events|
  {
    events != [] && (Leaks(k, events[0]) || RunLeaks(Step(k, events[0]), events[1..]))
  }

  /** Finished processes hold nothing exactly in the states reached without a leak. */
  lemma RunExit(degree: nat, initial: map<string, nat>, events: seq<Event>)
    requires Possible(Start(degree, initial), events)
    ensures ExitHoldNothing(Run(Start(degree, initial), events)) <==> !RunLeaks(Start(degree, initial), events)
  {
    StartKeeps(degree, initial);
    RunExitFrom(Start(degree, initial), events, degree);
  }

  lemma {:induction false} RunExitFrom(k: Kernel, events: seq<Event>, degree: int)
    requires Inv(k, degree) && NewHoldNothing(k) && ExitHoldNothing(k) && Possible(k, events)
    ensures ExitHoldNothing(Run(k, events)) <==> !RunLeaks(k, events)
    decreases |events|
  {
    if events != [] {
      hide Inv, Step, NewHoldNothing, Leaks;
      StepNew(k, events[0], degree);
      StepExitExact(k, events[0], degree);
      StepKeeps(k, events[0], degree);
      if Leaks(k, events[0]) {
        Leaked(k, events[0]);
        LeakStays(Step(k, events[0]), events[1..], events[0].pid, degree);
      } else {
        hide ExitHoldNothing;
        RunExitFrom(Step(k, events[0]), events[1..], degree);
      }
    }
  }

  lemma Leaked(k: Kernel, ev: Event)
    requires Leaks(k, ev)
    ensures ev.Segfault? && Step(k, ev).Is(ev.pid, EXIT) && Step(k, ev).HeldOf(ev.pid) != []
  {
    LeakRemains(k, ev.pid);
  }

  /** What a finished process holds stays with it to the end of the run. */
  lemma {:induction false} LeakStays(k: Kernel, events: seq<Event>, p: nat, degree: int)
    requires Inv(k, degree) && Possible(k, events) && k.Is(p, EXIT)
    ensures Run(k, events).Is(p, EXIT) && Run(k, events).HeldOf(p) == k.HeldOf(p)
    decreases |events|
  {
    if events != [] {
      hide Inv, Step;
      ExitStays(k, events[0], p, degree);
      StepKeeps(k, events[0], degree);
      LeakStays(Step(k, events[0]), events[1..], p, degree);
    }
  }

  // ---- a run that leaks: the only process takes the only instance and faults ----

  function FaultyRun(): seq<Event> {
    [Arrive, TakeToken, Admit, Admitted(true), Dispatch(0), Wait(0, "R"), Dispatch(0), Segfault(0)]
  }

  /** The state with the one process in state e, holding `held`; n free instances. */
  function One(e: Estado, held: seq<string>, n: int, mp: int, hayReady: nat): Kernel {
    Kernel([Pcb(e, held)], if e == NEW then [0] else [], if e == READY then [0] else [], if e == EXEC then [0] else [],
           [], [], [], map["R" := Resource(n, [])], mp, hayReady, if e == NEW then 1 else 0, 0, {})
  }

  /** The scheduler has taken the process from NEW, or is about to. */
  function Entering(taken: bool): Kernel {
    One(NEW, [], 1, 1, 0).(hayNew := 0, token := if taken then 0 else 1, mp := if taken then 0 else 1,
                           colaNew := if taken then [] else [0], inflight := if taken then [0] else [])
  }

  ghost predicate Goes(k: Kernel, ev: Event, k': Kernel) {
    Enabled(k, ev) && Step(k, ev) == k'
  }

  lemma Arriving()
    ensures Goes(Start(1, map["R" := 1]), Arrive, One(NEW, [], 1, 1, 0))
    ensures Goes(One(NEW, [], 1, 1, 0), TakeToken, Entering(false))
  {
    assert Start(1, map["R" := 1]).resources == map["R" := Resource(1, [])];
  }

  lemma Admitting()
    ensures Goes(Entering(false), Admit, Entering(true))
    ensures Goes(Entering(true), Admitted(true), One(READY, [], 1, 0, 1))
  {
    assert [0][1..] == [];
  }

  lemma Dispatching(held: seq<string>, n: int)
    ensures Goes(One(READY, held, n, 0, 1), Dispatch(0), One(EXEC, held, n, 0, 0))
  {
    assert Remove([0], 0) == [];
  }

  lemma Taking()
    ensures Goes(One(EXEC, [], 1, 0, 0), Wait(0, "R"), One(READY, ["R"], 0, 0, 1))
  {
    var k := One(EXEC, [], 1, 0, 0);
    assert k.Running(0) && "R" in k.resources && k.resources["R"] == Resource(1, []);
    InstanceTaken();
    QuantumOver();
    hide Interrupt, SetHeld, SetResource, Move;
    assert k.pcbs[0].held + ["R"] == ["R"];
  }

  lemma InstanceTaken()
    ensures var k := One(EXEC, [], 1, 0, 0);
            SetHeld(SetResource(k, "R", Resource(0, [])), 0, ["R"]) == One(EXEC, ["R"], 0, 0, 0)
  {
    var k1 := SetHeld(SetResource(One(EXEC, [], 1, 0, 0), "R", Resource(0, [])), 0, ["R"]);
    assert k1.resources == map["R" := Resource(0, [])];
  }

  lemma QuantumOver()
    ensures Interrupt(One(EXEC, ["R"], 0, 0, 0), 0, QUANTUM) == One(READY, ["R"], 0, 0, 1)
  {
    assert Remove([0], 0) == [];
  }

  lemma Faulting()
    ensures Leaks(One(EXEC, ["R"], 0, 0, 0), Segfault(0))
    ensures Possible(One(EXEC, ["R"], 0, 0, 0), [Segfault(0)]) && RunLeaks(One(EXEC, ["R"], 0, 0, 0), [Segfault(0)])
  {
    hide Step;
  }

  lemma FaultyRunLeaks()
    ensures Possible(Start(1, map["R" := 1]), FaultyRun()) && RunLeaks(Start(1, map["R" := 1]), FaultyRun())
  {
    hide Goes, Possible, RunLeaks, One, Start, Entering;
    Arriving();
    Admitting();
    Dispatching([], 1);
    Taking();
    Dispatching(["R"], 0);
    Faulting();
    var t6 := Cons(One(READY, ["R"], 0, 0, 1), Dispatch(0), [Segfault(0)], One(EXEC, ["R"], 0, 0, 0));
    var t5 := Cons(One(EXEC, [], 1, 0, 0), Wait(0, "R"), t6, One(READY, ["R"], 0, 0, 1));
    var t4 := Cons(One(READY, [], 1, 0, 1), Dispatch(0), t5, One(EXEC, [], 1, 0, 0));
    var t3 := Cons(Entering(true), Admitted(true), t4, One(READY, [], 1, 0, 1));
    var t2 := Cons(Entering(false), Admit, t3, Entering(true));
    var t1 := Cons(One(NEW, [], 1, 1, 0), TakeToken, t2, Entering(false));
    var t0 := Cons(Start(1, map["R" := 1]), Arrive, t1, One(NEW, [], 1, 1, 0));
    assert t0 == FaultyRun();
  }

  lemma Cons(k: Kernel, ev: Event, rest: seq<Event>, k': Kernel) returns (events: seq<Event>)
    requires Goes(k, ev, k') && Possible(k', rest) && RunLeaks(k', rest)
    ensures events == [ev] + rest && Possible(k, events) && RunLeaks(k, events)
  {
    hide Step, Enabled, Leaks;
    events := [ev] + rest;
    assert events[0] == ev && events[1..] == rest;
  }

  lemma {:induction false} RunNames(k: Kernel, events: seq<Event>, degree: int)
    requires Inv(k, degree) && Possible(k, events)
    ensures Run(k, events).resources.Keys == k.resources.Keys
    decreases |events|
  {
    if events != [] {
      hide Inv, Step;
      KernelResources.StepNames(k, events[0], degree);
      StepKeeps(k, events[0], degree);
      RunNames(Step(k, events[0]), events[1..], degree);
    }
  }
}
