// Where every event leaves its process, field by field: in which state, at which end of which queue, with which
// semaphores posted, and that nobody else moves. And what follows for the order in which processes are served.
module KernelOutcomes {
  import opened Snapshot
  import opened KernelState
  import opened KernelInvariants
  import opened KernelResources

  /** `rest` is q without one occurrence of pid, in the same order. */
  ghost predicate TakenOut(q: seq<nat>, pid: nat, rest: seq<nat>) {
    exists i: nat :: i < |q| && q[i] == pid && rest == q[..i] + q[i + 1..]
  }

  /** No process but those in S changed its state or what it holds. */
  ghost predicate OthersSame(k: Kernel, k': Kernel, S: seq<nat>) {
    && |k'.pcbs| == |k.pcbs|
    && forall q: nat :: q < |k.pcbs| && q !in S ==> k'.pcbs[q] == k.pcbs[q]
  }

  lemma {:induction false} FirstAt(q: seq<nat>, pid: nat, from: nat) returns (i: nat)
    requires from <= |q| && pid in q[from..] && pid !in q[..from]
    ensures i < |q| && q[i] == pid && pid !in q[..i]
    decreases |q| - from
  {
    if q[from] == pid {
      i := from;
    } else {
      assert q[..from + 1] == q[..from] + [q[from]] && q[from..] == [q[from]] + q[from + 1..];
      i := FirstAt(q, pid, from + 1);
    }
  }

  lemma RemoveTakesOut(q: seq<nat>, pid: nat)
    requires pid in q
    ensures TakenOut(q, pid, Remove(q, pid))
  {
    assert q[0..] == q;
    var i := FirstAt(q, pid, 0);
    RemoveAt(q, pid, i);
  }

  // ---- leaving EXEC ----

  /** End of quantum, preemption: the process goes to the end of READY, and READY is posted. */
  lemma AfterQuantum(k: Kernel, ev: Event)
    requires ev.Quantum? || ev.Preempt?
    ensures var k' := Step(k, ev);
            if !k.Running(ev.pid) then k' == k
            else
              && k'.Is(ev.pid, READY) && k'.HeldOf(ev.pid) == k.HeldOf(ev.pid) && OthersSame(k, k', [ev.pid])
              && k'.colaReady == k.colaReady + [ev.pid] && k'.hayReady == k.hayReady + 1
              && TakenOut(k.colaExec, ev.pid, k'.colaExec)
              && k'.colaNew == k.colaNew && k'.colaBlocked == k.colaBlocked && k'.colaExit == k.colaExit
              && k'.inflight == k.inflight && k'.resources == k.resources && k'.io == k.io
              && k'.mp == k.mp && k'.hayNew == k.hayNew && k'.token == k.token
  {
    if k.Running(ev.pid) {
      RemoveTakesOut(k.colaExec, ev.pid);
    }
  }

  /** WAIT: with an instance, or for an unknown resource, the process goes to the end of READY; otherwise to the end
      of BLOCKED and of the resource's line. */
  lemma AfterWait(k: Kernel, pid: nat, name: string)
    requires k.Running(pid)
    ensures var k' := Step(k, Wait(pid, name));
            && OthersSame(k, k', [pid]) && TakenOut(k.colaExec, pid, k'.colaExec)
            && k'.colaNew == k.colaNew && k'.colaExit == k.colaExit && k'.inflight == k.inflight && k'.io == k.io
            && k'.mp == k.mp && k'.hayNew == k.hayNew && k'.token == k.token
            && if name in k.resources && k.resources[name].instances <= 0 then
                 && k'.Is(pid, BLOCK) && k'.HeldOf(pid) == k.HeldOf(pid)
                 && k'.colaBlocked == k.colaBlocked + [pid] && k'.colaReady == k.colaReady && k'.hayReady == k.hayReady
                 && k'.resources == k.resources[name := Resource(k.resources[name].instances,
                                                                 k.resources[name].waiting + [pid])]
               else
                 && k'.Is(pid, READY) && k'.colaReady == k.colaReady + [pid] && k'.hayReady == k.hayReady + 1
                 && k'.colaBlocked == k.colaBlocked
                 && if name in k.resources then
                      && k'.HeldOf(pid) == k.HeldOf(pid) + [name]
                      && k'.resources == k.resources[name := Resource(k.resources[name].instances - 1,
                                                                      k.resources[name].waiting)]
                    else k'.HeldOf(pid) == k.HeldOf(pid) && k'.resources == k.resources
  {
    hide TakenOut;
    if name in k.resources && k.resources[name].instances <= 0 {
      JoinsLine(k, pid, name);
    } else if name in k.resources {
      TakesInstance(k, pid, name);
    } else {
      AfterQuantum(k, Quantum(pid));
    }
  }

  lemma JoinsLine(k: Kernel, pid: nat, name: string)
    requires k.Running(pid) && name in k.resources && k.resources[name].instances <= 0
    ensures var r := k.resources[name];
            var k1 := k.(resources := k.resources[name := Resource(r.instances, r.waiting + [pid])]);
            var k' := Step(k, Wait(pid, name));
            && TakenOut(k.colaExec, pid, k'.colaExec)
            && k' == k1.(pcbs := k.pcbs[pid := Pcb(BLOCK, k.pcbs[pid].held)],
                         colaExec := k'.colaExec, colaBlocked := k.colaBlocked + [pid])
  {
    RemoveTakesOut(k.colaExec, pid);
  }

  lemma TakesInstance(k: Kernel, pid: nat, name: string)
    requires k.Running(pid) && name in k.resources && 0 < k.resources[name].instances
    ensures var r := k.resources[name]; var k' := Step(k, Wait(pid, name));
            && k'.Is(pid, READY) && k'.HeldOf(pid) == k.HeldOf(pid) + [name] && OthersSame(k, k', [pid])
            && k'.colaReady == k.colaReady + [pid] && k'.hayReady == k.hayReady + 1
            && TakenOut(k.colaExec, pid, k'.colaExec)
            && k'.colaNew == k.colaNew && k'.colaBlocked == k.colaBlocked && k'.colaExit == k.colaExit
            && k'.resources == k.resources[name := Resource(r.instances - 1, r.waiting)]
            && k'.inflight == k.inflight && k'.io == k.io
            && k'.mp == k.mp && k'.hayNew == k.hayNew && k'.token == k.token
  {
    hide TakenOut;
    var r := k.resources[name];
    var k1 := SetHeld(SetResource(k, name, Resource(r.instances - 1, r.waiting)), pid, k.pcbs[pid].held + [name]);
    assert k1.Running(pid) && Step(k, Wait(pid, name)) == Interrupt(k1, pid, QUANTUM) == Step(k1, Quantum(pid));
    hide Step, Interrupt;
    AfterQuantum(k1, Quantum(pid));
  }

  /** A request for IO: the process goes to the end of BLOCKED; its IO is pending if the interface exists. */
  lemma AfterIo(k: Kernel, pid: nat, sent: bool)
    ensures var k' := Step(k, Io(pid, sent));
            if !k.Running(pid) then k' == k
            else
              && k'.Is(pid, BLOCK) && k'.HeldOf(pid) == k.HeldOf(pid) && OthersSame(k, k', [pid])
              && k'.colaBlocked == k.colaBlocked + [pid] && TakenOut(k.colaExec, pid, k'.colaExec)
              && k'.io == (if sent then k.io + {pid} else k.io)
              && k'.colaNew == k.colaNew && k'.colaReady == k.colaReady && k'.colaExit == k.colaExit
              && k'.inflight == k.inflight && k'.resources == k.resources
              && k'.mp == k.mp && k'.hayReady == k.hayReady && k'.hayNew == k.hayNew && k'.token == k.token
  {
    if k.Running(pid) {
      RemoveTakesOut(k.colaExec, pid);
    }
  }

  /** The end of an IO: a BLOCKED process goes to the end of READY, and READY is posted. */
  lemma AfterIoDone(k: Kernel, pid: nat, degree: int)
    requires Inv(k, degree)
    ensures var k' := Step(k, IoDone(pid));
            if !k.Is(pid, BLOCK) then k' == k.(io := k.io - {pid})
            else
              && k'.Is(pid, READY) && k'.HeldOf(pid) == k.HeldOf(pid) && OthersSame(k, k', [pid])
              && k'.colaReady == k.colaReady + [pid] && k'.hayReady == k.hayReady + 1
              && TakenOut(k.colaBlocked, pid, k'.colaBlocked) && pid !in k'.colaBlocked
              && k'.io == k.io - {pid}
              && k'.colaNew == k.colaNew && k'.colaExec == k.colaExec && k'.colaExit == k.colaExit
              && k'.inflight == k.inflight && k'.resources == k.resources
              && k'.mp == k.mp && k'.hayNew == k.hayNew && k'.token == k.token
  {
    if k.Is(pid, BLOCK) {
      BlockedInQueue(k, pid);
      RemoveTakesOut(k.colaBlocked, pid);
      RemoveExact(k.colaBlocked, pid);
    }
  }

  lemma BlockedInQueue(k: Kernel, pid: nat)
    requires Queues(k) && k.Is(pid, BLOCK)
    ensures pid in k.colaBlocked && Distinct(k.colaBlocked)
  {
    assert k.Queue(BLOCK) == k.colaBlocked;
    assert pid !in k.inflight;
  }

  /** A segmentation fault: the process goes to the end of EXIT with all it holds, and its slot comes back. */
  lemma AfterSegfault(k: Kernel, pid: nat)
    ensures var k' := Step(k, Segfault(pid));
            if !k.Running(pid) then k' == k
            else
              && k'.Is(pid, EXIT) && k'.HeldOf(pid) == k.HeldOf(pid) && OthersSame(k, k', [pid])
              && k'.colaExit == k.colaExit + [pid] && TakenOut(k.colaExec, pid, k'.colaExec) && k'.mp == k.mp + 1
              && k'.colaNew == k.colaNew && k'.colaReady == k.colaReady && k'.colaBlocked == k.colaBlocked
              && k'.inflight == k.inflight && k'.resources == k.resources && k'.io == k.io
              && k'.hayReady == k.hayReady && k'.hayNew == k.hayNew && k'.token == k.token
  {
    if k.Running(pid) {
      RemoveTakesOut(k.colaExec, pid);
    }
  }

  // ---- events that wake waiters ----

  /** The processes of `woken` went from BLOCKED to the end of READY, in this order, each with a post. */
  ghost predicate Woken(k: Kernel, k': Kernel, woken: seq<nat>) {
    && k'.colaReady == k.colaReady + woken && k'.hayReady == k.hayReady + |woken|
    && (forall p: nat :: p in k'.colaBlocked <==> p in k.colaBlocked && p !in woken)
    && (forall p: nat :: p in woken ==> k'.Is(p, READY) && k'.HeldOf(p) == k.HeldOf(p)) && OthersSame(k, k', woken)
    && k'.colaNew == k.colaNew && k'.colaExec == k.colaExec && k'.colaExit == k.colaExit
    && k'.inflight == k.inflight && k'.resources == k.resources && k'.io == k.io
    && k'.mp == k.mp && k'.hayNew == k.hayNew && k'.token == k.token
  }

  lemma WakeWakes(k: Kernel, pid: nat)
    requires Queues(k) && k.Is(pid, BLOCK)
    ensures Woken(k, Wake(k, pid), [pid])
  {
    BlockedInQueue(k, pid);
    RemoveExact(k.colaBlocked, pid);
  }

  lemma WokenTwice(a: Kernel, b: Kernel, c: Kernel, first: seq<nat>, second: seq<nat>)
    requires Woken(a, b, first) && Woken(b, c, second) && forall p :: p in second ==> p !in first
    ensures Woken(a, c, first + second)
  {
    assert a.colaReady + (first + second) == (a.colaReady + first) + second;
    forall p: nat | p in first
      ensures c.Is(p, READY) && c.HeldOf(p) == a.HeldOf(p)
    {
      assert b.Is(p, READY) && p !in second;
    }
    forall p: nat | p in second
      ensures c.HeldOf(p) == a.HeldOf(p)
    {
      assert p < |a.pcbs| && b.pcbs[p] == a.pcbs[p] by {
        assert c.Is(p, READY);
      }
    }
  }

  lemma {:induction false} WakeAllWakes(k: Kernel, woken: seq<nat>, degree: int)
    requires Inv(k, degree) && Wakeable(k, woken)
    ensures Woken(k, WakeAll(k, woken), woken)
    decreases |woken|
  {
    hide Inv, Wake, Woken;
    if woken != [] {
      var p, rest := woken[0], woken[1..];
      assert k.Is(p, BLOCK) && !k.InLine(p) && p !in k.io;
      InvWaiters(k, degree);
      WakeWakes(k, p);
      WakeKeeps(k, p, degree);
      StillWakeable(k, p, rest, degree);
      WakeAllWakes(Wake(k, p), rest, degree);
      WokenTwice(k, Wake(k, p), WakeAll(k, woken), [p], rest);
      assert [p] + rest == woken;
    } else {
      WokenNobody(k);
    }
  }

  lemma WokenNobody(k: Kernel)
    ensures Woken(k, k, [])
  {
    assert k.colaReady + [] == k.colaReady;
  }

  lemma StillWakeable(k: Kernel, p: nat, rest: seq<nat>, degree: int)
    requires Inv(k, degree) && k.Is(p, BLOCK) && Wakeable(k, [p] + rest)
    ensures Wakeable(Wake(k, p), rest) && p !in rest
  {
    WakeKeeps(k, p, degree);
    hide Inv, Wake;
    var woken := [p] + rest;
    assert forall i: nat :: i < |rest| ==> rest[i] == woken[i + 1];
    assert woken[0] == p;
    forall d | d in rest
      ensures Wake(k, p).Is(d, BLOCK) && d !in Wake(k, p).io && !Wake(k, p).InLine(d) && d != p
    {
      assert d in woken && k.Is(d, BLOCK) && !k.InLine(d);
      assert forall n :: Wake(k, p).OnLine(n, d) <==> k.OnLine(n, d);
    }
  }

  /** The processes a SIGNAL serves: the first of the line. */
  function FirstOf(k: Kernel, name: string): seq<nat> {
    if name in k.resources && k.resources[name].waiting != [] then k.resources[name].waiting[..1] else []
  }

  /** Waking up those that resources were handed to. */
  lemma HandedOverWakes(k: Kernel, k1: Kernel, woken: seq<nat>, degree: int)
    requires Inv(k, degree) && HandedOver(k, k1, woken)
    ensures Woken(k1, WakeAll(k1, woken), woken)
  {
    SameQueuesKeep(k, k1, degree);
    HandedOverWakeable(k, k1, woken);
    hide HandedOver, Woken, WakeAll;
    WakeAllWakes(k1, woken, degree);
  }

  /** Nothing differs but resources and what the processes in S hold. */
  ghost predicate SamePlaces(k: Kernel, k': Kernel, S: seq<nat>) {
    && OthersSame(k, k', S) && (forall p: nat, e: Estado :: k'.Is(p, e) <==> k.Is(p, e))
    && k'.colaNew == k.colaNew && k'.colaReady == k.colaReady && k'.colaExec == k.colaExec
    && k'.colaBlocked == k.colaBlocked && k'.colaExit == k.colaExit && k'.inflight == k.inflight
    && k'.io == k.io && k'.mp == k.mp && k'.hayReady == k.hayReady && k'.hayNew == k.hayNew && k'.token == k.token
  }

  lemma GivesBack(k: Kernel, pid: nat, name: string)
    requires name in k.resources
    ensures name in Forget(k, pid, name).resources
    ensures var (k1, w) := GiveBack(Forget(k, pid, name), name);
            w == FirstOf(k, name) && SamePlaces(k, k1, w + (if k.Running(pid) then [pid] else []))
  {
  }

  /** The hand-over of a SIGNAL, seen from the state before it. */
  lemma SignalHandsOver(k: Kernel, pid: nat, name: string, degree: int)
    requires Inv(k, degree) && name in k.resources
    ensures name in Forget(k, pid, name).resources
    ensures var (k1, w) := GiveBack(Forget(k, pid, name), name);
            && w == FirstOf(k, name) && Woken(k1, WakeAll(k1, w), w) && (k.Running(pid) ==> pid !in w)
            && SamePlaces(k, k1, w + (if k.Running(pid) then [pid] else []))
  {
    hide Inv, Woken, WakeAll, HandedOver, SamePlaces, Forget, GiveBack;
    ForgetKeeps(k, pid, name, degree);
    InvWaiters(Forget(k, pid, name), degree);
    GivesBack(k, pid, name);
    GiveBackHandsOver(Forget(k, pid, name), name);
    var (k1, w) := GiveBack(Forget(k, pid, name), name);
    HandedOverWakes(Forget(k, pid, name), k1, w, degree);
    FirstWaits(k, name, degree);
  }

  lemma FirstWaits(k: Kernel, name: string, degree: int)
    requires Inv(k, degree)
    ensures forall p: nat :: p in FirstOf(k, name) ==> k.Is(p, BLOCK) && p in k.colaBlocked
  {
    forall p: nat | p in FirstOf(k, name)
      ensures k.Is(p, BLOCK) && p in k.colaBlocked
    {
      assert k.OnLine(name, p);
      BlockedInQueue(k, p);
    }
  }

  /** SIGNAL: the first waiter goes to the end of READY, and the caller, if it still executes, behind it. */
  lemma AfterSignal(k: Kernel, pid: nat, name: string, degree: int)
    requires Inv(k, degree)
    ensures var k' := Step(k, Signal(pid, name));
            var w := FirstOf(k, name); var caller := if k.Running(pid) then [pid] else [];
            && k'.colaReady == k.colaReady + w + caller && k'.hayReady == k.hayReady + |w + caller|
            && (forall p: nat :: p in w + caller ==> k'.Is(p, READY)) && OthersSame(k, k', w + caller)
            && (forall p: nat :: p in k'.colaBlocked <==> p in k.colaBlocked && p !in w)
            && (if k.Running(pid) then TakenOut(k.colaExec, pid, k'.colaExec) else k'.colaExec == k.colaExec)
            && k'.colaNew == k.colaNew && k'.colaExit == k.colaExit && k'.inflight == k.inflight && k'.io == k.io
            && k'.mp == k.mp && k'.hayNew == k.hayNew && k'.token == k.token
  {
    hide Inv, TakenOut;
    if name !in k.resources {
      AfterQuantum(k, Quantum(pid));
    } else {
      SignalHandsOver(k, pid, name, degree);
      var (k1, w) := GiveBack(Forget(k, pid, name), name);
      var k2 := WakeAll(k1, w);
      hide Forget, GiveBack, WakeAll, Interrupt;
      if k.Running(pid) {
        assert pid !in w && k1.pcbs[pid] == k2.pcbs[pid];
        CallerBehind(k2, pid, w);
      } else {
        NotRunning(k2, pid);
      }
    }
  }

  lemma NotRunning(k: Kernel, pid: nat)
    requires !k.Running(pid)
    ensures Interrupt(k, pid, QUANTUM) == k
  {
  }

  /** The caller of a SIGNAL gives the CPU back after those it woke. */
  lemma CallerBehind(k: Kernel, pid: nat, w: seq<nat>)
    requires k.Running(pid) && pid !in w && forall p: nat :: p in w ==> k.Is(p, READY)
    ensures var k' := Interrupt(k, pid, QUANTUM);
            && k'.Is(pid, READY) && OthersSame(k, k', [pid]) && (forall p: nat :: p in w ==> k'.Is(p, READY))
            && k'.colaReady == k.colaReady + [pid] && k'.hayReady == k.hayReady + 1
            && TakenOut(k.colaExec, pid, k'.colaExec)
            && k'.colaNew == k.colaNew && k'.colaBlocked == k.colaBlocked && k'.colaExit == k.colaExit
            && k'.inflight == k.inflight && k'.io == k.io
            && k'.mp == k.mp && k'.hayNew == k.hayNew && k'.token == k.token
  {
    AfterQuantum(k, Quantum(pid));
  }

  // ---- whom a release serves, in which order ----

  /** Entry i goes to the next waiter for its resource, if there is one left. */
  function Turn(lines: map<string, Resource>, held: seq<string>, i: nat): seq<nat>
    requires i < |held|
  {
    var n := held[i];
    var c := Occurrences(held[..i], n);
    if n in lines && c < |lines[n].waiting| then [lines[n].waiting[c]] else []
  }

  /** Whom the first i entries go to. */
  function InTurn(lines: map<string, Resource>, held: seq<string>, i: nat): seq<nat>
    requires i <= |held|
  {
    if i == 0 then [] else InTurn(lines, held, i - 1) + Turn(lines, held, i - 1)
  }

  /** The lines after the first waiter for n has left. */
  ghost predicate Popped(lines: map<string, Resource>, lines': map<string, Resource>, n: string) {
    && lines'.Keys == lines.Keys
    && forall m :: m in lines ==>
         lines'[m].waiting == if m == n && lines[m].waiting != [] then lines[m].waiting[1..] else lines[m].waiting
  }

  lemma OneShift(lines: map<string, Resource>, lines': map<string, Resource>, held: seq<string>, i: nat)
    requires 0 < i < |held| && Popped(lines, lines', held[0])
    ensures Turn(lines, held, i) == Turn(lines', held[1..], i - 1)
  {
    assert held[..i][1..] == held[1..][..i - 1] && held[..i][0] == held[0];
    assert held[1..][i - 1] == held[i];
  }

  lemma FirstTurn(lines: map<string, Resource>, held: seq<string>)
    requires held != []
    ensures Turn(lines, held, 0) ==
            if held[0] in lines && lines[held[0]].waiting != [] then [lines[held[0]].waiting[0]] else []
  {
    assert held[..0] == [];
  }

  lemma {:induction false} TurnShift(lines: map<string, Resource>, lines': map<string, Resource>, held: seq<string>,
                                     i: nat)
    requires i < |held| && Popped(lines, lines', held[0])
    ensures InTurn(lines, held, i + 1) == Turn(lines, held, 0) + InTurn(lines', held[1..], i)
    decreases i
  {
    hide Turn, Popped;
    if i > 0 {
      TurnShift(lines, lines', held, i - 1);
      OneShift(lines, lines', held, i);
    }
  }

  /** One round of the release. */
  lemma ReleaseRound(k: Kernel, pid: nat)
    requires k.Live(pid) && !k.InLine(pid) && k.pcbs[pid].held != []
    ensures var held := k.pcbs[pid].held; var k1 := SetHeld(k, pid, held[1..]);
            if held[0] !in k.resources then ReleaseAll(k, pid).1 == ReleaseAll(k1, pid).1
            else
              && GiveBack(k1, held[0]).0.Live(pid)
              && ReleaseAll(k, pid).1 == GiveBack(k1, held[0]).1 + ReleaseAll(GiveBack(k1, held[0]).0, pid).1
  {
    var k1 := SetHeld(k, pid, k.pcbs[pid].held[1..]);
    assert k.pcbs[pid].held[0] in k1.resources ==> !k.OnLine(k.pcbs[pid].held[0], pid);
  }

  /** The list of a release is the first turn and the list of the rest. */
  lemma TurnsJoin(lines: map<string, Resource>, lines': map<string, Resource>, held: seq<string>, rest: seq<nat>)
    requires held != [] && Popped(lines, lines', held[0]) && rest == InTurn(lines', held[1..], |held| - 1)
    ensures InTurn(lines, held, |held|) ==
            (if held[0] in lines && lines[held[0]].waiting != [] then [lines[held[0]].waiting[0]] else []) + rest
  {
    hide Turn, Popped;
    FirstTurn(lines, held);
    TurnShift(lines, lines', held, |held| - 1);
  }

  /** The state after one entry was dropped, or given back, from which the release goes on; and whom it woke. */
  function AfterOne(k: Kernel, pid: nat): (Kernel, seq<nat>)
    requires k.Live(pid) && k.pcbs[pid].held != []
  {
    var held := k.pcbs[pid].held;
    var k1 := SetHeld(k, pid, held[1..]);
    if held[0] in k.resources then GiveBack(k1, held[0]) else (k1, [])
  }

  lemma AfterOneGoesOn(k: Kernel, pid: nat)
    requires Waiters(k) && k.Live(pid) && !k.InLine(pid) && k.pcbs[pid].held != []
    ensures var held := k.pcbs[pid].held; var (k2, w) := AfterOne(k, pid);
            && Waiters(k2) && k2.Live(pid) && !k2.InLine(pid) && k2.HeldOf(pid) == held[1..]
            && ReleaseAll(k, pid).1 == w + ReleaseAll(k2, pid).1
  {
    hide Waiters, ReleaseAll, GiveBack;
    ReleaseFirst(k, pid);
    ReleaseRound(k, pid);
    var k1 := SetHeld(k, pid, k.pcbs[pid].held[1..]);
    if k.pcbs[pid].held[0] !in k.resources {
      assert [] + ReleaseAll(k1, pid).1 == ReleaseAll(k1, pid).1;
    }
  }

  lemma AfterOnePops(k: Kernel, pid: nat)
    requires k.Live(pid) && k.pcbs[pid].held != []
    ensures var n := k.pcbs[pid].held[0]; var (k2, w) := AfterOne(k, pid);
            && Popped(k.resources, k2.resources, n)
            && w == if n in k.resources && k.resources[n].waiting != [] then [k.resources[n].waiting[0]] else []
  {
    var n := k.pcbs[pid].held[0];
    if n in k.resources {
      GiveBackPops(SetHeld(k, pid, k.pcbs[pid].held[1..]), n);
    } else {
      NothingPopped(k.resources, n);
    }
  }

  lemma {:induction false} ReleaseInTurn(k: Kernel, pid: nat)
    requires Waiters(k) && k.Live(pid) && !k.InLine(pid)
    ensures ReleaseAll(k, pid).1 == InTurn(k.resources, k.HeldOf(pid), |k.HeldOf(pid)|)
    decreases |k.HeldOf(pid)|
  {
    var held := k.pcbs[pid].held;
    if held != [] {
      hide Waiters, InTurn, ReleaseAll, GiveBack, Popped, AfterOne;
      AfterOneGoesOn(k, pid);
      AfterOnePops(k, pid);
      var (k2, w) := AfterOne(k, pid);
      ReleaseInTurn(k2, pid);
      TurnsJoin(k.resources, k2.resources, held, ReleaseAll(k2, pid).1);
    }
  }

  lemma NothingPopped(lines: map<string, Resource>, n: string)
    requires n !in lines
    ensures Popped(lines, lines, n)
  {
  }

  lemma GiveBackPops(k: Kernel, name: string)
    requires name in k.resources
    ensures Popped(k.resources, GiveBack(k, name).0.resources, name)
    ensures GiveBack(k, name).1 == if k.resources[name].waiting == [] then [] else [k.resources[name].waiting[0]]
  {
  }

  // ---- the end of a process ----

  /** Everything pid held was given back: waiters of `woken` went to the end of READY, in this order. */
  ghost predicate Freed(k: Kernel, k': Kernel, woken: seq<nat>) {
    && Distinct(woken) && (forall p: nat :: p in woken ==> k.InLine(p) && k'.Is(p, READY))
    && k'.colaReady == k.colaReady + woken && k'.hayReady == k.hayReady + |woken|
    && (forall p: nat :: p in k'.colaBlocked <==> p in k.colaBlocked && p !in woken)
    && (forall p: nat, e: Estado :: p !in woken ==> (k'.Is(p, e) <==> k.Is(p, e)))
    && k'.colaNew == k.colaNew && k'.colaExec == k.colaExec && k'.colaExit == k.colaExit
    && k'.inflight == k.inflight && k'.io == k.io
    && k'.mp == k.mp && k'.hayNew == k.hayNew && k'.token == k.token
  }

  lemma ReleaseFrees(k: Kernel, pid: nat, degree: int) returns (woken: seq<nat>)
    requires Inv(k, degree) && k.Live(pid) && !k.InLine(pid)
    ensures Freed(k, ReleaseAndWake(k, pid), woken) && pid !in woken
    ensures woken == InTurn(k.resources, k.HeldOf(pid), |k.HeldOf(pid)|)
  {
    hide ReleaseAll, WakeAll, Woken, Freed;
    InvWaiters(k, degree);
    ReleaseInTurn(k, pid);
    ReleaseAllHandsOver(k, pid);
    var (k1, w) := ReleaseAll(k, pid);
    woken := w;
    HandedOverWakes(k, k1, w, degree);
    hide Inv, Waiters;
    FreedBy(k, k1, WakeAll(k1, w), w);
  }

  lemma FreedBy(k: Kernel, k1: Kernel, k2: Kernel, woken: seq<nat>)
    requires HandedOver(k, k1, woken) && Woken(k1, k2, woken)
    ensures Freed(k, k2, woken)
  {
    hide Waiters, Kernel.Queue;
    PlacesOf(k, k1);
    forall p: nat, e: Estado | p !in woken
      ensures k2.Is(p, e) <==> k.Is(p, e)
    {
      assert k1.Is(p, e) <==> k.Is(p, e);
    }
  }

  lemma PlacesOf(k: Kernel, k': Kernel)
    requires SameQueues(k, k')
    ensures k'.colaNew == k.colaNew && k'.colaReady == k.colaReady && k'.colaExec == k.colaExec
    ensures k'.colaBlocked == k.colaBlocked && k'.colaExit == k.colaExit
  {
    assert forall e: Estado :: k'.Queue(e) == k.Queue(e);
    assert k'.Queue(NEW) == k.Queue(NEW) && k'.Queue(READY) == k.Queue(READY) && k'.Queue(EXEC) == k.Queue(EXEC);
    assert k'.Queue(BLOCK) == k.Queue(BLOCK) && k'.Queue(EXIT) == k.Queue(EXIT);
  }

  /** EXIT: the process goes to the end of EXIT, its slot comes back, and those it served follow READY. */
  lemma AfterFinish(k: Kernel, pid: nat, degree: int) returns (woken: seq<nat>)
    requires Inv(k, degree)
    ensures var k' := Step(k, Finish(pid));
            if !k.Running(pid) then k' == k
            else
              && k'.Is(pid, EXIT) && k'.colaExit == k.colaExit + [pid] && TakenOut(k.colaExec, pid, k'.colaExec)
              && k'.mp == k.mp + 1 && woken == InTurn(k.resources, k.HeldOf(pid), |k.HeldOf(pid)|)
              && Distinct(woken) && (forall p: nat :: p in woken ==> k.InLine(p) && k'.Is(p, READY))
              && k'.colaReady == k.colaReady + woken && k'.hayReady == k.hayReady + |woken|
              && (forall p: nat :: p in k'.colaBlocked <==> p in k.colaBlocked && p !in woken)
              && (forall p: nat, e: Estado :: p != pid && p !in woken ==> (k'.Is(p, e) <==> k.Is(p, e)))
              && k'.colaNew == k.colaNew && k'.inflight == k.inflight && k'.io == k.io
              && k'.hayNew == k.hayNew && k'.token == k.token
  {
    hide Inv, ReleaseAndWake, TakenOut;
    woken := [];
    if k.Running(pid) {
      AfterSegfault(k, pid);
      FinLeaves(k, pid, degree);
      hide Interrupt;
      woken := ReleaseFrees(Interrupt(k, pid, FIN), pid, degree);
      assert forall n, p: nat :: Interrupt(k, pid, FIN).OnLine(n, p) <==> k.OnLine(n, p);
    }
  }

  /** `rest` is q, without pid if its state was e. */
  ghost predicate LeftFor(k: Kernel, pid: nat, e: Estado, q: seq<nat>, rest: seq<nat>) {
    if k.Is(pid, e) then TakenOut(q, pid, rest) else rest == q
  }

  /** KILL of a process in NEW: it goes to the end of EXIT. */
  lemma AfterKillNew(k: Kernel, pid: nat, degree: int)
    requires Inv(k, degree) && k.Is(pid, NEW) && pid in k.colaNew
    ensures var k' := Step(k, Kill(pid));
            && k'.Is(pid, EXIT) && k'.HeldOf(pid) == k.HeldOf(pid) && OthersSame(k, k', [pid])
            && k'.colaExit == k.colaExit + [pid] && TakenOut(k.colaNew, pid, k'.colaNew)
            && k' == k.(pcbs := k'.pcbs, colaNew := k'.colaNew, colaExit := k'.colaExit)
  {
    RemoveTakesOut(k.colaNew, pid);
  }

  /** KILL past NEW: the process goes from its queue to the end of EXIT, its slot comes back, and those it served
      follow READY. */
  lemma AfterKill(k: Kernel, pid: nat, degree: int) returns (woken: seq<nat>)
    requires Inv(k, degree) && k.Live(pid) && k.pcbs[pid].estado != NEW && k.pcbs[pid].estado != EXIT
    ensures var k' := Step(k, Kill(pid));
            && k'.Is(pid, EXIT) && k'.colaExit == k.colaExit + [pid] && k'.mp == k.mp + 1
            && LeftFor(k, pid, EXEC, k.colaExec, k'.colaExec)
            && woken == InTurn(LeaveQueues(k, pid).resources, k.HeldOf(pid), |k.HeldOf(pid)|)
            && Distinct(woken) && (forall p: nat :: p in woken ==> p != pid && k.InLine(p) && k'.Is(p, READY))
            && (exists rest :: LeftFor(k, pid, READY, k.colaReady, rest) && k'.colaReady == rest + woken)
            && k'.hayReady == k.hayReady + |woken|
            && (forall p: nat :: p in k'.colaBlocked <==> p in k.colaBlocked && p != pid && p !in woken)
            && (forall p: nat, e: Estado :: p != pid && p !in woken ==> (k'.Is(p, e) <==> k.Is(p, e)))
            && k'.colaNew == k.colaNew && k'.inflight == k.inflight && k'.io == k.io
            && k'.hayNew == k.hayNew && k'.token == k.token
  {
    hide Inv, Step, ReleaseAndWake, LeftFor, Move, LeaveQueues, Freed, KillsActive;
    PastNew(k, pid, degree);
    LeavesFor(k, pid, degree);
    KillLeaves(k, pid, degree);
    var k1 := LeaveQueues(Move(k, pid, EXIT), pid);
    woken := ReleaseFrees(k1, pid, degree - 1);
    KillIsRelease(k, pid);
    FreedAfter(k, k1, ReleaseAndWake(k1, pid), Step(k, Kill(pid)), pid, woken);
    assert LeftFor(k, pid, READY, k.colaReady, k1.colaReady);
  }

  lemma KillIsRelease(k: Kernel, pid: nat)
    requires KillsActive(k, pid)
    ensures var r := ReleaseAndWake(LeaveQueues(Move(k, pid, EXIT), pid), pid);
            Step(k, Kill(pid)) == r.(mp := r.mp + 1)
  {
  }

  lemma FreedAfter(k: Kernel, k1: Kernel, k2: Kernel, k': Kernel, pid: nat, woken: seq<nat>)
    requires Freed(k1, k2, woken) && k' == k2.(mp := k2.mp + 1) && pid !in woken && k1.Is(pid, EXIT)
    requires forall p: nat, e: Estado :: p != pid ==> (k1.Is(p, e) <==> k.Is(p, e))
    requires forall p: nat :: p in k1.colaBlocked <==> p in k.colaBlocked && p != pid
    requires forall p: nat :: k1.InLine(p) ==> k.InLine(p) && p != pid
    ensures k'.Is(pid, EXIT) && k'.colaReady == k1.colaReady + woken && k'.hayReady == k1.hayReady + |woken|
    ensures Distinct(woken) && forall p: nat :: p in woken ==> k.InLine(p) && p != pid && k'.Is(p, READY)
    ensures forall p: nat :: p in k'.colaBlocked <==> p in k.colaBlocked && p != pid && p !in woken
    ensures forall p: nat, e: Estado :: p != pid && p !in woken ==> (k'.Is(p, e) <==> k.Is(p, e))
    ensures k'.colaNew == k1.colaNew && k'.colaExec == k1.colaExec && k'.colaExit == k1.colaExit && k'.mp == k1.mp + 1
    ensures k'.inflight == k1.inflight && k'.io == k1.io && k'.hayNew == k1.hayNew && k'.token == k1.token
  {
    assert forall p: nat, e: Estado :: k'.Is(p, e) <==> k2.Is(p, e);
  }

  /** KILL finds nobody who does not exist, has ended, or is between NEW and memory's answer. */
  lemma AfterKillElse(k: Kernel, pid: nat)
    requires !k.Live(pid) || k.Is(pid, EXIT) || (k.Is(pid, NEW) && pid !in k.colaNew)
    ensures Step(k, Kill(pid)) == k
  {
  }

  lemma PastNew(k: Kernel, pid: nat, degree: int)
    requires Inv(k, degree) && k.Live(pid) && k.pcbs[pid].estado != NEW && k.pcbs[pid].estado != EXIT
    ensures KillsActive(k, pid)
  {
    assert k.Is(pid, k.pcbs[pid].estado);
    assert pid !in k.inflight;
  }

  lemma LeavesFor(k: Kernel, pid: nat, degree: int)
    requires Inv(k, degree) && KillsActive(k, pid)
    ensures var k1 := LeaveQueues(Move(k, pid, EXIT), pid);
            && k1.Is(pid, EXIT) && (forall p: nat, e: Estado :: p != pid ==> (k1.Is(p, e) <==> k.Is(p, e)))
            && k1.colaExit == k.colaExit + [pid] && k1.colaNew == k.colaNew
            && LeftFor(k, pid, EXEC, k.colaExec, k1.colaExec) && LeftFor(k, pid, READY, k.colaReady, k1.colaReady)
            && (forall p: nat :: p in k1.colaBlocked <==> p in k.colaBlocked && p != pid)
            && k1.inflight == k.inflight && k1.io == k.io && k1.mp == k.mp && k1.hayReady == k.hayReady
            && k1.hayNew == k.hayNew && k1.token == k.token
            && (forall p: nat :: k1.InLine(p) ==> k.InLine(p) && p != pid)
            && k1.resources == LeaveQueues(k, pid).resources && k1.HeldOf(pid) == k.HeldOf(pid)
  {
    assert k.Queue(EXEC) == k.colaExec && k.Queue(READY) == k.colaReady && k.Queue(BLOCK) == k.colaBlocked;
    match k.pcbs[pid].estado {
      case EXEC => RemoveTakesOut(k.colaExec, pid);
      case READY => RemoveTakesOut(k.colaReady, pid);
      case _ =>
    }
    RemoveExact(k.colaBlocked, pid);
    assert pid in k.colaBlocked ==> k.Is(pid, BLOCK);
    LeftLines(k, pid, degree);
  }

  lemma LeftLines(k: Kernel, pid: nat, degree: int)
    requires Inv(k, degree) && KillsActive(k, pid)
    ensures var k1 := LeaveQueues(Move(k, pid, EXIT), pid);
            forall p: nat :: k1.InLine(p) ==> k.InLine(p) && p != pid
  {
    var k1 := LeaveQueues(Move(k, pid, EXIT), pid);
    forall p: nat | k1.InLine(p)
      ensures k.InLine(p) && p != pid
    {
      var n :| k1.OnLine(n, p);
      assert Distinct(k.resources[n].waiting);
      RemoveExact(k.resources[n].waiting, pid);
      assert k.OnLine(n, p);
    }
  }

  // ---- admission and dispatch ----

  /** A new process joins the end of NEW, and NEW is posted. */
  lemma AfterArrive(k: Kernel)
    ensures var k' := Step(k, Arrive);
            && k'.Is(|k.pcbs|, NEW) && k'.HeldOf(|k.pcbs|) == [] && |k'.pcbs| == |k.pcbs| + 1
            && (forall q: nat :: q < |k.pcbs| ==> k'.pcbs[q] == k.pcbs[q])
            && k'.colaNew == k.colaNew + [|k.pcbs|] && k'.hayNew == k.hayNew + 1
            && k' == k.(pcbs := k'.pcbs, colaNew := k'.colaNew, hayNew := k'.hayNew)
  {
  }

  /** The long-term scheduler takes the head of NEW and a slot, or only returns to waiting. */
  lemma AfterAdmit(k: Kernel)
    requires Enabled(k, Admit)
    ensures var k' := Step(k, Admit);
            && k'.token == k.token - 1
            && (if k.colaNew == [] then k'.inflight == k.inflight && k'.colaNew == [] && k'.mp == k.mp
                else && k.colaNew == k'.inflight + k'.colaNew && |k'.inflight| == 1 && k'.mp == k.mp - 1)
            && k' == k.(token := k'.token, inflight := k'.inflight, colaNew := k'.colaNew, mp := k'.mp)
  {
  }

  /** Memory's answer: the process goes to the end of READY, or away with its slot. */
  lemma AfterAdmitted(k: Kernel, created: bool, degree: int)
    requires Inv(k, degree) && Enabled(k, Admitted(created))
    ensures var k' := Step(k, Admitted(created)); var pid := k.inflight[0];
            && k'.inflight == [] && OthersSame(k, k', [pid])
            && k'.HeldOf(pid) == (if created then k.HeldOf(pid) else [])
            && if created then
                 && k'.Is(pid, READY) && k'.colaReady == k.colaReady + [pid] && k'.hayReady == k.hayReady + 1
                 && k' == k.(pcbs := k'.pcbs, inflight := [], colaReady := k'.colaReady, hayReady := k'.hayReady)
               else
                 && !k'.Live(pid) && k'.mp == k.mp + 1 && k' == k.(pcbs := k'.pcbs, inflight := [], mp := k'.mp)
  {
    assert k.inflight[0] in k.inflight;
  }

  /** The short-term scheduler takes the process its algorithm picked from its place in READY to the end of EXEC. */
  lemma AfterDispatch(k: Kernel, i: nat, degree: int)
    requires Inv(k, degree) && Enabled(k, Dispatch(i))
    ensures var k' := Step(k, Dispatch(i));
            && k'.hayReady == k.hayReady - 1
            && if k.colaReady == [] then k' == k.(hayReady := k'.hayReady)
               else
                 var pid := k.colaReady[i];
                 && k'.Is(pid, EXEC) && k'.HeldOf(pid) == k.HeldOf(pid) && OthersSame(k, k', [pid])
                 && k'.colaReady == k.colaReady[..i] + k.colaReady[i + 1..] && k'.colaExec == k.colaExec + [pid]
                 && k' == k.(pcbs := k'.pcbs, colaReady := k'.colaReady, colaExec := k'.colaExec,
                             hayReady := k'.hayReady)
  {
    if k.colaReady != [] {
      assert k.colaReady == k.Queue(READY);
      var pid := k.colaReady[i];
      assert pid in k.colaReady && k.Is(pid, READY) && Distinct(k.colaReady);
      RemoveAt(k.colaReady, pid, i);
    }
  }

  // ---- the order of service ----

  /** NEW is in order of creation, and what the scheduler has taken from it is older. */
  ghost predicate NewInOrder(k: Kernel) {
    && (forall i: nat, j: nat :: i < j < |k.colaNew| ==> k.colaNew[i] < k.colaNew[j])
    && (forall p: nat, q: nat :: p in k.inflight && q in k.colaNew ==> p < q)
  }

  lemma {:induction false} QuietNew(k: Kernel, ev: Event, degree: int)
    requires Inv(k, degree) && Enabled(k, ev) && !ev.Arrive? && !ev.Admit? && !ev.Admitted? && !ev.Kill?
    ensures Step(k, ev).colaNew == k.colaNew && Step(k, ev).inflight == k.inflight
  {
    hide Inv, Step;
    match ev
    case TakeToken => TokenOnly(k);
    case Dispatch(i) => AfterDispatch(k, i, degree);
    case Quantum(_) => AfterQuantum(k, ev);
    case Preempt(_) => AfterQuantum(k, ev);
    case Wait(pid, name) => if k.Running(pid) { AfterWait(k, pid, name); } else { WaitIgnored(k, pid, name); }
    case Signal(pid, name) => AfterSignal(k, pid, name, degree);
    case Io(pid, sent) => AfterIo(k, pid, sent);
    case IoDone(pid) => AfterIoDone(k, pid, degree);
    case Finish(pid) => var woken := AfterFinish(k, pid, degree);
    case Segfault(pid) => AfterSegfault(k, pid);
  }

  lemma TokenOnly(k: Kernel)
    requires Enabled(k, TakeToken)
    ensures Step(k, TakeToken) == k.(hayNew := k.hayNew - 1, token := 1)
  {
  }

  lemma WaitIgnored(k: Kernel, pid: nat, name: string)
    requires !k.Running(pid)
    ensures Step(k, Wait(pid, name)) == k
  {
  }

  lemma ArriveInOrder(k: Kernel, degree: int)
    requires Inv(k, degree) && NewInOrder(k)
    ensures NewInOrder(Step(k, Arrive))
  {
    AfterArrive(k);
    assert k.Queue(NEW) == k.colaNew;
    forall p: nat | p in k.colaNew || p in k.inflight
      ensures p < |k.pcbs|
    {
      assert k.Is(p, NEW);
    }
    assert forall i: nat :: i < |k.colaNew| ==> k.colaNew[i] in k.colaNew;
  }

  lemma TakenInOrder(q: seq<nat>, pid: nat, rest: seq<nat>)
    requires TakenOut(q, pid, rest) && forall i: nat, j: nat :: i < j < |q| ==> q[i] < q[j]
    ensures forall i: nat, j: nat :: i < j < |rest| ==> rest[i] < rest[j]
    ensures forall p: nat :: p in rest ==> p in q
  {
  }

  lemma KillInOrder(k: Kernel, pid: nat, degree: int)
    requires Inv(k, degree) && NewInOrder(k)
    ensures NewInOrder(Step(k, Kill(pid)))
  {
    if !Killable(k, pid) {
      assert Step(k, Kill(pid)) == k;
    } else {
      assert k.Is(pid, NEW) ==> k.Queue(NEW) == k.colaNew;
      hide Inv, Step;
      if k.Is(pid, NEW) {
        AfterKillNew(k, pid, degree);
        TakenInOrder(k.colaNew, pid, Step(k, Kill(pid)).colaNew);
      } else {
        var woken := AfterKill(k, pid, degree);
      }
    }
  }

  lemma StepInOrder(k: Kernel, ev: Event, degree: int)
    requires Inv(k, degree) && Enabled(k, ev) && NewInOrder(k)
    ensures NewInOrder(Step(k, ev))
  {
    match ev
    case Arrive => ArriveInOrder(k, degree);
    case Admit => AfterAdmit(k);
    case Admitted(created) => AfterAdmitted(k, created, degree);
    case Kill(pid) => KillInOrder(k, pid, degree);
    case _ => QuietNew(k, ev, degree);
  }

  lemma {:induction false} RunInOrder(k: Kernel, events: seq<Event>, degree: int)
    requires Inv(k, degree) && Possible(k, events) && NewInOrder(k)
    ensures NewInOrder(Run(k, events))
    decreases |events|
  {
    hide Inv, NewInOrder, Step;
    if events != [] {
      StepKeeps(k, events[0], degree);
      StepInOrder(k, events[0], degree);
      RunInOrder(Step(k, events[0]), events[1..], degree);
    }
  }

  /** In every reachable state the process that is admitted next is the one created first among those in NEW. */
  lemma OldestAdmitted(degree: nat, initial: map<string, nat>, events: seq<Event>, p: nat)
    requires Possible(Start(degree, initial), events)
    requires var k := Run(Start(degree, initial), events); Enabled(k, Admit) && k.Is(p, NEW)
    ensures var k' := Step(Run(Start(degree, initial), events), Admit);
            |k'.inflight| == 1 && k'.inflight[0] <= p && (k'.inflight[0] != p ==> p in k'.colaNew)
  {
    hide Step, Start;
    var k := Run(Start(degree, initial), events);
    Reachable(degree, initial, events);
    StartInOrder(degree, initial);
    RunInOrder(Start(degree, initial), events, degree);
    NewWaits(k, p, degree);
    AfterAdmit(k);
    hide NewInOrder;
    HeadOldest(k, Step(k, Admit), p);
  }

  lemma HeadOldest(k: Kernel, k': Kernel, p: nat)
    requires NewInOrder(k) && k.colaNew == k'.inflight + k'.colaNew && |k'.inflight| == 1 && p in k.colaNew
    ensures k'.inflight[0] <= p && (k'.inflight[0] != p ==> p in k'.colaNew)
  {
    assert k.colaNew[0] == k'.inflight[0];
  }

  lemma StartInOrder(degree: nat, initial: map<string, nat>)
    ensures NewInOrder(Start(degree, initial)) && Inv(Start(degree, initial), degree)
  {
    Reachable(degree, initial, []);
  }

  lemma NewWaits(k: Kernel, p: nat, degree: int)
    requires Inv(k, degree) && Enabled(k, Admit) && k.Is(p, NEW)
    ensures p in k.colaNew
  {
    assert k.Queue(NEW) == k.colaNew && k.inflight == [];
  }

  /** What any event does to READY: at most one process leaves from anywhere, and others join at the end. */
  ghost predicate ReadyParts(k: Kernel, k': Kernel, stay: seq<nat>, come: seq<nat>) {
    && k'.colaReady == stay + come
    && (stay == k.colaReady || exists p: nat :: TakenOut(k.colaReady, p, stay))
    && forall p: nat :: p in come ==> !k.Is(p, READY)
  }

  lemma SignalReady(k: Kernel, pid: nat, name: string, degree: int) returns (come: seq<nat>)
    requires Inv(k, degree)
    ensures ReadyParts(k, Step(k, Signal(pid, name)), k.colaReady, come)
  {
    hide Step;
    AfterSignal(k, pid, name, degree);
    FirstWaits(k, name, degree);
    come := FirstOf(k, name) + if k.Running(pid) then [pid] else [];
    assert k.colaReady + come == k.colaReady + FirstOf(k, name) + if k.Running(pid) then [pid] else [];
  }

  lemma FinishReady(k: Kernel, pid: nat, degree: int) returns (come: seq<nat>)
    requires Inv(k, degree)
    ensures ReadyParts(k, Step(k, Finish(pid)), k.colaReady, come)
  {
    come := AfterFinish(k, pid, degree);
    LinesBlocked(k, degree);
    hide Step, Inv;
    if !k.Running(pid) {
      come := [];
    }
  }

  lemma LinesBlocked(k: Kernel, degree: int)
    requires Inv(k, degree)
    ensures forall p: nat :: k.InLine(p) ==> !k.Is(p, READY)
  {
    forall p: nat | k.InLine(p)
      ensures !k.Is(p, READY)
    {
      var n :| k.OnLine(n, p);
    }
  }

  lemma KillReady(k: Kernel, pid: nat, degree: int) returns (stay: seq<nat>, come: seq<nat>)
    requires Inv(k, degree)
    ensures ReadyParts(k, Step(k, Kill(pid)), stay, come)
  {
    stay, come := k.colaReady, [];
    if !Killable(k, pid) {
      assert Step(k, Kill(pid)) == k;
    } else if k.Is(pid, NEW) {
      assert k.Queue(NEW) == k.colaNew;
      AfterKillNew(k, pid, degree);
    } else {
      come := AfterKill(k, pid, degree);
      LinesBlocked(k, degree);
      hide Step, Inv;
      stay :| LeftFor(k, pid, READY, k.colaReady, stay) && Step(k, Kill(pid)).colaReady == stay + come;
    }
  }

  lemma StepReady(k: Kernel, ev: Event, degree: int) returns (stay: seq<nat>, come: seq<nat>)
    requires Inv(k, degree) && Enabled(k, ev)
    ensures ReadyParts(k, Step(k, ev), stay, come)
  {
    hide Inv, Step;
    stay, come := k.colaReady, [];
    match ev
    case Arrive => AfterArrive(k);
    case TakeToken => TokenOnly(k);
    case Admit => AfterAdmit(k);
    case Admitted(created) =>
      AfterAdmitted(k, created, degree);
      InflightNew(k, degree);
      come := if created then [k.inflight[0]] else [];
    case Dispatch(i) =>
      AfterDispatch(k, i, degree);
      if k.colaReady != [] {
        stay := k.colaReady[..i] + k.colaReady[i + 1..];
        assert TakenOut(k.colaReady, k.colaReady[i], stay);
      }
    case Quantum(pid) => AfterQuantum(k, ev); come := if k.Running(pid) then [pid] else [];
    case Preempt(pid) => AfterQuantum(k, ev); come := if k.Running(pid) then [pid] else [];
    case Wait(pid, name) =>
      if k.Running(pid) {
        AfterWait(k, pid, name);
        come := if name in k.resources && k.resources[name].instances <= 0 then [] else [pid];
      } else {
        WaitIgnored(k, pid, name);
      }
    case Signal(pid, name) => come := SignalReady(k, pid, name, degree);
    case Io(pid, sent) => AfterIo(k, pid, sent);
    case IoDone(pid) => AfterIoDone(k, pid, degree); come := if k.Is(pid, BLOCK) then [pid] else [];
    case Finish(pid) => come := FinishReady(k, pid, degree);
    case Segfault(pid) => AfterSegfault(k, pid);
    case Kill(pid) => stay, come := KillReady(k, pid, degree);
  }

  lemma InflightNew(k: Kernel, degree: int)
    requires Inv(k, degree)
    ensures k.inflight != [] ==> k.Is(k.inflight[0], NEW)
  {
    assert k.inflight != [] ==> k.inflight[0] in k.inflight;
  }

  lemma NotTaken(q: seq<nat>, i: nat, x: nat)
    requires Distinct(q) && i < |q| && x in q[..i] + q[i + 1..]
    ensures q[i] != x
  {
    var rest := q[..i] + q[i + 1..];
    var m: nat :| m < |rest| && rest[m] == x;
    assert q[if m < i then m else m + 1] == x;
  }

  lemma TakenKeepsOrder(q: seq<nat>, pid: nat, rest: seq<nat>, x: nat, y: nat)
    requires Distinct(q) && TakenOut(q, pid, rest) && Before(q, x, y) && x in rest && y in rest
    ensures Before(rest, x, y)
  {
    var i: nat :| i < |q| && q[i] == pid && rest == q[..i] + q[i + 1..];
    NotTaken(q, i, x);
    NotTaken(q, i, y);
    var a: nat, b: nat :| a < b < |q| && q[a] == x && q[b] == y;
    ShiftedAt(q, i, a);
    ShiftedAt(q, i, b);
  }

  /** Where element a of q is once element i is gone. */
  lemma ShiftedAt(q: seq<nat>, i: nat, a: nat)
    requires i < |q| && a < |q| && a != i
    ensures var c := if a < i then a else a - 1; c < |q| - 1 && (q[..i] + q[i + 1..])[c] == q[a]
  {
  }

  /** Nobody overtakes in READY: of two processes that stay in it the one that was first stays first, and whoever
      comes is behind all that stay. */
  lemma ReadyKeepsOrder(k: Kernel, ev: Event, x: nat, y: nat, degree: int)
    requires Inv(k, degree) && Enabled(k, ev) && x in k.colaReady && (y in k.colaReady ==> Before(k.colaReady, x, y))
    requires x in Step(k, ev).colaReady && y in Step(k, ev).colaReady && x != y
    ensures Before(Step(k, ev).colaReady, x, y)
  {
    var stay, come := StepReady(k, ev, degree);
    ReadyQueue(k, degree);
    hide Step, Inv, Before, TakenOut, Distinct;
    StaysIn(k, stay, come, x);
    if y in k.colaReady {
      StaysIn(k, stay, come, y);
      StayersKeepOrder(k.colaReady, stay, come, x, y);
    } else {
      NewcomerBehind(k.colaReady, stay, come, x, y);
    }
  }

  lemma StayersKeepOrder(q: seq<nat>, stay: seq<nat>, come: seq<nat>, x: nat, y: nat)
    requires Distinct(q) && Before(q, x, y) && x in stay && y in stay
    requires stay == q || exists p: nat :: TakenOut(q, p, stay)
    ensures Before(stay + come, x, y)
  {
    hide Distinct, TakenOut;
    if stay != q {
      var p: nat :| TakenOut(q, p, stay);
      TakenKeepsOrder(q, p, stay, x, y);
    }
    var a: nat, b: nat :| a < b < |stay| && stay[a] == x && stay[b] == y;
    assert (stay + come)[a] == x && (stay + come)[b] == y;
  }

  lemma NewcomerBehind(q: seq<nat>, stay: seq<nat>, come: seq<nat>, x: nat, y: nat)
    requires x in stay && y !in q && y in stay + come && (stay == q || exists p: nat :: TakenOut(q, p, stay))
    ensures Before(stay + come, x, y)
  {
    NotIn(q, stay, y);
    hide TakenOut;
    var a: nat :| a < |stay| && stay[a] == x;
    var b: nat :| b < |stay + come| && (stay + come)[b] == y;
    assert |stay| <= b && (stay + come)[a] == x;
  }

  lemma ReadyQueue(k: Kernel, degree: int)
    requires Inv(k, degree)
    ensures Distinct(k.colaReady) && forall p: nat :: p in k.colaReady ==> k.Is(p, READY)
  {
    assert k.Queue(READY) == k.colaReady;
  }

  /** Who was READY and still is did not come. */
  lemma StaysIn(k: Kernel, stay: seq<nat>, come: seq<nat>, x: nat)
    requires k.Is(x, READY) && x in stay + come && forall p: nat :: p in come ==> !k.Is(p, READY)
    ensures x in stay
  {
  }

  lemma NotIn(q: seq<nat>, stay: seq<nat>, y: nat)
    requires stay == q || exists p: nat :: TakenOut(q, p, stay)
    requires y !in q
    ensures forall i: nat :: i < |stay| ==> stay[i] != y
  {
    if stay != q {
      var p: nat :| TakenOut(q, p, stay);
      assert forall x: nat :: x in stay ==> x in q;
    }
  }
}
