// The kernel with its queues, semaphores and resources updated in place; every method is one handler of the
// source and is proved to do what KernelState says.
module KernelQueues {
  import opened Snapshot
  import opened KernelState
  import opened KernelInvariants
  import opened KernelResources

  class Scheduler {
    var pcbs: seq<Pcb>
    var colaNew: seq<nat>
    var colaReady: seq<nat>
    var colaExec: seq<nat>
    var colaBlocked: seq<nat>
    var colaExit: seq<nat>
    var inflight: seq<nat>
    var resources: map<string, Resource>
    var mp: int
    var hayReady: nat
    var hayNew: nat
    var token: nat
    var io: set<nat>
    const degree: nat

    function K(): Kernel
      reads this
    {
      Kernel(pcbs, colaNew, colaReady, colaExec, colaBlocked, colaExit, inflight, resources, mp, hayReady, hayNew,
        token, io)
    }

    ghost predicate Valid()
      reads this
    {
      Inv(K(), degree)
    }

    /** planificacion_init and recursos_init */
    constructor (degree: nat, initial: map<string, nat>)
      ensures this.degree == degree && K() == Start(degree, initial) && Valid()
    {
      this.degree := degree;
      pcbs, inflight := [], [];
      colaNew, colaReady, colaExec, colaBlocked, colaExit := [], [], [], [], [];
      resources := map n | n in initial :: Resource(initial[n], []);
      mp, hayReady, hayNew, token, io := degree, 0, 0, 0, {};
      new;
      Reachable(degree, initial, []);
      assert Run(Start(degree, initial), []) == Start(degree, initial);
    }

    // ---- searching ----

    method Search(q: seq<nat>, pid: nat) returns (found: bool)
      ensures found <==> pid in q
    {
      found := false;
      var i := 0;
      while i < |q| && !found
        invariant i <= |q|
        invariant found <==> pid in q[..i]
      {
        found := q[i] == pid;
        i := i + 1;
      }
    }

    /** The process if it is executing. */
    method FindExec(pid: nat) returns (found: bool)
      requires Queues(K())
      ensures found <==> K().Running(pid)
    {
      found := Search(colaExec, pid);
      assert colaExec == K().Queue(EXEC);
    }

    /** The first occurrence leaves the list, as list_remove_element and the loop of recursos_liberar_proceso do. */
    method RemoveFrom(q: seq<nat>, pid: nat) returns (rest: seq<nat>)
      ensures rest == Remove(q, pid)
    {
      var j := 0;
      while j < |q| && q[j] != pid
        invariant j <= |q| && pid !in q[..j]
      {
        j := j + 1;
      }
      RemoveAt(q, pid, j);
      rest := if j == |q| then q else q[..j] + q[j + 1..];
    }

    // ---- moving ----

    method TakeOut(pid: nat, e: Estado)
      modifies this
      ensures K() == old(K()).WithQueue(e, Remove(old(K()).Queue(e), pid))
    {
      match e
      case NEW => colaNew := RemoveFrom(colaNew, pid);
      case READY => colaReady := RemoveFrom(colaReady, pid);
      case EXEC => colaExec := RemoveFrom(colaExec, pid);
      case BLOCK => colaBlocked := RemoveFrom(colaBlocked, pid);
      case EXIT => colaExit := RemoveFrom(colaExit, pid);
    }

    method PutIn(pid: nat, e: Estado)
      requires K().Live(pid)
      modifies this
      ensures K() == old(K()).WithQueue(e, old(K()).Queue(e) + [pid])
                             .(pcbs := old(pcbs)[pid := old(pcbs)[pid].(estado := e)])
    {
      pcbs := pcbs[pid := pcbs[pid].(estado := e)];
      match e
      case NEW => colaNew := colaNew + [pid];
      case READY => colaReady := colaReady + [pid];
      case EXEC => colaExec := colaExec + [pid];
      case BLOCK => colaBlocked := colaBlocked + [pid];
      case EXIT => colaExit := colaExit + [pid];
    }

    method MoveTo(pid: nat, e: Estado)
      requires K().Live(pid)
      modifies this
      ensures K() == Move(old(K()), pid, e)
    {
      TakeOut(pid, pcbs[pid].estado);
      PutIn(pid, e);
    }

    /** manejar_interrupcion */
    method HandleInterrupt(pid: nat, motivo: Motivo)
      requires Queues(K())
      modifies this
      ensures K() == Interrupt(old(K()), pid, motivo)
    {
      var found := FindExec(pid);
      if !found {
        return;
      }
      match motivo
      case QUANTUM =>
        MoveTo(pid, READY);
        hayReady := hayReady + 1;
      case BLOQUEO =>
        MoveTo(pid, BLOCK);
      case FIN =>
        MoveTo(pid, EXIT);
        mp := mp + 1;
    }

    // ---- resources ----

    /** recurso_wait: takes an instance, or joins the line. */
    method Acquire(pid: nat, name: string) returns (blocks: bool)
      requires K().Live(pid)
      modifies this
      ensures blocks <==> name in old(resources) && old(resources[name]).instances <= 0
      ensures name !in old(resources) ==> K() == old(K())
      ensures name in old(resources) && !blocks ==>
        K() == SetHeld(SetResource(old(K()), name,
          old(resources[name]).(instances := old(resources[name]).instances - 1)),
                       pid, old(pcbs[pid]).held + [name])
      ensures blocks ==>
        K() == SetResource(old(K()), name, old(resources[name]).(waiting := old(resources[name]).waiting + [pid]))
    {
      if name !in resources {
        return false;
      }
      var r := resources[name];
      if r.instances > 0 {
        resources := resources[name := r.(instances := r.instances - 1)];
        pcbs := pcbs[pid := pcbs[pid].(held := pcbs[pid].held + [name])];
        return false;
      }
      resources := resources[name := r.(waiting := r.waiting + [pid])];
      return true;
    }

    /** An instance goes to the first waiter or back to the pool. */
    method HandOver(name: string) returns (woken: seq<nat>)
      requires Waiters(K()) && name in resources
      modifies this
      ensures (K(), woken) == GiveBack(old(K()), name)
    {
      var r := resources[name];
      if r.waiting == [] {
        resources := resources[name := r.(instances := r.instances + 1)];
        return [];
      }
      var d := r.waiting[0];
      assert K().OnLine(name, d);
      resources := resources[name := r.(waiting := r.waiting[1..])];
      pcbs := pcbs[d := pcbs[d].(held := pcbs[d].held + [name])];
      return [d];
    }

    /** The search of recurso_signal: the first entry for the resource leaves the list, if there is one. */
    method WithoutFirst(held: seq<string>, name: string) returns (rest: seq<string>)
      ensures rest == RemoveName(held, name)
    {
      var i := 0;
      while i < |held| && held[i] != name
        invariant i <= |held| && name !in held[..i]
      {
        i := i + 1;
      }
      RemoveNameAt(held, name, i);
      rest := if i == |held| then held else held[..i] + held[i + 1..];
    }

    method DropHeld(pid: nat, name: string)
      requires K().Live(pid)
      modifies this
      ensures K() == SetHeld(old(K()), pid, RemoveName(old(pcbs[pid]).held, name))
    {
      var rest := WithoutFirst(pcbs[pid].held, name);
      pcbs := pcbs[pid := pcbs[pid].(held := rest)];
    }

    /** recursos_liberar_proceso: through all resources, in any order. */
    method LeaveLines(pid: nat, names: seq<string>)
      requires Enumerates(names, resources)
      modifies this
      ensures K() == LeaveQueues(old(K()), pid)
    {
      ghost var old_resources := resources;
      var i := 0;
      while i < |names|
        invariant i <= |names|
        invariant K() == old(K()).(resources := resources)
        invariant resources.Keys == old_resources.Keys
        invariant forall n :: n in resources ==>
          resources[n] == if n in names[..i]
                          then old_resources[n].(waiting := Remove(old_resources[n].waiting, pid))
                          else old_resources[n]
      {
        var n := names[i];
        var rest := RemoveFrom(resources[n].waiting, pid);
        resources := resources[n := resources[n].(waiting := rest)];
        i := i + 1;
      }
      assert names[..i] == names;
      assert resources == LeaveQueues(old(K()), pid).resources;
    }

    /** One round of recursos_liberar_adquiridos. */
    method ReleaseOne(pid: nat) returns (woken: seq<nat>)
      requires Waiters(K()) && K().Live(pid) && !K().InLine(pid) && pcbs[pid].held != []
      modifies this
      ensures Waiters(K()) && K().Live(pid) && !K().InLine(pid)
      ensures K().HeldOf(pid) == old(K()).HeldOf(pid)[1..]
      ensures ReleaseAll(old(K()), pid) == (ReleaseAll(K(), pid).0, woken + ReleaseAll(K(), pid).1)
    {
      ReleaseFirst(K(), pid);
      var name := pcbs[pid].held[0];
      pcbs := pcbs[pid := pcbs[pid].(held := pcbs[pid].held[1..])];
      woken := [];
      hide Waiters;
      if name in resources {
        assert !K().OnLine(name, pid);
        woken := HandOver(name);
      } else {
        assert [] + ReleaseAll(K(), pid).1 == ReleaseAll(K(), pid).1;
      }
    }

    /** recursos_liberar_adquiridos */
    method ReleaseHeld(pid: nat) returns (woken: seq<nat>)
      requires Waiters(K()) && K().Live(pid) && !K().InLine(pid)
      modifies this
      ensures (K(), woken) == ReleaseAll(old(K()), pid)
    {
      hide Waiters;
      woken := [];
      assert [] + ReleaseAll(K(), pid).1 == ReleaseAll(K(), pid).1;
      while pcbs[pid].held != []
        invariant Waiters(K()) && K().Live(pid) && !K().InLine(pid)
        invariant ReleaseAll(old(K()), pid) == (ReleaseAll(K(), pid).0, woken + ReleaseAll(K(), pid).1)
        decreases |K().HeldOf(pid)|
      {
        var more := ReleaseOne(pid);
        assert woken + (more + ReleaseAll(K(), pid).1) == woken + more + ReleaseAll(K(), pid).1;
        woken := woken + more;
      }
      assert ReleaseAll(K(), pid) == (K(), []) && woken + [] == woken;
    }

    method WakeOne(pid: nat)
      requires K().Is(pid, BLOCK)
      modifies this
      ensures K() == Wake(old(K()), pid)
      ensures forall d: nat :: d != pid && old(K()).Is(d, BLOCK) ==> K().Is(d, BLOCK)
    {
      MoveExact(K(), pid, READY);
      MoveTo(pid, READY);
      hide Move;
      hayReady := hayReady + 1;
    }

    /** The loop that moves the woken processes from BLOCKED to READY. */
    method WakeUp(woken: seq<nat>)
      requires Distinct(woken) && forall d :: d in woken ==> K().Is(d, BLOCK)
      modifies this
      ensures K() == WakeAll(old(K()), woken)
    {
      hide Wake;
      var i := 0;
      while i < |woken|
        invariant i <= |woken|
        invariant forall j: nat :: i <= j < |woken| ==> K().Is(woken[j], BLOCK)
        invariant WakeAll(old(K()), woken) == WakeAll(K(), woken[i..])
      {
        WakeOne(woken[i]);
        assert woken[i..][1..] == woken[i + 1..];
        i := i + 1;
      }
    }

    // ---- handlers ----

    /** manejar_wait_recurso */
    method HandleWait(pid: nat, name: string)
      requires Queues(K())
      modifies this
      ensures K() == WaitFor(old(K()), pid, name)
    {
      var found := FindExec(pid);
      if !found {
        return;
      }
      var blocks := Acquire(pid, name);
      StillInQueues(old(K()), K());
      if blocks {
        HandleInterrupt(pid, BLOQUEO);
      } else {
        HandleInterrupt(pid, QUANTUM);
      }
    }

    /** manejar_signal_recurso */
    method HandleSignal(pid: nat, name: string)
      requires Valid()
      modifies this
      ensures K() == SignalBy(old(K()), pid, name)
    {
      var found := FindExec(pid);
      if name in resources {
        ghost var k := K();
        if found {
          ForgetIsDrop(k, pid, name);
          DropHeld(pid, name);
        }
        ReadyToHandOver(k, pid, name, degree);
        var woken := HandOver(name);
        WakeUp(woken);
      }
      HandleInterrupt(pid, QUANTUM);
    }

    /** desalojar_proceso, and the end of a quantum */
    method Preempt(pid: nat)
      requires Queues(K())
      modifies this
      ensures K() == Interrupt(old(K()), pid, QUANTUM)
    {
      HandleInterrupt(pid, QUANTUM);
    }

    /** The IO requests of a process; `sent` when its interface is connected. */
    method RequestIo(pid: nat, sent: bool)
      requires Valid()
      modifies this
      ensures K() == Step(old(K()), Io(pid, sent))
    {
      var found := FindExec(pid);
      if !found {
        return;
      }
      if sent {
        io := io + {pid};
      }
      StillInQueues(old(K()), K());
      HandleInterrupt(pid, BLOQUEO);
    }

    /** kernel_io_adapter_atender_fin_operacion */
    method FinishIo(pid: nat)
      requires Valid()
      modifies this
      ensures K() == Step(old(K()), IoDone(pid))
    {
      io := io - {pid};
      var found := Search(colaBlocked, pid);
      assert colaBlocked == old(K()).Queue(BLOCK);
      if found {
        MoveTo(pid, READY);
        hayReady := hayReady + 1;
      } else {
        assert !old(K()).Is(pid, BLOCK);
      }
    }

    method ReleaseAndWakeUp(pid: nat)
      requires Waiters(K()) && K().Live(pid) && !K().InLine(pid)
      modifies this
      ensures K() == ReleaseAndWake(old(K()), pid)
    {
      ReleaseAllHandsOver(K(), pid);
      HandedOverWakeable(K(), ReleaseAll(K(), pid).0, ReleaseAll(K(), pid).1);
      var woken := ReleaseHeld(pid);
      WakeUp(woken);
    }

    /** manejar_fin_proceso */
    method FinishProcess(pid: nat)
      requires Valid()
      modifies this
      ensures K() == Step(old(K()), Finish(pid))
    {
      var found := FindExec(pid);
      if !found {
        return;
      }
      FinLeaves(K(), pid, degree);
      HandleInterrupt(pid, FIN);
      ReleaseAndWakeUp(pid);
    }

    /** The search of KILL: in NEW, READY, BLOCKED and EXEC, in this order. */
    method FindAnywhere(pid: nat) returns (found: bool, wasNew: bool)
      requires Valid()
      ensures found <==> Killable(K(), pid)
      ensures found ==> (wasNew <==> pcbs[pid].estado == NEW)
    {
      wasNew := Search(colaNew, pid);
      found := wasNew;
      if !found {
        found := Search(colaReady, pid);
      }
      if !found {
        found := Search(colaBlocked, pid);
      }
      if !found {
        found := Search(colaExec, pid);
      }
      FoundExact(K(), pid, degree);
    }

    /** planificacion_finalizar_proceso */
    method KillProcess(pid: nat, names: seq<string>)
      requires Valid() && Enumerates(names, resources)
      modifies this
      ensures K() == Step(old(K()), Kill(pid))
    {
      hide Inv, ReleaseAndWake, Move, LeaveQueues;
      var found, wasNew := FindAnywhere(pid);
      if !found {
        return;
      }
      if wasNew {
        MoveTo(pid, EXIT);
        return;
      }
      KillActive(pid, names);
    }

    /** The rest of it, for a process past NEW. */
    method KillActive(pid: nat, names: seq<string>)
      requires Valid() && Enumerates(names, resources) && KillsActive(K(), pid)
      modifies this
      ensures K() == Step(old(K()), Kill(pid))
    {
      hide Inv, ReleaseAndWake, Move, LeaveQueues, Step;
      KillStep(K(), pid, degree);
      MoveTo(pid, EXIT);
      LeaveLines(pid, names);
      ReleaseAndWakeUp(pid);
      mp := mp + 1;
    }

    /** ejecutar_proceso */
    method Arrival()
      modifies this
      ensures K() == Step(old(K()), Event.Arrive)
    {
      pcbs, colaNew := pcbs + [Pcb(NEW, [])], colaNew + [|pcbs|];
      hayNew := hayNew + 1;
    }

    /** planificador_largo_plazo: the wait for a process in NEW */
    method AwaitNew()
      requires 0 < hayNew && token == 0 && inflight == []
      modifies this
      ensures K() == Step(old(K()), Event.TakeToken)
    {
      hayNew := hayNew - 1;
      token := token + 1;
    }

    /** ... the wait for a slot, until it asks memory for the process */
    method AdmitNext()
      requires 0 < token && 0 < mp
      modifies this
      ensures K() == Step(old(K()), Event.Admit)
    {
      mp := mp - 1;
      token := token - 1;
      if colaNew == [] {
        mp := mp + 1;
        return;
      }
      inflight := [colaNew[0]];
      colaNew := colaNew[1..];
    }

    /** ... and from memory's answer on */
    method FinishAdmission(created: bool)
      requires Valid() && inflight != []
      modifies this
      ensures K() == Step(old(K()), Admitted(created))
    {
      var pid := inflight[0];
      assert pid in K().inflight;
      inflight := [];
      if !created {
        mp := mp + 1;
        pcbs := pcbs[pid := Destroyed];
        return;
      }
      PutIn(pid, READY);
      hayReady := hayReady + 1;
    }

    /** planificador_corto_plazo; the algorithm has picked the i-th process of READY. */
    method DispatchNext(i: nat)
      requires Valid() && 0 < hayReady && (colaReady != [] ==> i < |colaReady|)
      modifies this
      ensures K() == Step(old(K()), Dispatch(i))
    {
      hayReady := hayReady - 1;
      if colaReady == [] {
        return;
      }
      var pid := colaReady[i];
      assert pid in old(K()).Queue(READY);
      MoveTo(pid, EXEC);
    }

    /** One event. */
    method Execute(ev: Event, names: seq<string>)
      requires Valid() && Enabled(K(), ev) && Enumerates(names, resources)
      modifies this
      ensures K() == Step(old(K()), ev) && Valid() && Enumerates(names, resources)
    {
      StepKeeps(K(), ev, degree);
      StepNames(K(), ev, degree);
      match ev
      case Arrive => Arrival();
      case TakeToken => AwaitNew();
      case Admit => AdmitNext();
      case Admitted(created) => FinishAdmission(created);
      case Dispatch(i) => DispatchNext(i);
      case Quantum(pid) => Preempt(pid);
      case Preempt(pid) => Preempt(pid);
      case Wait(pid, name) => HandleWait(pid, name);
      case Signal(pid, name) => HandleSignal(pid, name);
      case Io(pid, sent) => RequestIo(pid, sent);
      case IoDone(pid) => FinishIo(pid);
      case Finish(pid) => FinishProcess(pid);
      case Segfault(pid) => HandleInterrupt(pid, FIN);
      case Kill(pid) => KillProcess(pid, names);
    }
  }

  lemma {:induction false} RemoveNameAt(s: seq<string>, x: string, i: nat)
    requires i <= |s| && x !in s[..i] && (i < |s| ==> s[i] == x)
    ensures RemoveName(s, x) == if i == |s| then s else s[..i] + s[i + 1..]
  {
    if 0 < i {
      assert s[1..][..i - 1] == s[..i][1..] && s[..i][0] == s[0];
      assert [s[0]] + s[1..] == s;
      assert i < |s| ==> [s[0]] + (s[1..i] + s[i + 1..]) == s[..i] + s[i + 1..];
      RemoveNameAt(s[1..], x, i - 1);
    }
  }

  lemma ForgetIsDrop(k: Kernel, pid: nat, name: string)
    requires k.Running(pid)
    ensures Forget(k, pid, name) == SetHeld(k, pid, RemoveName(k.pcbs[pid].held, name))
  {
    if name !in k.pcbs[pid].held {
      RemoveNameAt(k.pcbs[pid].held, name, |k.pcbs[pid].held|);
      assert k.pcbs[pid].(held := k.pcbs[pid].held) == k.pcbs[pid];
      assert k.pcbs[pid := k.pcbs[pid]] == k.pcbs;
    }
  }

  /** What a SIGNAL hands over may be woken, and leaves the queues in order. */
  lemma ReadyToHandOver(k: Kernel, pid: nat, name: string, degree: int)
    requires Inv(k, degree) && name in k.resources
    ensures var k0 := Forget(k, pid, name); var (k1, woken) := GiveBack(k0, name);
            && k0.resources == k.resources && Waiters(k0) && Distinct(woken) && Queues(WakeAll(k1, woken))
            && forall d :: d in woken ==> k1.Is(d, BLOCK)
  {
    hide Inv, WakeAll, Forget, GiveBack;
    var k0 := Forget(k, pid, name);
    ForgetKeeps(k, pid, name, degree);
    InvWaiters(k0, degree);
    hide Waiters, Queues, HandedOver;
    GiveBackHandsOver(k0, name);
    var (k1, woken) := GiveBack(k0, name);
    HandedOverWakeable(k0, k1, woken);
    GiveBackKeeps(k0, name, degree);
    InvWaiters(WakeAll(k1, woken), degree);
  }

  /** The same processes in the same queues. */
  lemma StillInQueues(k: Kernel, k': Kernel)
    requires Queues(k) && k'.inflight == k.inflight && (forall e: Estado :: k'.Queue(e) == k.Queue(e))
    requires forall p: nat, e: Estado :: k'.Is(p, e) <==> k.Is(p, e)
    ensures Queues(k')
  {
    hide Kernel.Queue;
    forall p: nat | k'.Live(p)
      ensures p in k'.Queue(k'.pcbs[p].estado) <==> p !in k'.inflight
    {
      IsState(k', p);
      IsState(k, p);
      assert k.Is(p, k'.pcbs[p].estado);
    }
    forall e: Estado
      ensures Distinct(k'.Queue(e))
    {
      assert Distinct(k.Queue(e));
    }
  }

  /** KILL's four searches find the process exactly when it can be killed. */
  lemma FoundExact(k: Kernel, pid: nat, degree: int)
    requires Inv(k, degree)
    ensures Killable(k, pid) <==> pid in k.colaNew || pid in k.colaReady || pid in k.colaBlocked || pid in k.colaExec
    ensures Killable(k, pid) ==> (pid in k.colaNew <==> k.pcbs[pid].estado == NEW)
  {
    assert k.Queue(NEW) == k.colaNew && k.Queue(READY) == k.colaReady;
    assert k.Queue(BLOCK) == k.colaBlocked && k.Queue(EXEC) == k.colaExec;
    hide Kernel.Queue;
    assert forall e: Estado :: pid in k.Queue(e) ==> k.Is(pid, e);
  }

  /** The stages of a KILL past NEW. */
  lemma KillStep(k: Kernel, pid: nat, degree: int)
    requires Inv(k, degree) && KillsActive(k, pid)
    ensures k.Live(pid) && Move(k, pid, EXIT).resources == k.resources
    ensures var k1 := LeaveQueues(Move(k, pid, EXIT), pid);
            && Waiters(k1) && k1.Live(pid) && !k1.InLine(pid)
            && Step(k, Kill(pid)) == ReleaseAndWake(k1, pid).(mp := ReleaseAndWake(k1, pid).mp + 1)
  {
    hide Inv, ReleaseAndWake, Move, LeaveQueues;
    KillLeaves(k, pid, degree);
    InvWaiters(LeaveQueues(Move(k, pid, EXIT), pid), degree - 1);
    MoveExact(k, pid, EXIT);
  }
}
