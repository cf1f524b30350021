// The kernel's global state and the effect of each of its handlers, taken as one atomic step.
module KernelState {
  import opened Snapshot

  /** A process control block; pids are positions, given out in order of creation. */
  datatype Pcb = Pcb(estado: Estado, held: seq<string>) | Destroyed

  datatype Motivo = QUANTUM | BLOQUEO | FIN

  /** `token` is 1 while the long-term scheduler has passed sem_hay_new and waits for a slot; `inflight` is the
      process the long-term scheduler has taken from NEW and not yet put in READY;
      `io` the processes with an IO request whose end has not been reported. */
  datatype Kernel = Kernel(pcbs: seq<Pcb>, colaNew: seq<nat>, colaReady: seq<nat>, colaExec: seq<nat>,
                           colaBlocked: seq<nat>, colaExit: seq<nat>, inflight: seq<nat>,
                           resources: map<string, Resource>, mp: int, hayReady: nat, hayNew: nat, token: nat,
                           io: set<nat>)
  {
    function Queue(e: Estado): seq<nat> {
      match e
      case NEW => colaNew
      case READY => colaReady
      case EXEC => colaExec
      case BLOCK => colaBlocked
      case EXIT => colaExit
    }

    function WithQueue(e: Estado, q: seq<nat>): Kernel {
      match e
      case NEW => this.(colaNew := q)
      case READY => this.(colaReady := q)
      case EXEC => this.(colaExec := q)
      case BLOCK => this.(colaBlocked := q)
      case EXIT => this.(colaExit := q)
    }

    predicate Live(pid: nat) {
      pid < |pcbs| && pcbs[pid].Pcb?
    }

    predicate Is(pid: nat, e: Estado) {
      Live(pid) && pcbs[pid].estado == e
    }

    function HeldOf(pid: nat): seq<string> {
      if Live(pid) then pcbs[pid].held else []
    }

    /** Executing, and found in its queue: what most handlers look for first. */
    predicate Running(pid: nat) {
      pid in colaExec && Is(pid, EXEC)
    }

    predicate OnLine(name: string, pid: nat) {
      name in resources && pid in resources[name].waiting
    }

    /** Waiting for some resource. */
    ghost predicate InLine(pid: nat) {
      exists name :: OnLine(name, pid)
    }
  }

  /** First occurrence removed. */
  function Remove(q: seq<nat>, pid: nat): seq<nat> {
    if q == [] then [] else if q[0] == pid then q[1..] else [q[0]] + Remove(q[1..], pid)
  }

  function RemoveName(s: seq<string>, x: string): seq<string> {
    if s == [] then [] else if s[0] == x then s[1..] else [s[0]] + RemoveName(s[1..], x)
  }

  // ---- moving processes between queues ----

  /** Takes pid out of its queue and appends it to that of state e. */
  function Move(k: Kernel, pid: nat, e: Estado): Kernel
    requires k.Live(pid)
  {
    var out := k.WithQueue(k.pcbs[pid].estado, Remove(k.Queue(k.pcbs[pid].estado), pid));
    out.WithQueue(e, out.Queue(e) + [pid]).(pcbs := k.pcbs[pid := k.pcbs[pid].(estado := e)])
  }

  function Wake(k: Kernel, pid: nat): Kernel
    requires k.Live(pid)
  {
    Move(k, pid, READY).(hayReady := k.hayReady + 1)
  }

  /** manejar_interrupcion */
  function Interrupt(k: Kernel, pid: nat, motivo: Motivo): Kernel {
    if !k.Running(pid) then k
    else match motivo
         case QUANTUM => Wake(k, pid)
         case BLOQUEO => Move(k, pid, BLOCK)
         case FIN => Move(k, pid, EXIT).(mp := k.mp + 1)
  }

  // ---- resources ----

  function SetResource(k: Kernel, name: string, r: Resource): Kernel {
    k.(resources := k.resources[name := r])
  }

  function SetHeld(k: Kernel, pid: nat, held: seq<string>): Kernel
    requires k.Live(pid)
  {
    k.(pcbs := k.pcbs[pid := k.pcbs[pid].(held := held)])
  }

  /** An instance comes back: to the first waiter if there is one, else to the pool. */
  function GiveBack(k: Kernel, name: string): (r: (Kernel, seq<nat>))
    requires name in k.resources
  {
    var res := k.resources[name];
    if res.waiting == [] then (SetResource(k, name, res.(instances := res.instances + 1)), [])
    else
      var d := res.waiting[0];
      var k1 := SetResource(k, name, res.(waiting := res.waiting[1..]));
      (if k1.Live(d) then SetHeld(k1, d, k1.pcbs[d].held + [name]) else k1, [d])
  }

  /** manejar_wait_recurso */
  function WaitFor(k: Kernel, pid: nat, name: string): Kernel {
    if !k.Running(pid) then k
    else if name !in k.resources then Interrupt(k, pid, QUANTUM)
    else
      var res := k.resources[name];
      if res.instances > 0
      then Interrupt(SetHeld(SetResource(k, name, res.(instances := res.instances - 1)), pid,
           k.pcbs[pid].held + [name]), pid, QUANTUM)
      else Interrupt(SetResource(k, name, res.(waiting := res.waiting + [pid])), pid, BLOQUEO)
  }

  /** Moves each process of the list from BLOCKED to READY. */
  function WakeAll(k: Kernel, woken: seq<nat>): Kernel
    decreases |woken|
  {
    if woken == [] then k
    else WakeAll(if k.Is(woken[0], BLOCK) then Wake(k, woken[0]) else k, woken[1..])
  }

  /** The signaller loses one entry for the resource; one that is not executing any more, or holds none,
      still gives an instance. */
  function Forget(k: Kernel, pid: nat, name: string): Kernel {
    if k.Running(pid) && name in k.pcbs[pid].held then SetHeld(k, pid, RemoveName(k.pcbs[pid].held, name))
    else k
  }

  /** manejar_signal_recurso */
  function SignalBy(k: Kernel, pid: nat, name: string): Kernel {
    if name !in k.resources then Interrupt(k, pid, QUANTUM)
    else
      var (k1, woken) := GiveBack(Forget(k, pid, name), name);
      Interrupt(WakeAll(k1, woken), pid, QUANTUM)
  }

  /** recursos_liberar_adquiridos: gives back everything pid holds, and lists the waiters it went to. */
  function ReleaseAll(k: Kernel, pid: nat): (r: (Kernel, seq<nat>))
    requires k.Live(pid)
    decreases |k.HeldOf(pid)|, 0
  {
    var held := k.pcbs[pid].held;
    if held == [] then (k, [])
    else
      var k1 := SetHeld(k, pid, held[1..]);
      if held[0] !in k1.resources || pid in k1.resources[held[0]].waiting then ReleaseAll(k1, pid)
      else
        var (k2, woken) := GiveBack(k1, held[0]);
        var (k3, more) := ReleaseAll(k2, pid);
        (k3, woken + more)
  }

  function ReleaseAndWake(k: Kernel, pid: nat): Kernel
    requires k.Live(pid)
  {
    var (k1, woken) := ReleaseAll(k, pid);
    WakeAll(k1, woken)
  }

  /** recursos_liberar_proceso: pid leaves every resource queue. */
  function LeaveQueues(k: Kernel, pid: nat): Kernel {
    k.(resources := map name | name in k.resources ::
         k.resources[name].(waiting := Remove(k.resources[name].waiting, pid)))
  }

  // ---- events ----

  datatype Event =
    | Arrive                          // a process is created (RUN)
    | TakeToken                       // the long-term scheduler passes sem_hay_new
    | Admit                           // ... passes sem_mp and takes a process from NEW
    | Admitted(created: bool)         // ... and memory answers
    | Dispatch(i: nat)                // the short-term scheduler takes the i-th process of READY
    | Quantum(pid: nat)               // end of quantum
    | Preempt(pid: nat)               // DESALOJAR
    | Wait(pid: nat, name: string)
    | Signal(pid: nat, name: string)
    | Io(pid: nat, sent: bool)        // the process asks for IO; `sent` when the interface exists
    | IoDone(pid: nat)
    | Finish(pid: nat)                // EXIT
    | Segfault(pid: nat)
    | Kill(pid: nat)

  /** What must be true for the event to happen: semaphores that are waited for are positive, the algorithm
      picks a process that is in READY, an IO ends only once. */
  predicate Enabled(k: Kernel, ev: Event) {
    match ev
    case TakeToken => 0 < k.hayNew && k.token == 0 && k.inflight == []
    case Admit => 0 < k.token && 0 < k.mp
    case Admitted(_) => k.inflight != []
    case Dispatch(i) => 0 < k.hayReady && (k.colaReady != [] ==> i < |k.colaReady|)
    case IoDone(pid) => pid in k.io
    case _ => true
  }

  /** Whether KILL finds the process in NEW, READY, EXEC or BLOCKED. */
  predicate Killable(k: Kernel, pid: nat) {
    k.Live(pid) && pid in k.Queue(k.pcbs[pid].estado) && k.pcbs[pid].estado != EXIT
  }

  function Step(k: Kernel, ev: Event): Kernel {
    match ev
    case Arrive =>
      k.(pcbs := k.pcbs + [Pcb(NEW, [])], colaNew := k.colaNew + [|k.pcbs|], hayNew := k.hayNew + 1)
    case TakeToken => if k.hayNew == 0 then k else k.(hayNew := k.hayNew - 1, token := k.token + 1)
    case Admit =>
      if k.token == 0 then k
      else if k.colaNew == [] then k.(token := k.token - 1)
      else k.(token := k.token - 1, mp := k.mp - 1, colaNew := k.colaNew[1..], inflight := [k.colaNew[0]])
    case Admitted(created) =>
      if k.inflight == [] || !k.Live(k.inflight[0]) then k
      else
        var pid := k.inflight[0];
        if created
        then k.(inflight := [], colaReady := k.colaReady + [pid], hayReady := k.hayReady + 1,
                pcbs := k.pcbs[pid := k.pcbs[pid].(estado := READY)])
        else k.(inflight := [], mp := k.mp + 1, pcbs := k.pcbs[pid := Destroyed])
    case Dispatch(i) =>
      if k.hayReady == 0 then k
      else if i >= |k.colaReady| || !k.Is(k.colaReady[i], READY) then k.(hayReady := k.hayReady - 1)
      else Move(k, k.colaReady[i], EXEC).(hayReady := k.hayReady - 1)
    case Quantum(pid) => Interrupt(k, pid, QUANTUM)
    case Preempt(pid) => Interrupt(k, pid, QUANTUM)
    case Wait(pid, name) => WaitFor(k, pid, name)
    case Signal(pid, name) => SignalBy(k, pid, name)
    case Io(pid, sent) =>
      if k.Running(pid)
      then Interrupt(k, pid, BLOQUEO).(io := if sent then k.io + {pid} else k.io)
      else k
    case IoDone(pid) =>
      var k1 := k.(io := k.io - {pid});
      if k.Is(pid, BLOCK) then Wake(k1, pid) else k1
    case Finish(pid) =>
      if k.Running(pid) then ReleaseAndWake(Interrupt(k, pid, FIN), pid) else k
    case Segfault(pid) => Interrupt(k, pid, FIN)
    case Kill(pid) =>
      if !Killable(k, pid) then k
      else if k.pcbs[pid].estado == NEW then Move(k, pid, EXIT)
      else
        var k1 := ReleaseAndWake(LeaveQueues(Move(k, pid, EXIT), pid), pid);
        k1.(mp := k1.mp + 1)
  }
}
