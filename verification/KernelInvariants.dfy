// What every handler of the kernel keeps: the queues, the multiprogramming slots and the lines of waiters.
module KernelInvariants {
  import opened Snapshot
  import opened KernelState

  /** Every live process is in exactly one queue, once, and it is the one of its state; only a process being
      admitted is in none. */
  ghost predicate Queues(k: Kernel) {
    && (forall e: Estado, pid: nat :: pid in k.Queue(e) ==> k.Is(pid, e))
    && (forall e: Estado :: Distinct(k.Queue(e)))
    && (forall pid: nat :: k.Live(pid) ==> (pid in k.Queue(k.pcbs[pid].estado) <==> pid !in k.inflight))
    && |k.inflight| <= 1 && (forall pid: nat :: pid in k.inflight ==> k.Is(pid, NEW))
  }

  /** Slots of the multiprogramming degree are free or taken, and no READY or NEW process goes unnoticed: the
      semaphore of NEW, with the token the scheduler has taken from it, covers the queue. */
  ghost predicate Slots(k: Kernel, degree: int) {
    && 0 <= k.mp
    && k.mp + |k.colaReady| + |k.colaExec| + |k.colaBlocked| + |k.inflight| == degree
    && |k.colaReady| <= k.hayReady && |k.colaNew| <= k.hayNew + k.token
    && k.token <= 1 && (0 < k.token ==> k.inflight == [])
  }

  /** Nobody waits for a free instance; every waiter is BLOCKED, waits for one resource, and not for an IO. */
  ghost predicate Waiters(k: Kernel) {
    && (forall n :: n in k.resources ==> 0 <= k.resources[n].instances)
    && (forall n :: n in k.resources && 0 < k.resources[n].instances ==> k.resources[n].waiting == [])
    && (forall n :: n in k.resources ==> Distinct(k.resources[n].waiting))
    && (forall n, pid: nat :: k.OnLine(n, pid) ==> k.Is(pid, BLOCK) && pid !in k.io)
    && (forall a, b, pid: nat :: k.OnLine(a, pid) && k.OnLine(b, pid) ==> a == b)
    && (forall pid: nat :: pid in k.io ==> k.Is(pid, BLOCK) || k.Is(pid, EXIT))
  }

  ghost predicate Inv(k: Kernel, degree: int) {
    Queues(k) && Slots(k, degree) && Waiters(k)
  }

  // ---- lists ----

  lemma {:induction false} RemoveExact(q: seq<nat>, pid: nat)
    requires Distinct(q)
    ensures Distinct(Remove(q, pid))
    ensures forall x: nat :: x in Remove(q, pid) <==> x in q && x != pid
    ensures |Remove(q, pid)| == if pid in q then |q| - 1 else |q|
  {
    if q != [] {
      var t := q[1..];
      assert forall x: nat :: x in q <==> x == q[0] || x in t;
      assert forall i: nat :: i < |t| ==> t[i] == q[i + 1] && t[i] != q[0];
      RemoveExact(t, pid);
      var r := Remove(t, pid);
      assert forall i: nat :: i < |r| ==> r[i] in r;
      assert forall i: nat :: 0 < i < |r| + 1 ==> ([q[0]] + r)[i] == r[i - 1];
    }
  }

  lemma {:induction false} RemoveAt(q: seq<nat>, pid: nat, i: nat)
    requires i <= |q| && pid !in q[..i] && (i < |q| ==> q[i] == pid)
    ensures Remove(q, pid) == if i == |q| then q else q[..i] + q[i + 1..]
  {
    if 0 < i {
      assert q[1..][..i - 1] == q[..i][1..] && q[..i][0] == q[0];
      assert [q[0]] + q[1..] == q;
      assert i < |q| ==> [q[0]] + (q[1..i] + q[i + 1..]) == q[..i] + q[i + 1..];
      RemoveAt(q[1..], pid, i - 1);
    }
  }

  // ---- moving a process ----

  lemma MoveExact(k: Kernel, pid: nat, e: Estado)
    requires k.Live(pid) && k.pcbs[pid].estado != e
    ensures var k' := Move(k, pid, e);
            && k'.Queue(e) == k.Queue(e) + [pid]
            && k'.Queue(k.pcbs[pid].estado) == Remove(k.Queue(k.pcbs[pid].estado), pid)
            && (forall f: Estado :: f != e && f != k.pcbs[pid].estado ==> k'.Queue(f) == k.Queue(f))
            && k'.pcbs == k.pcbs[pid := k.pcbs[pid].(estado := e)]
            && k'.resources == k.resources && k'.mp == k.mp && k'.hayReady == k.hayReady && k'.hayNew == k.hayNew
            && k'.token == k.token && k'.io == k.io && k'.inflight == k.inflight
  {
  }

  lemma MoveKeepsQueues(k: Kernel, pid: nat, e: Estado)
    requires Queues(k) && k.Live(pid) && pid !in k.inflight && k.pcbs[pid].estado != e
    ensures Queues(Move(k, pid, e))
    ensures |Move(k, pid, e).Queue(e)| == |k.Queue(e)| + 1
    ensures |Move(k, pid, e).Queue(k.pcbs[pid].estado)| == |k.Queue(k.pcbs[pid].estado)| - 1
  {
    hide Move, Kernel.Queue;
    MoveExact(k, pid, e);
    var k', from := Move(k, pid, e), k.pcbs[pid].estado;
    RemoveExact(k.Queue(from), pid);
    assert pid in k.Queue(from) && pid !in k.Queue(e);
    forall f: Estado
      ensures Distinct(k'.Queue(f))
      ensures forall p: nat :: p in k'.Queue(f) ==> k'.Is(p, f)
    {
      assert Distinct(k.Queue(f));
    }
    forall p: nat | k'.Live(p)
      ensures p in k'.Queue(k'.pcbs[p].estado) <==> p !in k'.inflight
    {
      assert k.Live(p);
    }
  }

  /** A process that is in no line may go anywhere; one with an IO pending only to EXIT. */
  lemma MoveKeepsWaiters(k: Kernel, pid: nat, e: Estado)
    requires Waiters(k) && k.Live(pid) && k.pcbs[pid].estado != e
    requires !k.InLine(pid) && (pid in k.io ==> e == EXIT)
    ensures Waiters(Move(k, pid, e))
  {
    hide Move;
    MoveExact(k, pid, e);
    var k' := Move(k, pid, e);
    forall n, p: nat
      ensures k'.OnLine(n, p) <==> k.OnLine(n, p)
      ensures k.OnLine(n, p) ==> p != pid && k'.Is(p, BLOCK)
    {
    }
    assert forall p: nat :: p in k'.io ==> k.Is(p, BLOCK) || k.Is(p, EXIT);
  }

  /** Where a process stands decides whether it takes a slot. */
  function Takes(e: Estado): int {
    if e == READY || e == EXEC || e == BLOCK then 1 else 0
  }

  lemma MoveKeepsSlots(k: Kernel, pid: nat, e: Estado, degree: int)
    requires Queues(k) && Slots(k, degree) && k.Live(pid) && pid !in k.inflight && k.pcbs[pid].estado != e && e != NEW
    ensures e != READY ==> Slots(Move(k, pid, e), degree + Takes(e) - Takes(k.pcbs[pid].estado))
    ensures e == READY ==> Slots(Wake(k, pid), degree + Takes(e) - Takes(k.pcbs[pid].estado))
  {
    hide Move;
    MoveExact(k, pid, e);
    MoveKeepsQueues(k, pid, e);
    var k' := Move(k, pid, e);
    assert k.Queue(READY) == k.colaReady && k.Queue(EXEC) == k.colaExec && k.Queue(BLOCK) == k.colaBlocked;
    assert k'.Queue(READY) == k'.colaReady && k'.Queue(EXEC) == k'.colaExec && k'.Queue(BLOCK) == k'.colaBlocked;
    assert k'.Queue(NEW) == k'.colaNew && k.Queue(NEW) == k.colaNew;
  }

  // ---- handing resources over ----

  /** Only the resources and what processes hold may differ. */
  ghost predicate SameQueues(k: Kernel, k': Kernel) {
    && (forall e: Estado :: k'.Queue(e) == k.Queue(e))
    && k'.inflight == k.inflight && k'.mp == k.mp && k'.hayReady == k.hayReady && k'.hayNew == k.hayNew
    && k'.token == k.token && k'.io == k.io
    && |k'.pcbs| == |k.pcbs| && k'.resources.Keys == k.resources.Keys
    && (forall p: nat, e: Estado :: k'.Is(p, e) <==> k.Is(p, e))
  }

  lemma IsState(k: Kernel, p: nat)
    ensures k.Live(p) <==> exists e: Estado :: k.Is(p, e)
  {
    if k.Live(p) {
      assert k.Is(p, k.pcbs[p].estado);
    }
  }

  lemma SameQueuesKeep(k: Kernel, k': Kernel, degree: int)
    requires SameQueues(k, k') && Queues(k) && Slots(k, degree)
    ensures Queues(k') && Slots(k', degree)
  {
    assert k.Queue(READY) == k.colaReady && k.Queue(EXEC) == k.colaExec && k.Queue(BLOCK) == k.colaBlocked;
    assert k'.Queue(READY) == k'.colaReady && k'.Queue(EXEC) == k'.colaExec && k'.Queue(BLOCK) == k'.colaBlocked;
    assert k'.Queue(NEW) == k'.colaNew && k.Queue(NEW) == k.colaNew;
    hide Kernel.Queue;
    forall p: nat | k'.Live(p)
      ensures p in k'.Queue(k'.pcbs[p].estado) <==> p !in k'.inflight
    {
      IsState(k', p);
      IsState(k, p);
      assert k.Is(p, k'.pcbs[p].estado);
    }
    forall e: Estado
      ensures Distinct(k'.Queue(e))
    {
      assert Distinct(k.Queue(e));
    }
  }

  /** Resources changed hands: the processes in `woken` left their lines and everything else stayed. */
  ghost predicate HandedOver(k: Kernel, k': Kernel, woken: seq<nat>) {
    && SameQueues(k, k') && Waiters(k') && Distinct(woken)
    && (forall p: nat :: p in woken ==> k.InLine(p))
    && (forall n, p: nat :: k'.OnLine(n, p) <==> k.OnLine(n, p) && p !in woken)
  }

  lemma HandedOverTwice(a: Kernel, b: Kernel, c: Kernel, first: seq<nat>, second: seq<nat>)
    requires HandedOver(a, b, first) && HandedOver(b, c, second)
    ensures HandedOver(a, c, first + second)
  {
    hide Waiters;
    assert SameQueues(a, c);
    forall p: nat | p in second
      ensures a.InLine(p) && p !in first
    {
      var n :| b.OnLine(n, p);
      assert a.OnLine(n, p);
    }
    forall i: nat, j: nat | i < j < |first + second|
      ensures (first + second)[i] != (first + second)[j]
    {
      if i < |first| <= j {
        assert (first + second)[j] == second[j - |first|] && second[j - |first|] in second;
      }
    }
  }

  lemma SetHeldHandsOver(k: Kernel, pid: nat, held: seq<string>)
    requires k.Live(pid) && Waiters(k)
    ensures HandedOver(k, SetHeld(k, pid, held), [])
  {
    var k' := SetHeld(k, pid, held);
    assert forall n, p: nat :: k'.OnLine(n, p) <==> k.OnLine(n, p);
    assert forall p: nat, e: Estado :: k'.Is(p, e) <==> k.Is(p, e);
  }

  lemma GiveBackHandsOver(k: Kernel, name: string)
    requires Waiters(k) && name in k.resources
    ensures HandedOver(k, GiveBack(k, name).0, GiveBack(k, name).1)
  {
    var (k', woken) := GiveBack(k, name);
    var w := k.resources[name].waiting;
    if w != [] {
      assert k.OnLine(name, w[0]);
      assert k'.resources[name].waiting == w[1..];
      assert forall p: nat :: p in w <==> p == w[0] || p in w[1..];
      assert w[0] !in w[1..];
      forall n, p: nat
        ensures k'.OnLine(n, p) <==> k.OnLine(n, p) && p != w[0]
      {
        assert k.OnLine(n, w[0]) ==> n == name;
      }
    } else {
      assert forall n, p: nat :: k'.OnLine(n, p) <==> k.OnLine(n, p);
    }
    assert forall p: nat, e: Estado :: k'.Is(p, e) <==> k.Is(p, e);
  }

  lemma {:induction false} ReleaseAllHandsOver(k: Kernel, pid: nat)
    requires Waiters(k) && k.Live(pid) && !k.InLine(pid)
    ensures HandedOver(k, ReleaseAll(k, pid).0, ReleaseAll(k, pid).1)
    decreases |k.HeldOf(pid)|
  {
    var held := k.pcbs[pid].held;
    SetHeldHandsOver(k, pid, held);
    if held == [] {
      assert SetHeld(k, pid, held) == k;
    } else {
      var k1 := SetHeld(k, pid, held[1..]);
      SetHeldHandsOver(k, pid, held[1..]);
      assert forall n :: !k1.OnLine(n, pid);
      hide Waiters, SameQueues;
      if held[0] !in k1.resources {
        ReleaseAllHandsOver(k1, pid);
        HandedOverTwice(k, k1, ReleaseAll(k1, pid).0, [], ReleaseAll(k1, pid).1);
        assert [] + ReleaseAll(k1, pid).1 == ReleaseAll(k1, pid).1;
      } else {
        GiveBackHandsOver(k1, held[0]);
        var (k2, woken) := GiveBack(k1, held[0]);
        assert forall n :: !k2.OnLine(n, pid);
        HandedOverTwice(k, k1, k2, [], woken);
        assert [] + woken == woken;
        HeldSmaller(k1, held[0], pid);
        StillLive(k, k2, pid);
        ReleaseAllHandsOver(k2, pid);
        var (k3, more) := ReleaseAll(k2, pid);
        HandedOverTwice(k, k2, k3, woken, more);
      }
    }
  }

  lemma StillLive(k: Kernel, k': Kernel, pid: nat)
    requires SameQueues(k, k')
    ensures k'.Live(pid) == k.Live(pid)
  {
    IsState(k, pid);
    IsState(k', pid);
  }

  /** Giving back does not change what a process that is not in line holds. */
  lemma HeldSmaller(k: Kernel, name: string, pid: nat)
    requires name in k.resources && !k.OnLine(name, pid)
    ensures GiveBack(k, name).0.HeldOf(pid) == k.HeldOf(pid)
  {
  }

  /** The processes to be woken: BLOCKED, in no line, with no IO pending. */
  ghost predicate Wakeable(k: Kernel, woken: seq<nat>) {
    Distinct(woken) && forall d :: d in woken ==> k.Is(d, BLOCK) && d !in k.io && !k.InLine(d)
  }

  lemma HandedOverWakeable(k: Kernel, k': Kernel, woken: seq<nat>)
    requires Waiters(k) && HandedOver(k, k', woken)
    ensures Wakeable(k', woken)
  {
    forall d | d in woken
      ensures k'.Is(d, BLOCK) && d !in k'.io && !k'.InLine(d)
    {
      var n :| k.OnLine(n, d);
      assert forall m :: !k'.OnLine(m, d);
    }
  }

  lemma WakeKeeps(k: Kernel, pid: nat, degree: int)
    requires Inv(k, degree) && !k.InLine(pid) && pid !in k.io && (k.Is(pid, BLOCK) || k.Is(pid, EXEC))
    ensures Inv(Wake(k, pid), degree)
    ensures Wake(k, pid).pcbs == k.pcbs[pid := k.pcbs[pid].(estado := READY)]
    ensures Wake(k, pid).resources == k.resources && Wake(k, pid).io == k.io
  {
    hide Move;
    MoveKeepsQueues(k, pid, READY);
    MoveKeepsWaiters(k, pid, READY);
    MoveKeepsSlots(k, pid, READY, degree);
    MoveExact(k, pid, READY);
    SameWaiters(Move(k, pid, READY), Wake(k, pid));
    SameInQueues(Move(k, pid, READY), Wake(k, pid));
  }

  lemma SameWaiters(k: Kernel, k': Kernel)
    requires k'.resources == k.resources && k'.pcbs == k.pcbs && k'.io <= k.io && Waiters(k)
    ensures Waiters(k')
  {
    assert forall n, p: nat :: k'.OnLine(n, p) <==> k.OnLine(n, p);
  }

  lemma SameInQueues(k: Kernel, k': Kernel)
    requires (forall e: Estado :: k'.Queue(e) == k.Queue(e)) && k'.pcbs == k.pcbs && k'.inflight == k.inflight
             && Queues(k)
    ensures Queues(k')
  {
    hide Kernel.Queue;
    forall e: Estado
      ensures Distinct(k'.Queue(e))
    {
      assert Distinct(k.Queue(e));
    }
    forall p: nat | k'.Live(p)
      ensures p in k'.Queue(k'.pcbs[p].estado) <==> p !in k'.inflight
    {
      assert k.Live(p);
    }
  }

  lemma {:induction false} WakeAllKeeps(k: Kernel, woken: seq<nat>, degree: int)
    requires Inv(k, degree) && Wakeable(k, woken)
    ensures Inv(WakeAll(k, woken), degree)
    ensures WakeAll(k, woken).resources == k.resources
    ensures |WakeAll(k, woken).pcbs| == |k.pcbs|
    ensures forall p: nat :: p < |k.pcbs| ==>
      WakeAll(k, woken).pcbs[p] == if p in woken && k.Live(p) then k.pcbs[p].(estado := READY) else k.pcbs[p]
    decreases |woken|
  {
    if woken != [] {
      hide Inv, Wake;
      WakeKeeps(k, woken[0], degree);
      var k' := Wake(k, woken[0]);
      assert forall i: nat :: i < |woken[1..]| ==> woken[1..][i] == woken[i + 1];
      assert forall p: nat :: p in woken <==> p == woken[0] || p in woken[1..];
      forall d | d in woken[1..]
        ensures k'.Is(d, BLOCK) && d !in k'.io && !k'.InLine(d)
      {
        assert k.Is(d, BLOCK) && !k.InLine(d);
        assert forall n :: k'.OnLine(n, d) <==> k.OnLine(n, d);
      }
      WakeAllKeeps(k', woken[1..], degree);
    }
  }

  // ---- the handlers ----

  lemma FreeSlot(k: Kernel, degree: int)
    requires Inv(k, degree - 1)
    ensures Inv(k.(mp := k.mp + 1), degree)
  {
    SameWaiters(k, k.(mp := k.mp + 1));
    SameInQueues(k, k.(mp := k.mp + 1));
  }

  lemma RunningFree(k: Kernel, pid: nat, degree: int)
    requires Inv(k, degree) && k.Running(pid)
    ensures !k.InLine(pid) && pid !in k.io && pid !in k.inflight
  {
    assert forall n :: !k.OnLine(n, pid);
  }

  lemma MoveKeeps(k: Kernel, pid: nat, e: Estado, degree: int)
    requires Inv(k, degree) && k.Live(pid) && !k.InLine(pid) && (pid in k.io ==> e == EXIT)
    requires pid !in k.inflight && k.pcbs[pid].estado != e && e != NEW && e != READY
    ensures Inv(Move(k, pid, e), degree + Takes(e) - Takes(k.pcbs[pid].estado))
  {
    MoveKeepsQueues(k, pid, e);
    MoveKeepsWaiters(k, pid, e);
    MoveKeepsSlots(k, pid, e, degree);
  }

  lemma MoveToExit(k: Kernel, pid: nat, degree: int)
    requires Inv(k, degree) && !k.InLine(pid) && pid !in k.inflight && k.Live(pid)
    requires k.pcbs[pid].estado != EXIT && k.pcbs[pid].estado != NEW
    ensures Inv(Move(k, pid, EXIT), degree - 1)
    ensures Move(k, pid, EXIT).Live(pid) && !Move(k, pid, EXIT).InLine(pid)
  {
    MoveKeeps(k, pid, EXIT, degree);
    MoveExact(k, pid, EXIT);
    var k' := Move(k, pid, EXIT);
    hide Move;
    assert forall n :: k'.OnLine(n, pid) <==> k.OnLine(n, pid);
  }

  lemma FinKeeps(k: Kernel, pid: nat, degree: int)
    requires Inv(k, degree) && k.Running(pid)
    ensures Inv(Interrupt(k, pid, FIN), degree)
  {
    hide Inv;
    RunningFree(k, pid, degree);
    MoveToExit(k, pid, degree);
    MoveExact(k, pid, EXIT);
    hide Move;
    FreeSlot(Move(k, pid, EXIT), degree);
  }

  lemma InterruptKeeps(k: Kernel, pid: nat, motivo: Motivo, degree: int)
    requires Inv(k, degree)
    ensures Inv(Interrupt(k, pid, motivo), degree)
  {
    hide Inv, Wake, Move;
    if k.Running(pid) {
      RunningFree(k, pid, degree);
      if motivo == QUANTUM {
        WakeKeeps(k, pid, degree);
      } else if motivo == BLOQUEO {
        MoveKeeps(k, pid, BLOCK, degree);
      } else {
        FinKeeps(k, pid, degree);
      }
    }
  }

  lemma HandedOverKeeps(k: Kernel, k': Kernel, woken: seq<nat>, degree: int)
    requires Inv(k, degree) && HandedOver(k, k', woken)
    ensures Inv(WakeAll(k', woken), degree)
  {
    SameQueuesKeep(k, k', degree);
    HandedOverWakeable(k, k', woken);
    WakeAllKeeps(k', woken, degree);
  }

  lemma ReleaseKeeps(k: Kernel, pid: nat, degree: int)
    requires Inv(k, degree) && k.Live(pid) && !k.InLine(pid)
    ensures Inv(ReleaseAndWake(k, pid), degree)
  {
    ReleaseAllHandsOver(k, pid);
    HandedOverKeeps(k, ReleaseAll(k, pid).0, ReleaseAll(k, pid).1, degree);
  }

  /** Taking a free instance, or joining the line when there is none. */
  lemma TakeInstance(k: Kernel, name: string, degree: int)
    requires Inv(k, degree) && name in k.resources && 0 < k.resources[name].instances
    ensures Inv(SetResource(k, name, k.resources[name].(instances := k.resources[name].instances - 1)), degree)
  {
    var k' := SetResource(k, name, k.resources[name].(instances := k.resources[name].instances - 1));
    assert forall n, p: nat :: k'.OnLine(n, p) <==> k.OnLine(n, p);
    SameInQueues(k, k');
  }

  lemma JoinLine(k: Kernel, name: string, pid: nat, degree: int)
    requires Inv(k, degree) && name in k.resources && k.resources[name].instances <= 0
    requires k.Is(pid, BLOCK) && pid !in k.io && !k.InLine(pid)
    ensures Inv(SetResource(k, name, k.resources[name].(waiting := k.resources[name].waiting + [pid])), degree)
  {
    var k' := SetResource(k, name, k.resources[name].(waiting := k.resources[name].waiting + [pid]));
    assert !k.OnLine(name, pid);
    assert forall n, p: nat :: k'.OnLine(n, p) <==> k.OnLine(n, p) || (n == name && p == pid);
    assert forall n :: !k.OnLine(n, pid);
    SameInQueues(k, k');
  }

  lemma WaitKeeps(k: Kernel, pid: nat, name: string, degree: int)
    requires Inv(k, degree)
    ensures Inv(WaitFor(k, pid, name), degree)
  {
    if !k.Running(pid) {
    } else if name !in k.resources {
      InterruptKeeps(k, pid, QUANTUM, degree);
    } else if k.resources[name].instances > 0 {
      var k1 := SetResource(k, name, k.resources[name].(instances := k.resources[name].instances - 1));
      TakeInstance(k, name, degree);
      SetHeldHandsOver(k1, pid, k.pcbs[pid].held + [name]);
      SameQueuesKeep(k1, SetHeld(k1, pid, k.pcbs[pid].held + [name]), degree);
      InterruptKeeps(SetHeld(k1, pid, k.pcbs[pid].held + [name]), pid, QUANTUM, degree);
    } else {
      RunningFree(k, pid, degree);
      var k1 := Move(k, pid, BLOCK);
      MoveKeeps(k, pid, BLOCK, degree);
      assert forall n :: k1.OnLine(n, pid) <==> k.OnLine(n, pid);
      JoinLine(k1, name, pid, degree);
      assert WaitFor(k, pid, name) ==
             SetResource(k1, name, k.resources[name].(waiting := k.resources[name].waiting + [pid]));
    }
  }

  lemma SetHeldKeeps(k: Kernel, pid: nat, held: seq<string>, degree: int)
    requires Inv(k, degree) && k.Live(pid)
    ensures Inv(SetHeld(k, pid, held), degree)
  {
    SetHeldHandsOver(k, pid, held);
    SameQueuesKeep(k, SetHeld(k, pid, held), degree);
  }

  lemma SameKeeps(k: Kernel, k': Kernel, degree: int)
    requires Inv(k, degree)
    requires k'.resources == k.resources && k'.pcbs == k.pcbs && k'.io <= k.io && k'.inflight == k.inflight
    requires k'.colaNew == k.colaNew && k'.colaReady == k.colaReady && k'.colaExec == k.colaExec
    requires k'.colaBlocked == k.colaBlocked && k'.colaExit == k.colaExit
    requires k'.mp == k.mp && k'.hayNew == k.hayNew && k'.token == k.token && |k.colaReady| <= k'.hayReady
    ensures Inv(k', degree)
  {
    SameWaiters(k, k');
    SameInQueues(k, k');
  }

  lemma ForgetKeeps(k: Kernel, pid: nat, name: string, degree: int)
    requires Inv(k, degree)
    ensures Inv(Forget(k, pid, name), degree)
    ensures Forget(k, pid, name).resources == k.resources
  {
    if k.Running(pid) && name in k.pcbs[pid].held {
      SetHeldKeeps(k, pid, RemoveName(k.pcbs[pid].held, name), degree);
    }
  }

  lemma GiveBackKeeps(k: Kernel, name: string, degree: int)
    requires Inv(k, degree) && name in k.resources
    ensures Inv(WakeAll(GiveBack(k, name).0, GiveBack(k, name).1), degree)
  {
    GiveBackHandsOver(k, name);
    HandedOverKeeps(k, GiveBack(k, name).0, GiveBack(k, name).1, degree);
  }

  lemma SignalKeeps(k: Kernel, pid: nat, name: string, degree: int)
    requires Inv(k, degree)
    ensures Inv(SignalBy(k, pid, name), degree)
  {
    hide Inv, Forget, GiveBack, WakeAll, Interrupt;
    if name !in k.resources {
      InterruptKeeps(k, pid, QUANTUM, degree);
    } else {
      ForgetKeeps(k, pid, name, degree);
      GiveBackKeeps(Forget(k, pid, name), name, degree);
      var (k1, woken) := GiveBack(Forget(k, pid, name), name);
      InterruptKeeps(WakeAll(k1, woken), pid, QUANTUM, degree);
    }
  }

  lemma IoPending(k: Kernel, pid: nat, degree: int)
    requires Inv(k, degree) && k.Is(pid, BLOCK) && !k.InLine(pid)
    ensures Inv(k.(io := k.io + {pid}), degree)
  {
    var k' := k.(io := k.io + {pid});
    forall n, p: nat
      ensures k'.OnLine(n, p) <==> k.OnLine(n, p)
      ensures k.OnLine(n, p) ==> p != pid
    {
    }
    SameInQueues(k, k');
  }

  lemma IoKeeps(k: Kernel, pid: nat, sent: bool, degree: int)
    requires Inv(k, degree)
    ensures Inv(Step(k, Io(pid, sent)), degree)
  {
    hide Inv, Move;
    InterruptKeeps(k, pid, BLOQUEO, degree);
    if k.Running(pid) {
      RunningFree(k, pid, degree);
      MoveExact(k, pid, BLOCK);
      var k1 := Move(k, pid, BLOCK);
      assert forall n :: k1.OnLine(n, pid) <==> k.OnLine(n, pid);
      if sent {
        IoPending(k1, pid, degree);
      }
    }
  }

  lemma IoOver(k: Kernel, pid: nat, degree: int)
    requires Inv(k, degree) && pid in k.io
    ensures Inv(k.(io := k.io - {pid}), degree) && !k.(io := k.io - {pid}).InLine(pid)
  {
    var k' := k.(io := k.io - {pid});
    SameKeeps(k, k', degree);
    assert forall n :: k'.OnLine(n, pid) <==> k.OnLine(n, pid);
  }

  lemma IoDoneKeeps(k: Kernel, pid: nat, degree: int)
    requires Inv(k, degree) && pid in k.io
    ensures Inv(Step(k, IoDone(pid)), degree)
  {
    hide Inv, Wake, Move;
    IoOver(k, pid, degree);
    if k.Is(pid, BLOCK) {
      WakeKeeps(k.(io := k.io - {pid}), pid, degree);
    }
  }

  lemma FinishKeeps(k: Kernel, pid: nat, degree: int)
    requires Inv(k, degree)
    ensures Inv(Step(k, Finish(pid)), degree)
  {
    if k.Running(pid) {
      InterruptKeeps(k, pid, FIN, degree);
      RunningFree(k, pid, degree);
      var k1 := Interrupt(k, pid, FIN);
      assert forall n :: k1.OnLine(n, pid) <==> k.OnLine(n, pid);
      ReleaseKeeps(k1, pid, degree);
    }
  }

  lemma LeaveKeeps(k: Kernel, pid: nat, degree: int)
    requires Inv(k, degree)
    ensures Inv(LeaveQueues(k, pid), degree) && !LeaveQueues(k, pid).InLine(pid)
  {
    var k' := LeaveQueues(k, pid);
    forall n | n in k.resources
      ensures Distinct(k'.resources[n].waiting)
      ensures forall p: nat :: k'.OnLine(n, p) <==> k.OnLine(n, p) && p != pid
    {
      RemoveExact(k.resources[n].waiting, pid);
    }
    assert forall n, p: nat :: k'.OnLine(n, p) <==> k.OnLine(n, p) && p != pid;
    SameInQueues(k, k');
  }

  lemma KillableFree(k: Kernel, pid: nat, degree: int)
    requires Inv(k, degree) && Killable(k, pid)
    ensures pid !in k.inflight && (k.pcbs[pid].estado == NEW ==> !k.InLine(pid) && pid !in k.io)
  {
    assert forall n :: k.OnLine(n, pid) ==> k.Is(pid, BLOCK);
  }

  lemma KillActive(k: Kernel, pid: nat, degree: int)
    requires Inv(k, degree) && Killable(k, pid) && k.pcbs[pid].estado != NEW
    ensures Inv(Step(k, Kill(pid)), degree)
  {
    hide Inv;
    var k1 := LeaveQueues(k, pid);
    LeaveKeeps(k, pid, degree);
    KillableFree(k, pid, degree);
    MoveToExit(k1, pid, degree);
    var k2 := Move(k1, pid, EXIT);
    assert k2 == LeaveQueues(Move(k, pid, EXIT), pid);
    hide Move, ReleaseAndWake;
    ReleaseKeeps(k2, pid, degree - 1);
    FreeSlot(ReleaseAndWake(k2, pid), degree);
  }

  lemma KillNew(k: Kernel, pid: nat, degree: int)
    requires Inv(k, degree) && Killable(k, pid) && k.pcbs[pid].estado == NEW
    ensures Inv(Step(k, Kill(pid)), degree)
  {
    hide Inv, Move, ReleaseAndWake;
    KillableFree(k, pid, degree);
    MoveKeeps(k, pid, EXIT, degree);
  }

  lemma KillKeeps(k: Kernel, pid: nat, degree: int)
    requires Inv(k, degree)
    ensures Inv(Step(k, Kill(pid)), degree)
  {
    hide Inv, Move, ReleaseAndWake;
    if Killable(k, pid) {
      if k.pcbs[pid].estado == NEW {
        KillNew(k, pid, degree);
      } else {
        KillActive(k, pid, degree);
      }
    } else {
      assert Step(k, Kill(pid)) == k;
    }
  }

  lemma ArriveKeeps(k: Kernel, degree: int)
    requires Inv(k, degree)
    ensures Inv(Step(k, Arrive), degree)
  {
    var k' := Step(k, Arrive);
    assert forall n, p: nat :: k'.OnLine(n, p) <==> k.OnLine(n, p);
    assert Waiters(k');
    assert |k.pcbs| !in k.inflight && forall e: Estado :: |k.pcbs| !in k.Queue(e);
    assert forall e: Estado :: k'.Queue(e) == if e == NEW then k.Queue(e) + [|k.pcbs|] else k.Queue(e);
    NewKeepsQueues(k, k');
  }

  lemma NewKeepsQueues(k: Kernel, k': Kernel)
    requires Queues(k) && k'.pcbs == k.pcbs + [Pcb(NEW, [])] && k'.inflight == k.inflight
    requires forall e: Estado :: k'.Queue(e) == if e == NEW then k.Queue(e) + [|k.pcbs|] else k.Queue(e)
    ensures Queues(k')
  {
    hide Kernel.Queue;
    forall e: Estado
      ensures Distinct(k'.Queue(e))
      ensures forall p: nat :: p in k'.Queue(e) ==> k'.Is(p, e)
    {
      assert Distinct(k.Queue(e)) && forall p: nat :: p in k.Queue(e) ==> k.Is(p, e);
      assert |k.pcbs| !in k.Queue(e);
    }
    forall p: nat | k'.Live(p)
      ensures p in k'.Queue(k'.pcbs[p].estado) <==> p !in k'.inflight
    {
      if p < |k.pcbs| {
        assert k.Live(p);
      }
    }
  }

  lemma HeadLeaves(q: seq<nat>)
    requires Distinct(q) && q != []
    ensures Distinct(q[1..]) && forall p: nat :: p in q[1..] <==> p in q && p != q[0]
  {
    var t := q[1..];
    assert forall p: nat :: p in q <==> p == q[0] || p in t;
    assert forall i: nat :: i < |t| ==> t[i] == q[i + 1] && q[i + 1] != q[0];
  }

  lemma TakeTokenKeeps(k: Kernel, degree: int)
    requires Inv(k, degree) && Enabled(k, TakeToken)
    ensures Inv(Step(k, TakeToken), degree)
  {
    SameWaiters(k, Step(k, TakeToken));
    SameInQueues(k, Step(k, TakeToken));
  }

  lemma AdmitKeeps(k: Kernel, degree: int)
    requires Inv(k, degree) && Enabled(k, Admit)
    ensures Inv(Step(k, Admit), degree)
  {
    var k' := Step(k, Admit);
    SameWaiters(k, k');
    if k.colaNew != [] {
      assert k.colaNew == k.Queue(NEW);
      HeadLeaves(k.colaNew);
      LeaveNewKeepsQueues(k, k', k.colaNew[0]);
    } else {
      SameInQueues(k, k');
    }
  }

  lemma LeaveNewKeepsQueues(k: Kernel, k': Kernel, pid: nat)
    requires Queues(k) && k'.pcbs == k.pcbs && k.inflight == [] && k'.inflight == [pid] && k.Is(pid, NEW)
    requires forall e: Estado :: e != NEW ==> k'.Queue(e) == k.Queue(e)
    requires Distinct(k'.Queue(NEW)) && forall p: nat :: p in k'.Queue(NEW) <==> p in k.Queue(NEW) && p != pid
    ensures Queues(k')
  {
    hide Kernel.Queue;
    forall e: Estado
      ensures Distinct(k'.Queue(e))
    {
      assert Distinct(k.Queue(e));
    }
    forall p: nat | k'.Live(p)
      ensures p in k'.Queue(k'.pcbs[p].estado) <==> p !in k'.inflight
    {
      assert k.Live(p);
    }
  }

  lemma AdmittedKeeps(k: Kernel, created: bool, degree: int)
    requires Inv(k, degree) && Enabled(k, Admitted(created))
    ensures Inv(Step(k, Admitted(created)), degree)
  {
    var k', pid := Step(k, Admitted(created)), k.inflight[0];
    assert pid in k.inflight && k.Is(pid, NEW);
    LandKeepsWaiters(k, k', pid);
    LandQueues(k, created);
    LandKeepsQueues(k, k', pid, created);
  }

  lemma LandQueues(k: Kernel, created: bool)
    requires k.inflight != [] && k.Live(k.inflight[0])
    ensures forall e: Estado :: Step(k, Admitted(created)).Queue(e) ==
                                if e == READY && created then k.Queue(e) + [k.inflight[0]] else k.Queue(e)
  {
  }

  lemma LandKeepsWaiters(k: Kernel, k': Kernel, pid: nat)
    requires Waiters(k) && k'.resources == k.resources && k'.io == k.io && k.Is(pid, NEW)
    requires |k'.pcbs| == |k.pcbs| && forall p: nat :: p < |k.pcbs| && p != pid ==> k'.pcbs[p] == k.pcbs[p]
    ensures Waiters(k')
  {
    forall n, p: nat
      ensures k'.OnLine(n, p) <==> k.OnLine(n, p)
      ensures k.OnLine(n, p) ==> p != pid
    {
    }
  }

  lemma LandKeepsQueues(k: Kernel, k': Kernel, pid: nat, created: bool)
    requires Queues(k) && k.inflight == [pid] && k'.inflight == [] && k.Live(pid)
    requires k'.pcbs == k.pcbs[pid := if created then k.pcbs[pid].(estado := READY) else Destroyed]
    requires forall e: Estado :: k'.Queue(e) == if e == READY && created then k.Queue(e) + [pid] else k.Queue(e)
    ensures Queues(k')
  {
    hide Kernel.Queue;
    assert pid in k.inflight;
    assert forall e: Estado :: pid !in k.Queue(e) by {
      assert forall e: Estado :: pid in k.Queue(e) ==> k.Is(pid, e);
    }
    forall e: Estado
      ensures Distinct(k'.Queue(e))
      ensures forall p: nat :: p in k'.Queue(e) ==> k'.Is(p, e)
    {
      assert Distinct(k.Queue(e)) && forall p: nat :: p in k.Queue(e) ==> k.Is(p, e);
    }
    forall p: nat | k'.Live(p)
      ensures p in k'.Queue(k'.pcbs[p].estado) <==> p !in k'.inflight
    {
      assert k.Live(p);
    }
  }

  lemma DispatchKeeps(k: Kernel, i: nat, degree: int)
    requires Inv(k, degree) && Enabled(k, Dispatch(i))
    ensures Inv(Step(k, Dispatch(i)), degree)
  {
    hide Move;
    if i < |k.colaReady| {
      assert k.colaReady == k.Queue(READY);
      assert k.colaReady[i] in k.Queue(READY);
      DispatchOne(k, k.colaReady[i], degree);
    } else {
      SameKeeps(k, k.(hayReady := k.hayReady - 1), degree);
    }
  }

  lemma DispatchOne(k: Kernel, pid: nat, degree: int)
    requires Inv(k, degree) && k.Is(pid, READY) && 0 < k.hayReady
    ensures Inv(Move(k, pid, EXEC).(hayReady := k.hayReady - 1), degree)
  {
    assert forall n :: !k.OnLine(n, pid);
    assert pid !in k.inflight && pid !in k.io;
    MoveKeeps(k, pid, EXEC, degree);
    MoveKeepsQueues(k, pid, EXEC);
    var k1 := Move(k, pid, EXEC);
    assert k1.Queue(READY) == k1.colaReady && k.Queue(READY) == k.colaReady;
    hide Move, Queues, Waiters;
    SameKeeps(k1, k1.(hayReady := k.hayReady - 1), degree);
  }

  /** Every event keeps the invariant. */
  lemma StepKeeps(k: Kernel, ev: Event, degree: int)
    requires Inv(k, degree) && Enabled(k, ev)
    ensures Inv(Step(k, ev), degree)
  {
    match ev
    case Arrive => ArriveKeeps(k, degree);
    case TakeToken => TakeTokenKeeps(k, degree);
    case Admit => AdmitKeeps(k, degree);
    case Admitted(created) => AdmittedKeeps(k, created, degree);
    case Dispatch(i) => DispatchKeeps(k, i, degree);
    case Quantum(pid) => InterruptKeeps(k, pid, QUANTUM, degree);
    case Preempt(pid) => InterruptKeeps(k, pid, QUANTUM, degree);
    case Wait(pid, name) => WaitKeeps(k, pid, name, degree);
    case Signal(pid, name) => SignalKeeps(k, pid, name, degree);
    case Io(pid, sent) => IoKeeps(k, pid, sent, degree);
    case IoDone(pid) => IoDoneKeeps(k, pid, degree);
    case Finish(pid) => FinishKeeps(k, pid, degree);
    case Segfault(pid) => InterruptKeeps(k, pid, FIN, degree);
    case Kill(pid) => KillKeeps(k, pid, degree);
  }

  // ---- runs ----

  /** The state planificacion_init and recursos_init leave. */
  function Start(degree: nat, initial: map<string, nat>): Kernel {
    Kernel([], [], [], [], [], [], [], map n | n in initial :: Resource(initial[n], []), degree, 0, 0, 0, {})
  }

  ghost predicate Possible(k: Kernel, events: seq<Event>)
    decreases |events|
  {
    events != [] ==> Enabled(k, events[0]) && Possible(Step(k, events[0]), events[1..])
  }

  function Run(k: Kernel, events: seq<Event>): Kernel
    decreases |events|
  {
    if events == [] then k else Run(Step(k, events[0]), events[1..])
  }

  lemma {:induction false} RunKeeps(k: Kernel, events: seq<Event>, degree: int)
    requires Inv(k, degree) && Possible(k, events)
    ensures Inv(Run(k, events), degree)
    decreases |events|
  {
    if events != [] {
      StepKeeps(k, events[0], degree);
      RunKeeps(Step(k, events[0]), events[1..], degree);
    }
  }

  /** Every reachable state satisfies the invariant. */
  lemma Reachable(degree: nat, initial: map<string, nat>, events: seq<Event>)
    requires Possible(Start(degree, initial), events)
    ensures Inv(Run(Start(degree, initial), events), degree)
  {
    var k := Start(degree, initial);
    assert forall e: Estado :: k.Queue(e) == [];
    RunKeeps(k, events, degree);
  }

  /** While the scheduler waits for a slot, the semaphore of NEW alone is one short of the queue: here at once after
      the first arrival. */
  lemma TokenTaken(degree: nat)
    ensures Possible(Start(degree, map[]), [Arrive, TakeToken])
    ensures var k := Run(Start(degree, map[]), [Arrive, TakeToken]);
            |k.colaNew| == 1 && k.hayNew == 0 && k.token == 1
  {
    var k := Start(degree, map[]);
    var events := [Arrive, TakeToken];
    assert events[1..] == [TakeToken] && [TakeToken][1..] == [];
    var k1 := Step(k, Arrive);
    var k2 := Step(k1, TakeToken);
    assert Possible(k2, []) && Run(k2, []) == k2;
    assert Possible(k1, [TakeToken]) && Run(k1, [TakeToken]) == k2;
  }
}
