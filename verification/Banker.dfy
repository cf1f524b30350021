// The banker's simulation: can all active processes finish, one after the other?
module Banker {
  import opened Snapshot

  /** Free instances of a resource after the processes of `order` have finished and released theirs. */
  function Work(sys: System, order: seq<nat>, name: string): int
    requires Below(order, |sys.procs|) && name in sys.resources
  {
    sys.resources[name].instances + Released(sys, order, name)
  }

  function Released(sys: System, order: seq<nat>, name: string): nat
    requires Below(order, |sys.procs|)
  {
    if order == [] then 0 else Released(sys, order[..|order| - 1], name) + sys.Held(order[|order| - 1], name)
  }

  /** What process p still needs of a resource: the one instance it waits for, if any. */
  function NeedOf(sys: System, p: nat, name: string): int {
    if sys.Waits(p, name) then 1 else 0
  }

  /** Process p's need fits in what is free after `order`. */
  ghost predicate CanFinish(sys: System, order: seq<nat>, p: nat)
    requires Below(order, |sys.procs|)
  {
    forall name :: name in sys.resources ==> NeedOf(sys, p, name) <= Work(sys, order, name)
  }

  /** The processes of `order` can finish in that order. */
  ghost predicate SafePrefix(sys: System, order: seq<nat>) {
    && Distinct(order) && Below(order, |sys.procs|)
    && forall k: nat :: k < |order| ==> CanFinish(sys, order[..k], order[k])
  }

  /** Some order of all the processes lets each one finish. */
  ghost predicate Safe(sys: System) {
    exists order: seq<nat> :: SafePrefix(sys, order) && |order| == |sys.procs|
  }

  /** No process outside `order` can finish next. */
  ghost predicate Stuck(sys: System, order: seq<nat>)
    requires Below(order, |sys.procs|)
  {
    forall p: nat :: p < |sys.procs| && p !in order ==> !CanFinish(sys, order, p)
  }

  lemma {:induction false} ReleasedWithout(sys: System, order: seq<nat>, i: nat, name: string)
    requires Below(order, |sys.procs|) && i < |order|
    ensures Below(order[..i] + order[i + 1..], |sys.procs|)
    ensures Released(sys, order, name) ==
            Released(sys, order[..i] + order[i + 1..], name) + sys.Held(order[i], name)
    decreases |order|
  {
    var k := |order| - 1;
    var rest := order[..i] + order[i + 1..];
    if i == k {
      assert rest == order[..k];
    } else {
      ReleasedWithout(sys, order[..k], i, name);
      assert rest[..|rest| - 1] == order[..k][..i] + order[..k][i + 1..];
      assert rest[|rest| - 1] == order[k];
    }
  }

  lemma Without(b: seq<nat>, i: nat)
    requires Distinct(b) && i < |b|
    ensures Distinct(b[..i] + b[i + 1..])
    ensures forall p :: p in b && p != b[i] ==> p in b[..i] + b[i + 1..]
  {
    var b' := b[..i] + b[i + 1..];
    assert forall j: nat :: j < |b'| ==> b'[j] == b[if j < i then j else j + 1];
    forall p | p in b && p != b[i]
      ensures p in b'
    {
      var j: nat :| j < |b| && b[j] == p;
      assert b'[if j < i then j else j - 1] == p;
    }
  }

  /** Finishing more processes frees at least as much. */
  lemma {:induction false} ReleasedMonotone(sys: System, a: seq<nat>, b: seq<nat>, name: string)
    requires Below(a, |sys.procs|) && Below(b, |sys.procs|) && Distinct(a) && Distinct(b)
    requires forall p :: p in a ==> p in b
    ensures Released(sys, a, name) <= Released(sys, b, name)
    decreases |a|
  {
    if a != [] {
      var k := |a| - 1;
      assert a[k] in a;
      var i: nat :| i < |b| && b[i] == a[k];
      ReleasedWithout(sys, b, i, name);
      Without(b, i);
      forall p | p in a[..k]
        ensures p in a && p != a[k]
      {
      }
      ReleasedMonotone(sys, a[..k], b[..i] + b[i + 1..], name);
    }
  }

  /** The greedy choice never misses: once stuck, no order of all the processes works. */
  lemma StuckMeansUnsafe(sys: System, order: seq<nat>)
    requires SafePrefix(sys, order) && Stuck(sys, order) && |order| < |sys.procs|
    ensures !Safe(sys)
  {
    forall other: seq<nat> | SafePrefix(sys, other) && |other| == |sys.procs|
      ensures false
    {
      DistinctBelow(other, |sys.procs|);
      DistinctBelow(order, |sys.procs|);
      var k := FirstOutside(sys, order, other, 0);
      assert CanFinish(sys, other[..k], other[k]);
      forall name | name in sys.resources
        ensures NeedOf(sys, other[k], name) <= Work(sys, order, name)
      {
        ReleasedMonotone(sys, other[..k], order, name);
      }
    }
  }

  /** The first process of `other` that is not in `order`. */
  lemma {:induction false} FirstOutside(sys: System, order: seq<nat>, other: seq<nat>, from: nat) returns (k: nat)
    requires SafePrefix(sys, order) && SafePrefix(sys, other) && |order| < |sys.procs| == |other|
    requires from <= |other| && forall j: nat :: j < from ==> other[j] in order
    ensures k < |other| && other[k] !in order && forall p :: p in other[..k] ==> p in order
    decreases |other| - from
  {
    if from == |other| {
      SubsetSize(Elements(other), Elements(order));
      ElementsSize(other);
      ElementsSize(order);
      assert false;
    } else if other[from] !in order {
      k := from;
    } else {
      k := FirstOutside(sys, order, other, from + 1);
    }
  }

  // ---- banquero.c ----

  /** asignado[p][r]: instances of resource r held by process p. */
  method Allocation(sys: System, names: seq<string>) returns (asignado: array2<int>)
    ensures fresh(asignado) && asignado.Length0 == |sys.procs| && asignado.Length1 == |names|
    ensures Enumerates(names, sys.resources) ==>
              forall p: nat, r: nat :: p < |sys.procs| && r < |names| ==> asignado[p, r] == sys.Held(p, names[r])
  {
    asignado := new int[|sys.procs|, |names|]((p, r) => 0);
    for p := 0 to |sys.procs|
      invariant Enumerates(names, sys.resources) ==>
                  forall q: nat, r: nat :: q < p && r < |names| ==> asignado[q, r] == sys.Held(q, names[r])
      invariant forall q: nat, r: nat :: p <= q < |sys.procs| && r < |names| ==> asignado[q, r] == 0
    {
      var held := sys.procs[p].held;
      for i := 0 to |held|
        invariant Enumerates(names, sys.resources) ==>
                    forall q: nat, r: nat :: q < p && r < |names| ==> asignado[q, r] == sys.Held(q, names[r])
        invariant forall q: nat, r: nat :: p < q < |sys.procs| && r < |names| ==> asignado[q, r] == 0
        invariant Enumerates(names, sys.resources) ==>
                    forall r: nat :: r < |names| ==> asignado[p, r] == Occurrences(held[..i], names[r])
      {
        forall x: string
          ensures Occurrences(held[..i + 1], x) == Occurrences(held[..i], x) + if held[i] == x then 1 else 0
        {
          assert held[..i + 1] == held[..i] + [held[i]];
          OccurrencesAppend(held[..i], [held[i]], x);
        }
        var r := IndexOf(names, held[i]);
        if r < |names| {
          asignado[p, r] := asignado[p, r] + 1;
        }
      }
      assert held[..|held|] == held;
    }
  }

  method IndexOf(names: seq<string>, x: string) returns (r: nat)
    ensures r <= |names| && (r < |names| ==> names[r] == x) && forall i: nat :: i < r ==> names[i] != x
  {
    r := 0;
    while r < |names| && names[r] != x
      invariant r <= |names| && forall i: nat :: i < r ==> names[i] != x
    {
      r := r + 1;
    }
  }

  /** necesidad[p][r]: 1 when process p is blocked in the queue of resource r. */
  method Need(sys: System, names: seq<string>) returns (necesidad: array2<int>)
    requires Enumerates(names, sys.resources)
    ensures fresh(necesidad) && necesidad.Length0 == |sys.procs| && necesidad.Length1 == |names|
    ensures forall p: nat, r: nat :: p < |sys.procs| && r < |names| ==>
              necesidad[p, r] == NeedOf(sys, p, names[r])
  {
    necesidad := new int[|sys.procs|, |names|]((p, r) => 0);
    for p := 0 to |sys.procs|
      invariant forall q: nat, r: nat :: q < p && r < |names| ==> necesidad[q, r] == NeedOf(sys, q, names[r])
      invariant forall q: nat, r: nat :: p <= q < |sys.procs| && r < |names| ==> necesidad[q, r] == 0
    {
      if sys.procs[p].estado == BLOCK {
        for r := 0 to |names|
          invariant forall q: nat, s: nat :: q < p && s < |names| ==> necesidad[q, s] == NeedOf(sys, q, names[s])
          invariant forall q: nat, s: nat :: p < q < |sys.procs| && s < |names| ==> necesidad[q, s] == 0
          invariant forall s: nat :: s < r ==> necesidad[p, s] == NeedOf(sys, p, names[s])
          invariant forall s: nat :: r <= s < |names| ==> necesidad[p, s] == 0
        {
          assert names[r] in names;
          if sys.procs[p].pid in sys.resources[names[r]].waiting {
            necesidad[p, r] := 1;
          }
        }
      }
    }
  }

  /** necesidad[p] <= work, compared resource by resource. */
  method Fits(necesidad: array2<int>, work: array<int>, p: nat) returns (puede: bool)
    requires p < necesidad.Length0 && work.Length == necesidad.Length1
    ensures puede <==> forall r: nat :: r < work.Length ==> necesidad[p, r] <= work[r]
  {
    for r := 0 to work.Length
      invariant forall s: nat :: s < r ==> necesidad[p, s] <= work[s]
    {
      if necesidad[p, r] > work[r] {
        return false;
      }
    }
    puede := true;
  }

  /** Process p finishes: its instances are added to work. */
  method Release(asignado: array2<int>, work: array<int>, p: nat)
    requires p < asignado.Length0 && work.Length == asignado.Length1
    modifies work
    ensures forall r: nat :: r < work.Length ==> work[r] == old(work[r]) + asignado[p, r]
  {
    for r := 0 to work.Length
      invariant forall s: nat :: s < r ==> work[s] == old(work[s]) + asignado[p, s]
      invariant forall s: nat :: r <= s < work.Length ==> work[s] == old(work[s])
    {
      work[r] := work[r] + asignado[p, r];
    }
  }

  /** The arrays of the simulation agree with the processes finished so far. */
  ghost predicate Simulates(sys: System, names: seq<string>, order: seq<nat>, work: seq<int>, terminado: seq<bool>) {
    && Enumerates(names, sys.resources) && SafePrefix(sys, order)
    && |work| == |names| && |terminado| == |sys.procs|
    && (forall r: nat :: r < |names| ==> names[r] in sys.resources && work[r] == Work(sys, order, names[r]))
    && (forall p: nat :: p < |sys.procs| ==> (terminado[p] <==> p in order))
  }

  lemma SimulatesStart(sys: System, names: seq<string>, work: seq<int>, terminado: seq<bool>)
    requires Enumerates(names, sys.resources) && |work| == |names| && |terminado| == |sys.procs|
    requires forall r: nat :: r < |names| ==> names[r] in sys.resources && work[r] == sys.resources[names[r]].instances
    requires forall p: nat :: p < |terminado| ==> !terminado[p]
    ensures Simulates(sys, names, [], work, terminado)
  {
  }

  /** The comparison against work decides whether a process can finish next. */
  lemma FitsMeans(sys: System, names: seq<string>, order: seq<nat>, work: seq<int>, terminado: seq<bool>, p: nat,
                  need: seq<int>)
    requires Simulates(sys, names, order, work, terminado) && p < |sys.procs| && |need| == |names|
    requires forall r: nat :: r < |names| ==> need[r] == NeedOf(sys, p, names[r])
    ensures (forall r: nat :: r < |names| ==> need[r] <= work[r]) <==> CanFinish(sys, order, p)
  {
    if forall r: nat :: r < |names| ==> need[r] <= work[r] {
      forall name | name in sys.resources
        ensures NeedOf(sys, p, name) <= Work(sys, order, name)
      {
        assert name in names;
        var r: nat :| r < |names| && names[r] == name;
        assert need[r] <= work[r];
      }
    }
    if CanFinish(sys, order, p) {
      forall r: nat | r < |names|
        ensures need[r] <= work[r]
      {
        assert names[r] in sys.resources;
      }
    }
  }

  lemma SimulatesStep(sys: System, names: seq<string>, order: seq<nat>, work: seq<int>, terminado: seq<bool>,
                      p: nat, work': seq<int>)
    requires Simulates(sys, names, order, work, terminado) && p < |sys.procs| && !terminado[p]
    requires CanFinish(sys, order, p) && |work'| == |work|
    requires forall r: nat :: r < |names| ==> work'[r] == work[r] + sys.Held(p, names[r])
    ensures Simulates(sys, names, order + [p], work', terminado[p := true])
  {
    var order' := order + [p];
    assert order'[..|order|] == order;
    forall k: nat | k < |order'|
      ensures CanFinish(sys, order'[..k], order'[k])
    {
      if k < |order| {
        assert order'[..k] == order[..k];
      }
    }
    forall q: nat | q < |sys.procs|
      ensures terminado[p := true][q] <==> q in order'
    {
      assert q in order' <==> q in order || q == p;
    }
  }

  lemma SimulatesSizes(sys: System, names: seq<string>, order: seq<nat>, work: seq<int>, terminado: seq<bool>)
    requires Simulates(sys, names, order, work, terminado)
    ensures |work| == |names| && |terminado| == |sys.procs| && SafePrefix(sys, order)
    ensures forall p: nat :: p < |sys.procs| ==> (terminado[p] <==> p in order)
  {
  }

  /** One process of the pass: it is finished at once if it fits. */
  method TryFinish(sys: System, names: seq<string>, asignado: array2<int>, necesidad: array2<int>,
                   work: array<int>, terminado: array<bool>, p: nat, ghost order: seq<nat>) returns (puede: bool)
    requires Simulates(sys, names, order, work[..], terminado[..]) && p < |sys.procs| && p !in order
    requires asignado.Length0 == necesidad.Length0 == |sys.procs| && asignado.Length1 == necesidad.Length1 == |names|
    requires forall p: nat, r: nat :: p < |sys.procs| && r < |names| ==> asignado[p, r] == sys.Held(p, names[r])
    requires forall p: nat, r: nat :: p < |sys.procs| && r < |names| ==> necesidad[p, r] == NeedOf(sys, p, names[r])
    modifies work, terminado
    ensures puede <==> CanFinish(sys, order, p)
    ensures Simulates(sys, names, if puede then order + [p] else order, work[..], terminado[..])
  {
    hide Simulates, CanFinish, NeedOf, Work;
    SimulatesSizes(sys, names, order, work[..], terminado[..]);
    ghost var w, t := work[..], terminado[..];
    puede := Fits(necesidad, work, p);
    FitsMeans(sys, names, order, w, t, p, seq(|names|, r requires 0 <= r < |names| => NeedOf(sys, p, names[r])));
    if puede {
      Release(asignado, work, p);
      terminado[p] := true;
      assert terminado[..] == t[p := true];
      SimulatesStep(sys, names, order, w, t, p, work[..]);
    }
  }

  /** One pass over the processes. */
  method Pass(sys: System, names: seq<string>, asignado: array2<int>, necesidad: array2<int>,
              work: array<int>, terminado: array<bool>, ghost order: seq<nat>)
    returns (finished: nat, ghost order': seq<nat>)
    requires Simulates(sys, names, order, work[..], terminado[..])
    requires asignado.Length0 == necesidad.Length0 == |sys.procs| && asignado.Length1 == necesidad.Length1 == |names|
    requires forall p: nat, r: nat :: p < |sys.procs| && r < |names| ==> asignado[p, r] == sys.Held(p, names[r])
    requires forall p: nat, r: nat :: p < |sys.procs| && r < |names| ==> necesidad[p, r] == NeedOf(sys, p, names[r])
    modifies work, terminado
    ensures Simulates(sys, names, order', work[..], terminado[..]) && |order'| == |order| + finished
    ensures finished == 0 ==> order' == order && Stuck(sys, order)
  {
    hide Simulates, CanFinish, NeedOf, Work;
    SimulatesSizes(sys, names, order, work[..], terminado[..]);
    finished, order' := 0, order;
    for p := 0 to |sys.procs|
      invariant Simulates(sys, names, order', work[..], terminado[..]) && |order'| == |order| + finished
      invariant finished == 0 ==> order' == order && forall q: nat :: q < p && q !in order ==> !CanFinish(sys, order, q)
    {
      SimulatesSizes(sys, names, order', work[..], terminado[..]);
      if !terminado[p] {
        var puede := TryFinish(sys, names, asignado, necesidad, work, terminado, p, order');
        if puede {
          finished, order' := finished + 1, order' + [p];
        }
      }
    }
  }

  /** banquero_estado_seguro: true exactly when some order of all active processes lets each one finish. */
  method EstadoSeguro(sys: System, names: seq<string>) returns (seguro: bool)
    requires Enumerates(names, sys.resources)
    ensures seguro <==> Safe(sys)
  {
    if |names| == 0 {
      NothingToWaitFor(sys);
      return true;
    }
    var n := |sys.procs|;
    if n == 0 {
      assert SafePrefix(sys, []);
      return true;
    }
    var asignado := Allocation(sys, names);
    var necesidad := Need(sys, names);
    var terminado := new bool[n](_ => false);
    var work := new int[|names|](r requires 0 <= r < |names| =>
                                   assert names[r] in names; sys.resources[names[r]].instances);
    var completados, progreso := 0, true;
    ghost var order: seq<nat> := [];
    SimulatesStart(sys, names, work[..], terminado[..]);
    while progreso && completados < n
      invariant Simulates(sys, names, order, work[..], terminado[..]) && |order| == completados
      invariant !progreso ==> Stuck(sys, order)
      invariant forall p: nat, r: nat :: p < n && r < |names| ==> asignado[p, r] == sys.Held(p, names[r])
      invariant forall p: nat, r: nat :: p < n && r < |names| ==> necesidad[p, r] == NeedOf(sys, p, names[r])
      invariant completados <= n
      decreases n - completados, progreso
    {
      var finished;
      finished, order := Pass(sys, names, asignado, necesidad, work, terminado, order);
      DistinctBelow(order, n);
      completados := completados + finished;
      progreso := finished > 0;
    }
    if completados < n {
      StuckMeansUnsafe(sys, order);
    }
    seguro := completados == n;
  }

  /** Without resources every order is safe. */
  lemma NothingToWaitFor(sys: System)
    requires sys.resources == map[] || forall name :: name !in sys.resources
    ensures Safe(sys)
  {
    var order: seq<nat> := seq(|sys.procs|, i => i);
    assert SafePrefix(sys, order);
  }
}
