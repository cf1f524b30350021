// How the two deadlock detectors relate: an unsafe banker's verdict and a cycle in the wait-for graph.
module DetectorsAgree {
  import opened Snapshot
  import opened Banker
  import opened WaitGraph

  /** What holds between kernel steps while all holders are active: counts are not negative, every resource
      has at least one instance (free or held by an active process), a blocked process is in one queue, and
      nobody waits for a free instance. */
  ghost predicate Accounted(sys: System, names: seq<string>) {
    && Enumerates(names, sys.resources) && UniquePids(sys)
    && (forall n :: n in sys.resources ==> 0 <= sys.resources[n].instances)
    && (forall n :: n in sys.resources ==> 1 <= Total(sys, n))
    && (forall p: nat, a, b :: sys.Waits(p, a) && sys.Waits(p, b) ==> a == b)
    && (forall p: nat, n :: sys.Waits(p, n) ==> sys.resources[n].instances == 0)
  }

  /** A process waits for a resource of which it is the only holder. */
  ghost predicate WaitsForItself(sys: System, p: nat, name: string) {
    && sys.Waits(p, name) && name in sys.procs[p].held
    && forall q: nat :: q < |sys.procs| && q != p ==> name !in sys.procs[q].held
  }

  ghost predicate SelfBlocked(sys: System) {
    exists p: nat, name :: WaitsForItself(sys, p, name)
  }

  /** Free instances plus those held by active processes. */
  function Total(sys: System, name: string): int
    requires name in sys.resources
  {
    sys.resources[name].instances + HeldBy(sys, name, |sys.procs|)
  }

  /** Instances held by the first k processes. */
  function HeldBy(sys: System, name: string, k: nat): nat
    requires k <= |sys.procs|
  {
    if k == 0 then 0 else HeldBy(sys, name, k - 1) + sys.Held(k - 1, name)
  }

  lemma {:induction false} HeldBySome(sys: System, name: string, k: nat) returns (q: nat)
    requires k <= |sys.procs| && 0 < HeldBy(sys, name, k)
    ensures q < k && 0 < sys.Held(q, name)
  {
    if 0 < sys.Held(k - 1, name) {
      q := k - 1;
    } else {
      q := HeldBySome(sys, name, k - 1);
    }
  }

  lemma {:induction false} HeldByAtLeast(sys: System, name: string, k: nat, q: nat)
    requires q < k <= |sys.procs|
    ensures sys.Held(q, name) <= HeldBy(sys, name, k)
    ensures forall p: nat :: p < q ==> sys.Held(p, name) + sys.Held(q, name) <= HeldBy(sys, name, k)
  {
    if q < k - 1 {
      HeldByAtLeast(sys, name, k - 1, q);
    } else {
      forall p: nat | p < q
        ensures sys.Held(p, name) <= HeldBy(sys, name, k - 1)
      {
        HeldByAtLeast(sys, name, k - 1, p);
      }
    }
  }

  lemma {:induction false} ReleasedAll(sys: System, order: seq<nat>, name: string, q: nat)
    requires Below(order, |sys.procs|) && q in order
    ensures sys.Held(q, name) <= Released(sys, order, name)
    decreases |order|
  {
    var k := |order| - 1;
    if order[k] != q {
      assert q in order[..k];
      ReleasedAll(sys, order[..k], name, q);
    }
  }

  /** The greedy simulation as a proof: it gets stuck somewhere, perhaps having finished everybody. */
  lemma {:induction false} Greedy(sys: System, order: seq<nat>) returns (stuck: seq<nat>)
    requires SafePrefix(sys, order)
    ensures SafePrefix(sys, stuck) && Stuck(sys, stuck)
    decreases |sys.procs| - |order|
  {
    DistinctBelow(order, |sys.procs|);
    if Stuck(sys, order) {
      stuck := order;
    } else {
      var p: nat :| p < |sys.procs| && p !in order && CanFinish(sys, order, p);
      var order' := order + [p];
      forall k: nat | k < |order'|
        ensures CanFinish(sys, order'[..k], order'[k])
      {
        assert order'[..k] == order[..k];
      }
      DistinctBelow(order', |sys.procs|);
      stuck := Greedy(sys, order');
    }
  }

  /** A process that cannot finish waits for another one that cannot finish either, or for itself alone. */
  lemma StuckWaits(sys: System, names: seq<string>, order: seq<nat>, p: nat) returns (q: nat)
    requires Accounted(sys, names) && SafePrefix(sys, order) && Stuck(sys, order)
    requires p < |sys.procs| && p !in order && !SelfBlocked(sys)
    ensures q < |sys.procs| && q !in order && Edge(GraphOf(sys, names), p, q)
  {
    assert !CanFinish(sys, order, p);
    var n :| n in sys.resources && NeedOf(sys, p, n) > Work(sys, order, n);
    assert sys.Waits(p, n) && sys.resources[n].instances == 0 && Released(sys, order, n) == 0;
    q := OtherHolder(sys, names, p, n);
    if q in order {
      ReleasedAll(sys, order, n, q);
      OccurrencesIn(sys.procs[q].held, n);
    }
    WaitsEdge(sys, names, p, n, q);
  }

  /** Some other process holds what p waits for. */
  lemma OtherHolder(sys: System, names: seq<string>, p: nat, n: string) returns (q: nat)
    requires Accounted(sys, names) && sys.Waits(p, n) && !SelfBlocked(sys)
    ensures q < |sys.procs| && q != p && n in sys.procs[q].held
  {
    q := HeldBySome(sys, n, |sys.procs|);
    OccurrencesIn(sys.procs[q].held, n);
    if q == p {
      assert !WaitsForItself(sys, p, n);
      q :| q < |sys.procs| && q != p && n in sys.procs[q].held;
    }
  }

  lemma WaitsEdge(sys: System, names: seq<string>, p: nat, n: string, q: nat)
    requires Accounted(sys, names) && sys.Waits(p, n) && q < |sys.procs| && q != p && n in sys.procs[q].held
    ensures Edge(GraphOf(sys, names), p, q)
  {
    QueueOfExact(sys, names, sys.procs[p].pid);
    var w := QueueOf(sys, names, sys.procs[p].pid);
    assert n in names;
    assert sys.Waits(p, w.name);
    EdgeMeans(sys, names, p, q);
  }

  /** A walk along the waits. */
  ghost predicate IsWalk(g: Graph, walk: seq<nat>) {
    walk != [] && forall i: nat :: i + 1 < |walk| ==> Edge(g, walk[i], walk[i + 1])
  }

  /** A walk that comes back to one of its nodes closes a cycle. */
  lemma WalkCycle(g: Graph, walk: seq<nat>, m: nat)
    requires IsWalk(g, walk) && m < |walk| && Edge(g, walk[|walk| - 1], walk[m])
    ensures HasCycle(g)
  {
    var c := seq(|walk| - m, i requires 0 <= i < |walk| - m => walk[|walk| - 1 - i]);
    forall i: nat | i + 1 < |c|
      ensures Edge(g, c[i + 1], c[i])
    {
      assert Edge(g, walk[|walk| - 2 - i], walk[|walk| - 2 - i + 1]);
    }
    assert IsCycle(g, c);
  }

  lemma WalkOn(g: Graph, walk: seq<nat>, q: nat)
    requires IsWalk(g, walk) && Edge(g, walk[|walk| - 1], q)
    ensures IsWalk(g, walk + [q])
  {
  }

  /** Following waits among stuck processes must come back: the walk so far, extended until it repeats. */
  lemma {:induction false} WalkCloses(sys: System, names: seq<string>, order: seq<nat>, walk: seq<nat>)
    requires Accounted(sys, names) && SafePrefix(sys, order) && Stuck(sys, order)
    requires IsWalk(GraphOf(sys, names), walk) && Distinct(walk) && Below(walk, |sys.procs|)
    requires walk[|walk| - 1] !in order && !SelfBlocked(sys)
    ensures HasCycle(GraphOf(sys, names))
    decreases |sys.procs| - |walk|
  {
    hide Accounted, SafePrefix, Stuck, HasCycle, Edge, SelfBlocked;
    var q := StuckWaits(sys, names, order, walk[|walk| - 1]);
    if q in walk {
      var m: nat :| m < |walk| && walk[m] == q;
      WalkCycle(GraphOf(sys, names), walk, m);
    } else {
      WalkOn(GraphOf(sys, names), walk, q);
      DistinctBelow(walk + [q], |sys.procs|);
      WalkCloses(sys, names, order, walk + [q]);
    }
  }

  /** An unsafe verdict means there is a cycle, or a process that waits for itself. */
  lemma UnsafeImpliesCycle(sys: System, names: seq<string>)
    requires Accounted(sys, names) && !Safe(sys) && !SelfBlocked(sys)
    ensures HasCycle(GraphOf(sys, names))
  {
    assert SafePrefix(sys, []);
    var order := Greedy(sys, []);
    DistinctBelow(order, |sys.procs|);
    assert |order| < |sys.procs|;
    var p := Missing(order, |sys.procs|);
    WalkCloses(sys, names, order, [p]);
  }

  lemma Missing(order: seq<nat>, n: nat) returns (p: nat)
    requires |order| < n
    ensures p < n && p !in order
  {
    if forall p: nat :: p < n ==> p in order {
      AllIn(order, n);
    }
    p :| p < n && p !in order;
  }

  lemma AllIn(order: seq<nat>, n: nat)
    requires forall p: nat :: p < n ==> p in order
    ensures n <= |order|
  {
    assert forall p: nat :: p in UpTo(n) ==> p in Elements(order);
    SubsetSize(UpTo(n), Elements(order));
    ElementsAtMost(order);
  }

  lemma {:induction false} ElementsAtMost(s: seq<nat>)
    ensures |Elements(s)| <= |s|
  {
    if s != [] {
      ElementsAtMost(s[..|s| - 1]);
    }
  }

  /** With one instance per resource, the holder of an awaited resource is the only one, and nothing is free. */
  lemma SoleHolder(sys: System, names: seq<string>, name: string, q: nat, other: nat)
    requires Accounted(sys, names) && name in sys.resources && Total(sys, name) == 1
    requires q < |sys.procs| && name in sys.procs[q].held && other < |sys.procs| && other != q
    ensures sys.resources[name].instances == 0 && sys.Held(other, name) == 0
  {
    OccurrencesIn(sys.procs[q].held, name);
    HeldByAtLeast(sys, name, |sys.procs|, if q < other then other else q);
    HeldByAtLeast(sys, name, |sys.procs|, q);
  }

  lemma {:induction false} NothingReleased(sys: System, names: seq<string>, order: seq<nat>, name: string, q: nat)
    requires Accounted(sys, names) && name in sys.resources && Total(sys, name) == 1
    requires q < |sys.procs| && name in sys.procs[q].held && Below(order, |sys.procs|) && q !in order
    ensures Released(sys, order, name) == 0
    decreases |order|
  {
    if order != [] {
      NothingReleased(sys, names, order[..|order| - 1], name, q);
      SoleHolder(sys, names, name, q, order[|order| - 1]);
    }
  }

  /** With one instance per resource, no member of a cycle can be the first of it to finish. */
  lemma CycleImpliesUnsafe(sys: System, names: seq<string>)
    requires Accounted(sys, names) && forall n :: n in sys.resources ==> Total(sys, n) == 1
    requires HasCycle(GraphOf(sys, names))
    ensures !Safe(sys)
  {
    var g := GraphOf(sys, names);
    var c: seq<nat> :| IsCycle(g, c);
    hide Accounted, Edge, GraphOf;
    forall order: seq<nat> | SafePrefix(sys, order) && |order| == |sys.procs|
      ensures false
    {
      DistinctBelow(order, |sys.procs|);
      CycleEdges(g, c, 0);
      var k := FirstOf(order, c, 0);
      var i: nat :| i < |c| && c[i] == order[k];
      var next := if i == 0 then c[|c| - 1] else c[i - 1];
      assert Edge(g, order[k], next);
      assert CanFinish(sys, order[..k], order[k]);
      CannotFinish(sys, names, order[..k], order[k], next);
    }
  }

  /** The first member of c in `order`. */
  lemma {:induction false} FirstOf(order: seq<nat>, c: seq<nat>, from: nat) returns (k: nat)
    requires c != [] && c[0] in order && from <= |order| && forall j: nat :: j < from ==> order[j] !in c
    ensures k < |order| && order[k] in c && forall x :: x in c ==> x !in order[..k]
    decreases |order| - from
  {
    if order[from] in c {
      k := from;
    } else {
      k := FirstOf(order, c, from + 1);
    }
  }

  lemma CannotFinish(sys: System, names: seq<string>, order: seq<nat>, p: nat, q: nat)
    requires Accounted(sys, names) && forall n :: n in sys.resources ==> Total(sys, n) == 1
    requires Below(order, |sys.procs|) && q !in order && Edge(GraphOf(sys, names), p, q)
    ensures !CanFinish(sys, order, p)
  {
    EdgeMeans(sys, names, p, q);
    var n := QueueOf(sys, names, sys.procs[p].pid).name;
    QueueOfExact(sys, names, sys.procs[p].pid);
    assert sys.Waits(p, n);
    NothingReleased(sys, names, order, n, q);
    SoleHolder(sys, names, n, q, p);
    assert NeedOf(sys, p, n) == 1 && Work(sys, order, n) == 0;
  }

  /** A process that waits for itself never finishes, whatever the number of instances. */
  lemma SelfBlockedImpliesUnsafe(sys: System, names: seq<string>)
    requires Accounted(sys, names) && SelfBlocked(sys)
    ensures !Safe(sys)
  {
    var p: nat, name :| WaitsForItself(sys, p, name);
    forall order: seq<nat> | SafePrefix(sys, order) && |order| == |sys.procs|
      ensures false
    {
      DistinctBelow(order, |sys.procs|);
      assert p in order;
      var k: nat :| k < |order| && order[k] == p;
      assert CanFinish(sys, order[..k], order[k]);
      OnlyItself(sys, order[..k], p, name);
    }
  }

  lemma {:induction false} OnlyItself(sys: System, order: seq<nat>, p: nat, name: string)
    requires WaitsForItself(sys, p, name) && Below(order, |sys.procs|) && p !in order
    ensures Released(sys, order, name) == 0
    decreases |order|
  {
    if order != [] {
      var q := order[|order| - 1];
      OnlyItself(sys, order[..|order| - 1], p, name);
      OccurrencesIn(sys.procs[q].held, name);
    }
  }

  /** With one instance per resource the detectors agree, but for processes that wait for themselves, which only
      the banker sees. */
  lemma SingleInstanceAgreement(sys: System, names: seq<string>)
    requires Accounted(sys, names) && forall n :: n in sys.resources ==> Total(sys, n) == 1
    ensures Safe(sys) <==> !HasCycle(GraphOf(sys, names)) && !SelfBlocked(sys)
  {
    if SelfBlocked(sys) {
      SelfBlockedImpliesUnsafe(sys, names);
    } else if !Safe(sys) {
      UnsafeImpliesCycle(sys, names);
    } else if HasCycle(GraphOf(sys, names)) {
      CycleImpliesUnsafe(sys, names);
    }
  }

  /** Two processes wait for each other's resource while a third one holds another instance of "A". */
  function TwoInstances(): System {
    System([Proc(1, BLOCK, ["A"]), Proc(2, BLOCK, ["B"]), Proc(3, READY, ["A"])],
           map["A" := Resource(0, [2]), "B" := Resource(0, [1])])
  }

  lemma TwoInstancesHeld()
    ensures var sys := TwoInstances();
            && sys.Held(0, "A") == 1 && sys.Held(0, "B") == 0 && sys.Held(1, "A") == 0 && sys.Held(1, "B") == 1
            && sys.Held(2, "A") == 1 && sys.Held(2, "B") == 0
  {
    assert "A" != "B";
  }

  lemma TwoInstancesTotals()
    ensures "A" != "B" && Total(TwoInstances(), "A") == 2 && Total(TwoInstances(), "B") == 1
  {
    var sys := TwoInstances();
    TwoInstancesHeld();
    hide System.Held;
    assert HeldBy(sys, "A", 1) == 1 && HeldBy(sys, "A", 2) == 1 && HeldBy(sys, "A", 3) == 2;
    assert HeldBy(sys, "B", 1) == 0 && HeldBy(sys, "B", 2) == 1 && HeldBy(sys, "B", 3) == 1;
  }

  lemma TwoInstancesAccounted()
    ensures Accounted(TwoInstances(), ["A", "B"])
  {
    var sys := TwoInstances();
    TwoInstancesTotals();
    hide Total;
    assert ["A", "B"][0] == "A" && ["A", "B"][1] == "B";
    assert sys.resources.Keys == {"A", "B"} && |sys.procs| == 3;
  }

  lemma TwoInstancesCycle()
    ensures HasCycle(GraphOf(TwoInstances(), ["A", "B"]))
  {
    var sys, names := TwoInstances(), ["A", "B"];
    assert names[1..] == ["B"] && names[0] == "A" && "A" != "B";
    assert QueueOf(sys, names, 2) == On("A");
    assert QueueOf(sys, names, 1) == QueueOf(sys, ["B"], 1) == On("B");
    EdgeMeans(sys, names, 0, 1);
    EdgeMeans(sys, names, 1, 0);
    assert IsCycle(GraphOf(sys, names), [0, 1]);
  }

  lemma TwoInstancesSafe()
    ensures Safe(TwoInstances())
  {
    var sys := TwoInstances();
    var order: seq<nat> := [2, 1, 0];
    var two: seq<nat> := [2, 1];
    assert order[..0] == [] && order[..1] == [2] && order[..2] == two;
    assert [2][..0] == [] && two[..1] == [2];
    assert "A" != "B" && sys.resources.Keys == {"A", "B"};
    TwoInstancesHeld();
    hide System.Held;
    assert Released(sys, [2], "A") == 1;
    assert Released(sys, two, "B") == 1;
    assert CanFinish(sys, [], 2);
    assert CanFinish(sys, [2], 1);
    assert CanFinish(sys, two, 0);
    assert SafePrefix(sys, order);
  }

  /** With several instances the converse fails: a cycle may be harmless. */
  lemma CycleMayBeSafe()
    ensures exists sys, names :: Accounted(sys, names) && HasCycle(GraphOf(sys, names)) && Safe(sys)
  {
    TwoInstancesAccounted();
    TwoInstancesCycle();
    TwoInstancesSafe();
  }
}
