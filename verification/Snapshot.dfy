// What the two deadlock detectors look at: the active processes and the resource table.
module Snapshot {
  datatype Estado = NEW | READY | EXEC | BLOCK | EXIT

  /** An active process: in READY, EXEC or BLOCKED. `held` has one entry per instance held. */
  datatype Proc = Proc(pid: nat, estado: Estado, held: seq<string>)

  /** `waiting` is the FIFO queue of pids blocked on the resource. */
  datatype Resource = Resource(instances: int, waiting: seq<nat>)

  datatype System = System(procs: seq<Proc>, resources: map<string, Resource>)
  {
    /** Process p is blocked in the queue of the resource. */
    predicate Waits(p: nat, name: string) {
      p < |procs| && procs[p].estado == BLOCK && name in resources && procs[p].pid in resources[name].waiting
    }

    /** Instances of the resource that process p holds. */
    function Held(p: nat, name: string): nat
      requires p < |procs|
    {
      Occurrences(procs[p].held, name)
    }
  }

  function Occurrences(s: seq<string>, x: string): nat {
    if s == [] then 0 else (if s[0] == x then 1 else 0) + Occurrences(s[1..], x)
  }

  lemma {:induction false} OccurrencesIn(s: seq<string>, x: string)
    ensures 0 < Occurrences(s, x) <==> x in s
  {
    if s != [] {
      OccurrencesIn(s[1..], x);
      assert x in s <==> s[0] == x || x in s[1..];
    }
  }

  lemma {:induction false} OccurrencesAppend(s: seq<string>, t: seq<string>, x: string)
    ensures Occurrences(s + t, x) == Occurrences(s, x) + Occurrences(t, x)
  {
    if s == [] {
      assert s + t == t;
    } else {
      assert (s + t)[1..] == s[1..] + t;
      OccurrencesAppend(s[1..], t, x);
    }
  }

  /** The names in some order, each once (the keys of the resource dictionary as a list). */
  ghost predicate Enumerates(names: seq<string>, resources: map<string, Resource>) {
    && (forall name :: name in names <==> name in resources)
    && (forall i: nat, j: nat :: i < j < |names| ==> names[i] != names[j])
  }

  ghost predicate Distinct(s: seq<nat>) {
    forall i: nat, j: nat :: i < j < |s| ==> s[i] != s[j]
  }

  ghost predicate Below(s: seq<nat>, n: nat) {
    forall i: nat :: i < |s| ==> s[i] < n
  }

  ghost predicate UniquePids(sys: System) {
    forall i: nat, j: nat :: i < j < |sys.procs| ==> sys.procs[i].pid != sys.procs[j].pid
  }

  ghost function UpTo(n: nat): (s: set<nat>)
    ensures |s| == n
    ensures forall i: nat :: i in s <==> i < n
  {
    if n == 0 then {} else UpTo(n - 1) + {n - 1}
  }

  ghost function Elements(s: seq<nat>): (r: set<nat>)
    ensures forall x :: x in r <==> x in s
  {
    if s == [] then {} else Elements(s[..|s| - 1]) + {s[|s| - 1]}
  }

  lemma {:induction false} ElementsSize(s: seq<nat>)
    requires Distinct(s)
    ensures |Elements(s)| == |s|
  {
    if s != [] {
      ElementsSize(s[..|s| - 1]);
      assert s[|s| - 1] !in s[..|s| - 1];
    }
  }

  /** Pigeonhole: distinct numbers below n are at most n, and n of them are all of them. */
  lemma DistinctBelow(s: seq<nat>, n: nat)
    requires Distinct(s) && Below(s, n)
    ensures |s| <= n
    ensures |s| == n ==> forall p: nat | p < n :: p in s
  {
    ElementsSize(s);
    SubsetSize(Elements(s), UpTo(n));
    if |s| == n {
      SubsetFull(Elements(s), UpTo(n));
      forall p: nat | p < n
        ensures p in s
      {
        assert p in UpTo(n);
      }
    }
  }

  lemma {:induction false} SubsetSize(a: set<nat>, b: set<nat>)
    requires a <= b
    ensures |a| <= |b|
  {
    if a != {} {
      var x :| x in a;
      SubsetSize(a - {x}, b - {x});
    }
  }

  lemma SubsetFull(a: set<nat>, b: set<nat>)
    requires a <= b && |a| == |b|
    ensures a == b
  {
    if a != b {
      var x :| x in b && x !in a;
      SubsetSize(a, b - {x});
    }
  }
}
