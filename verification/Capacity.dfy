// When all pages of all processes fit in RAM: the memory is never full when a page is missing, so nothing is
// ever evicted.
module Capacity {
  import opened Bytes
  import opened Paging
  import opened PageFault
  import opened FlatMemory

  /** How many pages each process has. */
  function PageCounts(tables: map<nat, seq<Page>>): map<nat, nat> {
    map pid | pid in tables :: |tables[pid]|
  }

  /** The pages of all processes. */
  ghost function AllPages(counts: map<nat, nat>): set<(nat, nat)> {
    set pid: nat, n: nat | pid in counts && n < counts[pid] :: (pid, n)
  }

  ghost predicate AllFit(counts: map<nat, nat>, frames: nat) {
    |AllPages(counts)| <= frames
  }

  /** Page counts after a request. */
  function CountsAfter(counts: map<nat, nat>, ps: nat, op: Op): map<nat, nat>
    requires 0 < ps
  {
    match op
    case Create(pid, size) => if pid in counts then counts else counts[pid := Units(size, ps)]
    case Destroy(pid) => counts - {pid}
    case Resize(pid, size) => if pid in counts then counts[pid := Units(size, ps)] else counts
    case _ => counts
  }

  /** Whenever the requests read or write, all pages fit in RAM. */
  ghost predicate FitThroughout(counts: map<nat, nat>, ps: nat, frames: nat, ops: seq<Op>)
    requires 0 < ps
    decreases |ops|
  {
    ops != [] ==>
      && (ops[0].Write? || ops[0].Read? ==> AllFit(counts, frames))
      && FitThroughout(CountsAfter(counts, ps, ops[0]), ps, frames, ops[1..])
  }

  /** The pages that own the first k frames. */
  lemma {:induction false} OwnersCount(m: Mem, k: nat) returns (owners: set<(nat, nat)>)
    requires Frames(m) && Full(m) && k <= |m.bitmap|
    ensures |owners| == k
    ensures forall p :: p in owners ==> exists f: nat :: f < k && m.Owns(p.0, p.1, f)
  {
    if k == 0 {
      owners := {};
    } else {
      var rest := OwnersCount(m, k - 1);
      var f: nat := k - 1;
      assert m.bitmap[f];
      var pid: nat, n: nat :| m.Owns(pid, n, f);
      assert (pid, n) !in rest;
      owners := rest + {(pid, n)};
    }
  }

  /** As long as all pages fit, a missing page finds a free frame. */
  lemma MissingMeansRoom(m: Mem, pid: nat, n: nat)
    requires Frames(m) && AllFit(PageCounts(m.tables), |m.bitmap|) && m.Has(pid, n) && !m.tables[pid][n].present
    ensures !Full(m)
  {
    if Full(m) {
      var owners := OwnersCount(m, |m.bitmap|);
      var all := AllPages(PageCounts(m.tables));
      forall p | p in owners
        ensures p in all && p != (pid, n)
      {
        var f: nat :| f < |m.bitmap| && m.Owns(p.0, p.1, f);
      }
      assert (pid, n) in all;
      SubsetSmaller(owners, all, (pid, n));
    }
  }

  lemma {:induction false} SubsetSmaller(a: set<(nat, nat)>, b: set<(nat, nat)>, x: (nat, nat))
    requires a <= b && x in b && x !in a
    ensures |a| < |b|
  {
    if a != {} {
      var y :| y in a;
      SubsetSmaller(a - {y}, b - {y}, x);
    }
  }

  /** Then no access loses data. */
  lemma FitLosesNothing(m: Mem, hand: nat, pid: nat, n: nat)
    requires Frames(m) && AllFit(PageCounts(m.tables), |m.bitmap|)
    ensures !LosesData(m, hand, pid, n)
  {
    if m.Has(pid, n) && !m.tables[pid][n].present {
      MissingMeansRoom(m, pid, n);
    }
  }
}
