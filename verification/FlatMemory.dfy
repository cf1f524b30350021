// The memory module as its clients see it: one flat byte array per process. Nothing here knows about pages
// in RAM, frames or swap.
module FlatMemory {
  import opened Bytes

  /** Page accesses other threads make while a transfer holds no lock, one burst per unlocked gap. */
  type Bursts = seq<seq<(nat, nat)>>

  datatype Op =
    | Create(pid: nat, size: nat)
    | Destroy(pid: nat)
    | Resize(pid: nat, size: nat)
    | Write(pid: nat, dir: nat, data: seq<Byte>, env: Bursts)
    | Read(pid: nat, dir: nat, len: nat, env: Bursts)

  /** `high` is the largest number of pages each process has had. */
  datatype Space = Space(ps: nat, frames: nat, flats: map<nat, seq<Byte>>, high: map<nat, nat>)

  function Size(s: Space, pid: nat): nat {
    if pid in s.flats then |s.flats[pid]| else 0
  }

  /** How far a transfer gets: it succeeds exactly when it is empty, or fits the address space, there is RAM and
      it is not cut by other threads. Uncut and not fitting, it stops at the end of the address space. */
  predicate Transferred(frames: nat, extent: int, dir: nat, size: nat, cut: bool, ok: bool, done: nat) {
    && done <= size
    && (ok <==> done == size)
    && (0 < done ==> 0 < frames && dir + done <= extent)
    && (ok <==> size == 0 || (0 < frames && dir + size <= extent && !cut))
    && (!ok && !cut ==> done == if 0 < frames && dir < extent then extent - dir else 0)
  }

  function HighOf(s: Space, pid: nat): nat {
    if pid in s.high then s.high[pid] else 0
  }

  function Patch(s: Space, pid: nat, dir: nat, data: seq<Byte>): Space {
    if data != [] && dir + |data| <= Size(s, pid)
    then s.(flats := s.flats[pid := Splice(s.flats[pid], dir, data)])
    else s
  }

  /** Growing keeps the old bytes; bytes beyond everything the process ever had are zero. */
  ghost predicate Grown(s: Space, pid: nat, k: nat, flat: seq<Byte>) {
    && 0 < s.ps && pid in s.flats
    && |s.flats[pid]| <= |flat| == k * s.ps
    && flat[..|s.flats[pid]|] == s.flats[pid]
    && forall a: nat :: |s.flats[pid]| <= a < |flat| && HighOf(s, pid) <= a / s.ps ==> flat[a] == 0
  }

  /** One request. `cut` tells whether other threads cut it short, if it is a transfer. */
  ghost predicate Step(s: Space, op: Op, r: Reply, cut: bool, s': Space) {
    && 0 < s.ps
    && match op
       case Create(pid, size) =>
         var k := Units(size, s.ps);
         if pid in s.flats then r == Done(false) && s' == s
         else r == Done(true) && k * s.ps >= 0
              && s' == s.(flats := s.flats[pid := Zeros(k * s.ps)], high := s.high[pid := k])
       case Destroy(pid) =>
         r == Done(true) && s' == s.(flats := s.flats - {pid}, high := s.high - {pid})
       case Resize(pid, size) =>
         var k := Units(size, s.ps);
         if pid !in s.flats then r == Done(false) && s' == s
         else
           && r == Done(true) && pid in s'.flats
           && s' == s.(flats := s.flats[pid := s'.flats[pid]], high := s.high[pid := Max(k, HighOf(s, pid))])
           && if 0 <= k * s.ps <= |s.flats[pid]| then s'.flats[pid] == s.flats[pid][..k * s.ps]
              else Grown(s, pid, k, s'.flats[pid])
       case Write(pid, dir, data, _) =>
         r.Done? && exists done: nat :: WriteStep(s, pid, dir, data, cut, r.ok, done, s')
       case Read(pid, dir, len, _) =>
         && r.Data? && s' == s
         && Transferred(s.frames, Size(s, pid), dir, len, cut, r.ok, |r.bytes|)
         && (r.bytes != [] ==> pid in s.flats && dir + |r.bytes| <= |s.flats[pid]|
                               && r.bytes == s.flats[pid][dir..dir + |r.bytes|])
  }

  ghost predicate WriteStep(s: Space, pid: nat, dir: nat, data: seq<Byte>, cut: bool, ok: bool, done: nat, s': Space) {
    && Transferred(s.frames, Size(s, pid), dir, |data|, cut, ok, done)
    && s' == Patch(s, pid, dir, data[..done])
  }

  function Max(a: nat, b: nat): nat {
    if a < b then b else a
  }

  /** A run: trace[i] is the memory before operation i. */
  ghost predicate Run(trace: seq<Space>, ops: seq<Op>, replies: seq<Reply>, cuts: seq<bool>) {
    && |trace| == |ops| + 1 && |replies| == |ops| == |cuts|
    && forall i: nat | i < |ops| :: Step(trace[i], ops[i], replies[i], cuts[i], trace[i + 1])
  }

  /** The operation may change byte `a` of process pid. */
  predicate Touches(op: Op, ps: nat, pid: nat, a: nat) {
    match op
    case Create(p, _) => p == pid
    case Destroy(p) => p == pid
    case Resize(p, size) => p == pid && 0 < ps && Units(size, ps) * ps <= a
    case Write(p, dir, data, _) => p == pid && dir <= a < dir + |data|
    case Read(_, _, _, _) => false
  }

  ghost predicate HasByte(s: Space, pid: nat, a: nat, b: Byte) {
    pid in s.flats && a < |s.flats[pid]| && s.flats[pid][a] == b
  }

  lemma StepKeepsByte(s: Space, op: Op, r: Reply, cut: bool, s': Space, pid: nat, a: nat, b: Byte)
    requires Step(s, op, r, cut, s') && !Touches(op, s.ps, pid, a) && HasByte(s, pid, a, b)
    ensures HasByte(s', pid, a, b) && s'.ps == s.ps
  {
    if op.Write? {
      var done: nat :| WriteStep(s, op.pid, op.dir, op.data, cut, r.ok, done, s');
    } else if op.Resize? && op.pid == pid {
      assert s'.flats[pid][a] == if 0 <= Units(op.size, s.ps) * s.ps <= |s.flats[pid]|
                                 then s.flats[pid][..Units(op.size, s.ps) * s.ps][a]
                                 else s'.flats[pid][..|s.flats[pid]|][a];
    }
  }

  /** Across any stretch of a run that does not touch it, a byte keeps its value. */
  lemma {:induction false} ByteKept(trace: seq<Space>, ops: seq<Op>, replies: seq<Reply>, cuts: seq<bool>,
                                    i: nat, j: nat,
                                    pid: nat, a: nat, b: Byte)
    requires Run(trace, ops, replies, cuts) && i <= j < |trace|
    requires HasByte(trace[i], pid, a, b)
    requires forall k: nat | i <= k < j :: !Touches(ops[k], trace[k].ps, pid, a)
    ensures HasByte(trace[j], pid, a, b)
    decreases j - i
  {
    if i < j {
      assert Step(trace[i], ops[i], replies[i], cuts[i], trace[i + 1]);
      StepKeepsByte(trace[i], ops[i], replies[i], cuts[i], trace[i + 1], pid, a, b);
      ByteKept(trace, ops, replies, cuts, i + 1, j, pid, a, b);
    }
  }

  /** A successful read returns, at each address, the last byte written there. */
  lemma ReadsLastWrite(trace: seq<Space>, ops: seq<Op>, replies: seq<Reply>, cuts: seq<bool>, i: nat, j: nat, a: nat)
    requires Run(trace, ops, replies, cuts) && i < j < |ops|
    requires ops[i].Write? && replies[i] == Done(true) && ops[i].dir <= a < ops[i].dir + |ops[i].data|
    requires ops[j].Read? && replies[j].Data? && replies[j].ok && ops[j].pid == ops[i].pid
    requires ops[j].dir <= a < ops[j].dir + ops[j].len
    requires forall k: nat | i < k < j :: !Touches(ops[k], trace[k].ps, ops[i].pid, a)
    ensures a - ops[j].dir < |replies[j].bytes|
    ensures replies[j].bytes[a - ops[j].dir] == ops[i].data[a - ops[i].dir]
  {
    var w := ops[i];
    assert Step(trace[i], w, replies[i], cuts[i], trace[i + 1]);
    var done: nat :| WriteStep(trace[i], w.pid, w.dir, w.data, cuts[i], true, done, trace[i + 1]);
    assert w.data[..done] == w.data;
    assert HasByte(trace[i + 1], w.pid, a, w.data[a - w.dir]);
    ByteKept(trace, ops, replies, cuts, i + 1, j, w.pid, a, w.data[a - w.dir]);
    assert Step(trace[j], ops[j], replies[j], cuts[j], trace[j + 1]);
  }

  /** Bytes of a new process read as zero until something touches them. */
  lemma ReadsZeroIfUntouched(trace: seq<Space>, ops: seq<Op>, replies: seq<Reply>, cuts: seq<bool>, i: nat, j: nat,
                             a: nat)
    requires Run(trace, ops, replies, cuts) && i < j < |ops|
    requires ops[i].Create? && replies[i] == Done(true)
    requires ops[j].Read? && replies[j].Data? && replies[j].ok && ops[j].pid == ops[i].pid
    requires ops[j].dir <= a < ops[j].dir + ops[j].len
    requires a < Size(trace[i + 1], ops[i].pid)
    requires forall k: nat | i < k < j :: !Touches(ops[k], trace[k].ps, ops[i].pid, a)
    ensures a - ops[j].dir < |replies[j].bytes|
    ensures replies[j].bytes[a - ops[j].dir] == 0
  {
    assert Step(trace[i], ops[i], replies[i], cuts[i], trace[i + 1]);
    assert HasByte(trace[i + 1], ops[i].pid, a, 0);
    ByteKept(trace, ops, replies, cuts, i + 1, j, ops[i].pid, a, 0);
    assert Step(trace[j], ops[j], replies[j], cuts[j], trace[j + 1]);
  }
}
