// Memory under segmentation as its clients see it: one byte array per process, of exactly the size asked
// for. Nothing here knows where a segment is.
module SegmentSpace {
  import opened Bytes

  datatype SegOp =
    | Create(pid: nat, size: nat)
    | Destroy(pid: nat)
    | Resize(pid: nat, size: nat)
    | Write(pid: nat, dir: nat, data: seq<Byte>)
    | Read(pid: nat, dir: nat, len: nat)

  datatype Memory = Memory(total: nat, flats: map<nat, seq<Byte>>)

  predicate InSegment(s: Memory, pid: nat, dir: nat, n: nat) {
    pid in s.flats && dir + n <= |s.flats[pid]|
  }

  ghost predicate SegStep(s: Memory, op: SegOp, r: Reply, s': Memory) {
    && s'.total == s.total
    && match op
       case Create(pid, size) =>
         && r.Done?
         && (r.ok ==> pid !in s.flats && pid in s'.flats && |s'.flats[pid]| == size
                      && s'.flats == s.flats[pid := s'.flats[pid]])
         && (!r.ok ==> s' == s)
       case Destroy(pid) =>
         r == Done(true) && s'.flats == s.flats - {pid}
       case Resize(pid, size) =>
         && r.Done?
         && (r.ok ==> && pid in s.flats && pid in s'.flats && s'.flats == s.flats[pid := s'.flats[pid]]
                      && Truncated(s.flats[pid], size, s'.flats[pid]))
         && (!r.ok ==> s' == s)
         && (pid in s.flats && size <= |s.flats[pid]| ==> r.ok)
       case Write(pid, dir, data) =>
         && r == Done(InSegment(s, pid, dir, |data|))
         && s'.flats == if r.ok then s.flats[pid := Splice(s.flats[pid], dir, data)] else s.flats
       case Read(pid, dir, len) =>
         && s' == s
         && r == if InSegment(s, pid, dir, len) then Data(true, s.flats[pid][dir..dir + len]) else Data(false, [])
  }

  ghost predicate SegRun(trace: seq<Memory>, ops: seq<SegOp>, replies: seq<Reply>) {
    && |trace| == |ops| + 1 && |replies| == |ops|
    && forall i: nat | i < |ops| :: SegStep(trace[i], ops[i], replies[i], trace[i + 1])
  }

  /** Whatever other processes do, a process keeps its whole memory. */
  lemma {:induction false} OthersInvisible(trace: seq<Memory>, ops: seq<SegOp>, replies: seq<Reply>,
                                           i: nat, j: nat, pid: nat)
    requires SegRun(trace, ops, replies) && i <= j < |trace| && pid in trace[i].flats
    requires forall k: nat | i <= k < j :: ops[k].pid != pid || ops[k].Read?
    ensures pid in trace[j].flats && trace[j].flats[pid] == trace[i].flats[pid]
    decreases j - i
  {
    if i < j {
      assert SegStep(trace[i], ops[i], replies[i], trace[i + 1]);
      OthersInvisible(trace, ops, replies, i + 1, j, pid);
    }
  }

  // ---- loading a program and fetching its instructions ----

  datatype Fetched = Missing | Unterminated | Line(text: seq<Byte>)

  /** The bytes up to the first zero, as strdup copies them. */
  function CString(buf: seq<Byte>): Fetched {
    if buf == [] then Unterminated
    else if buf[0] == 0 then Line([])
    else match CString(buf[1..])
         case Line(t) => Line([buf[0]] + t)
         case _ => Unterminated
  }

  const SLOT: nat := 64

  /** Instruction pc: the 64 bytes at 64 * pc, cut at the first zero. */
  function Fetch(flat: seq<Byte>, pc: nat): Fetched {
    if pc * SLOT + SLOT <= |flat| then CString(flat[pc * SLOT..pc * SLOT + SLOT]) else Missing
  }

  /** A write that fits replaces bytes; one that does not has no effect. */
  function Overlaid(flat: seq<Byte>, at: nat, line: seq<Byte>): (r: seq<Byte>)
    ensures |r| == |flat|
  {
    if at + |line| <= |flat| then Splice(flat, at, line) else flat
  }

  /** The memory of a process after the first k lines were written, each with its terminator. */
  function Loaded(flat: seq<Byte>, lines: seq<seq<Byte>>, k: nat): (r: seq<Byte>)
    requires k <= |lines|
    ensures |r| == |flat|
  {
    if k == 0 then flat else Overlaid(Loaded(flat, lines, k - 1), (k - 1) * SLOT, lines[k - 1] + [0])
  }

  predicate NoZero(line: seq<Byte>) {
    forall i :: 0 <= i < |line| ==> line[i] != 0
  }

  lemma {:induction false} CStringOf(line: seq<Byte>, rest: seq<Byte>)
    requires NoZero(line)
    ensures CString(line + [0] + rest) == Line(line)
  {
    var buf := line + [0] + rest;
    if line != [] {
      assert buf[1..] == line[1..] + [0] + rest;
      CStringOf(line[1..], rest);
      assert [line[0]] + line[1..] == line;
    }
  }

  lemma {:induction false} CStringShort(buf: seq<Byte>)
    ensures CString(buf).Line? ==> |CString(buf).text| < |buf|
  {
    if buf != [] && buf[0] != 0 {
      CStringShort(buf[1..]);
    }
  }

  /** Slot i holds the line and its terminator. */
  predicate SlotHolds(flat: seq<Byte>, i: nat, line: seq<Byte>) {
    i * SLOT + |line| + 1 <= |flat| && flat[i * SLOT..i * SLOT + |line| + 1] == line + [0]
  }

  lemma {:induction false} LoadedSlots(flat: seq<Byte>, lines: seq<seq<Byte>>, k: nat, i: nat)
    requires i < k <= |lines| && |flat| == |lines| * SLOT
    requires forall j: nat :: j < |lines| ==> |lines[j]| < SLOT
    ensures SlotHolds(Loaded(flat, lines, k), i, lines[i])
  {
    var f := Loaded(flat, lines, k - 1);
    var at := (k - 1) * SLOT;
    var d := lines[k - 1] + [0];
    if i == k - 1 {
      SpliceRead(f, at, d, at, at + |d|);
    } else {
      LoadedSlots(flat, lines, k - 1, i);
      SpliceRead(f, at, d, i * SLOT, i * SLOT + |lines[i]| + 1);
    }
  }

  /** Fetching returns every line of the program exactly when no line is longer than 63 bytes. */
  lemma LoadThenFetch(flat: seq<Byte>, lines: seq<seq<Byte>>)
    requires |flat| == |lines| * SLOT && forall i: nat :: i < |lines| ==> NoZero(lines[i])
    ensures (forall i: nat :: i < |lines| ==> Fetch(Loaded(flat, lines, |lines|), i) == Line(lines[i]))
       <==> (forall i: nat :: i < |lines| ==> |lines[i]| < SLOT)
  {
    var f := Loaded(flat, lines, |lines|);
    if forall i: nat :: i < |lines| ==> |lines[i]| < SLOT {
      forall i: nat | i < |lines|
        ensures Fetch(f, i) == Line(lines[i])
      {
        LoadedSlots(flat, lines, |lines|, i);
        var buf := f[i * SLOT..i * SLOT + SLOT];
        SliceSlice(f, i * SLOT, i * SLOT + SLOT, 0, |lines[i]| + 1);
        assert buf == lines[i] + [0] + buf[|lines[i]| + 1..];
        CStringOf(lines[i], buf[|lines[i]| + 1..]);
      }
    }
    forall i: nat | i < |lines| && Fetch(f, i) == Line(lines[i])
      ensures |lines[i]| < SLOT
    {
      CStringShort(f[i * SLOT..i * SLOT + SLOT]);
    }
  }
}
