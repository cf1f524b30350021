// DialFS as its clients see it: a map from names to bytes on a disk of a given size. Nothing here knows where
// a file's blocks are.
module FileMap {
  import opened Bytes

  datatype Op =
    | Create(name: string)
    | Delete(name: string)
    | Truncate(name: string, size: nat)
    | Write(name: string, data: seq<Byte>, off: nat)
    | Read(name: string, size: nat, off: nat)

  datatype Space = Space(bs: nat, count: nat, files: map<string, seq<Byte>>)

  ghost function Pick<T>(m: map<string, T>): (x: string)
    requires m != map[]
    ensures x in m
  {
    assert m.Keys == {} ==> m == map[];
    var x :| x in m;
    x
  }

  /** Blocks needed by all files together. */
  ghost function Blocks(files: map<string, seq<Byte>>, bs: nat): nat
    requires 0 < bs
    decreases |files|
  {
    if files == map[] then 0
    else
      var x := Pick(files);
      assert |files - {x}| < |files|;
      Units(|files[x]|, bs) + Blocks(files - {x}, bs)
  }

  ghost function Free(s: Space): int
    requires 0 < s.bs
  {
    s.count - Blocks(s.files, s.bs)
  }

  /** One file has `size` bytes now, starting with what it had; every other file is as before. */
  ghost predicate ResizedContents(c: map<string, seq<Byte>>, c': map<string, seq<Byte>>, name: string, size: nat) {
    && name in c && name in c'
    && c' == c[name := c'[name]]
    && Truncated(c[name], size, c'[name])
  }

  /** The request may transfer bytes [off, off+n) of a file: it exists, is not empty and is long enough. */
  predicate InRange(s: Space, name: string, off: nat, n: nat) {
    name in s.files && s.files[name] != [] && off + n <= |s.files[name]|
  }

  ghost predicate Step(s: Space, op: Op, r: Reply, s': Space) {
    && 0 < s.bs && s'.bs == s.bs && s'.count == s.count
    && match op
       case Create(name) =>
         && r == Done(name !in s.files)
         && s'.files == if name in s.files then s.files else s.files[name := []]
       case Delete(name) =>
         && r == Done(name in s.files)
         && s'.files == s.files - {name}
       case Truncate(name, size) =>
         && r.Done? && (r.ok ==> name in s.files)
         && (if r.ok then ResizedContents(s.files, s'.files, name, size) else s' == s)
         && (&& name in s.files
             && (Units(size, s.bs) <= Units(|s.files[name]|, s.bs) || Units(size, s.bs) <= Free(s))
             ==> r.ok)
       case Write(name, data, off) =>
         && r == Done(InRange(s, name, off, |data|))
         && s'.files == if r.ok then s.files[name := Splice(s.files[name], off, data)] else s.files
       case Read(name, size, off) =>
         && s' == s
         && r == (if InRange(s, name, off, size) then Data(true, s.files[name][off..off + size]) else Data(false, []))
  }

  /** A run: trace[i] is the file map before request i. */
  ghost predicate Run(trace: seq<Space>, ops: seq<Op>, replies: seq<Reply>) {
    && |trace| == |ops| + 1 && |replies| == |ops|
    && forall i: nat | i < |ops| :: Step(trace[i], ops[i], replies[i], trace[i + 1])
  }

  /** The request may change byte `a` of a file. */
  predicate Touches(op: Op, name: string, a: nat) {
    match op
    case Create(_) => false
    case Delete(n) => n == name
    case Truncate(n, size) => n == name && size <= a
    case Write(n, data, off) => n == name && off <= a < off + |data|
    case Read(_, _, _) => false
  }

  ghost predicate HasByte(s: Space, name: string, a: nat, b: Byte) {
    name in s.files && a < |s.files[name]| && s.files[name][a] == b
  }

  lemma StepKeepsByte(s: Space, op: Op, r: Reply, s': Space, name: string, a: nat, b: Byte)
    requires Step(s, op, r, s') && !Touches(op, name, a) && HasByte(s, name, a, b)
    ensures HasByte(s', name, a, b)
  {
    if op.Truncate? && op.name == name && r.ok {
      var keep := if op.size < |s.files[name]| then op.size else |s.files[name]|;
      assert s'.files[name][a] == s'.files[name][..keep][a];
    }
  }

  /** Across any stretch of a run that does not touch it, a byte of a file keeps its value, whatever happens
      to other files and however often the disk is compacted. */
  lemma {:induction false} ByteKept(trace: seq<Space>, ops: seq<Op>, replies: seq<Reply>, i: nat, j: nat,
                                    name: string, a: nat, b: Byte)
    requires Run(trace, ops, replies) && i <= j < |trace|
    requires HasByte(trace[i], name, a, b)
    requires forall k: nat | i <= k < j :: !Touches(ops[k], name, a)
    ensures HasByte(trace[j], name, a, b)
    decreases j - i
  {
    if i < j {
      assert Step(trace[i], ops[i], replies[i], trace[i + 1]);
      StepKeepsByte(trace[i], ops[i], replies[i], trace[i + 1], name, a, b);
      ByteKept(trace, ops, replies, i + 1, j, name, a, b);
    }
  }

  /** A successful read returns, at each offset, the last byte written there. */
  lemma ReadsLastWrite(trace: seq<Space>, ops: seq<Op>, replies: seq<Reply>, i: nat, j: nat, a: nat)
    requires Run(trace, ops, replies) && i < j < |ops|
    requires ops[i].Write? && replies[i] == Done(true) && ops[i].off <= a < ops[i].off + |ops[i].data|
    requires ops[j].Read? && replies[j].Data? && replies[j].ok && ops[j].name == ops[i].name
    requires ops[j].off <= a < ops[j].off + ops[j].size
    requires forall k: nat | i < k < j :: !Touches(ops[k], ops[i].name, a)
    ensures a - ops[j].off < |replies[j].bytes|
    ensures replies[j].bytes[a - ops[j].off] == ops[i].data[a - ops[i].off]
  {
    var w := ops[i];
    assert Step(trace[i], w, replies[i], trace[i + 1]);
    assert HasByte(trace[i + 1], w.name, a, w.data[a - w.off]);
    ByteKept(trace, ops, replies, i + 1, j, w.name, a, w.data[a - w.off]);
    assert Step(trace[j], ops[j], replies[j], trace[j + 1]);
  }
}
