// The memory module under segmentation, in the form the program has it: free list, segment table and RAM
// changed in place.
module SegmentedMemoryModel {
  import opened Bytes
  import opened FreeList
  import opened SegmentSpace
  import opened SegmentLayout

  // ---- requests on values ----

  function Window(ram: seq<Byte>, s: Seg): seq<Byte> {
    if s.base + s.limit <= |ram| then ram[s.base..s.base + s.limit] else []
  }

  ghost function ViewOf(l: Layout, ram: seq<Byte>): Memory {
    Memory(|ram|, map pid | pid in l.segs :: Window(ram, l.segs[pid]))
  }

  /** A growth that finds no room right after the segment. */
  ghost predicate Moves(l: Layout, pid: nat, size: nat) {
    pid in l.segs && l.segs[pid].limit < size && !CanExtend(l.free, l.segs[pid], size)
  }

  /** What a request answers and does to the layout and to RAM. */
  ghost predicate Transition(l: Layout, ram: seq<Byte>, op: SegOp, r: Reply, l': Layout, ram': seq<Byte>)
    requires Tiled(l, |ram|)
  {
    match op
    case Create(_, _) => r.Done? && Move(l, op, r.ok, l') && ram' == ram
    case Destroy(_) => r.Done? && Move(l, op, r.ok, l') && ram' == ram
    case Resize(pid, size) =>
      && r.Done? && Move(l, op, r.ok, l')
      && if r.ok && Moves(l, pid, size) then CopiedTo(l, ram, pid, l', ram') else ram' == ram
    case Write(pid, dir, data) =>
      && l' == l && r == Done(pid in l.segs && dir + |data| <= l.segs[pid].limit)
      && ram' == if r.ok then Splice(ram, l.segs[pid].base + dir, data) else ram
    case Read(pid, dir, len) =>
      && l' == l && ram' == ram
      && r == if pid in l.segs && dir + len <= l.segs[pid].limit
              then Data(true, ram[l.segs[pid].base + dir..l.segs[pid].base + dir + len]) else Data(false, [])
  }

  /** The old bytes of the segment are where it is now, and nothing else changed. */
  ghost predicate CopiedTo(l: Layout, ram: seq<Byte>, pid: nat, l': Layout, ram': seq<Byte>) {
    && pid in l.segs && pid in l'.segs
    && var s, base := l.segs[pid], l'.segs[pid].base;
       s.base + s.limit <= |ram| && base + s.limit <= |ram| && ram' == Splice(ram, base, ram[s.base..s.base + s.limit])
  }

  // ---- the module ----

  class SegmentedMemory {
    const ram: array<Byte>
    var ready: bool
    var free: seq<Block>
    var segs: map<nat, Seg>
    /** The programs of the processes that were created (memoria_core.c). */
    var programs: map<nat, seq<seq<Byte>>>

    ghost function L(): Layout
      reads this
    {
      Layout(if ready then free else [Block(0, ram.Length)], segs)
    }

    ghost predicate Valid()
      reads this
    {
      0 < ram.Length < 0x8000_0000 && Tiled(L(), ram.Length) && (!ready ==> segs == map[])
    }

    /** What clients see. */
    ghost function View(): Memory
      reads this, ram
    {
      ViewOf(L(), ram[..])
    }

    constructor (size: nat)
      requires 0 < size < 0x8000_0000
      ensures Valid() && fresh(ram) && ram.Length == size && programs == map[]
      ensures L() == Layout([Block(0, size)], map[])
    {
      ram := new Byte[size](_ => 0);
      ready, free, segs, programs := false, [], map[], map[];
      new;
      OneFreeBlock(size);
    }

    /** On first use the free list is one block covering all RAM. */
    method InitIfNeeded()
      modifies this`ready, this`free
      ensures ready && L() == old(L())
    {
      if !ready {
        ready, free := true, [Block(0, ram.Length)];
      }
    }

    /** Index of the first block with at least n bytes, or -1. */
    method FindFirstFit(n: nat) returns (i: int)
      ensures i == -1 <==> forall j: nat :: j < |free| ==> free[j].size < n
      ensures i != -1 ==> 0 <= i < |free| && n <= free[i].size && forall j: nat :: j < i ==> free[j].size < n
    {
      for k := 0 to |free|
        invariant forall j: nat :: j < k ==> free[j].size < n
      {
        if free[k].size >= n {
          return k;
        }
      }
      return -1;
    }

    /** Removes block i, or shrinks it from the front. */
    method TakeFront(i: nat, n: nat)
      requires i < |free| && n <= free[i].size
      modifies this`free
      ensures free == Take(old(free), i, n)
    {
      if free[i].size == n {
        free := free[..i] + free[i + 1..];
      } else {
        free := free[i := Block(free[i].base + n, free[i].size - n)];
      }
    }

    method InsertBlock(b: Block)
      modifies this`free
      ensures free == Insert(old(free), b)
    {
      var i := 0;
      assert free[0..] == free;
      while i < |free|
        invariant i <= |free| && free == old(free)
        invariant Insert(free, b) == free[..i] + Insert(free[i..], b)
      {
        assert free[i..][1..] == free[i + 1..] && free[i..][0] == free[i];
        if b.base < free[i].base {
          free := free[..i] + [b] + free[i..];
          return;
        }
        assert free[..i + 1] == free[..i] + [free[i]];
        i := i + 1;
      }
      assert free[..i] == free && free[i..] == [];
      free := free + [b];
    }

    method MergeAdjacent()
      modifies this`free
      ensures free == Merge(old(free))
    {
      var i := 0;
      assert free[0..] == free;
      while i < |free| - 1
        invariant i <= |free|
        invariant Merge(old(free)) == free[..i] + Merge(free[i..])
        decreases |free| - i
      {
        MergeAt(free, i);
        if free[i].base + free[i].size == free[i + 1].base {
          free := Joined(free, i);
        } else {
          i := i + 1;
        }
      }
      assert free[..i] + free[i..] == free;
    }

    method GiveBack(b: Block)
      modifies this`free
      ensures free == Return(old(free), b)
    {
      InsertBlock(b);
      MergeAdjacent();
    }

    method Create(pid: nat, size: nat) returns (ok: bool)
      requires Valid() && size < 0x8000_0000
      modifies this`ready, this`free, this`segs
      ensures Valid() && ready && Move(old(L()), SegOp.Create(pid, size), ok, L())
      ensures ok <==> && pid !in old(segs)
                      && exists k: nat :: k < |old(L()).free| && size <= old(L()).free[k].size
      ensures ok ==> && pid in segs && segs == old(segs)[pid := segs[pid]] && segs[pid].limit == size
                     && exists k: nat :: k < |old(L()).free| && size <= old(L()).free[k].size
                                         && segs[pid].base == old(L()).free[k].base
                                         && forall j: nat :: j < k ==> old(L()).free[j].size < size
    {
      hide Tiled, Take;
      InitIfNeeded();
      ghost var l := L();
      if pid in segs {
        return false;
      }
      var i := FindFirstFit(size);
      if i == -1 {
        return false;
      }
      var base := free[i].base;
      TakeFront(i, size);
      segs := segs[pid := Seg(base, size)];
      assert FirstFit(l.free, size, i);
      CreateTiled(l, L(), ram.Length, pid, size);
      ok := true;
    }

    method Destroy(pid: nat)
      requires Valid()
      modifies this`free, this`segs
      ensures Valid() && Move(old(L()), SegOp.Destroy(pid), true, L())
    {
      hide Tiled, Return;
      DestroyTiled(L(), ram.Length, pid);
      if ready && pid in segs {
        var s := segs[pid];
        segs := segs - {pid};
        GiveBack(Block(s.base, s.limit));
      }
    }

    method Resize(pid: nat, size: nat) returns (ok: bool)
      requires Valid() && size < 0x8000_0000
      modifies this`free, this`segs, ram
      ensures Valid() && Move(old(L()), SegOp.Resize(pid, size), ok, L())
      ensures pid !in old(segs) ==> !ok
      ensures pid in old(segs) ==>
                var f, s := old(L()).free, old(segs)[pid];
                var stays := size <= s.limit || exists k: nat :: k < |f| && f[k].base == s.base + s.limit
                                                                 && size - s.limit <= f[k].size;
                && (ok <==> stays || exists k: nat :: k < |f| && size <= f[k].size)
                && (ok ==> && pid in segs && segs == old(segs)[pid := segs[pid]] && segs[pid].limit == size
                           && if stays then segs[pid].base == s.base
                              else exists k: nat :: k < |f| && size <= f[k].size && segs[pid].base == f[k].base
                                                    && forall j: nat :: j < k ==> f[j].size < size)
      ensures if ok && Moves(old(L()), pid, size) then CopiedTo(old(L()), old(ram[..]), pid, L(), ram[..])
              else ram[..] == old(ram[..])
    {
      hide Tiled, Move;
      ok := Place(pid, size);
      ResizePlaces(old(L()), pid, size, ok, L());
    }

    /** The cases of a resize. */
    method Place(pid: nat, size: nat) returns (ok: bool)
      requires Valid() && size < 0x8000_0000
      modifies this`free, this`segs, ram
      ensures Valid() && Move(old(L()), SegOp.Resize(pid, size), ok, L())
      ensures if ok && Moves(old(L()), pid, size) then CopiedTo(old(L()), old(ram[..]), pid, L(), ram[..])
              else ram[..] == old(ram[..])
    {
      hide Tiled, Return, Take, ExtendsAt, FirstFit;
      if !ready || pid !in segs {
        return false;
      }
      var s := segs[pid];
      if size == s.limit {
        return true;
      }
      if size < s.limit {
        Shrink(pid, size);
        return true;
      }
      ok := ExtendInPlace(pid, size);
      if !ok {
        SomeFits(free, size);
        ok := Relocate(pid, size);
      }
    }

    method Shrink(pid: nat, size: nat)
      requires Valid() && ready && pid in segs && size < segs[pid].limit
      modifies this`free, this`segs
      ensures Valid() && ready && L() == Shrunk(old(L()), pid, size)
    {
      hide Tiled, Return;
      ShrinkTiled(L(), ram.Length, pid, size);
      var s := segs[pid];
      GiveBack(Block(s.base + size, s.limit - size));
      segs := segs[pid := Seg(s.base, size)];
    }

    /** Grows into the free block right after the segment, if there is one and it is big enough. */
    method ExtendInPlace(pid: nat, size: nat) returns (ok: bool)
      requires Valid() && ready && pid in segs && segs[pid].limit < size
      modifies this`free, this`segs
      ensures Valid() && ready && (ok <==> CanExtend(old(free), old(segs)[pid], size))
      ensures !ok ==> L() == old(L())
      ensures ok ==> exists j: nat ::
                ExtendsAt(old(free), old(segs)[pid], size, j) && L() == Extended(old(L()), pid, size, j)
    {
      hide Tiled, Take;
      ghost var l := L();
      var s := segs[pid];
      var extra, end := size - s.limit, s.base + s.limit;
      for i := 0 to |free|
        invariant free == old(free) && segs == old(segs)
        invariant forall j: nat :: j < i ==> !ExtendsAt(free, s, size, j)
      {
        if free[i].base == end && free[i].size >= extra {
          ExtendTiled(l, ram.Length, pid, size, i);
          TakeFront(i, extra);
          segs := segs[pid := Seg(s.base, size)];
          assert ExtendsAt(l.free, s, size, i) && L() == Extended(l, pid, size, i);
          return true;
        }
      }
      ok := false;
    }

    /** Moves the segment, with its bytes, to the first block big enough for the new size. */
    method Relocate(pid: nat, size: nat) returns (ok: bool)
      requires Valid() && ready && pid in segs && segs[pid].limit < size
      modifies this`free, this`segs, ram
      ensures Valid() && (ok <==> exists k: nat :: k < |old(free)| && size <= old(free)[k].size)
      ensures ok ==> && pid in segs
                     && exists k: nat :: k < |old(free)| && size <= old(free)[k].size
                                         && segs[pid].base == old(free)[k].base
                                         && forall j: nat :: j < k ==> old(free)[j].size < size
      ensures !ok ==> L() == old(L()) && ram[..] == old(ram[..])
      ensures ok ==> exists i: nat :: FirstFit(old(free), size, i) && L() == Relocated(old(L()), pid, size, i)
      ensures ok ==> CopiedTo(old(L()), old(ram[..]), pid, L(), ram[..])
    {
      hide Tiled, Return, Take, Splice;
      ghost var l := L();
      var i := FindFirstFit(size);
      if i == -1 {
        return false;
      }
      var s := segs[pid];
      var base := free[i].base;
      RelocationFits(l, ram.Length, pid, i, size);
      RelocateTiled(l, ram.Length, pid, size, i);
      TakeFront(i, size);
      CopyRam(s.base, base, s.limit);
      GiveBack(Block(s.base, s.limit));
      segs := segs[pid := Seg(base, size)];
      assert FirstFit(l.free, size, i) && L() == Relocated(l, pid, size, i);
      ok := true;
    }

    /** Reads the old bytes into a temporary buffer and writes them at the new place. */
    method CopyRam(src: nat, dst: nat, len: nat)
      requires src + len <= ram.Length && dst + len <= ram.Length
      modifies ram
      ensures ram[..] == Splice(old(ram[..]), dst, old(ram[..])[src..src + len])
    {
      var temp := ram[src..src + len];
      forall a | 0 <= a < len {
        ram[dst + a] := temp[a];
      }
    }

    method Write(pid: nat, dir: nat, data: seq<Byte>) returns (ok: bool)
      requires Valid() && dir + |data| < 0x1_0000_0000
      modifies ram
      ensures Valid() && (ok <==> pid in segs && dir + |data| <= segs[pid].limit)
      ensures !ok ==> ram[..] == old(ram[..])
      ensures ok ==> segs[pid].base + dir + |data| <= ram.Length
                     && ram[..] == Splice(old(ram[..]), segs[pid].base + dir, data)
    {
      if !ready || pid !in segs || dir + |data| > segs[pid].limit {
        return false;
      }
      var phys := segs[pid].base + dir;
      forall a | 0 <= a < |data| {
        ram[phys + a] := data[a];
      }
      ok := true;
    }

    method Read(pid: nat, dir: nat, len: nat) returns (ok: bool, data: seq<Byte>)
      requires Valid() && dir + len < 0x1_0000_0000
      ensures ok <==> pid in segs && dir + len <= segs[pid].limit
      ensures ok ==> segs[pid].base + dir + len <= ram.Length
                     && data == ram[segs[pid].base + dir..segs[pid].base + dir + len]
    {
      if !ready || pid !in segs || dir + len > segs[pid].limit {
        return false, [];
      }
      return true, ram[segs[pid].base + dir..segs[pid].base + dir + len];
    }

    /** Instruction pc of a process, read from RAM. */
    method FetchInstruction(pid: nat, pc: nat) returns (r: Fetched)
      requires Valid() && pc * 64 + 64 < 0x1_0000_0000
      ensures r == if pid in segs then Fetch(Window(ram[..], segs[pid]), pc) else Missing
    {
      var ok, buffer := Read(pid, pc * 64, 64);
      if !ok {
        return Missing;
      }
      SliceSlice(ram[..], segs[pid].base, segs[pid].base + segs[pid].limit, pc * 64, 64);
      r := CString(buffer);
    }

    // ---- memoria_core.c: processes and their programs ----

    /** Creates a process whose memory holds its program, one line per 64-byte slot. An empty program is refused. */
    method CreateProcess(pid: nat, lines: seq<seq<Byte>>) returns (ok: bool)
      requires Valid() && |lines| * 64 < 0x8000_0000
      requires forall i: nat :: i < |lines| ==> |lines[i]| < 0x4000_0000
      modifies this, ram
      ensures Valid()
      ensures ok <==> && pid !in old(programs) && lines != [] && pid !in old(segs)
                      && exists i: nat :: FirstFit(old(L()).free, |lines| * SLOT, i)
      ensures ok ==> CreatedFirst(old(L()), L(), pid, |lines| * SLOT) && programs == old(programs)[pid := lines]
      ensures !ok ==> L() == old(L()) && programs == old(programs) && ram[..] == old(ram[..])
      ensures ok ==> forall q :: q in old(segs) ==> Window(ram[..], segs[q]) == old(Window(ram[..], segs[q]))
      ensures ok ==> pid in segs && HasProgram(Window(ram[..], segs[pid]), lines)
    {
      hide Tiled;
      if pid in programs || lines == [] {
        return false;
      }
      ok := Create(pid, |lines| * 64);
      if !ok {
        return false;
      }
      programs := programs[pid := lines];
      NewWindow(L(), ram[..], pid);
      LoadLines(pid, lines);
    }

    /** A process ends: its segment goes back to the free list and its program is forgotten, so that its pid can be used
        again. */
    method DestroyProcess(pid: nat)
      requires Valid()
      modifies this`free, this`segs, this`programs
      ensures Valid() && L() == Destroyed(old(L()), pid) && programs == old(programs) - {pid}
      ensures pid !in segs && pid !in programs
    {
      hide Tiled;
      Destroy(pid);
      programs := programs - {pid};
    }

    /** The loading loop. */
    method LoadLines(pid: nat, lines: seq<seq<Byte>>)
      requires Valid() && pid in segs && |lines| * 64 < 0x8000_0000
      requires forall i: nat :: i < |lines| ==> |lines[i]| < 0x4000_0000
      modifies ram
      ensures Valid()
      ensures Window(ram[..], segs[pid]) == Loaded(old(Window(ram[..], segs[pid])), lines, |lines|)
      ensures forall q :: q in segs && q != pid ==> Window(ram[..], segs[q]) == old(Window(ram[..], segs[q]))
    {
      hide Tiled, Window;
      ghost var before, ram0 := Window(ram[..], segs[pid]), ram[..];
      for i := 0 to |lines|
        invariant Valid()
        invariant Window(ram[..], segs[pid]) == Loaded(before, lines, i)
        invariant forall q :: q in segs && q != pid ==> Window(ram[..], segs[q]) == Window(ram0, segs[q])
      {
        LoadLine(pid, i * 64, lines[i] + [0]);
      }
    }

    /** One line. The result of the write is ignored, as the source does. */
    method LoadLine(pid: nat, at: nat, line: seq<Byte>)
      requires Valid() && pid in segs && at + |line| < 0x1_0000_0000
      modifies ram
      ensures Valid()
      ensures Window(ram[..], segs[pid]) == Overlaid(old(Window(ram[..], segs[pid])), at, line)
      ensures forall q :: q in segs && q != pid ==> Window(ram[..], segs[q]) == old(Window(ram[..], segs[q]))
    {
      hide Tiled, Window, Overlaid;
      ghost var r := ram[..];
      LineWindows(L(), r, pid, at, line);
      var done := Write(pid, at, line);
    }

    // ---- client requests ----

    /** One client request answers and does exactly what the value model says. */
    method Execute(op: SegOp) returns (r: Reply)
      requires Valid() && Fits(op)
      modifies this`ready, this`free, this`segs, ram
      ensures Valid() && Transition(old(L()), old(ram[..]), op, r, L(), ram[..])
    {
      hide Tiled, Move, CopiedTo, Moves;
      match op {
        case Create(pid, size) =>
          var ok := Create(pid, size);
          r := Done(ok);
        case Destroy(pid) =>
          Destroy(pid);
          r := Done(true);
        case Resize(pid, size) =>
          var ok := Resize(pid, size);
          r := Done(ok);
        case Write(pid, dir, data) =>
          var ok := Write(pid, dir, data);
          r := Done(ok);
        case Read(pid, dir, len) =>
          var ok, data := Read(pid, dir, len);
          r := Data(ok, if ok then data else []);
      }
    }

    /** Any run of client requests is a run of one byte array per process; and the free list stays in order while
        only positive sizes are asked for. */
    method Run(ops: seq<SegOp>) returns (replies: seq<Reply>, ghost trace: seq<Memory>)
      requires Valid() && forall op :: op in ops ==> Fits(op)
      modifies this`ready, this`free, this`segs, ram
      ensures Valid() && SegRun(trace, ops, replies) && trace[0] == old(View()) && trace[|ops|] == View()
      ensures old(NoEmpty(L())) && (forall op :: op in ops ==> Positive(op)) ==> NoEmpty(L())
    {
      hide SegStep, ViewOf, Fits, Tiled, Move, NoEmpty, Positive;
      replies, trace := [], [View()];
      for i := 0 to |ops|
        invariant Valid()
        invariant |trace| == i + 1 && trace[0] == old(View()) && trace[i] == View()
        invariant |replies| == i
        invariant forall k: nat | k < i :: SegStep(trace[k], ops[k], replies[k], trace[k + 1])
        invariant old(NoEmpty(L())) && (forall op :: op in ops ==> Positive(op)) ==> NoEmpty(L())
      {
        ghost var l, r0 := L(), ram[..];
        var r := Execute(ops[i]);
        TransitionStep(l, r0, ops[i], r, L(), ram[..]);
        TransitionOrder(l, r0, ops[i], r, L(), ram[..]);
        replies, trace := replies + [r], trace + [View()];
      }
    }
  }

  /** Sizes are below 2^31, addresses below 2^32. */
  predicate Fits(op: SegOp) {
    match op
    case Create(_, size) => size < 0x8000_0000
    case Destroy(_) => true
    case Resize(_, size) => size < 0x8000_0000
    case Write(_, dir, data) => dir + |data| < 0x1_0000_0000
    case Read(_, dir, len) => dir + len < 0x1_0000_0000
  }

  /** Where a process is put and moved, read off the free list before the request. */
  lemma TransitionPlaces(l: Layout, ram: seq<Byte>, op: SegOp, r: Reply, l': Layout, ram': seq<Byte>)
    requires Tiled(l, |ram|) && Transition(l, ram, op, r, l', ram') && (op.Create? || op.Resize?)
    ensures op.Create? ==> (r.ok <==> op.pid !in l.segs && exists k: nat :: k < |l.free| && op.size <= l.free[k].size)
    ensures r.ok ==>
              && op.pid in l'.segs && l'.segs[op.pid].limit == op.size
              && (|| (op.pid in l.segs && l'.segs[op.pid].base == l.segs[op.pid].base)
                  || exists k: nat :: k < |l.free| && op.size <= l.free[k].size
                                      && l'.segs[op.pid].base == l.free[k].base
                                      && forall j: nat :: j < k ==> l.free[j].size < op.size)
  {
    hide Tiled, Move, CopiedTo;
    match op
    case Create(pid, size) => CreateLowest(l, pid, size, r.ok, l');
    case Resize(pid, size) => ResizePlaces(l, pid, size, r.ok, l');
  }

  /** What each request means for the bytes processes see. */
  lemma TransitionStep(l: Layout, ram: seq<Byte>, op: SegOp, r: Reply, l': Layout, ram': seq<Byte>)
    requires Tiled(l, |ram|) && Transition(l, ram, op, r, l', ram')
    ensures SegStep(ViewOf(l, ram), op, r, ViewOf(l', ram'))
  {
    hide SegStep, ViewOf, Tiled, Move, CopiedTo;
    match op
    case Create(_, _) => CreateStep(l, ram, op, r.ok, l');
    case Destroy(_) => DestroyStep(l, ram, op, r.ok, l');
    case Resize(_, _) => ResizeStep(l, ram, op, r.ok, l', ram');
    case Write(_, _, _) => WriteStep(l, ram, op, r.ok, ram');
    case Read(_, _, _) => ReadStep(l, ram, op, r);
  }

  lemma TransitionOrder(l: Layout, ram: seq<Byte>, op: SegOp, r: Reply, l': Layout, ram': seq<Byte>)
    requires Tiled(l, |ram|) && Transition(l, ram, op, r, l', ram')
    ensures NoEmpty(l) && Positive(op) ==> NoEmpty(l')
  {
    hide Tiled, Move, CopiedTo, NoEmpty;
    if NoEmpty(l) && Positive(op) && (op.Create? || op.Destroy? || op.Resize?) {
      PositiveKeepsOrder(l, op, r.ok, l', |ram|);
    }
  }

  lemma NewWindow(l: Layout, ram: seq<Byte>, pid: nat)
    requires Tiled(l, |ram|) && pid in l.segs
    ensures |Window(ram, l.segs[pid])| == l.segs[pid].limit
  {
  }

  lemma CreateStep(l: Layout, ram: seq<Byte>, op: SegOp, ok: bool, l': Layout)
    requires op.Create? && Tiled(l, |ram|) && Move(l, op, ok, l')
    ensures SegStep(ViewOf(l, ram), op, Done(ok), ViewOf(l', ram))
  {
    MoveTiled(l, op, ok, l', |ram|);
    hide Tiled, Take, FirstFit;
    if ok {
      NewWindow(l', ram, op.pid);
      assert ViewOf(l', ram).flats == ViewOf(l, ram).flats[op.pid := Window(ram, l'.segs[op.pid])];
    }
  }

  lemma DestroyStep(l: Layout, ram: seq<Byte>, op: SegOp, ok: bool, l': Layout)
    requires op.Destroy? && Move(l, op, ok, l')
    ensures SegStep(ViewOf(l, ram), op, Done(ok), ViewOf(l', ram))
  {
    hide Return;
    assert ViewOf(l', ram).flats == ViewOf(l, ram).flats - {op.pid};
  }

  lemma ResizeStep(l: Layout, ram: seq<Byte>, op: SegOp, ok: bool, l': Layout, ram': seq<Byte>)
    requires op.Resize? && Tiled(l, |ram|) && Move(l, op, ok, l')
    requires if ok && Moves(l, op.pid, op.size) then CopiedTo(l, ram, op.pid, l', ram') else ram' == ram
    ensures SegStep(ViewOf(l, ram), op, Done(ok), ViewOf(l', ram'))
  {
    hide Tiled, Placed, CanResize, Window, CopiedTo, ViewOf, SegStep, Truncated;
    if ok {
      ResizeBytes(l, ram, op.pid, op.size, l', ram');
      ResizedView(l, ram, op, l', ram');
    } else {
      RefusedView(l, ram, op);
    }
  }

  lemma ResizeBytes(l: Layout, ram: seq<Byte>, pid: nat, size: nat, l': Layout, ram': seq<Byte>)
    requires Tiled(l, |ram|) && pid in l.segs && Placed(l, l', pid, size)
    requires if Moves(l, pid, size) then CopiedTo(l, ram, pid, l', ram') else ram' == ram
    ensures |ram'| == |ram| && pid in l'.segs && l'.segs == l.segs[pid := l'.segs[pid]]
    ensures Truncated(Window(ram, l.segs[pid]), size, Window(ram', l'.segs[pid]))
    ensures forall q :: q in l.segs && q != pid ==> Window(ram', l.segs[q]) == Window(ram, l.segs[q])
  {
    hide Tiled, Placed, Window, CopiedTo, Truncated;
    if Moves(l, pid, size) {
      MoveBytes(l, ram, pid, size, l', ram');
    } else {
      PlaceTiled(l, l', |ram|, pid, size);
      KeepBytes(l, ram, pid, size, l');
    }
  }

  lemma ResizedView(l: Layout, ram: seq<Byte>, op: SegOp, l': Layout, ram': seq<Byte>)
    requires op.Resize? && |ram'| == |ram| && op.pid in l.segs && op.pid in l'.segs
    requires l'.segs == l.segs[op.pid := l'.segs[op.pid]]
    requires Truncated(Window(ram, l.segs[op.pid]), op.size, Window(ram', l'.segs[op.pid]))
    requires forall q :: q in l.segs && q != op.pid ==> Window(ram', l.segs[q]) == Window(ram, l.segs[q])
    ensures SegStep(ViewOf(l, ram), op, Done(true), ViewOf(l', ram'))
  {
    hide Window, Truncated;
    assert ViewOf(l', ram').flats == ViewOf(l, ram).flats[op.pid := Window(ram', l'.segs[op.pid])];
  }

  /** A resize that fails is of an unknown process, or asks for more than it has. */
  lemma RefusedView(l: Layout, ram: seq<Byte>, op: SegOp)
    requires op.Resize? && Tiled(l, |ram|) && !(op.pid in l.segs && CanResize(l.free, l.segs[op.pid], op.size))
    ensures SegStep(ViewOf(l, ram), op, Done(false), ViewOf(l, ram))
  {
    if op.pid in l.segs {
      NewWindow(l, ram, op.pid);
    }
  }

  /** The segment keeps its base and nothing in RAM changes. */
  lemma KeepBytes(l: Layout, ram: seq<Byte>, pid: nat, size: nat, l': Layout)
    requires pid in l.segs && Placed(l, l', pid, size) && !Moves(l, pid, size)
    requires Tiled(l, |ram|) && Tiled(l', |ram|)
    ensures pid in l'.segs && l'.segs == l.segs[pid := l'.segs[pid]]
    ensures Truncated(Window(ram, l.segs[pid]), size, Window(ram, l'.segs[pid]))
  {
    assert l.segs[pid].base + l.segs[pid].limit <= |ram|;
    hide Disjoint, Within, Take, Return, FirstFit;
    assert l'.segs == l.segs[pid := Seg(l.segs[pid].base, size)];
    assert l'.segs[pid].base + l'.segs[pid].limit <= |ram|;
  }

  /** The segment moved into a free block, so no other segment changes. */
  lemma MoveBytes(l: Layout, ram: seq<Byte>, pid: nat, size: nat, l': Layout, ram': seq<Byte>)
    requires Tiled(l, |ram|) && Moves(l, pid, size) && Placed(l, l', pid, size) && CopiedTo(l, ram, pid, l', ram')
    ensures |ram'| == |ram| && pid in l'.segs && l'.segs == l.segs[pid := l'.segs[pid]]
    ensures Truncated(Window(ram, l.segs[pid]), size, Window(ram', l'.segs[pid]))
    ensures forall q :: q in l.segs && q != pid ==> Window(ram', l.segs[q]) == Window(ram, l.segs[q])
  {
    hide Tiled, Take, Return, CanExtend, Window, Truncated;
    var i: nat :| FirstFit(l.free, size, i) && l' == Relocated(l, pid, size, i);
    RelocationFits(l, |ram|, pid, i, size);
    OthersElsewhere(l, ram, pid, i, size, ram');
    MovedPrefix(ram, ram', l.segs[pid].base, l.free[i].base, l.segs[pid].limit, size);
  }

  lemma RelocationFits(l: Layout, total: nat, pid: nat, i: nat, size: nat)
    requires Tiled(l, total) && pid in l.segs && i < |l.free| && l.segs[pid].limit < size <= l.free[i].size
    ensures l.segs[pid].base + l.segs[pid].limit <= total && l.free[i].base + size <= total
  {
    assert l.free[i].End() <= total;
  }

  /** The copied bytes land in a free block, so no segment changes. */
  lemma OthersElsewhere(l: Layout, ram: seq<Byte>, pid: nat, i: nat, size: nat, ram': seq<Byte>)
    requires Tiled(l, |ram|) && pid in l.segs && i < |l.free| && l.segs[pid].limit < size <= l.free[i].size
    requires l.segs[pid].base + l.segs[pid].limit <= |ram| && l.free[i].base + l.segs[pid].limit <= |ram|
    requires ram' == Splice(ram, l.free[i].base, ram[l.segs[pid].base..l.segs[pid].base + l.segs[pid].limit])
    ensures forall q :: q in l.segs ==> Window(ram', l.segs[q]) == Window(ram, l.segs[q])
  {
    forall q | q in l.segs
      ensures Window(ram', l.segs[q]) == Window(ram, l.segs[q])
    {
      PartApart(l, |ram|, q, 0);
      assert Clear(l.free[i], Whole(l.segs[q]));
      SpliceRead(ram, l.free[i].base, ram[l.segs[pid].base..l.segs[pid].base + l.segs[pid].limit],
                 l.segs[q].base, l.segs[q].base + l.segs[q].limit);
    }
  }

  lemma MovedPrefix(ram: seq<Byte>, ram': seq<Byte>, src: nat, dst: nat, len: nat, size: nat)
    requires src + len <= |ram| && len < size && dst + size <= |ram|
    requires ram' == Splice(ram, dst, ram[src..src + len])
    ensures Truncated(Window(ram, Seg(src, len)), size, Window(ram', Seg(dst, size)))
  {
    SpliceRead(ram, dst, ram[src..src + len], dst, dst + len);
    SliceSlice(ram', dst, dst + size, 0, len);
  }

  lemma WriteStep(l: Layout, ram: seq<Byte>, op: SegOp, ok: bool, ram': seq<Byte>)
    requires op.Write? && Tiled(l, |ram|) && (ok <==> op.pid in l.segs && op.dir + |op.data| <= l.segs[op.pid].limit)
    requires ram' == if ok then Splice(ram, l.segs[op.pid].base + op.dir, op.data) else ram
    ensures SegStep(ViewOf(l, ram), op, Done(ok), ViewOf(l, ram'))
  {
    if op.pid in l.segs {
      NewWindow(l, ram, op.pid);
    }
    if ok {
      WriteWindows(l, ram, op.pid, op.dir, op.data);
      assert ViewOf(l, ram').flats ==
             ViewOf(l, ram).flats[op.pid := Splice(Window(ram, l.segs[op.pid]), op.dir, op.data)];
    }
  }

  lemma ReadStep(l: Layout, ram: seq<Byte>, op: SegOp, r: Reply)
    requires op.Read? && Tiled(l, |ram|)
    requires r == if op.pid in l.segs && op.dir + op.len <= l.segs[op.pid].limit
                  then Data(true, ram[l.segs[op.pid].base + op.dir..l.segs[op.pid].base + op.dir + op.len])
                  else Data(false, [])
    ensures SegStep(ViewOf(l, ram), op, r, ViewOf(l, ram))
  {
    if op.pid in l.segs {
      NewWindow(l, ram, op.pid);
    }
    if r.ok {
      SliceSlice(ram, l.segs[op.pid].base, l.segs[op.pid].base + l.segs[op.pid].limit, op.dir, op.len);
    }
  }

  /** A write inside a segment changes that process's bytes and nobody else's. */
  lemma WriteWindows(l: Layout, ram: seq<Byte>, pid: nat, dir: nat, data: seq<Byte>)
    requires Tiled(l, |ram|) && pid in l.segs && dir + |data| <= l.segs[pid].limit
    ensures l.segs[pid].base + dir + |data| <= |ram| && |Window(ram, l.segs[pid])| == l.segs[pid].limit
    ensures Window(Splice(ram, l.segs[pid].base + dir, data), l.segs[pid]) ==
            Splice(Window(ram, l.segs[pid]), dir, data)
    ensures forall q :: q in l.segs && q != pid ==>
              Window(Splice(ram, l.segs[pid].base + dir, data), l.segs[q]) == Window(ram, l.segs[q])
  {
    SpliceWindow(ram, l.segs[pid].base, l.segs[pid].limit, dir, data);
    forall q | q in l.segs && q != pid
      ensures Window(Splice(ram, l.segs[pid].base + dir, data), l.segs[q]) == Window(ram, l.segs[q])
    {
      OtherWindow(l, ram, pid, dir, data, q);
    }
  }

  lemma OtherWindow(l: Layout, ram: seq<Byte>, pid: nat, dir: nat, data: seq<Byte>, q: nat)
    requires Tiled(l, |ram|) && pid in l.segs && dir + |data| <= l.segs[pid].limit && q in l.segs && q != pid
    ensures l.segs[pid].base + dir + |data| <= |ram|
    ensures Window(Splice(ram, l.segs[pid].base + dir, data), l.segs[q]) == Window(ram, l.segs[q])
  {
    SegsApart(l, |ram|, pid, q);
    assert l.segs[q].base + l.segs[q].limit <= |ram| && l.segs[pid].base + l.segs[pid].limit <= |ram|;
    hide Tiled;
    if data == [] {
      assert Splice(ram, l.segs[pid].base + dir, data) == ram;
    } else if 0 < l.segs[q].limit {
      SpliceRead(ram, l.segs[pid].base + dir, data, l.segs[q].base, l.segs[q].base + l.segs[q].limit);
    }
  }

  lemma SegsApart(l: Layout, total: nat, p: nat, q: nat)
    requires Tiled(l, total) && p in l.segs && q in l.segs && p != q
    ensures Clear(Whole(l.segs[p]), Whole(l.segs[q]))
  {
    var a := if l.segs[p].base < l.segs[q].base then l.segs[q].base else l.segs[p].base;
    assert InSeg(l.segs, p, a) && InSeg(l.segs, q, a) ==> p == q;
  }

  /** What writing one line, if it fits, means for every process. */
  lemma LineWindows(l: Layout, ram: seq<Byte>, pid: nat, at: nat, line: seq<Byte>)
    requires Tiled(l, |ram|) && pid in l.segs
    ensures at + |line| <= l.segs[pid].limit ==>
              && l.segs[pid].base + at + |line| <= |ram|
              && Window(Splice(ram, l.segs[pid].base + at, line), l.segs[pid]) ==
                 Overlaid(Window(ram, l.segs[pid]), at, line)
              && (forall q :: q in l.segs && q != pid ==>
                    Window(Splice(ram, l.segs[pid].base + at, line), l.segs[q]) == Window(ram, l.segs[q]))
    ensures at + |line| > l.segs[pid].limit ==> Overlaid(Window(ram, l.segs[pid]), at, line) == Window(ram, l.segs[pid])
  {
    NewWindow(l, ram, pid);
    if at + |line| <= l.segs[pid].limit {
      WriteWindows(l, ram, pid, at, line);
    }
  }

  /** The memory is that of a process whose program was just loaded over whatever was there. */
  ghost predicate HasProgram(flat: seq<Byte>, lines: seq<seq<Byte>>) {
    exists before: seq<Byte> :: |before| == |lines| * SLOT && flat == Loaded(before, lines, |lines|)
  }

  /** Right after its creation every instruction of a process can be fetched, exactly when no line is longer
      than 63 bytes. */
  lemma ProgramFetches(flat: seq<Byte>, lines: seq<seq<Byte>>)
    requires HasProgram(flat, lines) && forall i: nat :: i < |lines| ==> NoZero(lines[i])
    ensures (forall i: nat :: i < |lines| ==> Fetch(flat, i) == Line(lines[i]))
       <==> (forall i: nat :: i < |lines| ==> |lines[i]| < SLOT)
  {
    var before: seq<Byte> :| |before| == |lines| * SLOT && flat == Loaded(before, lines, |lines|);
    LoadThenFetch(before, lines);
  }

  /** ... and it stays so in any run in which only other processes are created, resized, written and
      destroyed. */
  lemma FetchesStay(trace: seq<Memory>, ops: seq<SegOp>, replies: seq<Reply>, i: nat, j: nat, pid: nat,
                    lines: seq<seq<Byte>>, pc: nat)
    requires SegRun(trace, ops, replies) && i <= j < |trace| && pid in trace[i].flats
    requires HasProgram(trace[i].flats[pid], lines)
    requires forall k: nat :: k < |lines| ==> NoZero(lines[k]) && |lines[k]| < SLOT
    requires forall k: nat | i <= k < j :: ops[k].pid != pid || ops[k].Read?
    requires pc < |lines|
    ensures pid in trace[j].flats && Fetch(trace[j].flats[pid], pc) == Line(lines[pc])
  {
    OthersInvisible(trace, ops, replies, i, j, pid);
    ProgramFetches(trace[i].flats[pid], lines);
  }
}
