// Client requests on values: what each answers and does to the whole state, what processes see of it, and when
// that is a step of the flat memory.
module PagedRequests {
  import opened Bytes
  import opened Paging
  import opened PageFault
  import opened FlatMemory
  import opened Capacity
  import opened Transfers
  import opened TransferBytes

  /** Whether a request is a transfer that other threads cut short, from this state. */
  ghost predicate CutShort(c: Config, op: Op) {
    match op
    case Write(pid, dir, data, env) => 0 < c.m.ps && Play(c.m.ps, c, pid, dir, WriteOf(data), 0, env).cut
    case Read(pid, dir, len, env) => 0 < c.m.ps && Play(c.m.ps, c, pid, dir, ReadOf(len), 0, env).cut
    case _ => false
  }

  /** Whether some page access during a request, its own or another thread's, loses data. */
  ghost predicate Loses(c: Config, op: Op) {
    match op
    case Write(pid, dir, data, env) => 0 < c.m.ps && PlayLoses(c.m.ps, c, pid, dir, WriteOf(data), 0, env)
    case Read(pid, dir, len, env) => 0 < c.m.ps && PlayLoses(c.m.ps, c, pid, dir, ReadOf(len), 0, env)
    case _ => false
  }

  /** What a request answers and does to the whole state. After the end or resizing of a process the bitmap is the
      one that keeps frame ownership a bijection. */
  ghost predicate Transition(c: Config, op: Op, r: Reply, c': Config) {
    var m, m' := c.m, c'.m;
    && 0 < m.ps
    && match op
       case Create(pid, size) =>
         && r == Done(pid !in m.tables)
         && c' == if pid in m.tables then c
                  else Config(m.(tables := m.tables[pid := AbsentPages(Units(size, m.ps))]), c.hand)
       case Destroy(pid) =>
         && r == Done(true)
         && c' == Config(m.(tables := m.tables - {pid}, swap := m.swap - {pid}, bitmap := m'.bitmap), c.hand)
         && |m'.bitmap| == |m.bitmap| && Frames(m')
       case Resize(pid, size) =>
         && r == Done(pid in m.tables)
         && if pid !in m.tables then c' == c
            else
           && c' == Config(m.(tables := m.tables[pid := Resized(m.tables[pid], Units(size, m.ps))],
                              bitmap := m'.bitmap), c.hand)
           && |m'.bitmap| == |m.bitmap| && Frames(m')
       case Write(pid, dir, data, env) =>
         var e := Play(m.ps, c, pid, dir, WriteOf(data), 0, env);
         r == Done(e.done == |data|) && c' == e.last
       case Read(pid, dir, len, env) =>
         var e := Play(m.ps, c, pid, dir, ReadOf(len), 0, env);
         r == Data(e.done == len, e.got) && c' == e.last
  }

  // ---- what processes see of it ----

  /** `high` is the largest number of pages each process has had. */
  ghost function ViewOf(m: Mem, high: map<nat, nat>): Space {
    Space(m.ps, |m.bitmap|, map pid | pid in m.tables :: m.Flat(pid), high)
  }

  function HighNext(high: map<nat, nat>, ps: nat, op: Op): map<nat, nat>
    requires 0 < ps
  {
    match op
    case Create(pid, size) => if pid in high then high else high[pid := Units(size, ps)]
    case Destroy(pid) => high - {pid}
    case Resize(pid, size) => if pid in high then high[pid := Max(Units(size, ps), high[pid])] else high
    case _ => high
  }

  ghost predicate WithinHigh(tables: map<nat, seq<Page>>, swap: map<nat, seq<seq<Byte>>>, high: map<nat, nat>) {
    && high.Keys == tables.Keys && swap.Keys <= tables.Keys
    && (forall pid :: pid in tables ==> |tables[pid]| <= high[pid])
    && (forall pid :: pid in swap ==> |swap[pid]| <= high[pid])
  }

  /** The invariant between any two requests: frame ownership is a bijection, only living processes have a swap
      file, and `high` bounds tables and files. */
  ghost predicate Sound(c: Config, high: map<nat, nat>) {
    Frames(c.m) && WithinHigh(c.m.tables, c.m.swap, high)
  }

  /** The least `high` a state can have. */
  function Highest(m: Mem): map<nat, nat> {
    map pid | pid in m.tables :: if pid in m.swap then Max(|m.tables[pid]|, |m.swap[pid]|) else |m.tables[pid]|
  }

  lemma HighKept(m: Mem, m': Mem, high: map<nat, nat>)
    requires SameSizes(m, m') && WithinHigh(m.tables, m.swap, high)
    ensures WithinHigh(m'.tables, m'.swap, high)
  {
    forall q | q in m'.swap
      ensures q in high && |m'.swap[q]| <= high[q]
    {
      assert FileWithin(m, q, |m'.swap[q]|);
    }
  }

  // ---- every request keeps the invariant ----

  ghost predicate IsTransfer(op: Op) {
    op.Write? || op.Read?
  }

  function RequestOf(op: Op): Request
    requires op.Write? || op.Read?
  {
    if op.Write? then WriteOf(op.data) else ReadOf(op.len)
  }

  /** The reference transfer of a request. */
  ghost function PlayOf(c: Config, op: Op): End
    requires IsTransfer(op) && 0 < c.m.ps
  {
    Play(c.m.ps, c, op.pid, op.dir, RequestOf(op), 0, op.env)
  }

  lemma TransferKeeps(c: Config, op: Op, r: Reply, c': Config, high: map<nat, nat>)
    requires Sound(c, high) && Transition(c, op, r, c') && IsTransfer(op)
    ensures Sound(c', high) && SameSizes(c.m, c'.m)
  {
    hide Frames, SameSizes, Play;
    PlayKeeps(c.m.ps, c, op.pid, op.dir, RequestOf(op), 0, op.env);
    HighKept(c.m, c'.m, high);
  }

  lemma TableKeeps(c: Config, op: Op, r: Reply, c': Config, high: map<nat, nat>)
    requires Sound(c, high) && Transition(c, op, r, c') && !IsTransfer(op)
    ensures Sound(c', HighNext(high, c.m.ps, op))
  {
    hide FramesExcept, Units;
    if op.Create? && op.pid !in c.m.tables {
      NewTableFrames(c.m, op.pid, Units(op.size, c.m.ps));
    }
  }

  /** Same page size, store and number of frames. */
  predicate SameMachine(m: Mem, m': Mem) {
    m'.ps == m.ps && m'.growOnly == m.growOnly && |m'.bitmap| == |m.bitmap|
  }

  lemma RequestKeeps(c: Config, op: Op, r: Reply, c': Config, high: map<nat, nat>)
    requires Sound(c, high) && Transition(c, op, r, c')
    ensures Sound(c', HighNext(high, c.m.ps, op)) && SameMachine(c.m, c'.m)
    ensures PageCounts(c'.m.tables) == CountsAfter(PageCounts(c.m.tables), c.m.ps, op)
  {
    hide Frames, WithinHigh, Play, Units;
    if IsTransfer(op) {
      TransferKeeps(c, op, r, c', high);
      SizesSame(c.m, c'.m);
    } else {
      TableKeeps(c, op, r, c', high);
    }
  }

  // ---- the flat effect of each request ----

  lemma CreateStep(m: Mem, m': Mem, h: map<nat, nat>, h': map<nat, nat>, op: Op, ok: bool)
    requires 0 < m.ps && op.Create? && (ok <==> op.pid !in m.tables) && (ok ==> op.pid !in m.swap)
    requires m' == m.(tables := m'.tables)
    requires if op.pid in m.tables then m' == m && h' == h
             else m'.tables == m.tables[op.pid := AbsentPages(Units(op.size, m.ps))]
                  && h' == h[op.pid := Units(op.size, m.ps)]
    ensures Step(ViewOf(m, h), op, Done(ok), false, ViewOf(m', h'))
  {
    hide Units, Mem.Flat;
    if op.pid !in m.tables {
      NewTableFlat(m, m', op.pid, Units(op.size, m.ps));
      var k := Units(op.size, m.ps);
      assert ViewOf(m', h').flats == ViewOf(m, h).flats[op.pid := Zeros(k * m.ps)];
    }
  }

  lemma DestroyStep(m: Mem, m': Mem, h: map<nat, nat>, op: Op)
    requires 0 < m.ps && op.Destroy?
    requires m' == m.(tables := m.tables - {op.pid}, bitmap := m'.bitmap, swap := m.swap - {op.pid})
    requires |m'.bitmap| == |m.bitmap|
    ensures Step(ViewOf(m, h), op, Done(true), false, ViewOf(m', h - {op.pid}))
  {
    DroppedFlat(m, m', op.pid);
    assert ViewOf(m', h - {op.pid}).flats == ViewOf(m, h).flats - {op.pid};
  }

  lemma ResizeStep(m: Mem, m': Mem, h: map<nat, nat>, h': map<nat, nat>, op: Op, ok: bool)
    requires Frames(m) && WithinHigh(m.tables, m.swap, h) && op.Resize? && (ok <==> op.pid in m.tables)
    requires m' == m.(tables := m'.tables, bitmap := m'.bitmap) && |m'.bitmap| == |m.bitmap|
    requires if op.pid !in m.tables then m' == m && h' == h
             else m'.tables == m.tables[op.pid := Resized(m.tables[op.pid], Units(op.size, m.ps))]
                  && h' == h[op.pid := Max(Units(op.size, m.ps), h[op.pid])]
    ensures Step(ViewOf(m, h), op, Done(ok), false, ViewOf(m', h'))
  {
    if op.pid in m.tables {
      var k := Units(op.size, m.ps);
      ResizedOthers(m, m', op.pid, k, h, h');
      ContentWidth(m, op.pid);
      if k <= |m.tables[op.pid]| {
        ShrunkFlat(m, m', op.pid, k);
      } else {
        GrowStep(m, m', op.pid, k, h);
        RowBounds(|m.tables[op.pid]|, k, m.ps);
      }
    }
  }

  lemma ResizedOthers(m: Mem, m': Mem, pid: nat, k: nat, h: map<nat, nat>, h': map<nat, nat>)
    requires pid in m.tables && m' == m.(tables := m'.tables, bitmap := m'.bitmap)
    requires m'.tables == m.tables[pid := Resized(m.tables[pid], k)]
    ensures ViewOf(m', h').flats == ViewOf(m, h).flats[pid := m'.Flat(pid)]
  {
    forall q | q in m.tables && q != pid
      ensures m'.Flat(q) == m.Flat(q)
    {
      PagesSame(m, m', q);
    }
  }

  lemma GrowStep(m: Mem, m': Mem, pid: nat, k: nat, h: map<nat, nat>)
    requires Frames(m) && WithinHigh(m.tables, m.swap, h) && pid in m.tables && |m.tables[pid]| < k
    requires m' == m.(tables := m'.tables, bitmap := m'.bitmap)
    requires m'.tables == m.tables[pid := Resized(m.tables[pid], k)]
    ensures Grown(ViewOf(m, h), pid, k, m'.Flat(pid))
  {
    var from := |m.tables[pid]|;
    ContentWidth(m, pid);
    GrownFlat(m, m', pid, k);
    RestoredZeros(m, pid, from, k, h[pid]);
    var rest := Flatten(Restored(m, pid, from, k));
    assert from * m.ps + (k - from) * m.ps == k * m.ps;
    forall a: nat | from * m.ps <= a < k * m.ps && h[pid] <= a / m.ps
      ensures m'.Flat(pid)[a] == 0
    {
      DivShift(a, from, m.ps);
      assert m'.Flat(pid)[a] == rest[a - from * m.ps];
    }
  }

  lemma DivShift(a: nat, k: nat, w: nat)
    requires 0 < w && k * w <= a
    ensures a / w == k + (a - k * w) / w
  {
    DivMod(a - k * w, w);
    DivMod(a, w);
    var q := k + (a - k * w) / w;
    var r := (a - k * w) % w;
    assert a == q * w + r by { assert q * w == k * w + ((a - k * w) / w) * w; }
    DivUnique(a, w, q, r);
  }

  lemma DivUnique(a: nat, w: nat, q: nat, r: nat)
    requires 0 < w && a == q * w + r && r < w
    ensures a / w == q
  {
    DivMod(a, w);
    var p := a / w;
    if p < q {
      RowBounds(p, q, w);
    } else if q < p {
      RowBounds(q, p, w);
    }
  }

  lemma SizeIsExtent(m: Mem, h: map<nat, nat>, pid: nat)
    requires Frames(m)
    ensures Size(ViewOf(m, h), pid) == Extent(m, pid)
  {
    if pid in m.tables {
      ContentWidth(m, pid);
    }
  }

  lemma WrittenView(m: Mem, m': Mem, h: map<nat, nat>, pid: nat, dir: nat, data: seq<Byte>)
    requires SameSizes(m, m') && Written(m, m', pid, dir, data)
    ensures ViewOf(m', h) == Patch(ViewOf(m, h), pid, dir, data)
  {
    hide Mem.Flat;
    var s, s' := ViewOf(m, h), ViewOf(m', h);
    assert s'.flats.Keys == Patch(s, pid, dir, data).flats.Keys;
    forall q | q in s'.flats
      ensures s'.flats[q] == Patch(s, pid, dir, data).flats[q]
    {
    }
  }

  lemma WriteViewStep(m: Mem, m': Mem, h: map<nat, nat>, op: Op, cut: bool, ok: bool, done: nat)
    requires Frames(m) && op.Write? && done <= |op.data| && SameSizes(m, m')
    requires Written(m, m', op.pid, op.dir, op.data[..done])
    requires Transferred(|m.bitmap|, Extent(m, op.pid), op.dir, |op.data|, cut, ok, done)
    ensures Step(ViewOf(m, h), op, Done(ok), cut, ViewOf(m', h))
  {
    hide FramesExcept, Written, SameSizes, Transferred, Patch, Size;
    FramesPs(m);
    SizeIsExtent(m, h, op.pid);
    WrittenView(m, m', h, op.pid, op.dir, op.data[..done]);
    assert WriteStep(ViewOf(m, h), op.pid, op.dir, op.data, cut, ok, done, ViewOf(m', h));
  }

  lemma ReadStep(m: Mem, m': Mem, h: map<nat, nat>, op: Op, cut: bool, ok: bool, bytes: seq<Byte>)
    requires Frames(m) && op.Read? && SameSizes(m, m') && SameFlats(m, m') && HasBytes(m, op.pid, op.dir, bytes)
    requires Transferred(|m.bitmap|, Extent(m, op.pid), op.dir, op.len, cut, ok, |bytes|)
    ensures Step(ViewOf(m, h), op, Data(ok, bytes), cut, ViewOf(m', h))
  {
    hide FramesExcept, Mem.Flat, Transferred, Size;
    FramesPs(m);
    SizeIsExtent(m, h, op.pid);
    assert ViewOf(m', h).flats == ViewOf(m, h).flats;
  }

  lemma TransferView(c: Config, op: Op, r: Reply, c': Config, high: map<nat, nat>)
    requires Sound(c, high) && Transition(c, op, r, c') && IsTransfer(op) && !Loses(c, op)
    ensures Step(ViewOf(c.m, high), op, r, CutShort(c, op), ViewOf(c'.m, high))
  {
    hide Frames, WithinHigh, Play, PlayLoses, SameFlats, SameSizes, Written, HasBytes, Transferred, Step, Extent;
    var req := RequestOf(op);
    var e := PlayOf(c, op);
    TransferKeeps(c, op, r, c', high);
    PlayMoves(c.m.ps, c, op.pid, op.dir, req, 0, op.env);
    PlayExact(c.m.ps, c, op.pid, op.dir, req, 0, op.env);
    if op.Write? {
      assert op.data[0..e.done] == op.data[..e.done];
      WriteViewStep(c.m, c'.m, high, op, e.cut, r.ok, e.done);
    } else {
      ReadStep(c.m, c'.m, high, op, e.cut, r.ok, e.got);
    }
  }

  lemma TableView(c: Config, op: Op, r: Reply, c': Config, high: map<nat, nat>)
    requires Sound(c, high) && Transition(c, op, r, c') && !IsTransfer(op)
    ensures Step(ViewOf(c.m, high), op, r, false, ViewOf(c'.m, HighNext(high, c.m.ps, op)))
  {
    hide FramesExcept, Units, Step, Resized, ViewOf;
    var high' := HighNext(high, c.m.ps, op);
    match op
    case Create(_, _) => CreateStep(c.m, c'.m, high, high', op, r.ok);
    case Destroy(_) => DestroyStep(c.m, c'.m, high, op);
    case Resize(_, _) => ResizeStep(c.m, c'.m, high, high', op, r.ok);
  }

  /** A request that loses no data is a step of the flat memory. */
  lemma RequestStep(c: Config, op: Op, r: Reply, c': Config, high: map<nat, nat>)
    requires Sound(c, high) && Transition(c, op, r, c') && !Loses(c, op)
    ensures Step(ViewOf(c.m, high), op, r, CutShort(c, op), ViewOf(c'.m, HighNext(high, c.m.ps, op)))
  {
    hide FramesExcept, WithinHigh, Step, ViewOf, Transition, PlayLoses, Play;
    FramesPs(c.m);
    if IsTransfer(op) {
      TransferView(c, op, r, c', high);
    } else {
      TableView(c, op, r, c', high);
    }
  }

  // ---- when a request loses nothing ----

  /** While all pages fit in RAM no transfer loses data. */
  lemma FitRequest(c: Config, op: Op)
    requires Frames(c.m) && (IsTransfer(op) ==> AllFit(PageCounts(c.m.tables), |c.m.bitmap|))
    ensures !Loses(c, op)
  {
    hide Frames, AllFit, Play, PlayLoses;
    if IsTransfer(op) && 0 < c.m.ps {
      PlayLossless(c.m.ps, c, op.pid, op.dir, RequestOf(op), 0, op.env, true);
    }
  }

  /** On a store that only grows no request loses data, and every clean page keeps its copy. */
  lemma GrowOnlyRequest(c: Config, op: Op, r: Reply, c': Config, high: map<nat, nat>)
    requires Sound(c, high) && Transition(c, op, r, c') && c.m.growOnly && Clean(c.m)
    ensures !Loses(c, op) && Clean(c'.m)
  {
    hide Frames, Clean, Play, PlayLoses, Units, Resized;
    if IsTransfer(op) {
      PlayLossless(c.m.ps, c, op.pid, op.dir, RequestOf(op), 0, op.env, false);
    } else {
      TableEntries(c, op, r, c', high);
      TablesClean(c.m, c'.m);
    }
  }

  lemma TableEntries(c: Config, op: Op, r: Reply, c': Config, high: map<nat, nat>)
    requires Sound(c, high) && Transition(c, op, r, c') && !IsTransfer(op)
    ensures c'.m.ps == c.m.ps && c'.m.ram == c.m.ram
    ensures forall q: nat, k: nat :: c'.m.Has(q, k) ==>
              if c.m.Has(q, k) then c'.m.tables[q][k] == c.m.tables[q][k] && c'.m.Stored(q, k) == c.m.Stored(q, k)
              else c'.m.tables[q][k] == ABSENT
  {
    hide Frames, Units;
  }

  // ---- runs ----

  /** configs are the states between the requests of a run. */
  ghost predicate History(configs: seq<Config>, ops: seq<Op>, replies: seq<Reply>) {
    && |configs| == |ops| + 1 && |replies| == |ops|
    && forall i: nat | i < |ops| :: Transition(configs[i], ops[i], replies[i], configs[i + 1])
  }

  ghost function CutsOf(configs: seq<Config>, ops: seq<Op>): (cuts: seq<bool>)
    requires |ops| <= |configs|
    ensures |cuts| == |ops| && forall i: nat :: i < |ops| ==> cuts[i] == CutShort(configs[i], ops[i])
  {
    seq(|ops|, i requires 0 <= i < |ops| => CutShort(configs[i], ops[i]))
  }

  function HighAfter(high: map<nat, nat>, ps: nat, ops: seq<Op>, i: nat): map<nat, nat>
    requires 0 < ps && i <= |ops|
  {
    if i == 0 then high else HighNext(HighAfter(high, ps, ops, i - 1), ps, ops[i - 1])
  }

  /** What processes see after the first i requests. */
  ghost function ViewAt(configs: seq<Config>, ops: seq<Op>, i: nat): Space
    requires |configs| == |ops| + 1 && i < |configs| && 0 < configs[0].m.ps
  {
    ViewOf(configs[i].m, HighAfter(Highest(configs[0].m), configs[0].m.ps, ops, i))
  }

  ghost function Views(configs: seq<Config>, ops: seq<Op>): (views: seq<Space>)
    requires |configs| == |ops| + 1 && 0 < configs[0].m.ps
    ensures |views| == |configs| && forall i: nat :: i < |views| ==> views[i] == ViewAt(configs, ops, i)
  {
    seq(|configs|, i requires 0 <= i < |configs| => ViewAt(configs, ops, i))
  }

  /** A state a run can start in. */
  ghost predicate Startable(m: Mem) {
    Frames(m) && m.swap.Keys <= m.tables.Keys
  }

  lemma {:induction false} HistorySound(configs: seq<Config>, ops: seq<Op>, replies: seq<Reply>, i: nat)
    requires History(configs, ops, replies) && Startable(configs[0].m) && i <= |ops|
    ensures 0 < configs[0].m.ps && SameMachine(configs[0].m, configs[i].m)
    ensures Sound(configs[i], HighAfter(Highest(configs[0].m), configs[0].m.ps, ops, i))
  {
    hide FramesExcept, Transition;
    FramesPs(configs[0].m);
    if i > 0 {
      HistorySound(configs, ops, replies, i - 1);
      hide Sound;
      RequestKeeps(configs[i - 1], ops[i - 1], replies[i - 1], configs[i],
                   HighAfter(Highest(configs[0].m), configs[0].m.ps, ops, i - 1));
    }
  }

  /** Every request of a run that loses no data is a step of the flat memory. */
  lemma HistoryStep(configs: seq<Config>, ops: seq<Op>, replies: seq<Reply>, i: nat)
    requires History(configs, ops, replies) && Startable(configs[0].m) && i < |ops| && !Loses(configs[i], ops[i])
    ensures 0 < configs[0].m.ps
    ensures Step(ViewAt(configs, ops, i), ops[i], replies[i], CutShort(configs[i], ops[i]), ViewAt(configs, ops, i + 1))
  {
    hide Startable, Sound, Step, Transition, Loses, CutShort, ViewOf;
    HistorySound(configs, ops, replies, i);
    RequestStep(configs[i], ops[i], replies[i], configs[i + 1],
                HighAfter(Highest(configs[0].m), configs[0].m.ps, ops, i));
  }

  /** No request of the run loses data. */
  ghost predicate LosesNothing(configs: seq<Config>, ops: seq<Op>)
    requires |ops| <= |configs|
  {
    forall i: nat | i < |ops| :: !Loses(configs[i], ops[i])
  }

  /** Such a run is a run of the flat memory. */
  lemma HistoryRun(configs: seq<Config>, ops: seq<Op>, replies: seq<Reply>)
    requires History(configs, ops, replies) && Startable(configs[0].m) && LosesNothing(configs, ops)
    ensures 0 < configs[0].m.ps && FlatMemory.Run(Views(configs, ops), ops, replies, CutsOf(configs, ops))
  {
    hide Startable, Step, Transition, Loses, CutShort, ViewAt;
    HistorySound(configs, ops, replies, 0);
    forall i: nat | i < |ops|
      ensures Step(Views(configs, ops)[i], ops[i], replies[i], CutsOf(configs, ops)[i], Views(configs, ops)[i + 1])
    {
      HistoryStep(configs, ops, replies, i);
    }
  }

  lemma {:induction false} CleanAlong(configs: seq<Config>, ops: seq<Op>, replies: seq<Reply>, i: nat)
    requires History(configs, ops, replies) && Startable(configs[0].m) && i <= |ops|
    requires configs[0].m.growOnly && Clean(configs[0].m)
    ensures Clean(configs[i].m) && (i < |ops| ==> !Loses(configs[i], ops[i]))
  {
    hide Startable, Sound, Clean, Transition, Loses;
    HistorySound(configs, ops, replies, i);
    if i > 0 {
      HistorySound(configs, ops, replies, i - 1);
      CleanAlong(configs, ops, replies, i - 1);
      GrowOnlyRequest(configs[i - 1], ops[i - 1], replies[i - 1], configs[i],
                      HighAfter(Highest(configs[0].m), configs[0].m.ps, ops, i - 1));
    }
    if i < |ops| {
      GrowOnlyRequest(configs[i], ops[i], replies[i], configs[i + 1],
                      HighAfter(Highest(configs[0].m), configs[0].m.ps, ops, i));
    }
  }

  lemma {:induction false} FitAlong(configs: seq<Config>, ops: seq<Op>, replies: seq<Reply>, i: nat)
    requires History(configs, ops, replies) && Startable(configs[0].m) && i <= |ops| && 0 < configs[0].m.ps
    requires FitThroughout(PageCounts(configs[0].m.tables), configs[0].m.ps, |configs[0].m.bitmap|, ops)
    ensures FitThroughout(PageCounts(configs[i].m.tables), configs[0].m.ps, |configs[0].m.bitmap|, ops[i..])
  {
    hide Startable, Sound, Transition, AllFit;
    if i == 0 {
      assert ops[0..] == ops;
    } else {
      FitAlong(configs, ops, replies, i - 1);
      HistorySound(configs, ops, replies, i - 1);
      RequestKeeps(configs[i - 1], ops[i - 1], replies[i - 1], configs[i],
                   HighAfter(Highest(configs[0].m), configs[0].m.ps, ops, i - 1));
      assert ops[i - 1..][0] == ops[i - 1] && ops[i - 1..][1..] == ops[i..];
    }
  }

  /** A run loses nothing if the store only grows, or if all pages fit in RAM whenever it reads or writes. */
  lemma HistoryLossless(configs: seq<Config>, ops: seq<Op>, replies: seq<Reply>)
    requires History(configs, ops, replies) && Startable(configs[0].m) && 0 < configs[0].m.ps
    requires || (configs[0].m.growOnly && Clean(configs[0].m))
             || FitThroughout(PageCounts(configs[0].m.tables), configs[0].m.ps, |configs[0].m.bitmap|, ops)
    ensures LosesNothing(configs, ops)
  {
    hide Frames, Clean, Transition, Loses, AllFit;
    forall i: nat | i < |ops|
      ensures !Loses(configs[i], ops[i])
    {
      if configs[0].m.growOnly && Clean(configs[0].m) {
        CleanAlong(configs, ops, replies, i);
      } else {
        FitAlong(configs, ops, replies, i);
        HistorySound(configs, ops, replies, i);
        assert ops[i..][0] == ops[i];
        FitRequest(configs[i], ops[i]);
      }
    }
  }
}
