// What processes see while a transfer runs: which of its accesses lose data and, when none does, which bytes
// move. Stated on the reference, so it holds for any interference.
module TransferBytes {
  import opened Bytes
  import opened Paging
  import opened PageFault
  import opened FlatMemory
  import opened Capacity
  import opened Transfers

  // ---- which accesses lose data ----

  /** Asking for page n of pid evicts a page, and that changes what some process sees. */
  ghost predicate ObtainLoses(c: Config, pid: nat, n: nat) {
    LosesData(c.m, c.hand, pid, n)
  }

  /** Some access of the burst does. */
  ghost predicate BurstLoses(c: Config, accesses: seq<(nat, nat)>)
    decreases |accesses|
  {
    accesses != [] &&
      (|| ObtainLoses(c, accesses[0].0, accesses[0].1)
       || BurstLoses(Obtain(c, accesses[0].0, accesses[0].1), accesses[1..]))
  }

  /** Some access up to the unlocked check does. */
  ghost predicate CheckLoses(c: Config, pid: nat, n: nat, gaps: Bursts) {
    var c0 := Burst(c, BurstAt(gaps, 0));
    || BurstLoses(c, BurstAt(gaps, 0))
    || ObtainLoses(c0, pid, n)
    || BurstLoses(Obtain(c0, pid, n), BurstAt(gaps, 1))
  }

  /** The unlocked check fails. */
  ghost predicate FailsCheck(c: Config, pid: nat, n: nat, gaps: Bursts) {
    !c.m.Has(pid, n) || |c.m.bitmap| == 0 || !Present(AtCheck(c, pid, n, gaps), pid, n)
  }

  /** Some access of the attempt does; the third gap comes only if the unlocked check succeeds. */
  ghost predicate AttemptLoses(ps: nat, c: Config, pid: nat, dir: nat, done: nat, gaps: Bursts)
    requires 0 < ps
  {
    var n := PageNo(dir + done, ps);
    || CheckLoses(c, pid, n, gaps)
    || (!FailsCheck(c, pid, n, gaps) && BurstLoses(AtCheck(c, pid, n, gaps), BurstAt(gaps, 2)))
  }

  /** Some access of the transfer from byte `done` on does, its own or another thread's. */
  ghost predicate PlayLoses(ps: nat, c: Config, pid: nat, dir: nat, req: Request, done: nat, gaps: Bursts)
    requires 0 < ps && done <= req.Size()
    decreases req.Size() - done, |gaps|
  {
    done < req.Size() &&
      (|| AttemptLoses(ps, c, pid, dir, done, gaps)
       || match Attempt(ps, c, pid, dir, req, done, gaps)
          case Stop(_) => false
          case Again(c', done', _) => PlayLoses(ps, c', pid, dir, req, done', Later(gaps, 3)))
  }

  // ---- without loss, accesses are invisible ----

  /** Asking for a page changes no byte any process sees, exactly when it does not lose data. */
  lemma ObtainExact(c: Config, pid: nat, n: nat)
    requires Frames(c.m)
    ensures SameView(c.m, Obtain(c, pid, n).m) <==> !ObtainLoses(c, pid, n)
  {
    if c.m.Has(pid, n) && 0 < |c.m.bitmap| {
      AccessExists(c, pid, n);
      AccessInvisible(c.m, c.hand, Obtain(c, pid, n).m, Obtain(c, pid, n).hand, pid, n);
    } else {
      NothingToObtain(c, pid, n);
    }
  }

  lemma ViewFlats(a: Mem, b: Mem)
    requires SameView(a, b)
    ensures SameFlats(a, b)
  {
    SameViewFlat(a, b);
  }

  lemma ObtainFlats(c: Config, pid: nat, n: nat)
    requires Frames(c.m) && !ObtainLoses(c, pid, n)
    ensures SameFlats(c.m, Obtain(c, pid, n).m)
  {
    hide Frames, ObtainLoses, Obtain;
    ObtainExact(c, pid, n);
    ViewFlats(c.m, Obtain(c, pid, n).m);
  }

  lemma FlatsTrans(a: Mem, b: Mem, c: Mem)
    requires SameFlats(a, b) && SameFlats(b, c)
    ensures SameFlats(a, c)
  {
  }

  lemma {:induction false} BurstFlats(c: Config, accesses: seq<(nat, nat)>)
    requires Frames(c.m) && !BurstLoses(c, accesses)
    ensures SameFlats(c.m, Burst(c, accesses).m)
    decreases |accesses|
  {
    hide Frames, ObtainLoses, Obtain, SameFlats;
    if accesses == [] {
      FlatsSelf(c.m);
    } else {
      var d := Obtain(c, accesses[0].0, accesses[0].1);
      ObtainServes(c, accesses[0].0, accesses[0].1);
      ObtainFlats(c, accesses[0].0, accesses[0].1);
      BurstFlats(d, accesses[1..]);
      FlatsTrans(c.m, d.m, Burst(c, accesses).m);
    }
  }

  lemma FlatsSelf(m: Mem)
    ensures SameFlats(m, m)
  {
  }

  /** Access i of the burst changes what some process sees. */
  ghost predicate ChangesView(c: Config, accesses: seq<(nat, nat)>, i: nat)
    requires i < |accesses|
  {
    !SameView(Burst(c, accesses[..i]).m, Burst(c, accesses[..i + 1]).m)
  }

  lemma ChangesLater(c: Config, accesses: seq<(nat, nat)>, i: nat)
    requires i + 1 < |accesses|
    ensures ChangesView(c, accesses, i + 1) <==>
            ChangesView(Obtain(c, accesses[0].0, accesses[0].1), accesses[1..], i)
  {
    assert accesses[..i + 1][1..] == accesses[1..][..i] && accesses[..i + 2][1..] == accesses[1..][..i + 1];
  }

  /** A burst loses data exactly when some access of it changes what some process sees. */
  lemma {:induction false} BurstLosesExact(c: Config, accesses: seq<(nat, nat)>)
    requires Frames(c.m)
    ensures BurstLoses(c, accesses) <==> exists i: nat :: i < |accesses| && ChangesView(c, accesses, i)
    decreases |accesses|
  {
    hide Frames, ObtainLoses, Obtain, SameView;
    if accesses != [] {
      var d, rest := Obtain(c, accesses[0].0, accesses[0].1), accesses[1..];
      ObtainServes(c, accesses[0].0, accesses[0].1);
      ObtainExact(c, accesses[0].0, accesses[0].1);
      BurstLosesExact(d, rest);
      assert accesses[..0] == [] && accesses[..1][1..] == [] && accesses[..1][0] == accesses[0];
      assert Burst(d, []) == d && Burst(c, []) == c;
      assert Burst(c, accesses[..1]) == d;
      assert ChangesView(c, accesses, 0) <==> ObtainLoses(c, accesses[0].0, accesses[0].1);
      forall i: nat | i < |rest|
        ensures ChangesView(c, accesses, i + 1) <==> ChangesView(d, rest, i)
      {
        ChangesLater(c, accesses, i);
      }
      if i: nat :| i < |accesses| && ChangesView(c, accesses, i) && !ObtainLoses(c, accesses[0].0, accesses[0].1) {
        assert ChangesView(d, rest, i - 1);
      }
      if i: nat :| i < |rest| && ChangesView(d, rest, i) {
        assert ChangesView(c, accesses, i + 1);
      }
    }
  }

  lemma CheckFlats(c: Config, pid: nat, n: nat, gaps: Bursts)
    requires Frames(c.m) && !CheckLoses(c, pid, n, gaps)
    ensures SameFlats(c.m, AtCheck(c, pid, n, gaps).m)
  {
    hide Frames, ObtainLoses, BurstLoses, Obtain, Burst, SameFlats;
    var c0 := Burst(c, BurstAt(gaps, 0));
    BurstKeeps(c, BurstAt(gaps, 0));
    BurstFlats(c, BurstAt(gaps, 0));
    var d := Obtain(c0, pid, n);
    ObtainServes(c0, pid, n);
    ObtainFlats(c0, pid, n);
    BurstFlats(d, BurstAt(gaps, 1));
    FlatsTrans(c.m, c0.m, d.m);
    FlatsTrans(c.m, d.m, AtCheck(c, pid, n, gaps).m);
  }

  lemma LockFlats(c: Config, pid: nat, n: nat, gaps: Bursts)
    requires Frames(c.m) && !CheckLoses(c, pid, n, gaps) && !BurstLoses(AtCheck(c, pid, n, gaps), BurstAt(gaps, 2))
    ensures SameFlats(c.m, AtLock(c, pid, n, gaps).m)
  {
    hide Frames, CheckLoses, BurstLoses, AtCheck, Burst, SameFlats;
    AttemptKeeps(c, pid, n, gaps);
    CheckFlats(c, pid, n, gaps);
    BurstFlats(AtCheck(c, pid, n, gaps), BurstAt(gaps, 2));
    FlatsTrans(c.m, AtCheck(c, pid, n, gaps).m, AtLock(c, pid, n, gaps).m);
  }

  // ---- the bytes that move ----

  /** `data` is what process pid sees at address `dir`. */
  ghost predicate HasBytes(m: Mem, pid: nat, dir: nat, data: seq<Byte>) {
    data != [] ==> pid in m.tables && dir + |data| <= |m.Flat(pid)| && data == m.Flat(pid)[dir..dir + |data|]
  }

  /** Bytes [from, to) of the request were transferred between m and m', and nothing else changed for anybody: a
      write put its bytes there, a read got `got`. */
  ghost predicate Moved(m: Mem, m': Mem, pid: nat, dir: nat, req: Request, from: nat, to: nat, got: seq<Byte>)
    requires from <= to <= req.Size()
  {
    match req
    case ReadOf(_) => SameFlats(m, m') && HasBytes(m, pid, dir + from, got) && |got| == to - from
    case WriteOf(data) => Written(m, m', pid, dir + from, data[from..to]) && got == []
  }

  lemma NothingMoved(m: Mem, m': Mem, pid: nat, dir: nat, req: Request, from: nat)
    requires from <= req.Size() && SameFlats(m, m')
    ensures Moved(m, m', pid, dir, req, from, from, [])
  {
  }

  lemma MovedJoin(m: Mem, m1: Mem, m2: Mem, pid: nat, dir: nat, req: Request, from: nat, mid: nat, to: nat,
                  a: seq<Byte>, b: seq<Byte>)
    requires from <= mid <= to <= req.Size()
    requires Moved(m, m1, pid, dir, req, from, mid, a) && Moved(m1, m2, pid, dir, req, mid, to, b)
    ensures Moved(m, m2, pid, dir, req, from, to, a + b)
  {
    hide SameFlats, HasBytes, Written;
    match req
    case ReadOf(_) =>
      FlatsTrans(m, m1, m2);
      MoreBytes(m, m1, pid, dir + from, a, b);
    case WriteOf(data) =>
      assert a + b == [];
      assert data[from..mid] + data[mid..to] == data[from..to];
      WrittenJoin(m, m1, m2, pid, dir + from, data[from..mid], data[mid..to]);
  }

  lemma WrittenJoin(m: Mem, m1: Mem, m2: Mem, pid: nat, dir: nat, a: seq<Byte>, b: seq<Byte>)
    requires Written(m, m1, pid, dir, a) && Written(m1, m2, pid, dir + |a|, b)
    ensures Written(m, m2, pid, dir, a + b)
  {
    hide Mem.Flat;
    if b == [] {
      assert a + b == a;
      WrittenThenSame(m, m1, m2, pid, dir, a);
    } else {
      WrittenThenChunk(m, m1, m2, pid, dir, a, b);
    }
  }

  lemma MoreBytes(m: Mem, m1: Mem, pid: nat, dir: nat, data: seq<Byte>, chunk: seq<Byte>)
    requires SameFlats(m, m1) && HasBytes(m, pid, dir, data) && HasBytes(m1, pid, dir + |data|, chunk)
    ensures HasBytes(m, pid, dir, data + chunk)
  {
    hide Mem.Flat;
    if data == [] {
      assert data + chunk == chunk;
    } else if chunk == [] {
      assert data + chunk == data;
    } else {
      SliceJoin(m.Flat(pid), dir, dir + |data|, dir + |data| + |chunk|);
    }
  }

  lemma SliceJoin(s: seq<Byte>, i: nat, j: nat, k: nat)
    requires i <= j <= k <= |s|
    ensures s[i..j] + s[j..k] == s[i..k]
  {
  }

  /** The copy under the lock moves exactly the bytes of its chunk. */
  lemma CopyMoves(c: Config, pid: nat, dir: nat, ps: nat, req: Request, done: nat, len: nat)
    requires Frames(c.m) && ps == c.m.ps && 0 < ps && Present(c, pid, PageNo(dir + done, ps))
    requires 0 < len && done + len <= req.Size() && PageOffset(dir + done, ps) + len <= ps
    ensures Moved(c.m, Copy(c, pid, dir + done, ps, req, done, len).m, pid, dir, req, done, done + len,
                  Chunk(c, pid, dir + done, ps, req, len))
  {
    hide Frames, Store, Written, HasBytes, SameFlats, Chunk, PageNo, PageOffset;
    match req
    case ReadOf(_) => ReadMoves(c, pid, dir + done, ps, req, done, len);
    case WriteOf(data) => WriteMoves(c, pid, dir + done, ps, data, done, len);
  }

  lemma WriteMoves(c: Config, pid: nat, addr: nat, ps: nat, data: seq<Byte>, done: nat, len: nat)
    requires Frames(c.m) && ps == c.m.ps && 0 < ps && Present(c, pid, PageNo(addr, ps))
    requires 0 < len && done + len <= |data| && PageOffset(addr, ps) + len <= ps
    ensures Written(c.m, Copy(c, pid, addr, ps, WriteOf(data), done, len).m, pid, addr, data[done..done + len])
    ensures Chunk(c, pid, addr, ps, WriteOf(data), len) == []
  {
    hide Frames, Store, Written;
    ChunkWritten(c.m, pid, addr, data[done..done + len]);
  }

  lemma ReadMoves(c: Config, pid: nat, addr: nat, ps: nat, req: Request, done: nat, len: nat)
    requires Frames(c.m) && ps == c.m.ps && 0 < ps && Present(c, pid, PageNo(addr, ps)) && req.ReadOf?
    requires 0 < len && done + len <= req.Size() && PageOffset(addr, ps) + len <= ps
    ensures SameFlats(c.m, Copy(c, pid, addr, ps, req, done, len).m)
    ensures HasBytes(c.m, pid, addr, Chunk(c, pid, addr, ps, req, len)) && |Chunk(c, pid, addr, ps, req, len)| == len
  {
    hide Frames, HasBytes, SameFlats, SameView, Chunk, PageNo, PageOffset;
    HitKeeps(c.m, pid, PageNo(addr, ps));
    ViewFlats(c.m, Copy(c, pid, addr, ps, req, done, len).m);
    ChunkBytes(c, pid, addr, ps, req, len);
  }

  lemma ChunkBytes(c: Config, pid: nat, addr: nat, ps: nat, req: Request, len: nat)
    requires Frames(c.m) && ps == c.m.ps && 0 < ps && c.m.Has(pid, PageNo(addr, ps)) && req.ReadOf?
    requires 0 < len && PageOffset(addr, ps) + len <= ps
    ensures HasBytes(c.m, pid, addr, Chunk(c, pid, addr, ps, req, len)) && |Chunk(c, pid, addr, ps, req, len)| == len
  {
    hide Frames, Mem.Flat, Mem.Content, PageNo, PageOffset;
    PageInFlat(c.m, pid, PageNo(addr, ps), PageOffset(addr, ps), len);
    PageParts(addr, ps);
  }

  /** What an attempt that copied has moved. */
  lemma FoundMoves(c: Config, c2: Config, pid: nat, dir: nat, ps: nat, req: Request, done: nat, len: nat)
    requires Frames(c2.m) && ps == c2.m.ps && 0 < ps && Present(c2, pid, PageNo(dir + done, ps))
    requires 0 < len && done + len <= req.Size() && PageOffset(dir + done, ps) + len <= ps && SameFlats(c.m, c2.m)
    ensures Moved(c.m, Copy(c2, pid, dir + done, ps, req, done, len).m, pid, dir, req, done, done + len,
                  Chunk(c2, pid, dir + done, ps, req, len))
  {
    hide Frames, SameFlats, Copy, Chunk, Moved, PageNo, PageOffset;
    var chunk := Chunk(c2, pid, dir + done, ps, req, len);
    NothingMoved(c.m, c2.m, pid, dir, req, done);
    CopyMoves(c2, pid, dir, ps, req, done, len);
    MovedJoin(c.m, c2.m, Copy(c2, pid, dir + done, ps, req, done, len).m, pid, dir, req, done, done, done + len, [],
      chunk);
    assert [] + chunk == chunk;
  }

  /** An attempt that loses no data moves exactly the bytes it counts. */
  lemma AttemptMoves(ps: nat, c: Config, pid: nat, dir: nat, req: Request, done: nat, gaps: Bursts)
    requires Frames(c.m) && ps == c.m.ps && 0 < ps && done < req.Size() && !AttemptLoses(ps, c, pid, dir, done, gaps)
    ensures match Attempt(ps, c, pid, dir, req, done, gaps)
            case Stop(e) => e.done == done && Moved(c.m, e.last.m, pid, dir, req, done, done, e.got)
            case Again(d, done', chunk) => Moved(c.m, d.m, pid, dir, req, done, done', chunk)
  {
    hide Frames, CheckLoses, BurstLoses, AtCheck, AtLock, Attempt, Copy, Chunk, Moved, PageNo, PageOffset, ChunkLen;
    hide SameFlats, SameSizes;
    var n, len := PageNo(dir + done, ps), ChunkLen(dir + done, req.Size() - done, ps);
    AttemptKeeps(c, pid, n, gaps);
    AttemptCases(ps, c, pid, dir, req, done, gaps, n, len);
    CheckFlats(c, pid, n, gaps);
    if FailsCheck(c, pid, n, gaps) {
      NothingMoved(c.m, AtCheck(c, pid, n, gaps).m, pid, dir, req, done);
    } else {
      var c2 := AtLock(c, pid, n, gaps);
      LockFlats(c, pid, n, gaps);
      NothingMoved(c.m, c2.m, pid, dir, req, done);
      if Present(c2, pid, n) {
        SizesSame(c.m, c2.m);
        FoundMoves(c, c2, pid, dir, ps, req, done, len);
      }
    }
  }

  /** A transfer in which no access loses data moves exactly the bytes it counts: whoever interferes and however it
      ends, a write changed those bytes of its process and nothing else, and a read got what they were at its start. */
  lemma {:induction false} PlayMoves(ps: nat, c: Config, pid: nat, dir: nat, req: Request, done: nat, gaps: Bursts)
    requires Frames(c.m) && ps == c.m.ps && 0 < ps && done <= req.Size()
    requires !PlayLoses(ps, c, pid, dir, req, done, gaps)
    ensures var e := Play(ps, c, pid, dir, req, done, gaps);
            done <= e.done <= req.Size() && Moved(c.m, e.last.m, pid, dir, req, done, e.done, e.got)
    decreases req.Size() - done, |gaps|
  {
    hide Frames, AttemptLoses, Attempt, Moved, SameFlats;
    if done == req.Size() {
      FlatsSelf(c.m);
      NothingMoved(c.m, c.m, pid, dir, req, done);
    } else {
      AttemptMoves(ps, c, pid, dir, req, done, gaps);
      AttemptGoesOn(ps, c, pid, dir, req, done, gaps);
      var r := Attempt(ps, c, pid, dir, req, done, gaps);
      if r.Again? {
        SizesSame(c.m, r.c.m);
        PlayMoves(ps, r.c, pid, dir, req, r.done, Later(gaps, 3));
        var e := Play(ps, r.c, pid, dir, req, r.done, Later(gaps, 3));
        MovedJoin(c.m, r.c.m, e.last.m, pid, dir, req, done, r.done, e.done, r.chunk, e.got);
      }
    }
  }

  // ---- when nothing is lost ----

  /** Two conditions that rule out loss and that every access keeps: all pages fit in RAM, or the store only grows
      and every clean page has its copy. */
  ghost predicate Lossless(m: Mem, fits: bool) {
    if fits then AllFit(PageCounts(m.tables), |m.bitmap|) else m.growOnly && Clean(m)
  }

  lemma ObtainLossless(c: Config, pid: nat, n: nat, fits: bool)
    requires Frames(c.m) && Lossless(c.m, fits)
    ensures !ObtainLoses(c, pid, n) && Lossless(Obtain(c, pid, n).m, fits)
  {
    hide Frames, Clean, AllFit;
    ObtainServes(c, pid, n);
    SizesSame(c.m, Obtain(c, pid, n).m);
    if fits {
      FitLosesNothing(c.m, c.hand, pid, n);
    } else if c.m.Has(pid, n) && 0 < |c.m.bitmap| {
      AccessExists(c, pid, n);
      GrowOnlyAccess(c.m, c.hand, Obtain(c, pid, n).m, Obtain(c, pid, n).hand, pid, n);
    } else {
      NothingToObtain(c, pid, n);
    }
  }

  lemma {:induction false} BurstLossless(c: Config, accesses: seq<(nat, nat)>, fits: bool)
    requires Frames(c.m) && Lossless(c.m, fits)
    ensures !BurstLoses(c, accesses) && Lossless(Burst(c, accesses).m, fits)
    decreases |accesses|
  {
    hide Frames, Lossless, Obtain, ObtainLoses;
    if accesses != [] {
      ObtainServes(c, accesses[0].0, accesses[0].1);
      ObtainLossless(c, accesses[0].0, accesses[0].1, fits);
      BurstLossless(Obtain(c, accesses[0].0, accesses[0].1), accesses[1..], fits);
    }
  }

  lemma CheckLossless(c: Config, pid: nat, n: nat, gaps: Bursts, fits: bool)
    requires Frames(c.m) && Lossless(c.m, fits)
    ensures !CheckLoses(c, pid, n, gaps) && Lossless(AtCheck(c, pid, n, gaps).m, fits)
    ensures !BurstLoses(AtCheck(c, pid, n, gaps), BurstAt(gaps, 2)) && Lossless(AtLock(c, pid, n, gaps).m, fits)
  {
    hide Frames, Lossless, ObtainLoses, BurstLoses, Obtain, Burst;
    var c0 := Burst(c, BurstAt(gaps, 0));
    BurstKeeps(c, BurstAt(gaps, 0));
    BurstLossless(c, BurstAt(gaps, 0), fits);
    ObtainServes(c0, pid, n);
    ObtainLossless(c0, pid, n, fits);
    BurstLossless(Obtain(c0, pid, n), BurstAt(gaps, 1), fits);
    AttemptKeeps(c, pid, n, gaps);
    BurstLossless(AtCheck(c, pid, n, gaps), BurstAt(gaps, 2), fits);
  }

  lemma CopyLossless(c: Config, pid: nat, addr: nat, ps: nat, req: Request, done: nat, len: nat, fits: bool)
    requires Frames(c.m) && Lossless(c.m, fits) && ps == c.m.ps && 0 < ps && Present(c, pid, PageNo(addr, ps))
    requires done + len <= req.Size() && PageOffset(addr, ps) + len <= ps
    ensures Lossless(Copy(c, pid, addr, ps, req, done, len).m, fits)
  {
    hide Frames, Clean, AllFit, PageNo, PageOffset;
    CopyKeeps(c, pid, addr, ps, req, done, len);
    SizesSame(c.m, Copy(c, pid, addr, ps, req, done, len).m);
    if !fits {
      match req
      case ReadOf(_) => HitKeeps(c.m, pid, PageNo(addr, ps));
      case WriteOf(data) => StoreClean(c.m, pid, PageNo(addr, ps), PageOffset(addr, ps), data[done..done + len]);
    }
  }

  lemma AttemptLossless(ps: nat, c: Config, pid: nat, dir: nat, req: Request, done: nat, gaps: Bursts, fits: bool)
    requires Frames(c.m) && Lossless(c.m, fits) && ps == c.m.ps && 0 < ps && done < req.Size()
    ensures !AttemptLoses(ps, c, pid, dir, done, gaps)
    ensures var r := Attempt(ps, c, pid, dir, req, done, gaps);
            Lossless((if r.Again? then r.c else r.end.last).m, fits)
  {
    hide Frames, Lossless, CheckLoses, BurstLoses, AtCheck, AtLock, Copy, Chunk, PageNo, PageOffset, ChunkLen;
    var addr := dir + done;
    var n := PageNo(addr, ps);
    AttemptKeeps(c, pid, n, gaps);
    CheckLossless(c, pid, n, gaps, fits);
    var c2 := AtLock(c, pid, n, gaps);
    SizesSame(c.m, c2.m);
    if Present(c2, pid, n) {
      CopyLossless(c2, pid, addr, ps, req, done, ChunkLen(addr, req.Size() - done, ps), fits);
    }
  }

  /** Under either condition no access of any transfer loses data, and the condition still holds at its end. */
  lemma {:induction false} PlayLossless(ps: nat, c: Config, pid: nat, dir: nat, req: Request, done: nat, gaps: Bursts,
                                        fits: bool)
    requires Frames(c.m) && Lossless(c.m, fits) && ps == c.m.ps && 0 < ps && done <= req.Size()
    ensures !PlayLoses(ps, c, pid, dir, req, done, gaps)
    ensures Lossless(Play(ps, c, pid, dir, req, done, gaps).last.m, fits)
    decreases req.Size() - done, |gaps|
  {
    hide Frames, Lossless, AttemptLoses, Attempt;
    if done < req.Size() {
      AttemptLossless(ps, c, pid, dir, req, done, gaps, fits);
      AttemptGoesOn(ps, c, pid, dir, req, done, gaps);
      var r := Attempt(ps, c, pid, dir, req, done, gaps);
      if r.Again? {
        SizesSame(c.m, r.c.m);
        PlayLossless(ps, r.c, pid, dir, req, r.done, Later(gaps, 3), fits);
      }
    }
  }
}
