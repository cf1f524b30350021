// What a transfer does to the whole memory, access by access: obtaining pages, the bursts of other threads in
// the unlocked gaps, the checks between them and the copies. It is the reference for the two chunk loops.
module Transfers {
  import opened Bytes
  import opened Paging
  import opened ClockReplacement
  import opened PageFault
  import opened FlatMemory
  import opened Capacity

  /** The memory and the clock hand. */
  datatype Config = Config(m: Mem, hand: nat)

  predicate Present(c: Config, pid: nat, n: nat) {
    c.m.Has(pid, n) && c.m.tables[pid][n].present
  }

  // ---- one access ----

  /** After asking for page n of pid; nothing changes when there is no such page or no frame at all. */
  ghost function Obtain(c: Config, pid: nat, n: nat): Config {
    if exists d: Config :: Access(c.m, c.hand, d.m, d.hand, pid, n)
    then var d: Config :| Access(c.m, c.hand, d.m, d.hand, pid, n); d
    else c
  }

  /** An access has one outcome. */
  lemma AccessDeterministic(c: Config, a: Config, b: Config, pid: nat, n: nat)
    requires Frames(c.m) && Access(c.m, c.hand, a.m, a.hand, pid, n) && Access(c.m, c.hand, b.m, b.hand, pid, n)
    ensures a == b
  {
    hide Frames, FaultEvict, FaultFree, ClockChoice;
    if !c.m.tables[pid][n].present && Full(c.m) {
      var h := WrapHand(c.hand, |c.m.bitmap|);
      var d: nat, vp: nat, vn: nat :| EvictingAccess(c.m, c.hand, a.m, a.hand, pid, n, d, vp, vn);
      var d': nat, vp': nat, vn': nat :| EvictingAccess(c.m, c.hand, b.m, b.hand, pid, n, d', vp', vn');
      ClockDeterministic(c.m, h, d, vp, vn, d', vp', vn');
    }
  }

  lemma ObtainIs(c: Config, d: Config, pid: nat, n: nat)
    requires Frames(c.m) && Access(c.m, c.hand, d.m, d.hand, pid, n)
    ensures Obtain(c, pid, n) == d
  {
    AccessDeterministic(c, Obtain(c, pid, n), d, pid, n);
  }

  lemma NothingToObtain(c: Config, pid: nat, n: nat)
    requires Frames(c.m) && (!c.m.Has(pid, n) || |c.m.bitmap| == 0)
    ensures Obtain(c, pid, n) == c
  {
    if c.m.Has(pid, n) && c.m.tables[pid][n].present {
      assert c.m.Owns(pid, n, c.m.tables[pid][n].frame);
    }
  }

  /** The first idle frame from step t on, if the first turn has one. */
  lemma {:induction false} FirstIdle(m: Mem, h: nat, t: nat) returns (d: nat)
    requires h < |m.bitmap| && t <= |m.bitmap| && forall s: nat :: s < t ==> !Idle(m, Pos(h, s, |m.bitmap|))
    ensures d <= |m.bitmap| && (forall s: nat :: s < d ==> !Idle(m, Pos(h, s, |m.bitmap|)))
    ensures d < |m.bitmap| ==> Idle(m, Pos(h, d, |m.bitmap|))
    decreases |m.bitmap| - t
  {
    if t == |m.bitmap| || Idle(m, Pos(h, t, |m.bitmap|)) {
      d := t;
    } else {
      d := FirstIdle(m, h, t + 1);
    }
  }

  /** With every frame taken the sweep finds a victim. */
  lemma VictimExists(m: Mem, h: nat) returns (d: nat, vp: nat, vn: nat)
    requires Frames(m) && Full(m) && h < |m.bitmap|
    ensures ClockChoice(m, h, d, vp, vn)
  {
    var n := |m.bitmap|;
    d := FirstIdle(m, h, 0);
    if d < n {
      vp, vn :| m.Owns(vp, vn, Pos(h, d, n)) && !m.tables[vp][vn].used;
    } else {
      assert m.bitmap[h] && Pos(h, n, n) == h;
      vp, vn :| m.Owns(vp, vn, h);
    }
  }

  lemma {:induction false} LowestFreeExists(m: Mem, k: nat) returns (f: nat)
    requires k <= |m.bitmap| && !Full(m) && forall g: nat :: g < k ==> m.bitmap[g]
    ensures LowestFree(m, f)
    decreases |m.bitmap| - k
  {
    assert k < |m.bitmap|;
    if !m.bitmap[k] {
      f := k;
    } else {
      f := LowestFreeExists(m, k + 1);
    }
  }

  /** There is RAM and such a page: the access succeeds. */
  lemma AccessExists(c: Config, pid: nat, n: nat)
    requires Frames(c.m) && c.m.Has(pid, n) && 0 < |c.m.bitmap|
    ensures Access(c.m, c.hand, Obtain(c, pid, n).m, Obtain(c, pid, n).hand, pid, n)
  {
    var m := c.m;
    if m.tables[pid][n].present {
      var d := Config(m.SetEntry(pid, n, m.tables[pid][n].(used := true)), c.hand);
      assert Access(m, c.hand, d.m, d.hand, pid, n);
    } else if !Full(m) {
      var f := LowestFreeExists(m, 0);
      var d := Config(FaultFree(m, pid, n, f), c.hand);
      assert Access(m, c.hand, d.m, d.hand, pid, n);
    } else {
      var h := WrapHand(c.hand, |m.bitmap|);
      var s, vp, vn := VictimExists(m, h);
      var d := Config(FaultEvict(m, pid, n, h, s, vp, vn), Succ(Pos(h, s, |m.bitmap|), |m.bitmap|));
      assert EvictingAccess(m, c.hand, d.m, d.hand, pid, n, s, vp, vn);
      assert Access(m, c.hand, d.m, d.hand, pid, n);
    }
  }

  /** The page is in RAM afterwards, frame ownership is still a bijection, and no table changed its length. */
  lemma ObtainServes(c: Config, pid: nat, n: nat)
    requires Frames(c.m)
    ensures Frames(Obtain(c, pid, n).m) && SameSizes(c.m, Obtain(c, pid, n).m)
    ensures c.m.Has(pid, n) && 0 < |c.m.bitmap| ==> Present(Obtain(c, pid, n), pid, n)
  {
    if c.m.Has(pid, n) && 0 < |c.m.bitmap| {
      AccessExists(c, pid, n);
      AccessServes(c.m, c.hand, Obtain(c, pid, n).m, Obtain(c, pid, n).hand, pid, n);
    } else {
      NothingToObtain(c, pid, n);
    }
  }

  // ---- bursts ----

  /** After the accesses of other threads in one gap. */
  ghost function Burst(c: Config, accesses: seq<(nat, nat)>): Config
    decreases |accesses|
  {
    if accesses == [] then c else Burst(Obtain(c, accesses[0].0, accesses[0].1), accesses[1..])
  }

  lemma {:induction false} BurstStep(c: Config, accesses: seq<(nat, nat)>, i: nat)
    requires i < |accesses|
    ensures Burst(c, accesses[..i + 1]) == Obtain(Burst(c, accesses[..i]), accesses[i].0, accesses[i].1)
    decreases i
  {
    var d := Obtain(c, accesses[0].0, accesses[0].1);
    assert accesses[..i + 1][1..] == accesses[1..][..i];
    if i > 0 {
      assert accesses[..i][1..] == accesses[1..][..i - 1];
      BurstStep(d, accesses[1..], i - 1);
    }
  }

  lemma {:induction false} BurstKeeps(c: Config, accesses: seq<(nat, nat)>)
    requires Frames(c.m)
    ensures Frames(Burst(c, accesses).m) && SameSizes(c.m, Burst(c, accesses).m)
    decreases |accesses|
  {
    if accesses != [] {
      ObtainServes(c, accesses[0].0, accesses[0].1);
      hide Frames, Obtain;
      BurstKeeps(Obtain(c, accesses[0].0, accesses[0].1), accesses[1..]);
    }
  }

  /** The burst of the k-th gap from now, empty when there are no more. */
  function BurstAt(gaps: Bursts, k: nat): seq<(nat, nat)> {
    if k < |gaps| then gaps[k] else []
  }

  function Later(gaps: Bursts, k: nat): Bursts {
    if k < |gaps| then gaps[k..] else []
  }

  // ---- one attempt at a chunk ----

  /** Gap, obtain, gap: what the unlocked check sees. */
  ghost function AtCheck(c: Config, pid: nat, n: nat, gaps: Bursts): Config {
    Burst(Obtain(Burst(c, BurstAt(gaps, 0)), pid, n), BurstAt(gaps, 1))
  }

  /** One gap later: what the check under the lock sees. */
  ghost function AtLock(c: Config, pid: nat, n: nat, gaps: Bursts): Config {
    Burst(AtCheck(c, pid, n, gaps), BurstAt(gaps, 2))
  }

  lemma AttemptKeeps(c: Config, pid: nat, n: nat, gaps: Bursts)
    requires Frames(c.m)
    ensures Frames(AtCheck(c, pid, n, gaps).m) && SameSizes(c.m, AtCheck(c, pid, n, gaps).m)
    ensures Frames(AtLock(c, pid, n, gaps).m) && SameSizes(c.m, AtLock(c, pid, n, gaps).m)
  {
    hide Frames, Obtain, Burst;
    var c0 := Burst(c, BurstAt(gaps, 0));
    BurstKeeps(c, BurstAt(gaps, 0));
    ObtainServes(c0, pid, n);
    BurstKeeps(Obtain(c0, pid, n), BurstAt(gaps, 1));
    BurstKeeps(AtCheck(c, pid, n, gaps), BurstAt(gaps, 2));
  }

  // ---- whole transfers ----

  datatype Request = ReadOf(len: nat) | WriteOf(data: seq<Byte>)
  {
    function Size(): nat {
      if ReadOf? then len else |data|
    }
  }

  function PageNo(addr: nat, ps: nat): nat
    requires 0 < ps
  {
    addr / ps
  }

  function PageOffset(addr: nat, ps: nat): nat
    requires 0 < ps
  {
    addr % ps
  }

  lemma PageParts(addr: nat, ps: nat)
    requires 0 < ps
    ensures addr / ps == PageNo(addr, ps) && addr % ps == PageOffset(addr, ps) < ps
    ensures addr == PageNo(addr, ps) * ps + PageOffset(addr, ps)
  {
    DivMod(addr, ps);
  }

  /** The bytes of one chunk: up to the end of the page or of the request. */
  function ChunkLen(addr: nat, left: nat, ps: nat): (len: nat)
    requires 0 < ps && 0 < left
    ensures 0 < len <= left && PageOffset(addr, ps) + len <= ps
    ensures len == left || PageOffset(addr, ps) + len == ps
  {
    if ps - PageOffset(addr, ps) < left then ps - PageOffset(addr, ps) else left
  }

  /** The copy of one chunk under the lock. */
  function Copy(c: Config, pid: nat, addr: nat, ps: nat, req: Request, done: nat, len: nat): Config
    requires 0 < ps && c.m.Has(pid, PageNo(addr, ps)) && done + len <= req.Size()
  {
    var n := PageNo(addr, ps);
    match req
    case ReadOf(_) => Config(c.m.SetEntry(pid, n, c.m.tables[pid][n].(used := true)), c.hand)
    case WriteOf(data) => Config(Store(c.m, pid, n, PageOffset(addr, ps), data[done..done + len]), c.hand)
  }

  /** A copy leaves the page where it is, in use, and marked for writing back if it was written. */
  lemma CopyMarks(c: Config, pid: nat, addr: nat, ps: nat, req: Request, done: nat, len: nat)
    requires 0 < ps && Present(c, pid, PageNo(addr, ps)) && done + len <= req.Size()
    ensures var n := PageNo(addr, ps); var p := c.m.tables[pid][n]; var c' := Copy(c, pid, addr, ps, req, done, len);
            && c'.hand == c.hand && c'.m.tables == c.m.tables[pid := c.m.tables[pid][n :=
                                                    Page(p.frame, true, p.modified || req.WriteOf?, true)]]
            && c'.m.bitmap == c.m.bitmap && c'.m.swap == c.m.swap && (req.ReadOf? ==> c'.m.ram == c.m.ram)
  {
    hide PageNo, PageOffset, Splice;
  }

  /** The bytes of one chunk of a read, taken from the frame under the lock. */
  function Chunk(c: Config, pid: nat, addr: nat, ps: nat, req: Request, len: nat): seq<Byte>
    requires 0 < ps && c.m.Has(pid, PageNo(addr, ps))
  {
    var content, off := c.m.Content(pid, PageNo(addr, ps)), PageOffset(addr, ps);
    if req.ReadOf? && off + len <= |content| then content[off..off + len] else []
  }

  /** How a transfer ends: `cut` when the unlocked check missed a page that had just been obtained, `done` the
      bytes transferred, `last` the state then, `got` what was read. */
  datatype End = End(cut: bool, done: nat, last: Config, got: seq<Byte>)

  datatype Round = Stop(end: End) | Again(c: Config, done: nat, chunk: seq<Byte>)

  /** One attempt at the chunk from byte `done` on. A page absent at the unlocked check cuts the transfer; a page
      absent under the lock makes it try the chunk again. */
  ghost function Attempt(ps: nat, c: Config, pid: nat, dir: nat, req: Request, done: nat, gaps: Bursts): (r: Round)
    requires 0 < ps && done < req.Size()
    ensures r.Again? ==> done <= r.done <= req.Size() && (r.done == done ==> |Later(gaps, 3)| < |gaps|)
  {
    var addr := dir + done;
    var n := PageNo(addr, ps);
    if !c.m.Has(pid, n) || |c.m.bitmap| == 0 then Stop(End(false, done, AtCheck(c, pid, n, gaps), []))
    else if !Present(AtCheck(c, pid, n, gaps), pid, n) then Stop(End(true, done, AtCheck(c, pid, n, gaps), []))
    else if !Present(AtLock(c, pid, n, gaps), pid, n) then Again(AtLock(c, pid, n, gaps), done, [])
    else
      var len := ChunkLen(addr, req.Size() - done, ps);
      var c2 := AtLock(c, pid, n, gaps);
      Again(Copy(c2, pid, addr, ps, req, done, len), done + len, Chunk(c2, pid, addr, ps, req, len))
  }

  /** The transfer from byte `done` on, with the bursts `gaps` still to come. */
  ghost function Play(ps: nat, c: Config, pid: nat, dir: nat, req: Request, done: nat, gaps: Bursts): End
    requires 0 < ps && done <= req.Size()
    decreases req.Size() - done, |gaps|
  {
    if done == req.Size() then End(false, done, c, [])
    else
      match Attempt(ps, c, pid, dir, req, done, gaps)
      case Stop(e) => e
      case Again(c', done', chunk) =>
        var e := Play(ps, c', pid, dir, req, done', Later(gaps, 3));
        e.(got := chunk + e.got)
  }

  lemma AttemptCases(ps: nat, c: Config, pid: nat, dir: nat, req: Request, done: nat, gaps: Bursts, n: nat, len: nat)
    requires 0 < ps && done < req.Size() && n == PageNo(dir + done, ps)
             && len == ChunkLen(dir + done, req.Size() - done, ps)
    ensures var a := Attempt(ps, c, pid, dir, req, done, gaps);
            var c1, c2 := AtCheck(c, pid, n, gaps), AtLock(c, pid, n, gaps);
            if !c.m.Has(pid, n) || |c.m.bitmap| == 0 || !Present(c1, pid, n)
            then a.Stop? && a.end.last == c1 && a.end.done == done && a.end.got == []
            else if !Present(c2, pid, n) then a == Again(c2, done, [])
            else a == Again(Copy(c2, pid, dir + done, ps, req, done, len), done + len,
                            Chunk(c2, pid, dir + done, ps, req, len))
  {
    hide AtCheck, AtLock, Copy, Chunk, PageNo, ChunkLen;
  }

  /** A transfer is over, or continues with the next attempt. */
  lemma PlayOn(ps: nat, c: Config, pid: nat, dir: nat, req: Request, done: nat, gaps: Bursts)
    requires 0 < ps && done <= req.Size()
    ensures done == req.Size() ==> Play(ps, c, pid, dir, req, done, gaps) == End(false, done, c, [])
    ensures done < req.Size() ==>
              var a := Attempt(ps, c, pid, dir, req, done, gaps);
              && (a.Stop? ==> Play(ps, c, pid, dir, req, done, gaps) == a.end)
              && (a.Again? ==> (a.done == done ==> |Later(gaps, 3)| < |gaps|) && done <= a.done <= req.Size()
                               && var e := Play(ps, a.c, pid, dir, req, a.done, Later(gaps, 3));
                                  Play(ps, c, pid, dir, req, done, gaps) == e.(got := a.chunk + e.got))
  {
    hide Attempt, Later;
  }

  // ---- how far a transfer gets ----

  /** Size in bytes of the address space of pid (0 for an unknown process). */
  function Extent(m: Mem, pid: nat): int {
    if pid in m.tables then |m.tables[pid]| * m.ps else 0
  }

  /** What was transferred so far lies in the address space. */
  predicate Progress(m: Mem, pid: nat, dir: nat, done: nat) {
    0 < done ==> 0 < |m.bitmap| && dir + done <= Extent(m, pid)
  }

  lemma ChunkInside(m: Mem, pid: nat, addr: nat, len: nat)
    requires 0 < m.ps && 0 < len && PageOffset(addr, m.ps) + len <= m.ps
    ensures m.Has(pid, PageNo(addr, m.ps)) ==> addr + len <= Extent(m, pid)
    ensures !m.Has(pid, PageNo(addr, m.ps)) ==> Extent(m, pid) <= addr
  {
    DivMod(addr, m.ps);
    if pid in m.tables {
      PageInside(addr, m.ps, |m.tables[pid]|);
      if m.Has(pid, addr / m.ps) {
        RowBounds(addr / m.ps, |m.tables[pid]|, m.ps);
      }
    }
  }

  lemma FramesPs(m: Mem)
    requires Frames(m)
    ensures 0 < m.ps
  {
  }

  lemma SizesTrans(a: Mem, b: Mem, c: Mem)
    requires SameSizes(a, b) && SameSizes(b, c)
    ensures SameSizes(a, c)
  {
    forall q | q in c.swap
      ensures FileWithin(a, q, |c.swap[q]|)
    {
      assert FileWithin(b, q, |c.swap[q]|);
      assert q in b.swap ==> FileWithin(a, q, |b.swap[q]|);
    }
  }

  lemma SizesSame(a: Mem, b: Mem)
    requires SameSizes(a, b)
    ensures a.ps == b.ps && a.growOnly == b.growOnly && |a.bitmap| == |b.bitmap| && a.tables.Keys == b.tables.Keys
    ensures PageCounts(a.tables) == PageCounts(b.tables)
    ensures forall pid: nat :: Extent(a, pid) == Extent(b, pid)
    ensures forall pid: nat, n: nat :: a.Has(pid, n) == b.Has(pid, n)
  {
  }

  lemma StoreSizes(m: Mem, pid: nat, n: nat, off: nat, data: seq<Byte>)
    requires m.Has(pid, n)
    ensures SameSizes(m, Store(m, pid, n, off, data))
  {
  }

  lemma CopyKeeps(c: Config, pid: nat, addr: nat, ps: nat, req: Request, done: nat, len: nat)
    requires Frames(c.m) && ps == c.m.ps && 0 < ps && Present(c, pid, PageNo(addr, ps))
    requires done + len <= req.Size() && PageOffset(addr, ps) + len <= ps
    ensures Frames(Copy(c, pid, addr, ps, req, done, len).m) && SameSizes(c.m, Copy(c, pid, addr, ps, req, done, len).m)
  {
    hide PageNo, PageOffset;
    var n, off := PageNo(addr, ps), PageOffset(addr, ps);
    match req
    case ReadOf(_) => HitKeeps(c.m, pid, n);
    case WriteOf(data) =>
      StoreFrames(c.m, pid, n, off, data[done..done + len]);
      StoreSizes(c.m, pid, n, off, data[done..done + len]);
  }

  /** What the state is after an attempt. */
  lemma AttemptGoesOn(ps: nat, c: Config, pid: nat, dir: nat, req: Request, done: nat, gaps: Bursts)
    requires Frames(c.m) && ps == c.m.ps && 0 < ps && done < req.Size()
    ensures var r := Attempt(ps, c, pid, dir, req, done, gaps); var d := if r.Again? then r.c else r.end.last;
            Frames(d.m) && SameSizes(c.m, d.m)
  {
    hide Frames, AtCheck, AtLock, Copy, PageNo, PageOffset, SameSizes, ChunkLen;
    var addr := dir + done;
    var n := PageNo(addr, ps);
    AttemptKeeps(c, pid, n, gaps);
    var c2 := AtLock(c, pid, n, gaps);
    SizesSame(c.m, c2.m);
    if Present(c2, pid, n) {
      var len := ChunkLen(addr, req.Size() - done, ps);
      CopyKeeps(c2, pid, addr, ps, req, done, len);
      SizesTrans(c.m, c2.m, Copy(c2, pid, addr, ps, req, done, len).m);
    }
  }

  /** Whatever others do, a transfer leaves frame ownership a bijection and every table its length. */
  lemma {:induction false} PlayKeeps(ps: nat, c: Config, pid: nat, dir: nat, req: Request, done: nat, gaps: Bursts)
    requires Frames(c.m) && ps == c.m.ps && 0 < ps && done <= req.Size()
    ensures var d := Play(ps, c, pid, dir, req, done, gaps).last; Frames(d.m) && SameSizes(c.m, d.m)
    decreases req.Size() - done, |gaps|
  {
    if done < req.Size() {
      hide Frames, Attempt;
      AttemptGoesOn(ps, c, pid, dir, req, done, gaps);
      var r := Attempt(ps, c, pid, dir, req, done, gaps);
      if r.Again? {
        PlayKeeps(ps, r.c, pid, dir, req, r.done, Later(gaps, 3));
        SizesTrans(c.m, r.c.m, Play(ps, r.c, pid, dir, req, r.done, Later(gaps, 3)).last.m);
      }
    }
  }

  /** Where an attempt stands. */
  lemma AttemptProgress(ps: nat, c: Config, pid: nat, dir: nat, req: Request, done: nat, gaps: Bursts)
    requires ps == c.m.ps && 0 < ps && done < req.Size() && Progress(c.m, pid, dir, done)
    ensures var r := Attempt(ps, c, pid, dir, req, done, gaps);
            if r.Again? then Progress(c.m, pid, dir, r.done)
            else && r.end.done == done
                 && Transferred(|c.m.bitmap|, Extent(c.m, pid), dir, req.Size(), r.end.cut, false, done)
  {
    hide AtCheck, AtLock, Copy, PageNo, PageOffset, Extent;
    ChunkInside(c.m, pid, dir + done, ChunkLen(dir + done, req.Size() - done, ps));
  }

  /** A transfer succeeds exactly when it is empty, or it fits, there is RAM and it is not cut; uncut and not
      fitting, it stops exactly at the end of the address space. */
  lemma {:induction false} PlayExact(ps: nat, c: Config, pid: nat, dir: nat, req: Request, done: nat, gaps: Bursts)
    requires Frames(c.m) && ps == c.m.ps && 0 < ps && done <= req.Size() && Progress(c.m, pid, dir, done)
    ensures var e := Play(ps, c, pid, dir, req, done, gaps);
            Transferred(|c.m.bitmap|, Extent(c.m, pid), dir, req.Size(), e.cut, e.done == req.Size(), e.done)
    decreases req.Size() - done, |gaps|
  {
    if done < req.Size() {
      hide Frames, Attempt, Extent;
      AttemptGoesOn(ps, c, pid, dir, req, done, gaps);
      AttemptProgress(ps, c, pid, dir, req, done, gaps);
      var r := Attempt(ps, c, pid, dir, req, done, gaps);
      if r.Again? {
        SizesSame(c.m, r.c.m);
        PlayExact(ps, r.c, pid, dir, req, r.done, Later(gaps, 3));
      }
    }
  }

  // ---- when a transfer is not cut, and when it is ----

  /** An attempt is cut exactly when there is such a page and some RAM, and the accesses of other threads between
      obtaining the page and the unlocked check evict it again. */
  lemma CutIsEviction(ps: nat, c: Config, pid: nat, dir: nat, req: Request, done: nat, gaps: Bursts)
    requires Frames(c.m) && 0 < ps && done < req.Size()
    ensures var n := PageNo(dir + done, ps); var r := Attempt(ps, c, pid, dir, req, done, gaps);
            var obtained := Obtain(Burst(c, BurstAt(gaps, 0)), pid, n);
            r.Stop? && r.end.cut <==>
              Present(obtained, pid, n) && !Present(Burst(obtained, BurstAt(gaps, 1)), pid, n)
  {
    hide Frames, Obtain, Burst, PageNo, ChunkLen;
    var n := PageNo(dir + done, ps);
    var c0 := Burst(c, BurstAt(gaps, 0));
    BurstKeeps(c, BurstAt(gaps, 0));
    SizesSame(c.m, c0.m);
    ObtainServes(c0, pid, n);
    var d := Obtain(c0, pid, n);
    SizesSame(c0.m, d.m);
    if Present(d, pid, n) {
      PresentHasFrame(d.m, pid, n);
    }
  }

  lemma PresentHasFrame(m: Mem, pid: nat, n: nat)
    requires Frames(m) && m.Has(pid, n) && m.tables[pid][n].present
    ensures 0 < |m.bitmap|
  {
    assert m.Owns(pid, n, m.tables[pid][n].frame);
  }

  ghost predicate Quiet(gaps: Bursts) {
    forall i: nat :: i < |gaps| ==> gaps[i] == []
  }

  lemma QuietAttempt(c: Config, pid: nat, n: nat, gaps: Bursts)
    requires Quiet(gaps)
    ensures AtCheck(c, pid, n, gaps) == Obtain(c, pid, n) == AtLock(c, pid, n, gaps)
    ensures Quiet(Later(gaps, 3))
  {
    assert forall k: nat :: BurstAt(gaps, k) == [];
  }

  lemma QuietAttemptGoesOn(ps: nat, c: Config, pid: nat, dir: nat, req: Request, done: nat, gaps: Bursts)
    requires Frames(c.m) && 0 < ps && done < req.Size() && Quiet(gaps)
    ensures Attempt(ps, c, pid, dir, req, done, gaps).Stop? ==> !Attempt(ps, c, pid, dir, req, done, gaps).end.cut
  {
    hide Frames, Obtain, AtCheck, AtLock, Copy, PageNo;
    var n := PageNo(dir + done, ps);
    QuietAttempt(c, pid, n, gaps);
    ObtainServes(c, pid, n);
  }

  /** Nobody interferes. */
  lemma {:induction false} QuietNeverCut(ps: nat, c: Config, pid: nat, dir: nat, req: Request, done: nat, gaps: Bursts)
    requires Frames(c.m) && ps == c.m.ps && 0 < ps && done <= req.Size() && Quiet(gaps)
    ensures !Play(ps, c, pid, dir, req, done, gaps).cut
    decreases req.Size() - done, |gaps|
  {
    if done < req.Size() {
      QuietAttempt(c, pid, PageNo(dir + done, ps), gaps);
      hide Frames, Attempt, Quiet, Later;
      AttemptGoesOn(ps, c, pid, dir, req, done, gaps);
      QuietAttemptGoesOn(ps, c, pid, dir, req, done, gaps);
      var r := Attempt(ps, c, pid, dir, req, done, gaps);
      if r.Again? {
        SizesSame(c.m, r.c.m);
        QuietNeverCut(ps, r.c, pid, dir, req, r.done, Later(gaps, 3));
      }
    }
  }

  /** A present page stays present while all pages fit in RAM. */
  lemma ObtainEvictsNothing(c: Config, pid: nat, n: nat, q: nat, k: nat)
    requires Frames(c.m) && AllFit(PageCounts(c.m.tables), |c.m.bitmap|) && Present(c, q, k)
    ensures Present(Obtain(c, pid, n), q, k)
  {
    if c.m.Has(pid, n) && 0 < |c.m.bitmap| {
      AccessExists(c, pid, n);
      if !c.m.tables[pid][n].present {
        MissingMeansRoom(c.m, pid, n);
      }
    } else {
      NothingToObtain(c, pid, n);
    }
  }

  lemma {:induction false} BurstEvictsNothing(c: Config, accesses: seq<(nat, nat)>, q: nat, k: nat)
    requires Frames(c.m) && AllFit(PageCounts(c.m.tables), |c.m.bitmap|) && Present(c, q, k)
    ensures Present(Burst(c, accesses), q, k)
    decreases |accesses|
  {
    if accesses != [] {
      var d := Obtain(c, accesses[0].0, accesses[0].1);
      ObtainEvictsNothing(c, accesses[0].0, accesses[0].1, q, k);
      ObtainServes(c, accesses[0].0, accesses[0].1);
      hide Frames, Obtain;
      SizesSame(c.m, d.m);
      BurstEvictsNothing(d, accesses[1..], q, k);
    }
  }

  lemma FitAttemptGoesOn(ps: nat, c: Config, pid: nat, dir: nat, req: Request, done: nat, gaps: Bursts)
    requires Frames(c.m) && 0 < ps && done < req.Size() && AllFit(PageCounts(c.m.tables), |c.m.bitmap|)
    ensures Attempt(ps, c, pid, dir, req, done, gaps).Stop? ==> !Attempt(ps, c, pid, dir, req, done, gaps).end.cut
  {
    hide Frames, AtCheck, AtLock, Copy, PageNo, AllFit;
    var n := PageNo(dir + done, ps);
    if c.m.Has(pid, n) && 0 < |c.m.bitmap| {
      StaysPresent(c, pid, n, gaps);
    }
  }

  /** All pages fit in RAM. */
  lemma {:induction false} FitNeverCut(ps: nat, c: Config, pid: nat, dir: nat, req: Request, done: nat, gaps: Bursts)
    requires Frames(c.m) && ps == c.m.ps && 0 < ps && done <= req.Size()
    requires AllFit(PageCounts(c.m.tables), |c.m.bitmap|)
    ensures !Play(ps, c, pid, dir, req, done, gaps).cut
    decreases req.Size() - done, |gaps|
  {
    if done < req.Size() {
      hide Frames, Attempt, AllFit;
      AttemptGoesOn(ps, c, pid, dir, req, done, gaps);
      FitAttemptGoesOn(ps, c, pid, dir, req, done, gaps);
      var r := Attempt(ps, c, pid, dir, req, done, gaps);
      if r.Again? {
        SizesSame(c.m, r.c.m);
        FitNeverCut(ps, r.c, pid, dir, req, r.done, Later(gaps, 3));
      }
    }
  }

  lemma StaysPresent(c: Config, pid: nat, n: nat, gaps: Bursts)
    requires Frames(c.m) && AllFit(PageCounts(c.m.tables), |c.m.bitmap|) && c.m.Has(pid, n) && 0 < |c.m.bitmap|
    ensures Present(AtCheck(c, pid, n, gaps), pid, n) && Present(AtLock(c, pid, n, gaps), pid, n)
  {
    hide Frames, Obtain, Burst, AllFit, SameSizes;
    var c0 := Burst(c, BurstAt(gaps, 0));
    BurstKeeps(c, BurstAt(gaps, 0));
    SizesSame(c.m, c0.m);
    ObtainServes(c0, pid, n);
    var d := Obtain(c0, pid, n);
    SizesSame(c0.m, d.m);
    BurstEvictsNothing(d, BurstAt(gaps, 1), pid, n);
    BurstKeeps(d, BurstAt(gaps, 1));
    var c1 := Burst(d, BurstAt(gaps, 1));
    SizesSame(d.m, c1.m);
    BurstEvictsNothing(c1, BurstAt(gaps, 2), pid, n);
  }

  /** With one frame, any access to another page in the gap before the unlocked check cuts the transfer. */
  lemma OneFrameCuts(c: Config, pid: nat, dir: nat, req: Request, q: nat, k: nat)
    requires Frames(c.m) && 0 < c.m.ps && |c.m.bitmap| == 1 && 0 < req.Size()
    requires c.m.Has(pid, PageNo(dir, c.m.ps)) && c.m.Has(q, k) && (q, k) != (pid, PageNo(dir, c.m.ps))
    ensures Play(c.m.ps, c, pid, dir, req, 0, [[], [(q, k)]]).cut
    ensures Play(c.m.ps, c, pid, dir, req, 0, [[], [(q, k)]]).done == 0
  {
    var n := PageNo(dir, c.m.ps);
    var gaps: Bursts := [[], [(q, k)]];
    var c0 := Obtain(c, pid, n);
    var c1 := Obtain(c0, q, k);
    assert Burst(c, []) == c;
    assert [(q, k)][1..] == [];
    assert Burst(c0, [(q, k)]) == Burst(c1, []) == c1;
    assert AtCheck(c, pid, n, gaps) == c1;
    ObtainServes(c, pid, n);
    ObtainServes(c0, q, k);
    hide Obtain, Play;
    if Present(c1, pid, n) {
      SoleFrame(c1, pid, n, q, k);
    }
    CutAtOnce(c, pid, dir, req, gaps);
  }

  lemma SoleFrame(c: Config, pid: nat, n: nat, q: nat, k: nat)
    requires Frames(c.m) && |c.m.bitmap| == 1 && Present(c, pid, n) && Present(c, q, k)
    ensures (pid, n) == (q, k)
  {
    assert c.m.Owns(pid, n, c.m.tables[pid][n].frame) && c.m.Owns(q, k, c.m.tables[q][k].frame);
  }

  lemma CutAtOnce(c: Config, pid: nat, dir: nat, req: Request, gaps: Bursts)
    requires 0 < c.m.ps && 0 < |c.m.bitmap| && 0 < req.Size() && c.m.Has(pid, PageNo(dir, c.m.ps))
    requires !Present(AtCheck(c, pid, PageNo(dir, c.m.ps), gaps), pid, PageNo(dir, c.m.ps))
    ensures Play(c.m.ps, c, pid, dir, req, 0, gaps) == End(true, 0, AtCheck(c, pid, PageNo(dir, c.m.ps), gaps), [])
  {
  }
}
