// The memory module under paging, in the form the program has it: page tables, bitmap, RAM, swap files and
// the clock hand, changed in place.
module PagedMemoryModel {
  import opened Bytes
  import opened Paging
  import opened ClockReplacement
  import opened PageFault
  import opened FlatMemory
  import opened Capacity
  import opened Transfers
  import opened PagedRequests

  /** Who owns a frame, as the sweep's lookup table records it. */
  datatype Slot = Nobody | OwnedBy(pid: nat, n: nat)

  class PagedMemory {
    const ps: nat
    const growOnly: bool
    const bitmap: array<bool>
    const ram: array<Byte>
    var tables: map<nat, seq<Page>>
    var swap: map<nat, seq<seq<Byte>>>
    var hand: nat

    ghost function M(): Mem
      reads this, bitmap, ram
    {
      Mem(ps, growOnly, tables, bitmap[..], ram[..], swap)
    }

    ghost function C(): Config
      reads this, bitmap, ram
    {
      Config(M(), hand)
    }

    ghost predicate Valid()
      reads this, bitmap, ram
    {
      Frames(M())
    }

    constructor (pageSize: nat, memSize: nat, growOnly: bool)
      requires 0 < pageSize
      ensures Valid() && fresh(bitmap) && fresh(ram)
      ensures ps == pageSize && this.growOnly == growOnly && ram.Length == memSize
      ensures bitmap.Length == memSize / pageSize
      ensures tables == map[] && swap == map[] && hand == 0
    {
      ps := pageSize;
      this.growOnly := growOnly;
      bitmap := new bool[memSize / pageSize](_ => false);
      ram := new Byte[memSize](_ => 0);
      tables, swap, hand := map[], map[], 0;
      new;
      DivFloor(memSize, pageSize);
    }

    // ---- physical memory (memoria_ram.c) ----

    method PhysRead(addr: nat, len: nat) returns (ok: bool, data: seq<Byte>)
      ensures ok <==> addr + len <= ram.Length
      ensures ok ==> data == ram[addr..addr + len]
    {
      if addr + len > ram.Length {
        return false, [];
      }
      return true, ram[addr..addr + len];
    }

    method PhysWrite(addr: nat, data: seq<Byte>) returns (ok: bool)
      modifies ram
      ensures ok <==> addr + |data| <= ram.Length
      ensures ram[..] == if ok then Splice(old(ram[..]), addr, data) else old(ram[..])
    {
      if addr + |data| > ram.Length {
        return false;
      }
      forall i | 0 <= i < |data| {
        ram[addr + i] := data[i];
      }
      ok := true;
    }

    // ---- swap files (swap.c) ----

    method SwapOut(pid: nat, n: nat, page: seq<Byte>)
      modifies this`swap
      ensures swap == old(swap)[pid :=
                        SwapWrite(if pid in old(swap) then old(swap)[pid] else [], ps, growOnly, n, page)]
    {
      var file := if pid in swap then swap[pid] else [];
      if |file| <= n {
        file := file + ZeroPages(ps, n + 1 - |file|);
      } else if !growOnly {
        file := file[..n + 1];
      }
      swap := swap[pid := file[n := page]];
    }

    method SwapIn(pid: nat, n: nat) returns (ok: bool, page: seq<Byte>)
      ensures ok <==> pid in swap && n < |swap[pid]|
      ensures ok ==> page == swap[pid][n]
    {
      if pid !in swap || |swap[pid]| <= n {
        return false, [];
      }
      return true, swap[pid][n];
    }

    // ---- frames (frames.c) ----

    /** Takes the lowest free frame, or returns -1. */
    method TakeFreeFrame() returns (f: int)
      modifies bitmap
      ensures f == -1 <==> forall g: nat | g < bitmap.Length :: old(bitmap[..])[g]
      ensures f == -1 ==> bitmap[..] == old(bitmap[..])
      ensures f != -1 ==> 0 <= f < bitmap.Length && !old(bitmap[..])[f]
                          && (forall g: nat | g < f :: old(bitmap[..])[g])
                          && bitmap[..] == old(bitmap[..])[f := true]
    {
      var i := 0;
      while i < bitmap.Length
        invariant i <= bitmap.Length
        invariant bitmap[..] == old(bitmap[..])
        invariant forall g: nat | g < i :: bitmap[..][g]
      {
        if !bitmap[i] {
          bitmap[i] := true;
          return i;
        }
        i := i + 1;
      }
      return -1;
    }

    method FreeFrame(f: int)
      modifies bitmap
      ensures bitmap[..] == if 0 <= f < bitmap.Length then old(bitmap[..])[f := false] else old(bitmap[..])
    {
      if 0 <= f < bitmap.Length {
        bitmap[f] := false;
      }
    }

    // ---- clock (reemplazo.c) ----

    /** The frame -> page lookup table, filled from the tables in any key order. */
    method Owners() returns (slots: array<Slot>)
      requires Frames(M())
      ensures fresh(slots) && slots.Length == bitmap.Length && SlotsOf(M(), slots[..])
    {
      slots := new Slot[bitmap.Length](_ => Nobody);
      var keys := tables.Keys;
      while keys != {}
        invariant keys <= tables.Keys
        invariant forall f: nat | f < slots.Length && slots[f].OwnedBy? :: M().Owns(slots[f].pid, slots[f].n, f)
        invariant forall pid: nat, n: nat, f: int :: M().Owns(pid, n, f) && pid !in keys ==> slots[f].OwnedBy?
        decreases keys
      {
        var pid :| pid in keys;
        var p := 0;
        while p < |tables[pid]|
          invariant p <= |tables[pid]|
          invariant forall f: nat | f < slots.Length && slots[f].OwnedBy? :: M().Owns(slots[f].pid, slots[f].n, f)
          invariant forall q: nat, n: nat, f: int ::
                      M().Owns(q, n, f) && (q !in keys || (q == pid && n < p)) ==> slots[f].OwnedBy?
        {
          var e := tables[pid][p];
          if e.present && 0 <= e.frame < bitmap.Length {
            slots[e.frame] := OwnedBy(pid, p);
            assert M().Owns(pid, p, e.frame);
          }
          p := p + 1;
        }
        keys := keys - {pid};
      }
    }

    /** One step of the hand: stop at an idle owner, otherwise clear the owner's bit (if any) and go on. */
    method Tick(slots: array<Slot>, ghost m0: Mem, ghost h: nat, ghost s: nat) returns (stop: bool, idx: nat)
      requires Sweeping(m0, h, s, M()) && s < 2 * bitmap.Length && SlotsOf(m0, slots[..])
      requires |m0.bitmap| == bitmap.Length && hand == Pos(h, s, bitmap.Length)
      modifies this`tables, this`hand
      ensures idx == Pos(h, s, bitmap.Length) && hand == Succ(idx, bitmap.Length)
      ensures stop ==> && slots[idx].OwnedBy? && ClockChoice(m0, h, s, slots[idx].pid, slots[idx].n)
                       && tables == old(tables)
      ensures !stop ==> Sweeping(m0, h, s + 1, M())
    {
      idx := hand;
      hand := (hand + 1) % bitmap.Length;
      HandStep(h, s, bitmap.Length);
      if slots[idx].Nobody? {
        SweepSkip(m0, h, s, M());
        return false, idx;
      }
      var q, k := slots[idx].pid, slots[idx].n;
      SweepOwner(m0, h, s, M(), q, k);
      if !tables[q][k].used {
        SweepStop(m0, h, s, M(), q, k);
        return true, idx;
      }
      SweepMove(m0, h, s, M(), q, k);
      tables := tables[q := tables[q][k := tables[q][k].(used := false)]];
      stop := false;
    }

    /** At most two turns of the hand. */
    method Sweep(slots: array<Slot>, ghost m0: Mem, ghost h: nat) returns (stop: bool, idx: nat, ghost d: nat)
      requires Sweeping(m0, h, 0, M()) && SlotsOf(m0, slots[..])
      requires 0 < bitmap.Length == |m0.bitmap| && hand == h
      modifies this`tables, this`hand
      ensures stop ==> && h < bitmap.Length && d < 2 * bitmap.Length && idx == Pos(h, d, bitmap.Length)
                       && slots[idx].OwnedBy? && ClockChoice(m0, h, d, slots[idx].pid, slots[idx].n)
                       && hand == Succ(idx, bitmap.Length)
                       && Sweeping(m0, h, d, M())
      ensures !stop ==> Sweeping(m0, h, 2 * bitmap.Length, M())
    {
      var scanned := 0;
      while scanned < 2 * bitmap.Length
        invariant scanned <= 2 * bitmap.Length && Sweeping(m0, h, scanned, M())
        invariant scanned < 2 * bitmap.Length ==> hand == Pos(h, scanned, bitmap.Length)
        invariant SlotsOf(m0, slots[..])
      {
        HandStep(h, scanned, bitmap.Length);
        stop, idx := Tick(slots, m0, h, scanned);
        if stop {
          return true, idx, scanned;
        }
        scanned := scanned + 1;
      }
      return false, 0, 0;
    }

    /** The sweep from the stored hand, which goes back to frame 0 if it is out of range. */
    method ScanFrames() returns (frame: int, pid: nat, n: nat, ghost d: nat)
      requires Frames(M())
      modifies this`tables, this`hand
      ensures frame == -1 <==> forall f: nat | f < bitmap.Length :: !Owned(old(M()), f)
      ensures frame == -1 ==> tables == old(tables)
      ensures bitmap.Length == 0 ==> hand == old(hand)
      ensures frame != -1 ==>
                var h := WrapHand(old(hand), bitmap.Length);
                && ClockChoice(old(M()), h, d, pid, n) && frame == Pos(h, d, bitmap.Length)
                && M() == ClearUse(old(M()), Passed(h, d, bitmap.Length))
                && hand == Succ(Pos(h, d, bitmap.Length), bitmap.Length)
    {
      if bitmap.Length == 0 {
        return -1, 0, 0, 0;
      }
      if hand >= bitmap.Length {
        hand := 0;
      }
      var slots := Owners();
      SweepStart(M(), hand);
      var stop, idx, steps := Sweep(slots, M(), hand);
      if stop {
        SweepFound(old(M()), WrapHand(old(hand), bitmap.Length), steps, slots[idx].pid, slots[idx].n);
        return idx, slots[idx].pid, slots[idx].n, steps;
      }
      SweepEnd(old(M()), WrapHand(old(hand), bitmap.Length), M());
      return -1, 0, 0, 0;
    }

    /** Picks the victim of one eviction. `d` is the number of frames the hand moves over before it. */
    method ChooseVictim() returns (frame: int, pid: nat, n: nat, ghost d: nat)
      requires Frames(M())
      modifies this`tables, this`hand
      ensures frame == -1 <==> forall f: nat | f < bitmap.Length :: !Owned(old(M()), f)
      ensures frame == -1 ==> tables == old(tables)
      ensures bitmap.Length == 0 ==> hand == old(hand)
      ensures frame != -1 ==>
                var h := WrapHand(old(hand), bitmap.Length);
                && ClockChoice(old(M()), h, d, pid, n) && frame == Pos(h, d, bitmap.Length)
                && M() == ClearUse(old(M()), Passed(h, d, bitmap.Length))
                && hand == Succ(Pos(h, d, bitmap.Length), bitmap.Length)
      ensures frame != -1 ==>
                && 0 <= frame < bitmap.Length && hand == (frame + 1) % bitmap.Length && old(M()).Owns(pid, n, frame)
                && var h := if old(hand) < bitmap.Length then old(hand) else 0;
                   && (forall q: nat, k: nat :: old(M()).Has(q, k) && old(tables)[q][k].present
                                                && (SomeIdle(old(M())) ==> !old(tables)[q][k].used) ==>
                         && 0 <= old(tables)[q][k].frame < bitmap.Length
                         && Ahead(h, frame, bitmap.Length) <= Ahead(h, old(tables)[q][k].frame, bitmap.Length))
                   && (SomeIdle(old(M())) ==> !old(tables)[pid][n].used)
                   && ((forall g: nat :: g < bitmap.Length ==> old(bitmap[..])[g])
                       && (forall q: nat, k: nat :: old(M()).Has(q, k) && old(tables)[q][k].present ==>
                             old(tables)[q][k].used)
                       ==> frame == h)
    {
      hide FramesExcept, ClockChoice, ClearUse, Passed, Owned;
      frame, pid, n, d := ScanFrames();
      if frame != -1 {
        ChoiceOwns(old(M()), WrapHand(old(hand), bitmap.Length), d, pid, n);
        VictimNearest(old(M()), WrapHand(old(hand), bitmap.Length), d, pid, n);
      }
    }

    // ---- paginas.c: one access ----

    method EvictVictim(pid: nat, n: nat)
      requires M().Has(pid, n) && tables[pid][n].present && 0 <= tables[pid][n].frame
      requires 0 <= tables[pid][n].frame * ps <= tables[pid][n].frame * ps + ps <= ram.Length
      requires (tables[pid][n].frame + 1) * ps == tables[pid][n].frame * ps + ps
      modifies this`tables, this`swap
      ensures M() == Evict(old(M()), pid, n)
    {
      var v := tables[pid][n];
      if v.modified {
        var ok, page := PhysRead(v.frame * ps, ps);
        SwapOut(pid, n, page);
      }
      tables := tables[pid := tables[pid][n := ABSENT]];
    }

    method LoadPage(pid: nat, n: nat, f: nat)
      requires M().Has(pid, n)
      modifies this`tables, ram
      ensures M() == Load(old(M()), pid, n, f)
    {
      var ok, page := SwapIn(pid, n);
      if !ok {
        page := Zeros(ps);
      }
      ok := PhysWrite(f * ps, page);
      tables := tables[pid := tables[pid][n := Page(f, true, false, true)]];
    }

    /** Frees one frame by eviction and hands it over, still marked as taken. */
    method MakeRoom() returns (f: int, ghost d: nat, ghost vp: nat, ghost vn: nat)
      requires Frames(M()) && Full(M())
      modifies this`tables, this`swap, this`hand
      ensures f == -1 <==> bitmap.Length == 0
      ensures f == -1 ==> M() == old(M()) && hand == old(hand)
      ensures f != -1 ==> MadeRoom(old(M()), old(hand), M(), hand, f, d, vp, vn)
    {
      var p, n;
      f, p, n, d := ChooseVictim();
      vp, vn := p, n;
      if f == -1 {
        NoFrames(old(M()));
        return;
      }
      VictimFits(old(M()), WrapHand(old(hand), bitmap.Length), d, p, n);
      EvictVictim(p, n);
    }

    /** The page-fault path. */
    method PageIn(pid: nat, n: nat) returns (ok: bool)
      requires Frames(M()) && M().Has(pid, n) && !tables[pid][n].present
      modifies this`tables, this`swap, this`hand, bitmap, ram
      ensures ok <==> 0 < bitmap.Length
      ensures ok ==> Access(old(M()), old(hand), M(), hand, pid, n)
      ensures !ok ==> M() == old(M()) && hand == old(hand)
    {
      var f := TakeFreeFrame();
      if f != -1 {
        LoadPage(pid, n, f);
        FreeAccess(old(M()), old(hand), pid, n, f);
        return true;
      }
      assert M() == old(M());
      ghost var d, vp, vn;
      f, d, vp, vn := MakeRoom();
      if f == -1 {
        return false;
      }
      ghost var m2 := M();
      RoomAccess(old(M()), old(hand), m2, hand, f, d, vp, vn, pid, n);
      LoadPage(pid, n, f);
      ok := true;
    }

    /** Gets page n of pid into RAM; false when there is no such page or no frame at all. */
    method ObtainEntry(pid: nat, n: nat) returns (ok: bool)
      requires Valid()
      modifies this`tables, this`swap, this`hand, bitmap, ram
      ensures Valid() && C() == Obtain(old(C()), pid, n)
      ensures ok <==> old(M()).Has(pid, n) && 0 < bitmap.Length
      ensures ok ==> Present(C(), pid, n)
    {
      hide FramesExcept, Access;
      ghost var c := C();
      ObtainServes(c, pid, n);
      if pid !in tables || n >= |tables[pid]| {
        NothingToObtain(c, pid, n);
        return false;
      }
      if tables[pid][n].present {
        HitAccess(c, pid, n);
        tables := tables[pid := tables[pid][n := tables[pid][n].(used := true)]];
      } else {
        ok := PageIn(pid, n);
        if !ok {
          NothingToObtain(c, pid, n);
          return false;
        }
      }
      ObtainIs(c, C(), pid, n);
      ok := true;
    }

    // ---- paginas_io.c ----

    /** Everything other threads do in one gap between critical sections: any page accesses whatever. */
    method OtherThreads(burst: seq<(nat, nat)>)
      requires Valid()
      modifies this`tables, this`swap, this`hand, bitmap, ram
      ensures Valid() && C() == Burst(old(C()), burst)
    {
      hide FramesExcept, Obtain;
      for i := 0 to |burst|
        invariant Valid() && C() == Burst(old(C()), burst[..i])
      {
        var ok := ObtainEntry(burst[i].0, burst[i].1);
        BurstStep(old(C()), burst, i);
      }
      assert burst[..|burst|] == burst;
    }

    /** One gap: consumes one burst, if there is one left. */
    method Gap(gaps: Bursts) returns (rest: Bursts)
      requires Valid()
      modifies this`tables, this`swap, this`hand, bitmap, ram
      ensures Valid() && C() == Burst(old(C()), BurstAt(gaps, 0)) && rest == Later(gaps, 1)
    {
      hide FramesExcept, Obtain;
      if gaps == [] {
        return [];
      }
      OtherThreads(gaps[0]);
      rest := gaps[1..];
    }

    /** The second critical section of a write: copy into the frame the page is in right now. */
    method WriteChunk(pid: nat, n: nat, off: nat, chunk: seq<Byte>)
      requires Valid() && Present(C(), pid, n) && off + |chunk| <= ps
      modifies this`tables, ram
      ensures Valid() && M() == Store(old(M()), pid, n, off, chunk)
    {
      hide FramesExcept, Store, Splice;
      ghost var m := M();
      StoreExact(m, pid, n, off, chunk);
      StoreFrames(m, pid, n, off, chunk);
      var ok := PhysWrite(tables[pid][n].frame * ps + off, chunk);
      tables := tables[pid := tables[pid][n := tables[pid][n].(used := true, modified := true)]];
      assert M() == Store(m, pid, n, off, chunk);
    }

    /** The second critical section of a read. */
    method ReadChunk(pid: nat, n: nat, off: nat, len: nat) returns (chunk: seq<Byte>)
      requires Valid() && Present(C(), pid, n) && off + len <= ps
      modifies this`tables
      ensures Valid() && M() == old(M()).SetEntry(pid, n, old(tables)[pid][n].(used := true))
      ensures off + len <= |old(M()).Content(pid, n)| && chunk == old(M()).Content(pid, n)[off..off + len]
    {
      hide FramesExcept, SameView, Mem.Flat, Mem.Content, Mem.FrameBytes, Mem.Stored, Row, Splice;
      ghost var m := M();
      ghost var m' := m.SetEntry(pid, n, m.tables[pid][n].(used := true));
      FrameChunk(m, pid, n, off, len);
      HitKeeps(m, pid, n);
      var addr := tables[pid][n].frame * ps + off;
      var ok;
      ok, chunk := PhysRead(addr, len);
      tables := tables[pid := tables[pid][n := tables[pid][n].(used := true)]];
      assert M() == m';
    }

    /** The front half of one attempt at a chunk: gap, obtain the page, gap, unlocked check, gap, locked check. */
    method Reach(pid: nat, n: nat, gaps: Bursts) returns (r: Checked, rest: Bursts)
      requires Valid()
      modifies this`tables, this`swap, this`hand, bitmap, ram
      ensures Valid()
      ensures r.Failed? <==> !old(M()).Has(pid, n) || bitmap.Length == 0
                             || !Present(AtCheck(old(C()), pid, n, gaps), pid, n)
      ensures !r.Failed? ==> rest == Later(gaps, 3) && (r.Found? <==> Present(AtLock(old(C()), pid, n, gaps), pid, n))
      ensures C() == if r.Failed? then AtCheck(old(C()), pid, n, gaps) else AtLock(old(C()), pid, n, gaps)
    {
      hide FramesExcept, SameSizes, Obtain, Burst;
      ghost var c := C();
      BurstKeeps(c, BurstAt(gaps, 0));
      SizesSame(c.m, Burst(c, BurstAt(gaps, 0)).m);
      AttemptKeeps(c, pid, n, gaps);
      SizesSame(c.m, AtCheck(c, pid, n, gaps).m);
      LaterBurst(gaps);
      rest := Gap(gaps);
      var got := ObtainEntry(pid, n);
      rest := Gap(rest);
      if !got || !tables[pid][n].present {
        return Failed, rest;
      }
      rest := Gap(rest);
      SizesSame(c.m, AtLock(c, pid, n, gaps).m);
      r := if tables[pid][n].present then Found else Missing;
    }

    /** One attempt at writing the chunk from byte `done` on. */
    method TryWrite(pid: nat, dir: nat, data: seq<Byte>, done: nat, gaps: Bursts) returns (r: Checked, rest: Bursts)
      requires Valid() && 0 < ps && done < |data|
      modifies this`tables, this`swap, this`hand, bitmap, ram
      ensures Valid() && (!r.Failed? ==> rest == Later(gaps, 3))
      ensures Attempted(Attempt(ps, old(C()), pid, dir, WriteOf(data), done, gaps), r, C(),
                        done, ChunkLen(dir + done, |data| - done, ps), [])
    {
      hide FramesExcept, AtCheck, AtLock, PageNo, PageOffset, Attempt, Store;
      var addr, n, off := dir + done, (dir + done) / ps, (dir + done) % ps;
      PageParts(addr, ps);
      var len := ChunkLen(addr, |data| - done, ps);
      AttemptCases(ps, C(), pid, dir, WriteOf(data), done, gaps, n, len);
      r, rest := Reach(pid, n, gaps);
      if r.Found? {
        WriteChunk(pid, n, off, data[done..done + len]);
      }
    }

    /** One attempt at reading the next chunk. */
    method TryRead(pid: nat, dir: nat, size: nat, done: nat, gaps: Bursts)
      returns (r: Checked, chunk: seq<Byte>, rest: Bursts)
      requires Valid() && 0 < ps && done < size
      modifies this`tables, this`swap, this`hand, bitmap, ram
      ensures Valid() && (!r.Failed? ==> rest == Later(gaps, 3))
      ensures |chunk| == if r.Found? then ChunkLen(dir + done, size - done, ps) else 0
      ensures Attempted(Attempt(ps, old(C()), pid, dir, ReadOf(size), done, gaps), r, C(),
                        done, ChunkLen(dir + done, size - done, ps), chunk)
    {
      hide FramesExcept, AtCheck, AtLock, PageNo, PageOffset, Attempt, Store;
      var addr, n, off := dir + done, (dir + done) / ps, (dir + done) % ps;
      PageParts(addr, ps);
      var len := ChunkLen(addr, size - done, ps);
      chunk := [];
      AttemptCases(ps, C(), pid, dir, ReadOf(size), done, gaps, n, len);
      r, rest := Reach(pid, n, gaps);
      if r.Found? {
        chunk := ReadChunk(pid, n, off, len);
      }
    }

    /** Writes `data` at logical address `dir`, chunk by chunk. `env` is what other threads do in the unlocked gaps
        of each attempt at a chunk; `done` counts the bytes written. */
    method Write(pid: nat, dir: nat, data: seq<Byte>, env: Bursts) returns (ok: bool, ghost done: nat)
      requires Valid() && InRange(dir, |data|, ps)
      modifies this`tables, this`swap, this`hand, bitmap, ram
      ensures Valid() && 0 < ps
      ensures var e := Play(ps, old(C()), pid, dir, WriteOf(data), 0, env);
              && C() == e.last && done == e.done
              && Transferred(bitmap.Length, Extent(old(M()), pid), dir, |data|, e.cut, ok, done)
    {
      hide FramesExcept, Transferred, Attempt, Play, Extent;
      FramesPs(M());
      PlayExact(ps, C(), pid, dir, WriteOf(data), 0, env);
      var bytes := 0;
      var gaps := env;
      while bytes < |data|
        invariant bytes <= |data| && Valid()
        invariant Play(ps, old(C()), pid, dir, WriteOf(data), 0, env) ==
                  Play(ps, C(), pid, dir, WriteOf(data), bytes, gaps)
        decreases |data| - bytes, |gaps|
      {
        var len := ChunkLen(dir + bytes, |data| - bytes, ps);
        PlayOn(ps, C(), pid, dir, WriteOf(data), bytes, gaps);
        ghost var a, old_gaps := Attempt(ps, C(), pid, dir, WriteOf(data), bytes, gaps), gaps;
        var r, rest := TryWrite(pid, dir, data, bytes, gaps);
        gaps := rest;
        assert a.Again? && a.chunk == [] ==>
          var e := Play(ps, a.c, pid, dir, WriteOf(data), a.done, Later(old_gaps, 3)); e.(got := [] + e.got) == e;
        if r.Failed? {
          TransferFailed(bitmap.Length, Extent(old(M()), pid), dir, |data|,
                         Play(ps, old(C()), pid, dir, WriteOf(data), 0, env).cut, bytes);
          return false, bytes;
        } else if r.Found? {
          bytes := bytes + len;
        }
      }
      PlayOn(ps, C(), pid, dir, WriteOf(data), bytes, gaps);
      return true, bytes;
    }

    /** Reads `len` bytes at logical address `dir`, chunk by chunk. */
    method Read(pid: nat, dir: nat, len: nat, env: Bursts) returns (ok: bool, data: seq<Byte>)
      requires Valid() && InRange(dir, len, ps)
      modifies this`tables, this`swap, this`hand, bitmap, ram
      ensures Valid() && 0 < ps
      ensures var e := Play(ps, old(C()), pid, dir, ReadOf(len), 0, env);
              && C() == e.last && data == e.got && |data| == e.done
              && Transferred(bitmap.Length, Extent(old(M()), pid), dir, len, e.cut, ok, |data|)
    {
      hide FramesExcept, Transferred, Attempt, Play, Extent;
      FramesPs(M());
      PlayExact(ps, C(), pid, dir, ReadOf(len), 0, env);
      data := [];
      ghost var e0 := Play(ps, C(), pid, dir, ReadOf(len), 0, env);
      assert [] + e0.got == e0.got;
      var gaps := env;
      while |data| < len
        invariant |data| <= len && Valid()
        invariant var e := Play(ps, C(), pid, dir, ReadOf(len), |data|, gaps);
                  Play(ps, old(C()), pid, dir, ReadOf(len), 0, env) == e.(got := data + e.got)
        decreases len - |data|, |gaps|
      {
        PlayOn(ps, C(), pid, dir, ReadOf(len), |data|, gaps);
        ghost var a, before := Attempt(ps, C(), pid, dir, ReadOf(len), |data|, gaps), data;
        var r, chunk, rest := TryRead(pid, dir, len, |data|, gaps);
        gaps := rest;
        if r.Failed? {
          assert data + [] == data;
          TransferFailed(bitmap.Length, Extent(old(M()), pid), dir, len, e0.cut, |data|);
          return false, data;
        } else if r.Found? {
          data := data + chunk;
        }
        ghost var e := Play(ps, a.c, pid, dir, ReadOf(len), a.done, rest);
        assert data == before + chunk;
        assert before + (chunk + e.got) == data + e.got;
      }
      PlayOn(ps, C(), pid, dir, ReadOf(len), |data|, gaps);
      assert data + [] == data;
      ok := true;
    }

    // ---- paginas.c: page tables; adapter: end of a process ----

    method Create(pid: nat, size: nat) returns (ok: bool)
      requires Valid()
      modifies this`tables
      ensures Valid() && (ok <==> pid !in old(tables))
      ensures tables == if ok then old(tables)[pid := AbsentPages(Units(size, ps))] else old(tables)
    {
      hide FramesExcept;
      FramesPs(M());
      if pid in tables {
        return false;
      }
      var count := size / ps;
      if size % ps != 0 {
        count := count + 1;
      }
      var table := [];
      for i := 0 to count
        invariant table == AbsentPages(i)
      {
        table := table + [ABSENT];
      }
      NewTableFrames(M(), pid, count);
      tables := tables[pid := table];
      assert M() == SetTable(old(M()), pid, table);
      ok := true;
    }

    /** Drops the table of pid and frees the frames of its present pages; the swap file stays. */
    method DestroyTable(pid: nat)
      requires Valid()
      modifies this`tables, bitmap
      ensures Valid() && tables == old(tables) - {pid}
    {
      hide FramesExcept, OwnedFrom;
      if pid in tables {
        var table := tables[pid];
        CutFrames(M(), M().(tables := tables - {pid}), pid, 0);
        tables := tables - {pid};
        ghost var m0 := old(M());
        var i := 0;
        while i < |table|
          invariant i <= |table| && tables == old(tables) - {pid}
          invariant FramesExcept(M(), OwnedFrom(m0, pid, i))
        {
          NextOwned(m0, pid, i);
          if table[i].present && table[i].frame != -1 {
            ReleaseFrames(M(), OwnedFrom(m0, pid, i), table[i].frame);
            ghost var m1 := M();
            FreeFrame(table[i].frame);
            assert M() == m1.(bitmap := m1.bitmap[table[i].frame := false]);
          }
          i := i + 1;
        }
        NoneOwned(m0, pid);
      } else {
        assert tables - {pid} == tables;
      }
    }

    method SwapDelete(pid: nat)
      requires Valid() && pid !in tables
      modifies this`swap
      ensures Valid() && swap == old(swap) - {pid}
    {
      ghost var m := M();
      swap := swap - {pid};
      StaleDropped(m, M(), pid);
    }

    method Resize(pid: nat, size: nat) returns (ok: bool)
      requires Valid()
      modifies this`tables, bitmap
      ensures Valid() && (ok <==> pid in old(tables))
      ensures !ok ==> tables == old(tables) && bitmap[..] == old(bitmap[..])
      ensures ok ==> tables == old(tables)[pid := Resized(old(tables)[pid], Units(size, ps))]
    {
      hide FramesExcept, Resized;
      FramesPs(M());
      if pid !in tables {
        return false;
      }
      var current, count := |tables[pid]|, size / ps;
      if size % ps != 0 {
        count := count + 1;
      }
      ResizedStep(tables[pid], current);
      if count > current {
        AppendPages(pid, count);
      } else if count < current {
        DropPages(pid, count);
      } else {
        assert tables == tables[pid := tables[pid]];
      }
      ok := true;
    }

    /** The growing loop of a resize. */
    method AppendPages(pid: nat, count: nat)
      requires Valid() && pid in tables && |tables[pid]| <= count
      modifies this`tables
      ensures Valid() && tables == old(tables)[pid := Resized(old(tables)[pid], count)]
    {
      hide FramesExcept, Resized;
      var i := |tables[pid]|;
      ResizedStep(tables[pid], i);
      assert tables == tables[pid := tables[pid]];
      while i < count
        invariant |old(tables)[pid]| <= i <= count
        invariant Valid() && tables == old(tables)[pid := Resized(old(tables)[pid], i)]
      {
        ResizedStep(old(tables)[pid], i);
        AppendFrames(M(), pid);
        ghost var m := M();
        tables := tables[pid := tables[pid] + [ABSENT]];
        assert M() == SetTable(m, pid, m.tables[pid] + [ABSENT]);
        i := i + 1;
      }
    }

    /** The last page of pid leaves, giving its frame back. */
    method DropLast(pid: nat)
      requires Valid() && pid in tables && tables[pid] != []
      modifies this`tables, bitmap
      ensures Valid() && tables == old(tables)[pid := old(tables)[pid][..|old(tables)[pid]| - 1]]
    {
      hide FramesExcept;
      ghost var m := M();
      var i := |tables[pid]| - 1;
      ghost var cut := SetTable(m, pid, m.tables[pid][..i]);
      CutFrames(m, cut, pid, i);
      LastOwned(m, pid);
      var p := tables[pid][i];
      tables := tables[pid := tables[pid][..i]];
      assert M() == cut;
      if p.present && p.frame != -1 {
        ReleaseFrames(cut, {p.frame}, p.frame);
        FreeFrame(p.frame);
        assert M() == cut.(bitmap := cut.bitmap[p.frame := false]);
        assert {p.frame} - {p.frame} == {};
      }
    }

    /** The shrinking loop of a resize: pages leave from the end. */
    method DropPages(pid: nat, count: nat)
      requires Valid() && pid in tables && count <= |tables[pid]|
      modifies this`tables, bitmap
      ensures Valid() && tables == old(tables)[pid := Resized(old(tables)[pid], count)]
    {
      hide FramesExcept, Resized;
      var i := |tables[pid]|;
      ResizedStep(tables[pid], i);
      assert tables == tables[pid := tables[pid]];
      while i > count
        invariant count <= i <= |old(tables)[pid]|
        invariant Valid() && tables == old(tables)[pid := Resized(old(tables)[pid], i)]
      {
        ResizedStep(old(tables)[pid], i);
        DropLast(pid);
        i := i - 1;
      }
    }

    // ---- client requests ----

    /** A process ends: its table is dropped, and then its swap file, as the adapter does. */
    method End(pid: nat)
      requires Valid()
      modifies this`tables, this`swap, bitmap
      ensures Valid() && tables == old(tables) - {pid} && swap == old(swap) - {pid}
    {
      DestroyTable(pid);
      SwapDelete(pid);
    }

    /** A request that reads or writes. */
    method Transfer(op: Op) returns (r: Reply)
      requires Valid() && IsTransfer(op) && Fits(op, ps)
      modifies this`tables, this`swap, this`hand, bitmap, ram
      ensures Valid() && Transition(old(C()), op, r, C())
    {
      hide FramesExcept, Play, Extent;
      if op.Write? {
        var ok, done := Write(op.pid, op.dir, op.data, op.env);
        r := Done(ok);
      } else {
        var ok, bytes := Read(op.pid, op.dir, op.len, op.env);
        r := Data(ok, bytes);
      }
    }

    /** One client request answers and does exactly what the reference says. */
    method Execute(op: Op) returns (r: Reply)
      requires Valid() && Fits(op, ps)
      modifies this`tables, this`swap, this`hand, bitmap, ram
      ensures Valid() && Transition(old(C()), op, r, C())
    {
      hide FramesExcept, Units, Play, Resized;
      FramesPs(M());
      var ok;
      match op {
        case Create(pid, size) =>
          ok := Create(pid, size);
          r := Done(ok);
        case Destroy(pid) =>
          End(pid);
          r := Done(true);
        case Resize(pid, size) =>
          ok := Resize(pid, size);
          r := Done(ok);
        case _ =>
          r := Transfer(op);
      }
    }

    /** Any run of client requests, with any interference. `configs` are the states between the requests, `views`
        what processes see in them. Every request that loses no data is a step of the flat memories; and none
        loses data when the store only grows, or when all pages fit in RAM. */
    method Run(ops: seq<Op>) returns (replies: seq<Reply>, ghost configs: seq<Config>, ghost views: seq<Space>)
      requires Valid() && swap.Keys <= tables.Keys && forall op :: op in ops ==> Fits(op, ps)
      modifies this`tables, this`swap, this`hand, bitmap, ram
      ensures Valid() && swap.Keys <= tables.Keys && 0 < ps
      ensures History(configs, ops, replies) && configs[0] == old(C()) && configs[|ops|] == C()
      ensures views == Views(configs, ops)
      ensures forall i: nat | i < |ops| :: !Loses(configs[i], ops[i]) ==>
                Step(views[i], ops[i], replies[i], CutShort(configs[i], ops[i]), views[i + 1])
      ensures || (growOnly && Clean(old(M())))
              || FitThroughout(PageCounts(old(tables)), ps, bitmap.Length, ops)
              ==> LosesNothing(configs, ops) && FlatMemory.Run(views, ops, replies, CutsOf(configs, ops))
    {
      hide FramesExcept, Clean, Step, Fits, Loses, CutShort, Transition, FitThroughout, ViewAt;
      FramesPs(M());
      replies, configs := [], [C()];
      for i := 0 to |ops|
        invariant Valid() && |configs| == i + 1 && configs[0] == old(C()) && configs[i] == C()
        invariant |replies| == i
        invariant forall k: nat | k < i :: Transition(configs[k], ops[k], replies[k], configs[k + 1])
      {
        var r := Execute(ops[i]);
        replies, configs := replies + [r], configs + [C()];
      }
      views := Views(configs, ops);
      RunViews(configs, ops, replies);
    }
  }

  /** What a run means, in the form its method reports it. */
  lemma RunViews(configs: seq<Config>, ops: seq<Op>, replies: seq<Reply>)
    requires History(configs, ops, replies) && Startable(configs[0].m) && 0 < configs[0].m.ps
    ensures var m, views := configs[0].m, Views(configs, ops);
            && Startable(configs[|ops|].m)
            && (forall i: nat | i < |ops| :: !Loses(configs[i], ops[i]) ==>
                  Step(views[i], ops[i], replies[i], CutShort(configs[i], ops[i]), views[i + 1]))
            && ((m.growOnly && Clean(m)) || FitThroughout(PageCounts(m.tables), m.ps, |m.bitmap|, ops) ==>
                  LosesNothing(configs, ops) && FlatMemory.Run(views, ops, replies, CutsOf(configs, ops)))
  {
    hide FramesExcept, Clean, Step, Loses, CutShort, Transition, FitThroughout, ViewAt;
    HistorySound(configs, ops, replies, |ops|);
    forall i: nat | i < |ops| && !Loses(configs[i], ops[i])
      ensures Step(Views(configs, ops)[i], ops[i], replies[i], CutShort(configs[i], ops[i]), Views(configs, ops)[i + 1])
    {
      HistoryStep(configs, ops, replies, i);
    }
    var m := configs[0].m;
    if (m.growOnly && Clean(m)) || FitThroughout(PageCounts(m.tables), m.ps, |m.bitmap|, ops) {
      HistoryLossless(configs, ops, replies);
      HistoryRun(configs, ops, replies);
    }
  }

  /** Addresses and page numbers of a transfer stay below 2^32 and 2^31. */
  predicate InRange(dir: nat, size: nat, ps: nat) {
    dir + size < 0x1_0000_0000 && (0 < ps ==> PageNo(dir + size, ps) < 0x8000_0000)
  }

  predicate Fits(op: Op, ps: nat) {
    match op
    case Write(_, dir, data, _) => InRange(dir, |data|, ps)
    case Read(_, dir, len, _) => InRange(dir, len, ps)
    case _ => true
  }

  /** A transfer that stopped before its end has failed. */
  lemma TransferFailed(frames: nat, extent: int, dir: nat, size: nat, cut: bool, done: nat)
    requires Transferred(frames, extent, dir, size, cut, done == size, done) && done < size
    ensures Transferred(frames, extent, dir, size, cut, false, done)
  {
  }

  lemma HitAccess(c: Config, pid: nat, n: nat)
    requires Present(c, pid, n) && Frames(c.m)
    ensures Access(c.m, c.hand, c.m.SetEntry(pid, n, c.m.tables[pid][n].(used := true)), c.hand, pid, n)
    ensures 0 < |c.m.bitmap|
  {
    PresentHasFrame(c.m, pid, n);
  }

  /** The chunk of the frame is the chunk of the page. */
  lemma FrameChunk(m: Mem, pid: nat, n: nat, off: nat, len: nat)
    requires Frames(m) && m.Has(pid, n) && m.tables[pid][n].present && off + len <= m.ps
    ensures var f := m.tables[pid][n].frame;
            && 0 <= f * m.ps && f * m.ps + off + len <= |m.ram| && |m.Content(pid, n)| == m.ps
            && m.ram[f * m.ps + off..f * m.ps + off + len] == m.Content(pid, n)[off..off + len]
  {
    ReadFlat(m, pid, n, off, len);
    PageInFlat(m, pid, n, off, len);
  }

  lemma NextOwned(m: Mem, pid: nat, i: nat)
    requires Frames(m) && pid in m.tables && i < |m.tables[pid]|
    ensures m.tables[pid][i].present ==>
              && m.tables[pid][i].frame in OwnedFrom(m, pid, i) && m.tables[pid][i].frame != -1
              && OwnedFrom(m, pid, i + 1) == OwnedFrom(m, pid, i) - {m.tables[pid][i].frame}
    ensures !m.tables[pid][i].present ==> OwnedFrom(m, pid, i + 1) == OwnedFrom(m, pid, i)
  {
    if m.tables[pid][i].present {
      assert m.Owns(pid, i, m.tables[pid][i].frame);
      CutReserved(m, pid, i + 1);
    }
  }

  lemma NoneOwned(m: Mem, pid: nat)
    requires pid in m.tables
    ensures OwnedFrom(m, pid, |m.tables[pid]|) == {}
  {
  }

  lemma LastOwned(m: Mem, pid: nat)
    requires Frames(m) && pid in m.tables && m.tables[pid] != []
    ensures var p := m.tables[pid][|m.tables[pid]| - 1];
            && OwnedFrom(m, pid, |m.tables[pid]| - 1) == (if p.present then {p.frame} else {})
            && (p.present ==> p.frame != -1)
  {
    assert m.Has(pid, |m.tables[pid]| - 1);
  }

  lemma StaleDropped(m: Mem, m': Mem, pid: nat)
    requires Frames(m) && pid !in m.tables && m' == m.(swap := m.swap - {pid})
    ensures Frames(m')
  {
    assert forall q: nat, k: nat :: m.Has(q, k) == m'.Has(q, k);
    assert forall q: nat, k: nat, g: int :: m.Owns(q, k, g) == m'.Owns(q, k, g);
    forall q: nat, k: nat | m'.Has(q, k)
      ensures EntryShape(m'.tables[q][k])
    {
      assert m.Has(q, k);
    }
    forall g: int | 0 <= g < |m'.bitmap| && m'.bitmap[g]
      ensures exists q: nat, k: nat :: m'.Owns(q, k, g)
    {
      var q: nat, k: nat :| m.Owns(q, k, g);
      assert m'.Owns(q, k, g);
    }
  }

  /** What the two checks of an attempt find. */
  datatype Checked = Failed | Missing | Found

  /** The attempt of the reference, as a method reports it. */
  ghost predicate Attempted(a: Round, r: Checked, c: Config, done: nat, len: nat, chunk: seq<Byte>) {
    match r
    case Failed => a.Stop? && a.end.last == c && a.end.done == done && a.end.got == []
    case Missing => a == Again(c, done, [])
    case Found => a == Again(c, done + len, chunk)
  }

  lemma LaterBurst(gaps: Bursts)
    ensures BurstAt(Later(gaps, 1), 0) == BurstAt(gaps, 1) && BurstAt(Later(Later(gaps, 1), 1), 0) == BurstAt(gaps, 2)
    ensures Later(Later(Later(gaps, 1), 1), 1) == Later(gaps, 3)
  {
  }

  ghost predicate MadeRoom(m: Mem, hand: nat, m': Mem, hand': nat, f: int, d: nat, vp: nat, vn: nat) {
    var h := WrapHand(hand, |m.bitmap|);
    && ClockChoice(m, h, d, vp, vn)
    && f == Pos(h, d, |m.bitmap|)
    && m' == Evict(ClearUse(m, Passed(h, d, |m.bitmap|)), vp, vn)
    && hand' == Succ(f, |m.bitmap|)
  }

  lemma RoomAccess(m: Mem, hand: nat, m2: Mem, hand': nat, f: int, d: nat, vp: nat, vn: nat, pid: nat, n: nat)
    requires m.Has(pid, n) && !m.tables[pid][n].present && Full(m)
    requires MadeRoom(m, hand, m2, hand', f, d, vp, vn)
    ensures 0 <= f && m2.Has(pid, n)
    ensures Access(m, hand, Load(m2, pid, n, f), hand', pid, n)
  {
    assert EvictingAccess(m, hand, Load(m2, pid, n, f), hand', pid, n, d, vp, vn);
  }

  lemma FreeAccess(m: Mem, hand: nat, pid: nat, n: nat, f: nat)
    requires m.Has(pid, n) && !m.tables[pid][n].present && LowestFree(m, f)
    ensures Access(m, hand, FaultFree(m, pid, n, f), hand, pid, n)
  {
  }

  lemma NoFrames(m: Mem)
    requires Frames(m) && Full(m) && forall f: nat | f < |m.bitmap| :: !Owned(m, f)
    ensures |m.bitmap| == 0
  {
    assert 0 < |m.bitmap| ==> m.bitmap[0] && Owned(m, 0);
  }

  lemma VictimFits(m: Mem, h: nat, d: nat, vp: nat, vn: nat)
    requires Frames(m) && ClockChoice(m, h, d, vp, vn)
    ensures var c := ClearUse(m, Passed(h, d, |m.bitmap|));
            && c.Has(vp, vn) && c.tables[vp][vn].present && 0 <= c.tables[vp][vn].frame
            && var f := c.tables[vp][vn].frame;
               0 <= f * m.ps <= f * m.ps + m.ps <= |m.ram| && (f + 1) * m.ps == f * m.ps + m.ps
  {
    assert m.Owns(vp, vn, m.tables[vp][vn].frame);
    FrameFits(m, m.tables[vp][vn].frame);
  }

  lemma SweepFound(m: Mem, h: nat, d: nat, pid: nat, n: nat)
    requires ClockChoice(m, h, d, pid, n)
    ensures Owned(m, Pos(h, d, |m.bitmap|))
  {
  }

  ghost predicate SlotsOf(m: Mem, slots: seq<Slot>) {
    && |slots| == |m.bitmap|
    && forall f: nat | f < |slots| ::
         if slots[f].Nobody? then !Owned(m, f) else m.Owns(slots[f].pid, slots[f].n, f)
  }

  /** The sweep over m0 from h has moved over s frames without finding a victim, and reached m. */
  ghost predicate Sweeping(m0: Mem, h: nat, s: nat, m: Mem) {
    var N := |m0.bitmap|;
    && Frames(m0)
    && h < N && s <= 2 * N
    && m == ClearUse(m0, Passed(h, s, N))
    && (forall t: nat | t < s && t < N :: !Idle(m0, Pos(h, t, N)))
    && (forall t: nat | t < s - N :: !Owned(m0, Pos(h, t, N)))
  }

  lemma SweepStart(m0: Mem, h: nat)
    requires Frames(m0) && h < |m0.bitmap|
    ensures Sweeping(m0, h, 0, m0)
  {
    ClearUseNone(m0);
    assert Passed(h, 0, |m0.bitmap|) == {};
  }

  lemma SweepSkip(m0: Mem, h: nat, s: nat, m: Mem)
    requires Sweeping(m0, h, s, m) && s < 2 * |m0.bitmap| && !Owned(m0, Pos(h, s, |m0.bitmap|))
    ensures Sweeping(m0, h, s + 1, m)
  {
    PassedStep(h, s, |m0.bitmap|);
    ClearUseSkip(m0, Passed(h, s, |m0.bitmap|), Pos(h, s, |m0.bitmap|));
  }

  lemma SweepOwner(m0: Mem, h: nat, s: nat, m: Mem, pid: nat, n: nat)
    requires Sweeping(m0, h, s, m) && s < 2 * |m0.bitmap| && m0.Owns(pid, n, Pos(h, s, |m0.bitmap|))
    ensures m.Owns(pid, n, Pos(h, s, |m0.bitmap|))
  {
    ClearUseKeeps(m0, Passed(h, s, |m0.bitmap|));
  }

  /** An owner whose bit is clear in the swept state: idle from the start, or cleared one turn ago. */
  lemma SweepStop(m0: Mem, h: nat, s: nat, m: Mem, pid: nat, n: nat)
    requires Sweeping(m0, h, s, m) && s < 2 * |m0.bitmap| && m0.Owns(pid, n, Pos(h, s, |m0.bitmap|))
    requires m.Has(pid, n) && !m.tables[pid][n].used
    ensures ClockChoice(m0, h, s, pid, n)
  {
  }

  lemma SweepMove(m0: Mem, h: nat, s: nat, m: Mem, pid: nat, n: nat)
    requires Sweeping(m0, h, s, m) && s < 2 * |m0.bitmap| && m0.Owns(pid, n, Pos(h, s, |m0.bitmap|))
    requires m.Has(pid, n) && m.tables[pid][n].used
    ensures Sweeping(m0, h, s + 1, m.SetEntry(pid, n, m.tables[pid][n].(used := false)))
  {
    PassedStep(h, s, |m0.bitmap|);
    ClearUseStep(m0, Passed(h, s, |m0.bitmap|), pid, n, Pos(h, s, |m0.bitmap|));
    assert Pos(h, s, |m0.bitmap|) !in Passed(h, s, |m0.bitmap|);
  }

  lemma SweepEnd(m0: Mem, h: nat, m: Mem)
    requires Sweeping(m0, h, 2 * |m0.bitmap|, m)
    ensures forall f: nat | f < |m0.bitmap| :: !Owned(m0, f)
    ensures m == m0
  {
    forall f: nat | f < |m0.bitmap|
      ensures !Owned(m0, f)
    {
      PosOnto(h, f, |m0.bitmap|);
    }
    NobodyOwns(m0, Passed(h, 2 * |m0.bitmap|, |m0.bitmap|));
  }

  lemma DivFloor(a: nat, b: nat)
    requires 0 < b
    ensures 0 <= (a / b) * b <= a
  {
  }

  lemma PassedStep(h: nat, s: nat, n: nat)
    requires h < n && s < 2 * n
    ensures Passed(h, s + 1, n) == Passed(h, s, n) + {Pos(h, s, n)}
  {
  }

  lemma NobodyOwns(m: Mem, S: set<int>)
    requires Frames(m) && forall f: nat | f < |m.bitmap| :: !Owned(m, f)
    ensures ClearUse(m, S) == m
  {
    forall q | q in m.tables
      ensures ClearUse(m, S).tables[q] == m.tables[q]
    {
      forall k: nat | k < |m.tables[q]|
        ensures ClearUse(m, S).tables[q][k] == m.tables[q][k]
      {
        if m.tables[q][k].present {
          assert m.Owns(q, k, m.tables[q][k].frame);
          assert Owned(m, m.tables[q][k].frame);
        }
      }
    }
  }
}
