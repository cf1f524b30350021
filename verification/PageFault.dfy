// One page access: hit, fault into a free frame, or fault with eviction.
module PageFault {
  import opened Bytes
  import opened Paging
  import opened ClockReplacement

  ghost predicate LowestFree(m: Mem, f: nat) {
    && f < |m.bitmap| && !m.bitmap[f]
    && forall g: nat | g < f :: m.bitmap[g]
  }

  ghost predicate Full(m: Mem) {
    forall f: nat | f < |m.bitmap| :: m.bitmap[f]
  }

  /** The sweep restarts at frame 0 when the stored hand is out of range. */
  function WrapHand(hand: nat, n: nat): nat {
    if hand >= n then 0 else hand
  }

  function Succ(f: nat, n: nat): nat {
    if f + 1 == n then 0 else f + 1
  }

  function FaultFree(m: Mem, pid: nat, n: nat, f: nat): Mem
    requires m.Has(pid, n) && f < |m.bitmap|
  {
    Load(m.(bitmap := m.bitmap[f := true]), pid, n, f)
  }

  ghost function FaultEvict(m: Mem, pid: nat, n: nat, h: nat, d: nat, vp: nat, vn: nat): Mem
    requires m.Has(pid, n) && m.Has(vp, vn) && h < |m.bitmap| && d < 2 * |m.bitmap|
  {
    Load(Evict(ClearUse(m, Passed(h, d, |m.bitmap|)), vp, vn), pid, n, Pos(h, d, |m.bitmap|))
  }

  /** A successful access to page n of pid takes (m, hand) to (m', hand'). */
  ghost predicate Access(m: Mem, hand: nat, m': Mem, hand': nat, pid: nat, n: nat) {
    && m.Has(pid, n)
    && if m.tables[pid][n].present then
         m' == m.SetEntry(pid, n, m.tables[pid][n].(used := true)) && hand' == hand
       else if !Full(m) then
         hand' == hand && exists f: nat :: LowestFree(m, f) && m' == FaultFree(m, pid, n, f)
       else
         exists d: nat, vp: nat, vn: nat :: EvictingAccess(m, hand, m', hand', pid, n, d, vp, vn)
  }

  ghost predicate EvictingAccess(m: Mem, hand: nat, m': Mem, hand': nat, pid: nat, n: nat, d: nat, vp: nat, vn: nat) {
    var h := WrapHand(hand, |m.bitmap|);
    && m.Has(pid, n)
    && ClockChoice(m, h, d, vp, vn)
    && hand' == Succ(Pos(h, d, |m.bitmap|), |m.bitmap|)
    && m' == FaultEvict(m, pid, n, h, d, vp, vn)
  }

  /** The access has to evict, and doing so changes what some process sees. */
  ghost predicate LosesData(m: Mem, hand: nat, pid: nat, n: nat) {
    && m.Has(pid, n) && !m.tables[pid][n].present && Full(m)
    && exists d: nat, vp: nat, vn: nat ::
         ClockChoice(m, WrapHand(hand, |m.bitmap|), d, vp, vn) && !EvictionKeeps(m, vp, vn)
  }

  lemma SameViewTrans(a: Mem, b: Mem, c: Mem)
    requires SameView(a, b)
    ensures SameView(b, c) <==> SameView(a, c)
  {
    assert forall pid: nat, n: nat :: a.Has(pid, n) <==> b.Has(pid, n);
    if SameView(a, c) {
      assert forall pid: nat, n: nat :: a.Has(pid, n) <==> c.Has(pid, n);
    }
    if SameView(b, c) {
      assert forall pid: nat, n: nat :: b.Has(pid, n) <==> c.Has(pid, n);
    }
  }

  lemma HitKeeps(m: Mem, pid: nat, n: nat)
    requires Frames(m) && m.Has(pid, n) && m.tables[pid][n].present
    ensures Frames(m.SetEntry(pid, n, m.tables[pid][n].(used := true)))
    ensures SameView(m, m.SetEntry(pid, n, m.tables[pid][n].(used := true)))
    ensures Clean(m) <==> Clean(m.SetEntry(pid, n, m.tables[pid][n].(used := true)))
  {
    var m' := m.SetEntry(pid, n, m.tables[pid][n].(used := true));
    assert forall q: nat, k: nat :: m.Has(q, k) == m'.Has(q, k);
    forall q: nat, k: nat | m.Has(q, k)
      ensures EntryShape(m'.tables[q][k])
      ensures m.Content(q, k) == m'.Content(q, k) && (CleanAt(m, q, k) <==> CleanAt(m', q, k))
    {
      assert EntryShape(m.tables[q][k]);
    }
    SameOwners(m, m');
  }

  lemma FaultFreeKeeps(m: Mem, pid: nat, n: nat, f: nat)
    requires Frames(m) && m.Has(pid, n) && !m.tables[pid][n].present && LowestFree(m, f)
    ensures Frames(FaultFree(m, pid, n, f)) && SameView(m, FaultFree(m, pid, n, f))
    ensures Clean(m) ==> Clean(FaultFree(m, pid, n, f))
  {
    var m1 := m.(bitmap := m.bitmap[f := true]);
    ReserveFrames(m, f);
    LoadFrames(m1, pid, n, f);
    LoadView(m1, pid, n, f);
    SameViewTrans(m, m1, FaultFree(m, pid, n, f));
  }

  /** Use bits do not matter for what an eviction loses. */
  lemma KeepsIgnoresUse(m: Mem, S: set<int>, pid: nat, n: nat)
    requires m.Has(pid, n)
    ensures EvictionKeeps(m, pid, n) <==> EvictionKeeps(ClearUse(m, S), pid, n)
    ensures m.growOnly ==> EvictionKeepsCopies(ClearUse(m, S), pid, n)
  {
    var m' := ClearUse(m, S);
    forall k: nat | k < |m.tables[pid]|
      ensures m.Stored(pid, k) == m'.Stored(pid, k) && m.tables[pid][k].present == m'.tables[pid][k].present
    {
    }
    assert m.FrameBytes(m.tables[pid][n].frame) == m'.FrameBytes(m'.tables[pid][n].frame);
  }

  lemma FaultEvictFrames(m: Mem, pid: nat, n: nat, h: nat, d: nat, vp: nat, vn: nat)
    requires Frames(m) && m.Has(pid, n) && !m.tables[pid][n].present && ClockChoice(m, h, d, vp, vn)
    ensures Frames(FaultEvict(m, pid, n, h, d, vp, vn))
  {
    var f := Pos(h, d, |m.bitmap|);
    var m1 := ClearUse(m, Passed(h, d, |m.bitmap|));
    ClearUseKeeps(m, Passed(h, d, |m.bitmap|));
    EvictFrames(m1, vp, vn, f);
    LoadFrames(Evict(m1, vp, vn), pid, n, f);
  }

  lemma SameViewChain(a: Mem, b: Mem, c: Mem, d: Mem)
    requires SameView(a, b) && SameView(c, d)
    ensures SameView(b, c) <==> SameView(a, d)
  {
    SameViewSym(a, b);
    SameViewTrans(b, a, d);
    SameViewSym(c, d);
    if SameView(b, c) {
      SameViewTrans(b, c, d);
    }
    if SameView(b, d) {
      SameViewSym(b, d);
      SameViewTrans(d, c, b);
      SameViewSym(c, b);
    }
  }

  /** Evicting from the swept state: which data survives, in terms of the state before the sweep. */
  lemma SweptEviction(m: Mem, S: set<int>, vp: nat, vn: nat, f: int)
    requires Frames(m) && m.Owns(vp, vn, f)
    ensures FramesExcept(Evict(ClearUse(m, S), vp, vn), {f}) && SameView(m, ClearUse(m, S))
    ensures SameView(ClearUse(m, S), Evict(ClearUse(m, S), vp, vn)) <==> EvictionKeeps(m, vp, vn)
    ensures Clean(m) && m.growOnly ==> EvictionKeeps(m, vp, vn) && Clean(Evict(ClearUse(m, S), vp, vn))
  {
    ClearUseKeeps(m, S);
    EvictFrames(ClearUse(m, S), vp, vn, f);
    EvictionExact(ClearUse(m, S), vp, vn);
    KeepsIgnoresUse(m, S, vp, vn);
    if Clean(m) {
      EvictionCleanExact(ClearUse(m, S), vp, vn);
    }
  }

  /** A fault with eviction is invisible exactly when evicting its victim is; a store that only grows keeps the copies
      of all clean pages. */
  lemma FaultEvictExact(m: Mem, pid: nat, n: nat, h: nat, d: nat, vp: nat, vn: nat)
    requires Frames(m) && m.Has(pid, n) && !m.tables[pid][n].present && ClockChoice(m, h, d, vp, vn)
    ensures SameView(m, FaultEvict(m, pid, n, h, d, vp, vn)) <==> EvictionKeeps(m, vp, vn)
    ensures Clean(m) && m.growOnly ==> EvictionKeeps(m, vp, vn) && Clean(FaultEvict(m, pid, n, h, d, vp, vn))
  {
    hide Frames, Clean, SameView, EvictionKeeps, ClockChoice;
    ChoiceOwns(m, h, d, vp, vn);
    var S, f := Passed(h, d, |m.bitmap|), Pos(h, d, |m.bitmap|);
    var m1 := ClearUse(m, S);
    var m2 := Evict(m1, vp, vn);
    SweptEviction(m, S, vp, vn, f);
    StillAbsent(m, S, vp, vn, pid, n);
    LoadView(m2, pid, n, f);
    SameViewChain(m, m1, m2, Load(m2, pid, n, f));
  }

  lemma ChoiceOwns(m: Mem, h: nat, d: nat, vp: nat, vn: nat)
    requires ClockChoice(m, h, d, vp, vn)
    ensures h < |m.bitmap| && d < 2 * |m.bitmap| && m.Owns(vp, vn, Pos(h, d, |m.bitmap|))
  {
  }

  lemma StillAbsent(m: Mem, S: set<int>, vp: nat, vn: nat, pid: nat, n: nat)
    requires m.Has(vp, vn) && m.Has(pid, n) && !m.tables[pid][n].present
    ensures Evict(ClearUse(m, S), vp, vn).Has(pid, n)
    ensures !Evict(ClearUse(m, S), vp, vn).tables[pid][n].present
  {
  }

  lemma SameViewSym(a: Mem, b: Mem)
    requires SameView(a, b)
    ensures SameView(b, a)
  {
    assert forall pid: nat, n: nat :: a.Has(pid, n) <==> b.Has(pid, n);
  }

  /** The sweep has one outcome. */
  lemma ClockDeterministic(m: Mem, h: nat, d: nat, vp: nat, vn: nat, d': nat, vp': nat, vn': nat)
    requires Frames(m) && ClockChoice(m, h, d, vp, vn) && ClockChoice(m, h, d', vp', vn')
    ensures d == d' && vp == vp' && vn == vn'
  {
    var N := |m.bitmap|;
    assert Owned(m, Pos(h, d, N)) && Owned(m, Pos(h, d', N));
    if d < N { assert Idle(m, Pos(h, d, N)); }
    if d' < N { assert Idle(m, Pos(h, d', N)); }
    if N <= d {
      assert Pos(h, d, N) == Pos(h, d - N, N);
    }
    if N <= d' {
      assert Pos(h, d', N) == Pos(h, d' - N, N);
    }
  }

  /** Nothing changed size, except that stored files may grow up to the pages of their process, or be cut. */
  ghost predicate SameSizes(m: Mem, m': Mem) {
    && m'.ps == m.ps && m'.growOnly == m.growOnly && |m'.bitmap| == |m.bitmap| && |m'.ram| == |m.ram|
    && m'.tables.Keys == m.tables.Keys
    && (forall q :: q in m.tables ==> |m'.tables[q]| == |m.tables[q]|)
    && (forall q :: q in m'.swap ==> FileWithin(m, q, |m'.swap[q]|))
  }

  predicate FileWithin(m: Mem, q: nat, len: nat) {
    (q in m.swap && len <= |m.swap[q]|) || (q in m.tables && len <= |m.tables[q]|)
  }

  /** The page asked for is in RAM with its use bit set, and no table changed its length. */
  ghost predicate Served(m: Mem, m': Mem, pid: nat, n: nat) {
    SameSizes(m, m') && m'.Has(pid, n) && m'.tables[pid][n].present && m'.tables[pid][n].used
  }

  lemma HitServes(m: Mem, pid: nat, n: nat)
    requires m.Has(pid, n) && m.tables[pid][n].present
    ensures Served(m, m.SetEntry(pid, n, m.tables[pid][n].(used := true)), pid, n)
  {
  }

  lemma FaultFreeServes(m: Mem, pid: nat, n: nat, f: nat)
    requires m.Has(pid, n) && f < |m.bitmap|
    ensures Served(m, FaultFree(m, pid, n, f), pid, n)
  {
  }

  lemma FaultEvictServes(m: Mem, pid: nat, n: nat, h: nat, d: nat, vp: nat, vn: nat)
    requires m.Has(pid, n) && m.Has(vp, vn) && h < |m.bitmap| && d < 2 * |m.bitmap|
    ensures Served(m, FaultEvict(m, pid, n, h, d, vp, vn), pid, n)
  {
  }

  /** Any access keeps frame ownership a bijection and serves its page. */
  lemma AccessServes(m: Mem, hand: nat, m': Mem, hand': nat, pid: nat, n: nat)
    requires Frames(m) && Access(m, hand, m', hand', pid, n)
    ensures Frames(m') && Served(m, m', pid, n)
  {
    if m.tables[pid][n].present {
      HitKeeps(m, pid, n);
      HitServes(m, pid, n);
    } else if !Full(m) {
      var f: nat :| LowestFree(m, f) && m' == FaultFree(m, pid, n, f);
      FaultFreeKeeps(m, pid, n, f);
      FaultFreeServes(m, pid, n, f);
    } else {
      EvictingServes(m, hand, m', hand', pid, n);
    }
  }

  lemma EvictingServes(m: Mem, hand: nat, m': Mem, hand': nat, pid: nat, n: nat)
    requires Frames(m) && Access(m, hand, m', hand', pid, n) && !m.tables[pid][n].present && Full(m)
    ensures Frames(m') && Served(m, m', pid, n)
  {
    var d: nat, vp: nat, vn: nat :| EvictingAccess(m, hand, m', hand', pid, n, d, vp, vn);
    FaultEvictFrames(m, pid, n, WrapHand(hand, |m.bitmap|), d, vp, vn);
    FaultEvictServes(m, pid, n, WrapHand(hand, |m.bitmap|), d, vp, vn);
  }

  /** An access changes no byte any process sees exactly when it does not lose data. */
  lemma AccessInvisible(m: Mem, hand: nat, m': Mem, hand': nat, pid: nat, n: nat)
    requires Frames(m) && Access(m, hand, m', hand', pid, n)
    ensures SameView(m, m') <==> !LosesData(m, hand, pid, n)
  {
    if m.tables[pid][n].present {
      HitKeeps(m, pid, n);
    } else if !Full(m) {
      var f: nat :| LowestFree(m, f) && m' == FaultFree(m, pid, n, f);
      FaultFreeKeeps(m, pid, n, f);
    } else {
      EvictingInvisible(m, hand, m', hand', pid, n);
    }
  }

  lemma EvictingInvisible(m: Mem, hand: nat, m': Mem, hand': nat, pid: nat, n: nat)
    requires Frames(m) && Access(m, hand, m', hand', pid, n) && !m.tables[pid][n].present && Full(m)
    ensures SameView(m, m') <==> !LosesData(m, hand, pid, n)
    ensures m.growOnly && Clean(m) ==> !LosesData(m, hand, pid, n) && Clean(m')
  {
    hide Frames, SameView, Clean, EvictionKeeps, FaultEvict, ClockChoice;
    var d: nat, vp: nat, vn: nat :| EvictingAccess(m, hand, m', hand', pid, n, d, vp, vn);
    var h := WrapHand(hand, |m.bitmap|);
    FaultEvictExact(m, pid, n, h, d, vp, vn);
    forall d': nat, vp': nat, vn': nat | ClockChoice(m, h, d', vp', vn')
      ensures d == d' && vp == vp' && vn == vn'
    {
      ClockDeterministic(m, h, d, vp, vn, d', vp', vn');
    }
  }

  /** On a store that is never shortened no access loses data, as long as every clean page has its copy, and it
      stays so. */
  lemma GrowOnlyAccess(m: Mem, hand: nat, m': Mem, hand': nat, pid: nat, n: nat)
    requires Frames(m) && Clean(m) && m.growOnly && Access(m, hand, m', hand', pid, n)
    ensures !LosesData(m, hand, pid, n) && Clean(m')
  {
    if m.tables[pid][n].present {
      HitKeeps(m, pid, n);
    } else if !Full(m) {
      var f: nat :| LowestFree(m, f) && m' == FaultFree(m, pid, n, f);
      FaultFreeKeeps(m, pid, n, f);
    } else {
      EvictingInvisible(m, hand, m', hand', pid, n);
    }
  }

  // ---- where an access leaves the hand, the use bits and the page ----

  /** A hit sets the use bit and nothing else. */
  lemma HitEnds(m: Mem, hand: nat, m': Mem, hand': nat, pid: nat, n: nat)
    requires Access(m, hand, m', hand', pid, n) && m.tables[pid][n].present
    ensures hand' == hand && m' == m.(tables := m'.tables) && m'.tables == m.tables[pid := m'.tables[pid]]
    ensures m'.tables[pid] == m.tables[pid][n := Page(m.tables[pid][n].frame, true, m.tables[pid][n].modified, true)]
  {
  }

  /** A fault with a free frame takes the lowest, loads what swap has, and moves neither the hand nor a use bit. */
  lemma FreeFaultEnds(m: Mem, hand: nat, m': Mem, hand': nat, pid: nat, n: nat)
    requires Access(m, hand, m', hand', pid, n) && !m.tables[pid][n].present
    requires exists f: nat :: f < |m.bitmap| && !m.bitmap[f]
    ensures hand' == hand && m'.tables.Keys == m.tables.Keys && m'.swap == m.swap
    ensures exists f: nat :: f < |m.bitmap| && !m.bitmap[f] && (forall g: nat :: g < f ==> m.bitmap[g])
                             && m'.bitmap == m.bitmap[f := true]
                             && m'.tables == m.tables[pid := m.tables[pid][n := Page(f, true, false, true)]]
  {
    var f: nat :| LowestFree(m, f) && m' == FaultFree(m, pid, n, f);
    assert f < |m.bitmap| && !m.bitmap[f] && forall g: nat :: g < f ==> m.bitmap[g];
  }

  /** A fault with all frames taken, with the hand in range: the victim is the page nearest ahead of the hand with its
      use bit clear, or the one under the hand when all bits are set; the new page is in its frame, and the hand is
      one past it. */
  lemma EvictionEnds(m: Mem, hand: nat, m': Mem, hand': nat, pid: nat, n: nat) returns (vp: nat, vn: nat)
    requires Frames(m) && Access(m, hand, m', hand', pid, n) && !m.tables[pid][n].present
    requires hand < |m.bitmap| && forall f: nat :: f < |m.bitmap| ==> m.bitmap[f]
    ensures m.Has(vp, vn) && m.tables[vp][vn].present && 0 <= m.tables[vp][vn].frame < |m.bitmap|
    ensures m'.Has(vp, vn) && m'.tables[vp][vn] == ABSENT
    ensures var f := m.tables[vp][vn].frame;
            && m'.Has(pid, n) && m'.tables[pid][n] == Page(f, true, false, true) && hand' == (f + 1) % |m.bitmap|
    ensures (forall q: nat, k: nat :: m.Has(q, k) && m.tables[q][k].present ==> m.tables[q][k].used) ==>
              m.tables[vp][vn].frame == hand
    ensures forall q: nat, k: nat :: m.Has(q, k) && m.tables[q][k].present && !m.tables[q][k].used ==>
              && 0 <= m.tables[q][k].frame < |m.bitmap| && !m.tables[vp][vn].used
              && Ahead(hand, m.tables[vp][vn].frame, |m.bitmap|) <= Ahead(hand, m.tables[q][k].frame, |m.bitmap|)
    ensures m'.bitmap == m.bitmap
  {
    var d: nat, a: nat, b: nat :| EvictingAccess(m, hand, m', hand', pid, n, d, a, b);
    vp, vn := a, b;
    hide FramesExcept, ClockChoice, FaultEvict;
    ChoiceOwns(m, hand, d, vp, vn);
    FrameInRange(m, vp, vn);
    AfterEviction(m, hand, d, vp, vn, pid, n);
    VictimNearest(m, hand, d, vp, vn);
  }

  lemma HandStep(h: nat, s: nat, n: nat)
    requires h < n && s < 2 * n
    ensures (Pos(h, s, n) + 1) % n == Succ(Pos(h, s, n), n)
    ensures s + 1 < 2 * n ==> Succ(Pos(h, s, n), n) == Pos(h, s + 1, n)
  {
    if Pos(h, s, n) + 1 == n {
      assert n % n == 0;
    }
  }

  /** The victim of the sweep, counted from the hand. */
  lemma VictimNearest(m: Mem, h: nat, d: nat, pid: nat, n: nat)
    requires Frames(m) && ClockChoice(m, h, d, pid, n)
    ensures var f := Pos(h, d, |m.bitmap|);
            && Succ(f, |m.bitmap|) == (f + 1) % |m.bitmap| && (SomeIdle(m) ==> !m.tables[pid][n].used)
            && (forall q: nat, k: nat :: m.Has(q, k) && m.tables[q][k].present
                                         && (SomeIdle(m) ==> !m.tables[q][k].used) ==>
                  && 0 <= m.tables[q][k].frame < |m.bitmap|
                  && Ahead(h, f, |m.bitmap|) <= Ahead(h, m.tables[q][k].frame, |m.bitmap|))
            && ((forall g: nat :: g < |m.bitmap| ==> m.bitmap[g]) && !SomeIdle(m) ==> f == h)
  {
    HandStep(h, d, |m.bitmap|);
    if SomeIdle(m) {
      var a: nat, b: nat :| m.Has(a, b) && m.tables[a][b].present && !m.tables[a][b].used;
      NearestAhead(m, h, d, pid, n, a, b);
    } else if forall g: nat :: g < |m.bitmap| ==> m.bitmap[g] {
      UnderHand(m, h, d, pid, n);
    }
    forall q: nat, k: nat | m.Has(q, k) && m.tables[q][k].present && (SomeIdle(m) ==> !m.tables[q][k].used)
      ensures 0 <= m.tables[q][k].frame < |m.bitmap|
      ensures Ahead(h, Pos(h, d, |m.bitmap|), |m.bitmap|) <= Ahead(h, m.tables[q][k].frame, |m.bitmap|)
    {
      NearestAhead(m, h, d, pid, n, q, k);
    }
  }

  /** The hand never leaves the frames. */
  lemma HandInRange(m: Mem, hand: nat, m': Mem, hand': nat, pid: nat, n: nat)
    requires Access(m, hand, m', hand', pid, n) && hand < |m.bitmap|
    ensures hand' < |m.bitmap|
  {
  }

  lemma UnderHand(m: Mem, h: nat, d: nat, vp: nat, vn: nat)
    requires Frames(m) && ClockChoice(m, h, d, vp, vn) && !SomeIdle(m)
    requires forall f: nat :: f < |m.bitmap| ==> m.bitmap[f]
    ensures m.tables[vp][vn].frame == h
  {
    assert m.bitmap[h];
    var q: nat, k: nat :| m.Owns(q, k, h);
    NearestAhead(m, h, d, vp, vn, q, k);
    PosAhead(h, Pos(h, d, |m.bitmap|), |m.bitmap|);
  }

  lemma AfterEviction(m: Mem, h: nat, d: nat, vp: nat, vn: nat, pid: nat, n: nat)
    requires ClockChoice(m, h, d, vp, vn) && m.Has(pid, n) && !m.tables[pid][n].present
    ensures var f := Pos(h, d, |m.bitmap|); var m' := FaultEvict(m, pid, n, h, d, vp, vn);
            && f == m.tables[vp][vn].frame && Succ(f, |m.bitmap|) == (f + 1) % |m.bitmap|
            && m'.Has(vp, vn) && m'.tables[vp][vn] == ABSENT
            && m'.Has(pid, n) && m'.tables[pid][n] == Page(f, true, false, true) && m'.bitmap == m.bitmap
  {
    if Pos(h, d, |m.bitmap|) + 1 == |m.bitmap| {
      assert |m.bitmap| % |m.bitmap| == 0;
    }
  }

  /** The use bits a fault with eviction leaves to the pages that stay: those in front of the victim's frame, as seen
      from the hand, are cleared, and all of them when every bit was set. */
  lemma EvictionClears(m: Mem, hand: nat, m': Mem, hand': nat, pid: nat, n: nat, q: nat, k: nat)
    requires Frames(m) && Access(m, hand, m', hand', pid, n) && !m.tables[pid][n].present
    requires hand < |m.bitmap| && forall f: nat :: f < |m.bitmap| ==> m.bitmap[f]
    requires m.Has(q, k) && m.tables[q][k].present && 0 <= m.tables[q][k].frame < |m.bitmap|
    ensures var last := if hand' == 0 then |m.bitmap| - 1 else hand' - 1; var f := m.tables[q][k].frame;
            0 <= last < |m.bitmap| && (f != last ==>
              && m'.Has(q, k) && m'.tables[q][k] == m.tables[q][k].(used := m'.tables[q][k].used)
              && (m'.tables[q][k].used <==>
                    && m.tables[q][k].used && SomeIdle(m)
                    && Ahead(hand, last, |m.bitmap|) <= Ahead(hand, f, |m.bitmap|)))
  {
    var d: nat, a: nat, b: nat :| EvictingAccess(m, hand, m', hand', pid, n, d, a, b);
    hide FramesExcept, ClockChoice, FaultEvict, ClearUse, Passed;
    ChoiceOwns(m, hand, d, a, b);
    HandStep(hand, d, |m.bitmap|);
    ClearedAhead(m, hand, d, a, b, q, k);
    if m.tables[q][k].frame != Pos(hand, d, |m.bitmap|) {
      StaysPut(m, hand, d, a, b, pid, n, q, k);
    }
  }

  lemma StaysPut(m: Mem, h: nat, d: nat, vp: nat, vn: nat, pid: nat, n: nat, q: nat, k: nat)
    requires ClockChoice(m, h, d, vp, vn) && m.Has(pid, n) && !m.tables[pid][n].present
    requires m.Has(q, k) && m.tables[q][k].present && m.tables[q][k].frame != Pos(h, d, |m.bitmap|)
    ensures var m' := FaultEvict(m, pid, n, h, d, vp, vn); var c := ClearUse(m, Passed(h, d, |m.bitmap|));
            m'.Has(q, k) && c.Has(q, k) && m'.tables[q][k] == c.tables[q][k]
  {
  }

  /** Two evictions with every use bit set, with no other eviction in between, take different frames if there are two:
      the hand goes on from where it stopped. */
  lemma TwoEvictionsDiffer(m: Mem, hand: nat, m1: Mem, hand1: nat, p: nat, n: nat,
                           m2: Mem, m3: Mem, hand3: nat, q: nat, k: nat)
    requires Frames(m) && Access(m, hand, m1, hand1, p, n) && !m.tables[p][n].present
    requires Frames(m2) && Access(m2, hand1, m3, hand3, q, k) && !m2.tables[q][k].present
    requires hand < |m.bitmap| == |m2.bitmap| && 2 <= |m.bitmap|
    requires forall f: nat :: f < |m.bitmap| ==> m.bitmap[f] && m2.bitmap[f]
    requires forall a: nat, b: nat :: m.Has(a, b) && m.tables[a][b].present ==> m.tables[a][b].used
    requires forall a: nat, b: nat :: m2.Has(a, b) && m2.tables[a][b].present ==> m2.tables[a][b].used
    ensures m1.Has(p, n) && m3.Has(q, k) && m1.tables[p][n].frame == hand
    ensures m3.tables[q][k].frame == (hand + 1) % |m.bitmap| && m3.tables[q][k].frame != m1.tables[p][n].frame
  {
    hide Frames, Access;
    AccessHas(m, hand, m1, hand1, p, n);
    AccessHas(m2, hand1, m3, hand3, q, k);
    var a, b := EvictionEnds(m, hand, m1, hand1, p, n);
    assert hand1 == (hand + 1) % |m.bitmap|;
    var c, d := EvictionEnds(m2, hand1, m3, hand3, q, k);
    NextFrame(hand, |m.bitmap|);
  }

  lemma AccessHas(m: Mem, hand: nat, m': Mem, hand': nat, pid: nat, n: nat)
    requires Access(m, hand, m', hand', pid, n)
    ensures m.Has(pid, n)
  {
  }

  lemma NextFrame(h: nat, n: nat)
    requires h < n && 2 <= n
    ensures (h + 1) % n < n && (h + 1) % n != h
  {
    if h + 1 == n {
      assert n % n == 0;
    }
  }

  // ---- what processes see, as flat arrays ----

  ghost predicate SameFlats(m: Mem, m': Mem) {
    && m'.tables.Keys == m.tables.Keys
    && (forall q :: q in m.tables ==> m'.Flat(q) == m.Flat(q))
  }

  /** m' shows what m shows, except that process pid sees `data` at address `dir`. */
  ghost predicate Written(m: Mem, m': Mem, pid: nat, dir: nat, data: seq<Byte>) {
    && m'.tables.Keys == m.tables.Keys
    && (forall q :: q in m.tables && (q != pid || data == []) ==> m'.Flat(q) == m.Flat(q))
    && (data != [] ==> && pid in m.tables && dir + |data| <= |m.Flat(pid)|
                       && m'.Flat(pid) == Splice(m.Flat(pid), dir, data))
  }

  lemma WrittenThenSame(m: Mem, m1: Mem, m2: Mem, pid: nat, dir: nat, data: seq<Byte>)
    requires Written(m, m1, pid, dir, data) && SameFlats(m1, m2)
    ensures Written(m, m2, pid, dir, data)
  {
  }

  lemma WrittenThenChunk(m: Mem, m1: Mem, m2: Mem, pid: nat, dir: nat, a: seq<Byte>, b: seq<Byte>)
    requires Written(m, m1, pid, dir, a) && Written(m1, m2, pid, dir + |a|, b) && b != []
    ensures Written(m, m2, pid, dir, a + b)
  {
    if a != [] {
      SpliceJoin(m.Flat(pid), dir, a, b);
    } else {
      assert a + b == b;
    }
  }

  /** One chunk stored through page addr / ps. */
  lemma ChunkWritten(m: Mem, pid: nat, addr: nat, chunk: seq<Byte>)
    requires Frames(m) && m.Has(pid, addr / m.ps) && m.tables[pid][addr / m.ps].present
    requires chunk != [] && addr % m.ps + |chunk| <= m.ps
    ensures Written(m, Store(m, pid, addr / m.ps, addr % m.ps, chunk), pid, addr, chunk)
  {
    StoreFlat(m, pid, addr / m.ps, addr % m.ps, chunk);
    DivMod(addr, m.ps);
  }

  /** With the truncating store even an undisturbed access can lose data: reading back a page that was
      swapped out evicts a modified lower page of the same process, and that swap-out cuts the file before the
      page is read from it. */
  lemma AccessCanLoseData()
    ensures var m := Mem(1, false, map[1 := [Page(0, true, true, true), ABSENT]], [true], [5], map[1 := [[0], [6]]]);
            var m' := FaultEvict(m, 1, 1, 0, 1, 1, 0);
            && Frames(m) && Clean(m) && Access(m, 0, m', 0, 1, 1)
            && m.Content(1, 1) == [6] && m'.Content(1, 1) == [0]
  {
    var m := Mem(1, false, map[1 := [Page(0, true, true, true), ABSENT]], [true], [5], map[1 := [[0], [6]]]);
    var m' := FaultEvict(m, 1, 1, 0, 1, 1, 0);
    assert m.Owns(1, 0, 0);
    forall pid: nat, n: nat | m.Has(pid, n)
      ensures pid == 1 && (n == 0 || n == 1) && EntryShape(m.tables[pid][n]) && CleanAt(m, pid, n)
    {
    }
    assert Pos(0, 0, 1) == 0 && Pos(0, 1, 1) == 0 && 0 in Passed(0, 1, 1);
    assert ClockChoice(m, 0, 1, 1, 0);
    assert EvictingAccess(m, 0, m', 0, 1, 1, 1, 1, 0);
    LosingEviction(m);
  }

  lemma LosingEviction(m: Mem)
    requires m == Mem(1, false, map[1 := [Page(0, true, true, true), ABSENT]], [true], [5], map[1 := [[0], [6]]])
    ensures m.Content(1, 1) == [6] && FaultEvict(m, 1, 1, 0, 1, 1, 0).Content(1, 1) == [0]
  {
    assert Pos(0, 0, 1) == 0 && Pos(0, 1, 1) == 0 && 0 in Passed(0, 1, 1);
    var c := ClearUse(m, Passed(0, 1, 1));
    assert c.tables[1][0] == Page(0, true, true, false);
    var e := Evict(c, 1, 0);
    assert Row([5], 1, 0) == [5] && c.FrameBytes(0) == [5];
    assert e.swap[1] == SwapWrite([[0], [6]], 1, false, 0, [5]);
    assert |e.swap[1]| == 1 && e.Stored(1, 1) == [0];
    assert Row(Splice([5], 0, [0]), 1, 0) == [0];
  }
}
