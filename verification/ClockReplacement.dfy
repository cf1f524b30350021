// The second-chance sweep on values: which frame it picks and which use bits it clears.
module ClockReplacement {
  import opened Bytes
  import opened Paging

  /** The frame under the hand after t steps from h, for t up to two turns. */
  function Pos(h: nat, t: nat, n: nat): (p: nat)
    requires h < n && t < 2 * n
    ensures p < n
  {
    if h + t < n then h + t else if h + t < 2 * n then h + t - n else h + t - 2 * n
  }

  /** The frames the hand has moved over after d steps. */
  ghost function Passed(h: nat, d: nat, n: nat): set<int>
    requires h < n && d <= 2 * n
  {
    set t: nat | t < d :: Pos(h, t, n)
  }

  ghost predicate Owned(m: Mem, f: int) {
    exists pid: nat, n: nat :: m.Owns(pid, n, f)
  }

  /** Frame f is owned by a page whose use bit is clear. */
  ghost predicate Idle(m: Mem, f: int) {
    exists pid: nat, n: nat :: m.Owns(pid, n, f) && !m.tables[pid][n].used
  }

  function Cleared(p: Page, S: set<int>): Page {
    if p.present && p.frame in S then p.(used := false) else p
  }

  /** Clears the use bit of every page whose frame is in S, and nothing else. */
  function ClearUse(m: Mem, S: set<int>): Mem {
    m.(tables := map pid | pid in m.tables ::
         seq(|m.tables[pid]|, n requires 0 <= n < |m.tables[pid]| => Cleared(m.tables[pid][n], S)))
  }

  lemma ClearUseKeeps(m: Mem, S: set<int>)
    requires Frames(m)
    ensures Frames(ClearUse(m, S)) && SameOwnership(m, ClearUse(m, S)) && SameView(m, ClearUse(m, S))
    ensures Clean(m) ==> Clean(ClearUse(m, S))
    ensures forall pid: nat, n: nat, f: int :: m.Owns(pid, n, f) <==> ClearUse(m, S).Owns(pid, n, f)
  {
    var m' := ClearUse(m, S);
    forall pid: nat, n: nat | m.Has(pid, n)
      ensures m'.Has(pid, n) && EntryShape(m'.tables[pid][n]) && m'.Content(pid, n) == m.Content(pid, n)
      ensures Clean(m) ==> CleanAt(m', pid, n)
    {
      assert EntryShape(m.tables[pid][n]);
      assert Clean(m) ==> CleanAt(m, pid, n);
    }
    assert forall pid: nat, n: nat :: m'.Has(pid, n) ==> m.Has(pid, n);
    SameOwners(m, m');
  }

  lemma ClearUseNone(m: Mem)
    ensures ClearUse(m, {}) == m
  {
    forall pid | pid in m.tables
      ensures ClearUse(m, {}).tables[pid] == m.tables[pid]
    {
    }
  }

  /** Clearing the use bit of the owner of one more frame. */
  lemma ClearUseStep(m: Mem, S: set<int>, pid: nat, n: nat, f: int)
    requires Frames(m) && m.Owns(pid, n, f)
    ensures ClearUse(m, S).Has(pid, n)
    ensures ClearUse(m, S).SetEntry(pid, n, ClearUse(m, S).tables[pid][n].(used := false)) == ClearUse(m, S + {f})
  {
    var m1 := ClearUse(m, S);
    var a := m1.SetEntry(pid, n, m1.tables[pid][n].(used := false));
    var b := ClearUse(m, S + {f});
    forall q | q in m.tables
      ensures a.tables[q] == b.tables[q]
    {
      forall k: nat | k < |m.tables[q]|
        ensures a.tables[q][k] == b.tables[q][k]
      {
        if m.tables[q][k].present && m.tables[q][k].frame == f {
          assert m.Owns(q, k, f);
        }
      }
    }
    assert a.tables == b.tables;
  }

  /** Frames nobody owns may be added to the set freely. */
  lemma ClearUseSkip(m: Mem, S: set<int>, f: int)
    requires !Owned(m, f)
    ensures ClearUse(m, S) == ClearUse(m, S + {f})
  {
    forall q | q in m.tables
      ensures ClearUse(m, S).tables[q] == ClearUse(m, S + {f}).tables[q]
    {
      forall k: nat | k < |m.tables[q]|
        ensures ClearUse(m, S).tables[q][k] == ClearUse(m, S + {f}).tables[q][k]
      {
        if m.tables[q][k].present && m.tables[q][k].frame == f {
          assert m.Owns(q, k, f);
        }
      }
    }
  }

  /** The sweep starting at h stops after d steps on page n of pid: the first idle frame within one turn, or,
      when no frame is idle, the first owned frame of the second turn. */
  ghost predicate ClockChoice(m: Mem, h: nat, d: nat, pid: nat, n: nat) {
    var N := |m.bitmap|;
    && h < N && d < 2 * N
    && m.Owns(pid, n, Pos(h, d, N))
    && (d < N ==> !m.tables[pid][n].used && forall t: nat | t < d :: !Idle(m, Pos(h, t, N)))
    && (N <= d ==> && (forall t: nat | t < N :: !Idle(m, Pos(h, t, N)))
                   && (forall t: nat | t < d - N :: !Owned(m, Pos(h, t, N))))
  }

  /** With every frame taken, the sweep ends within one turn and one step. It makes the extra step exactly
      when no use bit was clear, and then the victim is the frame the hand started on. */
  lemma ClockWithinOneTurn(m: Mem, h: nat, d: nat, pid: nat, n: nat)
    requires Frames(m) && ClockChoice(m, h, d, pid, n)
    requires forall f: nat :: f < |m.bitmap| ==> m.bitmap[f]
    ensures d <= |m.bitmap|
    ensures d == |m.bitmap| <==> forall f: nat | f < |m.bitmap| :: !Idle(m, f)
    ensures d == |m.bitmap| ==> m.tables[pid][n].frame == h
  {
    var N := |m.bitmap|;
    assert m.bitmap[h] && Pos(h, 0, N) == h;
    assert Owned(m, Pos(h, 0, N));
    if d == N {
      forall f: nat | f < N
        ensures !Idle(m, f)
      {
        PosOnto(h, f, N);
      }
    } else {
      assert Idle(m, Pos(h, d, N));
    }
  }

  lemma PosOnto(h: nat, f: nat, n: nat)
    requires h < n && f < n
    ensures exists t: nat :: t < n && Pos(h, t, n) == f
  {
    var t := if h <= f then f - h else f + n - h;
    assert Pos(h, t, n) == f;
  }

  // ---- the victim, counted from the hand ----

  /** How many frames lie from frame h up to frame f, going round. */
  function Ahead(h: nat, f: nat, n: nat): (r: nat)
    requires h < n && f < n
    ensures r < n && (h + r == f || h + r == f + n)
  {
    if h <= f then f - h else f + n - h
  }

  lemma AheadPos(h: nat, d: nat, n: nat)
    requires h < n && d < 2 * n
    ensures Ahead(h, Pos(h, d, n), n) == if d < n then d else d - n
  {
  }

  lemma PosAhead(h: nat, f: nat, n: nat)
    requires h < n && f < n
    ensures Pos(h, Ahead(h, f, n), n) == f
  {
  }

  /** Some page in RAM has its use bit clear. */
  ghost predicate SomeIdle(m: Mem) {
    exists q: nat, k: nat :: m.Has(q, k) && m.tables[q][k].present && !m.tables[q][k].used
  }

  lemma FrameInRange(m: Mem, q: nat, k: nat)
    requires Frames(m) && m.Has(q, k) && m.tables[q][k].present
    ensures 0 <= m.tables[q][k].frame < |m.bitmap| && m.Owns(q, k, m.tables[q][k].frame)
  {
    assert m.Owns(q, k, m.tables[q][k].frame);
  }

  /** The victim is the page in RAM nearest ahead of the hand whose use bit is clear, and when there is none the
      page nearest ahead of the hand. */
  lemma NearestAhead(m: Mem, h: nat, d: nat, pid: nat, n: nat, q: nat, k: nat)
    requires Frames(m) && ClockChoice(m, h, d, pid, n) && m.Has(q, k) && m.tables[q][k].present
    requires SomeIdle(m) ==> !m.tables[q][k].used
    ensures 0 <= m.tables[q][k].frame < |m.bitmap| && (SomeIdle(m) ==> !m.tables[pid][n].used)
    ensures Ahead(h, Pos(h, d, |m.bitmap|), |m.bitmap|) <= Ahead(h, m.tables[q][k].frame, |m.bitmap|)
  {
    var N := |m.bitmap|;
    FrameInRange(m, q, k);
    var g: nat := m.tables[q][k].frame;
    PosAhead(h, g, N);
    AheadPos(h, d, N);
    assert m.Owns(q, k, g) && Owned(m, Pos(h, Ahead(h, g, N), N));
    if SomeIdle(m) {
      var a: nat, b: nat :| m.Has(a, b) && m.tables[a][b].present && !m.tables[a][b].used;
      FrameInRange(m, a, b);
      PosAhead(h, m.tables[a][b].frame, N);
      assert Idle(m, Pos(h, Ahead(h, m.tables[a][b].frame, N), N));
      assert Idle(m, Pos(h, Ahead(h, g, N), N));
      assert d < N;
    } else if d < N {
      StopMeansIdle(m, h, d, pid, n);
      assert false;
    }
  }

  lemma StopMeansIdle(m: Mem, h: nat, d: nat, pid: nat, n: nat)
    requires ClockChoice(m, h, d, pid, n) && d < |m.bitmap|
    ensures SomeIdle(m)
  {
    assert m.Has(pid, n) && m.tables[pid][n].present && !m.tables[pid][n].used;
  }

  /** The use bits the sweep clears: those of the frames before the victim, and all when every bit was set. */
  lemma ClearedAhead(m: Mem, h: nat, d: nat, pid: nat, n: nat, q: nat, k: nat)
    requires Frames(m) && ClockChoice(m, h, d, pid, n) && m.Has(q, k) && m.tables[q][k].present
    ensures 0 <= m.tables[q][k].frame < |m.bitmap|
    ensures var N := |m.bitmap|; var m' := ClearUse(m, Passed(h, d, N));
            && m'.Has(q, k)
            && m'.tables[q][k] == m.tables[q][k].(used := m'.tables[q][k].used)
            && (m'.tables[q][k].used <==>
                  && m.tables[q][k].used && SomeIdle(m)
                  && Ahead(h, Pos(h, d, N), N) <= Ahead(h, m.tables[q][k].frame, N))
  {
    var N := |m.bitmap|;
    FrameInRange(m, q, k);
    var g: nat := m.tables[q][k].frame;
    PosAhead(h, g, N);
    AheadPos(h, d, N);
    if d < N {
      StopMeansIdle(m, h, d, pid, n);
      assert g in Passed(h, d, N) <==> Ahead(h, g, N) < d by {
        forall t: nat | t < d && Pos(h, t, N) == g
          ensures t == Ahead(h, g, N)
        {
          AheadPos(h, t, N);
        }
      }
    } else {
      NoneIdle(m, h, d, pid, n);
      assert g in Passed(h, d, N);
    }
  }

  lemma NoneIdle(m: Mem, h: nat, d: nat, pid: nat, n: nat)
    requires Frames(m) && ClockChoice(m, h, d, pid, n) && |m.bitmap| <= d
    ensures !SomeIdle(m)
  {
    var N := |m.bitmap|;
    forall a: nat, b: nat | m.Has(a, b) && m.tables[a][b].present
      ensures m.tables[a][b].used
    {
      FrameInRange(m, a, b);
      PosAhead(h, m.tables[a][b].frame, N);
      assert !Idle(m, Pos(h, Ahead(h, m.tables[a][b].frame, N), N));
    }
  }
}
