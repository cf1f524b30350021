// Demand paging on values: what one process sees of its pages, and how each step of the page-fault
// protocol (eviction, swap-in, store, clearing of use bits) acts on that view.
module Paging {
  import opened Bytes

  /** One page-table entry. `frame` is -1 while the page is absent. */
  datatype Page = Page(frame: int, present: bool, modified: bool, used: bool)

  const ABSENT := Page(-1, false, false, false)

  /** Page tables, frame bitmap, RAM and one swap file per process.

      A swap file is the list of its whole pages: every write leaves a file whose length is a multiple of
      the page size. `growOnly` selects between the two ways to size the file before a write: true never
      shortens it, which is what the write needs; false sets its length to the end of the written page, which
      is what the code does. */
  datatype Mem = Mem(ps: nat, growOnly: bool, tables: map<nat, seq<Page>>, bitmap: seq<bool>,
                     ram: seq<Byte>, swap: map<nat, seq<seq<Byte>>>)
  {
    predicate Has(pid: nat, n: nat) {
      pid in tables && n < |tables[pid]|
    }

    function FrameBytes(f: int): seq<Byte> {
      if 0 <= f && (f + 1) * ps <= |ram| then Row(ram, ps, f) else Zeros(ps)
    }

    /** What swap-in loads for page n: the stored copy, or zeros when there is none. */
    function Stored(pid: nat, n: nat): seq<Byte> {
      if pid in swap && n < |swap[pid]| then swap[pid][n] else Zeros(ps)
    }

    /** The current bytes of page n of process pid, wherever they live. */
    function Content(pid: nat, n: nat): seq<Byte>
      requires Has(pid, n)
    {
      if tables[pid][n].present then FrameBytes(tables[pid][n].frame) else Stored(pid, n)
    }

    function Pages(pid: nat): (rows: seq<seq<Byte>>)
      requires pid in tables
      ensures |rows| == |tables[pid]|
      ensures forall n: nat :: 0 <= n < |rows| ==> rows[n] == Content(pid, n)
    {
      seq(|tables[pid]|, n requires 0 <= n < |tables[pid]| => Content(pid, n))
    }

    /** The address space of a process as one flat array. */
    function Flat(pid: nat): seq<Byte>
      requires pid in tables
    {
      Flatten(Pages(pid))
    }

    predicate Owns(pid: nat, n: nat, f: int) {
      Has(pid, n) && tables[pid][n].present && tables[pid][n].frame == f
    }

    function SetEntry(pid: nat, n: nat, p: Page): Mem
      requires Has(pid, n)
    {
      this.(tables := tables[pid := tables[pid][n := p]])
    }
  }

  /** Frame ownership is a bijection between set bits and present pages, except that the frames of R are
      reserved: their bits are set and no page owns them. */
  ghost predicate FramesExcept(m: Mem, R: set<int>) {
    && 0 < m.ps
    && |m.bitmap| * m.ps <= |m.ram|
    && (forall pid: nat, n: nat :: m.Has(pid, n) ==> EntryShape(m.tables[pid][n]))
    && (forall pid: nat, n: nat, f: int :: m.Owns(pid, n, f) ==> 0 <= f < |m.bitmap| && m.bitmap[f] && f !in R)
    && (forall pid: nat, n: nat, pid': nat, n': nat, f: int ::
          m.Owns(pid, n, f) && m.Owns(pid', n', f) ==> pid == pid' && n == n')
    && (forall f: int :: 0 <= f < |m.bitmap| && m.bitmap[f] && f !in R ==> exists pid: nat, n: nat :: m.Owns(pid, n, f))
    && (forall f :: f in R ==> 0 <= f < |m.bitmap| && m.bitmap[f])
    && (forall pid: nat, n: nat :: pid in m.swap && 0 <= n < |m.swap[pid]| ==> |m.swap[pid][n]| == m.ps)
  }

  predicate EntryShape(p: Page) {
    if p.present then 0 <= p.frame else p == ABSENT
  }

  /** The invariant between any two critical sections. */
  ghost predicate Frames(m: Mem) {
    FramesExcept(m, {})
  }

  /** A present page whose modified bit is clear equals what swap-in would load. */
  ghost predicate Clean(m: Mem) {
    forall pid: nat, n: nat :: m.Has(pid, n) ==> CleanAt(m, pid, n)
  }

  predicate CleanAt(m: Mem, pid: nat, n: nat)
    requires m.Has(pid, n)
  {
    m.tables[pid][n].present && !m.tables[pid][n].modified ==>
      m.FrameBytes(m.tables[pid][n].frame) == m.Stored(pid, n)
  }

  /** No byte any process sees differs between a and b. */
  ghost predicate SameView(a: Mem, b: Mem) {
    && a.tables.Keys == b.tables.Keys
    && (forall pid :: pid in a.tables ==> |a.tables[pid]| == |b.tables[pid]|)
    && (forall pid: nat, n: nat :: a.Has(pid, n) ==> b.Has(pid, n) && a.Content(pid, n) == b.Content(pid, n))
  }

  lemma SameViewFlat(a: Mem, b: Mem)
    requires SameView(a, b)
    ensures forall pid :: pid in a.tables ==> a.Flat(pid) == b.Flat(pid)
  {
    forall pid | pid in a.tables
      ensures a.Flat(pid) == b.Flat(pid)
    {
      forall n: nat | 0 <= n < |a.tables[pid]|
        ensures a.Pages(pid)[n] == b.Pages(pid)[n]
      {
        assert a.Has(pid, n);
      }
      assert a.Pages(pid) == b.Pages(pid);
    }
  }

  lemma FrameFits(m: Mem, f: int)
    requires |m.bitmap| * m.ps <= |m.ram| && 0 <= f < |m.bitmap|
    ensures 0 <= f * m.ps && f * m.ps + m.ps == (f + 1) * m.ps <= |m.ram|
    ensures m.FrameBytes(f) == Row(m.ram, m.ps, f)
  {
    RowBounds(f, |m.bitmap|, m.ps);
  }

  lemma ContentWidth(m: Mem, pid: nat)
    requires Frames(m) && pid in m.tables
    ensures AllWidth(m.Pages(pid), m.ps)
    ensures |m.Flat(pid)| == |m.tables[pid]| * m.ps
  {
    forall n: nat | 0 <= n < |m.tables[pid]|
      ensures |m.Pages(pid)[n]| == m.ps
    {
      assert m.Has(pid, n);
    }
    FlattenLength(m.Pages(pid), m.ps);
  }

  // ---- the swap file (swap.c) ----

  function ZeroPages(ps: nat, k: nat): (z: seq<seq<Byte>>)
    ensures |z| == k
  {
    seq(k, _ => Zeros(ps))
  }

  /** ftruncate followed by a write of page n. A file that grows is padded with zero pages. */
  function SwapWrite(file: seq<seq<Byte>>, ps: nat, growOnly: bool, n: nat, page: seq<Byte>): (r: seq<seq<Byte>>)
    ensures |r| == if growOnly && |file| > n + 1 then |file| else n + 1
    ensures r[n] == page
    ensures forall k: nat :: 0 <= k < |r| && k != n ==> r[k] == if k < |file| then file[k] else Zeros(ps)
  {
    var sized := if |file| <= n then file + ZeroPages(ps, n + 1 - |file|)
                 else if growOnly then file
                 else file[..n + 1];
    sized[n := page]
  }

  /** What a read of page k of a file yields once a failed read is turned into zeros. */
  function SwapRead(file: seq<seq<Byte>>, ps: nat, k: nat): seq<Byte> {
    if k < |file| then file[k] else Zeros(ps)
  }

  /** The store's promise (each page keeps its last contents) holds for a write of page n exactly when the
      file is never shortened or holds only zeros above page n. */
  lemma SwapContractExact(file: seq<seq<Byte>>, ps: nat, growOnly: bool, n: nat, page: seq<Byte>)
    ensures (forall k: nat | k != n :: SwapRead(SwapWrite(file, ps, growOnly, n, page), ps, k) == SwapRead(file, ps, k))
       <==> (growOnly || forall k: nat | n < k < |file| :: file[k] == Zeros(ps))
  {
    var after := SwapWrite(file, ps, growOnly, n, page);
    if !growOnly {
      forall k: nat | n < k < |file|
        ensures SwapRead(after, ps, k) == Zeros(ps) && SwapRead(file, ps, k) == file[k]
      {
      }
    }
  }

  /** Two stored pages; swapping out the lower one loses the upper one. */
  lemma SwapContractFails()
    ensures var file := [[1], [2]];
            SwapRead(SwapWrite(file, 1, false, 0, [7]), 1, 1) == [0] && SwapRead(file, 1, 1) == [2]
  {
  }

  // ---- eviction ----

  /** The victim is written out only when modified; its entry becomes absent; its frame stays reserved. */
  function Evict(m: Mem, pid: nat, n: nat): Mem
    requires m.Has(pid, n)
  {
    var p := m.tables[pid][n];
    var file := if pid in m.swap then m.swap[pid] else [];
    var swap' := if p.modified
                 then m.swap[pid := SwapWrite(file, m.ps, m.growOnly, n, m.FrameBytes(p.frame))]
                 else m.swap;
    m.(swap := swap').SetEntry(pid, n, ABSENT)
  }

  /** Evicting page n of pid changes no byte any process sees: if it is written out, that cuts off no stored page
      that is still needed; if it is not, its stored copy is up to date. */
  ghost predicate EvictionKeeps(m: Mem, pid: nat, n: nat)
    requires m.Has(pid, n)
  {
    if m.tables[pid][n].modified then
      || m.growOnly
      || forall k: nat | n < k < |m.tables[pid]| :: m.tables[pid][k].present || m.Stored(pid, k) == Zeros(m.ps)
    else
      m.FrameBytes(m.tables[pid][n].frame) == m.Stored(pid, n)
  }

  /** Evicting page n of pid also leaves every other clean page its stored copy. */
  ghost predicate EvictionKeepsCopies(m: Mem, pid: nat, n: nat)
    requires m.Has(pid, n)
  {
    || !m.tables[pid][n].modified
    || m.growOnly
    || forall k: nat | n < k < |m.tables[pid]| ::
         (m.tables[pid][k].present && m.tables[pid][k].modified) || m.Stored(pid, k) == Zeros(m.ps)
  }

  lemma EvictFrames(m: Mem, pid: nat, n: nat, f: int)
    requires Frames(m) && m.Owns(pid, n, f)
    ensures FramesExcept(Evict(m, pid, n), {f})
  {
    var m' := Evict(m, pid, n);
    forall q: nat, k: nat | m'.Has(q, k)
      ensures EntryShape(m'.tables[q][k])
    {
      assert m.Has(q, k);
    }
    forall q: nat, k: nat, g: int | m'.Owns(q, k, g)
      ensures m.Owns(q, k, g) && g != f
    {
      assert m.Owns(q, k, g);
    }
    forall g: int | 0 <= g < |m'.bitmap| && m'.bitmap[g] && g != f
      ensures exists q: nat, k: nat :: m'.Owns(q, k, g)
    {
      var q: nat, k: nat :| m.Owns(q, k, g);
      assert m'.Owns(q, k, g);
    }
  }

  lemma EvictStored(m: Mem, pid: nat, n: nat, q: nat, k: nat)
    requires m.Has(pid, n) && m.Has(q, k)
    ensures !m.tables[pid][n].modified ==> Evict(m, pid, n).Stored(q, k) == m.Stored(q, k)
    ensures q != pid ==> Evict(m, pid, n).Stored(q, k) == m.Stored(q, k)
    ensures m.tables[pid][n].modified ==>
              Evict(m, pid, n).Stored(pid, n) == m.FrameBytes(m.tables[pid][n].frame)
    ensures m.tables[pid][n].modified && q == pid && k != n ==>
              Evict(m, pid, n).Stored(q, k) == if k < n || m.growOnly then m.Stored(q, k) else Zeros(m.ps)
  {
  }

  /** What eviction does to one page, as its process sees it. */
  lemma EvictOne(m: Mem, pid: nat, n: nat, q: nat, k: nat)
    requires m.Has(pid, n) && m.tables[pid][n].present && m.Has(q, k)
    ensures Evict(m, pid, n).Has(q, k)
    ensures Evict(m, pid, n).Content(q, k) == m.Content(q, k) <==>
            if q != pid || k < n then true
            else if k == n then m.tables[pid][n].modified || m.FrameBytes(m.tables[pid][n].frame) == m.Stored(pid, n)
            else !m.tables[pid][n].modified || m.growOnly || m.tables[pid][k].present || m.Stored(pid, k) == Zeros(m.ps)
  {
    EvictStored(m, pid, n, q, k);
    assert Evict(m, pid, n).ram == m.ram;
    if q != pid || k != n {
      assert Evict(m, pid, n).tables[q][k] == m.tables[q][k];
    }
  }

  /** Eviction is invisible to every process exactly when ... */
  lemma EvictionExact(m: Mem, pid: nat, n: nat)
    requires m.Has(pid, n) && m.tables[pid][n].present
    ensures SameView(m, Evict(m, pid, n)) <==> EvictionKeeps(m, pid, n)
  {
    var m' := Evict(m, pid, n);
    forall q: nat, k: nat | m.Has(q, k)
      ensures m'.Has(q, k) && (EvictionKeeps(m, pid, n) ==> m'.Content(q, k) == m.Content(q, k))
    {
      EvictOne(m, pid, n, q, k);
    }
    if SameView(m, m') {
      EvictOne(m, pid, n, pid, n);
      forall k: nat | n < k < |m.tables[pid]|
        ensures || !m.tables[pid][n].modified || m.growOnly
                || m.tables[pid][k].present || m.Stored(pid, k) == Zeros(m.ps)
      {
        assert m.Has(pid, k);
        EvictOne(m, pid, n, pid, k);
      }
    }
  }

  lemma EvictOneClean(m: Mem, pid: nat, n: nat, q: nat, k: nat)
    requires Clean(m) && m.Has(pid, n) && m.tables[pid][n].present && m.Has(q, k)
    ensures Evict(m, pid, n).Has(q, k)
    ensures (Evict(m, pid, n).Content(q, k) == m.Content(q, k) && CleanAt(Evict(m, pid, n), q, k)) <==>
            (|| q != pid || k <= n || !m.tables[pid][n].modified || m.growOnly
             || (m.tables[q][k].present && m.tables[q][k].modified) || m.Stored(q, k) == Zeros(m.ps))
  {
    EvictStored(m, pid, n, q, k);
    assert CleanAt(m, q, k) && CleanAt(m, pid, n);
    assert Evict(m, pid, n).ram == m.ram;
    if q == pid && k == n {
      assert Evict(m, pid, n).Content(q, k) == m.Content(q, k);
    } else {
      assert Evict(m, pid, n).tables[q][k] == m.tables[q][k];
    }
  }

  /** When every clean page has its copy: eviction is invisible and leaves every clean page its copy exactly when ... */
  lemma EvictionCleanExact(m: Mem, pid: nat, n: nat)
    requires Clean(m) && m.Has(pid, n) && m.tables[pid][n].present
    ensures SameView(m, Evict(m, pid, n)) && Clean(Evict(m, pid, n)) <==> EvictionKeepsCopies(m, pid, n)
  {
    var m' := Evict(m, pid, n);
    forall q: nat, k: nat | m.Has(q, k)
      ensures m'.Has(q, k)
      ensures EvictionKeepsCopies(m, pid, n) ==> m'.Content(q, k) == m.Content(q, k) && CleanAt(m', q, k)
    {
      EvictOneClean(m, pid, n, q, k);
    }
    assert forall q: nat, k: nat :: m'.Has(q, k) ==> m.Has(q, k);
    if SameView(m, m') && Clean(m') {
      forall k: nat | n < k < |m.tables[pid]|
        ensures || !m.tables[pid][n].modified || m.growOnly
                || (m.tables[pid][k].present && m.tables[pid][k].modified) || m.Stored(pid, k) == Zeros(m.ps)
      {
        assert m.Has(pid, k) && m'.Has(pid, k);
        EvictOneClean(m, pid, n, pid, k);
      }
    }
  }

  // ---- reserving a free frame and loading a page into a reserved frame ----

  lemma ReserveFrames(m: Mem, f: int)
    requires Frames(m) && 0 <= f < |m.bitmap| && !m.bitmap[f]
    ensures FramesExcept(m.(bitmap := m.bitmap[f := true]), {f})
    ensures SameView(m, m.(bitmap := m.bitmap[f := true]))
    ensures Clean(m) ==> Clean(m.(bitmap := m.bitmap[f := true]))
  {
    var m' := m.(bitmap := m.bitmap[f := true]);
    assert forall q: nat, k: nat :: m.Has(q, k) == m'.Has(q, k);
    assert forall q: nat, k: nat, g: int :: m.Owns(q, k, g) == m'.Owns(q, k, g);
    forall g: int | 0 <= g < |m'.bitmap| && m'.bitmap[g] && g != f
      ensures exists q: nat, k: nat :: m'.Owns(q, k, g)
    {
      var q: nat, k: nat :| m.Owns(q, k, g);
      assert m'.Owns(q, k, g);
    }
    forall q: nat, k: nat | m.Has(q, k)
      ensures m.Content(q, k) == m'.Content(q, k)
      ensures CleanAt(m, q, k) ==> CleanAt(m', q, k)
    {
    }
  }

  /** Swap-in of page n into frame f: RAM is written (when the bounds check passes) and the entry set. */
  function Load(m: Mem, pid: nat, n: nat, f: nat): Mem
    requires m.Has(pid, n)
  {
    var page := m.Stored(pid, n);
    var ram' := if f * m.ps + |page| <= |m.ram| then Splice(m.ram, f * m.ps, page) else m.ram;
    m.(ram := ram').SetEntry(pid, n, Page(f, true, false, true))
  }

  lemma LoadFits(m: Mem, pid: nat, n: nat, f: nat)
    requires FramesExcept(m, {f}) && m.Has(pid, n)
    ensures |m.Stored(pid, n)| == m.ps && f * m.ps + m.ps <= |m.ram|
  {
    assert f in {f};
    FrameFits(m, f);
  }

  lemma LoadOther(m: Mem, pid: nat, n: nat, f: nat, g: int)
    requires FramesExcept(m, {f}) && m.Has(pid, n) && 0 <= g < |m.bitmap|
    ensures Load(m, pid, n, f).FrameBytes(g) == if g == f then m.Stored(pid, n) else m.FrameBytes(g)
  {
    assert f in {f};
    hide Splice, Row, Mem.Stored;
    LoadFits(m, pid, n, f);
    FrameFits(m, f);
    FrameFits(m, g);
    FrameFits(Load(m, pid, n, f), g);
    hide FramesExcept, Mem.FrameBytes;
    RowReplace(m.ram, m.ps, f, m.Stored(pid, n), g);
  }

  lemma LoadFrames(m: Mem, pid: nat, n: nat, f: nat)
    requires FramesExcept(m, {f}) && m.Has(pid, n) && !m.tables[pid][n].present
    ensures Frames(Load(m, pid, n, f))
  {
    assert f in {f};
    LoadFits(m, pid, n, f);
    var m' := Load(m, pid, n, f);
    forall q: nat, k: nat | m'.Has(q, k)
      ensures EntryShape(m'.tables[q][k])
    {
      assert m.Has(q, k);
    }
    forall q: nat, k: nat, g: int | m'.Owns(q, k, g)
      ensures if q == pid && k == n then g == f else m.Owns(q, k, g)
    {
    }
    forall g: int | 0 <= g < |m'.bitmap| && m'.bitmap[g]
      ensures exists q: nat, k: nat :: m'.Owns(q, k, g)
    {
      if g == f {
        assert m'.Owns(pid, n, f);
      } else {
        var q: nat, k: nat :| m.Owns(q, k, g);
        assert m'.Owns(q, k, g);
      }
    }
  }

  /** Swap-in changes no byte any process sees, and a page just loaded is clean. */
  lemma LoadView(m: Mem, pid: nat, n: nat, f: nat)
    requires FramesExcept(m, {f}) && m.Has(pid, n) && !m.tables[pid][n].present
    ensures SameView(m, Load(m, pid, n, f)) && (Clean(m) <==> Clean(Load(m, pid, n, f)))
  {
    var m' := Load(m, pid, n, f);
    assert forall q: nat, k: nat :: m.Has(q, k) == m'.Has(q, k);
    forall q: nat, k: nat | m.Has(q, k)
      ensures m.Content(q, k) == m'.Content(q, k) && (CleanAt(m, q, k) <==> CleanAt(m', q, k))
    {
      if m'.tables[q][k].present {
        if q == pid && k == n {
          assert f in {f};
        } else {
          assert m.Owns(q, k, m.tables[q][k].frame);
        }
        LoadOther(m, pid, n, f, m'.tables[q][k].frame);
      }
    }
  }

  // ---- storing a chunk through a present page ----

  /** The locked half of a write: RAM is written (when the bounds check passes) and the bits are set. */
  function Store(m: Mem, pid: nat, n: nat, off: nat, data: seq<Byte>): Mem
    requires m.Has(pid, n)
  {
    var p := m.tables[pid][n];
    var addr := p.frame * m.ps + off;
    var ram' := if 0 <= addr && addr + |data| <= |m.ram| then Splice(m.ram, addr, data) else m.ram;
    m.(ram := ram').SetEntry(pid, n, p.(used := true, modified := true))
  }

  lemma StoreFits(m: Mem, pid: nat, n: nat, off: nat, data: seq<Byte>)
    requires Frames(m) && m.Has(pid, n) && m.tables[pid][n].present && off + |data| <= m.ps
    ensures 0 <= m.tables[pid][n].frame < |m.bitmap|
    ensures m.tables[pid][n].frame * m.ps >= 0 && m.tables[pid][n].frame * m.ps + off + |data| <= |m.ram|
  {
    assert m.Owns(pid, n, m.tables[pid][n].frame);
    FrameFits(m, m.tables[pid][n].frame);
  }

  lemma StoreExact(m: Mem, pid: nat, n: nat, off: nat, data: seq<Byte>)
    requires Frames(m) && m.Has(pid, n) && m.tables[pid][n].present && off + |data| <= m.ps
    ensures var addr := m.tables[pid][n].frame * m.ps + off;
            && 0 <= addr && addr + |data| <= |m.ram|
            && Store(m, pid, n, off, data) ==
               m.(ram := Splice(m.ram, addr, data)).SetEntry(pid, n, m.tables[pid][n].(used := true, modified := true))
  {
    StoreFits(m, pid, n, off, data);
  }

  lemma StoreFrames(m: Mem, pid: nat, n: nat, off: nat, data: seq<Byte>)
    requires Frames(m) && m.Has(pid, n) && m.tables[pid][n].present && off + |data| <= m.ps
    ensures Frames(Store(m, pid, n, off, data))
  {
    StoreFits(m, pid, n, off, data);
    var m' := Store(m, pid, n, off, data);
    SameOwners(m, m');
  }

  /** Entries may change their modified and used bits, but nothing that ownership depends on. */
  ghost predicate SameOwnership(m: Mem, m': Mem) {
    && m'.tables.Keys == m.tables.Keys
    && (forall pid :: pid in m.tables ==> |m'.tables[pid]| == |m.tables[pid]|)
    && (forall pid: nat, n: nat :: m.Has(pid, n) ==>
          && m'.tables[pid][n].frame == m.tables[pid][n].frame
          && m'.tables[pid][n].present == m.tables[pid][n].present
          && EntryShape(m'.tables[pid][n]))
  }

  lemma SameOwners(m: Mem, m': Mem)
    requires Frames(m) && SameOwnership(m, m')
    requires m'.ps == m.ps && m'.bitmap == m.bitmap && |m'.ram| == |m.ram| && m'.swap == m.swap
    ensures Frames(m')
  {
    assert forall q: nat, k: nat :: m.Has(q, k) == m'.Has(q, k);
    assert forall q: nat, k: nat, g: int :: m.Owns(q, k, g) == m'.Owns(q, k, g);
    forall g: int | 0 <= g < |m'.bitmap| && m'.bitmap[g]
      ensures exists q: nat, k: nat :: m'.Owns(q, k, g)
    {
      var q: nat, k: nat :| m.Owns(q, k, g);
      assert m'.Owns(q, k, g);
    }
  }

  lemma StoreFrameBytes(m: Mem, pid: nat, n: nat, off: nat, data: seq<Byte>, g: int)
    requires Frames(m) && m.Has(pid, n) && m.tables[pid][n].present && off + |data| <= m.ps
    requires 0 <= g < |m.bitmap|
    ensures |m.FrameBytes(g)| == m.ps
    ensures Store(m, pid, n, off, data).FrameBytes(g) ==
            if g == m.tables[pid][n].frame then Splice(m.FrameBytes(g), off, data) else m.FrameBytes(g)
  {
    StoreFits(m, pid, n, off, data);
    StoreExact(m, pid, n, off, data);
    var f := m.tables[pid][n].frame;
    FrameFits(m, f);
    FrameFits(m, g);
    hide Frames, Splice, Store;
    FrameFits(Store(m, pid, n, off, data), g);
    hide Mem.FrameBytes, Row;
    RowWrite(m.ram, m.ps, f, off, data, g);
  }

  /** A store splices exactly its range of exactly its page. */
  lemma StoreContent(m: Mem, pid: nat, n: nat, off: nat, data: seq<Byte>)
    requires Frames(m) && m.Has(pid, n) && m.tables[pid][n].present && off + |data| <= m.ps
    ensures |m.Content(pid, n)| == m.ps
    ensures forall q: nat, k: nat :: m.Has(q, k) ==>
              && Store(m, pid, n, off, data).Has(q, k)
              && Store(m, pid, n, off, data).Content(q, k) ==
                 if q == pid && k == n then Splice(m.Content(pid, n), off, data) else m.Content(q, k)
  {
    StoreFits(m, pid, n, off, data);
    var f := m.tables[pid][n].frame;
    var m' := Store(m, pid, n, off, data);
    assert m.Owns(pid, n, f);
    StoreFrameBytes(m, pid, n, off, data, f);
    forall q: nat, k: nat | m.Has(q, k)
      ensures m'.Has(q, k)
      ensures m'.Content(q, k) ==
              if q == pid && k == n then Splice(m.Content(pid, n), off, data) else m.Content(q, k)
    {
      if m.tables[q][k].present {
        assert m.Owns(q, k, m.tables[q][k].frame);
        StoreFrameBytes(m, pid, n, off, data, m.tables[q][k].frame);
      }
    }
  }

  lemma StoreClean(m: Mem, pid: nat, n: nat, off: nat, data: seq<Byte>)
    requires Frames(m) && Clean(m) && m.Has(pid, n) && m.tables[pid][n].present && off + |data| <= m.ps
    ensures Clean(Store(m, pid, n, off, data))
  {
    StoreFits(m, pid, n, off, data);
    var m' := Store(m, pid, n, off, data);
    assert m.Owns(pid, n, m.tables[pid][n].frame);
    forall q: nat, k: nat | m'.Has(q, k)
      ensures CleanAt(m', q, k)
    {
      assert m.Has(q, k) && CleanAt(m, q, k);
      if m.tables[q][k].present {
        assert m.Owns(q, k, m.tables[q][k].frame);
        StoreFrameBytes(m, pid, n, off, data, m.tables[q][k].frame);
      }
    }
  }

  lemma StorePages(m: Mem, pid: nat, n: nat, off: nat, data: seq<Byte>)
    requires Frames(m) && m.Has(pid, n) && m.tables[pid][n].present && off + |data| <= m.ps
    ensures |m.Pages(pid)[n]| == m.ps
    ensures Store(m, pid, n, off, data).Pages(pid) == m.Pages(pid)[n := Splice(m.Pages(pid)[n], off, data)]
    ensures forall q :: q in m.tables && q != pid ==> Store(m, pid, n, off, data).Pages(q) == m.Pages(q)
  {
    StoreContent(m, pid, n, off, data);
    var m' := Store(m, pid, n, off, data);
    forall q | q in m.tables
      ensures m'.Pages(q) ==
              if q == pid then m.Pages(pid)[n := Splice(m.Pages(pid)[n], off, data)] else m.Pages(q)
    {
      var rows := if q == pid then m.Pages(pid)[n := Splice(m.Pages(pid)[n], off, data)] else m.Pages(q);
      forall k: nat | k < |rows|
        ensures m'.Pages(q)[k] == rows[k]
      {
        assert m.Has(q, k);
      }
    }
  }

  /** On the flat address space a store is a splice at n * ps + off, and other processes see nothing. */
  lemma StoreFlat(m: Mem, pid: nat, n: nat, off: nat, data: seq<Byte>)
    requires Frames(m) && m.Has(pid, n) && m.tables[pid][n].present && off + |data| <= m.ps
    ensures n * m.ps + off + |data| <= |m.Flat(pid)| && n * m.ps >= 0
    ensures Store(m, pid, n, off, data).Flat(pid) == Splice(m.Flat(pid), n * m.ps + off, data)
    ensures forall q :: q in m.tables && q != pid ==> Store(m, pid, n, off, data).Flat(q) == m.Flat(q)
  {
    hide FramesExcept, Store, Splice, Flatten, Mem.Pages, Mem.Content;
    StorePages(m, pid, n, off, data);
    ContentWidth(m, pid);
    RowStart(n, m.ps);
    FlattenWrite(m.Pages(pid), m.ps, n, off, data);
  }

  lemma RowStart(n: nat, w: nat)
    ensures 0 <= n * w
  {
  }

  // ---- reading ----

  lemma PageInFlat(m: Mem, pid: nat, n: nat, off: nat, len: nat)
    requires Frames(m) && m.Has(pid, n) && off + len <= m.ps
    ensures |m.Content(pid, n)| == m.ps
    ensures n * m.ps >= 0 && n * m.ps + off + len <= |m.Flat(pid)|
    ensures m.Flat(pid)[n * m.ps + off..n * m.ps + off + len] == m.Content(pid, n)[off..off + len]
  {
    ContentWidth(m, pid);
    RowBounds(n, n + 1, m.ps);
    FlattenRead(m.Pages(pid), m.ps, n, off, len);
    assert m.Pages(pid)[n] == m.Content(pid, n);
  }

  /** Bytes [off, off+len) of page n are bytes [n*ps+off, ...) of the flat address space. */
  lemma ReadFlat(m: Mem, pid: nat, n: nat, off: nat, len: nat)
    requires Frames(m) && m.Has(pid, n) && m.tables[pid][n].present && off + len <= m.ps
    ensures 0 <= m.tables[pid][n].frame
    ensures m.tables[pid][n].frame * m.ps >= 0 && m.tables[pid][n].frame * m.ps + off + len <= |m.ram|
    ensures n * m.ps >= 0 && n * m.ps + off + len <= |m.Flat(pid)|
    ensures m.ram[m.tables[pid][n].frame * m.ps + off..m.tables[pid][n].frame * m.ps + off + len]
            == m.Flat(pid)[n * m.ps + off..n * m.ps + off + len]
  {
    hide Mem.Flat, Mem.Stored;
    var f := m.tables[pid][n].frame;
    assert m.Owns(pid, n, f);
    FrameFits(m, f);
    RowRead(m.ram, m.ps, f, off, len);
    PageInFlat(m, pid, n, off, len);
  }

  // ---- creating, dropping and resizing page tables ----

  function AbsentPages(k: nat): (t: seq<Page>)
    ensures |t| == k
  {
    seq(k, _ => ABSENT)
  }

  /** The table of pid replaced by another one. */
  function SetTable(m: Mem, pid: nat, t: seq<Page>): Mem {
    m.(tables := m.tables[pid := t])
  }

  /** Frames owned by the pages of pid from number `from` on. */
  ghost function OwnedFrom(m: Mem, pid: nat, from: nat): set<int>
    requires pid in m.tables
  {
    set n: nat | from <= n < |m.tables[pid]| && m.tables[pid][n].present :: m.tables[pid][n].frame
  }

  lemma AppendFrames(m: Mem, pid: nat)
    requires Frames(m) && pid in m.tables
    ensures Frames(SetTable(m, pid, m.tables[pid] + [ABSENT]))
  {
    var m' := SetTable(m, pid, m.tables[pid] + [ABSENT]);
    Retabled(m, m');
    forall q: nat, k: nat | m'.Has(q, k)
      ensures EntryShape(m'.tables[q][k])
    {
      if m.Has(q, k) { assert EntryShape(m.tables[q][k]); }
    }
  }

  lemma NewTableFrames(m: Mem, pid: nat, k: nat)
    requires Frames(m) && pid !in m.tables
    ensures Frames(SetTable(m, pid, AbsentPages(k)))
  {
    var m' := SetTable(m, pid, AbsentPages(k));
    Retabled(m, m');
    forall q: nat, j: nat | m'.Has(q, j)
      ensures EntryShape(m'.tables[q][j])
    {
      if q != pid { assert m.Has(q, j); }
    }
  }

  /** Adding absent pages does not touch ownership. */
  lemma Retabled(m: Mem, m': Mem)
    requires Frames(m)
    requires m'.ps == m.ps && m'.bitmap == m.bitmap && m'.ram == m.ram && m'.swap == m.swap
    requires forall q: nat, k: nat :: m.Has(q, k) ==> m'.Has(q, k) && m'.tables[q][k] == m.tables[q][k]
    requires forall q: nat, k: nat :: m'.Has(q, k) && !m.Has(q, k) ==> m'.tables[q][k] == ABSENT
    ensures Frames(m')
  {
    assert forall q: nat, k: nat, g: int :: m.Owns(q, k, g) == m'.Owns(q, k, g);
    forall q: nat, k: nat | m'.Has(q, k)
      ensures EntryShape(m'.tables[q][k])
    {
      if m.Has(q, k) { assert EntryShape(m.tables[q][k]); }
    }
    forall g: int | 0 <= g < |m'.bitmap| && m'.bitmap[g]
      ensures exists q: nat, k: nat :: m'.Owns(q, k, g)
    {
      var q: nat, k: nat :| m.Owns(q, k, g);
      assert m'.Owns(q, k, g);
    }
  }

  /** Cutting the table of pid to its first `keep` pages leaves the frames of the others reserved. */
  lemma CutFrames(m: Mem, m': Mem, pid: nat, keep: nat)
    requires Frames(m) && pid in m.tables && keep <= |m.tables[pid]|
    requires m' == SetTable(m, pid, m.tables[pid][..keep]) || (keep == 0 && m' == m.(tables := m.tables - {pid}))
    ensures FramesExcept(m', OwnedFrom(m, pid, keep))
  {
    var R := OwnedFrom(m, pid, keep);
    assert forall q: nat, k: nat :: m'.Has(q, k) <==> m.Has(q, k) && (q != pid || k < keep);
    forall q: nat, k: nat | m'.Has(q, k)
      ensures EntryShape(m'.tables[q][k])
    {
      assert m.Has(q, k) && EntryShape(m.tables[q][k]);
      assert m'.tables[q][k] == m.tables[q][k];
    }
    assert forall q: nat, k: nat, g: int :: m'.Owns(q, k, g) <==> m.Owns(q, k, g) && (q != pid || k < keep);
    CutReserved(m, pid, keep);
    forall g: int | 0 <= g < |m'.bitmap| && m'.bitmap[g] && g !in R
      ensures exists q: nat, k: nat :: m'.Owns(q, k, g)
    {
      var q: nat, k: nat :| m.Owns(q, k, g);
      assert m'.Owns(q, k, g);
    }
  }

  lemma CutReserved(m: Mem, pid: nat, keep: nat)
    requires Frames(m) && pid in m.tables && keep <= |m.tables[pid]|
    ensures forall q: nat, k: nat, g: int :: m.Owns(q, k, g) ==>
              (g in OwnedFrom(m, pid, keep) <==> q == pid && keep <= k)
    ensures forall f :: f in OwnedFrom(m, pid, keep) ==> 0 <= f < |m.bitmap| && m.bitmap[f]
  {
    forall f | f in OwnedFrom(m, pid, keep)
      ensures exists n: nat :: keep <= n && m.Owns(pid, n, f)
    {
      var n: nat :| keep <= n < |m.tables[pid]| && m.tables[pid][n].present && m.tables[pid][n].frame == f;
      assert m.Owns(pid, n, f);
    }
  }

  /** Pages that were there already keep their copies, and new ones are absent. */
  lemma TablesClean(m: Mem, m': Mem)
    requires Clean(m) && m'.ps == m.ps && m'.ram == m.ram
    requires forall q: nat, k: nat :: m'.Has(q, k) ==>
               if m.Has(q, k) then m'.tables[q][k] == m.tables[q][k] && m'.Stored(q, k) == m.Stored(q, k)
               else m'.tables[q][k] == ABSENT
    ensures Clean(m')
  {
    forall q: nat, k: nat | m'.Has(q, k)
      ensures CleanAt(m', q, k)
    {
      if m.Has(q, k) { assert CleanAt(m, q, k); }
    }
  }

  /** Giving back one reserved frame. */
  lemma ReleaseFrames(m: Mem, R: set<int>, f: int)
    requires FramesExcept(m, R) && f in R
    ensures 0 <= f < |m.bitmap|
    ensures FramesExcept(m.(bitmap := m.bitmap[f := false]), R - {f})
  {
    var m' := m.(bitmap := m.bitmap[f := false]);
    assert forall q: nat, k: nat :: m.Has(q, k) == m'.Has(q, k);
    assert forall q: nat, k: nat, g: int :: m.Owns(q, k, g) == m'.Owns(q, k, g);
    forall q: nat, k: nat | m'.Has(q, k)
      ensures EntryShape(m'.tables[q][k])
    {
      assert m.Has(q, k);
    }
    forall g: int | 0 <= g < |m'.bitmap| && m'.bitmap[g] && g !in R - {f}
      ensures exists q: nat, k: nat :: m'.Owns(q, k, g)
    {
      var q: nat, k: nat :| m.Owns(q, k, g);
      assert m'.Owns(q, k, g);
    }
  }

  /** A process whose entries, RAM and stored pages are unchanged sees the same bytes. */
  lemma PagesSame(m: Mem, m': Mem, pid: nat)
    requires pid in m.tables && pid in m'.tables && m'.tables[pid] == m.tables[pid]
    requires m'.ram == m.ram && m'.ps == m.ps
    requires (pid in m.swap <==> pid in m'.swap) && (pid in m.swap ==> m.swap[pid] == m'.swap[pid])
    ensures m'.Flat(pid) == m.Flat(pid)
  {
    forall n: nat | n < |m.tables[pid]|
      ensures m'.Pages(pid)[n] == m.Pages(pid)[n]
    {
      assert m.Stored(pid, n) == m'.Stored(pid, n);
      assert m.FrameBytes(m.tables[pid][n].frame) == m'.FrameBytes(m.tables[pid][n].frame);
    }
    assert m'.Pages(pid) == m.Pages(pid);
  }

  /** Bytes a process gets for the pages [from, to) that it did not have before: the stored copies. */
  function Restored(m: Mem, pid: nat, from: nat, to: nat): seq<seq<Byte>>
    requires from <= to
  {
    seq(to - from, i requires 0 <= i => m.Stored(pid, from + i))
  }

  lemma {:induction false} ZeroFlat(rows: seq<seq<Byte>>, w: nat)
    requires forall i: nat :: i < |rows| ==> rows[i] == Zeros(w)
    ensures |rows| * w >= 0 && Flatten(rows) == Zeros(|rows| * w)
  {
    if rows != [] {
      ZeroFlat(rows[1..], w);
      assert |rows| * w == w + (|rows| - 1) * w;
    }
  }

  // ---- flat effect of changing the tables ----

  /** A table cut to, or extended with absent pages to, k entries. */
  function Resized(t: seq<Page>, k: nat): (r: seq<Page>)
    ensures |r| == k
  {
    if k <= |t| then t[..k] else t + AbsentPages(k - |t|)
  }

  lemma ResizedStep(t: seq<Page>, i: nat)
    ensures Resized(t, |t|) == t
    ensures |t| <= i ==> Resized(t, i) + [ABSENT] == Resized(t, i + 1)
    ensures 0 < i <= |t| ==> Resized(t, i)[..i - 1] == Resized(t, i - 1)
  {
  }

  lemma NewTableFlat(m: Mem, m': Mem, pid: nat, k: nat)
    requires pid !in m.tables && pid !in m.swap && m'.tables == m.tables[pid := AbsentPages(k)]
    requires m'.ps == m.ps && m'.ram == m.ram && m'.swap == m.swap
    ensures k * m.ps >= 0 && m'.Flat(pid) == Zeros(k * m.ps)
    ensures forall q :: q in m.tables ==> m'.Flat(q) == m.Flat(q)
  {
    ZeroFlat(m'.Pages(pid), m.ps);
    forall q | q in m.tables
      ensures m'.Flat(q) == m.Flat(q)
    {
      PagesSame(m, m', q);
    }
  }

  lemma DroppedFlat(m: Mem, m': Mem, pid: nat)
    requires m'.tables == m.tables - {pid} && m'.ps == m.ps && m'.ram == m.ram
    requires m'.swap == m.swap || m'.swap == m.swap - {pid}
    ensures forall q :: q in m'.tables ==> m'.Flat(q) == m.Flat(q)
  {
    forall q | q in m'.tables
      ensures m'.Flat(q) == m.Flat(q)
    {
      PagesSame(m, m', q);
    }
  }

  lemma ShrunkFlat(m: Mem, m': Mem, pid: nat, k: nat)
    requires Frames(m) && pid in m.tables && k <= |m.tables[pid]| && m'.tables == m.tables[pid := m.tables[pid][..k]]
    requires m'.ps == m.ps && m'.ram == m.ram && m'.swap == m.swap
    ensures 0 <= k * m.ps <= |m.Flat(pid)| && m'.Flat(pid) == m.Flat(pid)[..k * m.ps]
  {
    ContentWidth(m, pid);
    FlattenSplit(m.Pages(pid), k);
    FlattenLength(m.Pages(pid)[..k], m.ps);
    forall n: nat | n < k
      ensures m'.Pages(pid)[n] == m.Pages(pid)[n]
    {
      assert m.Stored(pid, n) == m'.Stored(pid, n);
    }
    assert m'.Pages(pid) == m.Pages(pid)[..k];
  }

  /** Growing a process appends what its swap file still holds for the new pages. */
  lemma GrownFlat(m: Mem, m': Mem, pid: nat, k: nat)
    requires pid in m.tables && |m.tables[pid]| <= k
    requires m'.tables == m.tables[pid := m.tables[pid] + AbsentPages(k - |m.tables[pid]|)]
    requires m'.ps == m.ps && m'.ram == m.ram && m'.swap == m.swap
    ensures m'.Flat(pid) == m.Flat(pid) + Flatten(Restored(m, pid, |m.tables[pid]|, k))
  {
    var old_k := |m.tables[pid]|;
    forall n: nat | n < k
      ensures m'.Pages(pid)[n] == (m.Pages(pid) + Restored(m, pid, old_k, k))[n]
    {
      assert m.Stored(pid, n) == m'.Stored(pid, n);
      assert n < old_k ==> m'.tables[pid][n] == m.tables[pid][n];
    }
    var rows := m.Pages(pid) + Restored(m, pid, old_k, k);
    assert m'.Pages(pid) == rows;
    FlattenSplit(rows, old_k);
    assert rows[..old_k] == m.Pages(pid) && rows[old_k..] == Restored(m, pid, old_k, k);
  }

  /** The stored part of what growing restores ends with the swap file; beyond it there are zeros. */
  lemma RestoredZeros(m: Mem, pid: nat, from: nat, to: nat, h: nat)
    requires Frames(m) && from <= to && (pid in m.swap ==> |m.swap[pid]| <= h)
    ensures |Flatten(Restored(m, pid, from, to))| == (to - from) * m.ps
    ensures forall a: nat :: a < |Flatten(Restored(m, pid, from, to))| && h <= from + a / m.ps ==>
              Flatten(Restored(m, pid, from, to))[a] == 0
  {
    var rows := Restored(m, pid, from, to);
    forall i: nat | i < |rows|
      ensures |rows[i]| == m.ps && (h <= from + i ==> rows[i] == Zeros(m.ps))
    {
      assert rows[i] == m.Stored(pid, from + i);
    }
    FlattenLength(rows, m.ps);
    forall a: nat | a < |Flatten(rows)| && h <= from + a / m.ps
      ensures Flatten(rows)[a] == 0
    {
      DivMod(a, m.ps);
      PageInside(a, m.ps, |rows|);
      FlattenRead(rows, m.ps, a / m.ps, a % m.ps, 1);
      assert rows[a / m.ps] == Zeros(m.ps);
      assert Flatten(rows)[a..a + 1][0] == rows[a / m.ps][a % m.ps..a % m.ps + 1][0];
    }
  }
}
