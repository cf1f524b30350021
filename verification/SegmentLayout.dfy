// Where segments and free blocks lie, on values: what each request does to the layout, that no address is lost or
// given twice, and when the free list stays in order.
module SegmentLayout {
  import opened Bytes
  import opened FreeList
  import opened SegmentSpace

  datatype Seg = Seg(base: nat, limit: nat)

  datatype Layout = Layout(free: seq<Block>, segs: map<nat, Seg>)

  ghost predicate InSeg(segs: map<nat, Seg>, pid: nat, a: int) {
    pid in segs && segs[pid].base <= a < segs[pid].base + segs[pid].limit
  }

  /** Free blocks and segments tile [0, total): every address is free, once, or in exactly one segment. */
  ghost predicate Tiled(l: Layout, total: nat) {
    && Disjoint(l.free) && Within(l.free, total)
    && (forall pid :: pid in l.segs ==> l.segs[pid].base + l.segs[pid].limit <= total)
    && (forall pid: nat, a: int :: InSeg(l.segs, pid, a) ==> !InFree(l.free, a))
    && (forall p: nat, q: nat, a: int :: InSeg(l.segs, p, a) && InSeg(l.segs, q, a) ==> p == q)
    && (forall a: int :: 0 <= a < total ==> InFree(l.free, a) || exists pid: nat :: InSeg(l.segs, pid, a))
  }

  // ---- what requests do ----

  /** The segment is at the front of the lowest block that is big enough. */
  ghost predicate CreatedFirst(l: Layout, l': Layout, pid: nat, size: nat) {
    exists i: nat :: FirstFit(l.free, size, i) &&
      l' == Layout(Take(l.free, i, size), l.segs[pid := Seg(l.free[i].base, size)])
  }

  function Whole(s: Seg): Block {
    Block(s.base, s.limit)
  }

  function Destroyed(l: Layout, pid: nat): Layout {
    if pid in l.segs then Layout(Return(l.free, Whole(l.segs[pid])), l.segs - {pid}) else l
  }

  function Shrunk(l: Layout, pid: nat, size: nat): Layout
    requires pid in l.segs && size <= l.segs[pid].limit
  {
    var s := l.segs[pid];
    Layout(Return(l.free, Block(s.base + size, s.limit - size)), l.segs[pid := Seg(s.base, size)])
  }

  /** Block j starts right after the segment and has room for the growth. */
  predicate ExtendsAt(free: seq<Block>, s: Seg, size: nat, j: nat) {
    j < |free| && free[j].base == s.base + s.limit && s.limit < size && size - s.limit <= free[j].size
  }

  ghost predicate CanExtend(free: seq<Block>, s: Seg, size: nat) {
    exists j: nat :: ExtendsAt(free, s, size, j)
  }

  function Extended(l: Layout, pid: nat, size: nat, j: nat): Layout
    requires pid in l.segs && ExtendsAt(l.free, l.segs[pid], size, j)
  {
    var s := l.segs[pid];
    Layout(Take(l.free, j, size - s.limit), l.segs[pid := Seg(s.base, size)])
  }

  function Relocated(l: Layout, pid: nat, size: nat, i: nat): Layout
    requires pid in l.segs && i < |l.free| && size <= l.free[i].size
  {
    Layout(Return(Take(l.free, i, size), Whole(l.segs[pid])), l.segs[pid := Seg(l.free[i].base, size)])
  }

  ghost predicate CanResize(free: seq<Block>, s: Seg, size: nat) {
    size <= s.limit || CanExtend(free, s, size) || exists i: nat :: FirstFit(free, size, i)
  }

  /** A resized segment stays where it is if it can, and otherwise goes to the lowest block that is big enough. */
  ghost predicate Placed(l: Layout, l': Layout, pid: nat, size: nat)
    requires pid in l.segs
  {
    var s := l.segs[pid];
    if size == s.limit then l' == l
    else if size < s.limit then l' == Shrunk(l, pid, size)
    else if CanExtend(l.free, s, size) then
      exists j: nat :: ExtendsAt(l.free, s, size, j) && l' == Extended(l, pid, size, j)
    else exists i: nat :: FirstFit(l.free, size, i) && l' == Relocated(l, pid, size, i)
  }

  /** Whether a request succeeds and what it does to the layout. */
  ghost predicate Move(l: Layout, op: SegOp, ok: bool, l': Layout) {
    match op
    case Create(pid, size) =>
      && (ok <==> pid !in l.segs && exists i: nat :: FirstFit(l.free, size, i))
      && if ok then CreatedFirst(l, l', pid, size) else l' == l
    case Destroy(pid) =>
      ok && l' == Destroyed(l, pid)
    case Resize(pid, size) =>
      && (ok <==> pid in l.segs && CanResize(l.free, l.segs[pid], size))
      && if ok then Placed(l, l', pid, size) else l' == l
    case _ =>
      l' == l
  }

  // ---- where segments go, read off the free list ----

  /** A new process gets the front of the lowest block with room for it, and is refused exactly when there is none or
      the pid is taken. */
  lemma CreateLowest(l: Layout, pid: nat, size: nat, ok: bool, l': Layout)
    requires Move(l, Create(pid, size), ok, l')
    ensures ok <==> pid !in l.segs && exists k: nat :: k < |l.free| && size <= l.free[k].size
    ensures ok ==> && pid in l'.segs && l'.segs == l.segs[pid := l'.segs[pid]] && l'.segs[pid].limit == size
                   && exists k: nat :: k < |l.free| && size <= l.free[k].size && l'.segs[pid].base == l.free[k].base
                                       && forall j: nat :: j < k ==> l.free[j].size < size
  {
    hide Take;
    SomeFits(l.free, size);
    if ok {
      var k: nat :| FirstFit(l.free, size, k) &&
        l' == Layout(Take(l.free, k, size), l.segs[pid := Seg(l.free[k].base, size)]);
      assert k < |l.free| && size <= l.free[k].size && forall j: nat :: j < k ==> l.free[j].size < size;
    }
  }

  /** In a list in order this is the lowest address at which the process fits. */
  lemma CreateAtLowestAddress(l: Layout, pid: nat, size: nat, ok: bool, l': Layout)
    requires Move(l, Create(pid, size), ok, l') && ok && Sorted(l.free)
    ensures pid in l'.segs
    ensures forall j: nat :: j < |l.free| && size <= l.free[j].size ==> l'.segs[pid].base <= l.free[j].base
  {
    CreateLowest(l, pid, size, ok, l');
    hide Move;
    var k: nat :| k < |l.free| && size <= l.free[k].size && l'.segs[pid].base == l.free[k].base
                  && forall j: nat :: j < k ==> l.free[j].size < size;
    assert forall j: nat :: k < j < |l.free| ==> l.free[k].End() < l.free[j].base;
  }

  /** If any block is big enough, there is a first one. */
  lemma SomeFits(free: seq<Block>, size: nat)
    ensures (exists k: nat :: k < |free| && size <= free[k].size) <==> exists i: nat :: FirstFit(free, size, i)
  {
    if k: nat :| k < |free| && size <= free[k].size {
      var i := FirstBelow(free, size, k);
    }
  }

  lemma {:induction false} FirstBelow(free: seq<Block>, size: nat, k: nat) returns (i: nat)
    requires k < |free| && size <= free[k].size
    ensures FirstFit(free, size, i)
  {
    if j: nat :| j < k && size <= free[j].size {
      i := FirstBelow(free, size, j);
    } else {
      i := k;
    }
  }

  /** A resize succeeds exactly when the segment does not grow, or the block that starts right after it has room for the
      growth, or some block has room for the whole new size. In the first two cases it stays where it is; in the last
      it goes to the front of the lowest block with room. */
  lemma ResizePlaces(l: Layout, pid: nat, size: nat, ok: bool, l': Layout)
    requires Move(l, Resize(pid, size), ok, l')
    ensures pid !in l.segs ==> !ok
    ensures pid in l.segs ==>
              var s := l.segs[pid];
              var stays := size <= s.limit || exists k: nat :: k < |l.free| && l.free[k].base == s.base + s.limit
                                                               && size - s.limit <= l.free[k].size;
              && (ok <==> stays || exists k: nat :: k < |l.free| && size <= l.free[k].size)
              && (ok ==> && pid in l'.segs && l'.segs == l.segs[pid := l'.segs[pid]] && l'.segs[pid].limit == size
                         && if stays then l'.segs[pid].base == s.base
                            else exists k: nat :: k < |l.free| && size <= l.free[k].size
                                                  && l'.segs[pid].base == l.free[k].base
                                                  && forall j: nat :: j < k ==> l.free[j].size < size)
  {
    SomeFits(l.free, size);
    if pid in l.segs && l.segs[pid].limit < size {
      GrowPlaces(l, pid, size, ok, l');
    }
  }

  lemma GrowPlaces(l: Layout, pid: nat, size: nat, ok: bool, l': Layout)
    requires Move(l, Resize(pid, size), ok, l') && pid in l.segs && l.segs[pid].limit < size
    ensures var s := l.segs[pid];
            CanExtend(l.free, s, size) <==>
            exists k: nat :: k < |l.free| && l.free[k].base == s.base + s.limit && size - s.limit <= l.free[k].size
    ensures ok && !CanExtend(l.free, l.segs[pid], size) ==>
              exists k: nat :: k < |l.free| && size <= l.free[k].size
                               && l'.segs == l.segs[pid := Seg(l.free[k].base, size)]
                               && forall j: nat :: j < k ==> l.free[j].size < size
  {
    var s := l.segs[pid];
    if k: nat :| k < |l.free| && l.free[k].base == s.base + s.limit && size - s.limit <= l.free[k].size {
      assert ExtendsAt(l.free, s, size, k);
    }
    if j: nat :| ExtendsAt(l.free, s, size, j) {
      assert l.free[j].base == s.base + s.limit;
    }
    if ok && !CanExtend(l.free, s, size) {
      var i: nat :| FirstFit(l.free, size, i) && l' == Relocated(l, pid, size, i);
      assert i < |l.free| && size <= l.free[i].size && forall j: nat :: j < i ==> l.free[j].size < size;
    }
  }

  /** A request has one outcome. */
  lemma MoveDeterministic(l: Layout, op: SegOp, a: bool, la: Layout, b: bool, lb: Layout, total: nat)
    requires Tiled(l, total) && Move(l, op, a, la) && Move(l, op, b, lb)
    ensures la == lb && (op.Create? || op.Destroy? || op.Resize? ==> a == b)
  {
    hide Return, Take;
    match op
    case Create(pid, size) =>
      if a {
        var i: nat :| FirstFit(l.free, size, i) &&
          la == Layout(Take(l.free, i, size), l.segs[pid := Seg(l.free[i].base, size)]);
        var j: nat :| FirstFit(l.free, size, j) &&
          lb == Layout(Take(l.free, j, size), l.segs[pid := Seg(l.free[j].base, size)]);
        FirstFitUnique(l.free, size, i, j);
      }
    case Resize(pid, size) =>
      if a && l.segs[pid].limit < size {
        GrowDeterministic(l, pid, size, la, lb, total);
      }
    case _ =>
  }

  lemma GrowDeterministic(l: Layout, pid: nat, size: nat, la: Layout, lb: Layout, total: nat)
    requires Tiled(l, total) && pid in l.segs && l.segs[pid].limit < size
    requires Placed(l, la, pid, size) && Placed(l, lb, pid, size)
    ensures la == lb
  {
    hide Extended, Relocated;
    var s := l.segs[pid];
    if CanExtend(l.free, s, size) {
      var i: nat :| ExtendsAt(l.free, s, size, i) && la == Extended(l, pid, size, i);
      var j: nat :| ExtendsAt(l.free, s, size, j) && lb == Extended(l, pid, size, j);
      assert i < j ==> Clear(l.free[i], l.free[j]);
      assert j < i ==> Clear(l.free[j], l.free[i]);
    } else {
      var i: nat :| FirstFit(l.free, size, i) && la == Relocated(l, pid, size, i);
      var j: nat :| FirstFit(l.free, size, j) && lb == Relocated(l, pid, size, j);
      FirstFitUnique(l.free, size, i, j);
    }
  }

  lemma FirstFitUnique(free: seq<Block>, n: nat, i: nat, j: nat)
    requires FirstFit(free, n, i) && FirstFit(free, n, j)
    ensures i == j
  {
  }

  // ---- no address is lost or given twice ----

  lemma OneFreeBlock(total: nat)
    ensures Tiled(Layout([Block(0, total)], map[]), total)
  {
    var free := [Block(0, total)];
    forall a: int | 0 <= a < total
      ensures InFree(free, a)
    {
      assert free[0].Has(a);
    }
  }

  lemma FreeInside(free: seq<Block>, total: nat, a: int)
    requires Within(free, total) && InFree(free, a)
    ensures 0 <= a < total
  {
  }

  /** Part of a segment overlaps no free block. */
  lemma PartApart(l: Layout, total: nat, pid: nat, from: nat)
    requires Tiled(l, total) && pid in l.segs && from <= l.segs[pid].limit
    ensures Apart(l.free, Block(l.segs[pid].base + from, l.segs[pid].limit - from))
  {
    var b := Block(l.segs[pid].base + from, l.segs[pid].limit - from);
    forall i: nat | i < |l.free|
      ensures Clear(l.free[i], b)
    {
      var f := l.free[i];
      var a := if f.base < b.base then b.base else f.base;
      assert f.Has(a) ==> InFree(l.free, a);
      assert b.Has(a) ==> InSeg(l.segs, pid, a);
    }
  }

  /** The free addresses are now those of `free`, minus `gone`, plus `back`, each still free once. */
  ghost predicate FreeChange(free: seq<Block>, free': seq<Block>, total: nat, gone: Block, back: Block) {
    && Disjoint(free') && Within(free', total)
    && forall a: int :: InFree(free', a) <==> (InFree(free, a) && !gone.Has(a)) || back.Has(a)
  }

  const NOTHING := Block(0, 0)

  lemma Taken(free: seq<Block>, total: nat, i: nat, n: nat)
    requires Disjoint(free) && Within(free, total) && i < |free| && n <= free[i].size
    ensures FreeChange(free, Take(free, i, n), total, Block(free[i].base, n), NOTHING) && free[i].base + n <= total
    ensures forall a: int :: Block(free[i].base, n).Has(a) ==> InFree(free, a)
  {
    TakeExact(free, i, n);
    TakeWithin(free, i, n, total);
    forall a: int | Block(free[i].base, n).Has(a)
      ensures InFree(free, a)
    {
      assert free[i].Has(a);
    }
  }

  lemma Returned(free: seq<Block>, total: nat, b: Block)
    requires Disjoint(free) && Within(free, total) && Apart(free, b) && b.End() <= total
    ensures FreeChange(free, Return(free, b), total, NOTHING, b)
  {
    ReturnCovers(free, b, total);
  }

  lemma BothChanges(free: seq<Block>, mid: seq<Block>, free': seq<Block>, total: nat, gone: Block, back: Block)
    requires FreeChange(free, mid, total, gone, NOTHING) && FreeChange(mid, free', total, NOTHING, back)
    ensures FreeChange(free, free', total, gone, back)
  {
  }

  /** Process pid has another segment now (or none); what it left is free and what it took was free. */
  lemma Retile(l: Layout, l': Layout, total: nat, pid: nat, gone: Block, back: Block)
    requires Tiled(l, total) && FreeChange(l.free, l'.free, total, gone, back)
    requires forall a: int :: gone.Has(a) ==> InFree(l.free, a)
    requires forall a: int :: back.Has(a) ==> InSeg(l.segs, pid, a)
    requires forall q :: q != pid ==> (q in l.segs <==> q in l'.segs) && (q in l.segs ==> l'.segs[q] == l.segs[q])
    requires forall a: int :: InSeg(l'.segs, pid, a) <==> (InSeg(l.segs, pid, a) && !back.Has(a)) || gone.Has(a)
    requires pid in l'.segs ==> l'.segs[pid].base + l'.segs[pid].limit <= total
    ensures Tiled(l', total)
  {
    forall a: int | 0 <= a < total
      ensures InFree(l'.free, a) || exists q: nat :: InSeg(l'.segs, q, a)
    {
      if !InFree(l.free, a) {
        var q: nat :| InSeg(l.segs, q, a);
        assert q != pid ==> InSeg(l'.segs, q, a);
        assert q == pid ==> back.Has(a) || InSeg(l'.segs, pid, a);
      } else if gone.Has(a) {
        assert InSeg(l'.segs, pid, a);
      }
    }
    assert forall q: nat, a: int :: q != pid ==> (InSeg(l'.segs, q, a) <==> InSeg(l.segs, q, a));
  }

  lemma CreateTiled(l: Layout, l': Layout, total: nat, pid: nat, size: nat)
    requires Tiled(l, total) && pid !in l.segs && CreatedFirst(l, l', pid, size)
    ensures Tiled(l', total)
  {
    hide Disjoint, Within, InFree, Take;
    var i: nat :| FirstFit(l.free, size, i) &&
      l' == Layout(Take(l.free, i, size), l.segs[pid := Seg(l.free[i].base, size)]);
    Taken(l.free, total, i, size);
    Retile(l, l', total, pid, Block(l.free[i].base, size), NOTHING);
  }

  lemma DestroyTiled(l: Layout, total: nat, pid: nat)
    requires Tiled(l, total)
    ensures Tiled(Destroyed(l, pid), total)
  {
    hide Disjoint, Within, InFree, Return;
    if pid in l.segs {
      PartApart(l, total, pid, 0);
      Returned(l.free, total, Whole(l.segs[pid]));
      Retile(l, Destroyed(l, pid), total, pid, NOTHING, Whole(l.segs[pid]));
    }
  }

  lemma ShrinkTiled(l: Layout, total: nat, pid: nat, size: nat)
    requires Tiled(l, total) && pid in l.segs && size <= l.segs[pid].limit
    ensures Tiled(Shrunk(l, pid, size), total)
  {
    hide Disjoint, Within, InFree, Return;
    var tail := Block(l.segs[pid].base + size, l.segs[pid].limit - size);
    PartApart(l, total, pid, size);
    Returned(l.free, total, tail);
    Retile(l, Shrunk(l, pid, size), total, pid, NOTHING, tail);
  }

  lemma ExtendTiled(l: Layout, total: nat, pid: nat, size: nat, j: nat)
    requires Tiled(l, total) && pid in l.segs && ExtendsAt(l.free, l.segs[pid], size, j)
    ensures Tiled(Extended(l, pid, size, j), total)
  {
    hide Disjoint, Within, InFree, Take;
    var s := l.segs[pid];
    Taken(l.free, total, j, size - s.limit);
    Retile(l, Extended(l, pid, size, j), total, pid, Block(s.base + s.limit, size - s.limit), NOTHING);
  }

  lemma StillApart(free: seq<Block>, b: Block, i: nat, n: nat)
    requires Apart(free, b) && i < |free| && n <= free[i].size
    ensures Apart(Take(free, i, n), b)
  {
    if n == free[i].size {
      WithoutAt(free, i);
    }
  }

  lemma RelocateTiled(l: Layout, total: nat, pid: nat, size: nat, i: nat)
    requires Tiled(l, total) && pid in l.segs && i < |l.free| && size <= l.free[i].size
    ensures Tiled(Relocated(l, pid, size, i), total)
  {
    hide Disjoint, Within, Apart, InFree, Take, Return;
    var old_, base := Whole(l.segs[pid]), l.free[i].base;
    PartApart(l, total, pid, 0);
    StillApart(l.free, old_, i, size);
    Taken(l.free, total, i, size);
    Returned(Take(l.free, i, size), total, old_);
    BothChanges(l.free, Take(l.free, i, size), Relocated(l, pid, size, i).free, total, Block(base, size), old_);
    MovedSegment(l, pid, size, i);
    Retile(l, Relocated(l, pid, size, i), total, pid, Block(base, size), old_);
  }

  lemma MovedSegment(l: Layout, pid: nat, size: nat, i: nat)
    requires pid in l.segs && i < |l.free| && size <= l.free[i].size
    ensures var l' := Relocated(l, pid, size, i);
            && (forall a: int :: Whole(l.segs[pid]).Has(a) <==> InSeg(l.segs, pid, a))
            && (forall a: int :: Block(l.free[i].base, size).Has(a) <==> InSeg(l'.segs, pid, a))
  {
  }

  lemma PlaceTiled(l: Layout, l': Layout, total: nat, pid: nat, size: nat)
    requires Tiled(l, total) && pid in l.segs && Placed(l, l', pid, size)
    ensures Tiled(l', total)
  {
    hide Tiled, Shrunk, Extended, Relocated;
    var s := l.segs[pid];
    if size == s.limit {
    } else if size < s.limit {
      ShrinkTiled(l, total, pid, size);
    } else if CanExtend(l.free, s, size) {
      var j: nat :| ExtendsAt(l.free, s, size, j) && l' == Extended(l, pid, size, j);
      ExtendTiled(l, total, pid, size, j);
    } else {
      var i: nat :| FirstFit(l.free, size, i) && l' == Relocated(l, pid, size, i);
      RelocateTiled(l, total, pid, size, i);
    }
  }

  /** Every request, of whatever size, keeps the tiling. */
  lemma MoveTiled(l: Layout, op: SegOp, ok: bool, l': Layout, total: nat)
    requires Tiled(l, total) && Move(l, op, ok, l')
    ensures Tiled(l', total)
  {
    hide Tiled, CreatedFirst, Destroyed, Placed;
    match op
    case Create(pid, size) => if ok { CreateTiled(l, l', total, pid, size); }
    case Destroy(pid) => DestroyTiled(l, total, pid);
    case Resize(pid, size) => if ok { PlaceTiled(l, l', total, pid, size); }
    case _ =>
  }

  // ---- the order of the free list ----

  ghost predicate EndsAt(free: seq<Block>, base: nat) {
    exists i: nat :: i < |free| && free[i].End() == base
  }

  /** No empty segment gives its place back where no free block ends. */
  ghost predicate KeepsOrder(l: Layout, op: SegOp) {
    match op
    case Destroy(pid) =>
      pid in l.segs && l.segs[pid].limit == 0 ==> EndsAt(l.free, l.segs[pid].base)
    case Resize(pid, size) =>
      pid in l.segs && l.segs[pid].limit == 0 < size && !CanExtend(l.free, l.segs[pid], size) ==>
        forall i: nat :: FirstFit(l.free, size, i) ==> EndsAt(Take(l.free, i, size), l.segs[pid].base)
    case _ => true
  }

  lemma RelocateOrder(l: Layout, total: nat, pid: nat, size: nat, i: nat)
    requires Tiled(l, total) && Sorted(l.free) && pid in l.segs && i < |l.free| && size <= l.free[i].size
    ensures Sorted(Relocated(l, pid, size, i).free) <==>
            0 < l.segs[pid].limit || EndsAt(Take(l.free, i, size), l.segs[pid].base)
  {
    hide Disjoint, Within, Apart, InFree, Take, Return, Sorted;
    PartApart(l, total, pid, 0);
    StillApart(l.free, Whole(l.segs[pid]), i, size);
    TakeExact(l.free, i, size);
    ReturnKeepsOrder(Take(l.free, i, size), Whole(l.segs[pid]));
  }

  lemma PlaceOrder(l: Layout, l': Layout, total: nat, pid: nat, size: nat)
    requires Tiled(l, total) && Sorted(l.free) && pid in l.segs && Placed(l, l', pid, size)
    ensures Sorted(l'.free) <==> KeepsOrder(l, Resize(pid, size))
  {
    hide Tiled, Sorted, Return, Take, EndsAt;
    var s := l.segs[pid];
    if size == s.limit {
    } else if size < s.limit {
      assert Apart(l.free, Block(s.base + size, s.limit - size)) by { PartApart(l, total, pid, size); }
      ReturnKeepsOrder(l.free, Block(s.base + size, s.limit - size));
    } else if CanExtend(l.free, s, size) {
      var j: nat :| ExtendsAt(l.free, s, size, j) && l' == Extended(l, pid, size, j);
      TiledDisjoint(l, total);
      TakeExact(l.free, j, size - s.limit);
    } else {
      var i: nat :| FirstFit(l.free, size, i) && l' == Relocated(l, pid, size, i);
      RelocateOrder(l, total, pid, size, i);
      forall k: nat | FirstFit(l.free, size, k)
        ensures k == i
      {
        FirstFitUnique(l.free, size, i, k);
      }
    }
  }

  lemma TiledDisjoint(l: Layout, total: nat)
    requires Tiled(l, total)
    ensures Disjoint(l.free) && Within(l.free, total)
  {
  }

  /** A request keeps the free list in order exactly when ... */
  lemma MoveKeepsOrder(l: Layout, op: SegOp, ok: bool, l': Layout, total: nat)
    requires Tiled(l, total) && Sorted(l.free) && Move(l, op, ok, l')
    ensures Sorted(l'.free) <==> KeepsOrder(l, op)
  {
    hide Tiled, Sorted, Return, Take, Placed;
    match op
    case Create(pid, size) =>
      if ok {
        TiledDisjoint(l, total);
        var i: nat :| FirstFit(l.free, size, i) &&
          l' == Layout(Take(l.free, i, size), l.segs[pid := Seg(l.free[i].base, size)]);
        TakeExact(l.free, i, size);
      }
    case Destroy(pid) =>
      if pid in l.segs {
        PartApart(l, total, pid, 0);
        ReturnKeepsOrder(l.free, Whole(l.segs[pid]));
      }
    case Resize(pid, size) =>
      if ok {
        PlaceOrder(l, l', total, pid, size);
      }
    case _ =>
  }

  /** No segment is empty. */
  ghost predicate NoEmpty(l: Layout) {
    Sorted(l.free) && forall pid :: pid in l.segs ==> 0 < l.segs[pid].limit
  }

  predicate Positive(op: SegOp) {
    op.Create? || op.Resize? ==> 0 < op.size
  }

  /** While only positive sizes are asked for, the list stays in order. */
  lemma PositiveKeepsOrder(l: Layout, op: SegOp, ok: bool, l': Layout, total: nat)
    requires Tiled(l, total) && NoEmpty(l) && Positive(op) && Move(l, op, ok, l')
    ensures NoEmpty(l')
  {
    MoveKeepsOrder(l, op, ok, l', total);
    hide Sorted, Return, Take;
  }

  /** Without segments the free list is one block again exactly when it is in order. */
  lemma EmptyIsOneBlock(l: Layout, total: nat)
    requires Tiled(l, total) && l.segs == map[] && 0 < total
    ensures l.free == [Block(0, total)] <==> Sorted(l.free)
  {
    if Sorted(l.free) {
      forall a: int
        ensures InFree(l.free, a) <==> 0 <= a < total
      {
        assert 0 <= a < total ==> InFree(l.free, a) || exists pid: nat :: InSeg(l.segs, pid, a);
        if InFree(l.free, a) { FreeInside(l.free, total, a); }
      }
      OneBlock(l.free, total);
    }
  }

  /** An empty memory whose list is in order takes a process of any size up to the whole of it. */
  lemma EmptyTakesAll(l: Layout, pid: nat, size: nat, ok: bool, l': Layout, total: nat)
    requires Tiled(l, total) && l.segs == map[] && 0 < total && Sorted(l.free)
    requires Move(l, Create(pid, size), ok, l')
    ensures ok <==> size <= total
  {
    EmptyIsOneBlock(l, total);
    assert size <= total ==> FirstFit(l.free, size, 0);
  }

  // ---- a run after which it is not in order ----

  /** 30 bytes, three processes of 10. The first ends, the second shrinks to nothing and ends, the third ends. No
      process is left and all memory is free, but as blocks that were never merged: a process of 30 bytes is
      refused. */
  lemma EmptyButRefused()
    ensures var l0 := Layout([Block(0, 30)], map[]);
            var l1 := Layout([Block(10, 20)], map[1 := Seg(0, 10)]);
            var l2 := Layout([Block(20, 10)], map[1 := Seg(0, 10), 2 := Seg(10, 10)]);
            var l3 := Layout([], map[1 := Seg(0, 10), 2 := Seg(10, 10), 3 := Seg(20, 10)]);
            var l4 := Layout([Block(0, 10)], map[2 := Seg(10, 10), 3 := Seg(20, 10)]);
            var l5 := Layout([Block(0, 20)], map[2 := Seg(10, 0), 3 := Seg(20, 10)]);
            var l6 := Layout([Block(0, 20), Block(10, 0)], map[3 := Seg(20, 10)]);
            var l7 := Layout([Block(0, 20), Block(10, 0), Block(20, 10)], map[]);
            && Move(l0, Create(1, 10), true, l1) && Move(l1, Create(2, 10), true, l2)
            && Move(l2, Create(3, 10), true, l3)
            && Move(l3, Destroy(1), true, l4) && Move(l4, Resize(2, 0), true, l5) && Move(l5, Destroy(2), true, l6)
            && Move(l6, Destroy(3), true, l7) && Move(l7, Create(4, 30), false, l7)
  {
    ThreeCreated();
    TwoLeft();
    NoneLeft();
  }

  lemma ThreeCreated()
    ensures var l0 := Layout([Block(0, 30)], map[]);
            var l1 := Layout([Block(10, 20)], map[1 := Seg(0, 10)]);
            var l2 := Layout([Block(20, 10)], map[1 := Seg(0, 10), 2 := Seg(10, 10)]);
            var l3 := Layout([], map[1 := Seg(0, 10), 2 := Seg(10, 10), 3 := Seg(20, 10)]);
            && Move(l0, Create(1, 10), true, l1) && Move(l1, Create(2, 10), true, l2)
            && Move(l2, Create(3, 10), true, l3)
  {
    assert FirstFit([Block(0, 30)], 10, 0) && FirstFit([Block(10, 20)], 10, 0) && FirstFit([Block(20, 10)], 10, 0);
    assert Take([Block(0, 30)], 0, 10) == [Block(10, 20)] && Take([Block(10, 20)], 0, 10) == [Block(20, 10)];
    assert Take([Block(20, 10)], 0, 10) == [];
  }

  lemma TwoLeft()
    ensures var l3 := Layout([], map[1 := Seg(0, 10), 2 := Seg(10, 10), 3 := Seg(20, 10)]);
            var l4 := Layout([Block(0, 10)], map[2 := Seg(10, 10), 3 := Seg(20, 10)]);
            var l5 := Layout([Block(0, 20)], map[2 := Seg(10, 0), 3 := Seg(20, 10)]);
            Move(l3, Destroy(1), true, l4) && Move(l4, Resize(2, 0), true, l5)
  {
    assert Return([], Block(0, 10)) == [Block(0, 10)];
    assert Insert([Block(0, 10)], Block(10, 10)) == [Block(0, 10), Block(10, 10)];
    assert Return([Block(0, 10)], Block(10, 10)) == [Block(0, 20)];
    assert map[1 := Seg(0, 10), 2 := Seg(10, 10), 3 := Seg(20, 10)] - {1} == map[2 := Seg(10, 10), 3 := Seg(20, 10)];
  }

  lemma NoneLeft()
    ensures var l5 := Layout([Block(0, 20)], map[2 := Seg(10, 0), 3 := Seg(20, 10)]);
            var l6 := Layout([Block(0, 20), Block(10, 0)], map[3 := Seg(20, 10)]);
            var l7 := Layout([Block(0, 20), Block(10, 0), Block(20, 10)], map[]);
            && Move(l5, Destroy(2), true, l6) && Move(l6, Destroy(3), true, l7) && Move(l7, Create(4, 30), false, l7)
  {
    assert Insert([Block(0, 20)], Block(10, 0)) == [Block(0, 20), Block(10, 0)];
    assert Return([Block(0, 20)], Block(10, 0)) == [Block(0, 20), Block(10, 0)];
    var l := [Block(0, 20), Block(10, 0), Block(20, 10)];
    assert [Block(0, 20), Block(10, 0)][1..] == [Block(10, 0)];
    assert Insert([Block(10, 0)], Block(20, 10)) == [Block(10, 0), Block(20, 10)];
    assert Insert([Block(0, 20), Block(10, 0)], Block(20, 10)) == l;
    assert l[1..] == [Block(10, 0), Block(20, 10)];
    assert Merge([Block(10, 0), Block(20, 10)]) == [Block(10, 0), Block(20, 10)];
    assert Merge(l) == l;
    assert map[2 := Seg(10, 0), 3 := Seg(20, 10)] - {2} == map[3 := Seg(20, 10)];
    assert map[3 := Seg(20, 10)] - {3} == map[];
    assert forall i: nat :: !FirstFit(l, 30, i);
  }

  // ---- a run that tells the lowest fit from any other ----

  /** 40 bytes; processes of 20 and 10, the first ends; a process of 10 goes to address 0, into the larger of the two
      free blocks, and a process of 15 is refused then. No other outcome is possible. */
  lemma LowestThenRefused()
    ensures var l0 := Layout([Block(0, 40)], map[]);
            var l1 := Layout([Block(20, 20)], map[1 := Seg(0, 20)]);
            var l2 := Layout([Block(30, 10)], map[1 := Seg(0, 20), 2 := Seg(20, 10)]);
            var l3 := Layout([Block(0, 20), Block(30, 10)], map[2 := Seg(20, 10)]);
            && Move(l0, Create(1, 20), true, l1) && Move(l1, Create(2, 10), true, l2) && Move(l2, Destroy(1), true, l3)
            && forall ok, l4 :: Move(l3, Create(3, 10), ok, l4) ==>
                 && ok && 3 in l4.segs && l4.segs[3].base == 0
                 && forall ok', l5 :: Move(l4, Create(4, 15), ok', l5) ==> !ok'
  {
    UpToTwoBlocks();
    var l3 := Layout([Block(0, 20), Block(30, 10)], map[2 := Seg(20, 10)]);
    hide Move;
    forall ok, l4 | Move(l3, Create(3, 10), ok, l4)
      ensures ok && 3 in l4.segs && l4.segs[3].base == 0 && forall ok', l5 :: Move(l4, Create(4, 15), ok', l5) ==> !ok'
    {
      ThirdAtZero(ok, l4);
      forall ok', l5 | Move(l4, Create(4, 15), ok', l5)
        ensures !ok'
      {
        CreateLowest(l4, 4, 15, ok', l5);
      }
    }
  }

  lemma ThirdAtZero(ok: bool, l4: Layout)
    requires Move(Layout([Block(0, 20), Block(30, 10)], map[2 := Seg(20, 10)]), Create(3, 10), ok, l4)
    ensures ok && l4 == Layout([Block(10, 10), Block(30, 10)], map[2 := Seg(20, 10), 3 := Seg(0, 10)])
  {
    var l3 := Layout([Block(0, 20), Block(30, 10)], map[2 := Seg(20, 10)]);
    assert FirstFit(l3.free, 10, 0);
    var i: nat :| FirstFit(l3.free, 10, i) &&
      l4 == Layout(Take(l3.free, i, 10), l3.segs[3 := Seg(l3.free[i].base, 10)]);
    FirstFitUnique(l3.free, 10, 0, i);
  }

  lemma UpToTwoBlocks()
    ensures var l0 := Layout([Block(0, 40)], map[]);
            var l1 := Layout([Block(20, 20)], map[1 := Seg(0, 20)]);
            var l2 := Layout([Block(30, 10)], map[1 := Seg(0, 20), 2 := Seg(20, 10)]);
            var l3 := Layout([Block(0, 20), Block(30, 10)], map[2 := Seg(20, 10)]);
            && Move(l0, Create(1, 20), true, l1) && Move(l1, Create(2, 10), true, l2) && Move(l2, Destroy(1), true, l3)
  {
    assert FirstFit([Block(0, 40)], 20, 0) && FirstFit([Block(20, 20)], 10, 0);
    assert Take([Block(0, 40)], 0, 20) == [Block(20, 20)] && Take([Block(20, 20)], 0, 10) == [Block(30, 10)];
    assert Insert([Block(30, 10)], Block(0, 20)) == [Block(0, 20), Block(30, 10)];
    assert [Block(0, 20), Block(30, 10)][1..] == [Block(30, 10)];
    assert Return([Block(30, 10)], Block(0, 20)) == [Block(0, 20), Block(30, 10)];
    assert map[1 := Seg(0, 20), 2 := Seg(20, 10)] - {1} == map[2 := Seg(20, 10)];
  }
}
