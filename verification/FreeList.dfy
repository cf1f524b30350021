// The free list of the segment allocator: taking from the front of a block, returning a block in address
// order, and merging blocks that touch.
module FreeList {
  datatype Block = Block(base: nat, size: nat)
  {
    function End(): nat { base + size }
    predicate Has(a: int) { base <= a < base + size }
  }

  /** Address a is free. */
  ghost predicate InFree(free: seq<Block>, a: int) {
    exists i: nat :: i < |free| && free[i].Has(a)
  }

  /** The two share no address. */
  predicate Clear(x: Block, y: Block) {
    x.size == 0 || y.size == 0 || x.End() <= y.base || y.End() <= x.base
  }

  /** What holds of the list whatever the sizes: no address is free twice. */
  ghost predicate Disjoint(free: seq<Block>) {
    forall i: nat, j: nat :: i < j < |free| ==> Clear(free[i], free[j])
  }

  /** The block overlaps no free block. */
  ghost predicate Apart(free: seq<Block>, b: Block) {
    forall i: nat :: i < |free| ==> Clear(free[i], b)
  }

  ghost predicate Within(free: seq<Block>, total: nat) {
    forall i: nat :: i < |free| ==> free[i].End() <= total
  }

  /** In address order, without overlap; neighbours may touch. */
  ghost predicate Ordered(free: seq<Block>) {
    forall i: nat, j: nat :: i < j < |free| ==> free[i].End() <= free[j].base
  }

  /** The allocator's order: non-empty blocks in strictly rising address order, no two touching. */
  ghost predicate Sorted(free: seq<Block>) {
    && (forall i: nat :: i < |free| ==> 0 < free[i].size)
    && (forall i: nat, j: nat :: i < j < |free| ==> free[i].End() < free[j].base)
  }

  // ---- first fit and taking from the front ----

  ghost predicate FirstFit(free: seq<Block>, n: nat, i: nat) {
    i < |free| && n <= free[i].size && forall j: nat :: j < i ==> free[j].size < n
  }

  function Take(free: seq<Block>, i: nat, n: nat): seq<Block>
    requires i < |free| && n <= free[i].size
  {
    if free[i].size == n then Without(free, i)
    else free[i := Block(free[i].base + n, free[i].size - n)]
  }

  function Without(free: seq<Block>, i: nat): seq<Block>
    requires i < |free|
  {
    free[..i] + free[i + 1..]
  }

  lemma WithoutAt(free: seq<Block>, i: nat)
    requires i < |free|
    ensures |Without(free, i)| == |free| - 1
    ensures forall k: nat :: k < |free| - 1 ==> Without(free, i)[k] == free[if k < i then k else k + 1]
  {
  }

  lemma WithoutFree(free: seq<Block>, i: nat, a: int)
    requires Disjoint(free) && i < |free|
    ensures InFree(Without(free, i), a) <==> InFree(free, a) && !free[i].Has(a)
  {
    WithoutAt(free, i);
    hide Without;
    var r := Without(free, i);
    if InFree(free, a) && !free[i].Has(a) {
      var k: nat :| k < |free| && free[k].Has(a);
      assert r[if k < i then k else k - 1] == free[k];
    }
    if InFree(r, a) {
      var k: nat :| k < |r| && r[k].Has(a);
      OneOwner(free, if k < i then k else k + 1, i, a);
    }
  }

  lemma TakeWhole(free: seq<Block>, i: nat)
    requires Disjoint(free) && i < |free|
    ensures Disjoint(Without(free, i)) && (Sorted(free) ==> Sorted(Without(free, i)))
    ensures forall a: int :: InFree(Without(free, i), a) <==> InFree(free, a) && !free[i].Has(a)
  {
    WithoutAt(free, i);
    hide Without;
    forall a: int
      ensures InFree(Without(free, i), a) <==> InFree(free, a) && !free[i].Has(a)
    {
      WithoutFree(free, i, a);
    }
  }

  /** Different free blocks share no address. */
  lemma OneOwner(free: seq<Block>, i: nat, j: nat, a: int)
    requires Disjoint(free) && i < |free| && j < |free| && i != j && free[i].Has(a)
    ensures InFree(free, a) && !free[j].Has(a)
  {
    if i < j { assert Clear(free[i], free[j]); } else { assert Clear(free[j], free[i]); }
  }

  lemma TakePart(free: seq<Block>, i: nat, n: nat)
    requires Disjoint(free) && i < |free| && n < free[i].size
    ensures var r := free[i := Block(free[i].base + n, free[i].size - n)];
            && Disjoint(r) && (Sorted(free) ==> Sorted(r))
            && forall a: int :: InFree(r, a) <==> InFree(free, a) && !Block(free[i].base, n).Has(a)
  {
    var r := free[i := Block(free[i].base + n, free[i].size - n)];
    forall j: nat, k: nat | j < k < |r|
      ensures Clear(r[j], r[k])
    {
      assert Clear(free[j], free[k]);
    }
    forall a: int
      ensures InFree(r, a) <==> InFree(free, a) && !Block(free[i].base, n).Has(a)
    {
      if InFree(free, a) && !Block(free[i].base, n).Has(a) {
        var k: nat :| k < |free| && free[k].Has(a);
        assert r[k].Has(a);
      }
      if InFree(r, a) {
        var k: nat :| k < |r| && r[k].Has(a);
        if k != i { OneOwner(free, k, i, a); } else { assert free[i].Has(a); }
      }
    }
  }

  /** Taking n addresses from the front of a block removes exactly those, and keeps the order if there was one. */
  lemma TakeExact(free: seq<Block>, i: nat, n: nat)
    requires Disjoint(free) && i < |free| && n <= free[i].size
    ensures Disjoint(Take(free, i, n)) && (Sorted(free) ==> Sorted(Take(free, i, n)))
    ensures forall a: int :: InFree(Take(free, i, n), a) <==> InFree(free, a) && !Block(free[i].base, n).Has(a)
  {
    hide Sorted, InFree, Disjoint;
    if n == free[i].size {
      TakeWhole(free, i);
      assert free[i] == Block(free[i].base, n);
    } else {
      TakePart(free, i, n);
    }
  }

  lemma TakeWithin(free: seq<Block>, i: nat, n: nat, total: nat)
    requires Within(free, total) && i < |free| && n <= free[i].size
    ensures Within(Take(free, i, n), total) && free[i].base + n <= total
  {
    if n == free[i].size {
      WithoutAt(free, i);
    }
  }

  // ---- returning a block ----

  function Insert(free: seq<Block>, b: Block): (r: seq<Block>)
    ensures |r| == |free| + 1
  {
    if free == [] then [b]
    else if b.base < free[0].base then [b] + free
    else [free[0]] + Insert(free[1..], b)
  }

  function Merge(free: seq<Block>): seq<Block>
    decreases |free|
  {
    if |free| < 2 then free
    else if free[0].End() == free[1].base then Merge([Block(free[0].base, free[0].size + free[1].size)] + free[2..])
    else [free[0]] + Merge(free[1..])
  }

  function Return(free: seq<Block>, b: Block): seq<Block> {
    Merge(Insert(free, b))
  }

  /** Blocks i and i + 1 made one. */
  function Joined(free: seq<Block>, i: nat): seq<Block>
    requires i + 1 < |free|
  {
    free[..i] + [Block(free[i].base, free[i].size + free[i + 1].size)] + free[i + 2..]
  }

  lemma MergeAt(free: seq<Block>, i: nat)
    requires i + 1 < |free|
    ensures free[..i] + Merge(free[i..]) ==
            if free[i].base + free[i].size == free[i + 1].base then Joined(free, i)[..i] + Merge(Joined(free, i)[i..])
            else free[..i + 1] + Merge(free[i + 1..])
  {
    var rest := free[i..];
    assert rest[0] == free[i] && rest[1] == free[i + 1] && rest[1..] == free[i + 1..] && rest[2..] == free[i + 2..];
    if free[i].base + free[i].size == free[i + 1].base {
      assert Joined(free, i)[i..] == [Block(free[i].base, free[i].size + free[i + 1].size)] + rest[2..];
    } else {
      assert free[..i + 1] == free[..i] + [free[i]];
    }
  }

  lemma InFreeCons(b: Block, rest: seq<Block>, a: int)
    ensures InFree([b] + rest, a) <==> b.Has(a) || InFree(rest, a)
  {
    var l := [b] + rest;
    if b.Has(a) { assert l[0].Has(a); }
    if InFree(rest, a) {
      var k: nat :| k < |rest| && rest[k].Has(a);
      assert l[k + 1].Has(a);
    }
    if InFree(l, a) {
      var k: nat :| k < |l| && l[k].Has(a);
      assert k > 0 ==> rest[k - 1].Has(a);
    }
  }

  /** Inserting adds exactly the block's addresses, whatever the order. */
  lemma {:induction false} InsertCovers(free: seq<Block>, b: Block)
    requires Disjoint(free) && Apart(free, b)
    ensures Disjoint(Insert(free, b))
    ensures forall a: int :: InFree(Insert(free, b), a) <==> InFree(free, a) || b.Has(a)
    ensures forall c :: c in Insert(free, b) <==> c in free || c == b
  {
    if free == [] {
      forall a: int { InFreeCons(b, [], a); }
      assert [b] + [] == [b];
    } else if b.base < free[0].base {
      forall a: int { InFreeCons(b, free, a); }
    } else {
      var rest, r := free[1..], Insert(free[1..], b);
      InsertCovers(rest, b);
      assert free == [free[0]] + rest;
      ConsDisjoint(free[0], r, rest, b);
      forall a: int
        ensures InFree([free[0]] + r, a) <==> InFree(free, a) || b.Has(a)
      {
        InFreeCons(free[0], r, a);
        InFreeCons(free[0], rest, a);
      }
    }
  }

  lemma ConsDisjoint(x: Block, r: seq<Block>, rest: seq<Block>, b: Block)
    requires Disjoint([x] + rest) && Clear(x, b) && Disjoint(r) && forall c :: c in r <==> c in rest || c == b
    ensures Disjoint([x] + r)
  {
    var l := [x] + rest;
    forall j: nat | j < |r|
      ensures Clear(x, r[j])
    {
      assert r[j] in r;
      if r[j] in rest {
        var k: nat :| k < |rest| && rest[k] == r[j];
        assert Clear(l[0], l[k + 1]);
      }
    }
  }

  /** What overlaps no block of a list overlaps none of the merged list, and merging reaches no further. */
  lemma {:induction false} MergeApart(free: seq<Block>, x: Block, total: nat)
    requires Apart(free, x) && Within(free, total)
    ensures Apart(Merge(free), x) && Within(Merge(free), total)
    decreases |free|
  {
    if 2 <= |free| {
      if free[0].End() == free[1].base {
        MergeApart([Block(free[0].base, free[0].size + free[1].size)] + free[2..], x, total);
      } else {
        MergeApart(free[1..], x, total);
      }
    }
  }

  /** Merging keeps exactly the same addresses free, whatever the order. */
  lemma {:induction false} MergeCovers(free: seq<Block>)
    requires Disjoint(free)
    ensures Disjoint(Merge(free))
    ensures forall a: int :: InFree(Merge(free), a) <==> InFree(free, a)
    decreases |free|
  {
    if |free| < 2 {
    } else if free[0].End() == free[1].base {
      var joined, rest := Block(free[0].base, free[0].size + free[1].size), free[2..];
      assert free == [free[0]] + ([free[1]] + rest);
      JoinedDisjoint(free);
      MergeCovers([joined] + rest);
      forall a: int
        ensures InFree([joined] + rest, a) <==> InFree(free, a)
      {
        InFreeCons(joined, rest, a);
        InFreeCons(free[1], rest, a);
        InFreeCons(free[0], [free[1]] + rest, a);
      }
    } else {
      MergeRest(free);
    }
  }

  lemma JoinedDisjoint(free: seq<Block>)
    requires 2 <= |free| && Disjoint(free) && free[0].End() == free[1].base
    ensures Disjoint([Block(free[0].base, free[0].size + free[1].size)] + free[2..])
  {
    var l := [Block(free[0].base, free[0].size + free[1].size)] + free[2..];
    forall i: nat, j: nat | i < j < |l|
      ensures Clear(l[i], l[j])
    {
      assert l[j] == free[j + 1] && Clear(free[i + 1], free[j + 1]) && Clear(free[0], free[j + 1]);
    }
  }

  lemma {:induction false} MergeRest(free: seq<Block>)
    requires 2 <= |free| && Disjoint(free) && free[0].End() != free[1].base
    ensures Disjoint(Merge(free)) && forall a: int :: InFree(Merge(free), a) <==> InFree(free, a)
    decreases |free|, 0
  {
    var rest, r := free[1..], Merge(free[1..]);
    MergeCovers(rest);
    assert free == [free[0]] + rest;
    assert Apart(rest, free[0]) by {
      forall i: nat | i < |rest| ensures Clear(rest[i], free[0]) { assert Clear(free[0], free[i + 1]); }
    }
    MergeApart(rest, free[0], MaxEnd(rest));
    forall a: int
      ensures InFree([free[0]] + r, a) <==> InFree(free, a)
    {
      InFreeCons(free[0], r, a);
      InFreeCons(free[0], rest, a);
    }
    assert forall j: nat :: j < |r| ==> Clear(r[j], free[0]);
  }

  function MaxEnd(free: seq<Block>): (t: nat)
    ensures Within(free, t)
  {
    if free == [] then 0
    else
      var t := MaxEnd(free[1..]);
      assert forall i: nat :: 0 < i < |free| ==> free[i] == free[1..][i - 1];
      if t < free[0].End() then free[0].End() else t
  }

  /** Returning a block that overlaps no free one frees exactly its addresses, whatever the order and the sizes. */
  lemma ReturnCovers(free: seq<Block>, b: Block, total: nat)
    requires Disjoint(free) && Apart(free, b) && Within(free, total) && b.End() <= total
    ensures Disjoint(Return(free, b)) && Within(Return(free, b), total)
    ensures forall a: int :: InFree(Return(free, b), a) <==> InFree(free, a) || b.Has(a)
  {
    InsertCovers(free, b);
    var l := Insert(free, b);
    forall i: nat | i < |l|
      ensures l[i].End() <= total
    {
      assert l[i] in l;
    }
    MergeCovers(l);
    MergeApart(l, Block(0, 0), total);
  }

  /** Non-empty blocks from address e on. */
  ghost predicate From(free: seq<Block>, e: nat) {
    forall i: nat :: i < |free| ==> e <= free[i].base && 0 < free[i].size
  }

  lemma {:induction false} InsertFrom(free: seq<Block>, b: Block, e: nat)
    requires From(free, e) && e <= b.base && 0 < b.size
    ensures From(Insert(free, b), e)
  {
    if free != [] && free[0].base <= b.base {
      InsertFrom(free[1..], b, e);
    }
  }

  lemma {:induction false} InsertOrdered(free: seq<Block>, b: Block)
    requires Sorted(free) && Apart(free, b) && 0 < b.size
    ensures Ordered(Insert(free, b)) && From(Insert(free, b), 0)
  {
    if free != [] && free[0].base <= b.base {
      assert Clear(free[0], b);
      InsertOrdered(free[1..], b);
      InsertFrom(free[1..], b, free[0].End());
    }
  }

  /** Merging an ordered list leaves no two blocks touching. */
  lemma {:induction false} MergeOrdered(free: seq<Block>)
    requires Ordered(free) && From(free, 0)
    ensures Sorted(Merge(free)) && (free != [] ==> Merge(free) != [] && Merge(free)[0].base == free[0].base)
    decreases |free|
  {
    if |free| < 2 {
    } else if free[0].End() == free[1].base {
      JoinedOrdered(free);
      MergeOrdered([Block(free[0].base, free[0].size + free[1].size)] + free[2..]);
    } else {
      assert free[0].End() < free[1].base;
      MergeOrdered(free[1..]);
      ConsSorted(free[0], Merge(free[1..]));
    }
  }

  lemma JoinedOrdered(free: seq<Block>)
    requires 2 <= |free| && Ordered(free) && From(free, 0) && free[0].End() == free[1].base
    ensures var l := [Block(free[0].base, free[0].size + free[1].size)] + free[2..]; Ordered(l) && From(l, 0)
  {
  }

  lemma ConsSorted(x: Block, r: seq<Block>)
    requires 0 < x.size && Sorted(r) && (r != [] ==> x.End() < r[0].base)
    ensures Sorted([x] + r)
  {
    assert forall j: nat :: j < |r| ==> r[0].base <= r[j].base;
  }

  /** Returning a non-empty block that overlaps no free one keeps the order. */
  lemma ReturnOrdered(free: seq<Block>, b: Block)
    requires Sorted(free) && Apart(free, b) && 0 < b.size
    ensures Sorted(Return(free, b))
  {
    InsertOrdered(free, b);
    MergeOrdered(Insert(free, b));
  }

  // ---- blocks of size zero ----

  /** A sorted list has nothing to merge. */
  lemma {:induction false} MergeSorted(free: seq<Block>)
    requires Sorted(free)
    ensures Merge(free) == free
  {
    if |free| >= 2 {
      assert free[0].End() < free[1].base;
      MergeSorted(free[1..]);
    }
  }

  /** An empty block is absorbed exactly when a free block ends where it lies; otherwise it stays in the list. */
  lemma {:induction false} ReturnEmpty(free: seq<Block>, base: nat)
    requires Sorted(free)
    ensures (exists i: nat :: i < |free| && free[i].End() == base) ==> Return(free, Block(base, 0)) == free
    ensures (forall i: nat :: i < |free| ==> free[i].End() != base) ==> Block(base, 0) in Return(free, Block(base, 0))
  {
    var b := Block(base, 0);
    if free == [] {
    } else if base < free[0].base {
      assert forall i: nat :: i < |free| ==> free[i].End() != base;
      MergeSorted(free);
    } else if free[0].End() == base {
      EmptyNext(free, base);
      MergeSorted(free);
    } else {
      EmptyLater(free, base);
    }
  }

  lemma EmptyNext(free: seq<Block>, base: nat)
    requires Sorted(free) && free != [] && free[0].End() == base
    ensures Return(free, Block(base, 0)) == Merge(free)
  {
    var f, b, rest := free[0], Block(base, 0), free[1..];
    assert f.base < base && (rest != [] ==> rest[0] == free[1] && base < rest[0].base);
    assert free == [f] + rest;
    hide Sorted, Merge;
    InsertSecond(f, rest, b);
    JoinsNext([f] + ([b] + rest));
    assert ([f] + ([b] + rest))[2..] == rest && Block(f.base, f.size + 0) == f;
  }

  lemma InsertSecond(f: Block, rest: seq<Block>, b: Block)
    requires f.base <= b.base && (rest != [] ==> b.base < rest[0].base)
    ensures Insert([f] + rest, b) == [f] + ([b] + rest)
  {
    assert ([f] + rest)[1..] == rest;
    assert [b] + [] == [b];
  }

  lemma JoinsNext(l: seq<Block>)
    requires 2 <= |l| && l[0].End() == l[1].base
    ensures Merge(l) == Merge([Block(l[0].base, l[0].size + l[1].size)] + l[2..])
  {
  }

  lemma {:induction false} EmptyLater(free: seq<Block>, base: nat)
    requires Sorted(free) && free != [] && free[0].base <= base && free[0].End() != base
    ensures (exists i: nat :: i < |free| && free[i].End() == base) ==> Return(free, Block(base, 0)) == free
    ensures (forall i: nat :: i < |free| ==> free[i].End() != base) ==> Block(base, 0) in Return(free, Block(base, 0))
    decreases |free|
  {
    var b := Block(base, 0);
    var rest := free[1..];
    var l := Insert(free, b);
    assert l == [free[0]] + Insert(rest, b);
    assert forall i: nat :: i < |rest| ==> rest[i] == free[i + 1];
    assert forall i: nat :: 0 < i < |free| ==> free[i] == rest[i - 1];
    assert l[1].base != free[0].End();
    assert l[1..] == Insert(rest, b);
    assert Merge(l) == [free[0]] + Return(rest, b);
    if rest != [] {
      if base < rest[0].base {
        MergeSorted(rest);
      } else if rest[0].End() == base {
        EmptyNext(rest, base);
        MergeSorted(rest);
      } else {
        EmptyLater(rest, base);
      }
    }
    assert free == [free[0]] + rest;
  }

  /** Returning a block keeps the order exactly when the block is not empty, or a free block ends where it
      lies. An empty block may lie anywhere, also inside a free block. */
  lemma ReturnKeepsOrder(free: seq<Block>, b: Block)
    requires Sorted(free) && Apart(free, b)
    ensures Sorted(Return(free, b)) <==> 0 < b.size || exists i: nat :: i < |free| && free[i].End() == b.base
  {
    if 0 < b.size {
      ReturnOrdered(free, b);
    } else {
      ReturnEmpty(free, b.base);
    }
  }

  /** The address right after a block of a sorted list is not free. */
  lemma EndNotFree(free: seq<Block>, k: nat)
    requires Sorted(free) && k < |free|
    ensures !InFree(free, free[k].End())
  {
    forall j: nat | j < |free|
      ensures !free[j].Has(free[k].End())
    {
      if j < k { assert free[j].End() < free[k].base; }
      if k < j { assert free[k].End() < free[j].base; }
    }
  }

  /** A sorted list that covers everything is one block. */
  lemma OneBlock(free: seq<Block>, n: nat)
    requires Sorted(free) && 0 < n && forall a: int :: InFree(free, a) <==> 0 <= a < n
    ensures free == [Block(0, n)]
  {
    assert InFree(free, 0);
    forall k: nat | k < |free|
      ensures free[k].End() == n && k == 0 && k == |free| - 1
    {
      assert free[k].Has(free[k].End() - 1);
      assert InFree(free, free[k].End() - 1);
      EndNotFree(free, k);
      assert free[k].End() == n;
      var last := |free| - 1;
      assert free[last].Has(free[last].End() - 1);
      assert InFree(free, free[last].End() - 1);
      EndNotFree(free, 0);
      assert free[0].Has(free[0].End() - 1);
      assert InFree(free, free[0].End() - 1);
    }
    var i: nat :| i < |free| && free[i].Has(0);
    assert free[i].base == 0;
  }
}
