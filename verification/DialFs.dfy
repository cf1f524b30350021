// DialFS on values: a contiguous-allocation file system as a bitmap, a block buffer and one control block
// per file, and what its operations mean for the bytes of each file.
module DialFs {
  import opened Bytes
  import opened FileMap

  /** `start` is -1 for a file without blocks. */
  datatype Fcb = Fcb(start: int, size: nat)

  datatype Disk = Disk(bs: nat, bitmap: seq<bool>, blocks: seq<Byte>, files: map<string, Fcb>)
  {
    /** Number of blocks of a file. */
    function Len(name: string): nat
      requires 0 < bs && name in files
    {
      Units(files[name].size, bs)
    }

    /** Block b belongs to the run of the file. */
    predicate Covers(name: string, b: int)
    {
      0 < bs && name in files && files[name].start <= b < files[name].start + Units(files[name].size, bs)
    }

    /** The bytes of a file. */
    function Content(name: string): seq<Byte>
      requires name in files
    {
      var f := files[name];
      if 0 <= f.start * bs && f.start * bs + f.size <= |blocks| then blocks[f.start * bs..f.start * bs + f.size] else []
    }
  }

  predicate RunOk(d: Disk, f: Fcb)
    requires 0 < d.bs
  {
    if f.size == 0 then f.start == -1 else 0 <= f.start && f.start + Units(f.size, d.bs) <= |d.bitmap|
  }

  /** Bitmap and metadata agree: runs lie on the disk and are disjoint, a bit is set exactly when a run
      contains its block, and a file has no start exactly when it is empty. */
  ghost predicate Consistent(d: Disk) {
    && 0 < d.bs && |d.blocks| == |d.bitmap| * d.bs
    && (forall name :: name in d.files ==> RunOk(d, d.files[name]))
    && (forall x, y, b: int :: d.Covers(x, b) && d.Covers(y, b) ==> x == y)
    && (forall x, b: int :: d.Covers(x, b) ==> 0 <= b < |d.bitmap| && d.bitmap[b])
    && (forall b :: 0 <= b < |d.bitmap| && d.bitmap[b] ==> exists x :: d.Covers(x, b))
  }

  lemma ContentBytes(d: Disk, name: string)
    requires Consistent(d) && name in d.files
    ensures |d.Content(name)| == d.files[name].size
    ensures d.files[name].size == 0 ==> d.Content(name) == []
    ensures d.files[name].size > 0 ==>
              && 0 <= d.files[name].start * d.bs
              && d.files[name].start * d.bs + d.files[name].size <= d.files[name].start * d.bs + d.Len(name) * d.bs
                 == (d.files[name].start + d.Len(name)) * d.bs <= |d.blocks|
              && d.Content(name) ==
                 d.blocks[d.files[name].start * d.bs..d.files[name].start * d.bs + d.files[name].size]
  {
    hide Units;
    var f := d.files[name];
    assert RunOk(d, f);
    if f.size > 0 {
      UnitsFit(f.size, d.bs);
      MulMono(f.start + d.Len(name), |d.bitmap|, d.bs);
      MulMono(0, f.start, d.bs);
      MulDist(f.start, d.Len(name), d.bs);
    } else {
      assert d.Content(name) == [];
    }
  }

  lemma MulMono(a: int, b: int, w: nat)
    requires a <= b
    ensures a * w <= b * w
  {
    MulDist(a, b - a, w);
    MulNonNeg(b - a, w);
  }

  // ---- free runs and counting ----

  predicate FreeRun(bm: seq<bool>, s: int, count: nat) {
    0 <= s && s + count <= |bm| && forall i :: s <= i < s + count ==> !bm[i]
  }

  /** Bits s .. s+c-1 set to v. */
  function Mark(bm: seq<bool>, s: int, c: nat, v: bool): (r: seq<bool>)
    ensures |r| == |bm|
  {
    seq(|bm|, i requires 0 <= i < |bm| => if s <= i < s + c then v else bm[i])
  }

  /** Number of set bits below i. */
  function Rank(bm: seq<bool>, i: nat): (r: nat)
    requires i <= |bm|
    ensures r <= i
  {
    if i == 0 then 0 else Rank(bm, i - 1) + if bm[i - 1] then 1 else 0
  }

  function FreeCount(bm: seq<bool>): nat {
    |bm| - Rank(bm, |bm|)
  }

  /** Free space is the number of clear bits. */
  lemma {:induction false} FreeCountExact(bm: seq<bool>)
    ensures FreeCount(bm) == |set b: int | 0 <= b < |bm| && !bm[b]|
  {
    if bm != [] {
      var t := bm[..|bm| - 1];
      FreeCountExact(t);
      RankPrefix(bm, |t|);
      var s, s' := set b: int | 0 <= b < |bm| && !bm[b], set b: int | 0 <= b < |t| && !t[b];
      assert s == if bm[|t|] then s' else s' + {|t|};
    }
  }

  lemma {:induction false} RankPrefix(bm: seq<bool>, i: nat)
    requires i < |bm|
    ensures Rank(bm[..|bm| - 1], i) == Rank(bm, i)
    decreases i
  {
    if i > 0 {
      RankPrefix(bm, i - 1);
    }
  }

  lemma {:induction false} RankSpan(bm: seq<bool>, s: nat, e: nat)
    requires s <= e <= |bm|
    ensures Rank(bm, s) <= Rank(bm, e) <= Rank(bm, s) + (e - s)
    ensures (forall i :: s <= i < e ==> bm[i]) ==> Rank(bm, e) == Rank(bm, s) + (e - s)
    ensures (forall i :: s <= i < e ==> !bm[i]) ==> Rank(bm, e) == Rank(bm, s)
    decreases e
  {
    if s < e {
      RankSpan(bm, s, e - 1);
    }
  }

  /** Every position below the rank of the end is the rank of some set bit. */
  lemma {:induction false} RankOnto(bm: seq<bool>, e: nat, r: nat)
    requires e <= |bm| && r < Rank(bm, e)
    ensures exists i: nat :: i < e && bm[i] && Rank(bm, i) == r
  {
    if Rank(bm, e - 1) <= r {
      assert bm[e - 1] && Rank(bm, e - 1) == r;
    } else {
      RankOnto(bm, e - 1, r);
    }
  }

  lemma FreeRunNeedsSpace(bm: seq<bool>, s: nat, count: nat)
    requires FreeRun(bm, s, count)
    ensures count <= FreeCount(bm)
  {
    RankSpan(bm, 0, s);
    RankSpan(bm, s, s + count);
    RankSpan(bm, s + count, |bm|);
  }

  /** When the used blocks are a prefix, a free run exists exactly when there is enough space. */
  lemma {:induction false} PrefixRuns(bm: seq<bool>, t: nat, count: nat)
    requires t <= |bm| && forall i :: 0 <= i < |bm| ==> (bm[i] <==> i < t)
    ensures FreeCount(bm) == |bm| - t
    ensures count <= FreeCount(bm) ==> FreeRun(bm, t, count)
  {
    RankSpan(bm, 0, t);
    RankSpan(bm, t, |bm|);
  }

  // ---- giving one file a new run ----

  /** d' is d with the control block of `name` replaced by f: its old blocks are released, the new run is
      taken, and no byte outside the new run changes. */
  ghost predicate Reassigned(d: Disk, d': Disk, name: string, f: Fcb) {
    && 0 < d.bs == d'.bs && name in d.files
    && RunOk(d, f)
    && d'.files == d.files[name := f]
    && |d'.bitmap| == |d.bitmap| && |d'.blocks| == |d.blocks|
    && (forall b :: 0 <= b < |d.bitmap| ==> (d'.bitmap[b] <==> InRun(d, f, b) || (d.bitmap[b] && !d.Covers(name, b))))
    && (forall a :: 0 <= a < |d.blocks| && !InRunBytes(d, f, a) ==> d'.blocks[a] == d.blocks[a])
  }

  predicate InRun(d: Disk, f: Fcb, b: int)
    requires 0 < d.bs
  {
    f.start <= b < f.start + Units(f.size, d.bs)
  }

  predicate InRunBytes(d: Disk, f: Fcb, a: int)
    requires 0 < d.bs
  {
    f.start * d.bs <= a < (f.start + Units(f.size, d.bs)) * d.bs
  }

  /** Every block of the new run was free or the file's own. */
  ghost predicate Available(d: Disk, name: string, f: Fcb)
    requires 0 < d.bs
  {
    forall b :: 0 <= b < |d.bitmap| && InRun(d, f, b) ==> !d.bitmap[b] || d.Covers(name, b)
  }

  lemma ReassignedConsistent(d: Disk, d': Disk, name: string, f: Fcb)
    requires Consistent(d) && Reassigned(d, d', name, f) && Available(d, name, f)
    ensures Consistent(d')
  {
    UnitsFit(f.size, d.bs);
    assert forall b: int :: d'.Covers(name, b) <==> InRun(d, f, b);
    assert forall x, b: int :: x != name ==> (d'.Covers(x, b) <==> d.Covers(x, b));
    forall x, y, b: int | d'.Covers(x, b) && d'.Covers(y, b)
      ensures x == y
    {
      if x != name && y != name {
        assert d.Covers(x, b) && d.Covers(y, b);
      }
    }
    forall x, b: int | d'.Covers(x, b)
      ensures 0 <= b < |d'.bitmap| && d'.bitmap[b]
    {
      if x != name {
        assert d.Covers(x, b);
        assert !d.Covers(name, b);
      }
    }
    forall b | 0 <= b < |d'.bitmap| && d'.bitmap[b]
      ensures exists x :: d'.Covers(x, b)
    {
      if InRun(d, f, b) {
        assert d'.Covers(name, b);
      } else {
        var x :| d.Covers(x, b);
        assert d'.Covers(x, b);
      }
    }
  }

  /** Files other than the one reassigned keep their bytes. */
  lemma ReassignedOthers(d: Disk, d': Disk, name: string, f: Fcb, other: string)
    requires Consistent(d) && Reassigned(d, d', name, f) && Available(d, name, f) && Consistent(d')
    requires other in d.files && other != name
    ensures d'.Content(other) == d.Content(other)
  {
    ContentBytes(d, other);
    ContentBytes(d', other);
    var g := d.files[other];
    if g.size > 0 {
      var lo, hi := g.start * d.bs, g.start * d.bs + g.size;
      forall a | lo <= a < hi
        ensures d'.blocks[a] == d.blocks[a]
      {
        ApartBytes(d, g.start, d.Len(other), f.start, Units(f.size, d.bs), a, name, other, f);
      }
      assert d'.blocks[lo..hi] == d.blocks[lo..hi];
    }
  }

  lemma ApartBytes(d: Disk, s: int, n: nat, t: int, k: nat, a: int, name: string, other: string, f: Fcb)
    requires Consistent(d) && Available(d, name, f) && name in d.files && other in d.files && other != name
    requires s == d.files[other].start && d.files[other].size > 0 && n == d.Len(other)
    requires RunOk(d, f) && t == f.start && k == Units(f.size, d.bs)
    requires s * d.bs <= a < (s + n) * d.bs
    ensures !InRunBytes(d, f, a)
  {
    if InRunBytes(d, f, a) {
      var b := a / d.bs;
      InBlock(a, d.bs, s, n);
      InBlock(a, d.bs, t, k);
      assert d.Covers(other, b) && InRun(d, f, b);
    }
  }

  /** The block of a byte of a run lies in the run. */
  lemma InBlock(a: int, w: nat, s: int, n: nat)
    requires 0 < w && 0 <= a && s * w <= a < (s + n) * w
    ensures s <= a / w < s + n
  {
    DivMod(a, w);
    var b := a / w;
    assert (b + 1) * w == b * w + w;
    if b < s {
      MulMono(b + 1, s, w);
    } else if s + n <= b {
      MulMono(s + n, b, w);
    }
  }

  // ---- the file map clients see ----

  ghost function Contents(d: Disk): map<string, seq<Byte>> {
    map name | name in d.files :: d.Content(name)
  }

  lemma ReassignedContents(d: Disk, d': Disk, name: string, f: Fcb)
    requires Consistent(d) && Reassigned(d, d', name, f) && Available(d, name, f)
    ensures Consistent(d')
    ensures Contents(d') == Contents(d)[name := d'.Content(name)]
    ensures |d'.Content(name)| == f.size
  {
    ReassignedConsistent(d, d', name, f);
    ContentBytes(d', name);
    forall x | x in d.files && x != name
      ensures d'.Content(x) == d.Content(x)
    {
      ReassignedOthers(d, d', name, f, x);
    }
  }

  // ---- compaction ----

  const EXT := ".metadata"

  /** ".metadata" occurs in s at position i. */
  predicate ExtAt(s: string, i: nat) {
    i + |EXT| <= |s| && s[i..i + |EXT|] == EXT
  }

  /** Compaction finds the file: the first ".metadata" of its metadata file's name is the one at the end. */
  predicate Visible(name: string) {
    forall i: nat :: i < |name| ==> !ExtAt(name + EXT, i)
  }

  /** The files compaction moves. */
  predicate Moved(d: Disk, name: string) {
    name in d.files && Visible(name) && d.files[name].start != -1 && d.files[name].size > 0
  }

  ghost predicate CoveredByMoved(d: Disk, b: int) {
    exists x :: Moved(d, x) && d.Covers(x, b)
  }

  /** The set bits of blocks that belong to moved files. */
  ghost function MovedBits(d: Disk): (bm: seq<bool>)
    ensures |bm| == |d.bitmap|
  {
    seq(|d.bitmap|, b requires 0 <= b < |d.bitmap| => CoveredByMoved(d, b))
  }

  /** The first block a moved file gets: the number of moved blocks before its old one. */
  ghost function NewStart(d: Disk, name: string): nat
    requires name in d.files
  {
    var s := d.files[name].start;
    if 0 <= s <= |d.bitmap| then Rank(MovedBits(d), s) else 0
  }

  /** Every moved file slides down, in order, to close the gaps; the bitmap becomes one prefix. Files that
      compaction does not find keep their control blocks. */
  ghost predicate Compacted(d: Disk, d': Disk) {
    && 0 < d.bs == d'.bs
    && |d'.bitmap| == |d.bitmap| && |d'.blocks| == |d.blocks|
    && d'.files.Keys == d.files.Keys
    && (forall name :: name in d.files && !Moved(d, name) ==> d'.files[name] == d.files[name])
    && (forall name :: Moved(d, name) ==>
          && d'.files[name] == Fcb(NewStart(d, name), d.files[name].size)
          && d'.Content(name) == d.Content(name))
    && (forall b :: 0 <= b < |d.bitmap| ==> (d'.bitmap[b] <==> b < Rank(MovedBits(d), |d.bitmap|)))
  }

  /** Every file that has blocks is one compaction finds. */
  ghost predicate AllFound(d: Disk) {
    forall name :: name in d.files && d.files[name].size > 0 ==> Visible(name)
  }

  lemma MovedBitsExact(d: Disk)
    requires Consistent(d) && AllFound(d)
    ensures MovedBits(d) == d.bitmap
  {
    forall b | 0 <= b < |d.bitmap|
      ensures MovedBits(d)[b] == d.bitmap[b]
    {
      if d.bitmap[b] {
        var x :| d.Covers(x, b);
        CoverPositive(d, x, b);
        assert Moved(d, x);
      }
    }
  }

  lemma CoverPositive(d: Disk, name: string, b: int)
    requires Consistent(d) && d.Covers(name, b)
    ensures d.files[name].size > 0 && 0 <= d.files[name].start <= b < |d.bitmap|
    ensures d.files[name].start + Units(d.files[name].size, d.bs) <= |d.bitmap|
  {
    UnitsFit(d.files[name].size, d.bs);
  }

  /** Inside a moved file's run the rank grows by one per block. */
  lemma RankInRun(d: Disk, name: string, b: int)
    requires Consistent(d) && Moved(d, name)
    requires d.files[name].start <= b <= d.files[name].start + d.Len(name)
    ensures 0 <= b <= |d.bitmap|
    ensures Rank(MovedBits(d), b) == NewStart(d, name) + (b - d.files[name].start)
  {
    var s := d.files[name].start;
    forall i | s <= i < b
      ensures MovedBits(d)[i]
    {
      assert d.Covers(name, i);
    }
    RankSpan(MovedBits(d), s, b);
  }

  /** The new runs lie below the total and do not overlap. */
  lemma NewRunsApart(d: Disk, x: string, y: string)
    requires Consistent(d) && Moved(d, x) && Moved(d, y) && x != y && d.files[x].start <= d.files[y].start
    ensures NewStart(d, x) + d.Len(x) <= NewStart(d, y)
  {
    UnitsFit(d.files[x].size, d.bs);
    UnitsFit(d.files[y].size, d.bs);
    assert d.Covers(y, d.files[y].start);
    assert !d.Covers(x, d.files[y].start);
    RankInRun(d, x, d.files[x].start + d.Len(x));
    RankSpan(MovedBits(d), d.files[x].start + d.Len(x), d.files[y].start);
  }

  lemma NewRunFits(d: Disk, x: string)
    requires Consistent(d) && Moved(d, x)
    ensures NewStart(d, x) + d.Len(x) <= Rank(MovedBits(d), |d.bitmap|) <= |d.bitmap|
  {
    RankInRun(d, x, d.files[x].start + d.Len(x));
    RankSpan(MovedBits(d), d.files[x].start + d.Len(x), |d.bitmap|);
  }

  lemma CompactedConsistent(d: Disk, d': Disk)
    requires Consistent(d) && AllFound(d) && Compacted(d, d')
    ensures Consistent(d')
  {
    forall name | name in d'.files
      ensures RunOk(d', d'.files[name])
    {
      if Moved(d, name) { NewRunFits(d, name); }
    }
    forall x, b: int | d'.Covers(x, b)
      ensures Moved(d, x) && NewStart(d, x) <= b < NewStart(d, x) + d.Len(x)
      ensures 0 <= b < |d'.bitmap| && d'.bitmap[b]
    {
      CompactedCover(d, d', x, b);
    }
    forall x, y, b: int | d'.Covers(x, b) && d'.Covers(y, b)
      ensures x == y
    {
      if x != y {
        if d.files[x].start <= d.files[y].start { NewRunsApart(d, x, y); } else { NewRunsApart(d, y, x); }
      }
    }
    forall b | 0 <= b < |d'.bitmap| && d'.bitmap[b]
      ensures exists x :: d'.Covers(x, b)
    {
      CompactedOnto(d, d', b);
    }
  }

  lemma CompactedCover(d: Disk, d': Disk, x: string, b: int)
    requires Consistent(d) && AllFound(d) && Compacted(d, d') && d'.Covers(x, b)
    ensures Moved(d, x) && NewStart(d, x) <= b < NewStart(d, x) + d.Len(x)
    ensures 0 <= b < |d'.bitmap| && d'.bitmap[b]
  {
    UnitsFit(d'.files[x].size, d.bs);
    assert Moved(d, x);
    NewRunFits(d, x);
  }

  lemma CompactedOnto(d: Disk, d': Disk, b: int)
    requires Consistent(d) && Compacted(d, d') && 0 <= b < |d'.bitmap| && d'.bitmap[b]
    ensures exists x :: d'.Covers(x, b)
  {
    RankOnto(MovedBits(d), |d.bitmap|, b);
    var i: nat :| i < |d.bitmap| && MovedBits(d)[i] && Rank(MovedBits(d), i) == b;
    var x :| Moved(d, x) && d.Covers(x, i);
    RankInRun(d, x, i);
    assert d'.Covers(x, b);
  }

  /** A file with blocks that compaction misses leaves bitmap and metadata in disagreement: its blocks are
      either marked free or given to another file. */
  lemma MissedBreaks(d: Disk, d': Disk, name: string)
    requires Consistent(d) && Compacted(d, d')
    requires name in d.files && d.files[name].size > 0 && !Visible(name)
    ensures !Consistent(d')
  {
    var b := d.files[name].start;
    UnitsFit(d.files[name].size, d.bs);
    assert d'.Covers(name, b);
    if Consistent(d') {
      assert d'.bitmap[b];
      RankOnto(MovedBits(d), |d.bitmap|, b);
      var i: nat :| i < |d.bitmap| && MovedBits(d)[i] && Rank(MovedBits(d), i) == b;
      var x :| Moved(d, x) && d.Covers(x, i);
      RankInRun(d, x, i);
      assert d'.Covers(x, b);
    }
  }

  /** Compaction keeps bitmap and metadata in agreement exactly when it finds every file that has blocks. */
  lemma CompactionExact(d: Disk, d': Disk)
    requires Consistent(d) && Compacted(d, d')
    ensures Consistent(d') <==> AllFound(d)
  {
    if AllFound(d) {
      CompactedConsistent(d, d');
    } else {
      var name :| name in d.files && d.files[name].size > 0 && !Visible(name);
      MissedBreaks(d, d', name);
    }
  }

  /** It keeps every file's bytes, keeps the amount of free space, and gathers it into one run. */
  lemma CompactionKeeps(d: Disk, d': Disk)
    requires Consistent(d) && AllFound(d) && Compacted(d, d')
    ensures Contents(d') == Contents(d)
    ensures AllFound(d')
    ensures FreeCount(d'.bitmap) == FreeCount(d.bitmap)
    ensures FreeRun(d'.bitmap, |d.bitmap| - FreeCount(d.bitmap), FreeCount(d.bitmap))
  {
    MovedBitsExact(d);
    CompactedConsistent(d, d');
    forall name | name in d.files
      ensures d'.Content(name) == d.Content(name)
    {
      if !Moved(d, name) {
        ContentBytes(d, name);
        ContentBytes(d', name);
      }
    }
    var t := Rank(d.bitmap, |d.bitmap|);
    PrefixRuns(d'.bitmap, t, |d.bitmap| - t);
  }

  /** Compaction moves every file it finds down, or leaves it, and keeps the files in their order. */
  lemma CompactionOrder(d: Disk, d': Disk, x: string, y: string)
    requires Consistent(d) && Compacted(d, d') && Moved(d, x) && Moved(d, y)
    ensures 0 <= d'.files[x].start <= d.files[x].start
    ensures d.files[x].start < d.files[y].start ==> d'.files[x].start + d.Len(x) <= d'.files[y].start
  {
    hide NewStart;
    StartsBelow(d, x);
    if d.files[x].start < d.files[y].start {
      NewRunsApart(d, x, y);
    }
  }

  lemma StartsBelow(d: Disk, x: string)
    requires Consistent(d) && Moved(d, x)
    ensures NewStart(d, x) <= d.files[x].start
  {
    assert RunOk(d, d.files[x]);
  }

  // ---- truncate ----

  /** The blocks right after the file's run are free, enough of them for n blocks in all. */
  predicate CanExtend(d: Disk, f: Fcb, n: nat)
    requires 0 < d.bs
  {
    var c := Units(f.size, d.bs);
    0 < c <= n && f.start != -1 && FreeRun(d.bitmap, f.start + c, n - c)
  }

  /** A truncate succeeds exactly when it needs no more blocks, can extend in place, or the free blocks of
      the whole disk are enough for all the blocks of the new size. */
  predicate CanTruncate(d: Disk, name: string, size: nat)
    requires 0 < d.bs && name in d.files
  {
    var n := Units(size, d.bs);
    n <= d.Len(name) || CanExtend(d, d.files[name], n) || n <= FreeCount(d.bitmap)
  }

  /** A file with its first block at the start of the disk, the only one with blocks, can be truncated to any size up to
      the whole disk. */
  lemma OnlyFileGrows(d: Disk, name: string, size: nat)
    requires Consistent(d) && name in d.files && d.files[name].start == 0
    requires forall x :: x in d.files && x != name ==> d.files[x].size == 0
    ensures CanTruncate(d, name, size) <==> Units(size, d.bs) <= |d.bitmap|
  {
    assert RunOk(d, d.files[name]);
    UnitsFit(d.files[name].size, d.bs);
    forall b: int | d.Len(name) <= b < |d.bitmap|
      ensures !d.bitmap[b]
    {
      if d.bitmap[b] {
        var x :| d.Covers(x, b);
        assert RunOk(d, d.files[x]);
        UnitsFit(d.files[x].size, d.bs);
      }
    }
  }

  lemma SlicePrefix(s: seq<Byte>, lo: nat, len: nat, keep: nat)
    requires keep <= len && lo + len <= |s|
    ensures s[lo..lo + len][..keep] == s[lo..lo + keep]
  {
  }

  /** A file whose first bytes were kept, or copied to its new run. */
  lemma TruncatedBy(d: Disk, d': Disk, name: string)
    requires Consistent(d) && Consistent(d') && d.bs == d'.bs && name in d.files && name in d'.files
    requires var f, f' := d.files[name], d'.files[name];
             var keep := if f'.size < f.size then f'.size else f.size;
             0 < keep ==>
               && 0 <= f.start * d.bs && f.start * d.bs + keep <= |d.blocks|
               && 0 <= f'.start * d.bs && f'.start * d.bs + keep <= |d'.blocks|
               && d'.blocks[f'.start * d.bs..f'.start * d.bs + keep] == d.blocks[f.start * d.bs..f.start * d.bs + keep]
    ensures Truncated(d.Content(name), d'.files[name].size, d'.Content(name))
  {
    hide Consistent, Units;
    ContentBytes(d, name);
    ContentBytes(d', name);
    var f, f' := d.files[name], d'.files[name];
    var keep := if f'.size < f.size then f'.size else f.size;
    if 0 < keep {
      var lo, lo' := f.start * d.bs, f'.start * d.bs;
      SlicePrefix(d'.blocks, lo', f'.size, keep);
      SlicePrefix(d.blocks, lo, f.size, keep);
    }
  }

  // ---- create and delete ----

  lemma CreatedContents(d: Disk, name: string)
    requires Consistent(d) && name !in d.files
    ensures Consistent(d.(files := d.files[name := Fcb(-1, 0)]))
    ensures Contents(d.(files := d.files[name := Fcb(-1, 0)])) == Contents(d)[name := []]
  {
    var d' := d.(files := d.files[name := Fcb(-1, 0)]);
    UnitsFit(0, d.bs);
    assert forall x, b: int :: d'.Covers(x, b) <==> d.Covers(x, b);
    forall b | 0 <= b < |d'.bitmap| && d'.bitmap[b]
      ensures exists x :: d'.Covers(x, b)
    {
      var x :| d.Covers(x, b);
      assert d'.Covers(x, b);
    }
    ContentBytes(d', name);
    assert forall x :: x in d.files ==> d'.Content(x) == d.Content(x);
  }

  lemma DeletedContents(d: Disk, d': Disk, name: string)
    requires Consistent(d) && name in d.files
    requires d' == d.(files := d.files - {name}, bitmap := d'.bitmap) && |d'.bitmap| == |d.bitmap|
    requires forall b :: 0 <= b < |d.bitmap| ==> (d'.bitmap[b] <==> d.bitmap[b] && !d.Covers(name, b))
    ensures Consistent(d') && Contents(d') == Contents(d) - {name}
  {
    assert forall x, b: int :: d'.Covers(x, b) <==> x != name && d.Covers(x, b);
    forall b | 0 <= b < |d'.bitmap| && d'.bitmap[b]
      ensures exists x :: d'.Covers(x, b)
    {
      var x :| d.Covers(x, b);
      assert d'.Covers(x, b);
    }
    assert forall x :: x in d'.files ==> d'.Content(x) == d.Content(x);
  }

  // ---- write ----

  /** A write inside a file's own run is a reassignment to the same run. */
  lemma WrittenReassigned(d: Disk, d': Disk, name: string, off: nat, data: seq<Byte>)
    requires Consistent(d) && name in d.files && d.files[name].start != -1 && off + |data| <= d.files[name].size
    requires 0 <= d.files[name].start * d.bs && d.files[name].start * d.bs + off + |data| <= |d.blocks|
    requires d' == d.(blocks := Splice(d.blocks, d.files[name].start * d.bs + off, data))
    ensures Reassigned(d, d', name, d.files[name]) && Available(d, name, d.files[name])
  {
    var f := d.files[name];
    UnitsFit(f.size, d.bs);
    assert (f.start + Units(f.size, d.bs)) * d.bs == f.start * d.bs + Units(f.size, d.bs) * d.bs;
    assert d'.files == d.files[name := f];
    forall b: int
      ensures d.Covers(name, b) <==> InRun(d, f, b)
    {
    }
  }

  lemma WrittenContents(d: Disk, d': Disk, name: string, off: nat, data: seq<Byte>)
    requires Consistent(d) && name in d.files && d.files[name].start != -1 && off + |data| <= d.files[name].size
    requires 0 <= d.files[name].start * d.bs && d.files[name].start * d.bs + off + |data| <= |d.blocks|
    requires d' == d.(blocks := Splice(d.blocks, d.files[name].start * d.bs + off, data))
    ensures |d.Content(name)| == d.files[name].size
    ensures Consistent(d') && Contents(d') == Contents(d)[name := Splice(d.Content(name), off, data)]
  {
    hide Reassigned, Available, Consistent;
    ContentBytes(d, name);
    WrittenReassigned(d, d', name, off, data);
    ReassignedContents(d, d', name, d.files[name]);
    ContentBytes(d', name);
    SpliceWindow(d.blocks, d.files[name].start * d.bs, d.files[name].size, off, data);
  }

  // ---- the branches of truncate ----

  /** The file has `size` bytes now, starting with what it had; every other file is as before. */
  ghost predicate ResizedFile(d: Disk, d': Disk, name: string, size: nat) {
    && name in d.files && d'.files.Keys == d.files.Keys
    && Consistent(d')
    && Contents(d') == Contents(d)[name := d'.Content(name)]
    && Truncated(d.Content(name), size, d'.Content(name))
    && d'.files == d.files[name := Fcb(d'.files[name].start, size)]
  }

  /** The run stays where it is: same blocks, in-place extension, or cut at the end. */
  lemma ResizedInPlace(d: Disk, d': Disk, name: string, size: nat)
    requires Consistent(d) && name in d.files && 0 < size && d.files[name].size > 0
    requires d' == d.(bitmap := d'.bitmap, files := d.files[name := Fcb(d.files[name].start, size)])
    requires var c, n, s := d.Len(name), Units(size, d.bs), d.files[name].start;
             if n == c then d'.bitmap == d.bitmap
             else if n < c then d'.bitmap == Mark(d.bitmap, s + n, c - n, false)
             else FreeRun(d.bitmap, s + c, n - c) && d'.bitmap == Mark(d.bitmap, s + c, n - c, true)
    ensures ResizedFile(d, d', name, size)
  {
    InPlaceReassigned(d, d', name, size);
    ReassignedContents(d, d', name, d'.files[name]);
    ContentBytes(d, name);
    ContentBytes(d', name);
    TruncatedBy(d, d', name);
  }

  lemma InPlaceReassigned(d: Disk, d': Disk, name: string, size: nat)
    requires Consistent(d) && name in d.files && 0 < size && d.files[name].size > 0
    requires d' == d.(bitmap := d'.bitmap, files := d.files[name := Fcb(d.files[name].start, size)])
    requires var c, n, s := d.Len(name), Units(size, d.bs), d.files[name].start;
             if n == c then d'.bitmap == d.bitmap
             else if n < c then d'.bitmap == Mark(d.bitmap, s + n, c - n, false)
             else FreeRun(d.bitmap, s + c, n - c) && d'.bitmap == Mark(d.bitmap, s + c, n - c, true)
    ensures Reassigned(d, d', name, d'.files[name]) && Available(d, name, d'.files[name])
  {
    var f := d'.files[name];
    forall b: int
      ensures d.Covers(name, b) <==> d.files[name].start <= b < d.files[name].start + d.Len(name)
      ensures d.Covers(name, b) ==> 0 <= b < |d.bitmap| && d.bitmap[b]
    {
    }
  }

  /** The file had no blocks, or has none now. */
  lemma ResizedFromOrToNothing(d: Disk, d': Disk, name: string, f: Fcb)
    requires Consistent(d) && name in d.files && d' == d.(bitmap := d'.bitmap, files := d.files[name := f])
    requires if d.files[name].size == 0
             then || (f == Fcb(-1, 0) && d'.bitmap == d.bitmap)
                  || (f.size > 0 && FreeRun(d.bitmap, f.start, Units(f.size, d.bs))
                      && d'.bitmap == Mark(d.bitmap, f.start, Units(f.size, d.bs), true))
             else f == Fcb(-1, 0) && d'.bitmap == Mark(d.bitmap, d.files[name].start, d.Len(name), false)
    ensures ResizedFile(d, d', name, f.size)
  {
    UnitsFit(f.size, d.bs);
    UnitsFit(d.files[name].size, d.bs);
    assert forall b: int :: d.Covers(name, b) <==> d.files[name].start <= b < d.files[name].start + d.Len(name);
    assert Reassigned(d, d', name, f) && Available(d, name, f);
    ReassignedContents(d, d', name, f);
    ContentBytes(d, name);
    TruncatedBy(d, d', name);
  }

  /** The file moves to a free run big enough for its new size, taking its blocks along. */
  lemma ResizedByMoving(d: Disk, d': Disk, name: string, r: nat, size: nat)
    requires Consistent(d) && name in d.files && d.files[name].size > 0 && d.Len(name) < Units(size, d.bs)
    requires FreeRun(d.bitmap, r, Units(size, d.bs))
    requires var s, c := d.files[name].start, d.Len(name);
             && 0 <= s * d.bs && s * d.bs + c * d.bs <= |d.blocks| && 0 <= r * d.bs && r * d.bs + c * d.bs <= |d.blocks|
             && d' == d.(files := d.files[name := Fcb(r, size)],
                         bitmap := Mark(Mark(d.bitmap, s, c, false), r, Units(size, d.bs), true),
                         blocks := Splice(d.blocks, r * d.bs, d.blocks[s * d.bs..s * d.bs + c * d.bs]))
    ensures ResizedFile(d, d', name, size)
  {
    MovedReassigned(d, d', name, r, size);
    ReassignedContents(d, d', name, Fcb(r, size));
    var s, c := d.files[name].start, d.Len(name);
    UnitsFit(d.files[name].size, d.bs);
    UnitsFit(size, d.bs);
    if size < d.files[name].size {
      UnitsMonotone(size, d.files[name].size, d.bs);
    }
    hide Consistent, Units, Reassigned, Available;
    MovedBytes(d.blocks, s * d.bs, r * d.bs, c * d.bs, d.files[name].size);
    TruncatedBy(d, d', name);
  }

  lemma MovedBytes(blocks: seq<Byte>, lo: nat, lo': nat, len: nat, keep: nat)
    requires lo + len <= |blocks| && lo' + len <= |blocks| && keep <= len
    ensures Splice(blocks, lo', blocks[lo..lo + len])[lo'..lo' + keep] == blocks[lo..lo + keep]
  {
    SpliceRead(blocks, lo', blocks[lo..lo + len], lo', lo' + keep);
    SlicePrefix(blocks, lo, len, keep);
  }

  lemma MovedReassigned(d: Disk, d': Disk, name: string, r: nat, size: nat)
    requires Consistent(d) && name in d.files && d.files[name].size > 0 && d.Len(name) < Units(size, d.bs)
    requires FreeRun(d.bitmap, r, Units(size, d.bs))
    requires var s, c := d.files[name].start, d.Len(name);
             && 0 <= s * d.bs && s * d.bs + c * d.bs <= |d.blocks| && 0 <= r * d.bs && r * d.bs + c * d.bs <= |d.blocks|
             && d' == d.(files := d.files[name := Fcb(r, size)],
                         bitmap := Mark(Mark(d.bitmap, s, c, false), r, Units(size, d.bs), true),
                         blocks := Splice(d.blocks, r * d.bs, d.blocks[s * d.bs..s * d.bs + c * d.bs]))
    ensures Reassigned(d, d', name, Fcb(r, size)) && Available(d, name, Fcb(r, size))
  {
    var c, n := d.Len(name), Units(size, d.bs);
    UnitsFit(size, d.bs);
    SplicedInside(d.blocks, r, c, n, d.bs, d.blocks[d.files[name].start * d.bs..d.files[name].start * d.bs + c * d.bs]);
    assert forall b: int :: d.Covers(name, b) <==> d.files[name].start <= b < d.files[name].start + c;
    hide Consistent, Units, Splice;
  }

  /** Bytes copied to the first c blocks of a run of n stay inside the run. */
  lemma SplicedInside(blocks: seq<Byte>, r: nat, c: nat, n: nat, w: nat, data: seq<Byte>)
    requires c <= n && 0 <= r * w && r * w + c * w <= |blocks| && |data| == c * w
    ensures forall a: int :: 0 <= a < |blocks| && !(r * w <= a < (r + n) * w) ==>
              Splice(blocks, r * w, data)[a] == blocks[a]
  {
    MulMono(r + c, r + n, w);
    MulDist(r, c, w);
  }
}
