// Byte sequences and the few facts about them that the memory and disk models share.
module Bytes {
  newtype Byte = x: int | 0 <= x < 256

  function Zeros(n: nat): (z: seq<Byte>)
    ensures |z| == n
  {
    seq(n, _ => 0)
  }

  /** `s` with the bytes from `at` on replaced by `data` (a bounded memcpy). */
  function Splice(s: seq<Byte>, at: nat, data: seq<Byte>): (r: seq<Byte>)
    requires at + |data| <= |s|
    ensures |r| == |s|
  {
    s[..at] + data + s[at + |data|..]
  }

  lemma SpliceJoin(s: seq<Byte>, at: nat, a: seq<Byte>, b: seq<Byte>)
    requires at + |a| + |b| <= |s|
    ensures Splice(Splice(s, at, a), at + |a|, b) == Splice(s, at, a + b)
  {
  }

  lemma SpliceAt(s: seq<Byte>, at: nat, data: seq<Byte>, k: nat)
    requires at + |data| <= |s| && k < |s|
    ensures Splice(s, at, data)[k] == if at <= k < at + |data| then data[k - at] else s[k]
  {
  }

  lemma SpliceRead(s: seq<Byte>, at: nat, data: seq<Byte>, from: nat, to: nat)
    requires at + |data| <= |s| && from <= to <= |s|
    ensures to <= at ==> Splice(s, at, data)[from..to] == s[from..to]
    ensures at + |data| <= from ==> Splice(s, at, data)[from..to] == s[from..to]
    ensures at <= from && to <= at + |data| ==> Splice(s, at, data)[from..to] == data[from - at..to - at]
  {
    var r := Splice(s, at, data);
    forall k: nat | k < to - from
      ensures r[from..to][k] == if at <= from + k < at + |data| then data[from + k - at] else s[from..to][k]
    {
      SpliceAt(s, at, data, from + k);
    }
    if to <= at || at + |data| <= from {
      assert r[from..to] == s[from..to];
    } else if at <= from && to <= at + |data| {
      assert r[from..to] == data[from - at..to - at];
    }
  }

  // ---- rows of equal width laid end to end ----

  /** Row `f` of a flat buffer cut into rows of `w` bytes. */
  function Row(buf: seq<Byte>, w: nat, f: nat): (r: seq<Byte>)
    requires (f + 1) * w <= |buf|
    ensures |r| == w
  {
    RowBounds(f, f + 1, w);
    assert (f + 1) * w == f * w + w;
    buf[f * w..(f + 1) * w]
  }

  lemma MulDist(a: int, b: int, w: int)
    ensures (a + b) * w == a * w + b * w
  {
  }

  lemma MulNonNeg(a: nat, w: nat)
    ensures 0 <= a * w
  {
  }

  lemma RowBounds(f: nat, g: nat, w: nat)
    requires f < g
    ensures 0 <= f * w && f * w + w == (f + 1) * w && (f + 1) * w <= g * w
  {
    MulDist(f, 1, w);
    MulDist(f + 1, g - (f + 1), w);
    MulNonNeg(g - (f + 1), w);
    MulNonNeg(f, w);
  }

  lemma SliceSlice(s: seq<Byte>, lo: nat, hi: nat, off: nat, len: nat)
    requires lo <= hi <= |s| && off + len <= hi - lo
    ensures s[lo + off..lo + off + len] == s[lo..hi][off..off + len]
  {
    var a, b := s[lo + off..lo + off + len], s[lo..hi][off..off + len];
    assert |a| == |b|;
    forall k: nat | k < len
      ensures a[k] == b[k]
    {
    }
  }

  /** Splicing inside a window is splicing the window. */
  lemma SpliceWindow(s: seq<Byte>, lo: nat, len: nat, off: nat, data: seq<Byte>)
    requires lo + len <= |s| && off + |data| <= len
    ensures Splice(s, lo + off, data)[lo..lo + len] == Splice(s[lo..lo + len], off, data)
  {
    var a, b := Splice(s, lo + off, data)[lo..lo + len], Splice(s[lo..lo + len], off, data);
    forall k: nat | k < len
      ensures a[k] == b[k]
    {
      SpliceAt(s, lo + off, data, lo + k);
      SpliceAt(s[lo..lo + len], off, data, k);
    }
  }

  lemma RowRead(buf: seq<Byte>, w: nat, f: nat, off: nat, len: nat)
    requires (f + 1) * w <= |buf| && off + len <= w
    ensures f * w >= 0 && f * w + off + len <= |buf|
    ensures buf[f * w + off..f * w + off + len] == Row(buf, w, f)[off..off + len]
  {
    RowBounds(f, f + 1, w);
    var lo, hi := f * w, (f + 1) * w;
    SliceSlice(buf, lo, hi, off, len);
  }

  lemma RowWrite(buf: seq<Byte>, w: nat, f: nat, off: nat, data: seq<Byte>, g: nat)
    requires (f + 1) * w <= |buf| && (g + 1) * w <= |buf|
    requires off + |data| <= w
    ensures f * w >= 0 && f * w + off + |data| <= |buf|
    ensures g != f ==> Row(Splice(buf, f * w + off, data), w, g) == Row(buf, w, g)
    ensures Row(Splice(buf, f * w + off, data), w, f) == Splice(Row(buf, w, f), off, data)
  {
    RowBounds(f, f + 1, w);
    RowBounds(g, g + 1, w);
    if g < f {
      RowBounds(g, f, w);
    } else if f < g {
      RowBounds(f, g, w);
    }
    var lo, other := f * w, g * w;
    SpliceWindow(buf, lo, w, off, data);
    if g != f {
      SpliceRead(buf, lo + off, data, other, other + w);
    }
  }

  /** Writing a whole row. */
  lemma RowReplace(buf: seq<Byte>, w: nat, f: nat, row: seq<Byte>, g: nat)
    requires (f + 1) * w <= |buf| && (g + 1) * w <= |buf| && |row| == w
    ensures f * w >= 0 && f * w + w <= |buf|
    ensures Row(Splice(buf, f * w, row), w, g) == if g == f then row else Row(buf, w, g)
  {
    RowWrite(buf, w, f, 0, row, g);
    hide Row;
    assert Splice(Row(buf, w, f), 0, row) == row;
  }

  /** How many units of w bytes hold `bytes` bytes. */
  function Units(bytes: nat, w: nat): nat
    requires 0 < w
  {
    bytes / w + if bytes % w != 0 then 1 else 0
  }

  lemma DivMod(a: nat, w: nat)
    requires 0 < w
    ensures a == (a / w) * w + a % w && 0 <= a % w < w && 0 <= (a / w) * w
  {
  }

  lemma PageInside(a: nat, w: nat, k: nat)
    requires 0 < w
    ensures 0 <= k * w
    ensures a / w < k <==> a < k * w
  {
    DivMod(a, w);
    MulNonNeg(k, w);
    if a / w < k {
      RowBounds(a / w, k, w);
    } else {
      MulDist(k, a / w - k, w);
      MulNonNeg(a / w - k, w);
    }
  }

  ghost predicate AllWidth(rows: seq<seq<Byte>>, w: nat) {
    forall i :: 0 <= i < |rows| ==> |rows[i]| == w
  }

  function Flatten(rows: seq<seq<Byte>>): seq<Byte> {
    if rows == [] then [] else rows[0] + Flatten(rows[1..])
  }

  lemma {:induction false} FlattenLength(rows: seq<seq<Byte>>, w: nat)
    requires AllWidth(rows, w)
    ensures |Flatten(rows)| == |rows| * w
  {
    if rows != [] {
      FlattenLength(rows[1..], w);
      assert |rows| * w == w + (|rows| - 1) * w;
    }
  }

  /** Splitting a flat buffer at row `p`. */
  lemma {:induction false} FlattenSplit(rows: seq<seq<Byte>>, p: nat)
    requires p <= |rows|
    ensures Flatten(rows) == Flatten(rows[..p]) + Flatten(rows[p..])
  {
    if p > 0 {
      FlattenSplit(rows[1..], p - 1);
      assert rows[..p][1..] == rows[1..][..p - 1];
      assert rows[p..] == rows[1..][p - 1..];
      assert rows[..p][0] == rows[0];
    } else {
      assert rows[..p] == [] && rows[p..] == rows;
    }
  }

  lemma SpliceInside(a: seq<Byte>, r: seq<Byte>, t: seq<Byte>, o: nat, data: seq<Byte>)
    requires o + |data| <= |r|
    ensures Splice(a + (r + t), |a| + o, data) == a + (Splice(r, o, data) + t)
  {
  }

  /** Writing inside row p of the rows is writing at p*w+o of the flat buffer. */
  lemma FlattenWrite(rows: seq<seq<Byte>>, w: nat, p: nat, o: nat, data: seq<Byte>)
    requires AllWidth(rows, w) && p < |rows| && o + |data| <= w
    ensures p * w + o + |data| <= |Flatten(rows)|
    ensures Flatten(rows[p := Splice(rows[p], o, data)]) == Splice(Flatten(rows), p * w + o, data)
  {
    hide Flatten, Splice;
    var r' := Splice(rows[p], o, data);
    FlattenRead(rows, w, p, o, |data|);
    FlattenAround(rows, w, p, rows[p]);
    FlattenAround(rows, w, p, r');
    assert rows[p := rows[p]] == rows;
    SpliceInside(Flatten(rows[..p]), rows[p], Flatten(rows[p + 1..]), o, data);
  }

  lemma FlattenAround(rows: seq<seq<Byte>>, w: nat, p: nat, r: seq<Byte>)
    requires AllWidth(rows, w) && p < |rows|
    ensures |Flatten(rows[..p])| == p * w
    ensures Flatten(rows[p := r]) == Flatten(rows[..p]) + (r + Flatten(rows[p + 1..]))
  {
    var rows' := rows[p := r];
    FlattenLength(rows[..p], w);
    FlattenSplit(rows', p);
    assert rows'[..p] == rows[..p];
    assert rows'[p..][0] == r;
    assert rows'[p..][1..] == rows[p + 1..];
  }

  lemma SliceInside(a: seq<Byte>, r: seq<Byte>, t: seq<Byte>, o: nat, n: nat)
    requires o + n <= |r|
    ensures (a + (r + t))[|a| + o..|a| + o + n] == r[o..o + n]
  {
  }

  /** Byte range [p*w+o, p*w+o+n) of the flat buffer is range [o, o+n) of row p. */
  lemma FlattenRead(rows: seq<seq<Byte>>, w: nat, p: nat, o: nat, n: nat)
    requires AllWidth(rows, w) && p < |rows| && o + n <= w
    ensures p * w + o + n <= |Flatten(rows)|
    ensures Flatten(rows)[p * w + o..p * w + o + n] == rows[p][o..o + n]
  {
    FlattenAround(rows, w, p, rows[p]);
    assert rows[p := rows[p]] == rows;
    hide Flatten;
    SliceInside(Flatten(rows[..p]), rows[p], Flatten(rows[p + 1..]), o, n);
  }

  lemma UnitsFit(bytes: nat, w: nat)
    requires 0 < w
    ensures bytes <= Units(bytes, w) * w < bytes + w
    ensures Units(bytes, w) == 0 <==> bytes == 0
  {
    DivMod(bytes, w);
    assert (bytes / w + 1) * w == (bytes / w) * w + w;
  }

  lemma UnitsMonotone(a: nat, b: nat, w: nat)
    requires 0 < w && a <= b
    ensures Units(a, w) <= Units(b, w)
  {
    UnitsFit(a, w);
    UnitsFit(b, w);
    if Units(b, w) < Units(a, w) {
      RowBounds(Units(b, w), Units(a, w), w);
    }
  }

  // ---- shared by the models of what clients see ----

  /** The answer to a request. */
  datatype Reply = Done(ok: bool) | Data(ok: bool, bytes: seq<Byte>)

  /** The bytes of something resized: the old ones up to the shorter length. */
  predicate Truncated(before: seq<Byte>, size: nat, after: seq<Byte>) {
    && |after| == size
    && var keep := if size < |before| then size else |before|;
       after[..keep] == before[..keep]
  }
}
