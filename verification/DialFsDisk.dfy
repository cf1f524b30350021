// DialFS in the form the program has it: bitmap, block buffer and metadata changed in place.
module DialFsDisk {
  import opened Bytes
  import opened DialFs
  import opened FileMap

  class FileSystem {
    const bs: nat
    const bitmap: array<bool>
    const blocks: array<Byte>
    var files: map<string, Fcb>

    ghost function D(): Disk
      reads this, bitmap, blocks
    {
      Disk(bs, bitmap[..], blocks[..], files)
    }

    ghost predicate Valid()
      reads this, bitmap, blocks
    {
      Consistent(D())
    }

    constructor (blockSize: nat, blockCount: nat)
      requires 0 < blockSize && blockSize * blockCount < 0x1_0000_0000
      ensures Valid() && fresh(bitmap) && fresh(blocks)
      ensures bs == blockSize && bitmap.Length == blockCount && files == map[]
    {
      bs := blockSize;
      bitmap := new bool[blockCount](_ => false);
      blocks := new Byte[blockCount * blockSize](_ => 0);
      files := map[];
    }

    // ---- dialfs_metadata.c ----

    method LoadFcb(name: string) returns (f: Fcb)
      ensures f == if name in files then files[name] else Fcb(-1, 0)
    {
      f := Fcb(-1, 0);
      if name in files {
        f := files[name];
      }
    }

    method SaveFcb(name: string, f: Fcb)
      modifies this`files
      ensures files == old(files)[name := f]
    {
      files := files[name := f];
    }

    // ---- dialfs_bitmap.c ----

    /** First block of the lowest free run of `count` blocks, or -1. */
    method FindContiguous(count: nat) returns (r: int)
      ensures count == 0 ==> r == 0
      ensures r == -1 <==> 0 < count && forall s: int :: !FreeRun(bitmap[..], s, count)
      ensures r != -1 && 0 < count ==> && FreeRun(bitmap[..], r, count)
                                       && forall s: int | s < r :: !FreeRun(bitmap[..], s, count)
    {
      if count <= 0 {
        return 0;
      }
      var consecutive, start, i := 0, -1, 0;
      while i < bitmap.Length
        invariant 0 <= consecutive <= i <= bitmap.Length && consecutive < count
        invariant 0 < consecutive ==> start == i - consecutive
        invariant forall k :: i - consecutive <= k < i ==> !bitmap[k]
        invariant consecutive < i ==> bitmap[i - consecutive - 1]
        invariant forall s: int :: s + count <= i ==> !FreeRun(bitmap[..], s, count)
      {
        if !bitmap[i] {
          if consecutive == 0 {
            start := i;
          }
          consecutive := consecutive + 1;
          if consecutive == count {
            assert FreeRun(bitmap[..], start, count);
            return start;
          }
        } else {
          consecutive, start := 0, -1;
        }
        i := i + 1;
      }
      return -1;
    }

    method MarkUsed(start: nat, count: nat)
      requires start + count <= bitmap.Length
      modifies bitmap
      ensures bitmap[..] == Mark(old(bitmap[..]), start, count, true)
    {
      for i := start to start + count
        invariant bitmap[..] == Mark(old(bitmap[..]), start, i - start, true)
      {
        bitmap[i] := true;
      }
    }

    method MarkFree(start: nat, count: nat)
      requires start + count <= bitmap.Length
      modifies bitmap
      ensures bitmap[..] == Mark(old(bitmap[..]), start, count, false)
    {
      for i := start to start + count
        invariant bitmap[..] == Mark(old(bitmap[..]), start, i - start, false)
      {
        bitmap[i] := false;
      }
    }

    method PutBytes(pos: nat, data: seq<Byte>)
      requires pos + |data| <= blocks.Length
      modifies blocks
      ensures blocks[..] == Splice(old(blocks[..]), pos, data)
    {
      forall i | 0 <= i < |data| {
        blocks[pos + i] := data[i];
      }
    }

    /** memmove inside the block buffer. */
    method MoveBytes(src: nat, dst: nat, len: nat)
      requires src + len <= blocks.Length && dst + len <= blocks.Length
      modifies blocks
      ensures blocks[..] == Splice(old(blocks[..]), dst, old(blocks[src..src + len]))
    {
      var temp := blocks[src..src + len];
      forall i | 0 <= i < len {
        blocks[dst + i] := temp[i];
      }
    }

    /** The files compaction finds that have blocks, in order of their first block. */
    method FilesByStart() returns (names: seq<string>)
      requires Valid()
      ensures Complete(D(), names)
    {
      names := [];
      var entries := files.Keys;
      while entries != {}
        invariant entries <= files.Keys
        invariant Ordered(D(), names) && forall x :: x in names <==> Moved(D(), x) && x !in entries
        decreases entries
      {
        var name :| name in entries;
        entries := entries - {name};
        var f := LoadFcb(name);
        var found := Find(name + EXT);
        FirstExt(name);
        if found == |name| && f.start != -1 && f.size > 0 {
          names := InsertByStart(name, names);
        }
      }
    }

    /** Position of the first ".metadata" in s (strstr). */
    method Find(s: string) returns (p: int)
      ensures p == -1 <==> forall i: nat :: !ExtAt(s, i)
      ensures p != -1 ==> 0 <= p && ExtAt(s, p) && forall i: nat | i < p :: !ExtAt(s, i)
    {
      var i := 0;
      while i + |EXT| <= |s|
        invariant forall k: nat | k < i :: !ExtAt(s, k)
      {
        if s[i..i + |EXT|] == EXT {
          assert ExtAt(s, i);
          return i;
        }
        i := i + 1;
      }
      return -1;
    }

    /** Insertion into the list sorted by first block. */
    method InsertByStart(name: string, names: seq<string>) returns (r: seq<string>)
      requires Valid() && Moved(D(), name) && name !in names && Ordered(D(), names)
      ensures Ordered(D(), r) && forall x :: x in r <==> x == name || x in names
    {
      var i := 0;
      while i < |names| && files[names[i]].start <= files[name].start
        invariant i <= |names|
        invariant forall k: nat | k < i :: files[names[k]].start <= files[name].start
      {
        i := i + 1;
      }
      r := names[..i] + [name] + names[i..];
      InsertedOrder(D(), name, names, i);
    }

    /** Steps 4 and 5 of compaction: the files' blocks, packed in order, overwrite the block buffer. */
    method PackBlocks(names: seq<string>) returns (moved: seq<Fcb>)
      requires Valid() && Complete(D(), names)
      modifies blocks
      ensures PackedTo(old(D()), names, |names|, moved, blocks[..])
    {
      hide Consistent, NextFree, PackedTo, Complete;
      ghost var d := D();
      var temp := new Byte[blocks.Length](_ => 0);
      var next := 0;
      moved := [];
      NextStart(d, names);
      PackedNone(d, names, temp[..]);
      for i := 0 to |names|
        invariant D() == d
        invariant next == NextFree(d, names, i)
        invariant |moved| == i && PackedTo(d, names, i, moved, temp[..])
      {
        var f := LoadFcb(names[i]);
        NameThere(d, names, i);
        var n := Units(f.size, bs);
        PackStep(d, names, i);
        Packed(d, names, i, moved, temp[..]);
        CopyRun(temp, next * bs, f.start * bs, n * bs);
        moved := moved + [f.(start := next)];
        next := next + n;
      }
      Overwrite(temp);
    }

    /** memcpy from the block buffer. */
    method CopyRun(dst: array<Byte>, at: nat, src: nat, len: nat)
      requires dst != blocks && src + len <= blocks.Length && at + len <= dst.Length
      modifies dst
      ensures dst[..] == Splice(old(dst[..]), at, blocks[src..src + len])
    {
      forall a | 0 <= a < len {
        dst[at + a] := blocks[src + a];
      }
    }

    method Overwrite(src: array<Byte>)
      requires src.Length == blocks.Length && src != blocks
      modifies blocks
      ensures blocks[..] == src[..]
    {
      forall a | 0 <= a < blocks.Length {
        blocks[a] := src[a];
      }
    }

    method ClearBitmap()
      modifies bitmap
      ensures forall b :: 0 <= b < bitmap.Length ==> !bitmap[..][b]
    {
      for i := 0 to bitmap.Length
        invariant forall b :: 0 <= b < i ==> !bitmap[..][b]
      {
        bitmap[i] := false;
      }
    }

    /** Steps 6 and 7: the bitmap is rebuilt and the control blocks saved. */
    method SavePacked(names: seq<string>, moved: seq<Fcb>, ghost d: Disk)
      requires Consistent(d) && Complete(d, names)
      requires d.bs == bs && |d.bitmap| == bitmap.Length && d.files == files
      requires PackedTo(d, names, |names|, moved, blocks[..])
      modifies this`files, bitmap
      ensures forall b :: 0 <= b < bitmap.Length ==> (bitmap[..][b] <==> b < NextFree(d, names, |names|))
      ensures files.Keys == d.files.Keys
      ensures forall x :: x in files && x !in names ==> files[x] == d.files[x]
      ensures forall k: nat | k < |names| :: files[names[k]] == moved[k]
    {
      hide Consistent, NextFree, Complete, PackedTo;
      ClearBitmap();
      var current := 0;
      NextStart(d, names);
      PackedNames(d, names, moved, blocks[..]);
      for i := 0 to |names|
        invariant current == NextFree(d, names, i) && files.Keys == d.files.Keys
        invariant forall b :: 0 <= b < bitmap.Length ==> (bitmap[..][b] <==> b < current)
        invariant forall x :: x in files && x !in names[..i] ==> files[x] == d.files[x]
        invariant forall k: nat | k < i :: files[names[k]] == moved[k]
      {
        NameThere(d, names, i);
        PackedSize(d, names, i, moved, blocks[..]);
        var n := Units(moved[i].size, bs);
        PackStep(d, names, i);
        MarkUsed(current, n);
        SaveFcb(names[i], moved[i]);
        current := current + n;
      }
    }

    /** Slides every file it finds down to the first blocks of the disk. */
    method Compact()
      requires Valid()
      modifies this`files, bitmap, blocks
      ensures Compacted(old(D()), D())
    {
      ghost var d := D();
      var names := FilesByStart();
      var moved := PackBlocks(names);
      SavePacked(names, moved, d);
      CompactDone(d, D(), names, moved);
    }

    // ---- dialfs.c ----

    method Create(name: string) returns (ok: bool)
      requires Valid()
      modifies this`files
      ensures Valid()
      ensures ok <==> name !in old(files)
      ensures files == if ok then old(files)[name := Fcb(-1, 0)] else old(files)
      ensures Contents(D()) == if ok then old(Contents(D()))[name := []] else old(Contents(D()))
    {
      if name in files {
        return false;
      }
      CreatedContents(D(), name);
      SaveFcb(name, Fcb(-1, 0));
      assert D() == old(D()).(files := old(D()).files[name := Fcb(-1, 0)]);
      ok := true;
    }

    method Delete(name: string) returns (ok: bool)
      requires Valid()
      modifies this`files, bitmap
      ensures Valid()
      ensures ok <==> name in old(files)
      ensures files == old(files) - {name}
      ensures Contents(D()) == old(Contents(D())) - {name}
    {
      if name !in files {
        assert files - {name} == files;
        assert Contents(D()) - {name} == Contents(D());
        return false;
      }
      ghost var d := D();
      var f := LoadFcb(name);
      RunInside(d, name);
      if f.start != -1 && f.size > 0 {
        MarkFree(f.start, Units(f.size, bs));
      }
      files := files - {name};
      DeletedContents(d, D(), name);
      ok := true;
    }

    /** A free run of n blocks, compacting the disk if there is none as it stands; -1 when even that fails. */
    method FindOrCompact(n: nat) returns (r: int)
      requires Valid() && 0 < n && (NoRun(bitmap[..], n) ==> AllFound(D()))
      modifies this`files, bitmap, blocks
      ensures Valid() && (AllFound(D()) <==> old(AllFound(D()))) && Contents(D()) == old(Contents(D()))
      ensures files.Keys == old(files).Keys && forall x :: x in files ==> files[x].size == old(files)[x].size
      ensures r == -1 <==> FreeCount(old(bitmap[..])) < n
      ensures r != -1 ==> FreeRun(bitmap[..], r, n)
      ensures !NoRun(old(bitmap[..]), n) ==>
                D() == old(D()) && r != -1 && forall s: int | s < r :: !FreeRun(bitmap[..], s, n)
    {
      hide Consistent, Contents, AllFound, Compacted, FreeCount;
      ghost var d := D();
      r := FindContiguous(n);
      if r == -1 {
        Compact();
        CompactionExact(d, D());
        CompactionKeeps(d, D());
        CompactedFiles(d, D());
        EnoughRoom(D().bitmap, FreeCount(d.bitmap), n);
        r := FindContiguous(n);
      }
      if r != -1 {
        FreeRunNeedsSpace(bitmap[..], r, n);
      }
    }

    /** Growing a file that has no blocks. */
    method GrowEmpty(name: string, size: nat) returns (ok: bool)
      requires Valid() && name in files && files[name].size == 0 && 0 < size
      requires Compacts(D(), name, size) ==> AllFound(D())
      modifies this`files, bitmap, blocks
      ensures Valid() && (old(AllFound(D())) ==> (AllFound(D()) <==> !ok || Visible(name)))
      ensures ok <==> Units(size, bs) <= FreeCount(old(bitmap[..]))
      ensures !ok ==> Contents(D()) == old(Contents(D()))
      ensures ok ==> ResizedContents(old(Contents(D())), Contents(D()), name, size)
      ensures ok && !NoRun(old(bitmap[..]), Units(size, bs)) ==>
                && files == old(files)[name := Fcb(files[name].start, size)]
                && FreeRun(old(bitmap[..]), files[name].start, Units(size, bs))
                && forall s: int | s < files[name].start :: !FreeRun(old(bitmap[..]), s, Units(size, bs))
    {
      hide Consistent, AllFound, ResizedContents, FreeCount;
      ghost var d0 := D();
      BlockSizePositive(d0, size);
      var n := Units(size, bs);
      var r := FindOrCompact(n);
      if r == -1 {
        return false;
      }
      ghost var d := D();
      StartOfEmpty(d, name);
      MarkUsed(r, n);
      SaveFcb(name, Fcb(r, size));
      ResizedFromOrToNothing(d, D(), name, Fcb(r, size));
      ResizedMeans(d, D(), name, size);
      ok := true;
    }

    /** The blocks [start, start+extra) exist and are free. */
    method BlocksAreFree(start: nat, extra: nat) returns (ok: bool)
      requires 0 < extra
      ensures ok <==> FreeRun(bitmap[..], start, extra)
    {
      for i := start to start + extra
        invariant start < i ==> i <= bitmap.Length
        invariant forall k :: start <= k < i ==> k < bitmap.Length && !bitmap[..][k]
      {
        if i >= bitmap.Length || bitmap[i] {
          assert !FreeRun(bitmap[..], start, extra);
          return false;
        }
      }
      ok := true;
    }

    /** Growing a file that has blocks: in place if the next blocks are free, else by moving it. */
    method GrowFile(name: string, size: nat) returns (ok: bool)
      requires Valid() && name in files && files[name].size > 0
      requires Units(files[name].size, bs) < Units(size, bs)
      requires Compacts(D(), name, size) ==> AllFound(D())
      modifies this`files, bitmap, blocks
      ensures Valid() && (old(AllFound(D())) ==> AllFound(D()))
      ensures ok <==> || CanExtend(old(D()), old(files)[name], Units(size, bs))
                      || Units(size, bs) <= FreeCount(old(bitmap[..]))
      ensures !ok ==> Contents(D()) == old(Contents(D()))
      ensures ok ==> ResizedContents(old(Contents(D())), Contents(D()), name, size)
      ensures var f, n := old(files)[name], Units(size, bs); var c := Units(f.size, bs);
              if && f.start + n <= bitmap.Length
                 && forall b: int :: f.start + c <= b < f.start + n ==> !old(bitmap[..])[b]
              then
                && ok && files == old(files)[name := Fcb(f.start, size)] && blocks[..] == old(blocks[..])
                && forall b: int :: 0 <= b < bitmap.Length ==>
                     (bitmap[..][b] <==> old(bitmap[..])[b] || f.start + c <= b < f.start + n)
              else
                && (ok <==> n <= FreeCount(old(bitmap[..])))
                && (ok && !NoRun(old(bitmap[..]), n) ==>
                      && files == old(files)[name := Fcb(files[name].start, size)]
                      && FreeRun(old(bitmap[..]), files[name].start, n)
                      && forall s: int | s < files[name].start :: !FreeRun(old(bitmap[..]), s, n))
    {
      hide Consistent, AllFound, ResizedContents, FreeCount, ResizedFile, Contents;
      ghost var d0 := D();
      RunInside(d0, name);
      UnitsFit(size, bs);
      var f := files[name];
      var c, n := Units(f.size, bs), Units(size, bs);
      var extend := BlocksAreFree(f.start + c, n - c);
      if extend {
        MarkUsed(f.start + c, n - c);
        SaveFcb(name, f.(size := size));
        ResizedInPlace(d0, D(), name, size);
        ResizedMeans(d0, D(), name, size);
        return true;
      }
      var r := FindOrCompact(n);
      if r == -1 {
        return false;
      }
      MoveFile(name, r, size);
      ok := true;
    }

    /** Moves c blocks and marks n of them used in their new place. */
    method MoveRun(start: nat, r: nat, c: nat, n: nat)
      requires start + c <= bitmap.Length && r + n <= bitmap.Length
      requires 0 <= start * bs && start * bs + c * bs <= blocks.Length
      requires 0 <= r * bs && r * bs + c * bs <= blocks.Length && 0 <= c * bs
      modifies bitmap, blocks
      ensures bitmap[..] == Mark(Mark(old(bitmap[..]), start, c, false), r, n, true)
      ensures blocks[..] == Splice(old(blocks[..]), r * bs, old(blocks[..])[start * bs..start * bs + c * bs])
    {
      MoveBytes(start * bs, r * bs, c * bs);
      MarkFree(start, c);
      MarkUsed(r, n);
    }

    method MoveFile(name: string, r: nat, size: nat)
      requires Valid() && name in files && files[name].size > 0
      requires Units(files[name].size, bs) < Units(size, bs) && FreeRun(bitmap[..], r, Units(size, bs))
      modifies this`files, bitmap, blocks
      ensures Valid() && (old(AllFound(D())) ==> AllFound(D()))
      ensures files == old(files)[name := Fcb(r, size)]
      ensures ResizedContents(old(Contents(D())), Contents(D()), name, size)
    {
      hide Consistent, AllFound, ResizedContents, ResizedFile, Contents, Units, Mark, Splice;
      ghost var d := D();
      var f := LoadFcb(name);
      RunInside(d, name);
      var c, n := Units(f.size, bs), Units(size, bs);
      RunBytes(d, f.start, c);
      RunBytes(d, r, c);
      MoveRun(f.start, r, c, n);
      SaveFcb(name, Fcb(r, size));
      ResizedByMoving(d, D(), name, r, size);
      ResizedMeans(d, D(), name, size);
    }

    /** A truncate that needs no more blocks than the file has. */
    method Shrink(name: string, size: nat)
      requires Valid() && name in files && Units(size, bs) <= Units(files[name].size, bs)
      modifies this`files, bitmap
      ensures Valid() && (old(AllFound(D())) ==> AllFound(D()))
      ensures files == old(files)[name := Fcb(if Units(size, bs) == 0 then -1 else old(files)[name].start, size)]
      ensures ResizedContents(old(Contents(D())), Contents(D()), name, size)
    {
      hide Consistent, AllFound, ResizedContents, ResizedFile, Contents;
      ghost var d := D();
      RunInside(d, name);
      StartOfEmpty(d, name);
      UnitsFit(size, bs);
      var f := LoadFcb(name);
      var c, n := Units(f.size, bs), Units(size, bs);
      if n == c {
        f := f.(size := size);
      } else if n == 0 {
        if f.start != -1 && c > 0 {
          MarkFree(f.start, c);
        }
        f := Fcb(-1, size);
      } else if f.start != -1 && c > 0 {
        MarkFree(f.start + n, c - n);
        f := f.(size := size);
      }
      SaveFcb(name, f);
      if n == 0 {
        ResizedFromOrToNothing(d, D(), name, f);
      } else {
        ResizedInPlace(d, D(), name, size);
      }
      ResizedMeans(d, D(), name, size);
    }

    method Truncate(name: string, size: nat) returns (ok: bool)
      requires Valid() && Fits(Op.Truncate(name, size), bs) && (Compacts(D(), name, size) ==> AllFound(D()))
      modifies this`files, bitmap, blocks
      ensures Valid() && (old(AllFound(D())) ==> (AllFound(D()) <==> !ok || size == 0 || Visible(name)))
      ensures ok <==> name in old(files) && CanTruncate(old(D()), name, size)
      ensures !ok ==> Contents(D()) == old(Contents(D()))
      ensures ok ==> ResizedContents(old(Contents(D())), Contents(D()), name, size)
      ensures name in old(files) ==>
                var f, n := old(files)[name], Units(size, bs); var c := Units(f.size, bs);
                var room := f.start + n <= bitmap.Length
                            && forall b: int :: f.start + c <= b < f.start + n ==> 0 <= b && !old(bitmap[..])[b];
                && (ok <==> n <= c || (0 < c && room) || n <= FreeCount(old(bitmap[..])))
                && (0 < n && (n <= c || (0 < c && room)) ==>
                      files == old(files)[name := Fcb(f.start, size)] && blocks[..] == old(blocks[..]))
                && (ok && c < n && !(0 < c && room) && !NoRun(old(bitmap[..]), n) ==>
                      && files == old(files)[name := Fcb(files[name].start, size)]
                      && FreeRun(old(bitmap[..]), files[name].start, n)
                      && forall s: int | s < files[name].start :: !FreeRun(old(bitmap[..]), s, n))
    {
      BlockSizePositive(D(), size);
      hide Consistent, AllFound, ResizedContents, ResizedFile, Contents, FreeCount;
      if name !in files {
        return false;
      }
      RunInside(D(), name);
      StartOfEmpty(D(), name);
      var f := LoadFcb(name);
      var current, new_ := Units(f.size, bs), Units(size, bs);
      if new_ <= current {
        Shrink(name, size);
        ok := true;
      } else if f.start == -1 || current == 0 {
        ok := GrowEmpty(name, size);
      } else {
        ok := GrowFile(name, size);
      }
    }

    method Write(name: string, data: seq<Byte>, off: nat) returns (ok: bool)
      requires Valid() && off + |data| < 0x1_0000_0000
      modifies blocks
      ensures Valid()
      ensures ok <==> name in files && files[name].size != 0 && off + |data| <= |old(D()).Content(name)|
      ensures !ok ==> blocks[..] == old(blocks[..])
      ensures ok ==> Contents(D()) == old(Contents(D()))[name := Splice(old(D()).Content(name), off, data)]
    {
      hide Consistent, Contents;
      if name !in files {
        return false;
      }
      ghost var d := D();
      var f := LoadFcb(name);
      RunInside(d, name);
      ContentBytes(d, name);
      if f.start == -1 || off + |data| > f.size {
        return false;
      }
      PutBytes(f.start * bs + off, data);
      WrittenContents(d, D(), name, off, data);
      ok := true;
    }

    method Read(name: string, size: nat, off: nat) returns (ok: bool, data: seq<Byte>)
      requires Valid() && off + size < 0x1_0000_0000
      ensures ok <==> name in files && files[name].size != 0 && off + size <= |D().Content(name)|
      ensures ok ==> data == D().Content(name)[off..off + size]
    {
      hide Consistent;
      if name !in files {
        return false, [];
      }
      var f := LoadFcb(name);
      RunInside(D(), name);
      ContentBytes(D(), name);
      if f.start == -1 || off + size > f.size {
        return false, [];
      }
      var lo := f.start * bs;
      SliceSlice(blocks[..], lo, lo + f.size, off, size);
      data := blocks[lo + off..lo + off + size];
      ok := true;
    }

    /** What clients see. */
    ghost function View(): Space
      reads this, bitmap, blocks
    {
      Space(bs, bitmap.Length, Contents(D()))
    }

    /** One client request. */
    method Execute(op: Op) returns (r: Reply)
      requires Valid() && Fits(op, bs) && (op.Truncate? && Compacts(D(), op.name, op.size) ==> AllFound(D()))
      modifies this`files, bitmap, blocks
      ensures Valid()
      ensures old(AllFound(D())) ==>
                (AllFound(D()) <==> !(op.Truncate? && r.ok && 0 < op.size) || Visible(op.name))
      ensures Step(old(View()), op, r, View())
    {
      hide Consistent, ResizedContents, Rank;
      ghost var d := D();
      BlockSizePositive(d, 0);
      match op {
        case Create(name) =>
          var ok := Create(name);
          r := Done(ok);
        case Delete(name) =>
          var ok := Delete(name);
          r := Done(ok);
        case Truncate(name, size) =>
          var ok := Truncate(name, size);
          TruncateStep(d, D(), op, ok);
          r := Done(ok);
        case Write(name, data, off) =>
          var ok := Write(name, data, off);
          SizeOfContent(d, op.name);
          r := Done(ok);
        case Read(name, size, off) =>
          var ok, data := Read(name, size, off);
          SizeOfContent(d, op.name);
          r := Data(ok, if ok then data else []);
      }
    }

    /** Any run of client requests is a run of the file map, as long as no file gets blocks that compaction cannot
        find, or no file gets blocks at all. */
    method Run(ops: seq<Op>) returns (replies: seq<Reply>, ghost trace: seq<Space>)
      requires Valid() && forall op :: op in ops ==> Fits(op, bs)
      requires || (AllFound(D()) && forall op :: op in ops && GivesBlocks(op) ==> Visible(op.name))
               || (forall op :: op in ops ==> !GivesBlocks(op))
      modifies this`files, bitmap, blocks
      ensures Valid()
      ensures FileMap.Run(trace, ops, replies) && trace[0] == old(View()) && trace[|ops|] == View()
    {
      hide Consistent, AllFound, Step, Contents, Visible, Fits, FreeRun, CanExtend;
      replies, trace := [], [View()];
      for i := 0 to |ops|
        invariant Valid() && (AllFound(D()) || forall op :: op in ops ==> !GivesBlocks(op))
        invariant |trace| == i + 1 && trace[0] == old(View()) && trace[i] == View()
        invariant |replies| == i
        invariant forall k: nat | k < i :: Step(trace[k], ops[k], replies[k], trace[k + 1])
      {
        BlockSizePositive(D(), 0);
        NoBlocksNoCompaction(D(), ops[i]);
        var r := Execute(ops[i]);
        replies, trace := replies + [r], trace + [View()];
      }
    }
  }

  /** A request after which a file may have blocks it did not have before. */
  predicate GivesBlocks(op: Op) {
    op.Truncate? && 0 < op.size
  }

  lemma NoBlocksNoCompaction(d: Disk, op: Op)
    requires Consistent(d)
    ensures !GivesBlocks(op) ==> !(op.Truncate? && Compacts(d, op.name, op.size))
  {
    UnitsFit(0, d.bs);
  }

  /** Growing file `name` to `size` bytes compacts the disk: no free run is long enough, and it has no blocks or
      cannot be extended in place. */
  ghost predicate Compacts(d: Disk, name: string, size: nat) {
    && 0 < d.bs && name in d.files && d.Len(name) < Units(size, d.bs) && NoRun(d.bitmap, Units(size, d.bs))
    && (d.files[name].size == 0 || !CanExtend(d, d.files[name], Units(size, d.bs)))
  }

  ghost predicate NoRun(bm: seq<bool>, n: nat) {
    forall s: int :: !FreeRun(bm, s, n)
  }

  /** On a disk of four blocks a file of three grows to four, although only one block is free: in place. */
  method ThreeThenFour() returns (created: bool, three: bool, four: bool)
    ensures created && three && four
  {
    var fs := new FileSystem(1, 4);
    created := fs.Create("a");
    ghost var bm := fs.bitmap[..];
    assert Units(3, 1) == 3 && Units(4, 1) == 4;
    PrefixRuns(bm, 0, 3);
    assert FreeRun(bm, 0, 3) && !NoRun(bm, 3);
    three := fs.Truncate("a", 3);
    assert fs.files["a"] == Fcb(0, 3);
    OnlyFileGrows(fs.D(), "a", 4);
    four := fs.Truncate("a", 4);
  }

  /** Sizes and offsets of a request fit in 32 bits, and the number of blocks in 31. */
  predicate Fits(op: Op, bs: nat) {
    match op
    case Truncate(_, size) => size < 0x1_0000_0000 && (0 < bs ==> Units(size, bs) < 0x8000_0000)
    case Write(_, data, off) => off + |data| < 0x1_0000_0000
    case Read(_, size, off) => off + size < 0x1_0000_0000
    case _ => true
  }

  /** The used bits of the bitmap are as many as the blocks all files need. */
  lemma {:induction false} SpaceAccounting(d: Disk)
    requires Consistent(d)
    ensures Rank(d.bitmap, |d.bitmap|) == Blocks(Contents(d), d.bs)
    decreases |Contents(d)|
  {
    if Contents(d) == map[] {
      assert forall x :: x in d.files ==> x in Contents(d);
      assert forall b :: 0 <= b < |d.bitmap| ==> !d.bitmap[b];
      RankSpan(d.bitmap, 0, |d.bitmap|);
    } else {
      var x := Pick(Contents(d));
      var f, n := d.files[x], d.Len(x);
      ContentBytes(d, x);
      RunInside(d, x);
      StartOfEmpty(d, x);
      var bm := if n == 0 then d.bitmap else Mark(d.bitmap, f.start, n, false);
      var d' := d.(files := d.files - {x}, bitmap := bm);
      DeletedContents(d, d', x);
      assert |Contents(d')| < |Contents(d)|;
      SpaceAccounting(d');
      if n > 0 {
        RankUnmark(d.bitmap, f.start, n);
      }
    }
  }

  lemma RankUnmark(bm: seq<bool>, s: nat, n: nat)
    requires s + n <= |bm| && forall i :: s <= i < s + n ==> bm[i]
    ensures Rank(Mark(bm, s, n, false), |bm|) + n == Rank(bm, |bm|)
  {
    var bm' := Mark(bm, s, n, false);
    RankSame(bm, bm', 0, s);
    RankSpan(bm, s, s + n);
    RankSpan(bm', s, s + n);
    RankSame(bm, bm', s + n, |bm|);
  }

  lemma {:induction false} RankSame(bm: seq<bool>, bm': seq<bool>, s: nat, e: nat)
    requires |bm| == |bm'| && s <= e <= |bm| && forall i :: s <= i < e ==> bm[i] == bm'[i]
    ensures Rank(bm, e) - Rank(bm, s) == Rank(bm', e) - Rank(bm', s)
    decreases e
  {
    if s < e {
      RankSame(bm, bm', s, e - 1);
    }
  }

  lemma TruncateStep(d: Disk, d': Disk, op: Op, ok: bool)
    requires Consistent(d) && op.Truncate? && d'.bs == d.bs && |d'.bitmap| == |d.bitmap|
    requires ok <==> op.name in d.files && CanTruncate(d, op.name, op.size)
    requires !ok ==> Contents(d') == Contents(d)
    requires ok ==> ResizedContents(Contents(d), Contents(d'), op.name, op.size)
    ensures Step(Space(d.bs, |d.bitmap|, Contents(d)), op, Done(ok), Space(d.bs, |d.bitmap|, Contents(d')))
  {
    SpaceAccounting(d);
    if op.name in d.files {
      ContentBytes(d, op.name);
    }
  }

  lemma SizeOfContent(d: Disk, name: string)
    requires Consistent(d)
    ensures name in d.files ==> |Contents(d)[name]| == d.files[name].size
  {
    if name in d.files {
      ContentBytes(d, name);
    }
  }

  /** Where a file's run is. */
  lemma RunInside(d: Disk, name: string)
    requires Consistent(d) && name in d.files
    ensures 0 < d.bs
    ensures d.files[name].size == 0 <==> d.files[name].start == -1
    ensures d.files[name].size > 0 ==> 0 <= d.files[name].start && d.files[name].start + d.Len(name) <= |d.bitmap|
    ensures forall b: int :: d.Covers(name, b) <==> d.files[name].start <= b < d.files[name].start + d.Len(name)
    ensures forall b: int :: d.Covers(name, b) ==> 0 <= b < |d.bitmap| && d.bitmap[b]
  {
    assert RunOk(d, d.files[name]);
  }

  lemma StartOfEmpty(d: Disk, name: string)
    requires Consistent(d) && name in d.files
    ensures d.Len(name) == 0 <==> d.files[name].size == 0
    ensures d.files[name].size == 0 ==> d.files[name] == Fcb(-1, 0)
  {
    assert RunOk(d, d.files[name]);
    UnitsFit(d.files[name].size, d.bs);
  }

  lemma BlockSizePositive(d: Disk, size: nat)
    requires Consistent(d)
    ensures 0 < d.bs && (0 < size ==> 0 < Units(size, d.bs))
  {
    UnitsFit(size, d.bs);
  }

  lemma CompactedFiles(d: Disk, d': Disk)
    requires Compacted(d, d')
    ensures d'.files.Keys == d.files.Keys && forall x :: x in d'.files ==> d'.files[x].size == d.files[x].size
    ensures d'.bs == d.bs && |d'.bitmap| == |d.bitmap|
  {
  }

  lemma EnoughRoom(bm: seq<bool>, room: nat, n: nat)
    requires room <= |bm| && FreeRun(bm, |bm| - room, room)
    ensures n <= room ==> FreeRun(bm, |bm| - room, n)
  {
  }

  lemma ResizedMeans(d: Disk, d': Disk, name: string, size: nat)
    requires Consistent(d) && ResizedFile(d, d', name, size)
    ensures Consistent(d') && ResizedContents(Contents(d), Contents(d'), name, size)
    ensures AllFound(d) ==> (AllFound(d') <==> size == 0 || Visible(name))
    ensures AllFound(d) && (Units(size, d.bs) <= d.Len(name) || 0 < d.files[name].size) ==> AllFound(d')
  {
    hide Consistent, Visible, Units;
    if AllFound(d) {
      FoundAfter(d, d', name, size);
    }
    if 0 < size && d.files[name].size == 0 {
      BlockSizePositive(d, size);
      UnitsFit(size, d.bs);
      StartOfEmpty(d, name);
    }
  }

  lemma FoundAfter(d: Disk, d': Disk, name: string, size: nat)
    requires AllFound(d) && name in d.files && name in d'.files
    requires d'.files == d.files[name := Fcb(d'.files[name].start, size)]
    ensures AllFound(d') <==> size == 0 || Visible(name)
  {
    hide Visible;
  }

  /** The bytes of control block f in the buffer are `content`. */
  predicate Holds(bs: nat, blocks: seq<Byte>, f: Fcb, content: seq<Byte>) {
    && 0 <= f.start && 0 <= f.start * bs && f.start * bs + f.size <= |blocks|
    && blocks[f.start * bs..f.start * bs + f.size] == content
  }

  /** First block for file i of the packed order, and after the last file the number of blocks in use. */
  ghost function NextFree(d: Disk, names: seq<string>, i: nat): nat
    requires i <= |names|
  {
    if i < |names| && names[i] in d.files then NewStart(d, names[i]) else Rank(MovedBits(d), |d.bitmap|)
  }

  ghost predicate Complete(d: Disk, names: seq<string>) {
    Ordered(d, names) && forall x :: Moved(d, x) <==> x in names
  }

  /** Between two consecutive files of the order there are no moved blocks. */
  lemma GapEmpty(d: Disk, names: seq<string>, i: int, b: int)
    requires Consistent(d) && Complete(d, names) && -1 <= i < |names| && 0 <= b < |d.bitmap|
    requires i == -1 || d.files[names[i]].start + d.Len(names[i]) <= b
    requires i + 1 < |names| ==> b < d.files[names[i + 1]].start
    ensures !MovedBits(d)[b]
  {
    if MovedBits(d)[b] {
      var x :| Moved(d, x) && d.Covers(x, b);
      var j: nat :| j < |names| && names[j] == x;
      CoverPositive(d, x, b);
      if j <= i {
        UnitsFit(d.files[names[i]].size, d.bs);
        assert d.Covers(names[i], d.files[names[i]].start);
        assert j < i ==> d.Covers(x, d.files[names[i]].start);
      }
    }
  }

  lemma NextStart(d: Disk, names: seq<string>)
    requires Consistent(d) && Complete(d, names)
    ensures NextFree(d, names, 0) == 0
  {
    var e := if names == [] then |d.bitmap| else d.files[names[0]].start;
    forall b | 0 <= b < e
      ensures !MovedBits(d)[b]
    {
      GapEmpty(d, names, -1, b);
    }
    RankSpan(MovedBits(d), 0, e);
  }

  /** The next file goes right after file i. */
  lemma NextAfter(d: Disk, names: seq<string>, i: nat)
    requires Consistent(d) && Complete(d, names) && i < |names|
    ensures 0 <= d.files[names[i]].start <= d.files[names[i]].start + d.Len(names[i]) <= |d.bitmap|
    ensures NextFree(d, names, i) + d.Len(names[i]) == NextFree(d, names, i + 1) <= |d.bitmap|
  {
    var x := names[i];
    assert Moved(d, x);
    var end := d.files[x].start + d.Len(x);
    var e := if i + 1 < |names| then d.files[names[i + 1]].start else |d.bitmap|;
    RankInRun(d, x, end);
    OrderedGap(d, names, i);
    NewRunFits(d, x);
    forall b | end <= b < e
      ensures !MovedBits(d)[b]
    {
      GapEmpty(d, names, i, b);
    }
    RankSpan(MovedBits(d), end, e);
  }

  /** A run of n blocks from block s occupies bytes of the buffer. */
  lemma RunBytes(d: Disk, s: int, n: nat)
    requires Consistent(d) && 0 <= s && s + n <= |d.bitmap|
    ensures 0 <= s * d.bs && s * d.bs + n * d.bs == (s + n) * d.bs <= |d.blocks|
  {
    MulMono(s + n, |d.bitmap|, d.bs);
    MulMono(0, s, d.bs);
    assert (s + n) * d.bs == s * d.bs + n * d.bs;
  }

  lemma PackStep(d: Disk, names: seq<string>, i: nat)
    requires Consistent(d) && Complete(d, names) && i < |names|
    ensures var f, n := d.files[names[i]], d.Len(names[i]);
            && 0 <= f.start && f.start + n <= |d.bitmap|
            && NextFree(d, names, i) + n == NextFree(d, names, i + 1) <= |d.bitmap|
            && 0 <= f.start * d.bs && f.start * d.bs + n * d.bs <= |d.blocks|
            && 0 <= NextFree(d, names, i) * d.bs && NextFree(d, names, i) * d.bs + n * d.bs <= |d.blocks|
            && f.size <= n * d.bs
  {
    hide NextFree;
    NextAfter(d, names, i);
    RunBytes(d, d.files[names[i]].start, d.Len(names[i]));
    RunBytes(d, NextFree(d, names, i), d.Len(names[i]));
    UnitsFit(d.files[names[i]].size, d.bs);
  }

  lemma OrderedGap(d: Disk, names: seq<string>, i: nat)
    requires Consistent(d) && Complete(d, names) && i < |names|
    ensures i + 1 < |names| ==>
              0 <= d.files[names[i]].start + d.Len(names[i]) <= d.files[names[i + 1]].start <= |d.bitmap|
  {
    if i + 1 < |names| {
      var x, y := names[i], names[i + 1];
      UnitsFit(d.files[y].size, d.bs);
      UnitsFit(d.files[x].size, d.bs);
      assert d.Covers(y, d.files[y].start);
      assert !d.Covers(x, d.files[y].start);
    }
  }

  /** Bytes written from block `next` on leave a control block that ends before it alone. */
  lemma HeldBelow(bs: nat, t: seq<Byte>, m: Fcb, content: seq<Byte>, next: nat, data: seq<Byte>)
    requires 0 < bs && Holds(bs, t, m, content) && m.start + Units(m.size, bs) <= next
    requires 0 <= next * bs && next * bs + |data| <= |t|
    ensures Holds(bs, Splice(t, next * bs, data), m, content)
  {
    UnitsFit(m.size, bs);
    MulMono(m.start + Units(m.size, bs), next, bs);
    assert (m.start + Units(m.size, bs)) * bs == m.start * bs + Units(m.size, bs) * bs;
    SpliceRead(t, next * bs, data, m.start * bs, m.start * bs + m.size);
  }

  /** Copying file i puts its bytes in place. */
  lemma PackedNew(d: Disk, name: string, next: nat, t: seq<Byte>)
    requires Consistent(d) && Moved(d, name)
    requires 0 <= next * d.bs && next * d.bs + d.Len(name) * d.bs <= |t|
    ensures var f, n := d.files[name], d.Len(name);
            && 0 <= f.start * d.bs && f.start * d.bs + n * d.bs <= |d.blocks|
            && Holds(d.bs, Splice(t, next * d.bs, d.blocks[f.start * d.bs..f.start * d.bs + n * d.bs]),
                     Fcb(next, f.size), d.Content(name))
  {
    var f, n := d.files[name], d.Len(name);
    ContentBytes(d, name);
    SpliceRead(t, next * d.bs, d.blocks[f.start * d.bs..f.start * d.bs + n * d.bs], next * d.bs, next * d.bs + f.size);
  }

  /** Copying file i does not disturb the files packed before it. */
  lemma PackedOld(d: Disk, names: seq<string>, i: nat, moved: seq<Fcb>, t: seq<Byte>, data: seq<Byte>)
    requires Consistent(d) && Complete(d, names) && i < |names| && PackedTo(d, names, i, moved, t)
    requires 0 <= NewStart(d, names[i]) * d.bs && NewStart(d, names[i]) * d.bs + |data| <= |t|
    ensures forall k: nat | k < i ::
              Holds(d.bs, Splice(t, NewStart(d, names[i]) * d.bs, data), moved[k], d.Content(names[k]))
  {
    hide NewStart;
    forall k: nat | k < i
      ensures Holds(d.bs, Splice(t, NewStart(d, names[i]) * d.bs, data), moved[k], d.Content(names[k]))
    {
      NewRunsApart(d, names[k], names[i]);
      HeldBelow(d.bs, t, moved[k], d.Content(names[k]), NewStart(d, names[i]), data);
    }
  }

  lemma Packed(d: Disk, names: seq<string>, i: nat, moved: seq<Fcb>, t: seq<Byte>)
    requires Consistent(d) && Complete(d, names) && i < |names| && |t| == |d.blocks|
    requires PackedTo(d, names, i, moved, t)
    ensures names[i] in d.files && 0 < d.bs
    ensures var f, n, next := d.files[names[i]], d.Len(names[i]), NextFree(d, names, i);
            && 0 <= f.start * d.bs && f.start * d.bs + n * d.bs <= |d.blocks| && next * d.bs + n * d.bs <= |t|
               && 0 <= next * d.bs
            && PackedTo(d, names, i + 1, moved + [Fcb(next, f.size)],
                        Splice(t, next * d.bs, d.blocks[f.start * d.bs..f.start * d.bs + n * d.bs]))
  {
    hide Consistent, NewStart, Holds;
    NameThere(d, names, i);
    PackStep(d, names, i);
    PackedNew(d, names[i], NextFree(d, names, i), t);
    var f, n := d.files[names[i]], d.Len(names[i]);
    PackedOld(d, names, i, moved, t, d.blocks[f.start * d.bs..f.start * d.bs + n * d.bs]);
  }

  /** The first i files of the order are packed into t, under the control blocks `moved`. */
  ghost predicate PackedTo(d: Disk, names: seq<string>, i: nat, moved: seq<Fcb>, t: seq<Byte>) {
    && i <= |names| && Ordered(d, names) && |moved| == i
    && (forall k: nat | k < i :: moved[k] == Fcb(NewStart(d, names[k]), d.files[names[k]].size))
    && (forall k: nat | k < i :: Holds(d.bs, t, moved[k], d.Content(names[k])))
  }

  lemma PackedNames(d: Disk, names: seq<string>, moved: seq<Fcb>, t: seq<Byte>)
    requires Complete(d, names) && PackedTo(d, names, |names|, moved, t)
    ensures |moved| == |names| && forall k: nat | k < |names| :: names[k] in d.files
  {
    forall k: nat | k < |names|
      ensures names[k] in d.files
    {
      assert Moved(d, names[k]);
    }
  }

  lemma PackedSize(d: Disk, names: seq<string>, i: nat, moved: seq<Fcb>, t: seq<Byte>)
    requires Complete(d, names) && PackedTo(d, names, |names|, moved, t) && i < |names|
    ensures |moved| == |names| && names[i] in d.files && moved[i].size == d.files[names[i]].size
    ensures forall k: nat | k < i :: names[k] != names[i]
  {
  }

  lemma PackedNone(d: Disk, names: seq<string>, t: seq<Byte>)
    requires Complete(d, names)
    ensures PackedTo(d, names, 0, [], t)
  {
  }

  lemma NameThere(d: Disk, names: seq<string>, i: nat)
    requires Consistent(d) && Complete(d, names) && i < |names|
    ensures names[i] in d.files && 0 < d.bs
  {
    assert Moved(d, names[i]);
  }

  lemma CompactDone(d: Disk, d': Disk, names: seq<string>, moved: seq<Fcb>)
    requires Consistent(d) && Complete(d, names) && |moved| == |names|
    requires d'.bs == d.bs && |d'.bitmap| == |d.bitmap| && |d'.blocks| == |d.blocks| && d'.files.Keys == d.files.Keys
    requires PackedTo(d, names, |names|, moved, d'.blocks)
    requires forall b :: 0 <= b < |d.bitmap| ==> (d'.bitmap[b] <==> b < NextFree(d, names, |names|))
    requires forall x :: x in d'.files && x !in names ==> d'.files[x] == d.files[x]
    requires forall k: nat | k < |names| :: d'.files[names[k]] == moved[k]
    ensures Compacted(d, d')
  {
    forall x | Moved(d, x)
      ensures d'.files[x] == Fcb(NewStart(d, x), d.files[x].size) && d'.Content(x) == d.Content(x)
    {
      var k: nat :| k < |names| && names[k] == x;
      assert Holds(d.bs, d'.blocks, moved[k], d.Content(names[k]));
    }
  }

  /** Distinct moved files in order of their first block. */
  ghost predicate Ordered(d: Disk, names: seq<string>) {
    && (forall i: nat | i < |names| :: Moved(d, names[i]))
    && (forall i: nat, j: nat | i < j < |names| ::
         names[i] != names[j] && d.files[names[i]].start <= d.files[names[j]].start)
  }

  /** Element k of `names` with `name` inserted at position i. */
  function Inserted(name: string, names: seq<string>, i: nat, k: nat): string
    requires i <= |names| && k <= |names|
  {
    if k < i then names[k] else if k == i then name else names[k - 1]
  }

  lemma InsertedElements(name: string, names: seq<string>, i: nat)
    requires i <= |names|
    ensures |names[..i] + [name] + names[i..]| == |names| + 1
    ensures forall k: nat | k <= |names| :: (names[..i] + [name] + names[i..])[k] == Inserted(name, names, i, k)
    ensures forall x :: x in names[..i] + [name] + names[i..] <==> x == name || x in names
  {
    assert names == names[..i] + names[i..];
  }

  lemma InsertedOrder(d: Disk, name: string, names: seq<string>, i: nat)
    requires Moved(d, name) && name !in names && Ordered(d, names) && i <= |names|
    requires forall k: nat | k < i :: d.files[names[k]].start <= d.files[name].start
    requires i < |names| ==> d.files[name].start < d.files[names[i]].start
    ensures Ordered(d, names[..i] + [name] + names[i..])
    ensures forall x :: x in names[..i] + [name] + names[i..] <==> x == name || x in names
  {
    hide Visible;
    InsertedElements(name, names, i);
    forall j: nat, k: nat | j <= k <= |names|
      ensures var a, b := Inserted(name, names, i, j), Inserted(name, names, i, k);
              Moved(d, a) && Moved(d, b) && (j < k ==> a != b && d.files[a].start <= d.files[b].start)
    {
    }
  }

  lemma FirstExt(name: string)
    ensures ExtAt(name + EXT, |name|)
    ensures Visible(name) <==> forall i: nat | i < |name| :: !ExtAt(name + EXT, i)
  {
    assert (name + EXT)[|name|..|name| + |EXT|] == EXT;
  }
}
