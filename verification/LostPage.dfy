// A run in which the truncating swap file loses a byte: one frame, one-byte pages, a process of two pages.
module LostPage {
  import opened Bytes
  import opened Paging
  import opened ClockReplacement
  import opened PageFault
  import opened FlatMemory
  import opened Transfers
  import opened TransferBytes
  import opened PagedRequests

  function Of(pages: seq<Page>, taken: bool, ram: Byte, file: seq<seq<Byte>>): Config {
    Config(Mem(1, false, map[1 := pages], [taken], [ram], if file == [] then map[] else map[1 := file]), 0)
  }

  function InUse(modified: bool): Page {
    Page(0, true, modified, true)
  }

  /** Without interference, one attempt at one byte: the access, and the copy. */
  lemma OneAttempt(c: Config, d: Config, addr: nat, req: Request)
    requires Frames(c.m) && c.m.ps == 1 && |c.m.bitmap| == 1 && Access(c.m, c.hand, d.m, d.hand, 1, addr)
    requires c.m.Has(1, addr) && Present(d, 1, addr) && req.Size() == 1
    ensures PageNo(addr, 1) == addr && PageOffset(addr, 1) == 0
    ensures Attempt(1, c, 1, addr, req, 0, []) == Again(Copy(d, 1, addr, 1, req, 0, 1), 1, Chunk(d, 1, addr, 1, req, 1))
    ensures var e := Play(1, c, 1, addr, req, 0, []);
            e.last == Copy(d, 1, addr, 1, req, 0, 1) && e.done == 1 && e.got == Chunk(d, 1, addr, 1, req, 1)
  {
    hide Frames, AtCheck, AtLock, Access, Obtain, Attempt, Play, Copy, Chunk, PageNo, PageOffset;
    QuietAttempt(c, 1, addr, []);
    ObtainIs(c, d, 1, addr);
    PageParts(addr, 1);
    AttemptCases(1, c, 1, addr, req, 0, [], addr, 1);
    var a := Attempt(1, c, 1, addr, req, 0, []);
    PlayOn(1, c, 1, addr, req, 0, []);
    PlayOn(1, a.c, 1, addr, req, 1, Later([], 3));
    assert a.chunk + [] == a.chunk;
  }

  /** The state with one present page, at index n, in the only frame. */
  lemma FramesOf(n: nat, modified: bool, ram: Byte, file: seq<seq<Byte>>)
    requires n < 2 && AllWidth(file, 1)
    ensures Frames(Of(if n == 0 then [InUse(modified), ABSENT] else [ABSENT, InUse(modified)], true, ram, file).m)
    ensures Full(Of(if n == 0 then [InUse(modified), ABSENT] else [ABSENT, InUse(modified)], true, ram, file).m)
  {
    var m := Of(if n == 0 then [InUse(modified), ABSENT] else [ABSENT, InUse(modified)], true, ram, file).m;
    assert m.Owns(1, n, 0);
    forall p: nat, k: nat | m.Has(p, k)
      ensures p == 1 && k < 2 && EntryShape(m.tables[p][k])
    {
    }
  }

  lemma FramesStart()
    ensures Frames(Of([ABSENT, ABSENT], false, 0, []).m)
  {
    var m := Of([ABSENT, ABSENT], false, 0, []).m;
    forall p: nat, k: nat | m.Has(p, k)
      ensures p == 1 && k < 2 && EntryShape(m.tables[p][k])
    {
    }
  }

  /** Page 1 gets the free frame. */
  lemma FirstAccess()
    ensures Access(Of([ABSENT, ABSENT], false, 0, []).m, 0, Of([ABSENT, InUse(false)], true, 0, []).m, 0, 1, 1)
  {
    var m, m' := Of([ABSENT, ABSENT], false, 0, []).m, Of([ABSENT, InUse(false)], true, 0, []).m;
    assert LowestFree(m, 0);
    assert m.Stored(1, 1) == Zeros(1) == [0];
    assert Splice([0], 0, [0]) == [0];
    assert [false][0 := true] == [true] && [ABSENT, ABSENT][1 := InUse(false)] == [ABSENT, InUse(false)];
    var f := FaultFree(m, 1, 1, 0);
    assert f.tables == m'.tables && f.ram == m'.ram && f.bitmap == m'.bitmap;
  }

  function OneOf(n: nat, modified: bool): seq<Page> {
    if n == 0 then [InUse(modified), ABSENT] else [ABSENT, InUse(modified)]
  }

  /** The hand goes round once to evict the other page. */
  lemma HandTurns(n: nat, ram: Byte, file: seq<seq<Byte>>)
    requires n < 2 && AllWidth(file, 1)
    ensures Frames(Of(OneOf(n, true), true, ram, file).m) && Full(Of(OneOf(n, true), true, ram, file).m)
    ensures ClockChoice(Of(OneOf(n, true), true, ram, file).m, 0, 1, 1, n)
    ensures ClearUse(Of(OneOf(n, true), true, ram, file).m, Passed(0, 1, 1)).tables[1] ==
            OneOf(n, true)[n := Page(0, true, true, false)]
  {
    var m := Of(OneOf(n, true), true, ram, file).m;
    FramesOf(n, true, ram, file);
    assert m.Owns(1, n, 0) && m.tables[1][n].used;
    assert forall p: nat, k: nat :: m.Owns(p, k, 0) ==> p == 1 && k == n;
    assert Pos(0, 0, 1) == 0 && 0 in Passed(0, 1, 1);
  }

  /** The evicted page goes to the file, and cuts or extends it to end there; then the other one is loaded. */
  lemma EvictAndLoad(c: Mem, n: nat, ram: Byte, file: seq<seq<Byte>>, file': seq<seq<Byte>>, back: Byte)
    requires n < 2 && file' == SwapWrite(file, 1, false, n, [ram]) && [back] == SwapRead(file', 1, 1 - n)
    requires c == Of(OneOf(n, true)[n := Page(0, true, true, false)], true, ram, file).m
    ensures Load(Evict(c, 1, n), 1, 1 - n, 0) == Of(OneOf(1 - n, false), true, back, file').m
  {
    assert Row([ram], 1, 0) == [ram] && c.FrameBytes(0) == [ram];
    var e := Evict(c, 1, n);
    assert e.swap == map[1 := file'] && e.Stored(1, 1 - n) == [back];
    assert Splice([ram], 0, [back]) == [back];
    var l, m' := Load(e, 1, 1 - n, 0), Of(OneOf(1 - n, false), true, back, file').m;
    assert l.tables[1] == m'.tables[1];
    assert l.tables == m'.tables && l.ram == m'.ram && l.swap == m'.swap;
  }

  /** Page n is modified and in the only frame; the other page is asked for. */
  lemma Exchange(n: nat, ram: Byte, file: seq<seq<Byte>>, file': seq<seq<Byte>>, back: Byte)
    requires n < 2 && AllWidth(file, 1) && file' == SwapWrite(file, 1, false, n, [ram])
    requires [back] == SwapRead(file', 1, 1 - n)
    ensures Frames(Of(OneOf(n, true), true, ram, file).m)
    ensures Access(Of(OneOf(n, true), true, ram, file).m, 0, Of(OneOf(1 - n, false), true, back, file').m, 0, 1, 1 - n)
  {
    var m, m' := Of(OneOf(n, true), true, ram, file).m, Of(OneOf(1 - n, false), true, back, file').m;
    HandTurns(n, ram, file);
    var c := ClearUse(m, Passed(0, 1, 1));
    assert c.tables == Of(OneOf(n, true)[n := Page(0, true, true, false)], true, ram, file).m.tables;
    EvictAndLoad(c, n, ram, file, file', back);
    hide ClearUse, Load, Evict, SwapWrite, ClockChoice, Frames;
    assert EvictingAccess(m, 0, m', 0, 1, 1 - n, 1, 1, n);
  }

  // ---- the run ----

  function Empty(): Config {
    Config(Mem(1, false, map[], [false], [0], map[]), 0)
  }

  function Created(): Config {
    Of([ABSENT, ABSENT], false, 0, [])
  }

  /** Byte 1 is 6, in RAM. */
  function UpperWritten(): Config {
    Of([ABSENT, InUse(true)], true, 6, [])
  }

  /** Byte 0 is 5, in RAM; byte 1 is in the file. */
  function LowerWritten(): Config {
    Of([InUse(true), ABSENT], true, 5, [[0], [6]])
  }

  /** Byte 0 went to the file, and cut it. */
  function ReadBack(): Config {
    Of([ABSENT, InUse(false)], true, 0, [[5]])
  }

  lemma CreateStep()
    ensures Transition(Empty(), Create(1, 2), Done(true), Created())
  {
    assert AbsentPages(2) == [ABSENT, ABSENT];
  }

  lemma StoreByte(n: nat, ram: Byte, file: seq<seq<Byte>>, b: Byte)
    requires n < 2
    ensures var pages := if n == 0 then [InUse(false), ABSENT] else [ABSENT, InUse(false)];
            var stored := if n == 0 then [InUse(true), ABSENT] else [ABSENT, InUse(true)];
            Store(Of(pages, true, ram, file).m, 1, n, 0, [b]) == Of(stored, true, b, file).m
  {
    var pages := if n == 0 then [InUse(false), ABSENT] else [ABSENT, InUse(false)];
    var stored := if n == 0 then [InUse(true), ABSENT] else [ABSENT, InUse(true)];
    assert Splice([ram], 0, [b]) == [b];
    assert pages[n := InUse(true)] == stored;
    var m, m' := Store(Of(pages, true, ram, file).m, 1, n, 0, [b]), Of(stored, true, b, file).m;
    assert m.tables[1] == m'.tables[1];
    assert m.tables == m'.tables;
  }

  lemma UpperStep()
    ensures Transition(Created(), Write(1, 1, [6], []), Done(true), UpperWritten())
  {
    hide Access, Frames, Play, Store, Chunk, PageNo, PageOffset;
    FramesStart();
    FirstAccess();
    StoreByte(1, 0, [], 6);
    OneAttempt(Created(), Of([ABSENT, InUse(false)], true, 0, []), 1, WriteOf([6]));
    assert [6][0..1] == [6];
  }

  lemma Files()
    ensures SwapWrite([], 1, false, 1, [6]) == [[0], [6]] && SwapRead([[0], [6]], 1, 0) == [0]
    ensures SwapWrite([[0], [6]], 1, false, 0, [5]) == [[5]] && SwapRead([[5]], 1, 1) == [0]
  {
    var file := SwapWrite([], 1, false, 1, [6]);
    assert file[0] == Zeros(1) == [0] && file == [[0], [6]];
  }

  lemma LowerAccess()
    ensures Frames(UpperWritten().m)
    ensures Access(UpperWritten().m, 0, Of([InUse(false), ABSENT], true, 0, [[0], [6]]).m, 0, 1, 0)
  {
    Files();
    hide SwapWrite, SwapRead, Access, Frames;
    Exchange(1, 6, [], [[0], [6]], 0);
  }

  lemma LowerStep()
    ensures Transition(UpperWritten(), Write(1, 0, [5], []), Done(true), LowerWritten())
  {
    hide Access, Frames, Play, Store;
    LowerAccess();
    StoreByte(0, 0, [[0], [6]], 5);
    OneAttempt(UpperWritten(), Of([InUse(false), ABSENT], true, 0, [[0], [6]]), 0, WriteOf([5]));
    assert [5][0..1] == [5];
  }

  lemma ReadAccess()
    ensures Frames(LowerWritten().m)
    ensures Access(LowerWritten().m, 0, Of([ABSENT, InUse(false)], true, 0, [[5]]).m, 0, 1, 1)
  {
    Files();
    hide SwapWrite, SwapRead, Access, Frames;
    Exchange(0, 5, [[0], [6]], [[5]], 0);
  }

  lemma ReadsZero()
    ensures var d := Of([ABSENT, InUse(false)], true, 0, [[5]]);
            Chunk(d, 1, 1, 1, ReadOf(1), 1) == [0] && Copy(d, 1, 1, 1, ReadOf(1), 0, 1) == ReadBack()
  {
    var d := Of([ABSENT, InUse(false)], true, 0, [[5]]);
    PageParts(1, 1);
    assert Row([0], 1, 0) == [0] && d.m.Content(1, 1) == [0] && [0][0..1] == [0];
    assert d.m.tables[1][1 := InUse(false)] == d.m.tables[1];
    assert d.m.tables[1 := d.m.tables[1]] == d.m.tables;
  }

  lemma ReadStep()
    ensures Transition(LowerWritten(), Read(1, 1, 1, []), Data(true, [0]), ReadBack())
  {
    hide Access, Frames, Play, Chunk, Copy;
    ReadAccess();
    ReadsZero();
    OneAttempt(LowerWritten(), Of([ABSENT, InUse(false)], true, 0, [[5]]), 1, ReadOf(1));
  }

  // ---- which of its requests loses the byte ----

  /** Without interference a transfer of one byte loses data exactly when its access does. */
  lemma OneLoses(c: Config, addr: nat, req: Request)
    requires Frames(c.m) && c.m.ps == 1 && req.Size() == 1 && c.m.Has(1, addr) && 0 < |c.m.bitmap|
    ensures PlayLoses(1, c, 1, addr, req, 0, []) <==> LosesData(c.m, c.hand, 1, addr)
  {
    QuietAttempt(c, 1, addr, []);
    PageParts(addr, 1);
    ObtainServes(c, 1, addr);
    AttemptCases(1, c, 1, addr, req, 0, [], addr, 1);
    hide Frames, LosesData, Obtain, AtCheck, AtLock, Attempt, Copy, Chunk;
    assert Burst(c, []) == c;
  }

  /** Page n would be evicted; no page lies above it, or page 1 does. */
  lemma ExchangeLoses(n: nat, ram: Byte, file: seq<seq<Byte>>)
    requires n < 2 && AllWidth(file, 1)
    ensures LosesData(Of(OneOf(n, true), true, ram, file).m, 0, 1, 1 - n) <==>
            n == 0 && SwapRead(file, 1, 1) != Zeros(1)
  {
    var m := Of(OneOf(n, true), true, ram, file).m;
    HandTurns(n, ram, file);
    forall d: nat, vp: nat, vn: nat | ClockChoice(m, 0, d, vp, vn)
      ensures d == 1 && vp == 1 && vn == n
    {
      ClockDeterministic(m, 0, 1, 1, n, d, vp, vn);
    }
    assert m.Stored(1, 1) == SwapRead(file, 1, 1);
    assert n == 0 ==> !m.tables[1][1].present;
    assert EvictionKeeps(m, 1, n) <==> n == 1 || m.Stored(1, 1) == Zeros(1);
    assert WrapHand(0, |m.bitmap|) == 0 && ClockChoice(m, 0, 1, 1, n);
  }

  /** Create a process of two bytes, write 6 at address 1 and 5 at address 0, read address 1: the answer is 0.
      The two writes lose nothing; the eviction during the read does. */
  lemma LosesByte()
    ensures Transition(Empty(), Create(1, 2), Done(true), Created())
    ensures Transition(Created(), Write(1, 1, [6], []), Done(true), UpperWritten())
    ensures Transition(UpperWritten(), Write(1, 0, [5], []), Done(true), LowerWritten())
    ensures Transition(LowerWritten(), Read(1, 1, 1, []), Data(true, [0]), ReadBack())
    ensures !Loses(Created(), Write(1, 1, [6], [])) && !Loses(UpperWritten(), Write(1, 0, [5], []))
    ensures Loses(LowerWritten(), Read(1, 1, 1, []))
  {
    CreateStep();
    UpperStep();
    LowerStep();
    ReadStep();
    WhichLoses();
  }

  lemma WhichLoses()
    ensures !Loses(Created(), Write(1, 1, [6], [])) && !Loses(UpperWritten(), Write(1, 0, [5], []))
    ensures Loses(LowerWritten(), Read(1, 1, 1, []))
  {
    CreatedLosesNothing();
    UpperLosesNothing();
    ReadLoses();
  }

  lemma CreatedLosesNothing()
    ensures !Loses(Created(), Write(1, 1, [6], []))
  {
    FramesStart();
    hide Frames, PlayLoses;
    OneLoses(Created(), 1, WriteOf([6]));
  }

  lemma UpperLosesNothing()
    ensures !Loses(UpperWritten(), Write(1, 0, [5], []))
  {
    hide Frames, LosesData, PlayLoses, SwapRead, Access;
    LowerAccess();
    ExchangeLoses(1, 6, []);
    OneLoses(UpperWritten(), 0, WriteOf([5]));
  }

  lemma ReadLoses()
    ensures Loses(LowerWritten(), Read(1, 1, 1, []))
  {
    hide Frames, LosesData, PlayLoses, SwapRead, Access;
    ReadAccess();
    ExchangeLoses(0, 5, [[0], [6]]);
    SixIsNotZero();
    OneLoses(LowerWritten(), 1, ReadOf(1));
  }

  lemma SixIsNotZero()
    ensures SwapRead([[0], [6]], 1, 1) != Zeros(1)
  {
    assert SwapRead([[0], [6]], 1, 1)[0] == 6;
  }
}
