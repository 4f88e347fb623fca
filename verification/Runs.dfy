/**
  Properties of whole runs of the memory system: read-your-writes and isolation,
  and the kernel cache pools.
 */
module MemoryRuns {
  import opened Collections
  import opened Word64
  import opened Devices
  import opened Paging
  import opened Regions
  import opened MemorySystem

  // ---- Runs ---------------------------------------------------------------------------

  /** Every call of the run is made within the limits its caller guarantees. */
  predicate LegalRun(s: System, ops: seq<Op>)
    decreases |ops|
  {
    ops == [] || (Legal(s, ops[0]) && LegalRun(Step(s, ops[0]).0, ops[1..]))
  }

  function After(s: System, ops: seq<Op>): System
    decreases |ops|
  {
    if ops == [] then s else After(Step(s, ops[0]).0, ops[1..])
  }

  function FlatAfter(s: System, ops: seq<Op>, flat: Flat): Flat
    decreases |ops|
  {
    if ops == [] then flat
    else FlatAfter(Step(s, ops[0]).0, ops[1..], FlatStep(flat, s, ops[0], Step(s, ops[0]).1))
  }

  /** Whatever a call of the run answers with a byte, it is the byte that the flat
      memory of the writes so far holds there. */
  predicate ReadsAgree(s: System, ops: seq<Op>, flat: Flat)
    decreases |ops|
  {
    if ops == [] then true
    else
      var (s', r) := Step(s, ops[0]);
      && (r.Value? ==> Target(s, ops[0]).Some?)
      && (r.Value? && Target(s, ops[0]).Some? && Target(s, ops[0]).value in flat ==>
            r.b == flat[Target(s, ops[0]).value])
      && ReadsAgree(s', ops[1..], FlatStep(flat, s, ops[0], r))
  }

  /** Paging with swap refines a flat byte memory per address space: for every run of
      calls by any processes, under any memory pressure, every byte read is the byte
      last written to that address of that space. */
  lemma {:induction false} RunRefinesFlat(s: System, ops: seq<Op>, flat: Flat)
    requires Inv(s) && LegalRun(s, ops) && Agrees(s.mem, flat)
    ensures Inv(After(s, ops)) && Agrees(After(s, ops).mem, FlatAfter(s, ops, flat))
    ensures ReadsAgree(s, ops, flat)
    decreases |ops|
  {
    if ops != [] {
      var (s', r) := Step(s, ops[0]);
      StepInv(s, ops[0]);
      StepRefines(s, ops[0], flat);
      RunRefinesFlat(s', ops[1..], FlatStep(flat, s, ops[0], r));
    }
  }

  /** No call of the run writes location l successfully. */
  predicate Untouched(s: System, ops: seq<Op>, l: Loc)
    decreases |ops|
  {
    if ops == [] then true
    else
      && !((ops[0].Write? || ops[0].KWrite?) && Step(s, ops[0]).1 == Done && Target(s, ops[0]) == Some(l))
      && Untouched(Step(s, ops[0]).0, ops[1..], l)
  }

  lemma {:induction false} UntouchedStays(s: System, ops: seq<Op>, flat: Flat, l: Loc)
    requires Untouched(s, ops, l)
    requires l.page.sp != Kernel && l in flat
    ensures l in FlatAfter(s, ops, flat) && FlatAfter(s, ops, flat)[l] == flat[l]
    decreases |ops|
  {
    if ops != [] {
      UntouchedStays(Step(s, ops[0]).0, ops[1..], FlatStep(flat, s, ops[0], Step(s, ops[0]).1), l);
    }
  }

  /** Read your writes: after a successful user write, and any run that does not write
      the same address again, a successful read of that address by its process returns
      the byte written, however often the page was evicted and brought back meanwhile. */
  lemma ReadYourWrites(s: System, pid: nat, rgid: int, off: nat, b: Byte, ops: seq<Op>, rgid': int, off': nat)
    requires Inv(s) && LegalRun(s, [Write(pid, rgid, off, b)] + ops + [Read(pid, rgid', off')])
    requires Step(s, Write(pid, rgid, off, b)).1 == Done
    requires var l := Target(s, Write(pid, rgid, off, b));
             var s1 := Step(s, Write(pid, rgid, off, b)).0;
             l.Some? && Untouched(s1, ops, l.value) && Target(After(s1, ops), Read(pid, rgid', off')) == l
    ensures var s1 := Step(s, Write(pid, rgid, off, b)).0;
            var r := Step(After(s1, ops), Read(pid, rgid', off')).1;
            r.Value? ==> r.b == b
  {
    var op := Write(pid, rgid, off, b);
    var l, s1 := Target(s, op).value, Step(s, op).0;
    var tail := ops + [Read(pid, rgid', off')];
    assert ([op] + ops + [Read(pid, rgid', off')])[1..] == tail;
    StepInv(s, op);
    LegalPrefix(s1, ops, Read(pid, rgid', off'));
    var flat: Flat := map[];
    StepRefines(s, op, flat);
    var flat1 := flat[l := b];
    RunRefinesFlat(s1, ops, flat1);
    UntouchedStays(s1, ops, flat1, l);
    StepRefines(After(s1, ops), Read(pid, rgid', off'), FlatAfter(s1, ops, flat1));
  }

  /** A user read or write fails exactly when the byte is not in the region of the slot, or
      memory is exhausted in that sense; so read-your-writes is not empty. */
  lemma UserAccessFailsIff(s: System, pid: nat, rgid: int, off: nat, b: Byte)
    requires Inv(s) && pid in s.areas
    ensures var sym := s.areas[pid].sym;
            var fails := !(0 <= rgid < |sym| && sym[rgid].start + off < sym[rgid].end)
                         || OutOfMemory(s.mem, Page(User(pid), (sym[rgid].start + off) / 4096));
            && (Step(s, Read(pid, rgid, off)).1 == Failed <==> fails)
            && (Step(s, Write(pid, rgid, off, b)).1 == Failed <==> fails)
  {
    AccessFailsIff(s, pid, rgid, off, None);
    AccessFailsIff(s, pid, rgid, off, Some(b));
    ResolveIff(s.areas[pid].sym, rgid, off);
  }

  lemma AccessFailsIff(s: System, pid: nat, rgid: int, off: nat, write: Option<Byte>)
    requires Inv(s) && pid in s.areas
    ensures var v := Resolve(s.areas[pid].sym, rgid, off);
            StepAccess(s, pid, rgid, off, write).1 == Failed <==>
            v.None? || OutOfMemory(s.mem, LocOf(User(pid), v.value).page)
  {
    var v := Resolve(s.areas[pid].sym, rgid, off);
    if v.Some? {
      var a := LocOf(User(pid), v.value).page;
      var (m, r) := s.mem.GetPage(a);
      assert r.None? <==> OutOfMemory(s.mem, a);
      assert r.Some? ==> r.value < |m.ram.pages| by {
        UserPage(s, pid, rgid, off);
        GetPageRefines(s.mem, a);
        if r.Some? { OkMeans(m, a, a, r.value); }
      }
    }
  }

  lemma {:induction false} LegalPrefix(s: System, ops: seq<Op>, op: Op)
    requires LegalRun(s, ops + [op])
    ensures LegalRun(s, ops) && Legal(After(s, ops), op)
    decreases |ops|
  {
    if ops != [] {
      assert (ops + [op])[1..] == ops[1..] + [op];
      LegalPrefix(Step(s, ops[0]).0, ops[1..], op);
    }
  }

  lemma LegalFirst(s: System, ops: seq<Op>)
    requires LegalRun(s, ops) && ops != []
    ensures Legal(s, ops[0]) && LegalRun(Step(s, ops[0]).0, ops[1..])
    ensures After(s, ops) == After(Step(s, ops[0]).0, ops[1..])
  {
  }

  // ---- The initial state ------------------------------------------------------------------

  function Formatted(pages: nat): Device {
    Device(seq(pages, i => i), [], seq(pages, _ => seq(4096, _ => 0)))
  }

  function Boot(ramPages: nat, swapPages: nat, pids: set<nat>): System {
    var spaces: set<Space> := {Kernel} + set p | p in pids :: User(p);
    System(Sys(Formatted(ramPages), Formatted(swapPages), map[], map sp | sp in spaces :: Fifo([], [], [], false)),
           map p | p in pids :: Fresh(), seq(SYMBOLS, _ => Rg(0, 0)), None)
  }

  lemma FormattedOk(pages: nat)
    ensures Formatted(pages).Ok()
  {
    var d := Formatted(pages);
    forall f | 0 <= f < pages ensures f in d.free { assert d.free[f] == f; }
  }

  lemma BootInv(ramPages: nat, swapPages: nat, pids: set<nat>)
    requires ramPages <= MAX_FRAMES && swapPages <= MAX_SWAP_FRAMES
    ensures Inv(Boot(ramPages, swapPages, pids)) && PoolsOk(Boot(ramPages, swapPages, pids))
  {
    FormattedOk(ramPages);
    FormattedOk(swapPages);
  }

  // ---- Growth without frames -----------------------------------------------------------------

  /** Whether an allocation that grows the area maps its new pages: all of them exactly if
      RAM has enough free frames, and else none, although it succeeds all the same. */
  lemma GrowthMapsIff(s: System, pid: nat, rgid: int, size: nat)
    requires Inv(s) && Legal(s, Alloc(pid, rgid, size)) && 0 <= rgid < SYMBOLS && Grows(s.areas[pid], size)
    ensures var (s', r) := Step(s, Alloc(pid, rgid, size));
            var first, n := s.areas[pid].vmEnd / 4096, PageCount(size);
            && r == Done && 0 < n && s'.areas[pid].vmEnd == (first + n) * 4096
            && ((forall p :: first <= p < first + n ==> Page(User(pid), p) in s'.mem.pt) <==> n <= |s.mem.ram.free|)
            && ((exists p :: first <= p < first + n && Page(User(pid), p) in s'.mem.pt) <==> n <= |s.mem.ram.free|)
  {
    var first, n := s.areas[pid].vmEnd / 4096, PageCount(size);
    GrowthUnmapped(s, pid, size);
    NothingFits(s.areas[pid]);
    Regions.AllocOk(s.areas[pid], rgid, size);
    RangeMapped(s.mem, User(pid), first, n);
    var m := MapRam(s.mem, User(pid), first, n);
    assert Page(User(pid), first) in m.pt <==> n <= |s.mem.ram.free|;
  }

  lemma RangeMapped(m: Sys, sp: Space, first: nat, n: nat)
    requires sp in m.fifo && forall a :: a in m.pt ==> !InRange(a, sp, first, n)
    ensures forall p :: first <= p < first + n ==> (Page(sp, p) in MapRam(m, sp, first, n).pt <==> n <= |m.ram.free|)
  {
    MapRamMaps(m, sp, first, n);
    forall p | first <= p < first + n ensures Page(sp, p) in MapRam(m, sp, first, n).pt <==> n <= |m.ram.free| {
      assert InRange(Page(sp, p), sp, first, n);
    }
  }

  /** It happens: from start-up, one page more than RAM has frames is granted and not one
      page of it is mapped. */
  lemma GrantedUnmapped(ramPages: nat, swapPages: nat)
    requires ramPages <= MAX_FRAMES && swapPages <= MAX_SWAP_FRAMES
    ensures var s := Boot(ramPages, swapPages, {0});
            var op := Alloc(0, 0, (ramPages + 1) * 4096);
            && Legal(s, op) && Step(s, op).1 == Done && Step(s, op).0.areas[0].sym[0] == Rg(0, (ramPages + 1) * 4096)
            && forall p :: 0 <= p < ramPages + 1 ==> Page(User(0), p) !in Step(s, op).0.mem.pt
  {
    var s, n := Boot(ramPages, swapPages, {0}), (ramPages + 1) * 4096;
    BootInv(ramPages, swapPages, {0});
    FirstAlloc(n);
    assert PageCount(n) == ramPages + 1 && AlignUp(n) == n;
    GrowthMapsIff(s, 0, 0, n);
  }

  // ---- Pages that never leave RAM --------------------------------------------------------------

  lemma {:induction false} MapFramesList(m: Sys, sp: Space, first: nat, frames: seq<nat>, p: nat)
    requires p in MapFrames(m, sp, first, frames).List(sp).list
    ensures p in m.List(sp).list || first <= p < first + |frames|
    decreases |frames|
  {
    if frames != [] { MapFramesList(MapPage(m, Page(sp, first), frames[0]), sp, first + 1, frames[1..], p); }
  }

  lemma {:induction false} MapFramesOthers(m: Sys, sp: Space, first: nat, frames: seq<nat>, sp': Space)
    requires sp' != sp
    ensures sp' in MapFrames(m, sp, first, frames).fifo <==> sp' in m.fifo
    ensures sp' in m.fifo ==> MapFrames(m, sp, first, frames).fifo[sp'] == m.fifo[sp']
    decreases |frames|
  {
    if frames != [] { MapFramesOthers(MapPage(m, Page(sp, first), frames[0]), sp, first + 1, frames[1..], sp'); }
  }

  lemma MapRamStuck(m: Sys, sp: Space, first: nat, n: nat, a: Page)
    requires Stuck(m, a) && sp in m.fifo && forall b :: b in m.pt ==> !InRange(b, sp, first, n)
    ensures Stuck(MapRam(m, sp, first, n), a) && MapRam(m, sp, first, n).pt[a] == m.pt[a]
  {
    var m' := MapRam(m, sp, first, n);
    var (ram', frames) := AllocFrames(m.ram, n);
    MapRamMaps(m, sp, first, n);
    if frames.Some? {
      if a.sp != sp {
        MapFramesOthers(m.(ram := ram'), sp, first, frames.value, a.sp);
      } else if a.pgn in m'.List(sp).list {
        MapFramesList(m.(ram := ram'), sp, first, frames.value, a.pgn);
        assert InRange(a, sp, first, n);
      }
    }
  }

  lemma AllocStuck(s: System, pid: nat, rgid: int, size: nat, a: Page)
    requires Inv(s) && Legal(s, Alloc(pid, rgid, size)) && Stuck(s.mem, a)
    ensures Stuck(StepAlloc(s, pid, rgid, size).0.mem, a) && StepAlloc(s, pid, rgid, size).0.mem.pt[a] == s.mem.pt[a]
  {
    if Grows(s.areas[pid], size) {
      GrowthUnmapped(s, pid, size);
      MapRamStuck(s.mem, User(pid), s.areas[pid].vmEnd / 4096, PageCount(size), a);
    }
  }

  lemma AccessStuck(s: System, pid: nat, rgid: int, off: nat, write: Option<Byte>, a: Page)
    requires Inv(s) && pid in s.areas && Stuck(s.mem, a)
    ensures var m := StepAccess(s, pid, rgid, off, write).0.mem;
            Stuck(m, a) && m.pt[a] == s.mem.pt[a]
  {
    var v := Resolve(s.areas[pid].sym, rgid, off);
    if v.Some? {
      var l := LocOf(User(pid), v.value);
      StuckStays(s.mem, a, l.page);
      TouchStuck(s.(mem := s.mem.GetPage(l.page).0), s.mem.GetPage(l.page).1, l.off, write, a);
    }
  }

  lemma TouchStuck(s: System, frame: Option<nat>, off: nat, write: Option<Byte>, a: Page)
    requires off < 4096 && Stuck(s.mem, a)
    ensures Stuck(TouchFrame(s, frame, off, write).0.mem, a) && TouchFrame(s, frame, off, write).0.mem.pt == s.mem.pt
  {
  }

  lemma KmallocStuck(s: System, rgid: nat, size: nat, a: Page)
    requires Stuck(s.mem, a)
    ensures Stuck(StepKmalloc(s, rgid, size).0.mem, a) && StepKmalloc(s, rgid, size).0.mem.pt[a] == s.mem.pt[a]
  {
    MapKernelMaps(s.mem, rgid * 1000, PageCount(size));
    MapKernelKeeps(s.mem, rgid * 1000, PageCount(size));
  }

  lemma PoolCreateStuck(s: System, size: nat, align: nat, id: nat, a: Page)
    requires Stuck(s.mem, a)
    ensures var m := StepPoolCreate(s, size, align, id).0.mem;
            Stuck(m, a) && m.pt[a] == s.mem.pt[a]
  {
    KmallocStuck(s, id, size, a);
  }

  lemma OtherStuck(s: System, op: Op, a: Page)
    requires op.Free? || op.CacheAlloc? || op.KRead? || op.KWrite?
    ensures Step(s, op).0.mem.pt == s.mem.pt && Step(s, op).0.mem.fifo == s.mem.fifo
  {
  }

  lemma StepStuck(s: System, op: Op, a: Page)
    requires Inv(s) && Legal(s, op) && Stuck(s.mem, a)
    ensures Stuck(Step(s, op).0.mem, a) && Step(s, op).0.mem.pt[a] == s.mem.pt[a]
  {
    match op
    case Alloc(pid, rgid, size) => AllocStuck(s, pid, rgid, size, a);
    case Read(pid, rgid, off) => AccessStuck(s, pid, rgid, off, None, a);
    case Write(pid, rgid, off, b) => AccessStuck(s, pid, rgid, off, Some(b), a);
    case Kmalloc(rgid, size) => KmallocStuck(s, rgid, size, a);
    case PoolCreate(size, align, id) => PoolCreateStuck(s, size, align, id, a);
    case _ => OtherStuck(s, op, a);
  }

  /** A page that an eviction on full swap took out of its list stays in its frame through
      every later run: it is never evicted again. */
  lemma {:induction false} StuckForever(s: System, ops: seq<Op>, a: Page)
    requires Inv(s) && LegalRun(s, ops) && Stuck(s.mem, a)
    ensures Stuck(After(s, ops).mem, a) && After(s, ops).mem.pt[a] == s.mem.pt[a]
    decreases |ops|
  {
    if ops != [] {
      StepInv(s, ops[0]);
      StepStuck(s, ops[0], a);
      StuckForever(Step(s, ops[0]).0, ops[1..], a);
    }
  }

  /** One frame of RAM and no swap: two pages are allocated, and both are written to. */
  function FullSwap(b: Byte): seq<Op> { [Alloc(0, 0, 8192), Write(0, 0, 0, b), Write(0, 0, 4096, b)] }

  /** What matters in the states of that run: the entries, the FIFO list, and the region. */
  ghost predicate Tiny(s: System, pt: map<Page, Pte>, free: seq<nat>, list: seq<nat>, starved: bool) {
    && s.mem.pt == pt && s.mem.ram.free == free && |s.mem.ram.pages| == 1 && s.mem.swp.free == []
    && User(0) in s.mem.fifo && s.mem.fifo[User(0)].list == list && s.mem.fifo[User(0)].starved == starved
    && 0 in s.areas && |s.areas[0].sym| == SYMBOLS && s.areas[0].sym[0] == Rg(0, 8192)
  }

  /** A growth without frames turns the free list round and maps nothing. */
  lemma GrowthInVain(s: System, pid: nat, rgid: int, size: nat)
    requires Inv(s) && Legal(s, Alloc(pid, rgid, size)) && 0 <= rgid < SYMBOLS && Grows(s.areas[pid], size)
    requires PageCount(size) > |s.mem.ram.free|
    ensures Step(s, Alloc(pid, rgid, size)).0 ==
            s.(mem := s.mem.(ram := s.mem.ram.(free := Reversed(s.mem.ram.free))),
               areas := s.areas[pid := Regions.Alloc(s.areas[pid], rgid, size)])
  {
    GrowthUnmapped(s, pid, size);
    MapRamMaps(s.mem, User(pid), s.areas[pid].vmEnd / 4096, PageCount(size));
  }

  lemma TinyBoot(s: System)
    requires s == Boot(1, 0, {0})
    ensures s.mem.pt == map[] && s.mem.ram.free == [0] && |s.mem.ram.pages| == 1 && s.mem.swp.free == []
    ensures User(0) in s.mem.fifo && s.mem.fifo[User(0)].list == [] && !s.mem.fifo[User(0)].starved
    ensures 0 in s.areas && s.areas[0] == Fresh() && Reversed(s.mem.ram.free) == [0]
  {
    assert Reversed<nat>([0]) == [0] by { assert Reversed<nat>([]) == []; }
  }

  lemma TinyGrowth(n: nat)
    requires n == 8192
    ensures NumbersFit(Fresh(), n) && Grows(Fresh(), n) && PageCount(n) == 2 && AlignUp(n) == n
    ensures |Regions.Alloc(Fresh(), 0, n).sym| == SYMBOLS && Regions.Alloc(Fresh(), 0, n).sym[0] == Rg(0, n)
  {
    FirstAlloc(n);
    FreshTiled();
    Regions.AllocOk(Fresh(), 0, n);
  }

  lemma TinyAlloc(s: System, n: nat)
    requires s == Boot(1, 0, {0}) && n == 8192
    ensures Legal(s, Alloc(0, 0, n)) && Tiny(Step(s, Alloc(0, 0, n)).0, map[], [0], [], false)
  {
    BootInv(1, 0, {0});
    TinyBoot(s);
    TinyGrowth(n);
    assert Legal(s, Alloc(0, 0, n));
    GrowthInVain(s, 0, 0, n);
  }

  lemma TinyFirst(s: System, b: Byte)
    requires Tiny(s, map[], [0], [], false)
    ensures Legal(s, Write(0, 0, 0, b))
    ensures Tiny(Step(s, Write(0, 0, 0, b)).0, map[Page(User(0), 0) := Present(0)], [], [0], false)
  {
  }

  lemma TinySecond(s: System, b: Byte)
    requires Tiny(s, map[Page(User(0), 0) := Present(0)], [], [0], false)
    ensures Legal(s, Write(0, 0, 4096, b)) && Step(s, Write(0, 0, 4096, b)).1 == Failed
    ensures Tiny(Step(s, Write(0, 0, 4096, b)).0, map[Page(User(0), 0) := Present(0)], [], [], true)
  {
  }

  /** The list does come to miss a present page: on that run the second write fails, and the
      first page stays in RAM for good without being listed. */
  lemma FullSwapRun(b: Byte)
    ensures LegalRun(Boot(1, 0, {0}), FullSwap(b))
    ensures var m := After(Boot(1, 0, {0}), FullSwap(b)).mem;
            Stuck(m, Page(User(0), 0)) && m.fifo[User(0)].starved
  {
    var s := Boot(1, 0, {0});
    var op1, op2, op3 := Alloc(0, 0, 8192), Write(0, 0, 0, b), Write(0, 0, 4096, b);
    TinyAlloc(s, 8192);
    var s1 := Step(s, op1).0;
    TinyFirst(s1, b);
    var s2 := Step(s1, op2).0;
    TinySecond(s2, b);
    ThreeSteps(s, op1, op2, op3, s1, s2, Step(s2, op3).0);
  }

  lemma ThreeSteps(s: System, op1: Op, op2: Op, op3: Op, s1: System, s2: System, s3: System)
    requires Legal(s, op1) && Legal(s1, op2) && Legal(s2, op3)
    requires s1 == Step(s, op1).0 && s2 == Step(s1, op2).0 && s3 == Step(s2, op3).0
    ensures LegalRun(s, [op1, op2, op3]) && After(s, [op1, op2, op3]) == s3
  {
    RunCons(s2, op3, s3, []);
    RunCons(s1, op2, s2, [op3]);
    RunCons(s, op1, s1, [op2, op3]);
    assert [op3] == [op3] + [] && [op2, op3] == [op2] + [op3] && [op1, op2, op3] == [op1] + [op2, op3];
  }

  lemma RunCons(s: System, op: Op, s': System, ops: seq<Op>)
    requires Legal(s, op) && s' == Step(s, op).0 && LegalRun(s', ops)
    ensures LegalRun(s, [op] + ops) && After(s, [op] + ops) == After(s', ops)
  {
    assert ([op] + ops)[1..] == ops;
  }

  // ---- Frame ownership --------------------------------------------------------------------

  predicate SameSizes(m: Sys, m': Sys) { |m'.ram.pages| == |m.ram.pages| && |m'.swp.pages| == |m.swp.pages| }

  lemma {:induction false} MapFramesSizes(m: Sys, sp: Space, first: nat, frames: seq<nat>)
    ensures SameSizes(m, MapFrames(m, sp, first, frames))
    decreases |frames|
  {
    if frames != [] { MapFramesSizes(MapPage(m, Page(sp, first), frames[0]), sp, first + 1, frames[1..]); }
  }

  lemma {:induction false} MapKernelSizes(m: Sys, pgn: nat, n: nat)
    ensures SameSizes(m, MapKernel(m, pgn, n).0)
    decreases n
  {
    if n > 0 && m.ram.free != [] { MapKernelSizes(MapKernelPage(m, pgn), pgn + 1, n - 1); }
  }

  lemma AccessSizes(s: System, pid: nat, rgid: int, off: nat, write: Option<Byte>)
    ensures SameSizes(s.mem, StepAccess(s, pid, rgid, off, write).0.mem)
  {
    var v := Resolve(AreaOf(s, pid).sym, rgid, off);
    if v.Some? { GetPageSizes(s.mem, LocOf(User(pid), v.value).page); }
  }

  lemma GetPageSizes(m: Sys, a: Page)
    ensures SameSizes(m, m.GetPage(a).0)
  {
  }

  lemma KmallocSizes(s: System, rgid: nat, size: nat)
    ensures SameSizes(s.mem, StepKmalloc(s, rgid, size).0.mem)
  {
    MapKernelSizes(s.mem, rgid * 1000, PageCount(size));
  }

  lemma AllocSizes(s: System, pid: nat, rgid: int, size: nat)
    ensures SameSizes(s.mem, StepAlloc(s, pid, rgid, size).0.mem)
  {
    var (ram', frames) := AllocFrames(s.mem.ram, NewPages(size));
    if frames.Some? { MapFramesSizes(s.mem.(ram := ram'), User(pid), AreaOf(s, pid).vmEnd / 4096, frames.value); }
  }

  lemma StepSizes(s: System, op: Op)
    ensures SameSizes(s.mem, Step(s, op).0.mem)
  {
    match op
    case Alloc(pid, rgid, size) => AllocSizes(s, pid, rgid, size);
    case Read(pid, rgid, off) => AccessSizes(s, pid, rgid, off, None);
    case Write(pid, rgid, off, b) => AccessSizes(s, pid, rgid, off, Some(b));
    case Kmalloc(rgid, size) => KmallocSizes(s, rgid, size);
    case PoolCreate(size, _, id) => KmallocSizes(s, id, size);
    case _ =>
  }

  lemma {:induction false} RunSizes(s: System, ops: seq<Op>)
    ensures SameSizes(s.mem, After(s, ops).mem)
    decreases |ops|
  {
    if ops != [] {
      StepSizes(s, ops[0]);
      RunSizes(Step(s, ops[0]).0, ops[1..]);
    }
  }

  /**
    Frame ownership, in every state that a run of calls can reach from start-up: no two
    pages of any address spaces share a RAM frame or a swap frame, every frame a page
    names is in its device's used list, and the free and used lists hold no frame twice
    and partition the frames of the device.
   */
  lemma FrameOwnership(ramPages: nat, swapPages: nat, pids: set<nat>, ops: seq<Op>, a: Page, b: Page, f: nat)
    requires ramPages <= MAX_FRAMES && swapPages <= MAX_SWAP_FRAMES && LegalRun(Boot(ramPages, swapPages, pids), ops)
    ensures var m := After(Boot(ramPages, swapPages, pids), ops).mem;
            && (m.PteOf(a) == m.PteOf(b) != Absent ==> a == b)
            && (m.PteOf(a).Present? ==> m.PteOf(a).fpn in m.ram.used)
            && (m.PteOf(a).Swapped? ==> m.PteOf(a).off in m.swp.used)
            && NoDup(m.ram.free) && NoDup(m.ram.used) && NoDup(m.swp.free) && NoDup(m.swp.used)
            && (f < ramPages <==> f in m.ram.free || f in m.ram.used) && !(f in m.ram.free && f in m.ram.used)
            && (f < swapPages <==> f in m.swp.free || f in m.swp.used) && !(f in m.swp.free && f in m.swp.used)
  {
    var s := Boot(ramPages, swapPages, pids);
    var m := After(s, ops).mem;
    assert m.Ok() && SameSizes(s.mem, m) by {
      Reached(ramPages, swapPages, pids, ops);
      RunSizes(s, ops);
    }
    OkMeans(m, a, b, f);
  }

  lemma OkMeans(m: Sys, a: Page, b: Page, f: nat)
    requires m.Ok()
    ensures m.PteOf(a) == m.PteOf(b) != Absent ==> a == b
    ensures m.PteOf(a).Present? ==> m.PteOf(a).fpn in m.ram.used
    ensures m.PteOf(a).Swapped? ==> m.PteOf(a).off in m.swp.used
    ensures NoDup(m.ram.free) && NoDup(m.ram.used) && NoDup(m.swp.free) && NoDup(m.swp.used)
    ensures (f < |m.ram.pages| <==> f in m.ram.free || f in m.ram.used) && !(f in m.ram.free && f in m.ram.used)
    ensures (f < |m.swp.pages| <==> f in m.swp.free || f in m.swp.used) && !(f in m.swp.free && f in m.swp.used)
  {
  }

  // ---- Kernel cache pools -------------------------------------------------------------------

  /** Every byte of [start, end) lies on a kernel page in RAM. */
  ghost predicate Resident(pt: map<Page, Pte>, start: nat, end: nat) {
    forall x :: start <= x < end ==> InRam(pt, Page(Kernel, x / 4096))
  }

  function Base(id: nat): nat { id * 1000 * 4096 }

  /** The slots lie back to back from base on, each align long, and end at end. */
  ghost predicate BackToBack(slots: seq<Rg>, base: nat, align: nat, end: nat) {
    && (forall k :: 0 <= k < |slots| ==> slots[k].end == slots[k].start + align)
    && (forall k :: 0 < k < |slots| ==> slots[k].start == slots[k - 1].end)
    && (slots != [] ==> slots[0].start == base)
    && end == if slots == [] then base else slots[|slots| - 1].end
  }

  /** A pool has handed out its slots back to back from its base; storage plus size is
      where it was at creation; and all of the pool is in RAM. */
  ghost predicate PoolOk(pt: map<Page, Pte>, id: nat, p: Pool) {
    p.align == 0 ||
    (&& BackToBack(p.slots, Base(id), p.align, p.storage)
     && p.storage + p.size == Base(id) + p.created
     && Resident(pt, Base(id), Base(id) + p.created))
  }

  ghost predicate PoolsOk(s: System) {
    && |s.ksym| == SYMBOLS
    && (s.pools.Some? ==> |s.pools.value| == POOLS)
    && (forall id :: s.pools.Some? && 0 <= id < |s.pools.value| ==> PoolOk(s.mem.pt, id, s.pools.value[id]))
    && (forall i :: 0 <= i < |s.ksym| ==> Resident(s.mem.pt, s.ksym[i].start, s.ksym[i].end))
  }

  /** A kernel page in RAM never leaves it. */
  ghost predicate KernelStays(s: System, s': System) {
    forall a: Page :: a.sp == Kernel && InRam(s.mem.pt, a) ==> InRam(s'.mem.pt, a)
  }

  lemma KernelStaysResident(s: System, s': System, start: nat, end: nat)
    requires KernelStays(s, s') && Resident(s.mem.pt, start, end)
    ensures Resident(s'.mem.pt, start, end)
  {
  }

  lemma AccessKeepsPages(s: System, pid: nat, rgid: int, off: nat, write: Option<Byte>)
    requires Inv(s) && pid in s.areas
    ensures s.mem.pt.Keys <= StepAccess(s, pid, rgid, off, write).0.mem.pt.Keys
  {
    var v := Resolve(s.areas[pid].sym, rgid, off);
    if v.Some? {
      var l := LocOf(User(pid), v.value);
      var (mem', r) := s.mem.GetPage(l.page);
      UserPage(s, pid, rgid, off);
      GetPageRefines(s.mem, l.page);
      FaultKeepsPages(s.mem, l.page, mem', r);
    }
  }

  lemma FaultKeepsPages(m: Sys, a: Page, m': Sys, r: Option<nat>)
    requires Faulted(m, a, m', r)
    ensures m.pt.Keys <= m'.pt.Keys
  {
  }

  lemma GrowthKeepsPages(s: System, pid: nat, size: nat)
    requires Inv(s) && Legal(s, Alloc(pid, 0, size)) && Grows(s.areas[pid], size)
    ensures s.mem.pt.Keys <= MapRam(s.mem, User(pid), s.areas[pid].vmEnd / 4096, NewPages(size)).pt.Keys
  {
    GrowthUnmapped(s, pid, size);
    MapRamMaps(s.mem, User(pid), s.areas[pid].vmEnd / 4096, PageCount(size));
  }

  lemma AllocKeepsPages(s: System, pid: nat, rgid: int, size: nat)
    requires Inv(s) && Legal(s, Alloc(pid, rgid, size))
    ensures s.mem.pt.Keys <= StepAlloc(s, pid, rgid, size).0.mem.pt.Keys
  {
    if Grows(s.areas[pid], size) { GrowthKeepsPages(s, pid, size); }
  }

  lemma KmallocKeepsPages(s: System, rgid: nat, size: nat)
    ensures s.mem.pt.Keys <= StepKmalloc(s, rgid, size).0.mem.pt.Keys
  {
    MapKernelKeeps(s.mem, rgid * 1000, PageCount(size));
  }

  lemma PoolCreateKeepsPages(s: System, size: nat, align: nat, id: nat)
    ensures s.mem.pt.Keys <= StepPoolCreate(s, size, align, id).0.mem.pt.Keys
  {
    KmallocKeepsPages(s, id, size);
  }

  lemma OthersKeepPages(s: System, op: Op)
    requires op.Free? || op.CacheAlloc? || op.KRead? || op.KWrite?
    ensures Step(s, op).0.mem.pt == s.mem.pt
  {
  }

  /** No step unmaps a page. */
  lemma StepKeepsPages(s: System, op: Op)
    requires Inv(s) && Legal(s, op)
    ensures s.mem.pt.Keys <= Step(s, op).0.mem.pt.Keys
  {
    match op
    case Alloc(pid, rgid, size) => AllocKeepsPages(s, pid, rgid, size);
    case Read(pid, rgid, off) => AccessKeepsPages(s, pid, rgid, off, None);
    case Write(pid, rgid, off, b) => AccessKeepsPages(s, pid, rgid, off, Some(b));
    case Kmalloc(rgid, size) => KmallocKeepsPages(s, rgid, size);
    case PoolCreate(size, align, id) => PoolCreateKeepsPages(s, size, align, id);
    case _ => OthersKeepPages(s, op);
  }

  lemma KernelPagesStay(s: System, op: Op)
    requires Inv(s) && Legal(s, op)
    ensures KernelStays(s, Step(s, op).0)
  {
    var s' := Step(s, op).0;
    assert s'.mem.Backed() && s.mem.pt.Keys <= s'.mem.pt.Keys by {
      StepInv(s, op);
      StepKeepsPages(s, op);
    }
  }

  /** The pool invariant survives every step of every process. */
  lemma StepKeepsPools(s: System, op: Op)
    requires Inv(s) && PoolsOk(s) && Legal(s, op)
    ensures PoolsOk(Step(s, op).0)
  {
    match op
    case PoolCreate(size, align, id) => CreateKeepsPools(s, size, align, id);
    case CacheAlloc(rgid, id) => BumpKeepsPools(s, rgid, id);
    case _ =>
      var s' := Step(s, op).0;
      KernelPagesStay(s, op);
      StayKeepsPools(s, s');
  }

  lemma StayKeepsPools(s: System, s': System)
    requires PoolsOk(s) && KernelStays(s, s') && s'.pools == s.pools && s'.ksym == s.ksym
    ensures PoolsOk(s')
  {
    forall start, end | Resident(s.mem.pt, start, end) ensures Resident(s'.mem.pt, start, end) {
      KernelStaysResident(s, s', start, end);
    }
  }

  lemma CreateResident(s: System, size: nat, align: nat, id: nat)
    requires StepPoolCreate(s, size, align, id).1 == Done
    ensures Resident(StepPoolCreate(s, size, align, id).0.mem.pt, Base(id), Base(id) + size)
  {
    var pt' := MapKernel(s.mem, id * 1000, PageCount(size)).0.pt;
    MapKernelMaps(s.mem, id * 1000, PageCount(size));
    forall x | Base(id) <= x < Base(id) + size ensures InRam(pt', Page(Kernel, x / 4096)) {
      PageInRange(id, size, x);
    }
  }

  /** What a creation does to the pool table and the symbol table. */
  lemma CreateTables(s: System, size: nat, align: nat, id: nat)
    requires PoolsOk(s)
    ensures var (s', r) := StepPoolCreate(s, size, align, id);
            && s'.ksym == s.ksym && (r == Done ==> id < POOLS)
            && (s'.pools == s.pools || s'.pools == Some(PoolTable(s))
                || (r == Done && s'.pools == Some(PoolTable(s)[id := Pool(size, align, Base(id), size, [])])))
  {
  }

  lemma CreateKeepsPools(s: System, size: nat, align: nat, id: nat)
    requires Inv(s) && PoolsOk(s) && Legal(s, PoolCreate(size, align, id))
    ensures PoolsOk(StepPoolCreate(s, size, align, id).0)
  {
    var (s', r) := StepPoolCreate(s, size, align, id);
    KernelPagesStay(s, PoolCreate(size, align, id));
    CreateTables(s, size, align, id);
    if r == Done { CreateResident(s, size, align, id); }
    CreatedOk(s, s', id, Pool(size, align, Base(id), size, []), r == Done);
  }

  lemma CreatedOk(s: System, s': System, id: nat, p: Pool, done: bool)
    requires PoolsOk(s) && KernelStays(s, s') && s'.ksym == s.ksym && (done ==> id < POOLS)
    requires s'.pools == s.pools || s'.pools == Some(PoolTable(s)) || (done && s'.pools == Some(PoolTable(s)[id := p]))
    requires done ==> PoolOk(s'.mem.pt, id, p)
    ensures PoolsOk(s')
  {
    forall start, end | Resident(s.mem.pt, start, end) ensures Resident(s'.mem.pt, start, end) {
      KernelStaysResident(s, s', start, end);
    }
  }

  lemma PageInRange(id: nat, size: nat, x: nat)
    requires Base(id) <= x < Base(id) + size
    ensures id * 1000 <= x / 4096 < id * 1000 + PageCount(size)
  {
  }

  lemma BumpKeepsPools(s: System, rgid: int, id: int)
    requires PoolsOk(s) && s.pools.Some?
    ensures PoolsOk(StepCacheAlloc(s, rgid, id).0)
  {
    var (s', r) := StepCacheAlloc(s, rgid, id);
    if r == Done {
      var p, p' := s.pools.value[id], s'.pools.value[id];
      BumpOk(s.mem.pt, id, p);
      assert forall i :: 0 <= i < |s'.ksym| ==> Resident(s'.mem.pt, s'.ksym[i].start, s'.ksym[i].end);
    }
  }

  lemma BumpOk(pt: map<Page, Pte>, id: nat, p: Pool)
    requires PoolOk(pt, id, p) && p.align > 0 && p.size >= p.align
    ensures var slot := Rg(p.storage, p.storage + p.align);
            && PoolOk(pt, id, p.(size := p.size - p.align, storage := p.storage + p.align, slots := p.slots + [slot]))
            && Resident(pt, slot.start, slot.end)
  {
    SlotsAscend(p.slots, Base(id), p.align, p.storage);
  }

  lemma {:induction false} SlotsCount(slots: seq<Rg>, base: nat, align: nat, end: nat)
    requires BackToBack(slots, base, align, end)
    ensures base + |slots| * align == end
  {
    if slots != [] {
      var n := |slots| - 1;
      SlotsCount(slots[..n], base, align, slots[n].start);
      AddSlot(n, align);
    }
  }

  lemma AddSlot(n: nat, align: nat)
    ensures (n + 1) * align == n * align + align
  {
  }

  /** Every slot lies between base and end, and after all earlier slots. */
  lemma {:induction false} SlotsAscend(slots: seq<Rg>, base: nat, align: nat, end: nat)
    requires BackToBack(slots, base, align, end)
    ensures base <= end
    ensures forall k :: 0 <= k < |slots| ==> base <= slots[k].start && slots[k].end <= end
    ensures forall j, k :: 0 <= j < k < |slots| ==> slots[j].end <= slots[k].start
  {
    if slots != [] {
      var n := |slots| - 1;
      SlotsAscend(slots[..n], base, align, slots[n].start);
    }
  }

  /** Every state that a run of calls reaches from start-up satisfies the invariants. */
  lemma Reached(ramPages: nat, swapPages: nat, pids: set<nat>, ops: seq<Op>)
    requires ramPages <= MAX_FRAMES && swapPages <= MAX_SWAP_FRAMES && LegalRun(Boot(ramPages, swapPages, pids), ops)
    ensures Inv(After(Boot(ramPages, swapPages, pids), ops)) && PoolsOk(After(Boot(ramPages, swapPages, pids), ops))
  {
    BootInv(ramPages, swapPages, pids);
    RunRefinesFlat(Boot(ramPages, swapPages, pids), ops, map[]);
    RunKeepsPools(Boot(ramPages, swapPages, pids), ops);
  }

  /** What the pool invariant means: storage plus size never moves, at most
      created / align slots are out, each inside the pool, and no two overlap. */
  ghost predicate SlotsFit(p: Pool, id: nat, j: nat, k: nat) {
    && p.storage + p.size == Base(id) + p.created && |p.slots| * p.align <= p.created
    && (k < |p.slots| ==> Base(id) <= p.slots[k].start && p.slots[k].end <= Base(id) + p.created)
    && (k < |p.slots| ==> p.slots[k].end == p.slots[k].start + p.align)
    && (j < k < |p.slots| ==> p.slots[j].end <= p.slots[k].start)
  }

  lemma PoolFits(s: System, id: nat, j: nat, k: nat)
    requires PoolsOk(s) && s.pools.Some? && id < POOLS && s.pools.value[id].align > 0
    ensures SlotsFit(s.pools.value[id], id, j, k)
  {
    var p := s.pools.value[id];
    assert PoolOk(s.mem.pt, id, p);
    SlotsAscend(p.slots, Base(id), p.align, p.storage);
    SlotsCount(p.slots, Base(id), p.align, p.storage);
  }

  /** In every reachable state, for every pool that was created. */
  lemma PoolSlots(ramPages: nat, swapPages: nat, pids: set<nat>, ops: seq<Op>, id: nat, j: nat, k: nat)
    requires ramPages <= MAX_FRAMES && swapPages <= MAX_SWAP_FRAMES && LegalRun(Boot(ramPages, swapPages, pids), ops)
    ensures var pools := After(Boot(ramPages, swapPages, pids), ops).pools;
            && (pools.Some? ==> |pools.value| == POOLS)
            && (pools.Some? && id < POOLS && pools.value[id].align > 0 ==> SlotsFit(pools.value[id], id, j, k))
  {
    var s := After(Boot(ramPages, swapPages, pids), ops);
    Reached(ramPages, swapPages, pids, ops);
    if s.pools.Some? && id < POOLS && s.pools.value[id].align > 0 {
      PoolFits(s, id, j, k);
    }
  }

  /** Slots of different pools of at most 1000 pages do not overlap either. */
  lemma PoolsApart(s: System, i: nat, j: nat, k: nat, m: nat)
    requires PoolsOk(s) && s.pools.Some? && i < j < POOLS
    requires s.pools.value[i].align > 0 && s.pools.value[j].align > 0
    requires s.pools.value[i].created <= 1000 * 4096
    requires k < |s.pools.value[i].slots| && m < |s.pools.value[j].slots|
    ensures s.pools.value[i].slots[k].end <= s.pools.value[j].slots[m].start
  {
    PoolFits(s, i, 0, k);
    PoolFits(s, j, 0, m);
  }

  /** The page ranges of two kernel allocations with different ids, of m and n pages,
      overlap exactly when the one with the smaller id is longer than 1000 pages per id
      in between. */
  lemma KernelRangesOverlapIff(i: nat, j: nat, m: nat, n: nat)
    requires i < j && m > 0 && n > 0
    ensures (exists a :: InRange(a, Kernel, i * 1000, m) && InRange(a, Kernel, j * 1000, n)) <==> m > (j - i) * 1000
  {
    if m > (j - i) * 1000 {
      var a := Page(Kernel, j * 1000);
      assert InRange(a, Kernel, i * 1000, m) && InRange(a, Kernel, j * 1000, n);
    }
  }

  lemma ResidentAccess(s: System, rgid: int, off: nat, write: Option<Byte>)
    requires Inv(s) && PoolsOk(s)
    ensures StepKAccess(s, rgid, off, write).1 == Failed <==> Resolve(s.ksym, rgid, off) == None
  {
    var v := Resolve(s.ksym, rgid, off);
    if v.Some? {
      assert Resident(s.mem.pt, s.ksym[rgid].start, s.ksym[rgid].end);
      assert InRam(s.mem.pt, Page(Kernel, v.value / 4096));
    }
  }

  lemma KernelAccessFailsIff(s: System, rgid: int, off: nat, b: Byte)
    requires Inv(s) && PoolsOk(s)
    ensures var fails := !(0 <= rgid < |s.ksym| && s.ksym[rgid].start + off < s.ksym[rgid].end);
            && (Step(s, KRead(rgid, off)).1 == Failed <==> fails)
            && (Step(s, KWrite(rgid, off, b)).1 == Failed <==> fails)
  {
    ResidentAccess(s, rgid, off, None);
    ResidentAccess(s, rgid, off, Some(b));
    ResolveIff(s.ksym, rgid, off);
  }

  /** In no reachable state does a kernel read or write of a slot meet an absent page: it
      fails exactly when the byte is not in the region of the slot. */
  lemma KernelAccessNeverFaults(ramPages: nat, swapPages: nat, pids: set<nat>, ops: seq<Op>,
                                rgid: int, off: nat, b: Byte)
    requires ramPages <= MAX_FRAMES && swapPages <= MAX_SWAP_FRAMES && LegalRun(Boot(ramPages, swapPages, pids), ops)
    ensures var s := After(Boot(ramPages, swapPages, pids), ops);
            var fails := !(0 <= rgid < |s.ksym| && s.ksym[rgid].start + off < s.ksym[rgid].end);
            && (Step(s, KRead(rgid, off)).1 == Failed <==> fails)
            && (Step(s, KWrite(rgid, off, b)).1 == Failed <==> fails)
  {
    Reached(ramPages, swapPages, pids, ops);
    KernelAccessFailsIff(After(Boot(ramPages, swapPages, pids), ops), rgid, off, b);
  }

  /** Over whole runs. */
  lemma {:induction false} RunKeepsPools(s: System, ops: seq<Op>)
    requires Inv(s) && PoolsOk(s) && LegalRun(s, ops)
    ensures PoolsOk(After(s, ops))
    decreases |ops|
  {
    if ops != [] {
      StepInv(s, ops[0]);
      StepKeepsPools(s, ops[0]);
      RunKeepsPools(Step(s, ops[0]).0, ops[1..]);
    }
  }
}
