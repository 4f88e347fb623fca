/**
  What each library call does, said without the functions that define its step: when it
  succeeds, what it changes, and that it changes nothing else (src/libmem.c).  And what this
  means for the regions of all processes in whole runs.
 */
module Calls {
  import opened Collections
  import opened CNumbers
  import opened Word64
  import opened Devices
  import opened Paging
  import opened Regions
  import opened MemorySystem
  import opened MemoryRuns
  import opened UserCopy

  // ---- __free and __alloc ----------------------------------------------------------------------

  /** __free succeeds exactly if the index is good and the slot set.  It then clears the slot,
      puts a region that is not empty in front of the free list, and changes nothing else;
      otherwise it changes nothing at all. */
  lemma FreeMeans(s: System, pid: nat, rgid: int)
    requires pid in s.areas
    ensures var (s', r) := Step(s, Free(pid, rgid));
            && pid in s'.areas && s' == s.(areas := s.areas[pid := s'.areas[pid]])
            && var a, a' := s.areas[pid], s'.areas[pid];
               && (r == Done <==> 0 <= rgid < |a.sym| && a.sym[rgid] != Rg(0, 0))
               && (r != Done ==> r == Failed && a' == a)
               && (r == Done ==> a'.vmEnd == a.vmEnd && a'.sbrk == a.sbrk && a'.sym == a.sym[rgid := Rg(0, 0)])
               && (r == Done && a.sym[rgid].start < a.sym[rgid].end ==> a'.free == [a.sym[rgid]] + a.free)
               && (r == Done && a.sym[rgid].start >= a.sym[rgid].end ==> a'.free == a.free)
  {
    assert s.areas[pid := s.areas[pid]] == s.areas;
  }

  /** The address x is free once more for each time the freed region contains it. */
  lemma FreeCounts(s: System, pid: nat, rgid: int, x: nat)
    requires pid in s.areas && Step(s, Free(pid, rgid)).1 == Done
    ensures pid in Step(s, Free(pid, rgid)).0.areas && 0 <= rgid < |s.areas[pid].sym|
    ensures Count(Step(s, Free(pid, rgid)).0.areas[pid].free, x) ==
            Count(s.areas[pid].free, x) + One(s.areas[pid].sym[rgid], x)
  {
    FreeMeans(s, pid, rgid);
    var r, free := s.areas[pid].sym[rgid], s.areas[pid].free;
    assert ([r] + free)[1..] == free;
  }

  /** The slot gets region r, and no other slot, no other process and no kernel table changes. */
  ghost predicate Entered(s: System, s': System, pid: nat, rgid: int, r: Rg) {
    && pid in s.areas && pid in s'.areas && 0 <= rgid < |s.areas[pid].sym|
    && s' == s.(mem := s'.mem, areas := s.areas[pid := s'.areas[pid]])
    && s'.areas[pid].sym == s.areas[pid].sym[rgid := r]
  }

  /** Region i of the free list lost its front up to address cut, and is gone if nothing is
      left, but for an empty region at the end; the others stay in their order. */
  ghost predicate CutFront(free: seq<Rg>, free': seq<Rg>, i: nat, cut: nat)
    requires i < |free|
  {
    var rest := Rg(cut, free[i].end);
    if cut < free[i].end || i == |free| - 1 then free' == free[..i] + [rest] + free[i + 1..]
    else free' == free[..i] + free[i + 1..]
  }

  /**
    __alloc succeeds exactly if the index is good.  Let t be the size as an int.  The region
    is the front, of t bytes, of the first free region that holds them; memory and the area's
    end stay.  If there is none, it lies at the old break with its full size, the area grows
    by the pages of the size, and what the last page has left is freed.
   */
  lemma AllocMeans(s: System, pid: nat, rgid: int, size: nat) returns (i: nat)
    requires Inv(s) && Legal(s, Alloc(pid, rgid, size))
    ensures Step(s, Alloc(pid, rgid, size)).1 == (if 0 <= rgid < SYMBOLS then Done else Failed)
    ensures !(0 <= rgid < SYMBOLS) ==> Step(s, Alloc(pid, rgid, size)).0 == s
    ensures i <= |s.areas[pid].free|
    ensures forall j :: 0 <= j < i ==> s.areas[pid].free[j].end < Wrap(s.areas[pid].free[j].start + AsInt(size))
    ensures 0 <= rgid < SYMBOLS ==> pid in Step(s, Alloc(pid, rgid, size)).0.areas
    ensures 0 <= rgid < SYMBOLS && i < |s.areas[pid].free| ==>
              var s' := Step(s, Alloc(pid, rgid, size)).0;
              var r := s.areas[pid].free[i];
              var cut := Wrap(r.start + AsInt(size));
              && r.start <= cut <= r.end && Entered(s, s', pid, rgid, Rg(r.start, cut)) && s'.mem == s.mem
              && s'.areas[pid].vmEnd == s.areas[pid].vmEnd && s'.areas[pid].sbrk == s.areas[pid].sbrk
              && CutFront(s.areas[pid].free, s'.areas[pid].free, i, cut)
    ensures 0 <= rgid < SYMBOLS && i == |s.areas[pid].free| ==>
              var s' := Step(s, Alloc(pid, rgid, size)).0;
              var brk, n := s.areas[pid].sbrk, PageCount(size) * 4096;
              && 0 < size <= n < size + 4096 && Entered(s, s', pid, rgid, Rg(brk, brk + size))
              && s'.areas[pid].vmEnd == s'.areas[pid].sbrk == brk + n
              && s'.areas[pid].free ==
                 (if size < n then [Rg(brk + size, brk + n)] else []) + s.areas[pid].free
  {
    var a := s.areas[pid];
    i := FirstFit(a.free, AsInt(size));
    if 0 <= rgid < SYMBOLS {
      if i < |a.free| { AllocFits(s, pid, rgid, size, i); } else { AllocGrows(s, pid, rgid, size); }
    }
  }

  lemma AreaFits(a: Area, rgid: nat, size: nat, i: nat)
    requires a.Ok() && rgid < SYMBOLS && NumbersFit(a, size) && i == FirstFit(a.free, AsInt(size)) < |a.free|
    ensures var a' := Regions.Alloc(a, rgid, size);
            var cut := Wrap(a.free[i].start + AsInt(size));
            && a.free[i].start <= cut <= a.free[i].end && a'.sym == a.sym[rgid := Rg(a.free[i].start, cut)]
            && a'.vmEnd == a.vmEnd && a'.sbrk == a.sbrk && CutFront(a.free, a'.free, i, cut)
  {
  }

  lemma AllocFits(s: System, pid: nat, rgid: int, size: nat, i: nat)
    requires Inv(s) && Legal(s, Alloc(pid, rgid, size)) && 0 <= rgid < SYMBOLS
    requires i == FirstFit(s.areas[pid].free, AsInt(size)) < |s.areas[pid].free|
    ensures var s' := Step(s, Alloc(pid, rgid, size)).0;
            var r := s.areas[pid].free[i];
            var cut := Wrap(r.start + AsInt(size));
            && r.start <= cut <= r.end && Entered(s, s', pid, rgid, Rg(r.start, cut)) && s'.mem == s.mem
            && s'.areas[pid].vmEnd == s.areas[pid].vmEnd && s'.areas[pid].sbrk == s.areas[pid].sbrk
            && CutFront(s.areas[pid].free, s'.areas[pid].free, i, cut)
  {
    AreaFits(s.areas[pid], rgid, size, i);
  }

  lemma AreaGrows(a: Area, rgid: nat, size: nat, n: nat)
    requires a.Ok() && rgid < SYMBOLS && size < TWO64 && Grows(a, size) && NumbersFit(a, size)
    requires n == PageCount(size) * 4096
    ensures var a' := Regions.Alloc(a, rgid, size);
            && 0 < size <= n < size + 4096 && a'.sym == a.sym[rgid := Rg(a.sbrk, a.sbrk + size)]
            && a'.vmEnd == a'.sbrk == a.sbrk + n
            && a'.free == (if size < n then [Rg(a.sbrk + size, a.sbrk + n)] else []) + a.free
  {
    GrowthIs(a, rgid, size);
  }

  lemma AllocGrows(s: System, pid: nat, rgid: int, size: nat)
    requires Inv(s) && Legal(s, Alloc(pid, rgid, size)) && 0 <= rgid < SYMBOLS && Grows(s.areas[pid], size)
    ensures var s' := Step(s, Alloc(pid, rgid, size)).0;
            var brk, n := s.areas[pid].sbrk, PageCount(size) * 4096;
            && 0 < size <= n < size + 4096 && Entered(s, s', pid, rgid, Rg(brk, brk + size))
            && s'.areas[pid].vmEnd == s'.areas[pid].sbrk == brk + n
            && s'.areas[pid].free == (if size < n then [Rg(brk + size, brk + n)] else []) + s.areas[pid].free
  {
    AreaGrows(s.areas[pid], rgid, size, PageCount(size) * 4096);
  }

  // ---- The regions of all processes in a run ----------------------------------------------------

  /** In every process live and free regions are disjoint and together cover the area. */
  ghost predicate AllTiled(s: System) { forall pid :: pid in s.areas ==> s.areas[pid].Sound() }

  /** The call allocates into a slot that still holds live bytes. */
  predicate Overwrites(s: System, op: Op) {
    op.Alloc? && op.pid in s.areas && 0 <= op.rgid < |s.areas[op.pid].sym| && !s.areas[op.pid].sym[op.rgid].Empty()
  }

  lemma OneTiled(s: System, s': System, pid: nat)
    requires AllTiled(s) && pid in s.areas && pid in s'.areas && s'.areas == s.areas[pid := s'.areas[pid]]
    ensures AllTiled(s') <==> s'.areas[pid].Sound()
  {
  }

  lemma AllocTiled(s: System, pid: nat, rgid: int, size: nat)
    requires Inv(s) && Legal(s, Alloc(pid, rgid, size)) && AllTiled(s)
    ensures AllTiled(Step(s, Alloc(pid, rgid, size)).0) <==> !Overwrites(s, Alloc(pid, rgid, size))
  {
    if 0 <= rgid < SYMBOLS {
      AllocConserves(s.areas[pid], rgid, size);
      OneTiled(s, Step(s, Alloc(pid, rgid, size)).0, pid);
    }
  }

  lemma FreeTiled(s: System, pid: nat, rgid: int)
    requires Inv(s) && pid in s.areas && AllTiled(s)
    ensures AllTiled(Step(s, Free(pid, rgid)).0)
  {
    FreeMeans(s, pid, rgid);
    if 0 <= rgid < SYMBOLS { ReleaseConserves(s.areas[pid], rgid); }
    OneTiled(s, Step(s, Free(pid, rgid)).0, pid);
  }

  lemma OthersTiled(s: System, op: Op)
    requires !op.Alloc? && !op.Free?
    ensures Step(s, op).0.areas == s.areas
  {
  }

  lemma StepTiled(s: System, op: Op)
    requires Inv(s) && Legal(s, op) && AllTiled(s)
    ensures AllTiled(Step(s, op).0) <==> !Overwrites(s, op)
  {
    match op
    case Alloc(pid, rgid, size) => AllocTiled(s, pid, rgid, size);
    case Free(pid, rgid) => FreeTiled(s, pid, rgid);
    case _ => OthersTiled(s, op);
  }

  ghost predicate TiledThroughout(s: System, ops: seq<Op>)
    decreases |ops|
  {
    AllTiled(s) && (ops == [] || TiledThroughout(Step(s, ops[0]).0, ops[1..]))
  }

  predicate NeverOverwrites(s: System, ops: seq<Op>)
    decreases |ops|
  {
    ops == [] || (!Overwrites(s, ops[0]) && NeverOverwrites(Step(s, ops[0]).0, ops[1..]))
  }

  lemma {:induction false} RunTiledFrom(s: System, ops: seq<Op>)
    requires Inv(s) && LegalRun(s, ops) && AllTiled(s)
    ensures TiledThroughout(s, ops) <==> NeverOverwrites(s, ops)
    decreases |ops|
  {
    if ops != [] {
      StepInv(s, ops[0]);
      StepTiled(s, ops[0]);
      if !Overwrites(s, ops[0]) { RunTiledFrom(Step(s, ops[0]).0, ops[1..]); }
    }
  }

  /** Region conservation for all processes at once: in a run from start-up, whoever makes the
      calls, the regions of every process tile its area at every moment exactly if no call
      allocates into a slot with live bytes. */
  lemma RunTiled(ramPages: nat, swapPages: nat, pids: set<nat>, ops: seq<Op>)
    requires ramPages <= MAX_FRAMES && swapPages <= MAX_SWAP_FRAMES && LegalRun(Boot(ramPages, swapPages, pids), ops)
    ensures TiledThroughout(Boot(ramPages, swapPages, pids), ops)
            <==> NeverOverwrites(Boot(ramPages, swapPages, pids), ops)
  {
    BootInv(ramPages, swapPages, pids);
    FreshTiled();
    RunTiledFrom(Boot(ramPages, swapPages, pids), ops);
  }

  // ---- Kernel allocation and pools ---------------------------------------------------------------

  /** The pages from pgn on are mapped to the frames in the order of the free list. */
  lemma {:induction false} MapKernelOrder(m: Sys, pgn: nat, n: nat, i: nat)
    requires i < n && i < |m.ram.free|
    ensures MapKernel(m, pgn, n).0.PteOf(Page(Kernel, pgn + i)) == Present(m.ram.free[i])
    decreases n
  {
    var m1 := MapKernelPage(m, pgn);
    if i == 0 {
      MapKernelKeeps(m1, pgn + 1, n - 1);
      assert Page(Kernel, pgn) in m1.pt && !InRange(Page(Kernel, pgn), Kernel, pgn + 1, n - 1);
    } else {
      MapKernelOrder(m1, pgn + 1, n - 1, i - 1);
    }
  }

  lemma {:induction false} MapKernelFree(m: Sys, pgn: nat, n: nat)
    ensures MapKernel(m, pgn, n).0.ram.free == if n <= |m.ram.free| then m.ram.free[n..] else []
    decreases n
  {
    if n > 0 && m.ram.free != [] { MapKernelFree(MapKernelPage(m, pgn), pgn + 1, n - 1); }
  }

  /** The kernel pages id * 1000 on hold, in order, the frames from the front of the free list:
      n of them, or as many as there were.  No other page and no other table changes. */
  ghost predicate KernelMapped(s: System, s': System, id: nat, n: nat) {
    var free := s.mem.ram.free;
    && (forall i :: 0 <= i < n && i < |free| ==> s'.mem.PteOf(Page(Kernel, id * 1000 + i)) == Present(free[i]))
    && s'.mem.ram.free == (if n <= |free| then free[n..] else [])
    && (forall a :: a in s.mem.pt && !InRange(a, Kernel, id * 1000, n) ==> s'.mem.PteOf(a) == s.mem.pt[a])
    && (forall a :: a in s'.mem.pt && a !in s.mem.pt ==> InRange(a, Kernel, id * 1000, n))
    && s'.mem.swp == s.mem.swp && s'.mem.fifo == s.mem.fifo && s'.areas == s.areas && s'.ksym == s.ksym
  }

  lemma KernelMaps(s: System, id: nat, n: nat)
    ensures KernelMapped(s, s.(mem := MapKernel(s.mem, id * 1000, n).0), id, n)
  {
    MapKernelKeeps(s.mem, id * 1000, n);
    MapKernelMaps(s.mem, id * 1000, n);
    MapKernelFree(s.mem, id * 1000, n);
    forall i | 0 <= i < n && i < |s.mem.ram.free|
      ensures MapKernel(s.mem, id * 1000, n).0.PteOf(Page(Kernel, id * 1000 + i)) == Present(s.mem.ram.free[i])
    {
      MapKernelOrder(s.mem, id * 1000, n, i);
    }
  }

  /** __kmalloc succeeds exactly if the size is not 0 and RAM has a free frame for every page;
      pages mapped before the frames ran out stay mapped. */
  lemma KmallocMeans(s: System, id: nat, size: nat) returns (n: nat)
    ensures size <= n * 4096 < size + 4096
    ensures var (s', r) := Step(s, Kmalloc(id, size));
            && r == (if 0 < size && n <= |s.mem.ram.free| then Done else Failed)
            && s'.pools == s.pools && KernelMapped(s, s', id, n)
  {
    n := PageCount(size);
    KernelMaps(s, id, n);
    MapKernelMaps(s.mem, id * 1000, n);
    if size == 0 { assert MapKernel(s.mem, id * 1000, n).0 == s.mem; }
  }

  /** Pool i of the table; before the table is made all pools are unused. */
  function PoolAt(s: System, i: nat): Pool {
    if s.pools.Some? && i < |s.pools.value| then s.pools.value[i] else Pool(0, 0, 0, 0, [])
  }

  /** libkmem_cache_pool_create succeeds exactly if size and alignment are not 0, the size is at
      least the alignment, the index is good and RAM has enough free frames.  The pool is then
      as large as asked for, starts at id * 1000 pages and has handed out nothing; all other
      pools are as before. */
  lemma PoolCreateMeans(s: System, size: nat, align: nat, id: nat) returns (n: nat)
    requires PoolsOk(s)
    ensures size <= n * 4096 < size + 4096
    ensures var (s', r) := Step(s, PoolCreate(size, align, id));
            var fine := 0 < align <= size && id < POOLS;
            && r == (if fine && n <= |s.mem.ram.free| then Done else Failed)
            && (fine ==> KernelMapped(s, s', id, n)) && (!fine ==> s' == s.(pools := s'.pools))
            && (s'.pools.Some? ==> |s'.pools.value| == POOLS)
            && (forall i :: 0 <= i < POOLS && (i != id || r != Done) ==> PoolAt(s', i) == PoolAt(s, i))
            && (r == Done ==> PoolAt(s', id) == Pool(size, align, id * 1000 * 4096, size, []))
  {
    n := PageCount(size);
    KernelMaps(s, id, n);
    MapKernelMaps(s.mem, id * 1000, n);
  }

  /** __kmem_cache_alloc succeeds exactly if both indices are good, the pool was created, and
      one more slot still lies in it.  The slot follows the ones handed out before; nothing
      but the pool and the entry of the symbol table changes. */
  lemma CacheAllocMeans(s: System, rgid: int, id: int)
    requires PoolsOk(s) && s.pools.Some?
    ensures var (s', r) := Step(s, CacheAlloc(rgid, id));
            && (r == Done || r == Failed) && (r == Failed ==> s' == s)
            && (r == Done <==>
                  && 0 <= id < POOLS && 0 <= rgid < SYMBOLS && 0 < s.pools.value[id].align
                  && (|s.pools.value[id].slots| + 1) * s.pools.value[id].align <= s.pools.value[id].created)
            && (r == Done ==>
                  var p := s.pools.value[id];
                  var at := id * 1000 * 4096 + |p.slots| * p.align;
                  && s' == s.(pools := s'.pools, ksym := s.ksym[rgid := Rg(at, at + p.align)])
                  && s'.pools.Some? && |s'.pools.value| == POOLS
                  && s'.pools.value[id].slots == p.slots + [Rg(at, at + p.align)]
                  && s'.pools.value[id].align == p.align && s'.pools.value[id].created == p.created
                  && forall j :: 0 <= j < POOLS && j != id ==> s'.pools.value[j] == s.pools.value[j])
  {
    if 0 <= id < POOLS && s.pools.value[id].align > 0 {
      var p := s.pools.value[id];
      assert PoolOk(s.mem.pt, id, p);
      SlotsCount(p.slots, Base(id), p.align, p.storage);
      AddSlot(|p.slots|, p.align);
    }
  }

  // ---- Reading and writing -------------------------------------------------------------------------

  function At(sp: Space, vaddr: nat): Loc { Loc(Page(sp, vaddr / 4096), vaddr % 4096) }

  lemma TouchReads(t: System, l: Loc, frame: Option<nat>)
    requires t.mem.Ok() && FrameOf(t, l, frame)
    ensures var (t', r) := TouchFrame(t, frame, l.off, None);
            && t' == t && !r.Done? && (r.Value? ==> InRam(t.mem.pt, l.page) && ByteAt(t.mem, l) == Some(r.b))
  {
  }

  lemma FaultSame(m: Sys, a: Page, m': Sys, r: Option<nat>)
    requires Faulted(m, a, m', r) && a.sp != Kernel
    ensures SameBytes(m, m')
  {
    forall l: Loc | l.page.sp == Kernel ensures ByteAt(m', l) == ByteAt(m, l) {
      FaultBytes(m, a, m', r, Loc(l.page, l.off + 1));
    }
    FaultBytes(m, a, m', r, Loc(a, 0));
    FaultBytes(m, a, m', r, Loc(a, 1));
  }

  /** A read that changes no mapped byte, and answers with the byte at location l, in RAM. */
  ghost predicate ReadOk(s: System, s': System, r: Outcome, l: Loc) {
    (&& s' == s.(mem := s'.mem) && !r.Done? && SameBytes(s.mem, s'.mem)
     && (r.Value? ==> InRam(s'.mem.pt, l.page) && ByteAt(s'.mem, l) == Some(r.b))) == true
  }

  lemma ReadAfterFault(s: System, l: Loc, m: Sys, f: Option<nat>)
    requires Faulted(s.mem, l.page, m, f) && l.off < 4096 && l.page.sp != Kernel
    ensures ReadOk(s, TouchFrame(s.(mem := m), f, l.off, None).0, TouchFrame(s.(mem := m), f, l.off, None).1, l)
  {
    FaultFor(s, l, m, f);
    FaultSame(s.mem, l.page, m, f);
    TouchReads(s.(mem := m), l, f);
  }

  lemma NoRead(s: System, l: Loc)
    ensures ReadOk(s, s, Failed, l)
  {
  }

  lemma ReadResolved(s: System, pid: nat, rgid: int, off: nat)
    requires Inv(s) && pid in s.areas && Resolve(s.areas[pid].sym, rgid, off).Some?
    ensures var (s', r) := StepAccess(s, pid, rgid, off, None);
            ReadOk(s, s', r, LocOf(User(pid), Resolve(s.areas[pid].sym, rgid, off).value))
  {
    var l := LocOf(User(pid), Resolve(s.areas[pid].sym, rgid, off).value);
    var (m, f) := s.mem.GetPage(l.page);
    UserPage(s, pid, rgid, off);
    GetPageRefines(s.mem, l.page);
    ReadAfterFault(s, l, m, f);
  }

  lemma ReadAt(s: System, pid: nat, rgid: int, off: nat, l: Loc)
    requires Inv(s) && pid in s.areas && 0 <= rgid < |s.areas[pid].sym|
    requires l == At(User(pid), s.areas[pid].sym[rgid].start + off)
    ensures ReadOk(s, StepAccess(s, pid, rgid, off, None).0, StepAccess(s, pid, rgid, off, None).1, l)
  {
    var v := Resolve(s.areas[pid].sym, rgid, off);
    if v.Some? { ReadResolved(s, pid, rgid, off); } else { NoRead(s, l); }
  }

  /** A user read changes no mapped byte; if it answers, then with the byte that is at the
      address when it returns, in RAM. */
  lemma UserReadMeans(s: System, pid: nat, rgid: int, off: nat)
    requires Inv(s) && pid in s.areas
    ensures var (s', r) := Step(s, Read(pid, rgid, off));
            if 0 <= rgid < |s.areas[pid].sym|
            then ReadOk(s, s', r, At(User(pid), s.areas[pid].sym[rgid].start + off))
            else r == Failed && s' == s
  {
    if 0 <= rgid < |s.areas[pid].sym| {
      ReadAt(s, pid, rgid, off, At(User(pid), s.areas[pid].sym[rgid].start + off));
    }
  }

  /** A write that puts the byte at location l if it succeeds, and changes no other mapped byte. */
  ghost predicate WriteOk(s: System, s': System, r: Outcome, l: Loc, b: Byte) {
    (s' == s.(mem := s'.mem) && !r.Value? && WroteAt(s.mem, s'.mem, l, b, r)) == true
  }

  lemma NoWrite(s: System, l: Loc, b: Byte)
    ensures WriteOk(s, s, Failed, l, b)
  {
  }

  lemma WriteAt(s: System, pid: nat, rgid: int, off: nat, b: Byte, l: Loc)
    requires Inv(s) && pid in s.areas && 0 <= rgid < |s.areas[pid].sym|
    requires l == At(User(pid), s.areas[pid].sym[rgid].start + off)
    ensures WriteOk(s, StepAccess(s, pid, rgid, off, Some(b)).0, StepAccess(s, pid, rgid, off, Some(b)).1, l, b)
  {
    var v := Resolve(s.areas[pid].sym, rgid, off);
    if v.Some? { WriteOneByte(s, pid, rgid, off, b); } else { NoWrite(s, l, b); }
  }

  /** A user write that succeeds puts the byte at the address, and no user write changes
      another mapped byte; one that fails changes none. */
  lemma UserWriteMeans(s: System, pid: nat, rgid: int, off: nat, b: Byte)
    requires Inv(s) && pid in s.areas
    ensures var (s', r) := Step(s, Write(pid, rgid, off, b));
            if 0 <= rgid < |s.areas[pid].sym|
            then WriteOk(s, s', r, At(User(pid), s.areas[pid].sym[rgid].start + off), b)
            else r == Failed && s' == s
  {
    if 0 <= rgid < |s.areas[pid].sym| {
      WriteAt(s, pid, rgid, off, b, At(User(pid), s.areas[pid].sym[rgid].start + off));
    }
  }

  /** A kernel read changes nothing and answers with the byte at the address. */
  lemma KernelReadMeans(s: System, rgid: int, off: nat)
    requires Inv(s)
    ensures var (s', r) := Step(s, KRead(rgid, off));
            && s' == s && !r.Done? && (r.Value? ==> 0 <= rgid < |s.ksym|)
            && (r.Value? ==> ByteAt(s.mem, At(Kernel, s.ksym[rgid].start + off)) == Some(r.b))
  {
    var v := Resolve(s.ksym, rgid, off);
    if v.Some? {
      var l := LocOf(Kernel, v.value);
      var e := s.mem.PteOf(l.page);
      TouchReads(s, l, if e.Present? then Some(e.fpn) else None);
    }
  }

  /** Location l holds byte b now, and no other byte has changed. */
  ghost predicate OneWritten(m: Sys, m': Sys, l: Loc, b: Byte) {
    (&& m'.pt == m.pt && ByteAt(m', l) == Some(b)
     && (forall l': Loc :: l'.page in m.pt && l' != l ==> ByteAt(m', l') == ByteAt(m, l'))) == true
  }

  lemma ByteSet(m: Sys, l: Loc, f: nat, b: Byte)
    requires m.Ok() && l.off < 4096 && InRam(m.pt, l.page) && m.pt[l.page].fpn == f
    ensures OneWritten(m, m.WriteByte(f, l.off, b), l, b)
  {
    WriteByteOk(m, l.page, l.off, b);
  }

  lemma TouchWrites(s: System, l: Loc, frame: Option<nat>, b: Byte)
    requires s.mem.Ok() && FrameOf(s, l, frame)
    ensures var (s', r) := TouchFrame(s, frame, l.off, Some(b));
            !r.Value? && (r == Done ==> OneWritten(s.mem, s'.mem, l, b)) && (r != Done ==> s' == s)
  {
    if frame.Some? && frame.value < |s.mem.ram.pages| {
      assert InRam(s.mem.pt, l.page) && s.mem.pt[l.page].fpn == frame.value;
      ByteSet(s.mem, l, frame.value, b);
    }
  }

  /** A kernel write that succeeds sets the byte at the address and no other; one that fails
      changes nothing. */
  lemma KernelWriteMeans(s: System, rgid: int, off: nat, b: Byte)
    requires Inv(s)
    ensures var (s', r) := Step(s, KWrite(rgid, off, b));
            && s' == s.(mem := s'.mem) && !r.Value? && (r != Done ==> s' == s)
            && (r == Done ==> 0 <= rgid < |s.ksym|)
            && (r == Done ==> OneWritten(s.mem, s'.mem, At(Kernel, s.ksym[rgid].start + off), b))
  {
    var v := Resolve(s.ksym, rgid, off);
    if v.Some? {
      var l := LocOf(Kernel, v.value);
      var e := s.mem.PteOf(l.page);
      TouchWrites(s, l, if e.Present? then Some(e.fpn) else None, b);
    }
  }
}
