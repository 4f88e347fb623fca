/**
  Whole runs of the memory system.  One step is one call of a library routine:
  allocation and release of user regions, user reads and writes through pg_getpage,
  kernel allocation, kernel cache pools, and kernel reads and writes (src/libmem.c).
  Each call is one atomic step, whatever process makes it.
 */
module MemorySystem {
  import opened Collections
  import opened CNumbers
  import opened Word64
  import opened Devices
  import opened Paging
  import opened Regions

  const POOLS: nat := 100

  /** The three live fields of a kcache_pool_struct, and its history since creation:
      the size it was created with and the slots handed out. */
  datatype Pool = Pool(size: nat, align: nat, storage: nat, created: nat, slots: seq<Rg>)

  datatype System = System(mem: Sys, areas: map<nat, Area>, ksym: seq<Rg>, pools: Option<seq<Pool>>)

  datatype Outcome = Failed | Done | Value(b: Byte)

  datatype Op =
    | Alloc(pid: nat, rgid: int, size: nat)                        // __alloc
    | Free(pid: nat, rgid: int)                                    // __free
    | Read(pid: nat, rgid: int, off: nat)                          // __read_user_mem
    | Write(pid: nat, rgid: int, off: nat, b: Byte)                // __write_user_mem
    | Kmalloc(kid: nat, size: nat)                                 // __kmalloc
    | PoolCreate(size: nat, align: nat, id: nat)                   // libkmem_cache_pool_create
    | CacheAlloc(rgid: int, pool: int)                             // __kmem_cache_alloc
    | KRead(rgid: int, off: nat)                                   // __read_kernel_mem
    | KWrite(rgid: int, off: nat, b: Byte)                         // __write_kernel_mem

  /** A byte of some address space. */
  datatype Loc = Loc(page: Page, off: nat)

  function LocOf(sp: Space, vaddr: nat): Loc { Loc(Page(sp, vaddr / 4096), vaddr % 4096) }

  function Start(sym: seq<Rg>, rgid: int): nat { if 0 <= rgid < |sym| then sym[rgid].start else 0 }

  function Length(sym: seq<Rg>, rgid: int): nat {
    if 0 <= rgid < |sym| && sym[rgid].start <= sym[rgid].end then sym[rgid].end - sym[rgid].start else 0
  }

  /** The address checks shared by the four access routines. */
  function Resolve(sym: seq<Rg>, rgid: int, off: nat): (r: Option<nat>)
    ensures r.Some? ==> off < Length(sym, rgid) && r.value == Start(sym, rgid) + off
  {
    if rgid < 0 || rgid >= |sym| || sym[rgid].Unset() || sym[rgid].start + off >= sym[rgid].end then None
    else Some(sym[rgid].start + off)
  }

  /** They accept exactly the bytes of the region in a slot, its last one included. */
  lemma ResolveIff(sym: seq<Rg>, rgid: int, off: nat)
    ensures Resolve(sym, rgid, off).Some? <==> 0 <= rgid < |sym| && sym[rgid].start + off < sym[rgid].end
    ensures Resolve(sym, rgid, off).Some? ==> Resolve(sym, rgid, off).value == sym[rgid].start + off
  {
  }

  // ---- Invariant --------------------------------------------------------------------

  /** The pages of a process lie below the end of its area. */
  ghost predicate BelowEnd(pt: map<Page, Pte>, areas: map<nat, Area>) {
    forall a :: a in pt && a.sp != Kernel ==> a.sp.pid in areas && (a.pgn + 1) * 4096 <= areas[a.sp.pid].vmEnd
  }

  ghost predicate SpacesOk(s: System) {
    && Kernel in s.mem.fifo && |s.ksym| == SYMBOLS
    && (forall pid :: pid in s.areas ==> User(pid) in s.mem.fifo)
    && (forall pid :: pid in s.areas ==> s.areas[pid].Ok() && s.areas[pid].vmEnd <= TWO31)
  }

  ghost predicate Inv(s: System) { (s.mem.Ok() && SpacesOk(s) && BelowEnd(s.mem.pt, s.areas)) == true }

  function AreaOf(s: System, pid: nat): Area { if pid in s.areas then s.areas[pid] else Fresh() }

  // ---- Steps ------------------------------------------------------------------------

  /** What the callers guarantee: the process exists, arguments of the types of the code, an
      area that does not grow beyond 2^31 and an allocation whose numbers fit, and a pool
      table before the first slot is asked for. */
  predicate Legal(s: System, op: Op) {
    match op
    case Alloc(pid, _, size) =>
      && pid in s.areas && size < TWO64 && NumbersFit(s.areas[pid], size)
      && (Grows(s.areas[pid], size) ==> s.areas[pid].vmEnd + AlignUp(size) <= TWO31)
    case Free(pid, _) => pid in s.areas
    case Read(pid, _, off) => pid in s.areas && off < TWO32
    case Write(pid, _, off, _) => pid in s.areas && off < TWO32
    case Kmalloc(rgid, size) => rgid < TWO31 && size < TWO32
    case PoolCreate(size, align, id) => size < TWO32
    case CacheAlloc(_, _) => s.pools.Some?
    case KRead(_, off) => off < TWO32
    case KWrite(_, off, _) => off < TWO32
  }

  function PageCount(size: nat): nat { (size + 4096 - 1) / 4096 }

  /** The area really grows. */
  predicate Extends(a: Area, size: nat) { Grows(a, size) && Grow(a, Align64(size)) != a }

  /** A number of pages as inc_vma_limit passes it on, an int; a negative one asks for none. */
  function IntPages(bytes: nat): nat {
    var n := AsInt(bytes / 4096);
    if n < 0 then 0 else n
  }

  /** The pages an allocation asks for when it grows the area. */
  function NewPages(size: nat): nat { IntPages(Align64(size)) }

  function StepAlloc(s: System, pid: nat, rgid: int, size: nat): (System, Outcome) {
    var a := AreaOf(s, pid);
    if rgid < 0 || rgid >= |a.sym| then (s, Failed)
    else
      var mem' := if Extends(a, size) then MapRam(s.mem, User(pid), a.vmEnd / 4096, NewPages(size)) else s.mem;
      (s.(mem := mem', areas := s.areas[pid := Regions.Alloc(a, rgid, size)]), Done)
  }

  function StepFree(s: System, pid: nat, rgid: int): (System, Outcome) {
    var a := AreaOf(s, pid);
    if rgid < 0 || rgid >= |a.sym| || a.sym[rgid].Unset() then (s, Failed)
    else (s.(areas := s.areas[pid := Release(a, rgid)]), Done)
  }

  /** A user access brings the page in and then reads or writes one byte of its frame. */
  function StepAccess(s: System, pid: nat, rgid: int, off: nat, write: Option<Byte>): (res: (System, Outcome))
    ensures res.0 == s.(mem := res.0.mem)
  {
    match Resolve(AreaOf(s, pid).sym, rgid, off)
    case None => (s, Failed)
    case Some(vaddr) =>
      var l := LocOf(User(pid), vaddr);
      var (mem', r) := s.mem.GetPage(l.page);
      TouchFrame(s.(mem := mem'), r, l.off, write)
  }

  function TouchFrame(s: System, frame: Option<nat>, off: nat, write: Option<Byte>): (res: (System, Outcome))
    requires off < 4096
    ensures res.0 == s.(mem := res.0.mem)
  {
    if frame.None? || frame.value >= |s.mem.ram.pages| then (s, Failed)
    else match write
      case None => (s, Value(s.mem.ram.Frame(frame.value)[off]))
      case Some(b) => (s.(mem := s.mem.WriteByte(frame.value, off, b)), Done)
  }

  function StepKmalloc(s: System, rgid: nat, size: nat): (System, Outcome) {
    if size == 0 then (s, Failed)
    else
      var (mem', done) := MapKernel(s.mem, rgid * 1000, PageCount(size));
      (s.(mem := mem'), if done then Done else Failed)
  }

  /** The pool table, made of unused pools on the first creation. */
  function PoolTable(s: System): seq<Pool> {
    if s.pools.Some? then s.pools.value else seq(POOLS, _ => Pool(0, 0, 0, 0, []))
  }

  function StepPoolCreate(s: System, size: nat, align: nat, id: nat): (System, Outcome) {
    if size == 0 || align == 0 || size < align then (s, Failed)
    else
      var pools := PoolTable(s);
      if id >= POOLS || id >= |pools| then (s.(pools := Some(pools)), Failed)
      else
        var (s', r) := StepKmalloc(s, id, size);
        if r == Failed then (s'.(pools := Some(pools)), Failed)
        else (s'.(pools := Some(pools[id := Pool(size, align, id * 1000 * 4096, size, [])])), Done)
  }

  /** A created pool with room for one more slot, and a place in the symbol table for it. */
  predicate CanTake(pools: seq<Pool>, sym: seq<Rg>, rgid: int, id: int) {
    && 0 <= id < POOLS && id < |pools| && pools[id].align != 0 && pools[id].size >= pools[id].align
    && 0 <= rgid < |sym|
  }

  function SlotOf(p: Pool): Rg { Rg(p.storage, p.storage + p.align) }

  function Bumped(p: Pool): Pool
    requires p.size >= p.align
  {
    p.(size := p.size - p.align, storage := p.storage + p.align, slots := p.slots + [SlotOf(p)])
  }

  /** The next slot of the pool goes to the symbol table. */
  function StepCacheAlloc(s: System, rgid: int, id: int): (System, Outcome) {
    var pools := if s.pools.Some? then s.pools.value else [];
    if !CanTake(pools, s.ksym, rgid, id) then (s, Failed)
    else (s.(pools := Some(pools[id := Bumped(pools[id])]), ksym := s.ksym[rgid := SlotOf(pools[id])]), Done)
  }

  /** Kernel accesses never fault a page in: an absent page is an error. */
  function StepKAccess(s: System, rgid: int, off: nat, write: Option<Byte>): (res: (System, Outcome))
    ensures res.0 == s.(mem := res.0.mem)
  {
    match Resolve(s.ksym, rgid, off)
    case None => (s, Failed)
    case Some(vaddr) =>
      var l := LocOf(Kernel, vaddr);
      var e := s.mem.PteOf(l.page);
      TouchFrame(s, if e.Present? then Some(e.fpn) else None, l.off, write)
  }

  function Step(s: System, op: Op): (System, Outcome) {
    match op
    case Alloc(pid, rgid, size) => StepAlloc(s, pid, rgid, size)
    case Free(pid, rgid) => StepFree(s, pid, rgid)
    case Read(pid, rgid, off) => StepAccess(s, pid, rgid, off, None)
    case Write(pid, rgid, off, b) => StepAccess(s, pid, rgid, off, Some(b))
    case Kmalloc(rgid, size) => StepKmalloc(s, rgid, size)
    case PoolCreate(size, align, id) => StepPoolCreate(s, size, align, id)
    case CacheAlloc(rgid, id) => StepCacheAlloc(s, rgid, id)
    case KRead(rgid, off) => StepKAccess(s, rgid, off, None)
    case KWrite(rgid, off, b) => StepKAccess(s, rgid, off, Some(b))
  }

  // ---- The flat memory ----------------------------------------------------------------

  /** The location an access names, if its checks pass. */
  function Target(s: System, op: Op): Option<Loc> {
    match op
    case Read(pid, rgid, off) => TargetOf(s, User(pid), rgid, off)
    case Write(pid, rgid, off, _) => TargetOf(s, User(pid), rgid, off)
    case KRead(rgid, off) => TargetOf(s, Kernel, rgid, off)
    case KWrite(rgid, off, _) => TargetOf(s, Kernel, rgid, off)
    case _ => None
  }

  function TargetOf(s: System, sp: Space, rgid: int, off: nat): Option<Loc> {
    var sym := match sp case Kernel => s.ksym case User(pid) => AreaOf(s, pid).sym;
    match Resolve(sym, rgid, off)
    case None => None
    case Some(vaddr) => Some(LocOf(sp, vaddr))
  }

  /** The kernel pages an operation may map afresh. */
  predicate Remaps(op: Op, a: Page) {
    match op
    case Kmalloc(rgid, size) => InRange(a, Kernel, rgid * 1000, PageCount(size))
    case PoolCreate(size, _, id) => InRange(a, Kernel, id * 1000, PageCount(size))
    case _ => false
  }

  type Flat = map<Loc, Byte>

  /** The abstract machine: a plain map from locations to the byte last written there.
      A successful write sets one location; a kernel mapping forgets what it replaces. */
  function FlatStep(flat: Flat, s: System, op: Op, r: Outcome): Flat {
    match op
    case Write(_, _, _, b) => if r == Done && Target(s, op).Some? then flat[Target(s, op).value := b] else flat
    case KWrite(_, _, b) => if r == Done && Target(s, op).Some? then flat[Target(s, op).value := b] else flat
    case _ => Forget(flat, op)
  }

  function Forget(flat: Flat, op: Op): Flat { map l | l in flat && !Remaps(op, l.page) :: flat[l] }

  /** Memory holds every byte of the flat map at its location. */
  ghost predicate Agrees(m: Sys, flat: Flat) {
    forall l :: l in flat ==>
      l.off < 4096 && l.page in m.pt && m.Content(l.page).Some? && m.Content(l.page).value[l.off] == flat[l]
  }

  lemma AgreesKept(m: Sys, m': Sys, flat: Flat)
    requires Agrees(m, flat) && Keeps(m, m')
    ensures Agrees(m', flat)
  {
  }

  lemma AgreesForget(m: Sys, flat: Flat, op: Op)
    requires Agrees(m, flat)
    ensures Agrees(m, Forget(flat, op))
  {
  }

  lemma AgreesWrite(m: Sys, flat: Flat, a: Page, off: nat, b: Byte)
    requires m.Ok() && Agrees(m, flat) && InRam(m.pt, a) && off < 4096
    ensures Agrees(m.WriteByte(m.pt[a].fpn, off, b), flat[Loc(a, off) := b])
  {
    WriteByteOk(m, a, off, b);
  }

  // ---- Every step keeps the invariant and refines the flat memory -----------------------

  lemma UserPage(s: System, pid: nat, rgid: int, off: nat)
    requires Inv(s) && pid in s.areas && Resolve(s.areas[pid].sym, rgid, off).Some?
    ensures var a := LocOf(User(pid), Resolve(s.areas[pid].sym, rgid, off).value).page;
            a.pgn < MAX_PGN && (a.pgn + 1) * 4096 <= s.areas[pid].vmEnd
  {
  }

  /** Touching the frame of a page that is in RAM. */
  ghost predicate FrameOf(s: System, l: Loc, frame: Option<nat>) {
    l.off < 4096 && (frame.Some? ==> s.mem.PteOf(l.page) == Present(frame.value))
  }

  lemma TouchInv(s: System, l: Loc, frame: Option<nat>, write: Option<Byte>)
    requires Inv(s) && FrameOf(s, l, frame)
    ensures Inv(TouchFrame(s, frame, l.off, write).0)
  {
    if frame.Some? && write.Some? {
      assert InRam(s.mem.pt, l.page);
      WriteByteOk(s.mem, l.page, l.off, write.value);
      SameTablesInv(s, s.mem.WriteByte(frame.value, l.off, write.value));
    }
  }

  lemma SameTablesInv(s: System, mem': Sys)
    requires Inv(s) && mem'.Ok() && mem'.pt == s.mem.pt && mem'.fifo == s.mem.fifo
    ensures Inv(s.(mem := mem'))
  {
  }

  lemma TouchAgrees(s: System, l: Loc, frame: Option<nat>, write: Option<Byte>, flat: Flat)
    requires s.mem.Ok() && FrameOf(s, l, frame) && Agrees(s.mem, flat)
    ensures var (s', r) := TouchFrame(s, frame, l.off, write);
            && (r.Value? ==> write.None? && (l in flat ==> r.b == flat[l]))
            && (r == Done ==> write.Some? && Agrees(s'.mem, flat[l := write.value]))
            && (r != Done ==> Agrees(s'.mem, flat))
  {
    if frame.Some? {
      assert InRam(s.mem.pt, l.page);
      if write.Some? {
        AgreesWrite(s.mem, flat, l.page, l.off, write.value);
      }
    }
  }

  lemma FaultInv(s: System, pid: nat, a: Page, mem': Sys, r: Option<nat>)
    requires Inv(s) && pid in s.areas && a.sp == User(pid) && (a.pgn + 1) * 4096 <= s.areas[pid].vmEnd
    requires Faulted(s.mem, a, mem', r)
    ensures Inv(s.(mem := mem'))
  {
    FaultSpaces(s, a, mem');
    FaultBelow(s.mem.pt, mem'.pt, s.areas, a);
  }

  lemma FaultSpaces(s: System, a: Page, mem': Sys)
    requires SpacesOk(s) && mem'.fifo.Keys == s.mem.fifo.Keys
    ensures SpacesOk(s.(mem := mem'))
  {
  }

  lemma FaultBelow(pt: map<Page, Pte>, pt': map<Page, Pte>, areas: map<nat, Area>, a: Page)
    requires BelowEnd(pt, areas) && (pt'.Keys == pt.Keys || pt'.Keys == pt.Keys + {a})
    requires a.sp != Kernel ==> a.sp.pid in areas && (a.pgn + 1) * 4096 <= areas[a.sp.pid].vmEnd
    ensures BelowEnd(pt', areas)
  {
    forall b | b in pt' && b.sp != Kernel ensures b.sp.pid in areas && (b.pgn + 1) * 4096 <= areas[b.sp.pid].vmEnd {
      assert b in pt'.Keys;
    }
  }

  lemma AccessInv(s: System, pid: nat, rgid: int, off: nat, write: Option<Byte>)
    requires Inv(s) && pid in s.areas
    ensures Inv(StepAccess(s, pid, rgid, off, write).0)
  {
    var v := Resolve(s.areas[pid].sym, rgid, off);
    if v.Some? {
      var l := LocOf(User(pid), v.value);
      var (mem', r) := s.mem.GetPage(l.page);
      assert Inv(s.(mem := mem')) && FrameOf(s.(mem := mem'), l, r) by {
        UserPage(s, pid, rgid, off);
        GetPageRefines(s.mem, l.page);
        FaultInv(s, pid, l.page, mem', r);
      }
      TouchInv(s.(mem := mem'), l, r, write);
    }
  }

  lemma FaultAgrees(s: System, l: Loc, mem': Sys, r: Option<nat>, flat: Flat)
    requires Faulted(s.mem, l.page, mem', r) && l.off < 4096 && Agrees(s.mem, flat)
    ensures mem'.Ok() && FrameOf(s.(mem := mem'), l, r) && Agrees(mem', flat)
  {
    AgreesKept(s.mem, mem', flat);
  }

  lemma AccessAgrees(s: System, pid: nat, rgid: int, off: nat, write: Option<Byte>, flat: Flat)
    requires Inv(s) && pid in s.areas && Agrees(s.mem, flat)
    ensures var (s', r) := StepAccess(s, pid, rgid, off, write);
            AccessResult(flat, TargetOf(s, User(pid), rgid, off), write, s', r)
  {
    var v := Resolve(s.areas[pid].sym, rgid, off);
    if v.Some? {
      var l := LocOf(User(pid), v.value);
      var (mem', r) := s.mem.GetPage(l.page);
      UserPage(s, pid, rgid, off);
      GetPageRefines(s.mem, l.page);
      FaultAgrees(s, l, mem', r, flat);
      TouchAgrees(s.(mem := mem'), l, r, write, flat);
    }
  }

  /** What an access through location t may answer and leave behind. */
  ghost predicate AccessResult(flat: Flat, t: Option<Loc>, write: Option<Byte>, s': System, r: Outcome) {
    && (r.Value? ==> write.None? && t.Some? && (t.value in flat ==> r.b == flat[t.value]))
    && (r == Done ==> write.Some? && t.Some? && Agrees(s'.mem, flat[t.value := write.value]))
    && (r != Done ==> Agrees(s'.mem, flat))
  }

  lemma KAccessInv(s: System, rgid: int, off: nat, write: Option<Byte>)
    requires Inv(s)
    ensures Inv(StepKAccess(s, rgid, off, write).0)
  {
    var v := Resolve(s.ksym, rgid, off);
    if v.Some? {
      var l := LocOf(Kernel, v.value);
      var e := s.mem.PteOf(l.page);
      TouchInv(s, l, if e.Present? then Some(e.fpn) else None, write);
    }
  }

  lemma KAccessAgrees(s: System, rgid: int, off: nat, write: Option<Byte>, flat: Flat)
    requires Inv(s) && Agrees(s.mem, flat)
    ensures var (s', r) := StepKAccess(s, rgid, off, write);
            AccessResult(flat, TargetOf(s, Kernel, rgid, off), write, s', r)
  {
    var v := Resolve(s.ksym, rgid, off);
    if v.Some? {
      var l := LocOf(Kernel, v.value);
      var e := s.mem.PteOf(l.page);
      TouchAgrees(s, l, if e.Present? then Some(e.fpn) else None, write, flat);
    }
  }

  /** Within the limits of Legal, a growth is by the pages of the size. */
  lemma GrowthPages(a: Area, size: nat)
    requires a.Ok() && size < TWO64 && Grows(a, size) && a.vmEnd + AlignUp(size) <= TWO31
    ensures Extends(a, size) && NewPages(size) == PageCount(size)
  {
    NothingFits(a);
    GrowIs(a, size);
    Align64Is(size);
  }

  /** The pages an area is about to grow by are not mapped yet. */
  lemma GrowthUnmapped(s: System, pid: nat, size: nat)
    requires Inv(s) && Legal(s, Alloc(pid, 0, size)) && Grows(s.areas[pid], size)
    ensures Extends(s.areas[pid], size) && NewPages(size) == PageCount(size)
    ensures var first, n := s.areas[pid].vmEnd / 4096, PageCount(size);
            && first * 4096 == s.areas[pid].vmEnd && n * 4096 == AlignUp(size) && first + n <= MAX_PGN
            && forall b :: b in s.mem.pt ==> !InRange(b, User(pid), first, n)
  {
    GrowthPages(s.areas[pid], size);
  }

  lemma AllocMem(s: System, pid: nat, rgid: int, size: nat)
    requires Inv(s) && Legal(s, Alloc(pid, rgid, size))
    ensures StepAlloc(s, pid, rgid, size).0.mem.Ok()
  {
    if 0 <= rgid < SYMBOLS && Grows(s.areas[pid], size) {
      GrowthUnmapped(s, pid, size);
      MapRamOk(s.mem, User(pid), s.areas[pid].vmEnd / 4096, PageCount(size));
    }
  }

  lemma AllocSpaces(s: System, pid: nat, rgid: int, size: nat)
    requires Inv(s) && Legal(s, Alloc(pid, rgid, size))
    ensures SpacesOk(StepAlloc(s, pid, rgid, size).0)
  {
    if 0 <= rgid < SYMBOLS {
      Regions.AllocOk(s.areas[pid], rgid, size);
      if Grows(s.areas[pid], size) {
        GrowthUnmapped(s, pid, size);
        MapRamMaps(s.mem, User(pid), s.areas[pid].vmEnd / 4096, PageCount(size));
      }
    }
  }

  /** The pages of a grown area lie below its new end. */
  lemma GrownBelow(pt: map<Page, Pte>, pt': map<Page, Pte>, areas: map<nat, Area>, pid: nat, first: nat, n: nat,
                   a': Area)
    requires BelowEnd(pt, areas) && pid in areas && areas[pid].vmEnd <= a'.vmEnd && (first + n) * 4096 <= a'.vmEnd
    requires forall b :: b in pt' ==> b in pt || InRange(b, User(pid), first, n)
    ensures BelowEnd(pt', areas[pid := a'])
  {
  }

  lemma MapRamNew(m: Sys, sp: Space, first: nat, n: nat)
    requires sp in m.fifo && forall a :: a in m.pt ==> !InRange(a, sp, first, n)
    ensures forall b :: b in MapRam(m, sp, first, n).pt ==> b in m.pt || InRange(b, sp, first, n)
  {
    MapRamMaps(m, sp, first, n);
  }

  lemma AllocBelow(s: System, pid: nat, rgid: int, size: nat)
    requires Inv(s) && Legal(s, Alloc(pid, rgid, size))
    ensures BelowEnd(StepAlloc(s, pid, rgid, size).0.mem.pt, StepAlloc(s, pid, rgid, size).0.areas)
  {
    if 0 <= rgid < SYMBOLS {
      var a := s.areas[pid];
      var a' := Regions.Alloc(a, rgid, size);
      Regions.AllocOk(a, rgid, size);
      if Grows(a, size) {
        var first, n := a.vmEnd / 4096, PageCount(size);
        GrowthUnmapped(s, pid, size);
        MapRamNew(s.mem, User(pid), first, n);
        GrownBelow(s.mem.pt, MapRam(s.mem, User(pid), first, n).pt, s.areas, pid, first, n, a');
      }
    }
  }

  lemma AllocInv(s: System, pid: nat, rgid: int, size: nat)
    requires Inv(s) && Legal(s, Alloc(pid, rgid, size))
    ensures Inv(StepAlloc(s, pid, rgid, size).0)
  {
    AllocMem(s, pid, rgid, size);
    AllocSpaces(s, pid, rgid, size);
    AllocBelow(s, pid, rgid, size);
  }

  lemma AllocAgrees(s: System, pid: nat, rgid: int, size: nat, flat: Flat)
    requires Inv(s) && Legal(s, Alloc(pid, rgid, size)) && Agrees(s.mem, flat)
    ensures Agrees(StepAlloc(s, pid, rgid, size).0.mem, flat)
  {
    if 0 <= rgid < SYMBOLS && Grows(s.areas[pid], size) {
      GrowthUnmapped(s, pid, size);
      MapRamAgrees(s.mem, User(pid), s.areas[pid].vmEnd / 4096, PageCount(size), flat);
    }
  }

  lemma MapRamAgrees(m: Sys, sp: Space, first: nat, n: nat, flat: Flat)
    requires sp in m.fifo && Agrees(m, flat) && forall a :: a in m.pt ==> !InRange(a, sp, first, n)
    ensures Agrees(MapRam(m, sp, first, n), flat)
  {
    MapRamMaps(m, sp, first, n);
    AgreesKept(m, MapRam(m, sp, first, n), flat);
  }

  lemma KmallocSpaces(s: System, first: nat, n: nat)
    requires SpacesOk(s)
    ensures SpacesOk(s.(mem := MapKernel(s.mem, first, n).0))
  {
    MapKernelMaps(s.mem, first, n);
  }

  lemma KmallocBelow(m: Sys, areas: map<nat, Area>, first: nat, n: nat)
    requires BelowEnd(m.pt, areas)
    ensures BelowEnd(MapKernel(m, first, n).0.pt, areas)
  {
    MapKernelKeeps(m, first, n);
  }

  lemma MapKernelInv(s: System, first: nat, n: nat)
    requires Inv(s) && first + n <= MAX_PGN
    ensures Inv(s.(mem := MapKernel(s.mem, first, n).0))
  {
    MapKernelOk(s.mem, first, n);
    KmallocSpaces(s, first, n);
    KmallocBelow(s.mem, s.areas, first, n);
  }

  lemma KmallocInv(s: System, rgid: nat, size: nat)
    requires Inv(s) && Legal(s, Kmalloc(rgid, size))
    ensures Inv(StepKmalloc(s, rgid, size).0)
  {
    MapKernelInv(s, rgid * 1000, PageCount(size));
  }

  lemma KmallocAgrees(s: System, rgid: nat, size: nat, flat: Flat)
    requires Agrees(s.mem, flat)
    ensures Agrees(StepKmalloc(s, rgid, size).0.mem, Forget(flat, Kmalloc(rgid, size)))
  {
    MapKernelKeeps(s.mem, rgid * 1000, PageCount(size));
  }

  lemma FreeInv(s: System, pid: nat, rgid: int)
    requires Inv(s) && pid in s.areas
    ensures Inv(StepFree(s, pid, rgid).0)
  {
    if 0 <= rgid < SYMBOLS { ReleaseOk(s.areas[pid], rgid); }
  }

  lemma PoolsInv(s: System, pools: Option<seq<Pool>>)
    requires Inv(s)
    ensures Inv(s.(pools := pools))
  {
  }

  lemma PoolCreateInv(s: System, size: nat, align: nat, id: nat)
    requires Inv(s) && size < TWO32
    ensures Inv(StepPoolCreate(s, size, align, id).0)
  {
    PoolsInv(s, Some(PoolTable(s)));
    if id < POOLS {
      KmallocInv(s, id, size);
      PoolsInv(StepKmalloc(s, id, size).0, StepPoolCreate(s, size, align, id).0.pools);
    }
  }

  lemma CacheAllocInv(s: System, rgid: int, id: int)
    requires Inv(s) && s.pools.Some?
    ensures Inv(StepCacheAlloc(s, rgid, id).0)
  {
  }

  /** Every step keeps the invariant. */
  lemma StepInv(s: System, op: Op)
    requires Inv(s) && Legal(s, op)
    ensures Inv(Step(s, op).0)
  {
    match op
    case Alloc(pid, rgid, size) => AllocInv(s, pid, rgid, size);
    case Free(pid, rgid) => FreeInv(s, pid, rgid);
    case Read(pid, rgid, off) => AccessInv(s, pid, rgid, off, None);
    case Write(pid, rgid, off, b) => AccessInv(s, pid, rgid, off, Some(b));
    case Kmalloc(rgid, size) => KmallocInv(s, rgid, size);
    case PoolCreate(size, align, id) => PoolCreateInv(s, size, align, id);
    case CacheAlloc(rgid, id) => CacheAllocInv(s, rgid, id);
    case KRead(rgid, off) => KAccessInv(s, rgid, off, None);
    case KWrite(rgid, off, b) => KAccessInv(s, rgid, off, Some(b));
  }

  /** The step of the machine is one step of the flat memory, and what it reads is what the
      flat memory holds.  (Comparing with true keeps it from being unfolded at each use.) */
  ghost predicate Refines(s: System, op: Op, flat: Flat) {
    var (s', r) := Step(s, op);
    (&& Agrees(s'.mem, FlatStep(flat, s, op, r))
     && (r.Value? ==> Target(s, op).Some?)
     && (r.Value? && Target(s, op).value in flat ==> r.b == flat[Target(s, op).value])) == true
  }

  /** A read that answers from the flat map. */
  lemma ReadAnswer(s: System, op: Op, flat: Flat, s': System, r: Outcome)
    requires (op.Read? || op.KRead?) && s' == Step(s, op).0 && r == Step(s, op).1
    requires AccessResult(flat, Target(s, op), None, s', r)
    ensures Refines(s, op, flat)
  {
    AgreesForget(s'.mem, flat, op);
  }

  lemma ReadRefines(s: System, pid: nat, rgid: int, off: nat, flat: Flat)
    requires Inv(s) && pid in s.areas && Agrees(s.mem, flat)
    ensures Refines(s, Read(pid, rgid, off), flat)
  {
    var (s', r) := StepAccess(s, pid, rgid, off, None);
    AccessAgrees(s, pid, rgid, off, None, flat);
    ReadAnswer(s, Read(pid, rgid, off), flat, s', r);
  }

  lemma WriteRefines(s: System, pid: nat, rgid: int, off: nat, b: Byte, flat: Flat)
    requires Inv(s) && pid in s.areas && Agrees(s.mem, flat)
    ensures Refines(s, Write(pid, rgid, off, b), flat)
  {
    AccessAgrees(s, pid, rgid, off, Some(b), flat);
  }

  lemma KReadRefines(s: System, rgid: int, off: nat, flat: Flat)
    requires Inv(s) && Agrees(s.mem, flat)
    ensures Refines(s, KRead(rgid, off), flat)
  {
    var (s', r) := StepKAccess(s, rgid, off, None);
    KAccessAgrees(s, rgid, off, None, flat);
    ReadAnswer(s, KRead(rgid, off), flat, s', r);
  }

  lemma KWriteRefines(s: System, rgid: int, off: nat, b: Byte, flat: Flat)
    requires Inv(s) && Agrees(s.mem, flat)
    ensures Refines(s, KWrite(rgid, off, b), flat)
  {
    KAccessAgrees(s, rgid, off, Some(b), flat);
  }

  lemma AllocRefines(s: System, pid: nat, rgid: int, size: nat, flat: Flat)
    requires Inv(s) && Legal(s, Alloc(pid, rgid, size)) && Agrees(s.mem, flat)
    ensures Refines(s, Alloc(pid, rgid, size), flat)
  {
    AllocAgrees(s, pid, rgid, size, flat);
    AgreesForget(StepAlloc(s, pid, rgid, size).0.mem, flat, Alloc(pid, rgid, size));
  }

  lemma OtherRefines(s: System, op: Op, flat: Flat)
    requires Agrees(s.mem, flat) && (op.Free? || op.CacheAlloc? || op.Kmalloc? || op.PoolCreate?)
    ensures Refines(s, op, flat)
  {
    match op
    case Kmalloc(rgid, size) => KmallocAgrees(s, rgid, size, flat);
    case PoolCreate(size, align, id) => PoolCreateAgrees(s, size, align, id, flat);
    case _ => AgreesForget(s.mem, flat, op);
  }

  /** Every step of every process refines the flat memory. */
  lemma StepRefines(s: System, op: Op, flat: Flat)
    requires Inv(s) && Legal(s, op) && Agrees(s.mem, flat)
    ensures Refines(s, op, flat)
  {
    match op
    case Alloc(pid, rgid, size) => AllocRefines(s, pid, rgid, size, flat);
    case Read(pid, rgid, off) => ReadRefines(s, pid, rgid, off, flat);
    case Write(pid, rgid, off, b) => WriteRefines(s, pid, rgid, off, b, flat);
    case KRead(rgid, off) => KReadRefines(s, rgid, off, flat);
    case KWrite(rgid, off, b) => KWriteRefines(s, rgid, off, b, flat);
    case _ => OtherRefines(s, op, flat);
  }

  lemma PoolCreateAgrees(s: System, size: nat, align: nat, id: nat, flat: Flat)
    requires Agrees(s.mem, flat)
    ensures Agrees(StepPoolCreate(s, size, align, id).0.mem, Forget(flat, PoolCreate(size, align, id)))
  {
    KmallocAgrees(s, id, size, flat);
    AgreesForget(s.mem, flat, PoolCreate(size, align, id));
    assert Forget(flat, PoolCreate(size, align, id)) == Forget(flat, Kmalloc(id, size));
  }
}
