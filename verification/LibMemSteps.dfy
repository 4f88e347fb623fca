/**
  Value-level pieces of the memory routines: the functions that single loops and halves of
  routines compute, what the routines need of the numbers they meet and why the invariant
  supplies it, and the fact that a step of one space leaves all others alone.
 */
module LibMemSteps {
  import opened Collections
  import opened CNumbers
  import opened Word64
  import opened Devices
  import opened PageTables
  import opened Paging
  import opened Regions
  import opened MemorySystem
  import MemoryRuns
  import UserCopy

  // Predicates compared with true are kept from being unfolded at each use.

  /** The way pg_getpage comes by a frame: a free one, or that of an evicted page. */
  function Acquire(m: Sys, sp: Space): (Sys, Option<nat>) {
    if m.ram.free != [] then (m.(ram := m.ram.Take()), Some(m.ram.free[0])) else AcquireByEviction(m, sp)
  }

  function AcquireByEviction(m: Sys, sp: Space): (Sys, Option<nat>) {
    if m.List(sp).list == [] then (m, None)
    else if m.swp.free == [] then (m.PopVictim(sp, true), None)
    else (Evict(m, sp), Some(m.FrameNo(Page(sp, m.List(sp).Victim()))))
  }

  /** pg_getpage on a page that is not present: come by a frame, then install. */
  lemma GetPageInHalves(m: Sys, a: Page)
    requires !m.PteOf(a).Present?
    ensures var (m', t) := Acquire(m, a.sp);
            m.GetPage(a) == if t.None? then (m', None) else (m'.Install(a, t.value), t)
  {
  }

  /** The numbers met on the way to a frame fit their fields. */
  ghost predicate CanEvict(m: Sys, v: Page) {
    (&& v.pgn < MAX_PGN && m.PteOf(v).Present? && m.PteOf(v).fpn < |m.ram.pages|
     && (m.swp.free != [] ==> m.swp.free[0] < |m.swp.pages| <= MAX_SWAP_FRAMES)) == true
  }

  ghost predicate CanAcquire(m: Sys, sp: Space) {
    m.List(sp).list != [] ==> CanEvict(m, Page(sp, m.List(sp).Victim()))
  }

  ghost predicate CanInstallPage(m: Sys, a: Page, t: nat) {
    (&& t < MAX_FRAMES && t < |m.ram.pages|
     && !m.PteOf(a).Present? && (m.PteOf(a).Swapped? ==> m.PteOf(a).off < |m.swp.pages|)) == true
  }

  /** All that pg_getpage needs to hold of the numbers it meets. */
  ghost predicate CanGetPage(m: Sys, a: Page) {
    (&& a.pgn < MAX_PGN && CanAcquire(m, a.sp)
     && (m.PteOf(a).Present? ==> m.PteOf(a).fpn < |m.ram.pages|)
     && (!m.PteOf(a).Present? && Acquire(m, a.sp).1.Some? ==>
           var (m', t) := Acquire(m, a.sp); CanInstallPage(m', a, t.value) && m'.PteOf(a) == m.PteOf(a))) == true
  }

  lemma GetPageFits(m: Sys, a: Page)
    requires m.Ok() && a.sp in m.fifo && a.sp != Kernel && a.pgn < MAX_PGN
    ensures CanGetPage(m, a)
  {
    AcquireFits(m, a.sp);
    if !m.PteOf(a).Present? { InstallFits(m, a); }
  }

  /** Taking a victim out touches nothing but the list of its space. */
  lemma PopFields(s: System, sp: Space)
    requires sp in s.mem.fifo && s.mem.fifo[sp].list != []
    ensures var m, q := s.mem.PopVictim(sp, false), s.mem.fifo[sp];
            && m.pt == s.mem.pt && m.ram == s.mem.ram && m.swp == s.mem.swp
            && sp in m.fifo && m.fifo[sp].list == q.list[..|q.list| - 1]
  {
  }

  /** Copying the successor over a node and dropping the successor drops the node. */
  lemma CloneDrops<T>(s: seq<T>, i: nat)
    requires i + 1 < |s|
    ensures var c := s[i := s[i + 1]]; c[..i + 1] + c[i + 2..] == s[..i] + s[i + 1..]
  {
    var c := s[i := s[i + 1]];
    assert c[..i + 1] == s[..i] + [s[i + 1]] && c[i + 2..] == s[i + 2..];
    assert s[i + 1..] == [s[i + 1]] + s[i + 2..];
  }

  /** The eviction half of Acquire, from the state after the victim left the list. */
  lemma EvictionParts(m: Sys, sp: Space)
    requires CanAcquire(m, sp)
    ensures m.List(sp).list == [] ==> AcquireByEviction(m, sp).0 == m && AcquireByEviction(m, sp).1 == None
    ensures m.List(sp).list != [] ==>
              var p, v := m.PopVictim(sp, false), Page(sp, m.List(sp).Victim());
              && CanEvict(p, v) && p.swp == m.swp
              && (m.swp.free == [] ==> AcquireByEviction(m, sp).0 == m.PopVictim(sp, true))
              && (m.swp.free == [] ==> AcquireByEviction(m, sp).1 == None)
              && (m.swp.free != [] ==> AcquireByEviction(m, sp).0 == p.SwapOut(v, p.FrameNo(v)))
              && (m.swp.free != [] ==> AcquireByEviction(m, sp).1 == Some(p.FrameNo(v)))
  {
  }

  lemma AcquireFits(m: Sys, sp: Space)
    requires m.Ok() && sp in m.fifo
    ensures CanAcquire(m, sp)
  {
    if m.fifo[sp].list != [] {
      VictimPresent(m, sp);
      if m.swp.free != [] { m.swp.TakeOk(); }
    }
  }

  lemma InstallFits(m: Sys, a: Page)
    requires m.Ok() && a.sp in m.fifo && a.sp != Kernel && !m.PteOf(a).Present?
    ensures var (m', t) := Acquire(m, a.sp);
            t.Some? ==> CanInstallPage(m', a, t.value) && m'.PteOf(a) == m.PteOf(a)
  {
    PresentOk(m, a);
    if m.ram.free != [] {
      m.ram.TakeOk();
    } else if m.fifo[a.sp].list != [] {
      VictimPresent(m, a.sp);
      if m.swp.free != [] { EvictedFits(m, a, Evict(m, a.sp)); }
    }
  }

  /** Frames in use lie on their devices. */
  lemma PresentOk(m: Sys, a: Page)
    requires m.Ok()
    ensures |m.ram.pages| <= MAX_FRAMES && (m.PteOf(a).Swapped? ==> m.PteOf(a).off < |m.swp.pages|)
    ensures forall f :: f in m.ram.used ==> f < |m.ram.pages|
  {
  }

  lemma EvictedFits(m: Sys, a: Page, m': Sys)
    requires m.Ok() && a.sp in m.fifo && m.fifo[a.sp].list != [] && m.swp.free != [] && !m.PteOf(a).Present?
    requires m' == Evict(m, a.sp)
    ensures m'.PteOf(a) == m.PteOf(a) && |m'.ram.pages| == |m.ram.pages| && |m'.swp.pages| == |m.swp.pages|
  {
    VictimPresent(m, a.sp);
  }

  lemma SmallFrame(f: nat)
    requires f < MAX_FRAMES
    ensures f % 0x2000 == f < TWO64
  {
  }

  lemma SmallOffset(o: nat)
    requires o < MAX_SWAP_FRAMES
    ensures o % 0x20_0000 == o < TWO64
  {
  }

  function PteIn(pt: map<Page, Pte>, a: Page): Pte { if a in pt then pt[a] else Absent }

  /** A table's map has the entries the flat map has for its space. */
  ghost predicate Matches(pte: map<nat, Pte>, pt: map<Page, Pte>, sp: Space) {
    (forall p: nat :: At(pte, p) == PteIn(pt, Page(sp, p))) == true
  }

  lemma MatchesUpdate(pte: map<nat, Pte>, pt: map<Page, Pte>, sp: Space, pgn: nat, e: Pte)
    requires Matches(pte, pt, sp)
    ensures Matches(pte[pgn := e], pt[Page(sp, pgn) := e], sp)
  {
  }

  lemma AddressParts(fpn: nat, off: nat)
    requires off < 4096
    ensures (fpn * 4096 + off) / 4096 == fpn && (fpn * 4096 + off) % 4096 == off
  {
  }

  /** An access that passes its checks can go on. */
  ghost predicate CanAccess(s: System, pid: nat, rgid: int, off: nat) {
    var v := Resolve(AreaOf(s, pid).sym, rgid, off);
    v.Some? ==> CanGetPage(s.mem, LocOf(User(pid), v.value).page)
  }

  /** What pg_getpage does: the step of the page fault, with a frame of the device. */
  ghost predicate PageGot(s: System, a: Page, s': System, fpn: Option<nat>) {
    (&& s' == s.(mem := s.mem.GetPage(a).0) && fpn == s.mem.GetPage(a).1
     && (fpn.Some? ==> fpn.value < |s'.mem.ram.pages|)) == true
  }

  lemma GotPresent(s: System, a: Page)
    requires CanGetPage(s.mem, a) && s.mem.PteOf(a).Present?
    ensures PageGot(s, a, s, Some(s.mem.PteOf(a).fpn))
  {
  }

  lemma GotInHalves(s: System, a: Page, half: System, t: Option<nat>, s': System)
    requires CanGetPage(s.mem, a) && !s.mem.PteOf(a).Present?
    requires half == s.(mem := Acquire(s.mem, a.sp).0) && t == Acquire(s.mem, a.sp).1
    requires s' == if t.None? then half else half.(mem := half.mem.Install(a, t.value))
    ensures PageGot(s, a, s', t)
  {
    GetPageInHalves(s.mem, a);
  }

  /** What the front of a user access finds: s' is s with the page brought in, fpn its frame
      and rest the offset in it. */
  ghost predicate FrameFound(s: System, pid: nat, rgid: int, off: nat, s': System, fpn: Option<nat>, rest: nat) {
    var v := Resolve(AreaOf(s, pid).sym, rgid, off);
    (&& rest < 4096 && (fpn.Some? ==> fpn.value < |s'.mem.ram.pages|)
     && if v.None? then fpn == None && s' == s
        else
          var l := LocOf(User(pid), v.value);
          rest == l.off && s' == s.(mem := s.mem.GetPage(l.page).0) && fpn == s.mem.GetPage(l.page).1) == true
  }

  lemma FrameFits(s: System, pid: nat, rgid: int, off: nat, s': System, fpn: Option<nat>, rest: nat)
    requires FrameFound(s, pid, rgid, off, s', fpn, rest)
    ensures rest < 4096 && (fpn.Some? ==> fpn.value < |s'.mem.ram.pages|)
  {
  }

  /** The answer of a read that found this frame. */
  ghost predicate FoundValue(s: System, fpn: Option<nat>, rest: nat, r: Outcome)
    requires rest < 4096
  {
    (r == if fpn.None? then Failed else Value(s.mem.ram.Frame(fpn.value)[rest])) == true
  }

  lemma FrameRead(s: System, pid: nat, rgid: int, off: nat, s': System, fpn: Option<nat>, rest: nat, r: Outcome)
    requires FrameFound(s, pid, rgid, off, s', fpn, rest) && rest < 4096
    requires FoundValue(s', fpn, rest, r)
    ensures Took(s, Read(pid, rgid, off), s', r)
  {
  }

  lemma FrameWritten(s: System, pid: nat, rgid: int, off: nat, s1: System, fpn: Option<nat>, rest: nat, b: Byte,
                     s': System)
    requires FrameFound(s, pid, rgid, off, s1, fpn, rest) && rest < 4096
    requires s' == if fpn.None? then s1 else s1.(mem := s1.mem.WriteByte(fpn.value, rest, b))
    ensures Took(s, Write(pid, rgid, off, b), s', if fpn.None? then Failed else Done)
  {
  }

  /** What the front of a kernel access finds. */
  ghost predicate KFrameFound(s: System, rgid: int, off: nat, fpn: Option<nat>, rest: nat) {
    var v := Resolve(s.ksym, rgid, off);
    (&& rest < 4096 && (fpn.Some? ==> fpn.value < |s.mem.ram.pages|)
     && if v.None? then fpn == None
        else
          var l := LocOf(Kernel, v.value);
          rest == l.off && fpn == FrameIfPresent(s.mem, l.page)) == true
  }

  lemma KFrameFits(s: System, rgid: int, off: nat, fpn: Option<nat>, rest: nat)
    requires KFrameFound(s, rgid, off, fpn, rest)
    ensures rest < 4096 && (fpn.Some? ==> fpn.value < |s.mem.ram.pages|)
  {
  }

  lemma KFrameRead(s: System, rgid: int, off: nat, fpn: Option<nat>, rest: nat, r: Outcome)
    requires KFrameFound(s, rgid, off, fpn, rest) && rest < 4096
    requires FoundValue(s, fpn, rest, r)
    ensures Took(s, KRead(rgid, off), s, r)
  {
  }

  lemma KFrameWritten(s: System, rgid: int, off: nat, fpn: Option<nat>, rest: nat, b: Byte, s': System)
    requires KFrameFound(s, rgid, off, fpn, rest) && rest < 4096
    requires s' == if fpn.None? then s else s.(mem := s.mem.WriteByte(fpn.value, rest, b))
    ensures Took(s, KWrite(rgid, off, b), s', if fpn.None? then Failed else Done)
  {
  }

  /** A call took the step of op from s to s' with answer r. */
  ghost predicate Took(s: System, op: Op, s': System, r: Outcome) {
    (s' == Step(s, op).0 && r == Step(s, op).1) == true
  }

  lemma AccessFits(s: System, pid: nat, rgid: int, off: nat)
    requires Inv(s) && pid in s.areas
    ensures CanAccess(s, pid, rgid, off)
  {
    var v := Resolve(s.areas[pid].sym, rgid, off);
    if v.Some? {
      UserPage(s, pid, rgid, off);
      GetPageFits(s.mem, LocOf(User(pid), v.value).page);
    }
  }

  function FrameIfPresent(m: Sys, a: Page): Option<nat> { if m.PteOf(a).Present? then Some(m.PteOf(a).fpn) else None }

  ghost predicate CanReach(m: Sys, a: Page) {
    (a.pgn < MAX_PGN && (m.PteOf(a).Present? ==> m.PteOf(a).fpn < |m.ram.pages|)) == true
  }

  ghost predicate CanKAccess(s: System, rgid: int, off: nat) {
    var v := Resolve(s.ksym, rgid, off);
    v.Some? ==> CanReach(s.mem, LocOf(Kernel, v.value).page)
  }

  // ---- Frame allocation, one frame at a time ---------------------------------------------

  lemma AllocStep(d: Device, i: nat)
    requires i <= |d.free|
    ensures AllocFrames(d, 0).0 == d
    ensures var d' := AllocFrames(d, i).0;
            if i == |d.free| then d'.free == []
            else d'.free != [] && d'.free[0] == d.free[i] && d'.Take() == AllocFrames(d, i + 1).0
  {
    assert d.free[..0] == [] && d.free[0..] == d.free;
    assert Reversed<nat>([]) + d.used == d.used;
    if i < |d.free| {
      AllocNext(d.free, d.used, i);
    }
  }

  lemma AllocNext(free: seq<nat>, used: seq<nat>, i: nat)
    requires i < |free|
    ensures free[i..] != [] && free[i..][0] == free[i] && free[i..][1..] == free[i + 1..]
    ensures [free[i]] + (Reversed(free[..i]) + used) == Reversed(free[..i + 1]) + used
  {
    ReversedPop(free[..i + 1]);
    assert free[..i + 1][..i] == free[..i];
  }

  /** The device after the first i of all its frames were taken back. */
  function RolledBack(d: Device, i: nat): Device
    requires i <= |d.free|
  {
    Device(Reversed(d.free[..i]), Reversed(d.free[i..]) + d.used, d.pages)
  }

  lemma RollbackStep(d: Device, i: nat)
    requires d.Ok() && i <= |d.free|
    ensures RolledBack(d, 0) == AllocFrames(d, |d.free|).0
    ensures RolledBack(d, |d.free|) == d.(free := Reversed(d.free))
    ensures i < |d.free| ==> RolledBack(d, i).Give(d.free[i]) == RolledBack(d, i + 1)
  {
    var n := |d.free|;
    assert d.free[..0] == [] && d.free[0..] == d.free && d.free[..n] == d.free && d.free[n..] == [];
    assert Reversed<nat>([]) + d.used == d.used;
    if i < n { RollbackGive(d, i); }
  }

  lemma RollbackGive(d: Device, i: nat)
    requires d.Ok() && i < |d.free|
    ensures RolledBack(d, i).Give(d.free[i]) == RolledBack(d, i + 1)
  {
    var rest := d.free[i + 1..];
    assert d.free[i..][1..] == rest;
    var used := Reversed(rest) + [d.free[i]] + d.used;
    assert RolledBack(d, i).used == used;
    var k := |Reversed(rest)|;
    assert used[k] == d.free[i] && used[..k] == Reversed(rest);
    ReversedElements(rest, d.free[i]);
    WithoutAt(used, d.free[i], k);
    assert used[..k] + used[k + 1..] == Reversed(rest) + d.used;
    ReversedPop(d.free[..i + 1]);
    assert d.free[..i + 1][..i] == d.free[..i];
  }

  /** After i frames, mapping the rest leads to end. */
  ghost predicate MapLeadsTo(m: Sys, sp: Space, first: nat, frames: seq<nat>, i: nat, end: Sys) {
    (i <= |frames| && MapFrames(m, sp, first + i, frames[i..]) == end) == true
  }

  lemma MapLoopStart(m: Sys, sp: Space, first: nat, frames: seq<nat>)
    ensures MapLeadsTo(m, sp, first, frames, 0, MapFrames(m, sp, first, frames))
  {
    assert frames[0..] == frames;
  }

  lemma MapLoopStep(m: Sys, sp: Space, first: nat, frames: seq<nat>, i: nat, pgn: nat, f: nat, m': Sys, end: Sys)
    requires MapLeadsTo(m, sp, first, frames, i, end) && i < |frames| && pgn == first + i && f == frames[i]
    requires m' == MapPage(m, Page(sp, pgn), f)
    ensures MapLeadsTo(m', sp, first, frames, i + 1, end)
  {
    assert frames[i..][1..] == frames[i + 1..];
  }

  lemma MapLoopEnd(m: Sys, sp: Space, first: nat, frames: seq<nat>, end: Sys)
    requires MapLeadsTo(m, sp, first, frames, |frames|, end)
    ensures m == end
  {
  }

  // ---- Growing an area ----------------------------------------------------------------------

  /** What inc_vma_limit does. */
  function Incremented(s: System, pid: nat, inc: nat): System {
    var a := AreaOf(s, pid);
    if Grow(a, inc) == a then s
    else s.(areas := s.areas[pid := Grow(a, inc)],
            mem := MapRam(s.mem, User(pid), a.vmEnd / 4096, IntPages(Align64(inc))))
  }

  ghost predicate RamFits(m: Sys) { (m.ram.Ok() && |m.ram.pages| <= MAX_FRAMES) == true }

  lemma FreeFramesFit(m: Sys, n: nat)
    requires RamFits(m)
    ensures m.ram.Ok()
    ensures n <= |m.ram.free| ==> AllocFrames(m.ram, n).1 == Some(m.ram.free[..n])
    ensures forall i :: 0 <= i < n && i < |m.ram.free| ==> m.ram.free[i] < MAX_FRAMES
  {
    forall i | 0 <= i < n && i < |m.ram.free| ensures m.ram.free[i] < MAX_FRAMES {
      assert m.ram.free[i] in m.ram.free;
    }
  }

  ghost predicate CanExtend(s: System, pid: nat, inc: nat) {
    var a := AreaOf(s, pid);
    && inc < TWO64 && a.vmEnd < TWO64
    && (Grow(a, inc) != a ==> RamFits(s.mem) && a.vmEnd / 4096 + IntPages(Align64(inc)) <= MAX_PGN)
  }

  /** What __alloc needs of its numbers: 64 bits, and new pages that the tables reach. */
  ghost predicate CanAlloc(s: System, pid: nat, size: nat) {
    size < TWO64 && (Grows(AreaOf(s, pid), size) ==> CanExtend(s, pid, Align64(size)))
  }

  lemma AlignAgain(size: nat)
    requires size < TWO64
    ensures Align64(size) < TWO64 && Align64(Align64(size)) == Align64(size)
  {
    Align64Is(size);
    if AlignUp(size) < TWO64 {
      Align64Is(AlignUp(size));
      AlignTwice(size);
    } else {
      Align64Is(0);
    }
  }

  lemma GrowFits(s: System, pid: nat, rgid: int, size: nat)
    requires Inv(s) && Legal(s, MemorySystem.Alloc(pid, rgid, size))
    ensures CanAlloc(s, pid, size)
  {
    AlignAgain(size);
    if Grows(s.areas[pid], size) { GrowthPages(s.areas[pid], size); }
  }

  function Finished(s: System, pid: nat, rgid: nat, brk: nat, size: nat): System
    requires rgid < |AreaOf(s, pid).sym|
  {
    s.(areas := s.areas[pid := Placed(AreaOf(s, pid), rgid, brk, size)])
  }

  /** __alloc without a free region that fits is a growth, the new region entered at the
      old break, and the rest of the last page freed. */
  lemma AllocByGrowth(s: System, pid: nat, rgid: nat, size: nat)
    requires pid in s.areas && rgid < |s.areas[pid].sym| && size < TWO64 && Grows(s.areas[pid], size)
    ensures var g := Incremented(s, pid, Align64(size));
            && rgid < |AreaOf(g, pid).sym|
            && StepAlloc(s, pid, rgid, size).0 == Finished(g, pid, rgid, OldBreak(s.areas[pid]), size)
  {
    var a := s.areas[pid];
    AlignAgain(size);
    var a' := Regions.Alloc(a, rgid, size);
    assert Incremented(s, pid, Align64(size)).areas[pid := a'] == s.areas[pid := a'];
  }

  // ---- Kernel mappings -----------------------------------------------------------------------

  /** After i of n pages, the rest of the loop leads to end. */
  ghost predicate LeadsTo(m: Sys, first: nat, n: nat, i: nat, end: (Sys, bool)) {
    (i <= n && MapKernel(m, first + i, n - i) == end) == true
  }

  lemma LoopStart(m: Sys, first: nat, n: nat)
    ensures LeadsTo(m, first, n, 0, MapKernel(m, first, n))
  {
  }

  lemma LoopStep(m: Sys, first: nat, n: nat, i: nat, pgn: nat, m': Sys, end: (Sys, bool))
    requires LeadsTo(m, first, n, i, end) && i < n && pgn == first + i
    requires m.ram.free != [] && m' == MapKernelPage(m, pgn)
    ensures LeadsTo(m', first, n, i + 1, end)
  {
  }

  lemma LoopStuck(m: Sys, first: nat, n: nat, i: nat, end: (Sys, bool))
    requires LeadsTo(m, first, n, i, end) && i < n && m.ram.free == []
    ensures end.0 == m && !end.1
  {
  }

  lemma LoopEnd(m: Sys, first: nat, n: nat, end: (Sys, bool))
    requires LeadsTo(m, first, n, n, end)
    ensures end.0 == m && end.1
  {
  }

  ghost predicate CanKmalloc(s: System, rgid: nat, size: nat) {
    RamFits(s.mem) && rgid * 1000 + PageCount(size) <= MAX_PGN
  }

  lemma KmallocFits(s: System, rgid: nat, size: nat)
    requires Inv(s) && Legal(s, MemorySystem.Kmalloc(rgid, size))
    ensures CanKmalloc(s, rgid, size)
  {
  }

  // ---- One space's step leaves the others alone -------------------------------------------------

  /** Space sp is the same in s and s'. */
  ghost predicate SpaceSame(s: System, s': System, sp: Space) {
    (&& TablesSame(s.mem.pt, s'.mem.pt, sp)
     && (sp in s.mem.fifo ==> sp in s'.mem.fifo && s'.mem.fifo[sp] == s.mem.fifo[sp])
     && match sp
        case Kernel => s'.ksym == s.ksym && s'.pools == s.pools
        case User(pid) => pid in s.areas ==> pid in s'.areas && s'.areas[pid] == s.areas[pid]) == true
  }

  ghost predicate TablesSame(pt: map<Page, Pte>, pt': map<Page, Pte>, sp: Space) {
    forall p: nat :: PteIn(pt', Page(sp, p)) == PteIn(pt, Page(sp, p))
  }

  lemma {:induction false} MapFramesElsewhere(m: Sys, sp: Space, first: nat, frames: seq<nat>, sp': Space)
    requires sp' != sp
    ensures var m' := MapFrames(m, sp, first, frames);
            TablesSame(m.pt, m'.pt, sp') && (sp' in m.fifo ==> sp' in m'.fifo && m'.fifo[sp'] == m.fifo[sp'])
    decreases |frames|
  {
    if frames != [] {
      MapFramesElsewhere(MapPage(m, Page(sp, first), frames[0]), sp, first + 1, frames[1..], sp');
    }
  }

  lemma {:induction false} MapKernelElsewhere(m: Sys, pgn: nat, n: nat, pid: nat)
    ensures var m' := MapKernel(m, pgn, n).0;
            TablesSame(m.pt, m'.pt, User(pid)) && m'.fifo == m.fifo
    decreases n
  {
    if n > 0 && m.ram.free != [] {
      MapKernelElsewhere(MapKernelPage(m, pgn), pgn + 1, n - 1, pid);
    }
  }

  lemma GetPageElsewhere(m: Sys, a: Page, sp: Space)
    requires sp != a.sp
    ensures var m' := m.GetPage(a).0;
            TablesSame(m.pt, m'.pt, sp) && (sp in m.fifo ==> sp in m'.fifo && m'.fifo[sp] == m.fifo[sp])
  {
  }

  /** The space whose structures an operation works on. */
  function Owner(op: Op): Space {
    match op
    case Alloc(pid, _, _) => User(pid)
    case Free(pid, _) => User(pid)
    case Read(pid, _, _) => User(pid)
    case Write(pid, _, _, _) => User(pid)
    case _ => Kernel
  }

  /** No operation touches the page table, the FIFO list, the area or the symbol table of
      another space: eviction is local. */
  lemma StepElsewhere(s: System, op: Op, sp: Space)
    requires sp != Owner(op)
    ensures SpaceSame(s, Step(s, op).0, sp)
  {
    match op
    case Alloc(pid, rgid, size) =>
      var (ram', frames) := AllocFrames(s.mem.ram, NewPages(size));
      if frames.Some? {
        MapFramesElsewhere(s.mem.(ram := ram'), User(pid), AreaOf(s, pid).vmEnd / 4096, frames.value, sp);
      }
    case Free(_, _) =>
    case Read(pid, rgid, off) => AccessElsewhere(s, pid, rgid, off, None, sp);
    case Write(pid, rgid, off, b) => AccessElsewhere(s, pid, rgid, off, Some(b), sp);
    case Kmalloc(rgid, size) => MapKernelElsewhere(s.mem, rgid * 1000, PageCount(size), sp.pid);
    case PoolCreate(size, _, id) => MapKernelElsewhere(s.mem, id * 1000, PageCount(size), sp.pid);
    case CacheAlloc(_, _) =>
    case KRead(_, _) =>
    case KWrite(_, _, _) =>
  }

  lemma AccessElsewhere(s: System, pid: nat, rgid: int, off: nat, write: Option<Byte>, sp: Space)
    requires sp != User(pid)
    ensures SpaceSame(s, StepAccess(s, pid, rgid, off, write).0, sp)
  {
    var v := Resolve(AreaOf(s, pid).sym, rgid, off);
    if v.Some? { GetPageElsewhere(s.mem, LocOf(User(pid), v.value).page, sp); }
  }

  // ---- Copying ---------------------------------------------------------------------------------

  ghost predicate Good(s: System) { (Inv(s) && MemoryRuns.PoolsOk(s)) == true }

  /** All that the routines need of their numbers. */
  lemma OpFits(s: System, op: Op)
    requires Good(s) && Legal(s, op)
    ensures op.Alloc? ==> CanAlloc(s, op.pid, op.size)
    ensures op.Read? || op.Write? ==> CanAccess(s, op.pid, op.rgid, op.off)
    ensures op.Kmalloc? ==> CanKmalloc(s, op.kid, op.size)
    ensures op.PoolCreate? && op.id < POOLS ==> CanKmalloc(s, op.id, op.size)
    ensures op.KRead? || op.KWrite? ==> CanKAccess(s, op.rgid, op.off)
  {
    match op
    case Alloc(pid, rgid, size) => GrowFits(s, pid, rgid, size);
    case Read(pid, rgid, off) => AccessFits(s, pid, rgid, off);
    case Write(pid, rgid, off, _) => AccessFits(s, pid, rgid, off);
    case Kmalloc(rgid, size) => KmallocFits(s, rgid, size);
    case PoolCreate(size, _, id) => if id < POOLS { KmallocFits(s, id, size); }
    case KRead(rgid, off) => KAccessFits(s, rgid, off);
    case KWrite(rgid, off, _) => KAccessFits(s, rgid, off);
    case _ =>
  }

  /** Steps seen as calls; an allocation fails exactly if it gives no address. */
  lemma AllocTook(s: System, pid: nat, rgid: int, size: nat, s': System, given: bool)
    requires s' == StepAlloc(s, pid, rgid, size).0 && (given <==> StepAlloc(s, pid, rgid, size).1 == Done)
    ensures Took(s, MemorySystem.Alloc(pid, rgid, size), s', if given then Done else Failed)
  {
  }

  lemma FreeTook(s: System, pid: nat, rgid: int, s': System, r: Outcome)
    requires s' == StepFree(s, pid, rgid).0 && r == StepFree(s, pid, rgid).1
    ensures Took(s, MemorySystem.Free(pid, rgid), s', r)
  {
  }

  lemma KmallocTook(s: System, rgid: nat, size: nat, s': System, given: bool)
    requires s' == StepKmalloc(s, rgid, size).0 && (given <==> StepKmalloc(s, rgid, size).1 == Done)
    ensures Took(s, MemorySystem.Kmalloc(rgid, size), s', if given then Done else Failed)
  {
  }

  lemma PoolCreateTook(s: System, size: nat, align: nat, id: nat, s': System, r: Outcome)
    requires s' == StepPoolCreate(s, size, align, id).0 && r == StepPoolCreate(s, size, align, id).1
    ensures Took(s, MemorySystem.PoolCreate(size, align, id), s', r)
  {
  }

  lemma CacheAllocTook(s: System, rgid: int, id: int, s': System, r: Outcome)
    requires s' == StepCacheAlloc(s, rgid, id).0 && r == StepCacheAlloc(s, rgid, id).1
    ensures Took(s, MemorySystem.CacheAlloc(rgid, id), s', r)
  {
  }

  /** The two halves of a round of the copy loop. */
  lemma RoundStops(s: System, pid: nat, src: int, dst: int, x: nat, k: Outcome)
    requires Took(s, KRead(src, x), s, k) && !k.Value?
    ensures UserCopy.Round(s, pid, src, dst, x).0 == s && !UserCopy.Round(s, pid, src, dst, x).1
  {
  }

  lemma RoundGoesOn(s: System, pid: nat, src: int, dst: int, x: nat, k: Outcome, s': System, r: Outcome)
    requires Took(s, KRead(src, x), s, k) && k.Value? && Took(s, Write(pid, dst, x, k.b), s', r)
    ensures UserCopy.Round(s, pid, src, dst, x).0 == s' && (UserCopy.Round(s, pid, src, dst, x).1 <==> r == Done)
    ensures s' == StepAccess(s, pid, dst, x, Some(k.b)).0
  {
  }

  lemma OwnerThere(s: System, op: Op)
    requires Legal(s, op)
    ensures Owner(op) == Kernel || Owner(op).pid in s.areas
  {
  }

  lemma StepGood(s: System, op: Op, s': System, r: Outcome)
    requires Good(s) && Legal(s, op) && Took(s, op, s', r)
    ensures Good(s') && s'.areas.Keys == s.areas.Keys
  {
    StepInv(s, op);
    MemoryRuns.StepKeepsPools(s, op);
    SameProcesses(s, op);
  }

  lemma SameProcesses(s: System, op: Op)
    requires Legal(s, op)
    ensures Step(s, op).0.areas.Keys == s.areas.Keys
  {
  }

  lemma KAccessFits(s: System, rgid: int, off: nat)
    requires Good(s)
    ensures CanKAccess(s, rgid, off)
  {
    var v := Resolve(s.ksym, rgid, off);
    if v.Some? {
      var a := LocOf(Kernel, v.value).page;
      assert MemoryRuns.Resident(s.mem.pt, s.ksym[rgid].start, s.ksym[rgid].end);
      assert InRam(s.mem.pt, a);
      PresentFits(s.mem, a);
    }
  }

  lemma RoundFits(s: System, pid: nat, src: int, dst: int, x: nat)
    requires Good(s) && pid in s.areas
    ensures CanKAccess(s, src, x) && CanAccess(s, pid, dst, x)
  {
    KAccessFits(s, src, x);
    AccessFits(s, pid, dst, x);
  }

  lemma RoundGood(s: System, pid: nat, src: int, dst: int, x: nat, s': System, ok: bool)
    requires Good(s) && pid in s.areas && x < TWO32 && (s', ok) == UserCopy.Round(s, pid, src, dst, x)
    ensures Good(s') && UserCopy.RoundDid(s.mem, s'.mem, ok, pid, UserCopy.SpansOf(s, pid, src, dst), x)
  {
    UserCopy.RoundInv(s, pid, src, dst, x);
    UserCopy.RoundOk(s, pid, src, dst, x);
    RoundPools(s, pid, src, dst, x);
  }

  lemma KernelReads(s: System, src: int, x: nat)
    requires Good(s) && x < Length(s.ksym, src)
    ensures StepKAccess(s, src, x, None).1.Value?
  {
    MemoryRuns.ResidentAccess(s, src, x, None);
    ResolveIff(s.ksym, src, x);
    ReadAnswers(s, src, x);
  }

  lemma ReadAnswers(s: System, src: int, x: nat)
    ensures !StepKAccess(s, src, x, None).1.Done?
  {
  }

  lemma WriteStops(s: System, pid: nat, dst: int, x: nat, b: Byte, v: nat)
    requires Good(s) && pid in s.areas && Resolve(s.areas[pid].sym, dst, x) == Some(v)
    requires StepAccess(s, pid, dst, x, Some(b)).1 != Done
    ensures OutOfMemory(StepAccess(s, pid, dst, x, Some(b)).0.mem, LocOf(User(pid), v).page)
  {
    MemoryRuns.AccessFailsIff(s, pid, dst, x, Some(b));
    StillOut(s.mem, LocOf(User(pid), v).page);
  }

  /** A round that may read and write fails only where its page cannot be brought in. */
  lemma RoundOut(s: System, pid: nat, src: int, dst: int, x: nat, s': System, v: nat)
    requires Good(s) && pid in s.areas && x < Length(s.ksym, src) && Resolve(s.areas[pid].sym, dst, x) == Some(v)
    requires s' == UserCopy.Round(s, pid, src, dst, x).0 && !UserCopy.Round(s, pid, src, dst, x).1
    ensures OutOfMemory(s'.mem, LocOf(User(pid), v).page)
  {
    KernelReads(s, src, x);
    UserCopy.RoundCases(s, pid, src, dst, x);
    WriteStops(s, pid, dst, x, StepKAccess(s, src, x, None).1.b, v);
  }

  /** A round fails only where its byte lies outside a region or its page cannot be brought in,
      and neither has changed when it returns. */
  lemma RoundStopped(s: System, pid: nat, src: int, dst: int, x: nat, s': System)
    requires Good(s) && pid in s.areas
    requires s' == UserCopy.Round(s, pid, src, dst, x).0 && !UserCopy.Round(s, pid, src, dst, x).1
    ensures UserCopy.Stopped(s'.mem, pid, UserCopy.SpansOf(s, pid, src, dst), x)
  {
    var w := UserCopy.SpansOf(s, pid, src, dst);
    if x < w.fromLen && x < w.toLen {
      var v := ResolvesTo(s.areas[pid].sym, dst, x);
      RoundOut(s, pid, src, dst, x, s', v);
      StoppedThere(s'.mem, pid, w, x, v);
    }
  }

  lemma ResolvesTo(sym: seq<Rg>, rgid: int, off: nat) returns (v: nat)
    requires off < Length(sym, rgid)
    ensures Resolve(sym, rgid, off) == Some(v) && v == Start(sym, rgid) + off
  {
    ResolveIff(sym, rgid, off);
    v := Resolve(sym, rgid, off).value;
  }

  lemma StoppedThere(m: Sys, pid: nat, w: UserCopy.Spans, x: nat, v: nat)
    requires v == w.to + x && OutOfMemory(m, LocOf(User(pid), v).page)
    ensures UserCopy.Stopped(m, pid, w, x)
  {
  }

  /** A page fault that cannot be served cannot be served afterwards either. */
  lemma StillOut(m: Sys, a: Page)
    requires OutOfMemory(m, a)
    ensures OutOfMemory(m.GetPage(a).0, a) && m.GetPage(a).1.None?
  {
  }

  lemma RoundPools(s: System, pid: nat, src: int, dst: int, x: nat)
    requires Good(s) && pid in s.areas && x < TWO32
    ensures MemoryRuns.PoolsOk(UserCopy.Round(s, pid, src, dst, x).0)
  {
    var k := StepKAccess(s, src, x, None).1;
    if k.Value? { MemoryRuns.StepKeepsPools(s, Write(pid, dst, x, k.b)); }
  }

  /** The 32-bit offset does not wrap before the copy leaves its regions. */
  lemma CopyReaches(m: Sys, m': Sys, pid: nat, w: UserCopy.Spans, off: nat, n: nat)
    requires UserCopy.CopyDid(m, m', pid, w, off, n) && off < TWO32
    ensures UserCopy.Index(off, n) == off + n < TWO32
  {
  }

  lemma PresentFits(m: Sys, a: Page)
    requires m.Ok() && m.PteOf(a).Present?
    ensures m.PteOf(a).fpn < |m.ram.pages|
  {
  }
}
