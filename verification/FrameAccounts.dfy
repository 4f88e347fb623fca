/**
  Where all frames are.  In every state that a run of calls can reach from start-up, a swap
  frame is in use exactly if some page lives in it, and a RAM frame exactly if some page
  lives in it or a kernel allocation has mapped another frame over it (src/libmem.c:221-281,
  533-556).  So nothing but such a repeated kernel allocation ever loses a frame.
 */
module FrameAccounts {
  import opened Collections
  import opened Word64
  import opened Devices
  import opened Paging
  import opened MemorySystem
  import MemoryRuns
  import Regions

  /** Some page has this entry. */
  ghost predicate Holds(pt: map<Page, Pte>, e: Pte) { exists a :: a in pt && pt[a] == e }

  // Comparing with true keeps the verifier from unfolding these predicates at each use.

  ghost predicate Exact(m: Sys, lost: set<nat>) { (SwapExact(m) && RamExact(m, lost)) == true }

  ghost predicate SwapExact(m: Sys) {
    (forall o :: o in m.swp.used ==> Holds(m.pt, Swapped(o))) == true
  }

  /** Every RAM frame in use is a page's or lost, and not both. */
  ghost predicate RamExact(m: Sys, lost: set<nat>) {
    ((forall f :: f in m.ram.used ==> f in lost || Holds(m.pt, Present(f)))
     && (forall f :: f in lost ==> f in m.ram.used && !Holds(m.pt, Present(f)))) == true
  }

  /** The frames that a step from m to m' lost: those of kernel pages that have another now. */
  function LostIn(m: Sys, m': Sys): set<nat> {
    set a | a in m.pt && a.sp == Kernel && m.pt[a].Present? && m'.PteOf(a) != m.pt[a] :: m.pt[a].fpn
  }

  /** The accounts stay exact from m to m'. */
  ghost predicate Traced(m: Sys, m': Sys, lost: set<nat>) { Exact(m', lost + LostIn(m, m')) == true }

  // ---- One entry set ----------------------------------------------------------------------

  lemma HoldsKept(pt: map<Page, Pte>, a: Page, e: Pte, e': Pte)
    requires Holds(pt, e') && (a in pt ==> pt[a] != e')
    ensures Holds(pt[a := e], e')
  {
    var b :| b in pt && pt[b] == e';
    assert pt[a := e][b] == e';
  }

  lemma HoldsNew(pt: map<Page, Pte>, a: Page, e: Pte)
    ensures Holds(pt[a := e], e)
  {
    assert pt[a := e][a] == e;
  }

  lemma HoldsOld(pt: map<Page, Pte>, a: Page, e: Pte, e': Pte)
    requires Holds(pt[a := e], e') && e' != e
    ensures Holds(pt, e')
  {
    var b :| b in pt[a := e] && pt[a := e][b] == e';
    assert b in pt && pt[b] == e';
  }

  // ---- A page fault -------------------------------------------------------------------------

  lemma EvictSwap(m: Sys, sp: Space)
    requires m.Ok() && SwapExact(m) && sp in m.fifo && m.fifo[sp].list != [] && m.swp.free != []
    ensures SwapExact(Evict(m, sp))
  {
    VictimPresent(m, sp);
    m.swp.TakeOk();
    var v, o := Page(sp, m.fifo[sp].Victim()), m.swp.free[0];
    forall o' | o' in Evict(m, sp).swp.used ensures Holds(Evict(m, sp).pt, Swapped(o')) {
      if o' == o { HoldsNew(m.pt, v, Swapped(o)); } else { HoldsKept(m.pt, v, Swapped(o), Swapped(o')); }
    }
  }

  /** The swap frame of a page that comes in is given back. */
  lemma InstallSwap(m: Sys, a: Page, t: nat)
    requires m.swp.Ok() && SwapExact(m) && (m.PteOf(a).Swapped? ==> m.PteOf(a).off in m.swp.used)
    ensures SwapExact(m.Install(a, t))
  {
    var m' := m.Install(a, t);
    if m.PteOf(a).Swapped? { m.swp.GiveOk(m.pt[a].off); }
    forall o | o in m'.swp.used ensures Holds(m'.pt, Swapped(o)) {
      HoldsKept(m.pt, a, Present(t), Swapped(o));
    }
  }

  /** Every page but a has kept its frame, frame t was nobody's and is a's now. */
  lemma InstallRam(m: Sys, m1: Sys, a: Page, t: nat, lost: set<nat>)
    requires RamExact(m, lost) && !m.PteOf(a).Present? && t !in lost
    requires forall f :: f in m1.ram.used <==> f in m.ram.used || f == t
    requires forall f :: f != t ==> (Holds(m1.pt, Present(f)) <==> Holds(m.pt, Present(f)))
    requires !m1.PteOf(a).Present?
    ensures RamExact(m1.Install(a, t), lost)
  {
    var m' := m1.Install(a, t);
    forall f | f in m'.ram.used ensures f in lost || Holds(m'.pt, Present(f)) {
      if f == t {
        HoldsNew(m1.pt, a, Present(t));
      } else if f !in lost {
        HoldsKept(m1.pt, a, Present(t), Present(f));
      }
    }
    forall f | f in lost ensures f in m'.ram.used && !Holds(m'.pt, Present(f)) {
      if Holds(m'.pt, Present(f)) { HoldsOld(m1.pt, a, Present(t), Present(f)); }
    }
  }

  lemma EvictRam(m: Sys, a: Page)
    requires m.Ok() && a.sp in m.fifo && m.fifo[a.sp].list != [] && m.swp.free != [] && !m.PteOf(a).Present?
    ensures var m1, t := Evict(m, a.sp), m.FrameNo(Page(a.sp, m.fifo[a.sp].Victim()));
            && m1.ram == m.ram && t in m.ram.used && Holds(m.pt, Present(t)) && !m1.PteOf(a).Present?
            && forall f :: f != t ==> (Holds(m1.pt, Present(f)) <==> Holds(m.pt, Present(f)))
  {
    VictimPresent(m, a.sp);
    var v, o := Page(a.sp, m.fifo[a.sp].Victim()), m.swp.free[0];
    var t := m.FrameNo(v);
    forall f | f != t ensures Holds(Evict(m, a.sp).pt, Present(f)) <==> Holds(m.pt, Present(f)) {
      if Holds(m.pt, Present(f)) { HoldsKept(m.pt, v, Swapped(o), Present(f)); }
      if Holds(Evict(m, a.sp).pt, Present(f)) { HoldsOld(m.pt, v, Swapped(o), Present(f)); }
    }
  }

  lemma LostUsed(m: Sys, lost: set<nat>, f: nat)
    requires m.Ok() && RamExact(m, lost)
    ensures f in m.ram.free || Holds(m.pt, Present(f)) ==> f !in lost
  {
  }

  lemma FaultRam(m: Sys, a: Page, lost: set<nat>)
    requires m.Ok() && a.sp in m.fifo && RamExact(m, lost)
    ensures RamExact(m.GetPage(a).0, lost)
  {
    if m.PteOf(a).Present? {
    } else if m.ram.free != [] {
      m.ram.TakeOk();
      LostUsed(m, lost, m.ram.free[0]);
      InstallRam(m, m.(ram := m.ram.Take()), a, m.ram.free[0], lost);
    } else if m.fifo[a.sp].list != [] && m.swp.free != [] {
      var t := m.FrameNo(Page(a.sp, m.fifo[a.sp].Victim()));
      EvictRam(m, a);
      LostUsed(m, lost, t);
      InstallRam(m, Evict(m, a.sp), a, t, lost);
    }
  }

  lemma BackedSwap(m: Sys, a: Page)
    requires m.Ok()
    ensures m.PteOf(a).Swapped? ==> m.PteOf(a).off in m.swp.used
  {
  }

  lemma FaultSwap(m: Sys, a: Page)
    requires m.Ok() && a.sp in m.fifo && SwapExact(m)
    ensures SwapExact(m.GetPage(a).0)
  {
    BackedSwap(m, a);
    if m.PteOf(a).Present? {
    } else if m.ram.free != [] {
      InstallSwap(m.(ram := m.ram.Take()), a, m.ram.free[0]);
    } else if m.fifo[a.sp].list != [] && m.swp.free != [] {
      EvictSwap(m, a.sp);
      EvictFrames(m, a.sp);
      VictimPresent(m, a.sp);
      InstallSwap(Evict(m, a.sp), a, m.FrameNo(Page(a.sp, m.fifo[a.sp].Victim())));
    }
  }

  // ---- Mapping frames -------------------------------------------------------------------------

  lemma MapRamSwap(m: Sys, sp: Space, first: nat, n: nat)
    requires SwapExact(m) && sp in m.fifo && forall a :: a in m.pt ==> !InRange(a, sp, first, n)
    ensures SwapExact(MapRam(m, sp, first, n))
  {
    MapRamMaps(m, sp, first, n);
    var m' := MapRam(m, sp, first, n);
    forall o | o in m'.swp.used ensures Holds(m'.pt, Swapped(o)) {
      var a :| a in m.pt && m.pt[a] == Swapped(o);
      assert m'.PteOf(a) == m.PteOf(a);
    }
  }

  lemma MapRamUsed(m: Sys, sp: Space, first: nat, n: nat, f: nat)
    requires m.Ok() && sp in m.fifo && n <= |m.ram.free|
    ensures f in MapRam(m, sp, first, n).ram.used <==> f in m.ram.used || f in m.ram.free[..n]
  {
    AllocFramesAllOrNothing(m.ram, n);
    MapFramesLists(m.(ram := AllocFrames(m.ram, n).0), sp, first, m.ram.free[..n]);
  }

  /** Of the pages after a mapping, the new ones have its frames and the others theirs. */
  lemma MapsHold(m: Sys, m': Sys, sp: Space, first: nat, frames: seq<nat>, f: nat)
    requires MapsTo(m, m', sp, first, frames)
    ensures Holds(m'.pt, Present(f)) <==> Holds(m.pt, Present(f)) || f in frames
  {
    if Holds(m.pt, Present(f)) {
      var a :| a in m.pt && m.pt[a] == Present(f);
      assert m'.PteOf(a) == m.PteOf(a);
    }
    if f in frames {
      var i :| 0 <= i < |frames| && frames[i] == f;
      assert m'.PteOf(Page(sp, first + i)) == Present(f);
    }
    if Holds(m'.pt, Present(f)) {
      var a :| a in m'.pt && m'.pt[a] == Present(f);
      if a in m.pt { assert m'.PteOf(a) == m.PteOf(a); } else { NewPage(m, m', sp, first, frames, a); }
    }
  }

  lemma NewPage(m: Sys, m': Sys, sp: Space, first: nat, frames: seq<nat>, a: Page)
    requires MapsTo(m, m', sp, first, frames) && a in m'.pt && a !in m.pt
    ensures m'.pt[a].Present? && m'.pt[a].fpn in frames
  {
    var i := a.pgn - first;
    assert InRange(a, sp, first, |frames|) && a == Page(sp, first + i);
    assert m'.PteOf(Page(sp, first + i)) == Present(frames[i]);
  }

  /** The frames of a mapping: those taken are mapped, and no other is touched. */
  lemma MapRamHolds(m: Sys, sp: Space, first: nat, n: nat, f: nat)
    requires m.Ok() && sp in m.fifo && forall a :: a in m.pt ==> !InRange(a, sp, first, n)
    requires n <= |m.ram.free|
    ensures var m' := MapRam(m, sp, first, n);
            && (f in m'.ram.used <==> f in m.ram.used || f in m.ram.free[..n])
            && (Holds(m'.pt, Present(f)) <==> Holds(m.pt, Present(f)) || f in m.ram.free[..n])
  {
    MapRamUsed(m, sp, first, n, f);
    MapRamMaps(m, sp, first, n);
    MapsHold(m, MapRam(m, sp, first, n), sp, first, m.ram.free[..n], f);
  }

  lemma MapRamRam(m: Sys, sp: Space, first: nat, n: nat, lost: set<nat>)
    requires m.Ok() && RamExact(m, lost) && sp in m.fifo && forall a :: a in m.pt ==> !InRange(a, sp, first, n)
    ensures RamExact(MapRam(m, sp, first, n), lost)
  {
    var m' := MapRam(m, sp, first, n);
    MapRamMaps(m, sp, first, n);
    if n <= |m.ram.free| {
      forall f ensures (f in m'.ram.used <==> f in m.ram.used || f in m.ram.free[..n]) &&
                       (Holds(m'.pt, Present(f)) <==> Holds(m.pt, Present(f)) || f in m.ram.free[..n]) {
        MapRamHolds(m, sp, first, n, f);
      }
      forall f | f in lost ensures f !in m.ram.free[..n] {
        LostUsed(m, lost, f);
      }
    }
  }

  // ---- Kernel allocation -----------------------------------------------------------------------

  lemma KernelPageSwap(m: Sys, pgn: nat)
    requires m.Ok() && SwapExact(m) && m.ram.free != []
    ensures SwapExact(MapKernelPage(m, pgn))
  {
    var m' := MapKernelPage(m, pgn);
    forall o | o in m'.swp.used ensures Holds(m'.pt, Swapped(o)) {
      HoldsKept(m.pt, Page(Kernel, pgn), Present(m.ram.free[0]), Swapped(o));
    }
  }

  /** One more kernel page: the frame it had before is lost. */
  lemma KernelPageRam(m: Sys, pgn: nat, lost: set<nat>)
    requires m.Ok() && RamExact(m, lost) && m.ram.free != []
    ensures RamExact(MapKernelPage(m, pgn), lost + LostIn(m, MapKernelPage(m, pgn)))
  {
    var m', a, t := MapKernelPage(m, pgn), Page(Kernel, pgn), m.ram.free[0];
    m.ram.TakeOk();
    LostUsed(m, lost, t);
    OneLost(m, pgn);
    var lost' := lost + LostIn(m, m');
    forall f | f in m'.ram.used ensures f in lost' || Holds(m'.pt, Present(f)) {
      if f == t {
        HoldsNew(m.pt, a, Present(t));
      } else if f !in lost' {
        HoldsKept(m.pt, a, Present(t), Present(f));
      }
    }
    forall f | f in lost' ensures f in m'.ram.used && !Holds(m'.pt, Present(f)) {
      if f in lost && Holds(m'.pt, Present(f)) { HoldsOld(m.pt, a, Present(t), Present(f)); }
    }
  }

  lemma OneLost(m: Sys, pgn: nat)
    requires m.Ok() && m.ram.free != []
    ensures var a := Page(Kernel, pgn);
            LostIn(m, MapKernelPage(m, pgn)) == if a in m.pt then {m.pt[a].fpn} else {}
    ensures forall f :: f in LostIn(m, MapKernelPage(m, pgn)) ==>
              f in m.ram.used && !Holds(MapKernelPage(m, pgn).pt, Present(f))
  {
  }

  /** What a loop of the kernel loses is what its first page and its rest lose. */
  lemma LostSplit(m: Sys, m1: Sys, m': Sys, pgn: nat, n: nat)
    requires n > 0 && KeepsOutside(m, m1, pgn, 1) && KeepsOutside(m1, m', pgn + 1, n - 1) && m1.Backed() && m.Backed()
    ensures LostIn(m, m') == LostIn(m, m1) + LostIn(m1, m')
  {
    forall f | f in LostIn(m, m') ensures f in LostIn(m, m1) + LostIn(m1, m') {
      var a :| a in m.pt && a.sp == Kernel && m.pt[a].Present? && m'.PteOf(a) != m.pt[a] && m.pt[a].fpn == f;
      assert a in m1.pt;
      if m1.PteOf(a) == m.pt[a] { assert m1.pt[a].fpn in LostIn(m1, m'); } else { assert m.pt[a].fpn in LostIn(m, m1); }
    }
    forall f | f in LostIn(m, m1) ensures f in LostIn(m, m') {
      var a :| a in m.pt && a.sp == Kernel && m.pt[a].Present? && m1.PteOf(a) != m.pt[a] && m.pt[a].fpn == f;
      assert InRange(a, Kernel, pgn, 1) && !InRange(a, Kernel, pgn + 1, n - 1);
      assert a in m1.pt && m'.pt[a] == m1.pt[a];
      assert m.pt[a].fpn in LostIn(m, m');
    }
    forall f | f in LostIn(m1, m') ensures f in LostIn(m, m') {
      var a :| a in m1.pt && a.sp == Kernel && m1.pt[a].Present? && m'.PteOf(a) != m1.pt[a] && m1.pt[a].fpn == f;
      assert InRange(a, Kernel, pgn + 1, n - 1) && !InRange(a, Kernel, pgn, 1);
      assert a in m.pt && m1.pt[a] == m.pt[a];
      assert m.pt[a].fpn in LostIn(m, m');
    }
  }

  /** A page of the loop loses its frame, and nothing but the loop's pages does. */
  lemma KernelLost(m: Sys, pgn: nat, n: nat)
    requires n > 0 && m.ram.free != [] && m.Backed() && MapKernelPage(m, pgn).Backed()
    ensures var m1, m' := MapKernelPage(m, pgn), MapKernel(m, pgn, n).0;
            LostIn(m, m') == LostIn(m, m1) + LostIn(m1, m')
  {
    var m1 := MapKernelPage(m, pgn);
    assert KeepsOutside(m, m1, pgn, 1);
    MapKernelKeeps(m1, pgn + 1, n - 1);
    LostSplit(m, m1, MapKernel(m, pgn, n).0, pgn, n);
  }

  lemma KernelFirst(m: Sys, pgn: nat, lost: set<nat>)
    requires m.Ok() && Kernel in m.fifo && pgn < MAX_PGN && m.ram.free != [] && Exact(m, lost)
    ensures var m1 := MapKernelPage(m, pgn); m1.Ok() && Kernel in m1.fifo && Traced(m, m1, lost)
  {
    MapKernelFrames(m, pgn);
    MapKernelFifos(m, pgn);
    KernelPageSwap(m, pgn);
    KernelPageRam(m, pgn, lost);
  }

  /** Some pages of the loop are mapped and the accounts are exact. */
  ghost predicate OnTheWay(m: Sys, pgn: nat, n: nat, lost: set<nat>) {
    (m.Ok() && Kernel in m.fifo && pgn + n <= MAX_PGN && Exact(m, lost)) == true
  }

  lemma KernelNext(m: Sys, pgn: nat, n: nat, lost: set<nat>)
    requires OnTheWay(m, pgn, n, lost) && n > 0 && m.ram.free != []
    ensures OnTheWay(MapKernelPage(m, pgn), pgn + 1, n - 1, lost + LostIn(m, MapKernelPage(m, pgn)))
  {
    KernelFirst(m, pgn, lost);
  }

  lemma {:induction false} MapKernelExact(m: Sys, pgn: nat, n: nat, lost: set<nat>, m': Sys)
    requires OnTheWay(m, pgn, n, lost) && m' == MapKernel(m, pgn, n).0
    ensures Traced(m, m', lost)
    decreases n
  {
    if n == 0 || m.ram.free == [] {
      SameExact(m, lost);
    } else {
      KernelNext(m, pgn, n, lost);
      MapKernelExact(MapKernelPage(m, pgn), pgn + 1, n - 1, lost + LostIn(m, MapKernelPage(m, pgn)), m');
      KernelRest(m, pgn, n, lost, m');
    }
  }

  lemma KernelRest(m: Sys, pgn: nat, n: nat, lost: set<nat>, m': Sys)
    requires OnTheWay(m, pgn, n, lost) && n > 0 && m.ram.free != []
    requires m' == MapKernel(MapKernelPage(m, pgn), pgn + 1, n - 1).0
    requires Traced(MapKernelPage(m, pgn), m', lost + LostIn(m, MapKernelPage(m, pgn)))
    ensures Traced(m, m', lost)
  {
    KernelFirst(m, pgn, lost);
    KernelLost(m, pgn, n);
    Regroup(lost, LostIn(m, MapKernelPage(m, pgn)), LostIn(MapKernelPage(m, pgn), m'));
  }

  lemma Regroup(x: set<nat>, y: set<nat>, z: set<nat>)
    ensures x + y + z == x + (y + z)
  {
  }

  // ---- Steps and runs -----------------------------------------------------------------------------

  /** Nothing is lost where every kernel page keeps its entry. */
  lemma NoneLost(m: Sys, m': Sys)
    requires forall a :: a in m.pt && a.sp == Kernel ==> m'.PteOf(a) == m.pt[a]
    ensures LostIn(m, m') == {}
  {
  }

  lemma AllocExact(s: System, pid: nat, rgid: int, size: nat, lost: set<nat>)
    requires Inv(s) && Legal(s, Alloc(pid, rgid, size)) && Exact(s.mem, lost)
    ensures var m' := StepAlloc(s, pid, rgid, size).0.mem; Traced(s.mem, m', lost)
  {
    var m' := StepAlloc(s, pid, rgid, size).0.mem;
    if 0 <= rgid < Regions.SYMBOLS && Regions.Grows(s.areas[pid], size) {
      var first, n := s.areas[pid].vmEnd / 4096, PageCount(size);
      GrowthUnmapped(s, pid, size);
      MapRamSwap(s.mem, User(pid), first, n);
      MapRamRam(s.mem, User(pid), first, n, lost);
      MapRamMaps(s.mem, User(pid), first, n);
    }
    NoneLost(s.mem, m');
    assert lost + {} == lost;
  }

  lemma TouchExact(s: System, frame: Option<nat>, off: nat, write: Option<Byte>, lost: set<nat>)
    requires off < 4096 && Exact(s.mem, lost)
    ensures var m' := TouchFrame(s, frame, off, write).0.mem; Exact(m', lost) && m'.pt == s.mem.pt
  {
  }

  /** A page fault leaves the kernel's entries alone. */
  lemma FaultKernel(m: Sys, a: Page, b: Page)
    requires a.sp != Kernel && b in m.pt && b.sp == Kernel
    ensures m.GetPage(a).0.PteOf(b) == m.pt[b]
  {
  }

  lemma FaultExact(m: Sys, a: Page, lost: set<nat>)
    requires m.Ok() && a.sp in m.fifo && a.sp != Kernel && Exact(m, lost)
    ensures Traced(m, m.GetPage(a).0, lost)
  {
    FaultSwap(m, a);
    FaultRam(m, a, lost);
    forall b | b in m.pt && b.sp == Kernel ensures m.GetPage(a).0.PteOf(b) == m.pt[b] {
      FaultKernel(m, a, b);
    }
    NoneLost(m, m.GetPage(a).0);
    assert lost + {} == lost;
  }

  lemma LostSame(m: Sys, m1: Sys, m': Sys)
    requires m'.pt == m1.pt
    ensures LostIn(m, m') == LostIn(m, m1)
  {
  }

  lemma AccessExact(s: System, pid: nat, rgid: int, off: nat, write: Option<Byte>, lost: set<nat>)
    requires Inv(s) && pid in s.areas && Exact(s.mem, lost)
    ensures var m' := StepAccess(s, pid, rgid, off, write).0.mem; Traced(s.mem, m', lost)
  {
    var m' := StepAccess(s, pid, rgid, off, write).0.mem;
    var v := Resolve(s.areas[pid].sym, rgid, off);
    if v.Some? {
      var l := LocOf(User(pid), v.value);
      var (m1, r) := s.mem.GetPage(l.page);
      FaultExact(s.mem, l.page, lost);
      TouchExact(s.(mem := m1), r, l.off, write, lost + LostIn(s.mem, m1));
      LostSame(s.mem, m1, m');
    } else {
      SameExact(s.mem, lost);
    }
  }

  lemma KernelExact(s: System, first: nat, n: nat, lost: set<nat>)
    requires Inv(s) && first + n <= MAX_PGN && Exact(s.mem, lost)
    ensures var m' := MapKernel(s.mem, first, n).0; Traced(s.mem, m', lost)
  {
    MapKernelExact(s.mem, first, n, lost, MapKernel(s.mem, first, n).0);
  }

  lemma SameExact(m: Sys, lost: set<nat>)
    requires Exact(m, lost)
    ensures Traced(m, m, lost)
  {
    NoneLost(m, m);
    assert lost + {} == lost;
  }

  lemma PoolCreateExact(s: System, size: nat, align: nat, id: nat, lost: set<nat>)
    requires Inv(s) && size < 0x1_0000_0000 && Exact(s.mem, lost)
    ensures var m' := StepPoolCreate(s, size, align, id).0.mem; Traced(s.mem, m', lost)
  {
    SameExact(s.mem, lost);
    if id < POOLS { KernelExact(s, id * 1000, PageCount(size), lost); }
  }

  lemma KAccessExact(s: System, rgid: int, off: nat, write: Option<Byte>, lost: set<nat>)
    requires Exact(s.mem, lost)
    ensures var m' := StepKAccess(s, rgid, off, write).0.mem; Traced(s.mem, m', lost)
  {
    var m' := StepKAccess(s, rgid, off, write).0.mem;
    var v := Resolve(s.ksym, rgid, off);
    if v.Some? {
      var l := LocOf(Kernel, v.value);
      var e := s.mem.PteOf(l.page);
      TouchExact(s, if e.Present? then Some(e.fpn) else None, l.off, write, lost);
    }
    NoneLost(s.mem, m');
    assert lost + {} == lost;
  }

  lemma StepExact(s: System, op: Op, lost: set<nat>)
    requires Inv(s) && Legal(s, op) && Exact(s.mem, lost)
    ensures var m' := Step(s, op).0.mem; Traced(s.mem, m', lost)
  {
    SameExact(s.mem, lost);
    match op
    case Alloc(pid, rgid, size) => AllocExact(s, pid, rgid, size, lost);
    case Free(_, _) =>
    case Read(pid, rgid, off) => AccessExact(s, pid, rgid, off, None, lost);
    case Write(pid, rgid, off, b) => AccessExact(s, pid, rgid, off, Some(b), lost);
    case Kmalloc(rgid, size) => KernelExact(s, rgid * 1000, PageCount(size), lost);
    case PoolCreate(size, align, id) => PoolCreateExact(s, size, align, id, lost);
    case CacheAlloc(_, _) =>
    case KRead(rgid, off) => KAccessExact(s, rgid, off, None, lost);
    case KWrite(rgid, off, b) => KAccessExact(s, rgid, off, Some(b), lost);
  }

  /** The frames a run loses: each kernel page that gets another frame loses the one it had. */
  function LostBy(s: System, ops: seq<Op>): set<nat>
    decreases |ops|
  {
    if ops == [] then {} else LostIn(s.mem, Step(s, ops[0]).0.mem) + LostBy(Step(s, ops[0]).0, ops[1..])
  }

  lemma {:induction false} RunExact(s: System, ops: seq<Op>, lost: set<nat>)
    requires Inv(s) && MemoryRuns.LegalRun(s, ops) && Exact(s.mem, lost)
    ensures Exact(MemoryRuns.After(s, ops).mem, lost + LostBy(s, ops))
    decreases |ops|
  {
    if ops == [] {
      assert lost + {} == lost;
    } else {
      var s' := Step(s, ops[0]).0;
      StepInv(s, ops[0]);
      StepExact(s, ops[0], lost);
      RunExact(s', ops[1..], lost + LostIn(s.mem, s'.mem));
      assert lost + LostIn(s.mem, s'.mem) + LostBy(s', ops[1..]) == lost + LostBy(s, ops);
    }
  }

  /**
    Frame accounts.  In every state that a run of calls can reach from start-up, a swap frame
    is in use exactly if it is some page's, and a RAM frame exactly if it is some page's or a
    repeated kernel allocation lost it, which are never both the case.
   */
  lemma NoFrameLost(ramPages: nat, swapPages: nat, pids: set<nat>, ops: seq<Op>, f: nat)
    requires ramPages <= MAX_FRAMES && swapPages <= MAX_SWAP_FRAMES
    requires MemoryRuns.LegalRun(MemoryRuns.Boot(ramPages, swapPages, pids), ops)
    ensures var s := MemoryRuns.Boot(ramPages, swapPages, pids);
            var m := MemoryRuns.After(s, ops).mem;
            && (f in m.swp.used <==> exists a :: a in m.pt && m.pt[a] == Swapped(f))
            && (f in m.ram.used <==> f in LostBy(s, ops) || exists a :: a in m.pt && m.pt[a] == Present(f))
            && !(f in LostBy(s, ops) && exists a :: a in m.pt && m.pt[a] == Present(f))
  {
    var s := MemoryRuns.Boot(ramPages, swapPages, pids);
    ReachedExact(ramPages, swapPages, pids, ops);
    ExactMeans(MemoryRuns.After(s, ops).mem, LostBy(s, ops), f);
  }

  lemma ExactMeans(m: Sys, lost: set<nat>, f: nat)
    requires m.Ok() && Exact(m, lost)
    ensures f in m.swp.used <==> Holds(m.pt, Swapped(f))
    ensures f in m.ram.used <==> f in lost || Holds(m.pt, Present(f))
    ensures !(f in lost && Holds(m.pt, Present(f)))
  {
  }

  // ---- When memory is exhausted ------------------------------------------------------------------

  /** Every frame of RAM is some page's or lost. */
  ghost predicate RamTaken(m: Sys, ramPages: nat, lost: set<nat>) {
    forall f :: 0 <= f < ramPages ==> f in lost || Holds(m.pt, Present(f))
  }

  /** Every frame of swap is some page's. */
  ghost predicate SwapTaken(m: Sys, swapPages: nat) {
    forall o :: 0 <= o < swapPages ==> Holds(m.pt, Swapped(o))
  }

  lemma NoneFreeIff(m: Sys, lost: set<nat>)
    requires m.Ok() && Exact(m, lost)
    ensures m.ram.free == [] <==> RamTaken(m, |m.ram.pages|, lost)
    ensures m.swp.free == [] <==> SwapTaken(m, |m.swp.pages|)
  {
    if m.ram.free != [] {
      var f := m.ram.free[0];
      LostUsed(m, lost, f);
      ExactMeans(m, lost, f);
      NotBoth(m, f);
    } else {
      forall f | 0 <= f < |m.ram.pages| ensures f in lost || Holds(m.pt, Present(f)) {
        ExactMeans(m, lost, f);
        NotBoth(m, f);
      }
    }
    if m.swp.free != [] {
      ExactMeans(m, lost, m.swp.free[0]);
      NotBoth(m, m.swp.free[0]);
    } else {
      forall o | 0 <= o < |m.swp.pages| ensures Holds(m.pt, Swapped(o)) {
        ExactMeans(m, lost, o);
        NotBoth(m, o);
      }
    }
  }

  lemma NotBoth(m: Sys, f: nat)
    requires m.Ok()
    ensures f < |m.ram.pages| ==> (f in m.ram.free <==> f !in m.ram.used)
    ensures f in m.ram.free ==> f < |m.ram.pages|
    ensures f < |m.swp.pages| ==> (f in m.swp.free <==> f !in m.swp.used)
    ensures f in m.swp.free ==> f < |m.swp.pages|
  {
  }

  /** The byte is not in the region of the slot; or its page is not in RAM, every frame of RAM
      is taken, and the process has no page listed for eviction or all of swap is taken. */
  ghost predicate MustFail(s: System, pid: nat, rgid: int, off: nat, lost: set<nat>)
    requires pid in s.areas && User(pid) in s.mem.fifo
  {
    var sym := s.areas[pid].sym;
    || !(0 <= rgid < |sym| && sym[rgid].start + off < sym[rgid].end)
    || (&& !InRam(s.mem.pt, Page(User(pid), (sym[rgid].start + off) / 4096))
        && RamTaken(s.mem, |s.mem.ram.pages|, lost)
        && (s.mem.fifo[User(pid)].list == [] || SwapTaken(s.mem, |s.mem.swp.pages|)))
  }

  lemma FailsWhen(s: System, pid: nat, rgid: int, off: nat, b: Byte, lost: set<nat>)
    requires Inv(s) && pid in s.areas && Exact(s.mem, lost)
    ensures User(pid) in s.mem.fifo
    ensures Step(s, Read(pid, rgid, off)).1 == Failed <==> MustFail(s, pid, rgid, off, lost)
    ensures Step(s, Write(pid, rgid, off, b)).1 == Failed <==> MustFail(s, pid, rgid, off, lost)
  {
    MemoryRuns.UserAccessFailsIff(s, pid, rgid, off, b);
    MustFailIff(s, pid, rgid, off, lost);
  }

  lemma MustFailIff(s: System, pid: nat, rgid: int, off: nat, lost: set<nat>)
    requires s.mem.Ok() && pid in s.areas && User(pid) in s.mem.fifo && Exact(s.mem, lost)
    ensures var sym := s.areas[pid].sym;
            MustFail(s, pid, rgid, off, lost) <==>
            !(0 <= rgid < |sym| && sym[rgid].start + off < sym[rgid].end)
            || OutOfMemory(s.mem, Page(User(pid), (sym[rgid].start + off) / 4096))
  {
    NoneFreeIff(s.mem, lost);
  }

  /**
    Why a user access fails, in every state that a run of calls can reach from start-up: for
    no other reason than those of MustFail, with the frames that the run lost.
   */
  lemma UserAccessFailsWhen(ramPages: nat, swapPages: nat, pids: set<nat>, ops: seq<Op>,
                            pid: nat, rgid: int, off: nat, b: Byte)
    requires ramPages <= MAX_FRAMES && swapPages <= MAX_SWAP_FRAMES && pid in pids
    requires MemoryRuns.LegalRun(MemoryRuns.Boot(ramPages, swapPages, pids), ops)
    ensures var s0 := MemoryRuns.Boot(ramPages, swapPages, pids);
            var s := MemoryRuns.After(s0, ops);
            && pid in s.areas && User(pid) in s.mem.fifo
            && |s.mem.ram.pages| == ramPages && |s.mem.swp.pages| == swapPages
            && (Step(s, Read(pid, rgid, off)).1 == Failed <==> MustFail(s, pid, rgid, off, LostBy(s0, ops)))
            && (Step(s, Write(pid, rgid, off, b)).1 == Failed <==> MustFail(s, pid, rgid, off, LostBy(s0, ops)))
  {
    var s0 := MemoryRuns.Boot(ramPages, swapPages, pids);
    ReachedExact(ramPages, swapPages, pids, ops);
    FailsWhen(MemoryRuns.After(s0, ops), pid, rgid, off, b, LostBy(s0, ops));
  }

  lemma ReachedExact(ramPages: nat, swapPages: nat, pids: set<nat>, ops: seq<Op>)
    requires ramPages <= MAX_FRAMES && swapPages <= MAX_SWAP_FRAMES
    requires MemoryRuns.LegalRun(MemoryRuns.Boot(ramPages, swapPages, pids), ops)
    ensures var s0 := MemoryRuns.Boot(ramPages, swapPages, pids);
            var s := MemoryRuns.After(s0, ops);
            && Inv(s) && Exact(s.mem, LostBy(s0, ops)) && s.areas.Keys == pids
            && |s.mem.ram.pages| == ramPages && |s.mem.swp.pages| == swapPages
  {
    var s0 := MemoryRuns.Boot(ramPages, swapPages, pids);
    MemoryRuns.BootInv(ramPages, swapPages, pids);
    MemoryRuns.RunRefinesFlat(s0, ops, map[]);
    MemoryRuns.RunSizes(s0, ops);
    RunExact(s0, ops, {});
    RunProcesses(s0, ops);
    assert {} + LostBy(s0, ops) == LostBy(s0, ops);
  }

  lemma {:induction false} RunProcesses(s: System, ops: seq<Op>)
    requires MemoryRuns.LegalRun(s, ops)
    ensures MemoryRuns.After(s, ops).areas.Keys == s.areas.Keys
    decreases |ops|
  {
    if ops != [] {
      StepProcesses(s, ops[0]);
      RunProcesses(Step(s, ops[0]).0, ops[1..]);
    }
  }

  lemma StepProcesses(s: System, op: Op)
    requires Legal(s, op)
    ensures Step(s, op).0.areas.Keys == s.areas.Keys
  {
  }
}
