/**
  No byte leaks from one address space to another, not even through frames that change
  hands: what a read finds at an address never written is zero or a byte of the same space.
 */
module Isolation {
  import opened Collections
  import opened Devices
  import opened Paging
  import opened MemorySystem
  import MemoryRuns
  import Word64
  import Regions

  /** The bytes that were written in each space. */
  type Written = set<(Space, Byte)>

  // Comparing with true keeps the verifier from unfolding these predicates at each use.

  ghost predicate Zero(d: PageData) { (forall o :: 0 <= o < 4096 ==> d[o] == 0) == true }

  /** Every byte of the page is zero or was written in space sp. */
  ghost predicate From(d: PageData, w: Written, sp: Space) {
    (forall o :: 0 <= o < 4096 ==> d[o] == 0 || (sp, d[o]) in w) == true
  }

  /** Free frames of RAM are zero. */
  ghost predicate FreeZero(ram: Device) { forall f :: f in ram.free ==> Zero(ram.Frame(f)) }

  ghost predicate PagesFrom(m: Sys, w: Written) {
    forall a :: a in m.pt ==> m.Content(a).Some? && From(m.Content(a).value, w, a.sp)
  }

  ghost predicate Clean(m: Sys, w: Written) { (FreeZero(m.ram) && PagesFrom(m, w)) == true }

  lemma ZeroFrom(d: PageData, w: Written, sp: Space)
    ensures Zero(d) ==> From(d, w, sp)
  {
  }

  // ---- A page fault -------------------------------------------------------------------------

  lemma EvictFree(m: Sys, sp: Space)
    requires m.List(sp).list != [] && m.swp.free != []
    ensures Evict(m, sp).ram == m.ram && Evict(m, sp).pt[Page(sp, m.List(sp).Victim())].Swapped?
  {
  }

  /** What a page holds that was mapped nowhere before: the frame as it was. */
  lemma InstallNew(m: Sys, a: Page, t: nat)
    requires m.PteOf(a).Absent? && t < |m.ram.pages|
    ensures m.Install(a, t).ram == m.ram && m.Install(a, t).Content(a) == Some(m.ram.pages[t])
  {
  }

  /** Filling frame t touches no other frame and leaves the free list alone. */
  lemma InstallFree(m: Sys, a: Page, t: nat)
    requires FreeZero(m.ram) && t !in m.ram.free
    ensures FreeZero(m.Install(a, t).ram)
  {
    var ram' := m.Install(a, t).ram;
    forall f | f in ram'.free ensures Zero(ram'.Frame(f)) {
      assert f in m.ram.free && ram'.Frame(f) == m.ram.Frame(f);
    }
  }

  lemma TakeFree(ram: Device)
    requires ram.Ok() && ram.free != [] && FreeZero(ram)
    ensures FreeZero(ram.Take()) && ram.free[0] !in ram.Take().free && ram.free[0] < |ram.pages|
    ensures Zero(ram.pages[ram.free[0]])
  {
    ram.TakeOk();
    assert ram.free == [ram.free[0]] + ram.free[1..];
    assert Zero(ram.Frame(ram.free[0]));
    forall f | f in ram.Take().free ensures Zero(ram.Take().Frame(f)) {
      assert f in ram.free && ram.Take().Frame(f) == ram.Frame(f);
    }
  }

  lemma FaultFree(m: Sys, a: Page)
    requires m.Ok() && FreeZero(m.ram) && a.sp in m.fifo && a.sp != Kernel
    ensures FreeZero(m.GetPage(a).0.ram)
  {
    if m.PteOf(a).Present? {
    } else if m.ram.free != [] {
      TakeFree(m.ram);
      InstallFree(m.(ram := m.ram.Take()), a, m.ram.free[0]);
    } else if m.fifo[a.sp].list != [] && m.swp.free != [] {
      EvictFree(m, a.sp);
      InstallFree(Evict(m, a.sp), a, m.FrameNo(Page(a.sp, m.List(a.sp).Victim())));
    }
  }

  /** A page that was not mapped gets zeroes, or what the evicted page of its own space held. */
  lemma FaultNew(m: Sys, a: Page, w: Written)
    requires m.Ok() && Clean(m, w) && a.sp in m.fifo && a.sp != Kernel && a !in m.pt
    ensures var (m', r) := m.GetPage(a);
            r.Some? ==> m'.Content(a).Some? && From(m'.Content(a).value, w, a.sp)
  {
    if m.ram.free != [] {
      TakeFree(m.ram);
      InstallNew(m.(ram := m.ram.Take()), a, m.ram.free[0]);
      ZeroFrom(m.ram.pages[m.ram.free[0]], w, a.sp);
    } else if m.fifo[a.sp].list != [] && m.swp.free != [] {
      var v := Page(a.sp, m.fifo[a.sp].Victim());
      VictimPresent(m, a.sp);
      EvictFree(m, a.sp);
      assert From(m.Content(v).value, w, v.sp);
      assert Evict(m, a.sp).PteOf(a).Absent?;
      InstallNew(Evict(m, a.sp), a, m.FrameNo(v));
    }
  }

  /** No page but a is mapped by a fault for it. */
  ghost predicate Mapped(m: Sys, a: Page, m': Sys, r: Option<nat>) {
    (m'.pt.Keys == if r.Some? then m.pt.Keys + {a} else m.pt.Keys) == true
  }

  lemma FaultMaps(m: Sys, a: Page, m': Sys, r: Option<nat>)
    requires Faulted(m, a, m', r)
    ensures Keeps(m, m') && Mapped(m, a, m', r)
  {
  }

  lemma FaultPages(m: Sys, a: Page, m': Sys, r: Option<nat>, w: Written)
    requires Keeps(m, m') && Mapped(m, a, m', r) && PagesFrom(m, w)
    requires a !in m.pt && r.Some? ==> m'.Content(a).Some? && From(m'.Content(a).value, w, a.sp)
    ensures PagesFrom(m', w)
  {
    forall c | c in m'.pt ensures m'.Content(c).Some? && From(m'.Content(c).value, w, c.sp) {
      assert c in m'.pt.Keys;
    }
  }

  lemma FaultClean(m: Sys, a: Page, w: Written)
    requires m.Ok() && Clean(m, w) && a.sp in m.fifo && a.sp != Kernel && a.pgn < Word64.MAX_PGN
    ensures Clean(m.GetPage(a).0, w)
  {
    var (m', r) := m.GetPage(a);
    FaultFree(m, a);
    GetPageRefines(m, a);
    FaultMaps(m, a, m', r);
    if a !in m.pt { FaultNew(m, a, w); }
    FaultPages(m, a, m', r, w);
  }

  // ---- Writing --------------------------------------------------------------------------------

  lemma FromMore(d: PageData, w: Written, sp: Space, off: nat, b: Byte)
    requires From(d, w, sp) && off < 4096
    ensures From(d[off := b], w + {(sp, b)}, sp)
  {
  }

  lemma FromGrows(d: PageData, w: Written, w': Written, sp: Space)
    requires From(d, w, sp) && w <= w'
    ensures From(d, w', sp)
  {
  }

  lemma WriteClean(m: Sys, w: Written, a: Page, off: nat, b: Byte)
    requires m.Ok() && Clean(m, w) && InRam(m.pt, a) && off < 4096
    ensures Clean(m.WriteByte(m.pt[a].fpn, off, b), w + {(a.sp, b)})
  {
    var m', w' := m.WriteByte(m.pt[a].fpn, off, b), w + {(a.sp, b)};
    WriteByteOk(m, a, off, b);
    forall f | f in m'.ram.free ensures Zero(m'.ram.Frame(f)) {
      assert f in m.ram.free && m.pt[a].fpn in m.ram.used && m'.ram.Frame(f) == m.ram.Frame(f);
    }
    forall c | c in m'.pt ensures m'.Content(c).Some? && From(m'.Content(c).value, w', c.sp) {
      if c == a {
        FromMore(m.Content(a).value, w, a.sp, off, b);
      } else {
        FromGrows(m.Content(c).value, w, w', c.sp);
      }
    }
  }

  // ---- Mapping fresh frames -------------------------------------------------------------------

  lemma MapRamClean(m: Sys, w: Written, sp: Space, first: nat, n: nat)
    requires m.Ok() && Clean(m, w) && sp in m.fifo && forall a :: a in m.pt ==> !InRange(a, sp, first, n)
    ensures Clean(MapRam(m, sp, first, n), w)
  {
    var m' := MapRam(m, sp, first, n);
    MapRamMaps(m, sp, first, n);
    MapRamFree(m, sp, first, n);
    forall f | f in m'.ram.free ensures Zero(m'.ram.Frame(f)) {
      assert Zero(m.ram.Frame(f));
    }
    forall c | c in m'.pt ensures m'.Content(c).Some? && From(m'.Content(c).value, w, c.sp) {
      if c in m.pt {
        assert m'.Content(c) == m.Content(c);
      } else {
        NewPageZero(m, w, sp, first, n, c);
      }
    }
  }

  lemma {:induction false} MapFramesRam(m: Sys, sp: Space, first: nat, frames: seq<nat>)
    ensures MapFrames(m, sp, first, frames).ram == m.ram
    decreases |frames|
  {
    if frames != [] { MapFramesRam(MapPage(m, Page(sp, first), frames[0]), sp, first + 1, frames[1..]); }
  }

  lemma MapRamFree(m: Sys, sp: Space, first: nat, n: nat)
    ensures var m' := MapRam(m, sp, first, n);
            m'.ram.pages == m.ram.pages && forall f :: f in m'.ram.free ==> f in m.ram.free
  {
    var (ram', frames) := AllocFrames(m.ram, n);
    if frames.Some? {
      MapFramesRam(m.(ram := ram'), sp, first, frames.value);
    } else {
      forall f | f in Reversed(m.ram.free) ensures f in m.ram.free {
        ReversedElements(m.ram.free, f);
      }
    }
  }

  lemma NewPageZero(m: Sys, w: Written, sp: Space, first: nat, n: nat, c: Page)
    requires m.Ok() && FreeZero(m.ram) && sp in m.fifo && forall a :: a in m.pt ==> !InRange(a, sp, first, n)
    requires c !in m.pt && c in MapRam(m, sp, first, n).pt
    ensures var m' := MapRam(m, sp, first, n);
            m'.Content(c).Some? && From(m'.Content(c).value, w, c.sp)
  {
    var m' := MapRam(m, sp, first, n);
    MapRamMaps(m, sp, first, n);
    assert n <= |m.ram.free| && InRange(c, sp, first, n);
    var i := c.pgn - first;
    var f := m.ram.free[..n][i];
    assert m'.PteOf(Page(sp, first + i)) == Word64.Present(f) && c == Page(sp, first + i);
    assert f == m.ram.free[i] && f in m.ram.free && Zero(m.ram.Frame(f));
    ZeroFrom(m.ram.Frame(f), w, sp);
  }

  lemma MapKernelPageClean(m: Sys, w: Written, pgn: nat)
    requires m.ram.Ok() && Clean(m, w) && m.ram.free != []
    ensures Clean(MapKernelPage(m, pgn), w) && MapKernelPage(m, pgn).ram.Ok()
  {
    var m' := MapKernelPage(m, pgn);
    m.ram.TakeOk();
    TakeFree(m.ram);
    ZeroFrom(m.ram.pages[m.ram.free[0]], w, Kernel);
    forall c | c in m'.pt ensures m'.Content(c).Some? && From(m'.Content(c).value, w, c.sp) {
      if c != Page(Kernel, pgn) { assert m'.Content(c) == m.Content(c); }
    }
  }

  lemma {:induction false} MapKernelClean(m: Sys, w: Written, pgn: nat, n: nat)
    requires m.ram.Ok() && Clean(m, w)
    ensures Clean(MapKernel(m, pgn, n).0, w)
    decreases n
  {
    if n > 0 && m.ram.free != [] {
      MapKernelPageClean(m, w, pgn);
      MapKernelClean(MapKernelPage(m, pgn), w, pgn + 1, n - 1);
    }
  }

  // ---- Steps and runs ---------------------------------------------------------------------------

  /** What is written after a step with outcome r. */
  function Noted(w: Written, op: Op, r: Outcome): Written {
    match op
    case Write(pid, _, _, b) => if r == Done then w + {(User(pid), b)} else w
    case KWrite(_, _, b) => if r == Done then w + {(Kernel, b)} else w
    case _ => w
  }

  lemma TouchClean(s: System, w: Written, l: Loc, frame: Option<nat>, write: Option<Byte>)
    requires s.mem.Ok() && Clean(s.mem, w) && FrameOf(s, l, frame)
    ensures var (s', r) := TouchFrame(s, frame, l.off, write);
            && (r == Done ==> write.Some? && Clean(s'.mem, w + {(l.page.sp, write.value)}))
            && (r != Done ==> s' == s)
            && (r.Value? ==> r.b == 0 || (l.page.sp, r.b) in w)
  {
    if frame.Some? {
      assert InRam(s.mem.pt, l.page) && s.mem.pt[l.page].fpn == frame.value;
      if write.Some? {
        WriteClean(s.mem, w, l.page, l.off, write.value);
      } else {
        assert From(s.mem.Content(l.page).value, w, l.page.sp);
      }
    }
  }

  /** What an access may leave behind and answer. */
  ghost predicate AccessClean(m: Sys, w: Written, sp: Space, write: Option<Byte>, r: Outcome) {
    && (r == Done ==> write.Some? && Clean(m, w + {(sp, write.value)}))
    && (r != Done ==> Clean(m, w))
    && (r.Value? ==> r.b == 0 || (sp, r.b) in w)
  }

  lemma UserClean(s: System, w: Written, pid: nat, rgid: int, off: nat, write: Option<Byte>)
    requires Inv(s) && pid in s.areas && Clean(s.mem, w)
    ensures var (s', r) := StepAccess(s, pid, rgid, off, write);
            AccessClean(s'.mem, w, User(pid), write, r)
  {
    var v := Resolve(s.areas[pid].sym, rgid, off);
    if v.Some? {
      var l := LocOf(User(pid), v.value);
      var (m, f) := s.mem.GetPage(l.page);
      assert m.Ok() && Clean(m, w) && FrameOf(s.(mem := m), l, f) by {
        UserPage(s, pid, rgid, off);
        GetPageRefines(s.mem, l.page);
        FaultClean(s.mem, l.page, w);
      }
      TouchClean(s.(mem := m), w, l, f, write);
    }
  }

  lemma KernelClean(s: System, w: Written, rgid: int, off: nat, write: Option<Byte>)
    requires s.mem.Ok() && Clean(s.mem, w)
    ensures var (s', r) := StepKAccess(s, rgid, off, write);
            AccessClean(s'.mem, w, Kernel, write, r)
  {
    var v := Resolve(s.ksym, rgid, off);
    if v.Some? {
      var l := LocOf(Kernel, v.value);
      var e := s.mem.PteOf(l.page);
      TouchClean(s, w, l, if e.Present? then Some(e.fpn) else None, write);
    }
  }

  lemma AllocClean(s: System, w: Written, pid: nat, rgid: int, size: nat)
    requires Inv(s) && Legal(s, Alloc(pid, rgid, size)) && Clean(s.mem, w)
    ensures Clean(StepAlloc(s, pid, rgid, size).0.mem, w)
  {
    if Regions.Grows(s.areas[pid], size) {
      GrowthUnmapped(s, pid, size);
      MapRamClean(s.mem, w, User(pid), s.areas[pid].vmEnd / 4096, PageCount(size));
    }
  }

  lemma KmallocClean(s: System, w: Written, rgid: nat, size: nat)
    requires s.mem.Ok() && Clean(s.mem, w)
    ensures Clean(StepKmalloc(s, rgid, size).0.mem, w)
  {
    MapKernelClean(s.mem, w, rgid * 1000, PageCount(size));
  }

  /** The space an access reads. */
  function SpaceOf(op: Op): Space { if op.Read? || op.Write? then User(op.pid) else Kernel }

  /** The step keeps memory clean, and answers zero or a byte of its own space. */
  ghost predicate StepsClean(s: System, op: Op, w: Written) {
    var (s', r) := Step(s, op);
    (Clean(s'.mem, Noted(w, op, r)) && (r.Value? ==> r.b == 0 || (SpaceOf(op), r.b) in w)) == true
  }

  lemma AccessStep(s: System, op: Op, w: Written)
    requires Inv(s) && Legal(s, op) && Clean(s.mem, w) && (op.Read? || op.Write?)
    ensures StepsClean(s, op, w)
  {
    match op
    case Read(pid, rgid, off) => UserClean(s, w, pid, rgid, off, None);
    case Write(pid, rgid, off, b) => UserClean(s, w, pid, rgid, off, Some(b));
  }

  lemma KAccessStep(s: System, op: Op, w: Written)
    requires Inv(s) && Clean(s.mem, w) && (op.KRead? || op.KWrite?)
    ensures StepsClean(s, op, w)
  {
    match op
    case KRead(rgid, off) => KernelClean(s, w, rgid, off, None);
    case KWrite(rgid, off, b) => KernelClean(s, w, rgid, off, Some(b));
  }

  lemma OtherStep(s: System, op: Op, w: Written)
    requires Inv(s) && Legal(s, op) && Clean(s.mem, w)
    requires op.Alloc? || op.Free? || op.Kmalloc? || op.PoolCreate? || op.CacheAlloc?
    ensures StepsClean(s, op, w)
  {
    match op
    case Alloc(pid, rgid, size) => AllocClean(s, w, pid, rgid, size);
    case Kmalloc(rgid, size) => KmallocClean(s, w, rgid, size);
    case PoolCreate(size, _, id) => KmallocClean(s, w, id, size);
    case _ =>
  }

  lemma StepClean(s: System, op: Op, w: Written)
    requires Inv(s) && Legal(s, op) && Clean(s.mem, w)
    ensures StepsClean(s, op, w)
  {
    if op.Read? || op.Write? {
      AccessStep(s, op, w);
    } else if op.KRead? || op.KWrite? {
      KAccessStep(s, op, w);
    } else {
      OtherStep(s, op, w);
    }
  }

  /** The bytes written successfully in each space by a run. */
  function WrittenBy(s: System, ops: seq<Op>, w: Written): Written
    decreases |ops|
  {
    if ops == [] then w else WrittenBy(Step(s, ops[0]).0, ops[1..], Noted(w, ops[0], Step(s, ops[0]).1))
  }

  lemma {:induction false} RunClean(s: System, ops: seq<Op>, w: Written)
    requires Inv(s) && MemoryRuns.LegalRun(s, ops) && Clean(s.mem, w)
    ensures Inv(MemoryRuns.After(s, ops)) && Clean(MemoryRuns.After(s, ops).mem, WrittenBy(s, ops, w))
    decreases |ops|
  {
    if ops != [] {
      var (s', r) := Step(s, ops[0]);
      StepInv(s, ops[0]);
      StepClean(s, ops[0], w);
      RunClean(s', ops[1..], Noted(w, ops[0], r));
    }
  }

  lemma BootClean(ramPages: nat, swapPages: nat, pids: set<nat>)
    ensures Clean(MemoryRuns.Boot(ramPages, swapPages, pids).mem, {})
  {
  }

  /**
    Isolation.  After any run of calls by any processes from start-up, whatever was evicted,
    swapped and handed on meanwhile, a byte that a call reads in a space is zero or was
    written before, successfully, in the same space.
   */
  lemma NothingLeaks(ramPages: nat, swapPages: nat, pids: set<nat>, ops: seq<Op>, op: Op)
    requires ramPages <= Word64.MAX_FRAMES && swapPages <= Word64.MAX_SWAP_FRAMES
    requires MemoryRuns.LegalRun(MemoryRuns.Boot(ramPages, swapPages, pids), ops + [op])
    ensures var s := MemoryRuns.Boot(ramPages, swapPages, pids);
            var r := Step(MemoryRuns.After(s, ops), op).1;
            r.Value? ==> r.b == 0 || (SpaceOf(op), r.b) in WrittenBy(s, ops, {})
  {
    var s := MemoryRuns.Boot(ramPages, swapPages, pids);
    MemoryRuns.LegalPrefix(s, ops, op);
    MemoryRuns.BootInv(ramPages, swapPages, pids);
    BootClean(ramPages, swapPages, pids);
    RunClean(s, ops, {});
    StepClean(MemoryRuns.After(s, ops), op, WrittenBy(s, ops, {}));
  }

  /** What it means to have been written: some call of the run did it, in that space. */
  lemma {:induction false} WrittenMeans(s: System, ops: seq<Op>, w: Written, sp: Space, b: Byte) returns (k: nat)
    requires (sp, b) in WrittenBy(s, ops, w) && (sp, b) !in w
    ensures k < |ops| && SpaceOf(ops[k]) == sp && (ops[k].Write? || ops[k].KWrite?) && ops[k].b == b
    ensures Step(MemoryRuns.After(s, ops[..k]), ops[k]).1 == Done
    decreases |ops|
  {
    var (s', r) := Step(s, ops[0]);
    if (sp, b) in Noted(w, ops[0], r) {
      k := 0;
      assert ops[..0] == [];
    } else {
      var j := WrittenMeans(s', ops[1..], Noted(w, ops[0], r), sp, b);
      k := j + 1;
      assert ops[..k][1..] == ops[1..][..j];
    }
  }
}
