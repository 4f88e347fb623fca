/**
  The memory routines of src/libmem.c and the parts of src/mm64.c and src/mm-vm.c they
  call, in place: two devices, and per address space a radix page table, a FIFO list, an
  area with its free list, and a symbol table.  The ghost field s holds the value the
  objects stand for, and every routine is proved to take the step that modules Paging and
  MemorySystem define for it.  Simulate puts them together: a run of calls by any processes
  takes the objects through the states of the run, so all that is proved of runs holds of
  them.
 */
module LibMem {
  import opened Collections
  import opened CNumbers
  import opened Word64
  import opened Devices
  import opened PageTables
  import opened Paging
  import opened Regions
  import opened MemorySystem
  import opened Memphys
  import opened LibMemSteps
  import opened VmAreas
  import MemoryRuns
  import UserCopy

  /** mm_struct: the page table, the FIFO list (newest page first), the only area, the
      symbol table and, in the kernel's, the table of cache pools. */
  class MmStruct {
    const table: PageTable
    var fifo: seq<nat>
    var vmEnd: nat
    var sbrk: nat
    var freerg: seq<Rg>
    var symrgtbl: seq<Rg>
    var kcpooltbl: Option<seq<Pool>>

    function Contents(): Area
      reads this
    {
      Area(vmEnd, sbrk, freerg, symrgtbl)
    }

    /** init_mm */
    constructor ()
      ensures fresh(table) && table.Valid() && table.pte == map[]
      ensures fifo == [] && Contents() == Fresh() && kcpooltbl == None
    {
      table := new PageTable();
      fifo := [];
      vmEnd, sbrk := 0, 0;
      freerg := [Rg(0, 0)];
      symrgtbl := seq(SYMBOLS, _ => Rg(0, 0));
      kcpooltbl := None;
    }

    /** The walk of find_victim_page to the tail of the list, and the unlinking. */
    method FindVictimPage() returns (pgn: Option<nat>)
      modifies this`fifo
      ensures pgn == if old(fifo) == [] then None else Some(old(fifo)[|old(fifo)| - 1])
      ensures fifo == if old(fifo) == [] then [] else old(fifo)[..|old(fifo)| - 1]
    {
      if fifo == [] {
        return None;
      }
      var pg := 0;
      while pg + 1 < |fifo|
        invariant pg < |fifo|
      {
        pg := pg + 1;
      }
      pgn := Some(fifo[pg]);
      fifo := fifo[..pg];
    }

    /** get_free_vmrg_area, whose size is an int: first fit, cutting the region off the front
        of the one found. */
    method GetFreeVmrgArea(t: int) returns (rg: Option<Rg>)
      modifies this`freerg
      ensures var i := FirstFit(old(freerg), t);
              if i < |old(freerg)| then
                && rg == Some(Rg(old(freerg)[i].start, old(freerg)[i].Cut(t)))
                && freerg == Carved(old(freerg), i, t)
              else rg == None && freerg == old(freerg)
    {
      var i := 0;
      while i < |freerg| && !(Wrap(freerg[i].start + t) <= freerg[i].end)
        invariant i <= |freerg| && forall j :: 0 <= j < i ==> !freerg[j].Fits(t)
      {
        i := i + 1;
      }
      assert i == FirstFit(freerg, t);
      if i == |freerg| {
        return None;
      }
      var cut := Wrap(freerg[i].start + t);
      rg := Some(Rg(freerg[i].start, cut));
      if cut < freerg[i].end {
        freerg := freerg[i := Rg(cut, freerg[i].end)];
      } else if i + 1 < |freerg| {
        CloneDrops(freerg, i);
        freerg := freerg[i := freerg[i + 1]];              // clone the successor
        freerg := freerg[..i + 1] + freerg[i + 2..];       // and drop it
      } else {
        freerg := freerg[i := Rg(freerg[i].end, freerg[i].end)];
      }
    }

    /** A free region becomes the region of slot rgid. */
    method TakeFreeRegion(rgid: nat, size: nat) returns (addr: Option<nat>)
      requires rgid < |symrgtbl|
      modifies this`freerg, this`symrgtbl
      ensures addr.Some? <==> !Grows(old(Contents()), size)
      ensures Contents() == if addr.Some? then Regions.Alloc(old(Contents()), rgid, size) else old(Contents())
      ensures addr.Some? ==> addr.value == symrgtbl[rgid].start
    {
      var rg := GetFreeVmrgArea(AsInt(size));
      if rg.None? {
        return None;
      }
      symrgtbl := symrgtbl[rgid := rg.value];
      return Some(rg.value.start);
    }

    /** The body of __kmem_cache_alloc: bump the pool, enter the slot, and undo the bump if
        the table index is bad. */
    method TakeSlot(rgid: int, id: int) returns (done: bool)
      requires kcpooltbl.Some?
      modifies this`kcpooltbl, this`symrgtbl
      ensures done <==> CanTake(old(kcpooltbl).value, old(symrgtbl), rgid, id)
      ensures !done ==> kcpooltbl == old(kcpooltbl) && symrgtbl == old(symrgtbl)
      ensures done ==> var pools := old(kcpooltbl).value;
                       && kcpooltbl == Some(pools[id := Bumped(pools[id])])
                       && symrgtbl == old(symrgtbl)[rgid := SlotOf(pools[id])]
    {
      var pools := kcpooltbl.value;
      if id < 0 || id >= POOLS || id >= |pools| {
        return false;
      }
      var p := pools[id];
      if p.align == 0 || p.size < p.align {
        return false;
      }
      kcpooltbl := Some(pools[id := Bumped(p)]);
      if 0 <= rgid < |symrgtbl| {
        symrgtbl := symrgtbl[rgid := Rg(p.storage, p.storage + p.align)];
        return true;
      }
      var bumped := kcpooltbl.value[id];
      bumped := bumped.(storage := bumped.storage - p.align, size := bumped.size + p.align, slots := p.slots);
      kcpooltbl := Some(kcpooltbl.value[id := bumped]);
      assert kcpooltbl.value == pools;
      return false;
    }

    /** The checks every access makes, and the virtual address. */
    method CheckedAddress(rgid: int, off: nat) returns (v: Option<nat>)
      ensures v == Resolve(symrgtbl, rgid, off)
    {
      if rgid < 0 || rgid >= |symrgtbl| {
        return None;
      }
      var rg := symrgtbl[rgid];
      if rg.start == 0 && rg.end == 0 {
        return None;
      }
      if rg.start + off >= rg.end {
        return None;
      }
      return Some(rg.start + off);
    }

    /** enlist_vm_freerg_list */
    method EnlistVmFreerg(rg: Rg)
      modifies this`freerg
      ensures freerg == Regions.Enlist(old(freerg), rg)
    {
      if rg.start >= rg.end {
        return;
      }
      freerg := [rg] + freerg;
    }
  }

  /** The radix tree of a space stores the entries the flat map has for it. */
  ghost predicate TableHolds(table: PageTable, pt: map<Page, Pte>, sp: Space)
    reads table
  {
    (table.Valid() && Matches(table.pte, pt, sp)) == true
  }

  /** The fields of mm are those of space sp in s. */
  ghost predicate FieldsHold(s: System, mm: MmStruct, sp: Space)
    reads mm
  {
    (&& sp in s.mem.fifo && s.mem.fifo[sp].list == mm.fifo
     && match sp
        case Kernel => s.ksym == mm.symrgtbl && s.pools == mm.kcpooltbl
        case User(pid) => pid in s.areas && s.areas[pid] == mm.Contents()) == true
  }

  ghost predicate Holds(s: System, mm: MmStruct, sp: Space)
    reads mm, mm.table
  {
    TableHolds(mm.table, s.mem.pt, sp) && FieldsHold(s, mm, sp)
  }

  lemma ZeroPages(s: seq<Byte>, n: nat)
    requires n * 4096 <= |s| && forall i :: 0 <= i < |s| ==> s[i] == 0
    ensures Device(Numbers(n), [], PagesIn(s, n)) == MemoryRuns.Formatted(n)
  {
    forall f | 0 <= f < n ensures PagesIn(s, n)[f] == MemoryRuns.Formatted(n).pages[f] {
      assert s[f * 4096..f * 4096 + 4096] == seq(4096, _ => 0);
    }
    assert Numbers(n) == MemoryRuns.Formatted(n).free;
    assert PagesIn(s, n) == MemoryRuns.Formatted(n).pages;
  }

  /** init_memphy: a zeroed device with all maxsz / pagesz frames free.  Frames are addressed
      at 4096 bytes, so the device is usable if all of them fit the storage. */
  method InitMemphy(maxsz: nat, pagesz: nat) returns (m: Memphy)
    requires pagesz > 0
    ensures fresh(m) && fresh(m.storage) && m.storage.Length == maxsz
    ensures m.free == Numbers(maxsz / pagesz) && m.used == []
    ensures forall i :: 0 <= i < maxsz ==> m.storage[i] == 0
    ensures FramesFit(maxsz, pagesz) ==> m.Valid() && m.d == MemoryRuns.Formatted(maxsz / pagesz)
  {
    m := new Memphy(maxsz);
    if FramesFit(maxsz, pagesz) {
      ZeroPages(m.storage[..], maxsz / pagesz);
    }
    Memphy.Quotient(maxsz, pagesz);
    var ok := m.Format(pagesz);
  }

  /** So the structures of a space keep describing it while others take steps. */
  lemma HoldsStays(s: System, s': System, mm: MmStruct, sp: Space)
    requires Holds(s, mm, sp) && SpaceSame(s, s', sp)
    ensures Holds(s', mm, sp)
  {
  }

  /** The overlap test of a space with one area asks only for an end above the old one. */
  lemma OnlyArea(a: Area, inc: nat)
    requires 0 < inc < TWO64 && a.vmEnd < TWO64
    ensures (exists i: nat :: Allowed([Vma(0, 0, a.vmEnd)], 0, i, Align64(inc))) <==> Grow(a, inc) != a
    ensures Grow(a, inc) != a ==> Wrap(a.vmEnd + Align64(inc)) == Grow(a, inc).vmEnd
  {
    Align64Is(inc);
    WrapIs(a.vmEnd + Align64(inc));
    assert Allowed([Vma(0, 0, a.vmEnd)], 0, 0, Align64(inc)) <==> Grow(a, inc) != a;
  }

  /** A space as init_mm makes it is an empty space of the initial state. */
  lemma BootHolds(mm: MmStruct, sp: Space, ramPages: nat, swapPages: nat, pids: set<nat>)
    requires mm.table.Valid() && mm.table.pte == map[]
    requires mm.fifo == [] && mm.Contents() == Fresh() && mm.kcpooltbl == None
    requires sp == Kernel || sp.pid in pids
    ensures Holds(MemoryRuns.Boot(ramPages, swapPages, pids), mm, sp)
  {
  }

  class Krnl {
    const mram: Memphy
    const mswp: Memphy
    ghost var s: System

    ghost predicate DevicesHold(ram: Device, swp: Device)
      reads mram, mram.storage, mswp, mswp.storage
    {
      (&& mram != mswp && mram.storage != mswp.storage
       && mram.Valid() && mswp.Valid() && ram == mram.d && swp == mswp.d) == true
    }

    ghost predicate Valid()
      reads this, mram, mram.storage, mswp, mswp.storage
    {
      DevicesHold(s.mem.ram, s.mem.swp)
    }

    /** Two fresh devices, formatted at the size frames are addressed with. */
    constructor (ramBytes: nat, swapBytes: nat, ghost pids: set<nat>)
      ensures Valid() && s == MemoryRuns.Boot(ramBytes / 4096, swapBytes / 4096, pids)
      ensures fresh(mram) && fresh(mram.storage) && fresh(mswp) && fresh(mswp.storage)
    {
      WhichFormatFits(ramBytes);
      WhichFormatFits(swapBytes);
      var ram := InitMemphy(ramBytes, 4096);
      var swp := InitMemphy(swapBytes, 4096);
      mram, mswp := ram, swp;
      s := MemoryRuns.Boot(ramBytes / 4096, swapBytes / 4096, pids);
    }

    // ---- Single moves -------------------------------------------------------------------

    /** pte_get_entry */
    method GetEntry(mm: MmStruct, ghost sp: Space, pgn: nat) returns (e: Pte)
      requires Valid() && Holds(s, mm, sp) && pgn < MAX_PGN
      modifies mm.table
      ensures Valid() && Holds(s, mm, sp) && e == s.mem.PteOf(Page(sp, pgn))
    {
      e := mm.table.PteGetEntry(pgn);
      assert At(mm.table.pte, pgn) == PteIn(s.mem.pt, Page(sp, pgn));
    }

    /** A call of get_pte_ptr that allocates what the page needs; no entry changes. */
    method WalkFirst(mm: MmStruct, ghost sp: Space, pgn: nat)
      requires Valid() && Holds(s, mm, sp) && pgn < MAX_PGN
      modifies mm.table
      ensures Valid() && Holds(s, mm, sp)
    {
      var leaf, slot := mm.table.GetPtePtr(pgn, true);
    }

    /** pte_set_fpn */
    method SetFpn(mm: MmStruct, ghost sp: Space, pgn: nat, fpn: nat)
      requires Valid() && Holds(s, mm, sp) && pgn < MAX_PGN && fpn < MAX_FRAMES
      modifies this`s, mm.table
      ensures Valid() && Holds(s, mm, sp)
      ensures s == old(s).(mem := old(s).mem.(pt := old(s).mem.pt[Page(sp, pgn) := Present(fpn)]))
    {
      ghost var was := mm.table.pte;
      mm.table.PteSetFpn(pgn, fpn);
      SmallFrame(fpn);
      MatchesUpdate(was, s.mem.pt, sp, pgn, Present(fpn));
      s := s.(mem := s.mem.(pt := s.mem.pt[Page(sp, pgn) := Present(fpn)]));
    }

    /** pte_set_swap */
    method SetSwap(mm: MmStruct, ghost sp: Space, pgn: nat, off: nat)
      requires Valid() && Holds(s, mm, sp) && pgn < MAX_PGN && off < MAX_SWAP_FRAMES
      modifies this`s, mm.table
      ensures Valid() && Holds(s, mm, sp)
      ensures s == old(s).(mem := old(s).mem.(pt := old(s).mem.pt[Page(sp, pgn) := Swapped(off)]))
    {
      ghost var was := mm.table.pte;
      mm.table.PteSetSwap(pgn, 0, off);
      SmallOffset(off);
      MatchesUpdate(was, s.mem.pt, sp, pgn, Swapped(off));
      s := s.(mem := s.mem.(pt := s.mem.pt[Page(sp, pgn) := Swapped(off)]));
    }

    /** enlist_pgn_node */
    method EnlistPgn(mm: MmStruct, ghost sp: Space, pgn: nat)
      requires Valid() && Holds(s, mm, sp)
      modifies this`s, mm`fifo
      ensures Valid() && Holds(s, mm, sp)
      ensures s == old(s).(mem := old(s).mem.(fifo := old(s).mem.fifo[sp := old(s).mem.List(sp).Enlist(pgn)]))
    {
      mm.fifo := [pgn] + mm.fifo;
      s := s.(mem := s.mem.(fifo := s.mem.fifo[sp := s.mem.List(sp).Enlist(pgn)]));
    }

    /** find_victim_page */
    method FindVictim(mm: MmStruct, ghost sp: Space) returns (pgn: Option<nat>)
      requires Valid() && Holds(s, mm, sp)
      modifies this`s, mm`fifo
      ensures Valid() && Holds(s, mm, sp)
      ensures pgn.Some? <==> old(s).mem.List(sp).list != []
      ensures pgn.None? ==> s == old(s)
      ensures pgn.Some? ==> pgn.value == old(s).mem.List(sp).Victim() && s == old(s).(mem := s.mem)
      ensures pgn.Some? ==> s.mem == old(s).mem.PopVictim(sp, false)
    {
      assert FieldsHold(s, mm, sp);
      pgn := mm.FindVictimPage();
      assert DevicesHold(s.mem.ram, s.mem.swp) && TableHolds(mm.table, s.mem.pt, sp);
      if pgn.Some? {
        PopFields(s, sp);
        ghost var popped := s.mem.PopVictim(sp, false);
        assert TableHolds(mm.table, popped.pt, sp) && FieldsHold(s.(mem := popped), mm, sp);
        s := s.(mem := popped);
      }
    }

    method GetFreeRam() returns (fpn: Option<nat>)
      requires Valid()
      modifies this`s, mram
      ensures Valid()
      ensures var ram := old(s).mem.ram;
              if ram.free == [] then fpn == None && s == old(s)
              else fpn == Some(ram.free[0]) && s == old(s).(mem := old(s).mem.(ram := ram.Take()))
    {
      fpn := mram.GetFreefp();
      s := s.(mem := s.mem.(ram := mram.d));
    }

    method GetFreeSwap() returns (fpn: Option<nat>)
      requires Valid()
      modifies this`s, mswp
      ensures Valid()
      ensures var swp := old(s).mem.swp;
              if swp.free == [] then fpn == None && s == old(s)
              else fpn == Some(swp.free[0]) && s == old(s).(mem := old(s).mem.(swp := swp.Take()))
    {
      fpn := mswp.GetFreefp();
      s := s.(mem := s.mem.(swp := mswp.d));
    }

    method PutFreeSwap(fpn: nat)
      requires Valid()
      modifies this`s, mswp
      ensures Valid() && s == old(s).(mem := old(s).mem.(swp := old(s).mem.swp.Give(fpn)))
    {
      var ok := mswp.PutFreefp(fpn);
      s := s.(mem := s.mem.(swp := mswp.d));
    }

    method PutFreeRam(fpn: nat)
      requires Valid()
      modifies this`s, mram
      ensures Valid() && s == old(s).(mem := old(s).mem.(ram := old(s).mem.ram.Give(fpn)))
    {
      var ok := mram.PutFreefp(fpn);
      s := s.(mem := s.mem.(ram := mram.d));
    }

    /** __mm_swap_page: copy a RAM frame to swap. */
    method MmSwapPage(f: nat, o: nat)
      requires Valid() && f < |s.mem.ram.pages| && o < |s.mem.swp.pages|
      modifies this`s, mswp`d, mswp.storage
      ensures Valid() && s == old(s).(mem := old(s).mem.(swp := old(s).mem.swp.Put(o, old(s).mem.ram.Frame(f))))
    {
      SwapCopyPage(mram, f, mswp, o);
      s := s.(mem := s.mem.(swp := mswp.d));
    }

    /** Copy a swap frame to RAM. */
    method SwapIn(o: nat, f: nat)
      requires Valid() && f < |s.mem.ram.pages| && o < |s.mem.swp.pages|
      modifies this`s, mram`d, mram.storage
      ensures Valid() && s == old(s).(mem := old(s).mem.(ram := old(s).mem.ram.Put(f, old(s).mem.swp.Frame(o))))
    {
      SwapCopyPage(mswp, o, mram, f);
      s := s.(mem := s.mem.(ram := mram.d));
    }

    // ---- Demand paging --------------------------------------------------------------------

    /** Move page v, just taken from the FIFO list, to swap; the result is its frame. */
    method EvictPage(mm: MmStruct, ghost sp: Space, v: nat) returns (t: Option<nat>)
      requires Valid() && Holds(s, mm, sp) && CanEvict(s.mem, Page(sp, v))
      modifies this`s, mswp, mswp.storage, mm.table
      ensures Valid() && Holds(s, mm, sp)
      ensures t.None? <==> old(s).mem.swp.free == []
      ensures t.None? ==> s == old(s)
      ensures t.Some? ==> t.value == old(s).mem.FrameNo(Page(sp, v)) && s == old(s).(mem := s.mem)
      ensures t.Some? ==> s.mem == old(s).mem.SwapOut(Page(sp, v), t.value)
    {
      var e := GetEntry(mm, sp, v);
      var o := GetFreeSwap();
      if o.None? {
        return None;
      }
      MmSwapPage(e.fpn, o.value);
      SetSwap(mm, sp, v, o.value);
      return Some(e.fpn);
    }

    /** find_victim_page and the eviction; on full swap the victim has left the list. */
    method EvictVictim(mm: MmStruct, ghost sp: Space) returns (t: Option<nat>)
      requires Valid() && Holds(s, mm, sp) && CanAcquire(s.mem, sp)
      modifies this`s, mswp, mswp.storage, mm`fifo, mm.table
      ensures Valid() && Holds(s, mm, sp) && s == old(s).(mem := s.mem)
      ensures s.mem == AcquireByEviction(old(s).mem, sp).0 && t == AcquireByEviction(old(s).mem, sp).1
    {
      EvictionParts(s.mem, sp);
      var v := FindVictim(mm, sp);
      if v.None? {
        return None;
      }
      t := EvictPage(mm, sp, v.value);
      if t.None? {
        s := s.(mem := old(s).mem.PopVictim(sp, true));
      }
    }

    /** The first half of pg_getpage: a free frame, or the frame of an evicted page. */
    method AcquireFrame(mm: MmStruct, ghost sp: Space) returns (t: Option<nat>)
      requires Valid() && Holds(s, mm, sp) && CanAcquire(s.mem, sp)
      modifies this`s, mram, mswp, mswp.storage, mm`fifo, mm.table
      ensures Valid() && Holds(s, mm, sp) && s == old(s).(mem := s.mem)
      ensures s.mem == Acquire(old(s).mem, sp).0 && t == Acquire(old(s).mem, sp).1
    {
      t := GetFreeRam();
      if t.None? {
        t := EvictVictim(mm, sp);
      }
    }

    /** The second half: bring the page in and enter it. */
    method InstallPage(mm: MmStruct, ghost sp: Space, pgn: nat, e: Pte, t: nat)
      requires Valid() && Holds(s, mm, sp) && pgn < MAX_PGN
      requires e == s.mem.PteOf(Page(sp, pgn)) && CanInstallPage(s.mem, Page(sp, pgn), t)
      modifies this`s, mram`d, mram.storage, mswp, mm`fifo, mm.table
      ensures Valid() && Holds(s, mm, sp) && s == old(s).(mem := old(s).mem.Install(Page(sp, pgn), t))
    {
      if e.Swapped? {
        SwapIn(e.off, t);
        PutFreeSwap(e.off);
      }
      SetFpn(mm, sp, pgn, t);
      EnlistPgn(mm, sp, pgn);
    }

    /** pg_getpage */
    method PgGetPage(mm: MmStruct, ghost sp: Space, pgn: nat) returns (fpn: Option<nat>)
      requires Valid() && Holds(s, mm, sp) && CanGetPage(s.mem, Page(sp, pgn))
      modifies this`s, mram, mram.storage, mswp, mswp.storage, mm`fifo, mm.table
      ensures Valid() && Holds(s, mm, sp) && PageGot(old(s), Page(sp, pgn), s, fpn)
    {
      var e := GetEntry(mm, sp, pgn);
      if e.Present? {
        GotPresent(s, Page(sp, pgn));
        return Some(e.fpn);
      }
      ghost var before := s;
      fpn := AcquireFrame(mm, sp);
      ghost var half := s;
      if fpn.Some? {
        InstallPage(mm, sp, pgn, e, fpn.value);
      }
      GotInHalves(before, Page(sp, pgn), half, fpn, s);
    }

    // ---- Reading and writing ----------------------------------------------------------------

    /** The common front of the two user access routines: the checks and the page; off in
        the page is the rest of the address. */
    method UserFrame(mm: MmStruct, ghost pid: nat, rgid: int, off: nat) returns (fpn: Option<nat>, rest: nat)
      requires Valid() && Holds(s, mm, User(pid)) && CanAccess(s, pid, rgid, off)
      modifies this`s, mram, mram.storage, mswp, mswp.storage, mm`fifo, mm.table
      ensures Valid() && Holds(s, mm, User(pid)) && FrameFound(old(s), pid, rgid, off, s, fpn, rest)
    {
      assert FieldsHold(s, mm, User(pid));
      var v := mm.CheckedAddress(rgid, off);
      if v.None? {
        return None, 0;
      }
      var vaddr := v.value;
      fpn := PgGetPage(mm, User(pid), vaddr / 4096);
      rest := vaddr % 4096;
    }

    /** __read_user_mem */
    method ReadUserMem(mm: MmStruct, ghost pid: nat, rgid: int, off: nat) returns (r: Outcome)
      requires Valid() && Holds(s, mm, User(pid)) && CanAccess(s, pid, rgid, off)
      modifies this`s, mram, mram.storage, mswp, mswp.storage, mm`fifo, mm.table
      ensures Valid() && Holds(s, mm, User(pid))
      ensures Took(old(s), Read(pid, rgid, off), s, r)
    {
      var fpn, rest := UserFrame(mm, pid, rgid, off);
      FrameFits(old(s), pid, rgid, off, s, fpn, rest);
      r := ReadFound(fpn, rest);
      FrameRead(old(s), pid, rgid, off, s, fpn, rest, r);
    }

    /** __write_user_mem */
    method WriteUserMem(mm: MmStruct, ghost pid: nat, rgid: int, off: nat, value: Byte) returns (r: Outcome)
      requires Valid() && Holds(s, mm, User(pid)) && CanAccess(s, pid, rgid, off)
      modifies this`s, mram, mram.storage, mswp, mswp.storage, mm`fifo, mm.table
      ensures Valid() && Holds(s, mm, User(pid))
      ensures Took(old(s), Write(pid, rgid, off, value), s, r)
    {
      var fpn, rest := UserFrame(mm, pid, rgid, off);
      ghost var found := s;
      FrameFits(old(s), pid, rgid, off, found, fpn, rest);
      if fpn.Some? {
        WriteRam(fpn.value, rest, value);
      }
      FrameWritten(old(s), pid, rgid, off, found, fpn, rest, value, s);
      r := if fpn.None? then Failed else Done;
    }

    /** The end of the two read routines. */
    method ReadFound(fpn: Option<nat>, rest: nat) returns (r: Outcome)
      requires Valid() && rest < 4096 && (fpn.Some? ==> fpn.value < |s.mem.ram.pages|)
      ensures FoundValue(s, fpn, rest, r)
    {
      if fpn.None? {
        return Failed;
      }
      var b := ReadRam(fpn.value, rest);
      return Value(b);
    }

    method ReadRam(fpn: nat, off: nat) returns (value: Byte)
      requires Valid() && fpn < |s.mem.ram.pages| && off < 4096
      ensures value == s.mem.ram.Frame(fpn)[off]
    {
      AddressParts(fpn, off);
      value := mram.Read(fpn * 4096 + off);
    }

    method WriteRam(fpn: nat, off: nat, value: Byte)
      requires Valid() && fpn < |s.mem.ram.pages| && off < 4096
      modifies this`s, mram`d, mram.storage
      ensures Valid() && s == old(s).(mem := old(s).mem.WriteByte(fpn, off, value))
    {
      AddressParts(fpn, off);
      mram.Write(fpn * 4096 + off, value);
      s := s.(mem := s.mem.(ram := mram.d));
    }

    /** The common front of the two kernel access routines: an absent page is an error. */
    method KernelFrame(kmm: MmStruct, rgid: int, off: nat) returns (fpn: Option<nat>, rest: nat)
      requires Valid() && Holds(s, kmm, Kernel) && CanKAccess(s, rgid, off)
      modifies kmm.table
      ensures Valid() && Holds(s, kmm, Kernel) && KFrameFound(s, rgid, off, fpn, rest)
    {
      assert FieldsHold(s, kmm, Kernel);
      var v := kmm.CheckedAddress(rgid, off);
      if v.None? {
        return None, 0;
      }
      var vaddr := v.value;
      rest := vaddr % 4096;
      var e := GetEntry(kmm, Kernel, vaddr / 4096);
      fpn := if e.Present? then Some(e.fpn) else None;
    }

    /** __read_kernel_mem */
    method ReadKernelMem(kmm: MmStruct, rgid: int, off: nat) returns (r: Outcome)
      requires Valid() && Holds(s, kmm, Kernel) && CanKAccess(s, rgid, off)
      modifies kmm.table
      ensures Valid() && Holds(s, kmm, Kernel) && Took(s, KRead(rgid, off), s, r)
    {
      var fpn, rest := KernelFrame(kmm, rgid, off);
      KFrameFits(s, rgid, off, fpn, rest);
      r := ReadFound(fpn, rest);
      KFrameRead(s, rgid, off, fpn, rest, r);
    }

    /** __write_kernel_mem */
    method WriteKernelMem(kmm: MmStruct, rgid: int, off: nat, value: Byte) returns (r: Outcome)
      requires Valid() && Holds(s, kmm, Kernel) && CanKAccess(s, rgid, off)
      modifies this`s, mram`d, mram.storage, kmm.table
      ensures Valid() && Holds(s, kmm, Kernel) && Took(old(s), KWrite(rgid, off, value), s, r)
    {
      var fpn, rest := KernelFrame(kmm, rgid, off);
      KFrameFits(s, rgid, off, fpn, rest);
      if fpn.Some? {
        WriteRam(fpn.value, rest, value);
      }
      KFrameWritten(old(s), rgid, off, fpn, rest, value, s);
      r := if fpn.None? then Failed else Done;
    }

    // ---- Mapping fresh frames ------------------------------------------------------------------

    /** alloc_pages_range from an empty list: collect n frames, or give all of them back. */
    method AllocPagesRange(n: nat) returns (frames: Option<seq<nat>>)
      requires Valid() && s.mem.ram.Ok()
      modifies this`s, mram
      ensures Valid()
      ensures s == old(s).(mem := old(s).mem.(ram := AllocFrames(old(s).mem.ram, n).0))
      ensures frames == AllocFrames(old(s).mem.ram, n).1
    {
      ghost var d := s.mem.ram;
      var list := [];
      AllocStep(d, 0);
      for pgit := 0 to n
        invariant Valid() && pgit <= |d.free| && list == d.free[..pgit]
        invariant s == old(s).(mem := old(s).mem.(ram := AllocFrames(d, pgit).0))
      {
        AllocStep(d, pgit);
        var fpn := GetFreeRam();
        if fpn.None? {
          Rollback(d, list);
          return None;
        }
        list := list + [fpn.value];
      }
      return Some(list);
    }

    /** Return the collected frames, first to last. */
    method Rollback(ghost d: Device, list: seq<nat>)
      requires Valid() && d.Ok() && list == d.free && s.mem.ram == AllocFrames(d, |list|).0
      modifies this`s, mram
      ensures Valid() && s == old(s).(mem := old(s).mem.(ram := d.(free := Reversed(d.free))))
    {
      RollbackStep(d, 0);
      for i := 0 to |list|
        invariant Valid() && s == old(s).(mem := old(s).mem.(ram := RolledBack(d, i)))
      {
        RollbackStep(d, i);
        PutFreeRam(list[i]);
      }
      RollbackStep(d, |list|);
    }

    method VmapPage(mm: MmStruct, ghost sp: Space, pgn: nat, fpn: nat)
      requires Valid() && Holds(s, mm, sp) && pgn < MAX_PGN && fpn < MAX_FRAMES
      modifies this`s, mm`fifo, mm.table
      ensures Valid() && Holds(s, mm, sp) && s == old(s).(mem := s.mem)
      ensures s.mem == MapPage(old(s).mem, Page(sp, pgn), fpn)
    {
      SetFpn(mm, sp, pgn, fpn);
      EnlistPgn(mm, sp, pgn);
    }

    /** The loop of vmap_page_range. */
    method VmapPages(mm: MmStruct, ghost sp: Space, first: nat, frames: seq<nat>)
      requires Valid() && Holds(s, mm, sp) && first + |frames| <= MAX_PGN
      requires forall i :: 0 <= i < |frames| ==> frames[i] < MAX_FRAMES
      modifies this`s, mm`fifo, mm.table
      ensures Valid() && Holds(s, mm, sp) && s == old(s).(mem := s.mem)
      ensures s.mem == MapFrames(old(s).mem, sp, first, frames)
    {
      ghost var end := MapFrames(s.mem, sp, first, frames);
      MapLoopStart(s.mem, sp, first, frames);
      for pgit := 0 to |frames|
        invariant Valid() && Holds(s, mm, sp) && s == old(s).(mem := s.mem)
        invariant MapLeadsTo(s.mem, sp, first, frames, pgit, end)
      {
        ghost var before := s.mem;
        var pgn, fpn := first + pgit, frames[pgit];
        VmapPage(mm, sp, pgn, fpn);
        MapLoopStep(before, sp, first, frames, pgit, pgn, fpn, s.mem, end);
      }
      MapLoopEnd(s.mem, sp, first, frames, end);
    }

    /** vmap_page_range: one page after the other until the pages or the frames run out; the
        result is the region that was mapped. */
    method VmapPageRange(mm: MmStruct, ghost sp: Space, first: nat, pgnum: nat, frames: seq<nat>) returns (rg: Rg)
      requires Valid() && Holds(s, mm, sp) && first + pgnum <= MAX_PGN
      requires forall i :: 0 <= i < |frames| ==> frames[i] < MAX_FRAMES
      modifies this`s, mm`fifo, mm.table
      ensures Valid() && Holds(s, mm, sp) && s == old(s).(mem := s.mem)
      ensures var n := if pgnum < |frames| then pgnum else |frames|;
              s.mem == MapFrames(old(s).mem, sp, first, frames[..n]) && rg == Rg(first * 4096, (first + n) * 4096)
    {
      var n := if pgnum < |frames| then pgnum else |frames|;
      VmapPages(mm, sp, first, frames[..n]);
      return Rg(first * 4096, (first + n) * 4096);
    }

    /** vm_map_ram; false stands for its result -1. */
    method VmMapRam(mm: MmStruct, ghost sp: Space, first: nat, n: nat) returns (ok: bool)
      requires Valid() && Holds(s, mm, sp) && first + n <= MAX_PGN && RamFits(s.mem)
      modifies this`s, mram, mm`fifo, mm.table
      ensures Valid() && Holds(s, mm, sp) && s == old(s).(mem := MapRam(old(s).mem, sp, first, n))
      ensures ok <==> n <= |old(s).mem.ram.free|
    {
      FreeFramesFit(s.mem, n);
      var frames := AllocPagesRange(n);
      if frames.None? {
        return false;
      }
      assert frames.value[..n] == frames.value;
      var rg := VmapPageRange(mm, sp, first, n, frames.value);
      return true;
    }

    // ---- User regions -----------------------------------------------------------------------------

    /** inc_vma_limit on the only area of a process; false stands for its result -1. */
    method IncVmaLimit(mm: MmStruct, ghost pid: nat, inc: nat) returns (ok: bool)
      requires Valid() && Holds(s, mm, User(pid)) && CanExtend(s, pid, inc)
      modifies this`s, mram, mm, mm.table
      ensures Valid() && Holds(s, mm, User(pid)) && s == Incremented(old(s), pid, inc)
      ensures ok <==> inc == 0 || Grow(AreaOf(old(s), pid), inc) != AreaOf(old(s), pid)
    {
      assert FieldsHold(s, mm, User(pid));
      if inc == 0 {
        return true;
      }
      var incAmt := Align64(inc);
      var oldEnd := mm.vmEnd;
      OnlyArea(mm.Contents(), inc);
      var k, grown := IncLimit([Vma(0, 0, oldEnd)], 0, incAmt);
      if k.None? {
        return false;
      }
      mm.vmEnd := grown[k.value].end;
      mm.sbrk := mm.sbrk + inc;
      s := s.(areas := s.areas[pid := Grow(s.areas[pid], inc)]);
      // The result of vm_map_ram is unsigned, so its failure is never noticed.
      var mapped := VmMapRam(mm, User(pid), oldEnd / 4096, IntPages(incAmt));
      return true;
    }

    /** The half of __alloc that uses a free region, if there is one. */
    method AllocFromFree(mm: MmStruct, ghost pid: nat, rgid: nat, size: nat) returns (addr: Option<nat>)
      requires Valid() && Holds(s, mm, User(pid)) && rgid < |mm.symrgtbl|
      modifies this`s, mm`freerg, mm`symrgtbl
      ensures Valid() && Holds(s, mm, User(pid))
      ensures addr.Some? <==> !Grows(AreaOf(old(s), pid), size)
      ensures addr.None? ==> s == old(s)
      ensures addr.Some? ==> s == old(s).(areas := old(s).areas[pid := Regions.Alloc(AreaOf(old(s), pid), rgid, size)])
      ensures addr.Some? ==> addr.value == s.areas[pid].sym[rgid].start
    {
      assert FieldsHold(s, mm, User(pid));
      addr := mm.TakeFreeRegion(rgid, size);
      if addr.Some? {
        s := s.(areas := s.areas[pid := mm.Contents()]);
      }
    }

    method FinishAlloc(mm: MmStruct, ghost pid: nat, rgid: nat, oldSbrk: nat, size: nat)
      requires Valid() && Holds(s, mm, User(pid)) && rgid < |AreaOf(s, pid).sym|
      modifies this`s, mm`symrgtbl, mm`freerg
      ensures Valid() && Holds(s, mm, User(pid)) && s == Finished(old(s), pid, rgid, oldSbrk, size)
    {
      assert FieldsHold(s, mm, User(pid));
      mm.symrgtbl := mm.symrgtbl[rgid := Rg(oldSbrk, Wrap(oldSbrk + size))];
      if Align64(size) > size {
        mm.EnlistVmFreerg(Rg(Wrap(oldSbrk + size), Wrap(oldSbrk + Align64(size))));
      }
      s := s.(areas := s.areas[pid := mm.Contents()]);
    }

    /** The half that grows the area; what is left of the last page becomes free.  The break
        goes through an int. */
    method AllocFromGrowth(mm: MmStruct, ghost pid: nat, rgid: nat, size: nat) returns (addr: nat)
      requires Valid() && Holds(s, mm, User(pid)) && CanAlloc(s, pid, size)
      requires rgid < |mm.symrgtbl| && Grows(AreaOf(s, pid), size)
      modifies this`s, mram, mm, mm.table
      ensures Valid() && Holds(s, mm, User(pid)) && s == StepAlloc(old(s), pid, rgid, size).0
      ensures addr == OldBreak(AreaOf(old(s), pid))
    {
      assert FieldsHold(s, mm, User(pid));
      AllocByGrowth(s, pid, rgid, size);
      var oldSbrk := AsInt(mm.sbrk);
      var grown := IncVmaLimit(mm, pid, Align64(size));
      FinishAlloc(mm, pid, rgid, Wrap(oldSbrk), size);
      return Wrap(oldSbrk);
    }

    /** __alloc; the result is the address. */
    method Alloc(mm: MmStruct, ghost pid: nat, rgid: int, size: nat) returns (addr: Option<nat>)
      requires Valid() && Holds(s, mm, User(pid)) && CanAlloc(s, pid, size)
      modifies this`s, mram, mm, mm.table
      ensures Valid() && Holds(s, mm, User(pid)) && s == StepAlloc(old(s), pid, rgid, size).0
      ensures addr.Some? <==> StepAlloc(old(s), pid, rgid, size).1 == Done
      ensures addr.Some? ==> pid in s.areas && 0 <= rgid < |s.areas[pid].sym|
      ensures addr.Some? ==> addr.value == s.areas[pid].sym[rgid].start
    {
      assert FieldsHold(s, mm, User(pid));
      if rgid < 0 || rgid >= |mm.symrgtbl| {
        return None;
      }
      addr := AllocFromFree(mm, pid, rgid, size);
      if addr.Some? {
        return;
      }
      var oldSbrk := AllocFromGrowth(mm, pid, rgid, size);
      return Some(oldSbrk);
    }

    /** __free */
    method Free(mm: MmStruct, ghost pid: nat, rgid: int) returns (r: Outcome)
      requires Valid() && Holds(s, mm, User(pid))
      modifies this`s, mm
      ensures Valid() && Holds(s, mm, User(pid))
      ensures s == StepFree(old(s), pid, rgid).0 && r == StepFree(old(s), pid, rgid).1
    {
      assert FieldsHold(s, mm, User(pid));
      if rgid < 0 || rgid >= |mm.symrgtbl| {
        return Failed;
      }
      var rg := mm.symrgtbl[rgid];
      if rg.start == 0 && rg.end == 0 {
        return Failed;
      }
      mm.symrgtbl := mm.symrgtbl[rgid := Rg(0, 0)];
      mm.EnlistVmFreerg(rg);
      s := s.(areas := s.areas[pid := mm.Contents()]);
      return Done;
    }

    // ---- Kernel memory ------------------------------------------------------------------------------

    /** __kmalloc; the result is the address. */
    method Kmalloc(kmm: MmStruct, rgid: nat, size: nat) returns (addr: Option<nat>)
      requires Valid() && Holds(s, kmm, Kernel) && CanKmalloc(s, rgid, size)
      modifies this`s, mram, kmm.table
      ensures Valid() && Holds(s, kmm, Kernel) && s == StepKmalloc(old(s), rgid, size).0
      ensures addr == if StepKmalloc(old(s), rgid, size).1 == Done then Some(rgid * 1000 * 4096) else None
    {
      if size == 0 {
        return None;
      }
      var done := KmallocPages(kmm, rgid * 1000, PageCount(size));
      return if done then Some(rgid * 1000 * 4096) else None;
    }

    /** Its loop. */
    method KmallocPages(kmm: MmStruct, first: nat, n: nat) returns (done: bool)
      requires Valid() && Holds(s, kmm, Kernel) && RamFits(s.mem) && first + n <= MAX_PGN
      modifies this`s, mram, kmm.table
      ensures Valid() && Holds(s, kmm, Kernel)
      ensures s == old(s).(mem := MapKernel(old(s).mem, first, n).0) && done == MapKernel(old(s).mem, first, n).1
    {
      ghost var end := MapKernel(s.mem, first, n);
      LoopStart(s.mem, first, n);
      for i := 0 to n
        invariant Valid() && Holds(s, kmm, Kernel) && s == old(s).(mem := s.mem) && RamFits(s.mem)
        invariant LeadsTo(s.mem, first, n, i, end)
      {
        ghost var before := s.mem;
        var pgn := first + i;
        done := KmallocPage(kmm, pgn);
        if !done {
          LoopStuck(before, first, n, i, end);
          return;
        }
        LoopStep(before, first, n, i, pgn, s.mem, end);
      }
      LoopEnd(s.mem, first, n, end);
      return true;
    }

    /** One page of the loop: a frame, and its entry over whatever was there. */
    method KmallocPage(kmm: MmStruct, pgn: nat) returns (done: bool)
      requires Valid() && Holds(s, kmm, Kernel) && RamFits(s.mem) && pgn < MAX_PGN
      modifies this`s, mram, kmm.table
      ensures Valid() && Holds(s, kmm, Kernel) && RamFits(s.mem)
      ensures done <==> old(s).mem.ram.free != []
      ensures s == old(s).(mem := s.mem) && s.mem == if done then MapKernelPage(old(s).mem, pgn) else old(s).mem
    {
      if s.mem.ram.free != [] { s.mem.ram.TakeOk(); }
      var fpn := GetFreeRam();
      if fpn.None? {
        return false;
      }
      WalkFirst(kmm, Kernel, pgn);
      SetFpn(kmm, Kernel, pgn, fpn.value);
      return true;
    }

    /** The pool table is made on the first call. */
    method EnsurePoolTable(kmm: MmStruct) returns (n: nat)
      requires Valid() && Holds(s, kmm, Kernel)
      modifies this`s, kmm`kcpooltbl
      ensures Valid() && Holds(s, kmm, Kernel) && s == old(s).(pools := Some(PoolTable(old(s))))
      ensures n == |PoolTable(old(s))|
    {
      assert FieldsHold(s, kmm, Kernel);
      if kmm.kcpooltbl.None? {
        kmm.kcpooltbl := Some(seq(POOLS, _ => Pool(0, 0, 0, 0, [])));
        s := s.(pools := kmm.kcpooltbl);
      }
      return |kmm.kcpooltbl.value|;
    }

    method EnterPool(kmm: MmStruct, id: nat, p: Pool)
      requires Valid() && Holds(s, kmm, Kernel) && s.pools.Some? && id < |s.pools.value|
      modifies this`s, kmm`kcpooltbl
      ensures Valid() && Holds(s, kmm, Kernel) && s == old(s).(pools := Some(old(s).pools.value[id := p]))
    {
      assert FieldsHold(s, kmm, Kernel);
      kmm.kcpooltbl := Some(kmm.kcpooltbl.value[id := p]);
      s := s.(pools := kmm.kcpooltbl);
    }

    /** libkmem_cache_pool_create */
    method PoolCreate(kmm: MmStruct, size: nat, align: nat, id: nat) returns (r: Outcome)
      requires Valid() && Holds(s, kmm, Kernel) && (id < POOLS ==> CanKmalloc(s, id, size))
      modifies this`s, mram, kmm, kmm.table
      ensures Valid() && Holds(s, kmm, Kernel)
      ensures s == StepPoolCreate(old(s), size, align, id).0 && r == StepPoolCreate(old(s), size, align, id).1
    {
      if size == 0 || align == 0 || size < align {
        return Failed;
      }
      var n := EnsurePoolTable(kmm);
      if id >= POOLS || id >= n {
        return Failed;
      }
      var addr := Kmalloc(kmm, id, size);
      if addr.None? {
        return Failed;
      }
      EnterPool(kmm, id, Pool(size, align, addr.value, size, []));
      return Done;
    }

    /** __kmem_cache_alloc */
    method CacheAlloc(kmm: MmStruct, rgid: int, id: int) returns (r: Outcome)
      requires Valid() && Holds(s, kmm, Kernel) && s.pools.Some?
      modifies this`s, kmm`kcpooltbl, kmm`symrgtbl
      ensures Valid() && Holds(s, kmm, Kernel)
      ensures s == StepCacheAlloc(old(s), rgid, id).0 && r == StepCacheAlloc(old(s), rgid, id).1
    {
      assert FieldsHold(s, kmm, Kernel);
      var done := kmm.TakeSlot(rgid, id);
      s := s.(pools := kmm.kcpooltbl, ksym := kmm.symrgtbl);
      return if done then Done else Failed;
    }

    // ---- Copying to the user --------------------------------------------------------------------------

    /** One round of the copy loop. */
    method CopyByte(kmm: MmStruct, mm: MmStruct, ghost pid: nat, src: int, dst: int, x: nat) returns (ok: bool)
      requires Valid() && Holds(s, kmm, Kernel) && Holds(s, mm, User(pid)) && kmm != mm && kmm.table != mm.table
      requires CanKAccess(s, src, x) && CanAccess(s, pid, dst, x)
      modifies this`s, mram, mram.storage, mswp, mswp.storage, mm`fifo, mm.table, kmm.table
      ensures Valid() && Holds(s, kmm, Kernel) && Holds(s, mm, User(pid))
      ensures s == UserCopy.Round(old(s), pid, src, dst, x).0 && ok == UserCopy.Round(old(s), pid, src, dst, x).1
    {
      var k := ReadKernelMem(kmm, src, x);
      if !k.Value? {
        RoundStops(s, pid, src, dst, x, k);
        return false;
      }
      ghost var before := s;
      var r := WriteUserMem(mm, pid, dst, x, k.b);
      RoundGoesOn(before, pid, src, dst, x, k, s, r);
      AccessElsewhere(before, pid, dst, x, Some(k.b), Kernel);
      HoldsStays(before, s, kmm, Kernel);
      return r == Done;
    }

    /** The same round, by what it does to memory. */
    method CopyRound(kmm: MmStruct, mm: MmStruct, ghost pid: nat, src: int, dst: int, x: nat, ghost w: UserCopy.Spans)
      returns (ok: bool)
      requires Valid() && Holds(s, kmm, Kernel) && Holds(s, mm, User(pid)) && kmm != mm && kmm.table != mm.table
      requires Good(s) && x < TWO32 && w == UserCopy.SpansOf(s, pid, src, dst)
      modifies this`s, mram, mram.storage, mswp, mswp.storage, mm`fifo, mm.table, kmm.table
      ensures Valid() && Holds(s, kmm, Kernel) && Holds(s, mm, User(pid))
      ensures Good(s) && s == old(s).(mem := s.mem) && UserCopy.RoundDid(old(s).mem, s.mem, ok, pid, w, x)
      ensures !ok ==> UserCopy.Stopped(s.mem, pid, w, x)
    {
      ghost var before := s;
      assert pid in s.areas by { assert FieldsHold(s, mm, User(pid)); }
      RoundFits(s, pid, src, dst, x);
      ok := CopyByte(kmm, mm, pid, src, dst, x);
      RoundGood(before, pid, src, dst, x, s, ok);
      if !ok { RoundStopped(before, pid, src, dst, x, s); }
    }

    /**
      libkmem_copy_to_user.  A successful call leaves destination bytes [off, off + size)
      equal to the kernel source bytes, even if user pages are evicted and swapped back on
      the way; a call that fails after n bytes has copied exactly these n bytes, and it does so
      only where byte n lies outside one of the regions or its page cannot be brought in; and
      no other mapped byte, user or kernel, changes.
     */
    method CopyToUser(kmm: MmStruct, mm: MmStruct, ghost pid: nat, src: int, dst: int, off: nat, size: nat)
      returns (ok: bool, n: nat)
      requires Valid() && Holds(s, kmm, Kernel) && Holds(s, mm, User(pid)) && kmm != mm && kmm.table != mm.table
      requires Good(s) && off < TWO32
      modifies this`s, mram, mram.storage, mswp, mswp.storage, mm`fifo, mm.table, kmm.table
      ensures Valid() && Holds(s, kmm, Kernel) && Holds(s, mm, User(pid)) && Good(s) && s == old(s).(mem := s.mem)
      ensures UserCopy.Copies(old(s).mem, s.mem, pid, UserCopy.SpansOf(old(s), pid, src, dst), off, size, ok, n)
    {
      ghost var m, w := s.mem, UserCopy.SpansOf(s, pid, src, dst);
      UserCopy.CopyStart(m, pid, w, off);
      n := 0;
      while n < size
        invariant Valid() && Holds(s, kmm, Kernel) && Holds(s, mm, User(pid)) && Good(s) && s == old(s).(mem := s.mem)
        invariant n <= size && UserCopy.CopyDid(m, s.mem, pid, w, off, n)
      {
        ghost var before := s.mem;
        var x := UserCopy.Index(off, n);
        assert UserCopy.SpansOf(s, pid, src, dst) == w;
        CopyReaches(m, before, pid, w, off, n);
        ok := CopyRound(kmm, mm, pid, src, dst, x, w);
        UserCopy.CopySnoc(m, before, s.mem, ok, pid, w, off, n, x);
        if !ok {
          UserCopy.CopyStopped(m, s.mem, pid, w, off, size, n, x);
          return;
        }
        n := n + 1;
      }
      UserCopy.CopyEnd(m, s.mem, pid, w, off, size);
      ok := size > 0;
    }

    // ---- Any call -------------------------------------------------------------------------------------

    method PerformRegion(mm: MmStruct, op: Op) returns (r: Outcome)
      requires Valid() && Holds(s, mm, Owner(op)) && (op.Alloc? || op.Free?)
      requires op.Alloc? ==> CanAlloc(s, op.pid, op.size)
      modifies this`s, mram, mm, mm.table
      ensures Valid() && Holds(s, mm, Owner(op)) && Took(old(s), op, s, r)
    {
      ghost var before := s;
      match op
      case Alloc(pid, rgid, size) =>
        var addr := Alloc(mm, pid, rgid, size);
        AllocTook(before, pid, rgid, size, s, addr.Some?);
        return if addr.Some? then Done else Failed;
      case Free(pid, rgid) =>
        r := Free(mm, pid, rgid);
        FreeTook(before, pid, rgid, s, r);
    }

    method PerformAccess(mm: MmStruct, op: Op) returns (r: Outcome)
      requires Valid() && Holds(s, mm, Owner(op)) && (op.Read? || op.Write?) && CanAccess(s, op.pid, op.rgid, op.off)
      modifies this`s, mram, mram.storage, mswp, mswp.storage, mm`fifo, mm.table
      ensures Valid() && Holds(s, mm, Owner(op)) && Took(old(s), op, s, r)
    {
      match op
      case Read(pid, rgid, off) => r := ReadUserMem(mm, pid, rgid, off);
      case Write(pid, rgid, off, b) => r := WriteUserMem(mm, pid, rgid, off, b);
    }

    method PerformKernel(mm: MmStruct, op: Op) returns (r: Outcome)
      requires Valid() && Holds(s, mm, Kernel) && (op.Kmalloc? || op.PoolCreate? || op.CacheAlloc?)
      requires op.Kmalloc? ==> CanKmalloc(s, op.kid, op.size)
      requires op.PoolCreate? && op.id < POOLS ==> CanKmalloc(s, op.id, op.size)
      requires op.CacheAlloc? ==> s.pools.Some?
      modifies this`s, mram, mm, mm.table
      ensures Valid() && Holds(s, mm, Kernel) && Took(old(s), op, s, r)
    {
      ghost var before := s;
      match op
      case Kmalloc(rgid, size) =>
        var addr := Kmalloc(mm, rgid, size);
        KmallocTook(before, rgid, size, s, addr.Some?);
        return if addr.Some? then Done else Failed;
      case PoolCreate(size, align, id) =>
        r := PoolCreate(mm, size, align, id);
        PoolCreateTook(before, size, align, id, s, r);
      case CacheAlloc(rgid, id) =>
        r := CacheAlloc(mm, rgid, id);
        CacheAllocTook(before, rgid, id, s, r);
    }

    method PerformKAccess(mm: MmStruct, op: Op) returns (r: Outcome)
      requires Valid() && Holds(s, mm, Kernel) && (op.KRead? || op.KWrite?) && CanKAccess(s, op.rgid, op.off)
      modifies this`s, mram`d, mram.storage, mm.table
      ensures Valid() && Holds(s, mm, Kernel) && Took(old(s), op, s, r)
    {
      match op
      case KRead(rgid, off) => r := ReadKernelMem(mm, rgid, off);
      case KWrite(rgid, off, b) => r := WriteKernelMem(mm, rgid, off, b);
    }

    /** Any call on the structures of the space it works on. */
    method Perform(mm: MmStruct, op: Op) returns (r: Outcome)
      requires Valid() && Holds(s, mm, Owner(op)) && Good(s) && Legal(s, op)
      modifies this`s, mram, mram.storage, mswp, mswp.storage, mm, mm.table
      ensures Valid() && Holds(s, mm, Owner(op)) && Took(old(s), op, s, r)
    {
      OpFits(s, op);
      if op.Alloc? || op.Free? {
        r := PerformRegion(mm, op);
      } else if op.Read? || op.Write? {
        r := PerformAccess(mm, op);
      } else if op.KRead? || op.KWrite? {
        r := PerformKAccess(mm, op);
      } else {
        r := PerformKernel(mm, op);
      }
    }
  }

  // ---- All spaces together ------------------------------------------------------------------------------

  /** The structures describe their spaces. */
  ghost predicate SpacesHold(s: System, mms: map<Space, MmStruct>)
    reads set sp | sp in mms :: mms[sp], set sp | sp in mms :: mms[sp].table
  {
    (forall sp :: sp in mms ==> Holds(s, mms[sp], sp)) == true
  }

  /** Every space has structures. */
  ghost predicate AllThere(areas: map<nat, Area>, mms: map<Space, MmStruct>) {
    (Kernel in mms && forall pid :: pid in areas ==> User(pid) in mms) == true
  }

  /** And they are its own. */
  ghost predicate Separate(mms: map<Space, MmStruct>) {
    (forall sp, sp' :: sp in mms && sp' in mms && sp != sp' ==>
       mms[sp] != mms[sp'] && mms[sp].table != mms[sp'].table) == true
  }

  /** The objects of the spaces other than owner. */
  ghost function Others(mms: map<Space, MmStruct>, owner: Space): set<object> {
    (set sp | sp in mms && sp != owner :: mms[sp]) + (set sp | sp in mms && sp != owner :: mms[sp].table)
  }

  /** The structures of the other spaces describe them. */
  ghost predicate OthersHold(s: System, mms: map<Space, MmStruct>, owner: Space)
    reads Others(mms, owner)
  {
    (forall sp :: sp in mms && sp != owner ==> Holds(s, mms[sp], sp)) == true
  }

  lemma SplitSpaces(s: System, mms: map<Space, MmStruct>, owner: Space)
    requires owner in mms
    ensures SpacesHold(s, mms) <==> Holds(s, mms[owner], owner) && OthersHold(s, mms, owner)
  {
  }

  lemma OthersStay(s: System, op: Op, s': System, r: Outcome, mms: map<Space, MmStruct>)
    requires Took(s, op, s', r) && OthersHold(s, mms, Owner(op))
    ensures OthersHold(s', mms, Owner(op))
  {
    forall sp | sp in mms && sp != Owner(op) ensures Holds(s', mms[sp], sp) {
      StepElsewhere(s, op, sp);
      HoldsStays(s, s', mms[sp], sp);
    }
  }

  lemma NotAmong(k: Krnl, mms: map<Space, MmStruct>, owner: Space)
    requires Separate(mms) && owner in mms
    ensures {k, k.mram, k.mram.storage, k.mswp, k.mswp.storage, mms[owner], mms[owner].table} !! Others(mms, owner)
  {
  }

  /** The call of the owner leaves the objects of all others alone. */
  method CallOwner(k: Krnl, mm: MmStruct, ghost mms: map<Space, MmStruct>, ghost owner: Space, op: Op)
    returns (r: Outcome)
    requires k.Valid() && Holds(k.s, mm, Owner(op)) && Good(k.s) && Legal(k.s, op) && OthersHold(k.s, mms, owner)
    requires {k, k.mram, k.mram.storage, k.mswp, k.mswp.storage, mm, mm.table} !! Others(mms, owner)
    modifies k`s, k.mram, k.mram.storage, k.mswp, k.mswp.storage, mm, mm.table
    ensures k.Valid() && Holds(k.s, mm, Owner(op)) && OthersHold(old(k.s), mms, owner)
    ensures Took(old(k.s), op, k.s, r)
  {
    r := k.Perform(mm, op);
  }

  /** A call by any process keeps the structures of all spaces up to date. */
  method Call(k: Krnl, mms: map<Space, MmStruct>, op: Op) returns (r: Outcome)
    requires k.Valid() && SpacesHold(k.s, mms) && AllThere(k.s.areas, mms) && Separate(mms)
    requires Good(k.s) && Legal(k.s, op)
    modifies k`s, k.mram, k.mram.storage, k.mswp, k.mswp.storage
    modifies set sp | sp in mms :: mms[sp], set sp | sp in mms :: mms[sp].table
    ensures k.Valid() && SpacesHold(k.s, mms) && AllThere(k.s.areas, mms) && Good(k.s)
    ensures Took(old(k.s), op, k.s, r)
  {
    ghost var before := k.s;
    var owner := Owner(op);
    OwnerIn(before, op, mms);
    SplitSpaces(before, mms, owner);
    NotAmong(k, mms, owner);
    r := CallOwner(k, mms[owner], mms, owner, op);
    StepGood(before, op, k.s, r);
    StillThere(before.areas, k.s.areas, mms);
    OthersStay(before, op, k.s, r, mms);
    SplitSpaces(k.s, mms, owner);
  }

  lemma OwnerIn(s: System, op: Op, mms: map<Space, MmStruct>)
    requires Legal(s, op) && AllThere(s.areas, mms)
    ensures Owner(op) in mms
  {
    OwnerThere(s, op);
  }

  lemma StillThere(areas: map<nat, Area>, areas': map<nat, Area>, mms: map<Space, MmStruct>)
    requires AllThere(areas, mms) && areas'.Keys == areas.Keys
    ensures AllThere(areas', mms)
  {
    assert forall pid :: pid in areas' ==> pid in areas'.Keys;
  }

  /** The states a run goes through, and the answers it gets. */
  ghost function States(s: System, ops: seq<Op>): seq<System>
    decreases |ops|
  {
    [s] + if ops == [] then [] else States(Step(s, ops[0]).0, ops[1..])
  }

  ghost function Answers(s: System, ops: seq<Op>): seq<Outcome>
    decreases |ops|
  {
    if ops == [] then [] else [Step(s, ops[0]).1] + Answers(Step(s, ops[0]).0, ops[1..])
  }

  /** One call of a run. */
  ghost predicate Goes(s: System, op: Op, s': System, r: Outcome) {
    (Good(s) && Legal(s, op) && Took(s, op, s', r)) == true
  }

  ghost predicate StepAt<S, O, R>(step: (S, O, S, R) -> bool, ops: seq<O>, states: seq<S>, answers: seq<R>, i: nat)
    requires i < |ops| == |answers| && |states| == |ops| + 1
  {
    step(states[i], ops[i], states[i + 1], answers[i])
  }

  /** The calls lead through these states and get these answers. */
  ghost predicate Trace<S, O, R>(step: (S, O, S, R) -> bool, ops: seq<O>, states: seq<S>, answers: seq<R>) {
    |answers| == |ops| && |states| == |ops| + 1 && forall i :: 0 <= i < |ops| ==> StepAt(step, ops, states, answers, i)
  }

  lemma TraceCons<S, O, R>(step: (S, O, S, R) -> bool, s: S, ops: seq<O>, s': S, r: R, states: seq<S>, answers: seq<R>)
    requires ops != [] && step(s, ops[0], s', r) && Trace(step, ops[1..], states, answers) && states[0] == s'
    ensures Trace(step, ops, [s] + states, [r] + answers)
  {
    forall i | 0 <= i < |ops| ensures StepAt(step, ops, [s] + states, [r] + answers, i) {
      if i > 0 {
        assert StepAt(step, ops[1..], states, answers, i - 1);
      }
    }
  }

  /** A legal run leads through its states to its end. */
  lemma {:induction false} RunTrace(s: System, ops: seq<Op>)
    requires Good(s) && MemoryRuns.LegalRun(s, ops)
    ensures Trace(Goes, ops, States(s, ops), Answers(s, ops)) && Good(MemoryRuns.After(s, ops))
    ensures States(s, ops)[0] == s && States(s, ops)[|ops|] == MemoryRuns.After(s, ops)
    decreases |ops|
  {
    if ops != [] {
      var s', r := FirstGoes(s, ops);
      RunTrace(s', ops[1..]);
      TraceCons(Goes, s, ops, s', r, States(s', ops[1..]), Answers(s', ops[1..]));
    }
  }

  lemma FirstGoes(s: System, ops: seq<Op>) returns (s': System, r: Outcome)
    requires Good(s) && MemoryRuns.LegalRun(s, ops) && ops != []
    ensures Goes(s, ops[0], s', r) && Good(s') && MemoryRuns.LegalRun(s', ops[1..])
    ensures MemoryRuns.After(s, ops) == MemoryRuns.After(s', ops[1..])
    ensures States(s, ops) == [s] + States(s', ops[1..]) && Answers(s, ops) == [r] + Answers(s', ops[1..])
  {
    s', r := Step(s, ops[0]).0, Step(s, ops[0]).1;
    MemoryRuns.LegalFirst(s, ops);
    StepGood(s, ops[0], s', r);
  }

  /** The first i calls led to the state s and got the answers rs. */
  ghost predicate Arrived<S, R>(s: S, rs: seq<R>, i: nat, states: seq<S>, answers: seq<R>) {
    (i < |states| && i <= |answers| && states[i] == s && rs == answers[..i]) == true
  }

  lemma ArrivedNext<S, R>(s: S, rs: seq<R>, i: nat, states: seq<S>, answers: seq<R>, s': S, r: R)
    requires Arrived(s, rs, i, states, answers)
    requires i + 1 < |states| && i < |answers| && states[i + 1] == s' && answers[i] == r
    ensures Arrived(s', rs + [r], i + 1, states, answers)
  {
    assert answers[..i + 1] == answers[..i] + [r];
  }

  lemma ArrivedEnd<S, R>(s: S, rs: seq<R>, states: seq<S>, answers: seq<R>)
    requires Arrived(s, rs, |answers|, states, answers)
    ensures s == states[|answers|] && rs == answers
  {
  }

  /** The kernel is up, with structures of its own for every space. */
  ghost predicate Running(k: Krnl, mms: map<Space, MmStruct>)
    reads k, k.mram, k.mram.storage, k.mswp, k.mswp.storage
    reads set sp | sp in mms :: mms[sp], set sp | sp in mms :: mms[sp].table
  {
    (k.Valid() && SpacesHold(k.s, mms) && AllThere(k.s.areas, mms) && Separate(mms)) == true
  }

  /** And i calls of the run are done. */
  ghost predicate Along(k: Krnl, mms: map<Space, MmStruct>, ops: seq<Op>, rs: seq<Outcome>, i: nat,
                        states: seq<System>, answers: seq<Outcome>)
    reads k, k.mram, k.mram.storage, k.mswp, k.mswp.storage
    reads set sp | sp in mms :: mms[sp], set sp | sp in mms :: mms[sp].table
  {
    (Running(k, mms) && Trace(Goes, ops, states, answers) && Arrived(k.s, rs, i, states, answers)) == true
  }

  /** Call i of a run. */
  method CallAt(k: Krnl, mms: map<Space, MmStruct>, ops: seq<Op>, i: nat, rs: seq<Outcome>,
                ghost states: seq<System>, ghost answers: seq<Outcome>) returns (rs': seq<Outcome>)
    requires i < |ops| && Along(k, mms, ops, rs, i, states, answers)
    modifies k`s, k.mram, k.mram.storage, k.mswp, k.mswp.storage
    modifies set sp | sp in mms :: mms[sp], set sp | sp in mms :: mms[sp].table
    ensures Along(k, mms, ops, rs', i + 1, states, answers)
  {
    ghost var before := k.s;
    assert StepAt(Goes, ops, states, answers, i);
    var r := Call(k, mms, ops[i]);
    ArrivedNext(before, rs, i, states, answers, k.s, r);
    return rs + [r];
  }

  /** A run of calls by any processes takes the objects through the states of the run. */
  method RunCalls(k: Krnl, mms: map<Space, MmStruct>, ops: seq<Op>,
                  ghost states: seq<System>, ghost answers: seq<Outcome>) returns (rs: seq<Outcome>)
    requires Along(k, mms, ops, [], 0, states, answers)
    modifies k`s, k.mram, k.mram.storage, k.mswp, k.mswp.storage
    modifies set sp | sp in mms :: mms[sp], set sp | sp in mms :: mms[sp].table
    ensures Along(k, mms, ops, rs, |ops|, states, answers)
  {
    rs := [];
    for i := 0 to |ops|
      invariant Along(k, mms, ops, rs, i, states, answers)
    {
      rs := CallAt(k, mms, ops, i, rs, states, answers);
    }
  }

  /** The same from start-up, with the objects made by the constructors. */
  method Simulate(ramBytes: nat, swapBytes: nat, pids: seq<nat>, ops: seq<Op>)
    returns (k: Krnl, mms: map<Space, MmStruct>, rs: seq<Outcome>)
    requires ramBytes / 4096 <= MAX_FRAMES && swapBytes / 4096 <= MAX_SWAP_FRAMES
    requires MemoryRuns.LegalRun(MemoryRuns.Boot(ramBytes / 4096, swapBytes / 4096, set p | p in pids), ops)
    ensures Running(k, mms) && Good(k.s)
    ensures k.s == MemoryRuns.After(MemoryRuns.Boot(ramBytes / 4096, swapBytes / 4096, set p | p in pids), ops)
    ensures rs == Answers(MemoryRuns.Boot(ramBytes / 4096, swapBytes / 4096, set p | p in pids), ops)
  {
    k, mms := StartUp(ramBytes, swapBytes, pids);
    RunTrace(k.s, ops);
    ghost var states, answers := States(k.s, ops), Answers(k.s, ops);
    rs := RunCalls(k, mms, ops, states, answers);
    ArrivedEnd(k.s, rs, states, answers);
  }

  /** The objects of the initial state. */
  method StartUp(ramBytes: nat, swapBytes: nat, pids: seq<nat>) returns (k: Krnl, mms: map<Space, MmStruct>)
    requires ramBytes / 4096 <= MAX_FRAMES && swapBytes / 4096 <= MAX_SWAP_FRAMES
    ensures fresh(k) && fresh(k.mram) && fresh(k.mram.storage) && fresh(k.mswp) && fresh(k.mswp.storage)
    ensures forall sp :: sp in mms ==> fresh(mms[sp]) && fresh(mms[sp].table)
    ensures Running(k, mms) && Good(k.s)
    ensures k.s == MemoryRuns.Boot(ramBytes / 4096, swapBytes / 4096, set p | p in pids)
  {
    ghost var users := set p | p in pids;
    k := new Krnl(ramBytes, swapBytes, users);
    MemoryRuns.BootInv(ramBytes / 4096, swapBytes / 4096, users);
    mms := InitSpaces(pids, k.s, ramBytes / 4096, swapBytes / 4096, users);
    AllMade(k.s, pids, mms);
  }

  /** init_mm for one space of the initial state. */
  method InitSpace(ghost sp: Space, ghost s: System, ghost ramPages: nat, ghost swapPages: nat, ghost pids: set<nat>)
    returns (mm: MmStruct)
    requires s == MemoryRuns.Boot(ramPages, swapPages, pids) && (sp == Kernel || sp.pid in pids)
    ensures fresh(mm) && fresh(mm.table) && Holds(s, mm, sp)
  {
    mm := new MmStruct();
    BootHolds(mm, sp, ramPages, swapPages, pids);
  }

  lemma OneSpace(s: System, mm: MmStruct)
    requires Holds(s, mm, Kernel)
    ensures SpacesHold(s, map[Kernel := mm]) && Separate(map[Kernel := mm])
  {
    var mms: map<Space, MmStruct> := map[Kernel := mm];
    assert forall sp :: sp in mms ==> sp == Kernel;
  }

  lemma AddHolds(s: System, mms: map<Space, MmStruct>, sp: Space, mm: MmStruct)
    requires SpacesHold(s, mms) && Holds(s, mm, sp)
    ensures SpacesHold(s, mms[sp := mm])
  {
  }

  lemma AddSeparate(mms: map<Space, MmStruct>, sp: Space, mm: MmStruct)
    requires Separate(mms) && forall sp' :: sp' in mms ==> mms[sp'] != mm && mms[sp'].table != mm.table
    ensures Separate(mms[sp := mm])
  {
    var mms' := mms[sp := mm];
    forall sp1, sp2 | sp1 in mms' && sp2 in mms' && sp1 != sp2
      ensures mms'[sp1] != mms'[sp2] && mms'[sp1].table != mms'[sp2].table
    {
    }
  }

  /** init_mm for the kernel. */
  method InitKernel(ghost s: System, ghost ramPages: nat, ghost swapPages: nat, ghost users: set<nat>)
    returns (kmm: MmStruct)
    requires s == MemoryRuns.Boot(ramPages, swapPages, users)
    ensures fresh(kmm) && fresh(kmm.table) && SpacesHold(s, map[Kernel := kmm]) && Separate(map[Kernel := kmm])
  {
    kmm := InitSpace(Kernel, s, ramPages, swapPages, users);
    OneSpace(s, kmm);
  }

  /** init_mm for one more process. */
  method InitProcess(mms: map<Space, MmStruct>, pid: nat, ghost s: System,
                     ghost ramPages: nat, ghost swapPages: nat, ghost users: set<nat>)
    returns (mm: MmStruct)
    requires s == MemoryRuns.Boot(ramPages, swapPages, users) && pid in users
    requires SpacesHold(s, mms) && Separate(mms)
    ensures fresh(mm) && fresh(mm.table)
    ensures SpacesHold(s, mms[User(pid) := mm]) && Separate(mms[User(pid) := mm])
  {
    mm := InitSpace(User(pid), s, ramPages, swapPages, users);
    AddHolds(s, mms, User(pid), mm);
    AddSeparate(mms, User(pid), mm);
  }

  /** init_mm for the kernel and every process. */
  method InitSpaces(pids: seq<nat>, ghost s: System, ghost ramPages: nat, ghost swapPages: nat, ghost users: set<nat>)
    returns (mms: map<Space, MmStruct>)
    requires s == MemoryRuns.Boot(ramPages, swapPages, users) && forall p :: p in pids ==> p in users
    ensures SpacesHold(s, mms) && Separate(mms) && Covers(pids, mms)
    ensures forall sp :: sp in mms ==> fresh(mms[sp]) && fresh(mms[sp].table)
  {
    if pids == [] {
      var kmm := InitKernel(s, ramPages, swapPages, users);
      return map[Kernel := kmm];
    }
    var rest := InitSpaces(pids[1..], s, ramPages, swapPages, users);
    var mm := InitProcess(rest, pids[0], s, ramPages, swapPages, users);
    AddCovers(pids, rest, mm);
    return rest[User(pids[0]) := mm];
  }

  /** The kernel and all these processes have structures. */
  ghost predicate Covers(pids: seq<nat>, mms: map<Space, MmStruct>) {
    (Kernel in mms && forall p :: p in pids ==> User(p) in mms) == true
  }

  lemma AddCovers(pids: seq<nat>, mms: map<Space, MmStruct>, mm: MmStruct)
    requires pids != [] && Covers(pids[1..], mms)
    ensures Covers(pids, mms[User(pids[0]) := mm])
  {
    assert pids == [pids[0]] + pids[1..];
  }

  lemma AllMade(s: System, pids: seq<nat>, mms: map<Space, MmStruct>)
    requires Covers(pids, mms) && forall pid :: pid in s.areas ==> pid in pids
    ensures AllThere(s.areas, mms)
  {
  }
}
