/**
  Demand paging as a function on values: pg_getpage with FIFO replacement and
  swapping (src/libmem.c:221-281, 1059-1084), the page copy (src/mm64.c:600-613),
  and the mapping of fresh frames (src/mm64.c:398-592).

  A page is named by its address space and page number, and one map holds the
  entries of all page tables.  What the machine promises about memory is then
  short: the map is injective (no two pages share a RAM frame or a swap frame),
  every frame it mentions is in use, and each step keeps the contents of every
  page that was mapped before.
 */
module Paging {
  import opened Collections
  import opened Word64
  import opened Devices

  datatype Space = Kernel | User(pid: nat)
  datatype Page = Page(sp: Space, pgn: nat)

  /** The FIFO list of a space, newest page first as in the source, and its history:
      every page ever enlisted, every page ever taken out, and whether a page was
      taken out for an eviction that then found the swap device full. */
  datatype Fifo = Fifo(list: seq<nat>, arrivals: seq<nat>, victims: seq<nat>, starved: bool) {

    /** enlist_pgn_node */
    function Enlist(pgn: nat): Fifo {
      this.(list := [pgn] + list, arrivals := arrivals + [pgn])
    }

    function Victim(): nat
      requires list != []
    {
      list[|list| - 1]
    }

    /** find_victim_page unlinks the tail of the list. */
    function Pop(): Fifo
      requires list != []
    {
      this.(list := list[..|list| - 1], victims := victims + [Victim()])
    }

    /** Pages leave in the order in which they arrived. */
    predicate InOrder() { arrivals == victims + Reversed(list) }
  }

  function Reversed<T>(s: seq<T>): (r: seq<T>)
    ensures |r| == |s|
  {
    if s == [] then [] else Reversed(s[1..]) + [s[0]]
  }

  lemma {:induction false} ReversedAt<T>(s: seq<T>, i: nat)
    requires i < |s|
    ensures Reversed(s)[i] == s[|s| - 1 - i]
  {
    if i < |s| - 1 {
      ReversedAt(s[1..], i);
    }
  }

  /** The victim is the page that has been in the list longest, and enlisting and
      taking out keep the order. */
  lemma FifoOrder(q: Fifo, pgn: nat)
    requires q.InOrder()
    ensures q.Enlist(pgn).InOrder()
    ensures q.list != [] ==> q.Pop().InOrder() && q.Victim() == q.arrivals[|q.victims|]
  {
    assert q.Enlist(pgn).list[1..] == q.list;
    if q.list != [] {
      var n := |q.list| - 1;
      ReversedAt(q.list, 0);
      ReversedPop(q.list);
    }
  }

  lemma {:induction false} ReversedPop<T>(s: seq<T>)
    requires s != []
    ensures Reversed(s) == [s[|s| - 1]] + Reversed(s[..|s| - 1])
  {
    if |s| > 1 {
      ReversedPop(s[1..]);
      assert s[1..][..|s| - 2] == s[..|s| - 1][1..];
    }
  }

  predicate InRam(pt: map<Page, Pte>, a: Page) { a in pt && pt[a].Present? }

  /** A present page that is in no list, and so can never be evicted. */
  predicate Unlisted(pt: map<Page, Pte>, sp: Space, list: seq<nat>, p: nat) { InRam(pt, Page(sp, p)) && p !in list }

  /** A FIFO list holds pages that are present, none twice, in arrival order; and
      it misses a present page exactly after an eviction found swap full. */
  ghost predicate Queued(pt: map<Page, Pte>, sp: Space, q: Fifo) {
    && NoDup(q.list) && q.InOrder()
    && (forall p :: p in q.list ==> InRam(pt, Page(sp, p)))
    && (sp == Kernel ==> q.list == [])
    && (sp != Kernel && !q.starved ==> forall p :: InRam(pt, Page(sp, p)) ==> p in q.list)
    && (sp != Kernel && q.starved ==> exists p :: Unlisted(pt, sp, q.list, p))
  }

  lemma QueuedElsewhere(pt: map<Page, Pte>, sp: Space, q: Fifo, a: Page, e: Pte)
    requires Queued(pt, sp, q) && (a.sp != sp || (InRam(pt, a) && e.Present?) || sp == Kernel)
    ensures Queued(pt[a := e], sp, q)
  {
    var pt' := pt[a := e];
    forall p | p in q.list ensures InRam(pt', Page(sp, p)) {
      assert InRam(pt, Page(sp, p));
    }
    if sp != Kernel && !q.starved {
      forall p | InRam(pt', Page(sp, p)) ensures p in q.list {
        assert InRam(pt, Page(sp, p));
      }
    }
    if sp != Kernel && q.starved {
      var p :| Unlisted(pt, sp, q.list, p);
      assert Unlisted(pt', sp, q.list, p);
    }
  }

  lemma QueuedStarve(pt: map<Page, Pte>, sp: Space, q: Fifo)
    requires Queued(pt, sp, q) && q.list != []
    ensures Queued(pt, sp, q.Pop().(starved := true))
  {
    FifoOrder(q, 0);
    PopElements(q, q.Victim());
    assert Unlisted(pt, sp, q.Pop().list, q.Victim());
  }

  lemma PopElements(q: Fifo, p: nat)
    requires q.list != [] && NoDup(q.list)
    ensures p in q.Pop().list <==> p in q.list && p != q.Victim()
    ensures NoDup(q.Pop().list)
  {
    var rest := q.list[..|q.list| - 1];
    assert q.list == rest + [q.Victim()];
  }

  lemma QueuedPop(pt: map<Page, Pte>, sp: Space, q: Fifo, o: nat)
    requires Queued(pt, sp, q) && q.list != []
    ensures Queued(pt[Page(sp, q.Victim()) := Swapped(o)], sp, q.Pop())
  {
    FifoOrder(q, 0);
    PopElements(q, 0);
    var pt', rest := pt[Page(sp, q.Victim()) := Swapped(o)], q.Pop().list;
    forall p | p in rest ensures InRam(pt', Page(sp, p)) {
      PopElements(q, p);
      assert InRam(pt, Page(sp, p));
    }
    if !q.starved {
      forall p | InRam(pt', Page(sp, p)) ensures p in rest {
        PopElements(q, p);
        assert InRam(pt, Page(sp, p));
      }
    } else if sp != Kernel {
      var p :| Unlisted(pt, sp, q.list, p);
      PopElements(q, p);
      assert q.Victim() in q.list && Unlisted(pt', sp, rest, p);
    }
  }

  lemma QueuedEnlist(pt: map<Page, Pte>, sp: Space, q: Fifo, pgn: nat, f: nat)
    requires Queued(pt, sp, q) && sp != Kernel && !InRam(pt, Page(sp, pgn))
    ensures Queued(pt[Page(sp, pgn) := Present(f)], sp, q.Enlist(pgn))
  {
    FifoOrder(q, pgn);
    var pt', list' := pt[Page(sp, pgn) := Present(f)], q.Enlist(pgn).list;
    forall p | p in list' ensures InRam(pt', Page(sp, p)) {
      if p != pgn { assert p in q.list && InRam(pt, Page(sp, p)); }
    }
    if !q.starved {
      forall p | InRam(pt', Page(sp, p)) ensures p in list' {
        if p != pgn { assert InRam(pt, Page(sp, p)); }
      }
    } else {
      var p :| Unlisted(pt, sp, q.list, p);
      assert Unlisted(pt', sp, list', p);
    }
  }

  datatype Sys = Sys(ram: Device, swp: Device, pt: map<Page, Pte>, fifo: map<Space, Fifo>) {

    /** Every entry is backed by a frame in use; kernel pages stay in RAM. */
    ghost predicate Backed() {
      forall a :: a in pt ==>
        && a.sp in fifo && a.pgn < MAX_PGN
        && match pt[a]
           case Absent => false
           case Present(f) => f in ram.used
           case Swapped(o) => o in swp.used && a.sp != Kernel
    }

    /** No two pages share a frame. */
    ghost predicate Unshared() {
      forall a, b {:trigger pt[a], pt[b]} :: a in pt && b in pt && pt[a] == pt[b] ==> a == b
    }

    ghost predicate FramesOk() {
      && ram.Ok() && |ram.pages| <= MAX_FRAMES
      && swp.Ok() && |swp.pages| <= MAX_SWAP_FRAMES
      && Backed() && Unshared()
    }

    ghost predicate FifosOk() { forall sp :: sp in fifo ==> Queued(pt, sp, fifo[sp]) }

    // Comparing with true keeps the verifier from unfolding the invariant at each use.
    ghost predicate Ok() { (FramesOk() && FifosOk()) == true }

    function PteOf(a: Page): Pte { if a in pt then pt[a] else Absent }

    /** What the owner of page a sees: its RAM frame, or its swap frame. */
    function Content(a: Page): Option<PageData> {
      match PteOf(a)
      case Absent => None
      case Present(f) => if f < |ram.pages| then Some(ram.pages[f]) else None
      case Swapped(o) => if o < |swp.pages| then Some(swp.pages[o]) else None
    }

    // ---- The steps of pg_getpage ---------------------------------------------

    function List(sp: Space): Fifo { if sp in fifo then fifo[sp] else Fifo([], [], [], false) }

    /** The frame field of an entry, meaningful when the page is present. */
    function FrameNo(a: Page): nat { if PteOf(a).Present? then pt[a].fpn else 0 }

    /** Take the victim of space sp out of its list. */
    function PopVictim(sp: Space, starve: bool): Sys
      requires List(sp).list != []
    {
      var q := List(sp).Pop();
      this.(fifo := fifo[sp := q.(starved := q.starved || starve)])
    }

    /** Move page v of RAM frame f to the first free swap frame. */
    function SwapOut(v: Page, f: nat): Sys
      requires swp.free != []
    {
      var o := swp.free[0];
      this.(swp := swp.Take().Put(o, ram.Frame(f)), pt := pt[v := Swapped(o)])
    }

    /** Make page a present in RAM frame t, from swap if it is there. */
    function Install(a: Page, t: nat): Sys {
      var fifo' := fifo[a.sp := List(a.sp).Enlist(a.pgn)];
      match PteOf(a)
      case Swapped(o) =>
        this.(ram := ram.Put(t, swp.Frame(o)), swp := swp.Give(o), pt := pt[a := Present(t)], fifo := fifo')
      case _ =>
        this.(pt := pt[a := Present(t)], fifo := fifo')
    }

    /** pg_getpage: the frame of page a, or None when RAM is full and nothing can be
        evicted. */
    function GetPage(a: Page): (Sys, Option<nat>) {
      if PteOf(a).Present? then (this, Some(FrameNo(a)))
      else if ram.free != [] then (this.(ram := ram.Take()).Install(a, ram.free[0]), Some(ram.free[0]))
      else if List(a.sp).list == [] then (this, None)
      else if swp.free == [] then (PopVictim(a.sp, true), None)
      else
        var v := Page(a.sp, List(a.sp).Victim());
        (Evict(this, a.sp).Install(a, FrameNo(v)), Some(FrameNo(v)))
    }

    /** Write one byte of a RAM frame. */
    function WriteByte(f: nat, off: nat, b: Byte): Sys
      requires off < 4096
    {
      this.(ram := ram.Put(f, ram.Frame(f)[off := b]))
    }
  }

  // ---- What each step keeps -----------------------------------------------------

  /** Every page mapped in s is mapped in s' with the same contents. */
  ghost predicate Keeps(s: Sys, s': Sys) {
    forall a :: a in s.pt ==> a in s'.pt && s'.Content(a) == s.Content(a)
  }

  lemma KeepsTrans(s: Sys, s': Sys, s'': Sys)
    requires Keeps(s, s') && Keeps(s', s'')
    ensures Keeps(s, s'')
  {
    forall a | a in s.pt ensures a in s''.pt && s''.Content(a) == s.Content(a) {
      assert a in s'.pt && s'.Content(a) == s.Content(a);
    }
  }

  /** RAM frame t is in use and no page lives in it. */
  ghost predicate Floating(s: Sys, t: nat) {
    t in s.ram.used && forall a :: a in s.pt ==> s.pt[a] != Present(t)
  }

  lemma TakeRam(s: Sys)
    requires s.Ok() && s.ram.free != []
    ensures var s' := s.(ram := s.ram.Take());
            s'.Ok() && Keeps(s, s') && Floating(s', s.ram.free[0])
  {
    var s' := s.(ram := s.ram.Take());
    s.ram.TakeOk();
    assert s'.FifosOk();
  }

  lemma PopOk(s: Sys, sp: Space)
    requires s.Ok() && sp in s.fifo && s.fifo[sp].list != []
    ensures s.PopVictim(sp, true).Ok() && Keeps(s, s.PopVictim(sp, true))
  {
    QueuedStarve(s.pt, sp, s.fifo[sp]);
  }

  /** Eviction: the victim's contents move to swap, its frame becomes free for use. */
  function Evict(s: Sys, sp: Space): Sys
    requires s.List(sp).list != [] && s.swp.free != []
  {
    var v := Page(sp, s.List(sp).Victim());
    s.PopVictim(sp, false).SwapOut(v, s.FrameNo(v))
  }

  lemma VictimPresent(s: Sys, sp: Space)
    requires s.Ok() && sp in s.fifo && s.fifo[sp].list != []
    ensures var v := Page(sp, s.fifo[sp].Victim());
            v in s.pt && s.pt[v].Present? && s.pt[v].fpn in s.ram.used && s.pt[v].fpn < |s.ram.pages|
  {
    assert s.fifo[sp].Victim() in s.fifo[sp].list;
    assert InRam(s.pt, Page(sp, s.fifo[sp].Victim()));
  }

  lemma EvictKeeps(s: Sys, sp: Space)
    requires s.Ok() && sp in s.fifo && s.fifo[sp].list != [] && s.swp.free != []
    ensures Keeps(s, Evict(s, sp)) && Evict(s, sp).pt.Keys == s.pt.Keys && Evict(s, sp).fifo.Keys == s.fifo.Keys
    ensures Floating(Evict(s, sp), s.FrameNo(Page(sp, s.fifo[sp].Victim())))
  {
    VictimPresent(s, sp);
    s.swp.TakeOk();
    var o := s.swp.free[0];
    var s' := Evict(s, sp);
    forall a | a in s.pt ensures a in s'.pt && s'.Content(a) == s.Content(a) {
      if a != Page(sp, s.fifo[sp].Victim()) {
        assert s.pt[a] != Swapped(o);
      }
    }
  }

  lemma EvictFrames(s: Sys, sp: Space)
    requires s.Ok() && sp in s.fifo && s.fifo[sp].list != [] && s.swp.free != []
    ensures Evict(s, sp).FramesOk()
  {
    VictimPresent(s, sp);
    s.swp.TakeOk();
  }

  lemma EvictFifos(s: Sys, sp: Space)
    requires s.Ok() && sp in s.fifo && s.fifo[sp].list != [] && s.swp.free != []
    ensures Evict(s, sp).FifosOk()
  {
    VictimPresent(s, sp);
    QueuedPop(s.pt, sp, s.fifo[sp], s.swp.free[0]);
    var s' := Evict(s, sp);
    forall sp' | sp' in s'.fifo ensures Queued(s'.pt, sp', s'.fifo[sp']) {
      if sp' != sp {
        QueuedElsewhere(s.pt, sp', s.fifo[sp'], Page(sp, s.fifo[sp].Victim()), Swapped(s.swp.free[0]));
      }
    }
  }

  ghost predicate CanInstall(s: Sys, a: Page, t: nat) {
    s.Ok() && a.sp in s.fifo && a.sp != Kernel && a.pgn < MAX_PGN && Floating(s, t) && !s.PteOf(a).Present?
  }

  lemma InstallKeeps(s: Sys, a: Page, t: nat)
    requires CanInstall(s, a, t)
    ensures Keeps(s, s.Install(a, t))
    ensures s.Install(a, t).pt.Keys == s.pt.Keys + {a} && s.Install(a, t).pt[a] == Present(t)
  {
    forall c | c in s.pt ensures s.Install(a, t).Content(c) == s.Content(c) {
      InstallContent(s, a, t, c);
    }
  }

  lemma InstallContent(s: Sys, a: Page, t: nat, c: Page)
    requires CanInstall(s, a, t) && c in s.pt
    ensures s.Install(a, t).Content(c) == s.Content(c)
  {
    assert s.pt[c] != Present(t);
  }

  lemma InstallFrames(s: Sys, a: Page, t: nat)
    requires CanInstall(s, a, t)
    ensures s.Install(a, t).FramesOk()
  {
    if s.PteOf(a).Swapped? {
      s.swp.GiveOk(s.pt[a].off);
    }
  }

  lemma InstallFifos(s: Sys, a: Page, t: nat)
    requires CanInstall(s, a, t)
    ensures s.Install(a, t).FifosOk()
  {
    var s' := s.Install(a, t);
    QueuedEnlist(s.pt, a.sp, s.fifo[a.sp], a.pgn, t);
    forall sp | sp in s'.fifo ensures Queued(s'.pt, sp, s'.fifo[sp]) {
      if sp != a.sp {
        QueuedElsewhere(s.pt, sp, s.fifo[sp], a, Present(t));
      }
    }
  }

  /** The outcome a page fault for page a may have. */
  ghost predicate Faulted(s: Sys, a: Page, s': Sys, r: Option<nat>) {
    (&& s'.Ok() && Keeps(s, s') && s'.fifo.Keys == s.fifo.Keys
     && (r.Some? ==> s'.PteOf(a) == Present(r.value) && s'.pt.Keys == s.pt.Keys + {a})
     && (r.None? ==> s'.pt == s.pt && s'.ram == s.ram && s'.swp == s.swp)) == true
  }

  /**
    Page-fault refinement.  On every exit of pg_getpage all pages mapped before, of
    the caller and of every other space, keep their contents; on success the page
    is present in the returned frame; no other page is mapped or unmapped.
   */
  lemma GetPageRefines(s: Sys, a: Page)
    requires s.Ok() && a.sp in s.fifo && a.sp != Kernel && a.pgn < MAX_PGN
    ensures Faulted(s, a, s.GetPage(a).0, s.GetPage(a).1)
  {
    if s.PteOf(a).Present? {
    } else if s.ram.free != [] {
      FaultIntoFree(s, a);
    } else if s.fifo[a.sp].list != [] {
      if s.swp.free == [] {
        PopOk(s, a.sp);
      } else {
        FaultByEviction(s, a);
      }
    }
  }

  lemma FaultIntoFree(s: Sys, a: Page)
    requires s.Ok() && a.sp in s.fifo && a.sp != Kernel && a.pgn < MAX_PGN && !s.PteOf(a).Present? && s.ram.free != []
    ensures Faulted(s, a, s.(ram := s.ram.Take()).Install(a, s.ram.free[0]), Some(s.ram.free[0]))
  {
    TakeRam(s);
    FillFrame(s, s.(ram := s.ram.Take()), a, s.ram.free[0]);
  }

  lemma FaultByEviction(s: Sys, a: Page)
    requires s.Ok() && a.sp in s.fifo && a.sp != Kernel && a.pgn < MAX_PGN && !s.PteOf(a).Present?
    requires s.fifo[a.sp].list != [] && s.swp.free != []
    ensures var f := s.FrameNo(Page(a.sp, s.fifo[a.sp].Victim()));
            Faulted(s, a, Evict(s, a.sp).Install(a, f), Some(f))
  {
    var f := s.FrameNo(Page(a.sp, s.fifo[a.sp].Victim()));
    assert CanInstall(Evict(s, a.sp), a, f) by {
      VictimPresent(s, a.sp);
      EvictFrames(s, a.sp);
      EvictFifos(s, a.sp);
      EvictKeeps(s, a.sp);
    }
    EvictKeeps(s, a.sp);
    FillFrame(s, Evict(s, a.sp), a, f);
  }

  lemma FillFrame(s: Sys, s1: Sys, a: Page, t: nat)
    requires CanInstall(s1, a, t) && Keeps(s, s1)
    ensures s1.Install(a, t).Ok() && Keeps(s, s1.Install(a, t))
    ensures s1.Install(a, t).pt.Keys == s1.pt.Keys + {a} && s1.Install(a, t).pt[a] == Present(t)
    ensures s1.Install(a, t).fifo.Keys == s1.fifo.Keys
  {
    InstallKeeps(s1, a, t);
    InstallFrames(s1, a, t);
    InstallFifos(s1, a, t);
    KeepsTrans(s, s1, s1.Install(a, t));
  }

  /** A page fault for page a cannot be served: RAM is full, and either the space has no
      page to evict or swap is full too. */
  predicate OutOfMemory(m: Sys, a: Page) {
    !m.PteOf(a).Present? && m.ram.free == [] && (m.List(a.sp).list == [] || m.swp.free == [])
  }

  /**
    FIFO replacement.  When RAM is full, the page a fault evicts is a present page of the
    same space, never the faulting page, and the one that arrived first of all that are
    still listed.  The list is exactly the present pages of the space if and only if no
    earlier eviction found swap full.
   */
  lemma FifoReplacement(s: Sys, a: Page)
    requires s.Ok() && a.sp in s.fifo && a.sp != Kernel && !s.PteOf(a).Present?
    requires s.ram.free == [] && s.fifo[a.sp].list != []
    ensures var q := s.fifo[a.sp];
            var v := Page(a.sp, q.Victim());
            && v != a && InRam(s.pt, v)
            && q.arrivals == q.victims + Reversed(q.list) && q.Victim() == q.arrivals[|q.victims|] && NoDup(q.list)
            && (!q.starved <==> forall p :: InRam(s.pt, Page(a.sp, p)) <==> p in q.list)
            && (s.swp.free != [] ==> s.GetPage(a).0.PteOf(v) == Swapped(s.swp.free[0]))
  {
    var q := s.fifo[a.sp];
    assert Queued(s.pt, a.sp, q);
    VictimPresent(s, a.sp);
    FifoOrder(q, 0);
    if q.starved {
      var p :| Unlisted(s.pt, a.sp, q.list, p);
      assert InRam(s.pt, Page(a.sp, p)) && p !in q.list;
    }
  }

  // ---- What a page fault changes --------------------------------------------------------

  /** The FIFO list of space sp is list, those of all others are as before. */
  predicate ListIs(s: Sys, s': Sys, sp: Space, list: seq<nat>) {
    && s'.fifo.Keys == s.fifo.Keys && sp in s.fifo && s'.fifo[sp].list == list
    && forall sp' :: sp' in s.fifo && sp' != sp ==> s'.fifo[sp'] == s.fifo[sp']
  }

  /** The swap frame of page a, if it has one, goes in front of the free list. */
  function GivenBack(s: Sys, a: Page): seq<nat> { if s.PteOf(a).Swapped? then [s.PteOf(a).off] else [] }

  /** The page is in RAM: nothing happens. */
  lemma FaultHit(s: Sys, a: Page)
    requires s.PteOf(a).Present?
    ensures s.GetPage(a).0 == s && s.GetPage(a).1 == Some(s.PteOf(a).fpn)
  {
  }

  /** RAM has a free frame: the page gets the first one and is enlisted; nothing is evicted.  A
      page that comes from swap brings its contents and gives its swap frame back; one that was
      nowhere finds what is in the frame. */
  lemma FaultMissFree(s: Sys, a: Page)
    requires s.Ok() && a.sp in s.fifo && !s.PteOf(a).Present? && s.ram.free != []
    ensures var (s', r) := s.GetPage(a);
            var f := s.ram.free[0];
            && r == Some(f) && f < |s.ram.pages| && s'.pt == s.pt[a := Present(f)]
            && ListIs(s, s', a.sp, [a.pgn] + s.fifo[a.sp].list)
            && s'.ram.free == s.ram.free[1..] && s'.swp.free == GivenBack(s, a) + s.swp.free
            && s'.Content(a) == if s.PteOf(a).Swapped? then s.Content(a) else Some(s.ram.pages[f])
  {
    s.ram.TakeOk();
    BackedMeans(s, a);
  }

  /** RAM is full and so is swap, or no page is listed: the fault fails.  In the first case the
      victim is unlisted all the same. */
  lemma FaultFails(s: Sys, a: Page)
    requires a.sp in s.fifo && OutOfMemory(s, a)
    ensures var (s', r) := s.GetPage(a);
            var list := s.fifo[a.sp].list;
            && r == None && s'.pt == s.pt && s'.ram == s.ram && s'.swp == s.swp
            && ListIs(s, s', a.sp, if list == [] then [] else list[..|list| - 1])
  {
  }

  /** RAM is full: the longest listed page of the space goes to the first free swap frame, and
      the faulting page gets its frame. */
  lemma FaultEvicts(s: Sys, a: Page)
    requires s.Ok() && a.sp in s.fifo && !s.PteOf(a).Present?
    requires s.ram.free == [] && s.fifo[a.sp].list != [] && s.swp.free != []
    ensures var (s', r) := s.GetPage(a);
            var list := s.fifo[a.sp].list;
            var v := Page(a.sp, list[|list| - 1]);
            && InRam(s.pt, v) && s.pt[v].fpn < |s.ram.pages| && r == Some(s.pt[v].fpn)
            && s'.pt == s.pt[v := Swapped(s.swp.free[0])][a := Present(s.pt[v].fpn)]
            && ListIs(s, s', a.sp, [a.pgn] + list[..|list| - 1])
            && s'.ram.free == [] && s'.swp.free == GivenBack(s, a) + s.swp.free[1..]
            && s'.Content(a) == if s.PteOf(a).Swapped? then s.Content(a) else Some(s.ram.pages[s.pt[v].fpn])
  {
    VictimPresent(s, a.sp);
    s.swp.TakeOk();
    BackedMeans(s, a);
    BroughtIn(s, Evict(s, a.sp), a, s.FrameNo(Page(a.sp, s.fifo[a.sp].Victim())));
  }

  /** What a page finds in the frame it is put into. */
  lemma BroughtIn(s: Sys, s1: Sys, a: Page, t: nat)
    requires s1.PteOf(a) == s.PteOf(a) && !s.PteOf(a).Present? && t < |s1.ram.pages| && s1.ram == s.ram
    requires s.PteOf(a).Swapped? ==> s.PteOf(a).off < |s.swp.pages| == |s1.swp.pages|
    requires s.PteOf(a).Swapped? ==> s1.swp.pages[s.PteOf(a).off] == s.swp.pages[s.PteOf(a).off]
    ensures s1.Install(a, t).Content(a) == if s.PteOf(a).Swapped? then s.Content(a) else Some(s.ram.pages[t])
  {
  }

  lemma BackedMeans(s: Sys, a: Page)
    requires s.Ok()
    ensures s.PteOf(a).Swapped? ==> s.PteOf(a).off in s.swp.used && s.PteOf(a).off < |s.swp.pages|
    ensures s.PteOf(a).Swapped? ==> s.PteOf(a).off !in s.swp.free
  {
  }

  /** Page a is in RAM but not in the list of its space. */
  predicate Stuck(s: Sys, a: Page) {
    a.sp != Kernel && a.sp in s.fifo && Unlisted(s.pt, a.sp, s.fifo[a.sp].list, a.pgn)
  }

  lemma StuckInstall(s: Sys, a: Page, b: Page, t: nat)
    requires Stuck(s, a) && b != a
    ensures Stuck(s.Install(b, t), a) && s.Install(b, t).pt[a] == s.pt[a]
  {
  }

  lemma StuckPop(s: Sys, a: Page, sp: Space, starve: bool)
    requires Stuck(s, a) && s.List(sp).list != [] && NoDup(s.List(sp).list)
    ensures Stuck(s.PopVictim(sp, starve), a) && a != Page(sp, s.List(sp).Victim())
  {
    PopElements(s.List(sp), a.pgn);
  }

  lemma StuckEvict(s: Sys, a: Page, sp: Space)
    requires Stuck(s, a) && s.List(sp).list != [] && NoDup(s.List(sp).list) && s.swp.free != []
    ensures Stuck(Evict(s, sp), a) && Evict(s, sp).pt[a] == s.pt[a]
  {
    StuckPop(s, a, sp, false);
  }

  lemma ListNoDup(s: Sys, sp: Space)
    requires s.Ok()
    ensures NoDup(s.List(sp).list)
  {
  }

  /** A page that an eviction on full swap took out of the list never leaves RAM again,
      whatever page of whatever space is asked for. */
  lemma StuckStays(s: Sys, a: Page, b: Page)
    requires s.Ok() && Stuck(s, a)
    ensures Stuck(s.GetPage(b).0, a) && s.GetPage(b).0.pt[a] == s.pt[a]
  {
    ListNoDup(s, b.sp);
    if s.PteOf(b).Present? {
    } else if s.ram.free != [] {
      StuckInstall(s.(ram := s.ram.Take()), a, b, s.ram.free[0]);
    } else if s.List(b.sp).list != [] && s.swp.free == [] {
      StuckPop(s, a, b.sp, true);
    } else if s.List(b.sp).list != [] {
      StuckEvict(s, a, b.sp);
      StuckInstall(Evict(s, b.sp), a, b, s.FrameNo(Page(b.sp, s.List(b.sp).Victim())));
    }
  }

  // ---- Mapping fresh frames -------------------------------------------------------

  /** alloc_pages_range: n frames off the free list, or all of them back, which leaves
      the free list reversed. */
  function AllocFrames(d: Device, n: nat): (Device, Option<seq<nat>>) {
    if n <= |d.free| then (Device(d.free[n..], Reversed(d.free[..n]) + d.used, d.pages), Some(d.free[..n]))
    else (d.(free := Reversed(d.free)), None)
  }

  lemma {:induction false} ReversedElements<T>(s: seq<T>, x: T)
    ensures x in Reversed(s) <==> x in s
  {
    if s != [] {
      ReversedElements(s[1..], x);
      assert x in s <==> x == s[0] || x in s[1..];
    }
  }

  lemma ReversedNoDup<T>(s: seq<T>)
    requires NoDup(s)
    ensures NoDup(Reversed(s))
  {
    forall i, j | 0 <= i < j < |s| ensures Reversed(s)[i] != Reversed(s)[j] {
      ReversedAt(s, i);
      ReversedAt(s, j);
    }
  }

  lemma NoDupConcat<T>(s: seq<T>, t: seq<T>)
    requires NoDup(s) && NoDup(t) && forall x :: x in s ==> x !in t
    ensures NoDup(s + t)
  {
    forall i, j | 0 <= i < j < |s + t| ensures (s + t)[i] != (s + t)[j] {
      if i < |s| <= j { assert s[i] in s && t[j - |s|] in t; }
    }
  }

  /** All or nothing: n distinct frames move from the free to the used list, or both
      lists keep their elements. */
  lemma AllocFramesAllOrNothing(d: Device, n: nat)
    requires d.Ok()
    ensures var (d', r) := AllocFrames(d, n);
            && d'.Ok() && d'.pages == d.pages
            && (r.Some? <==> n <= |d.free|)
            && (r.None? ==> d'.used == d.used && forall f :: f in d'.free <==> f in d.free)
            && (r.Some? ==> |r.value| == n && NoDup(r.value))
            && (r.Some? ==> forall f :: f in d'.used <==> f in d.used || f in r.value)
            && (r.Some? ==> forall f :: f in r.value ==> f in d.free && f !in d'.free)
  {
    var (d', r) := AllocFrames(d, n);
    if n <= |d.free| {
      var front := d.free[..n];
      ReversedNoDup(front);
      forall f ensures f in Reversed(front) <==> f in front {
        ReversedElements(front, f);
      }
      assert d.free == front + d.free[n..];
      assert forall f :: f in d.free <==> f in front || f in d.free[n..];
      NoDupConcat(Reversed(front), d.used);
    } else {
      ReversedNoDup(d.free);
      forall f ensures f in Reversed(d.free) <==> f in d.free {
        ReversedElements(d.free, f);
      }
    }
  }

  /** vmap_page_range: map the pages from first on to the given frames, one by one. */
  function MapFrames(s: Sys, sp: Space, first: nat, frames: seq<nat>): Sys
    decreases |frames|
  {
    if frames == [] then s else MapFrames(MapPage(s, Page(sp, first), frames[0]), sp, first + 1, frames[1..])
  }

  ghost predicate AllFloating(s: Sys, frames: seq<nat>) { forall f :: f in frames ==> Floating(s, f) }

  predicate InRange(a: Page, sp: Space, first: nat, n: nat) { a.sp == sp && first <= a.pgn < first + n }

  /** s' maps, besides the pages of s, exactly the pages from first on to the frames. */
  ghost predicate MapsTo(s: Sys, s': Sys, sp: Space, first: nat, frames: seq<nat>) {
    && s'.fifo.Keys == s.fifo.Keys && s'.ram.pages == s.ram.pages && s'.swp == s.swp
    && (forall a :: a in s'.pt <==> a in s.pt || InRange(a, sp, first, |frames|))
    && (forall a :: a in s.pt ==> s'.PteOf(a) == s.PteOf(a))
    && (forall i :: 0 <= i < |frames| ==> s'.PteOf(Page(sp, first + i)) == Present(frames[i]))
  }

  ghost predicate CanMap(s: Sys, sp: Space, first: nat, frames: seq<nat>) {
    && s.Ok() && sp in s.fifo && sp != Kernel && first + |frames| <= MAX_PGN
    && NoDup(frames) && AllFloating(s, frames)
    && forall a :: a in s.pt ==> !InRange(a, sp, first, |frames|)
  }

  /** One page of vmap_page_range. */
  function MapPage(s: Sys, a: Page, f: nat): Sys {
    s.(pt := s.pt[a := Present(f)], fifo := s.fifo[a.sp := s.List(a.sp).Enlist(a.pgn)])
  }

  lemma MapPageOk(s: Sys, a: Page, f: nat)
    requires CanInstall(s, a, f) && a !in s.pt
    ensures MapPage(s, a, f).Ok()
  {
    FillFrame(s, s, a, f);
    assert MapPage(s, a, f) == s.Install(a, f);
  }

  lemma MapPageRest(s: Sys, sp: Space, first: nat, frames: seq<nat>)
    requires CanMap(s, sp, first, frames) && frames != []
    requires MapPage(s, Page(sp, first), frames[0]).Ok()
    ensures CanMap(MapPage(s, Page(sp, first), frames[0]), sp, first + 1, frames[1..])
  {
    var s1 := MapPage(s, Page(sp, first), frames[0]);
    forall f | f in frames[1..] ensures Floating(s1, f) {
      assert f in frames && Floating(s, f);
    }
  }

  lemma {:induction false} MapFramesOk(s: Sys, sp: Space, first: nat, frames: seq<nat>)
    requires CanMap(s, sp, first, frames)
    ensures MapFrames(s, sp, first, frames).Ok()
    decreases |frames|
  {
    if frames != [] {
      assert InRange(Page(sp, first), sp, first, |frames|) && Floating(s, frames[0]);
      MapPageOk(s, Page(sp, first), frames[0]);
      MapPageRest(s, sp, first, frames);
      MapFramesOk(MapPage(s, Page(sp, first), frames[0]), sp, first + 1, frames[1..]);
    }
  }

  /** Mapping unmapped pages puts page first + i in frame i, and keeps everything else. */
  lemma {:induction false} MapFramesMaps(s: Sys, sp: Space, first: nat, frames: seq<nat>)
    requires sp in s.fifo && forall a :: a in s.pt ==> !InRange(a, sp, first, |frames|)
    ensures MapsTo(s, MapFrames(s, sp, first, frames), sp, first, frames)
    decreases |frames|
  {
    if frames != [] {
      var s1 := MapPage(s, Page(sp, first), frames[0]);
      assert InRange(Page(sp, first), sp, first, |frames|);
      MapFramesMaps(s1, sp, first + 1, frames[1..]);
      var s' := MapFrames(s, sp, first, frames);
      forall i | 0 <= i < |frames| ensures s'.PteOf(Page(sp, first + i)) == Present(frames[i]) {
        if i == 0 {
          assert Page(sp, first) in s1.pt;
        } else {
          assert s'.PteOf(Page(sp, first + 1 + (i - 1))) == Present(frames[1..][i - 1]);
        }
      }
      forall a ensures a in s'.pt <==> a in s.pt || InRange(a, sp, first, |frames|) {
        assert InRange(a, sp, first, |frames|) <==> a == Page(sp, first) || InRange(a, sp, first + 1, |frames| - 1);
      }
    }
  }

  /** vm_map_ram: map n pages from first on, or none when RAM is short of frames. */
  function MapRam(s: Sys, sp: Space, first: nat, n: nat): Sys {
    var (ram', r) := AllocFrames(s.ram, n);
    match r
    case None => s.(ram := ram')
    case Some(frames) => MapFrames(s.(ram := ram'), sp, first, frames)
  }

  lemma MapRamOk(s: Sys, sp: Space, first: nat, n: nat)
    requires s.Ok() && sp in s.fifo && sp != Kernel && first + n <= MAX_PGN
    requires forall a :: a in s.pt ==> !InRange(a, sp, first, n)
    ensures MapRam(s, sp, first, n).Ok()
  {
    var (ram', r) := AllocFrames(s.ram, n);
    AllocOk(s, n);
    if r.Some? {
      MapFramesOk(s.(ram := ram'), sp, first, r.value);
    }
  }

  /** All pages of the range are mapped, in the order of the free list, or none. */
  lemma MapRamMaps(s: Sys, sp: Space, first: nat, n: nat)
    requires sp in s.fifo
    requires forall a :: a in s.pt ==> !InRange(a, sp, first, n)
    ensures Keeps(s, MapRam(s, sp, first, n))
    ensures n <= |s.ram.free| ==> MapsTo(s, MapRam(s, sp, first, n), sp, first, s.ram.free[..n])
    ensures n > |s.ram.free| ==> MapRam(s, sp, first, n) == s.(ram := s.ram.(free := Reversed(s.ram.free)))
  {
    var (ram', r) := AllocFrames(s.ram, n);
    if r.Some? {
      MapFramesMaps(s.(ram := ram'), sp, first, r.value);
    }
  }

  /** The numbers from first on, the last first. */
  function Downwards(first: nat, n: nat): seq<nat>
    decreases n
  {
    if n == 0 then [] else Downwards(first + 1, n - 1) + [first]
  }

  lemma {:induction false} MapFramesLists(s: Sys, sp: Space, first: nat, frames: seq<nat>)
    requires sp in s.fifo
    ensures MapFrames(s, sp, first, frames).ram == s.ram
    ensures ListIs(s, MapFrames(s, sp, first, frames), sp, Downwards(first, |frames|) + s.fifo[sp].list)
    decreases |frames|
  {
    if frames != [] {
      var s1 := MapPage(s, Page(sp, first), frames[0]);
      MapFramesLists(s1, sp, first + 1, frames[1..]);
      assert Downwards(first + 1, |frames| - 1) + ([first] + s.fifo[sp].list)
          == Downwards(first, |frames|) + s.fifo[sp].list;
    }
  }

  /** What the mapping does to the lists: the frames leave the front of the free list, and the
      pages are enlisted in ascending order, so the first of them is evicted first. */
  lemma MapRamLists(s: Sys, sp: Space, first: nat, n: nat)
    requires sp in s.fifo && n <= |s.ram.free|
    ensures var s' := MapRam(s, sp, first, n);
            s'.ram.free == s.ram.free[n..] && ListIs(s, s', sp, Downwards(first, n) + s.fifo[sp].list)
  {
    MapFramesLists(s.(ram := AllocFrames(s.ram, n).0), sp, first, s.ram.free[..n]);
  }

  lemma AllocOk(s: Sys, n: nat)
    requires s.Ok()
    ensures var (ram', r) := AllocFrames(s.ram, n);
            && s.(ram := ram').Ok()
            && (r.Some? ==> NoDup(r.value) && AllFloating(s.(ram := ram'), r.value))
  {
    AllocFramesAllOrNothing(s.ram, n);
  }

  // ---- Kernel pages ------------------------------------------------------------------

  /** The loop of __kmalloc from page pgn on: one fresh frame per page, put into the
      kernel's table over whatever was there, until RAM runs out. */
  function MapKernel(s: Sys, pgn: nat, n: nat): (Sys, bool)
    decreases n
  {
    if n == 0 then (s, true)
    else if s.ram.free == [] then (s, false)
    else MapKernel(MapKernelPage(s, pgn), pgn + 1, n - 1)
  }

  function MapKernelPage(s: Sys, pgn: nat): Sys
    requires s.ram.free != []
  {
    s.(ram := s.ram.Take(), pt := s.pt[Page(Kernel, pgn) := Present(s.ram.free[0])])
  }

  /** Outside the given kernel pages nothing is lost or changed. */
  ghost predicate KeepsOutside(s: Sys, s': Sys, pgn: nat, n: nat) {
    && (forall a :: a in s.pt ==> a in s'.pt)
    && (forall a :: a in s'.pt && a !in s.pt ==> InRange(a, Kernel, pgn, n))
    && (forall a :: a in s.pt && !InRange(a, Kernel, pgn, n) ==> s'.pt[a] == s.pt[a] && s'.Content(a) == s.Content(a))
  }

  lemma KeepsOutsideTrans(s: Sys, s1: Sys, s': Sys, pgn: nat, n: nat)
    requires n > 0 && KeepsOutside(s, s1, pgn, 1) && KeepsOutside(s1, s', pgn + 1, n - 1)
    ensures KeepsOutside(s, s', pgn, n)
  {
    forall a | a in s.pt && !InRange(a, Kernel, pgn, n) ensures s'.pt[a] == s.pt[a] && s'.Content(a) == s.Content(a) {
      assert !InRange(a, Kernel, pgn, 1) && !InRange(a, Kernel, pgn + 1, n - 1);
      assert a in s1.pt && s1.pt[a] == s.pt[a] && s1.Content(a) == s.Content(a);
    }
    forall a | a in s'.pt && a !in s.pt ensures InRange(a, Kernel, pgn, n) {
      assert a in s1.pt ==> InRange(a, Kernel, pgn, 1);
      assert a !in s1.pt ==> InRange(a, Kernel, pgn + 1, n - 1);
    }
  }

  /** Kernel mapping keeps every page outside its range. */
  lemma {:induction false} MapKernelOk(s: Sys, pgn: nat, n: nat)
    requires s.Ok() && Kernel in s.fifo && pgn + n <= MAX_PGN
    ensures MapKernel(s, pgn, n).0.Ok()
    decreases n
  {
    if n > 0 && s.ram.free != [] {
      MapKernelFrames(s, pgn);
      MapKernelFifos(s, pgn);
      MapKernelOk(MapKernelPage(s, pgn), pgn + 1, n - 1);
    }
  }

  lemma {:induction false} MapKernelKeeps(s: Sys, pgn: nat, n: nat)
    ensures KeepsOutside(s, MapKernel(s, pgn, n).0, pgn, n)
    decreases n
  {
    if n > 0 && s.ram.free != [] {
      MapKernelKeeps(MapKernelPage(s, pgn), pgn + 1, n - 1);
      assert KeepsOutside(s, MapKernelPage(s, pgn), pgn, 1);
      KeepsOutsideTrans(s, MapKernelPage(s, pgn), MapKernel(s, pgn, n).0, pgn, n);
    }
  }

  /** It succeeds exactly when RAM has enough free frames, and then every page of the
      range is in RAM; no page leaves RAM. */
  lemma {:induction false} MapKernelMaps(s: Sys, pgn: nat, n: nat)
    ensures var (s', done) := MapKernel(s, pgn, n);
            && s'.fifo == s.fifo && s'.swp == s.swp
            && (done <==> n <= |s.ram.free|)
            && (forall a :: InRam(s.pt, a) ==> InRam(s'.pt, a))
            && (done ==> forall p :: pgn <= p < pgn + n ==> InRam(s'.pt, Page(Kernel, p)))
    decreases n
  {
    if n > 0 && s.ram.free != [] {
      var s1 := MapKernelPage(s, pgn);
      MapKernelMaps(s1, pgn + 1, n - 1);
      assert InRam(s1.pt, Page(Kernel, pgn));
      forall a | InRam(s.pt, a) ensures InRam(MapKernel(s, pgn, n).0.pt, a) {
        assert InRam(s1.pt, a);
      }
    }
  }

  lemma MapKernelFrames(s: Sys, pgn: nat)
    requires s.Ok() && Kernel in s.fifo && pgn < MAX_PGN && s.ram.free != []
    ensures MapKernelPage(s, pgn).FramesOk()
  {
    s.ram.TakeOk();
  }

  lemma MapKernelFifos(s: Sys, pgn: nat)
    requires s.Ok() && Kernel in s.fifo && pgn < MAX_PGN && s.ram.free != []
    ensures MapKernelPage(s, pgn).FifosOk()
  {
    var s1 := MapKernelPage(s, pgn);
    forall sp | sp in s1.fifo ensures Queued(s1.pt, sp, s1.fifo[sp]) {
      QueuedElsewhere(s.pt, sp, s.fifo[sp], Page(Kernel, pgn), Present(s.ram.free[0]));
    }
  }

  // ---- Writing a byte ------------------------------------------------------------------

  /** A byte written to a present page is seen by this page and by no other. */
  lemma WriteByteOk(s: Sys, a: Page, off: nat, b: Byte)
    requires s.Ok() && InRam(s.pt, a) && off < 4096
    ensures var s' := s.WriteByte(s.pt[a].fpn, off, b);
            && s'.Ok() && s'.pt == s.pt
            && s.Content(a).Some? && s'.Content(a) == Some(s.Content(a).value[off := b])
            && (forall c :: c in s.pt && c != a ==> s'.Content(c) == s.Content(c))
  {
    var s' := s.WriteByte(s.pt[a].fpn, off, b);
    forall c | c in s.pt && c != a ensures s'.Content(c) == s.Content(c) {
      assert s.pt[c] != s.pt[a];
    }
  }
}
