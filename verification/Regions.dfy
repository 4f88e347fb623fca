/**
  The virtual regions of one address space: the first-fit free list, the symbol
  table of live regions and the growing area (src/libmem.c:34-165, 1092-1139,
  src/mm-vm.c:157-229).
 */
module Regions {
  import opened CNumbers

  const SYMBOLS: nat := 30

  datatype Rg = Rg(start: nat, end: nat) {
    predicate Has(x: nat) { start <= x < end }
    predicate Empty() { start >= end }
    /** The mark of a symbol-table slot that was never filled, or freed. */
    predicate Unset() { start == 0 && end == 0 }
    /** The test of get_free_vmrg_area for a size t that was cut down to an int. */
    predicate Fits(t: int) { Cut(t) <= end }
    /** start + t in 64 bits. */
    function Cut(t: int): nat { Wrap(start + t) }
  }

  // ---- Areas ----------------------------------------------------------------------

  /** The area of one space: its end, its break, its free list and its symbol table. */
  datatype Area = Area(vmEnd: nat, sbrk: nat, free: seq<Rg>, sym: seq<Rg>) {

    predicate Ok() {
      && vmEnd == sbrk < TWO64 && sbrk % 4096 == 0 && |sym| == SYMBOLS && free != []
      && (forall i :: 0 <= i < |free| ==> free[i].start <= free[i].end <= sbrk)
      && (forall i :: 0 <= i < |sym| ==> sym[i].start <= sym[i].end <= sbrk)
    }

    /** Live and free regions are pairwise disjoint and together cover [0, sbrk). */
    ghost predicate Tiled() {
      forall x: nat :: Count(sym, x) + Count(free, x) == if x < sbrk then 1 else 0
    }

    /** Both: the regions lie in the area and tile it. */
    ghost predicate Sound() { Ok() && Tiled() }
  }

  /** init_mm: an empty area whose free list holds one empty region. */
  function Fresh(): Area { Area(0, 0, [Rg(0, 0)], seq(SYMBOLS, _ => Rg(0, 0))) }

  /** 1 if the region contains address x. */
  function One(r: Rg, x: nat): nat { if r.Has(x) then 1 else 0 }

  /** How many regions of the list contain address x. */
  ghost function Count(s: seq<Rg>, x: nat): nat {
    if s == [] then 0 else One(s[0], x) + Count(s[1..], x)
  }

  lemma {:induction false} CountAppend(s: seq<Rg>, t: seq<Rg>, x: nat)
    ensures Count(s + t, x) == Count(s, x) + Count(t, x)
  {
    if s == [] {
      assert s + t == t;
    } else {
      CountAppend(s[1..], t, x);
      assert (s + t)[1..] == s[1..] + t;
    }
  }

  lemma CountSplit(s: seq<Rg>, i: nat, x: nat)
    requires i < |s|
    ensures Count(s, x) == Count(s[..i], x) + One(s[i], x) + Count(s[i + 1..], x)
  {
    assert s == s[..i] + s[i..];
    CountAppend(s[..i], s[i..], x);
    assert s[i..][1..] == s[i + 1..];
  }

  lemma CountUpdate(s: seq<Rg>, i: nat, r: Rg, x: nat)
    requires i < |s|
    ensures Count(s[i := r], x) + One(s[i], x) == Count(s, x) + One(r, x)
  {
    CountSplit(s, i, x);
    CountSplit(s[i := r], i, x);
    assert s[i := r][..i] == s[..i] && s[i := r][i + 1..] == s[i + 1..];
  }

  /** Tiling, said region by region. */
  lemma TiledMeansDisjoint(a: Area, i: nat, j: nat, x: nat)
    requires a.Tiled() && x < a.sbrk
    ensures i < j < |a.sym| ==> !(a.sym[i].Has(x) && a.sym[j].Has(x))
    ensures i < j < |a.free| ==> !(a.free[i].Has(x) && a.free[j].Has(x))
    ensures i < |a.sym| && j < |a.free| ==> !(a.sym[i].Has(x) && a.free[j].Has(x))
  {
    if i < j < |a.sym| {
      CountSplit(a.sym, j, x);
      CountSplit(a.sym[..j], i, x);
    }
    if i < j < |a.free| {
      CountSplit(a.free, j, x);
      CountSplit(a.free[..j], i, x);
    }
    if i < |a.sym| && j < |a.free| {
      CountSplit(a.sym, i, x);
      CountSplit(a.free, j, x);
    }
  }

  // ---- get_free_vmrg_area -----------------------------------------------------

  /** The index of the first free region that the test finds large enough, |free| if none. */
  function FirstFit(free: seq<Rg>, t: int): (i: nat)
    ensures i <= |free|
    ensures i < |free| ==> free[i].Fits(t)
    ensures forall j :: 0 <= j < i ==> !free[j].Fits(t)
  {
    if free == [] then 0 else if free[0].Fits(t) then 0 else 1 + FirstFit(free[1..], t)
  }

  /** The free list after t bytes were cut off the front of region i.  A region
      that is used up is unlinked by copying its successor over it; the last one
      stays as an empty region. */
  function Carved(free: seq<Rg>, i: nat, t: int): seq<Rg>
    requires i < |free|
  {
    if free[i].Cut(t) < free[i].end then free[i := Rg(free[i].Cut(t), free[i].end)]
    else if i + 1 < |free| then free[..i] + free[i + 1..]
    else free[i := Rg(free[i].end, free[i].end)]
  }

  lemma CarvedCount(free: seq<Rg>, i: nat, t: int, x: nat)
    requires i < |free| && free[i].start <= free[i].Cut(t) <= free[i].end
    ensures Count(Carved(free, i, t), x) + One(Rg(free[i].start, free[i].Cut(t)), x) == Count(free, x)
  {
    if free[i].Cut(t) < free[i].end {
      CountUpdate(free, i, Rg(free[i].Cut(t), free[i].end), x);
    } else if i + 1 < |free| {
      CountSplit(free, i, x);
      CountAppend(free[..i], free[i + 1..], x);
    } else {
      CountUpdate(free, i, Rg(free[i].end, free[i].end), x);
    }
  }

  // ---- __alloc and __free -------------------------------------------------------

  function AlignUp(size: nat): (r: nat)
    ensures r % 4096 == 0 && size <= r < size + 4096
  {
    (size + 4096 - 1) / 4096 * 4096
  }

  /** PAGING64_PAGE_ALIGNSZ in 64 bits. */
  function Align64(size: nat): nat { Wrap(size + 4096 - 1) / 4096 * 4096 }

  lemma Align64Is(size: nat)
    requires size < TWO64
    ensures Align64(size) == if AlignUp(size) < TWO64 then AlignUp(size) else 0
  {
    WrapIs(size + 4096 - 1);
  }

  /** inc_vma_limit on the only area of a space: it grows unless the new end would not be
      above the old one in 64 bits, which the overlap test refuses. */
  function Grow(a: Area, inc: nat): Area {
    if 0 < inc && a.vmEnd + AlignUp(inc) < TWO64
    then a.(vmEnd := a.vmEnd + AlignUp(inc), sbrk := a.sbrk + inc) else a
  }

  /** enlist_vm_freerg_list refuses an empty region. */
  function Enlist(free: seq<Rg>, r: Rg): seq<Rg> { if r.Empty() then free else [r] + free }

  /** No free region passes the test. */
  predicate Grows(a: Area, size: nat) { FirstFit(a.free, AsInt(size)) == |a.free| }

  /** Where __alloc puts a region after growing: at the break, by way of an int. */
  function OldBreak(a: Area): nat { Wrap(AsInt(a.sbrk)) }

  /** The region and the free list after a growth, with the break from before it. */
  function Placed(a: Area, rgid: nat, brk: nat, size: nat): Area
    requires rgid < |a.sym|
  {
    a.(sym := a.sym[rgid := Rg(brk, Wrap(brk + size))],
       free := if Align64(size) > size then Enlist(a.free, Rg(Wrap(brk + size), Wrap(brk + Align64(size)))) else a.free)
  }

  /** __alloc into slot rgid; the address is the start of the new region. */
  function Alloc(a: Area, rgid: nat, size: nat): Area
    requires rgid < |a.sym|
  {
    var t := AsInt(size);
    var i := FirstFit(a.free, t);
    if i < |a.free| then
      a.(free := Carved(a.free, i, t), sym := a.sym[rgid := Rg(a.free[i].start, a.free[i].Cut(t))])
    else Placed(Grow(a, Align64(size)), rgid, OldBreak(a), size)
  }

  /** __free of slot rgid; refused on an unset slot. */
  function Release(a: Area, rgid: nat): Area
    requires rgid < |a.sym|
  {
    if a.sym[rgid].Unset() then a
    else a.(free := Enlist(a.free, a.sym[rgid]), sym := a.sym[rgid := Rg(0, 0)])
  }

  // ---- When the numbers fit ----------------------------------------------------------

  /** The guard under which the casts of __alloc do no harm: the region found is cut
      forwards; or the break survives its way through an int and the new end 64 bits. */
  predicate NumbersFit(a: Area, size: nat) {
    var t := AsInt(size);
    var i := FirstFit(a.free, t);
    if i < |a.free| then a.free[i].start <= a.free[i].Cut(t)
    else OldBreak(a) == a.sbrk && a.sbrk + AlignUp(size) < TWO64
  }

  /** It holds in particular for a break and a size below 2^31. */
  lemma SmallNumbersFit(a: Area, size: nat)
    requires a.Ok() && a.sbrk < 0x8000_0000 && size < 0x8000_0000
    ensures NumbersFit(a, size)
  {
    var i := FirstFit(a.free, AsInt(size));
    WrapIs(AsInt(a.sbrk));
    if i < |a.free| { WrapIs(a.free[i].start + AsInt(size)); }
  }

  /** A request for nothing is served from the free list. */
  lemma NothingFits(a: Area)
    requires a.Ok()
    ensures !Grows(a, 0)
  {
    WrapIs(a.free[0].start);
    assert a.free[0].Fits(0);
  }

  lemma AlignTwice(size: nat)
    ensures AlignUp(AlignUp(size)) == AlignUp(size)
  {
  }

  /** The area after the growth of an allocation. */
  lemma GrowIs(a: Area, size: nat)
    requires a.Ok() && 0 < size < TWO64
    ensures Grow(a, Align64(size)) ==
            if a.sbrk + AlignUp(size) < TWO64 then a.(vmEnd := a.sbrk + AlignUp(size), sbrk := a.sbrk + AlignUp(size))
            else a
  {
    Align64Is(size);
    AlignTwice(size);
  }

  /** With fitting numbers a growth is the plain one. */
  lemma GrowthIs(a: Area, rgid: nat, size: nat)
    requires a.Ok() && rgid < SYMBOLS && size < TWO64 && Grows(a, size) && NumbersFit(a, size)
    ensures var n := AlignUp(size);
            && 0 < size && Grow(a, Align64(size)) == a.(vmEnd := a.vmEnd + n, sbrk := a.sbrk + n)
            && Alloc(a, rgid, size) == a.(vmEnd := a.vmEnd + n, sbrk := a.sbrk + n,
                 sym := a.sym[rgid := Rg(a.sbrk, a.sbrk + size)],
                 free := if n > size then [Rg(a.sbrk + size, a.sbrk + n)] + a.free else a.free)
  {
    NothingFits(a);
    GrowIs(a, size);
    Align64Is(size);
    assert Wrap(a.sbrk + size) == a.sbrk + size && Wrap(a.sbrk + AlignUp(size)) == a.sbrk + AlignUp(size);
  }

  /** What an allocation gives when the numbers fit: a region inside the area, which grows
      by whole pages, and only if no free region passes the test.  The region has the
      asked size, unless it came from the free list and the size does not survive its way
      through an int. */
  lemma AllocOk(a: Area, rgid: nat, size: nat)
    requires a.Ok() && rgid < SYMBOLS && size < TWO64 && NumbersFit(a, size)
    ensures var a' := Alloc(a, rgid, size);
            && a'.Ok() && a'.sym[rgid].start <= a'.sym[rgid].end
            && (a'.sym[rgid].end - a'.sym[rgid].start == size <==> Grows(a, size) || Wrap(AsInt(size)) == size)
            && (forall j :: 0 <= j < SYMBOLS && j != rgid ==> a'.sym[j] == a.sym[j])
            && (a'.sbrk > a.sbrk ==> forall i :: 0 <= i < |a.free| ==> !a.free[i].Fits(AsInt(size)))
            && a'.sbrk == if Grows(a, size) then a.sbrk + AlignUp(size) else a.sbrk
  {
    if Grows(a, size) { GrowOk(a, rgid, size); } else { FitOk(a, rgid, size); }
  }

  lemma GrowOk(a: Area, rgid: nat, size: nat)
    requires a.Ok() && rgid < SYMBOLS && size < TWO64 && Grows(a, size) && NumbersFit(a, size)
    ensures var a' := Alloc(a, rgid, size);
            && a'.Ok() && a'.sbrk == a.sbrk + AlignUp(size) && a'.sym[rgid] == Rg(a.sbrk, a.sbrk + size)
            && (forall j :: 0 <= j < SYMBOLS && j != rgid ==> a'.sym[j] == a.sym[j])
  {
    var n := AlignUp(size);
    var a' := a.(vmEnd := a.vmEnd + n, sbrk := a.sbrk + n, sym := a.sym[rgid := Rg(a.sbrk, a.sbrk + size)],
                 free := if n > size then [Rg(a.sbrk + size, a.sbrk + n)] + a.free else a.free);
    GrowthIs(a, rgid, size);
    GrownOk(a, rgid, size, n, a');
  }

  lemma GrownOk(a: Area, rgid: nat, size: nat, n: nat, a': Area)
    requires a.Ok() && rgid < SYMBOLS && size <= n && n % 4096 == 0 && a.sbrk + n < TWO64
    requires a'.vmEnd == a'.sbrk == a.sbrk + n && a'.sym == a.sym[rgid := Rg(a.sbrk, a.sbrk + size)]
    requires a'.free == if n > size then [Rg(a.sbrk + size, a.sbrk + n)] + a.free else a.free
    ensures a'.Ok() && forall j :: 0 <= j < SYMBOLS && j != rgid ==> a'.sym[j] == a.sym[j]
  {
  }

  lemma FitOk(a: Area, rgid: nat, size: nat)
    requires a.Ok() && rgid < SYMBOLS && size < TWO64 && !Grows(a, size) && NumbersFit(a, size)
    ensures var a' := Alloc(a, rgid, size);
            && a'.Ok() && a'.sbrk == a.sbrk && a'.sym[rgid].start <= a'.sym[rgid].end
            && (a'.sym[rgid].end - a'.sym[rgid].start == size <==> Wrap(AsInt(size)) == size)
            && (forall j :: 0 <= j < SYMBOLS && j != rgid ==> a'.sym[j] == a.sym[j])
  {
    var t := AsInt(size);
    var i := FirstFit(a.free, t);
    CarvedOk(a.free, i, t, a.sbrk);
    WrapIs(a.free[i].start + t);
    WrapIs(t);
  }

  lemma CarvedOk(free: seq<Rg>, i: nat, t: int, limit: nat)
    requires i < |free| && free[i].start <= free[i].Cut(t) <= free[i].end
    requires forall k :: 0 <= k < |free| ==> free[k].start <= free[k].end <= limit
    ensures Carved(free, i, t) != []
    ensures forall k :: 0 <= k < |Carved(free, i, t)| ==>
              Carved(free, i, t)[k].start <= Carved(free, i, t)[k].end <= limit
  {
  }

  lemma ReleaseOk(a: Area, rgid: nat)
    requires a.Ok() && rgid < SYMBOLS
    ensures Release(a, rgid).Ok() && Release(a, rgid).sbrk == a.sbrk && Release(a, rgid).sym[rgid].Unset()
  {
  }

  lemma FitCount(a: Area, rgid: nat, size: nat, x: nat)
    requires a.Ok() && rgid < SYMBOLS && !Grows(a, size) && NumbersFit(a, size)
    ensures var a' := Alloc(a, rgid, size);
            Count(a'.sym, x) + Count(a'.free, x) + One(a.sym[rgid], x) == Count(a.sym, x) + Count(a.free, x)
  {
    var t := AsInt(size);
    var i := FirstFit(a.free, t);
    CarvedCount(a.free, i, t, x);
    CountUpdate(a.sym, rgid, Rg(a.free[i].start, a.free[i].Cut(t)), x);
  }

  lemma GrowCount(a: Area, rgid: nat, size: nat, x: nat)
    requires a.Ok() && rgid < SYMBOLS && size < TWO64 && Grows(a, size) && NumbersFit(a, size)
    ensures var a' := Alloc(a, rgid, size);
            Count(a'.sym, x) + Count(a'.free, x) + One(a.sym[rgid], x)
            == Count(a.sym, x) + Count(a.free, x) + One(Rg(a.sbrk, a'.sbrk), x)
  {
    GrowthIs(a, rgid, size);
    var r := Rg(a.sbrk + size, a.sbrk + AlignUp(size));
    CountUpdate(a.sym, rgid, Rg(a.sbrk, a.sbrk + size), x);
    assert ([r] + a.free)[1..] == a.free;
  }

  lemma AllocCount(a: Area, rgid: nat, size: nat, x: nat)
    requires a.Ok() && rgid < SYMBOLS && size < TWO64 && NumbersFit(a, size)
    ensures var a' := Alloc(a, rgid, size);
            Count(a'.sym, x) + Count(a'.free, x) + One(a.sym[rgid], x)
            == Count(a.sym, x) + Count(a.free, x) + One(Rg(a.sbrk, a'.sbrk), x)
  {
    AllocOk(a, rgid, size);
    if Grows(a, size) { GrowCount(a, rgid, size, x); } else { FitCount(a, rgid, size, x); }
  }

  lemma FittingConserves(a: Area, rgid: nat, size: nat)
    requires a.Sound() && rgid < SYMBOLS && size < TWO64 && NumbersFit(a, size)
    ensures Alloc(a, rgid, size).Sound() <==> a.sym[rgid].Empty()
  {
    var a' := Alloc(a, rgid, size);
    AllocOk(a, rgid, size);
    forall x: nat ensures Count(a'.sym, x) + Count(a'.free, x) + One(a.sym[rgid], x)
                          == if x < a'.sbrk then 1 else 0 {
      AllocCount(a, rgid, size, x);
    }
    if !a.sym[rgid].Empty() {
      var x := a.sym[rgid].start;
      assert a.sym[rgid].Has(x);
      assert Count(a'.sym, x) + Count(a'.free, x) == 0;
    }
  }

  // ---- When they do not fit ------------------------------------------------------------

  /** A region cut backwards is no region. */
  lemma CutBackBreaks(a: Area, rgid: nat, size: nat)
    requires a.Ok() && rgid < SYMBOLS && !Grows(a, size) && !NumbersFit(a, size)
    ensures !Alloc(a, rgid, size).Ok()
  {
    var t := AsInt(size);
    var i := FirstFit(a.free, t);
    assert Alloc(a, rgid, size).sym[rgid] == Rg(a.free[i].start, a.free[i].Cut(t));
  }

  /** How often the region of a growth and the rest of its last page contain x. */
  function Fill(brk: nat, size: nat, x: nat): nat {
    One(Rg(brk, Wrap(brk + size)), x) +
    if Align64(size) > size then One(Rg(Wrap(brk + size), Wrap(brk + Align64(size))), x) else 0
  }

  lemma PlacedCount(a: Area, rgid: nat, brk: nat, size: nat, x: nat)
    requires rgid < |a.sym|
    ensures var a' := Placed(a, rgid, brk, size);
            Count(a'.sym, x) + Count(a'.free, x) + One(a.sym[rgid], x) ==
            Count(a.sym, x) + Count(a.free, x) + Fill(brk, size, x)
  {
    var r := Rg(Wrap(brk + size), Wrap(brk + Align64(size)));
    CountUpdate(a.sym, rgid, Rg(brk, Wrap(brk + size)), x);
    assert ([r] + a.free)[1..] == a.free;
  }

  /** A region put elsewhere than at the break leaves a new address uncovered. */
  lemma WrongPlace(sbrk: nat, brk: nat, size: nat) returns (x: nat)
    requires brk != sbrk && brk < TWO64 && 0 < size < TWO64 && sbrk + AlignUp(size) < TWO64
    requires brk <= Wrap(brk + size) <= sbrk + AlignUp(size)
    ensures sbrk <= x < sbrk + AlignUp(size) && Fill(brk, size, x) == 0
  {
    Align64Is(size);
    WrapIs(brk + size);
    WrapIs(brk + AlignUp(size));
    x := if brk < sbrk then sbrk + AlignUp(size) - 1 else sbrk;
  }

  lemma NewAddress(a: Area, x: nat)
    requires a.Tiled() && x >= a.sbrk
    ensures Count(a.sym, x) == 0 && Count(a.free, x) == 0
  {
  }

  /** g is area a grown by the pages for size bytes, and the region is put at brk. */
  lemma PlacedWrong(a: Area, g: Area, rgid: nat, brk: nat, size: nat)
    requires a.Sound() && rgid < SYMBOLS && 0 < size < TWO64 && brk != a.sbrk && brk < TWO64
    requires g.sym == a.sym && g.free == a.free && g.sbrk == a.sbrk + AlignUp(size) < TWO64
    ensures !Placed(g, rgid, brk, size).Sound()
  {
    var a' := Placed(g, rgid, brk, size);
    assert a'.sym[rgid] == Rg(brk, Wrap(brk + size)) && a'.sbrk == g.sbrk;
    if brk <= Wrap(brk + size) <= g.sbrk {
      var x := WrongPlace(a.sbrk, brk, size);
      PlacedCount(g, rgid, brk, size, x);
      NewAddress(a, x);
      assert Count(a'.sym, x) + Count(a'.free, x) == 0;
    }
  }

  /** Without a growth, the region and the rest of its last page are the old region of the
      slot. */
  predicate SameAgain(a: Area, rgid: nat, brk: nat, size: nat)
    requires rgid < |a.sym|
  {
    a.sym[rgid] == Rg(brk, brk + AlignUp(size))
  }

  lemma FillIs(sbrk: nat, brk: nat, size: nat, x: nat)
    requires 0 < size && brk + size <= sbrk < TWO64 && sbrk % 4096 == 0
    ensures brk + AlignUp(size) < TWO64 && Fill(brk, size, x) == One(Rg(brk, brk + AlignUp(size)), x)
  {
    assert sbrk <= TWO64 - 4096;
    Align64Is(size);
  }

  lemma SameRegion(r: Rg, start: nat, end: nat)
    requires r.start <= r.end && start < end && forall x :: One(r, x) == One(Rg(start, end), x)
    ensures r == Rg(start, end)
  {
    assert Rg(start, end).Has(start) && Rg(start, end).Has(end - 1) && !Rg(start, end).Has(end);
    assert One(r, start) == 1 && One(r, end - 1) == 1 && One(r, end) == 0;
    assert r.Has(r.start) && One(r, r.start) == 1;
  }

  lemma PlacedCovers(a: Area, rgid: nat, brk: nat, size: nat, x: nat)
    requires a.Sound() && rgid < SYMBOLS && 0 < size && brk + size <= a.sbrk
    ensures var a' := Placed(a, rgid, brk, size);
            Count(a'.sym, x) + Count(a'.free, x) + One(a.sym[rgid], x) ==
            (if x < a.sbrk then 1 else 0) + One(Rg(brk, brk + AlignUp(size)), x)
  {
    PlacedCount(a, rgid, brk, size, x);
    FillIs(a.sbrk, brk, size, x);
  }

  /** The same when the area did not grow: sound only if it is as it was. */
  lemma PlacedAgain(a: Area, rgid: nat, brk: nat, size: nat)
    requires a.Sound() && rgid < SYMBOLS && 0 < size < TWO64 && brk < TWO64
    ensures Placed(a, rgid, brk, size).Sound() <==> SameAgain(a, rgid, brk, size)
  {
    var a' := Placed(a, rgid, brk, size);
    WrapIs(brk + size);
    assert a'.sym[rgid] == Rg(brk, Wrap(brk + size)) && a'.sbrk == a.sbrk;
    if brk + size <= a.sbrk {
      forall x: nat ensures Count(a'.sym, x) + Count(a'.free, x) + One(a.sym[rgid], x) ==
                            (if x < a.sbrk then 1 else 0) + One(Rg(brk, brk + AlignUp(size)), x) {
        PlacedCovers(a, rgid, brk, size, x);
      }
      if a'.Sound() {
        assert forall x: nat :: One(a.sym[rgid], x) == One(Rg(brk, brk + AlignUp(size)), x) by {
          forall x: nat ensures One(a.sym[rgid], x) == One(Rg(brk, brk + AlignUp(size)), x) {
            assert Count(a'.sym, x) + Count(a'.free, x) == if x < a.sbrk then 1 else 0;
          }
        }
        SameRegion(a.sym[rgid], brk, brk + AlignUp(size));
      }
      if SameAgain(a, rgid, brk, size) {
        PlacedInside(a, rgid, brk, size);
        assert forall x: nat :: Count(a'.sym, x) + Count(a'.free, x) == if x < a.sbrk then 1 else 0;
      }
    }
  }

  lemma PlacedInside(a: Area, rgid: nat, brk: nat, size: nat)
    requires a.Ok() && rgid < SYMBOLS && brk + AlignUp(size) <= a.sbrk
    ensures Placed(a, rgid, brk, size).Ok()
  {
    Align64Is(size);
  }

  /** With the break lost in the int, the grown area is not tiled. */
  lemma LostBreakBreaks(a: Area, rgid: nat, size: nat)
    requires a.Sound() && rgid < SYMBOLS && size < TWO64 && Grows(a, size)
    requires OldBreak(a) != a.sbrk && a.sbrk + AlignUp(size) < TWO64
    ensures !Alloc(a, rgid, size).Sound()
  {
    NothingFits(a);
    OldBreakSmall(a);
    GrowIs(a, size);
    PlacedWrong(a, Grow(a, Align64(size)), rgid, OldBreak(a), size);
  }

  /** A growth past the end of 64 bits is refused, and the region entered all the same. */
  lemma NoRoomBreaks(a: Area, rgid: nat, size: nat)
    requires a.Sound() && rgid < SYMBOLS && size < TWO64 && Grows(a, size) && a.sbrk + AlignUp(size) >= TWO64
    ensures Alloc(a, rgid, size).Sound() <==> SameAgain(a, rgid, OldBreak(a), size)
  {
    NothingFits(a);
    OldBreakSmall(a);
    GrowIs(a, size);
    PlacedAgain(a, rgid, OldBreak(a), size);
  }

  lemma OldBreakSmall(a: Area)
    ensures OldBreak(a) < TWO64
  {
    AsIntIs(a.sbrk);
    WrapIs(AsInt(a.sbrk));
  }

  /** The one accident that does no harm: a growth past the end of 64 bits is refused, and
      the region entered nevertheless is the very one that it overwrites. */
  predicate Reenters(a: Area, rgid: nat, size: nat)
    requires rgid < |a.sym|
  {
    Grows(a, size) && a.sbrk + AlignUp(size) >= TWO64 && SameAgain(a, rgid, OldBreak(a), size)
  }

  /**
    Region conservation under allocation: the regions stay inside the area and tile it
    exactly when the slot held no live bytes and the numbers fit, but for one accident.
   */
  lemma AllocConserves(a: Area, rgid: nat, size: nat)
    requires a.Sound() && rgid < SYMBOLS && size < TWO64
    ensures Alloc(a, rgid, size).Sound() <==>
            (a.sym[rgid].Empty() && NumbersFit(a, size)) || Reenters(a, rgid, size)
    ensures Reenters(a, rgid, size) ==> !a.sym[rgid].Empty() && !NumbersFit(a, size)
  {
    if NumbersFit(a, size) {
      FittingConserves(a, rgid, size);
    } else if !Grows(a, size) {
      CutBackBreaks(a, rgid, size);
    } else if a.sbrk + AlignUp(size) < TWO64 {
      LostBreakBreaks(a, rgid, size);
    } else {
      NothingFits(a);
      NoRoomBreaks(a, rgid, size);
    }
  }

  lemma ReleaseConserves(a: Area, rgid: nat)
    requires a.Sound() && rgid < SYMBOLS
    ensures Release(a, rgid).Sound()
  {
    ReleaseOk(a, rgid);
    if !a.sym[rgid].Unset() {
      var a' := Release(a, rgid);
      forall x: nat ensures Count(a'.sym, x) + Count(a'.free, x) == if x < a.sbrk then 1 else 0 {
        CountUpdate(a.sym, rgid, Rg(0, 0), x);
        if !a.sym[rgid].Empty() {
          assert ([a.sym[rgid]] + a.free)[1..] == a.free;
        }
      }
    }
  }

  // ---- Runs ------------------------------------------------------------------------------

  datatype AreaOp = AllocOp(rgid: nat, size: nat) | FreeOp(rgid: nat)

  predicate OpsOk(ops: seq<AreaOp>) {
    forall k :: 0 <= k < |ops| ==> ops[k].rgid < SYMBOLS && (ops[k].AllocOp? ==> ops[k].size < TWO64)
  }

  function Apply(a: Area, op: AreaOp): Area
    requires op.rgid < |a.sym|
  {
    match op
    case AllocOp(r, n) => Alloc(a, r, n)
    case FreeOp(r) => Release(a, r)
  }

  function After(a: Area, ops: seq<AreaOp>): Area
    requires |a.sym| == SYMBOLS && OpsOk(ops)
    ensures |After(a, ops).sym| == SYMBOLS
    decreases |ops|
  {
    if ops == [] then a else After(Apply(a, ops[0]), ops[1..])
  }

  /** Every allocation of the run goes into a slot that holds no live bytes. */
  predicate NoOverwrite(a: Area, ops: seq<AreaOp>)
    requires |a.sym| == SYMBOLS && OpsOk(ops)
    decreases |ops|
  {
    ops == [] || ((ops[0].AllocOp? ==> a.sym[ops[0].rgid].Empty()) && NoOverwrite(Apply(a, ops[0]), ops[1..]))
  }

  /** The numbers of every allocation of the run fit. */
  predicate AllFit(a: Area, ops: seq<AreaOp>)
    requires |a.sym| == SYMBOLS && OpsOk(ops)
    decreases |ops|
  {
    ops == [] || ((ops[0].AllocOp? ==> NumbersFit(a, ops[0].size)) && AllFit(Apply(a, ops[0]), ops[1..]))
  }

  /** The area is sound before, between and after the operations. */
  ghost predicate SoundThroughout(a: Area, ops: seq<AreaOp>)
    requires |a.sym| == SYMBOLS && OpsOk(ops)
    decreases |ops|
  {
    a.Sound() && (ops == [] || SoundThroughout(Apply(a, ops[0]), ops[1..]))
  }

  lemma OpSound(a: Area, op: AreaOp)
    requires a.Sound() && op.rgid < SYMBOLS
    requires op.AllocOp? ==> op.size < TWO64 && a.sym[op.rgid].Empty()
    ensures Apply(a, op).Sound() <==> (op.AllocOp? ==> NumbersFit(a, op.size))
  {
    match op
    case AllocOp(r, n) => AllocConserves(a, r, n);
    case FreeOp(r) => ReleaseConserves(a, r);
  }

  lemma {:induction false} RunSound(a: Area, ops: seq<AreaOp>)
    requires a.Sound() && OpsOk(ops) && NoOverwrite(a, ops)
    ensures SoundThroughout(a, ops) <==> AllFit(a, ops)
    decreases |ops|
  {
    if ops != [] {
      var op, a' := ops[0], Apply(a, ops[0]);
      assert a'.Sound() <==> (op.AllocOp? ==> NumbersFit(a, op.size)) by { OpSound(a, op); }
      if a'.Sound() { RunSound(a', ops[1..]); }
    }
  }

  lemma {:induction false} SoundAtEnd(a: Area, ops: seq<AreaOp>)
    requires |a.sym| == SYMBOLS && OpsOk(ops) && SoundThroughout(a, ops)
    ensures After(a, ops).Sound()
    decreases |ops|
  {
    if ops != [] { SoundAtEnd(Apply(a, ops[0]), ops[1..]); }
  }

  /** Region conservation: in a run of allocations into slots without live bytes and of
      releases, from the area init_mm builds, live and free regions tile [0, sbrk) at every
      moment exactly if the numbers of every allocation fit. */
  lemma RunConserves(ops: seq<AreaOp>)
    requires OpsOk(ops) && NoOverwrite(Fresh(), ops)
    ensures SoundThroughout(Fresh(), ops) <==> AllFit(Fresh(), ops)
    ensures AllFit(Fresh(), ops) ==> After(Fresh(), ops).Sound()
  {
    FreshTiled();
    RunSound(Fresh(), ops);
    if AllFit(Fresh(), ops) { SoundAtEnd(Fresh(), ops); }
  }

  /** The first allocation of an area. */
  lemma FirstAlloc(n: nat)
    requires 0 < n < TWO64 - 4096 && !Fresh().free[0].Fits(AsInt(n))
    ensures Grows(Fresh(), n) && NumbersFit(Fresh(), n)
    ensures Alloc(Fresh(), 0, n).sbrk == AlignUp(n) && Alloc(Fresh(), 0, n).sym[0] == Rg(0, n)
    ensures Alloc(Fresh(), 0, n).free == if AlignUp(n) > n then [Rg(n, AlignUp(n)), Rg(0, 0)] else [Rg(0, 0)]
    ensures Alloc(Fresh(), 0, n).Sound() && forall j :: 1 <= j < SYMBOLS ==> Alloc(Fresh(), 0, n).sym[j] == Rg(0, 0)
  {
    FreshTiled();
    assert Fresh().free[1..] == [];
    GrowthIs(Fresh(), 0, n);
    AllocConserves(Fresh(), 0, n);
  }

  lemma AfterOne(a: Area, op: AreaOp, rest: seq<AreaOp>)
    requires |a.sym| == SYMBOLS && op.rgid < SYMBOLS && OpsOk([op] + rest) && OpsOk(rest)
    ensures After(a, [op] + rest) == After(Apply(a, op), rest)
  {
    assert ([op] + rest)[1..] == rest;
  }

  lemma TwoOps(a: Area, first: AreaOp, second: AreaOp, a': Area, a'': Area)
    requires |a.sym| == SYMBOLS == |a'.sym| && OpsOk([first, second]) && first.rgid < SYMBOLS && second.rgid < SYMBOLS
    requires a' == Apply(a, first) && a'' == Apply(a', second)
    ensures After(a, [first, second]) == a''
  {
    var ops := [first, second];
    assert ops[1] == second && ops == [first] + [second] && [second] == [second] + [];
    AfterOne(a, first, [second]);
    AfterOne(a', second, []);
  }

  /** Conservation fails on this run: two allocations into slot 0 lose the first. */
  lemma OverwriteLoses(n: nat, m: nat)
    requires 0 < n < 0x8000_0000 && m < 0x8000_0000
    ensures OpsOk([AllocOp(0, n), AllocOp(0, m)]) && !After(Fresh(), [AllocOp(0, n), AllocOp(0, m)]).Sound()
  {
    FirstAlloc(n);
    var a := Alloc(Fresh(), 0, n);
    AllocConserves(a, 0, m);
    assert OpsOk([AllocOp(0, n), AllocOp(0, m)]);
    TwoOps(Fresh(), AllocOp(0, n), AllocOp(0, m), a, Alloc(a, 0, m));
  }

  /** Three billion bytes and then a page. */
  function Large(): seq<AreaOp> { [AllocOp(0, 3_000_000_000), AllocOp(1, 4096)] }

  /** The second of these allocations: the break does not survive its way through an int. */
  lemma LargeSecond(a: Area)
    requires a.Sound() && a.sbrk == 0xB2D0_6000 && a.free == [Rg(3_000_000_000, 0xB2D0_6000), Rg(0, 0)]
    requires a.sym[1] == Rg(0, 0)
    ensures !Alloc(a, 1, 4096).Sound() && Alloc(a, 1, 4096).sym[1].start == 0xFFFF_FFFF_B2D0_6000
    ensures Alloc(a, 1, 4096).sbrk < 0xFFFF_FFFF_B2D0_6000
  {
    assert a.free[1..] == [Rg(0, 0)] && a.free[1..][1..] == [];
    assert Grows(a, 4096);
    AllocConserves(a, 1, 4096);
  }

  /** Conservation fails on this run too: the second region lies far outside the area. */
  lemma LargeBreakLoses()
    ensures OpsOk(Large()) && NoOverwrite(Fresh(), Large()) && !After(Fresh(), Large()).Sound()
    ensures After(Fresh(), Large()).sym[1].start == 0xFFFF_FFFF_B2D0_6000 > After(Fresh(), Large()).sbrk
  {
    LargeRun(3_000_000_000);
  }

  lemma LargeRun(n: nat)
    requires n == 3_000_000_000
    ensures var ops := [AllocOp(0, n), AllocOp(1, 4096)];
            && OpsOk(ops) && NoOverwrite(Fresh(), ops) && !After(Fresh(), ops).Sound()
            && After(Fresh(), ops).sym[1].start == 0xFFFF_FFFF_B2D0_6000 > After(Fresh(), ops).sbrk
  {
    FirstAlloc(n);
    var a := Alloc(Fresh(), 0, n);
    LargeSecond(a);
    var ops := [AllocOp(0, n), AllocOp(1, 4096)];
    assert OpsOk(ops) && ops[1..] == [AllocOp(1, 4096)] && ops[1..][1..] == [];
    TwoOps(Fresh(), AllocOp(0, n), AllocOp(1, 4096), a, Alloc(a, 1, 4096));
    assert NoOverwrite(a, ops[1..]);
  }

  lemma FreshTiled()
    ensures Fresh().Sound()
  {
    forall x: nat ensures Count(Fresh().sym, x) + Count(Fresh().free, x) == 0 {
      AllEmpty(Fresh().sym, x);
      AllEmpty(Fresh().free, x);
    }
  }

  lemma {:induction false} AllEmpty(s: seq<Rg>, x: nat)
    requires forall i :: 0 <= i < |s| ==> s[i].Empty()
    ensures Count(s, x) == 0
  {
    if s != [] { AllEmpty(s[1..], x); }
  }
}
