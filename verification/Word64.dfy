/**
  The 64-bit words of the MM64 configuration: page-table entries
  (include/mm.h, src/mm64.c:223-314) and the five table indices of a page
  number (include/mm64.h, src/mm64.c:184-214).

  All masks of include/mm.h are 32-bit unsigned constants.  Their complement is
  therefore a 32-bit value too, and clearing bits of a 64-bit entry with it also
  clears the whole upper half of the entry.
 */
module Word64 {
  import opened Collections
  import opened CNumbers

  type Word = bv64

  const MAX_PGN: nat := 0x2000_0000_0000            // 2^45
  const MAX_FRAMES: nat := 0x2000                   // 13-bit FPN field
  const MAX_SWAP_FRAMES: nat := 0x20_0000           // 21-bit swap offset field

  /** One more binary digit. */
  function Append(w: Word, one: bool): Word { if one then (w << 1) | 1 else w << 1 }

  /** The machine word that holds the number n, from its binary digits. */
  function OfNat(n: nat): Word
    requires n < TWO64
  {
    if n == 0 then 0 else Append(OfNat(n / 2), n % 2 == 1)
  }

  lemma {:induction false} OfNatHolds(n: nat)
    requires n < TWO64
    ensures OfNat(n) as nat == n
  {
    if n > 0 {
      OfNatHolds(n / 2);
      AppendHolds(OfNat(n), OfNat(n / 2), n / 2, n % 2 == 1);
    }
  }

  lemma AppendHolds(r: Word, w: Word, m: nat, one: bool)
    requires r == Append(w, one) && w as nat == m && m < 0x8000_0000_0000_0000
    ensures r as nat == 2 * m + (if one then 1 else 0)
  {
    DoubleWord(w);
  }

  lemma DoubleWord(w: Word)
    requires w as nat < 0x8000_0000_0000_0000
    ensures (w << 1) as nat == 2 * (w as nat)
    ensures ((w << 1) | 1) as nat == 2 * (w as nat) + 1
  {
    assert w & 0x8000_0000_0000_0000 == 0;
  }

  lemma ThereAndBack(w: Word)
    ensures (w as nat) as bv64 == w
  {
  }

  lemma SameNatSameWord(v: Word, w: Word)
    requires v as nat == w as nat
    ensures v == w
  {
    ThereAndBack(v);
    ThereAndBack(w);
  }

  // ---- Page-table entries -------------------------------------------------

  // PRESENT is BIT(31), SWAPPED is BIT(30); the fields are FPN = GENMASK(12, 0),
  // SWPTYP = GENMASK(4, 0) and SWPOFF = GENMASK(25, 5).

  function SetBit(v: Word, mask: Word): Word { v | mask }
  function ClrBit(v: Word, mask: Word): Word { v & (mask ^ 0xffff_ffff) }
  function SetVal(v: Word, shifted: Word, mask: Word): Word { (v & (mask ^ 0xffff_ffff)) | (shifted & mask) }

  /** The updates done by pte_set_fpn and pte_set_swap on one entry. */
  function SetFpn(v: Word, fpn: Word): Word {
    SetVal(ClrBit(SetBit(v, 0x8000_0000), 0x4000_0000), fpn << 0, 0x1fff)
  }

  function SetSwap(v: Word, swptyp: Word, swpoff: Word): Word {
    SetVal(SetVal(SetBit(ClrBit(v, 0x8000_0000), 0x4000_0000), swptyp << 0, 0x1f), swpoff << 5, 0x3ff_ffe0)
  }

  /** pte_get_entry hands out the low half of the entry. */
  function Low32(v: Word): Word { v & 0xffff_ffff }

  predicate IsPresent(e: Word) { e & 0x8000_0000 != 0 }
  predicate IsSwapped(e: Word) { e & 0x4000_0000 != 0 }
  function FpnField(e: Word): Word { (e & 0x1fff) >> 0 }
  function SwpField(e: Word): Word { (e & 0x3ff_ffe0) >> 5 }

  datatype Pte = Absent | Present(fpn: nat) | Swapped(off: nat)

  /** What the paging code reads out of an entry. */
  function Decode(v: Word): Pte {
    var e := Low32(v);
    if IsPresent(e) then Present(FpnField(e) as nat)
    else if IsSwapped(e) then Swapped(SwpField(e) as nat)
    else Absent
  }

  lemma SetFpnBits(v: Word, fpn: Word)
    ensures var e := Low32(SetFpn(v, fpn));
            IsPresent(e) && !IsSwapped(e) && FpnField(e) == fpn & 0x1fff
  {
  }

  lemma SetSwapBits(v: Word, typ: Word, off: Word)
    ensures var e := Low32(SetSwap(v, typ, off));
            !IsPresent(e) && IsSwapped(e) && SwpField(e) == off & 0x1f_ffff
  {
  }

  /** The k lowest bits. */
  function Mask(k: nat): Word { if k == 0 then 0 else Append(Mask(k - 1), true) }

  function Pow2(k: nat): (p: nat)
    ensures p > 0
  {
    if k == 0 then 1 else 2 * Pow2(k - 1)
  }

  /** w, r and m' are h, low and m with one digit more, and low is h masked with m. */
  predicate Digits(w: Word, r: Word, h: Word, low: Word, m: Word, m': Word, one: bool) {
    (w == Append(h, one) && r == Append(low, one) && m' == Append(m, true) && h & m == low) == true
  }

  lemma MaskAppend(w: Word, r: Word, h: Word, low: Word, m: Word, m': Word, one: bool)
    ensures Digits(w, r, h, low, m, m', one) ==> w & m' == r
  {
  }

  /** The word of a number, from its half and its last digit. */
  lemma OfNatAppend(half: nat, one: bool)
    requires 2 * half + (if one then 1 else 0) < TWO64
    ensures OfNat(2 * half + (if one then 1 else 0)) == Append(OfNat(half), one)
  {
    var n := 2 * half + (if one then 1 else 0);
    assert n / 2 == half;
  }

  lemma HalveRemainder(n: nat, half: nat, bit: nat, p: nat)
    requires n == 2 * half + bit && bit < 2 && p > 0
    ensures n % (2 * p) == 2 * (half % p) + bit
  {
    var q, r := half / p, half % p;
    assert n == 2 * p * q + (2 * r + bit) by {
      assert half == p * q + r;
      assert 2 * (p * q) == 2 * p * q;
    }
    Remainder(n, 2 * p, q, 2 * r + bit);
  }

  lemma Remainder(n: nat, d: nat, q: nat, r: nat)
    requires d > 0 && r < d && n == d * q + r
    ensures n % d == r
  {
    var z := n / d - q;
    assert d * z == d * (n / d) - d * q;
    Multiple(d, z);
  }

  lemma Multiple(d: int, z: int)
    requires d > 0
    ensures z >= 1 ==> d * z >= d
    ensures z <= -1 ==> d * z <= -d
  {
  }

  /** The number that the k lowest digits of n make. */
  function LowPart(n: nat, k: nat): (r: nat)
    requires n < TWO64
    ensures r <= n
    decreases k
  {
    if k == 0 then 0 else 2 * LowPart(n / 2, k - 1) + n % 2
  }

  lemma {:induction false} LowPartIsRemainder(n: nat, k: nat)
    requires n < TWO64
    ensures LowPart(n, k) == n % Pow2(k)
    decreases k
  {
    if k > 0 {
      LowPartIsRemainder(n / 2, k - 1);
      HalveRemainder(n, n / 2, n % 2, Pow2(k - 1));
    }
  }

  predicate Masked(n: nat, k: nat)
    requires n < TWO64
  {
    OfNat(n) & Mask(k) == OfNat(LowPart(n, k))
  }

  /** Masking keeps the k lowest digits. */
  lemma {:induction false} MaskIsLowPart(n: nat, k: nat)
    requires n < TWO64
    ensures Masked(n, k)
    decreases k
  {
    if k == 0 {
      assert Mask(0) == 0 && OfNat(0) == 0;
    } else {
      MaskIsLowPart(n / 2, k - 1);
      MaskStep(n, k);
    }
  }

  lemma LowPartAppend(n: nat, k: nat)
    requires n < TWO64 && k > 0
    ensures OfNat(LowPart(n, k)) == Append(OfNat(LowPart(n / 2, k - 1)), n % 2 == 1)
  {
    OfNatAppend(LowPart(n / 2, k - 1), n % 2 == 1);
  }

  lemma MaskStep(n: nat, k: nat)
    requires n < TWO64 && k > 0 && Masked(n / 2, k - 1)
    ensures Masked(n, k)
  {
    StepDigits(n, k);
    MaskAppend(OfNat(n), OfNat(LowPart(n, k)), OfNat(n / 2), OfNat(LowPart(n / 2, k - 1)),
               Mask(k - 1), Mask(k), n % 2 == 1);
  }

  lemma StepDigits(n: nat, k: nat)
    requires n < TWO64 && k > 0 && Masked(n / 2, k - 1)
    ensures Digits(OfNat(n), OfNat(LowPart(n, k)), OfNat(n / 2), OfNat(LowPart(n / 2, k - 1)),
                   Mask(k - 1), Mask(k), n % 2 == 1)
  {
    OfNatAppend(n / 2, n % 2 == 1);
    LowPartAppend(n, k);
  }

  lemma MaskCuts(n: nat, k: nat, m: Word, r: nat)
    requires n < TWO64 && r <= n
    ensures m == Mask(k) && r == n % Pow2(k) ==> OfNat(n) & m == OfNat(r)
  {
    MaskIsLowPart(n, k);
    LowPartIsRemainder(n, k);
  }

  // The width is handed out as a variable to keep the verifier from computing with it.

  lemma Mask13() returns (k: nat)
    ensures Mask(k) == 0x1fff && Pow2(k) == 0x2000
  {
    assert Mask(8) == 0xff && Pow2(8) == 0x100;
    k := 13;
  }

  lemma Mask21() returns (k: nat)
    ensures Mask(k) == 0x1f_ffff && Pow2(k) == 0x20_0000
  {
    assert Mask(8) == 0xff && Pow2(8) == 0x100;
    assert Mask(16) == 0xffff && Pow2(16) == 0x1_0000;
    k := 21;
  }

  lemma Mask45() returns (k: nat)
    ensures Mask(k) == 0x1fff_ffff_ffff && Pow2(k) == MAX_PGN
  {
    assert Mask(13) == 0x1fff && Pow2(13) == 0x2000;
    assert Mask(21) == 0x1f_ffff && Pow2(21) == 0x20_0000;
    assert Mask(29) == 0x1fff_ffff && Pow2(29) == 0x2000_0000;
    assert Mask(37) == 0x1f_ffff_ffff && Pow2(37) == 0x20_0000_0000;
    k := 45;
  }

  lemma Low13(n: nat)
    requires n < TWO64
    ensures OfNat(n) & 0x1fff == OfNat(n % 0x2000)
  {
    var k := Mask13();
    MaskCuts(n, k, 0x1fff, n % 0x2000);
  }

  lemma Low21(n: nat)
    requires n < TWO64
    ensures OfNat(n) & 0x1f_ffff == OfNat(n % 0x20_0000)
  {
    var k := Mask21();
    MaskCuts(n, k, 0x1f_ffff, n % 0x20_0000);
  }

  lemma SetFpnDecodes(v: Word, fpn: Word)
    ensures Decode(SetFpn(v, fpn)) == Present((fpn & 0x1fff) as nat)
  {
    SetFpnBits(v, fpn);
  }

  lemma SetSwapDecodes(v: Word, typ: Word, off: Word)
    ensures Decode(SetSwap(v, typ, off)) == Swapped((off & 0x1f_ffff) as nat)
  {
    SetSwapBits(v, typ, off);
  }

  lemma FrameDecodesTo(v: Word, w: Word, cut: Word, r: nat)
    requires w & 0x1fff == cut && cut as nat == r
    ensures Decode(SetFpn(v, w)) == Present(r)
  {
    SetFpnDecodes(v, w);
  }

  lemma SwapDecodesTo(v: Word, typ: Word, w: Word, cut: Word, r: nat)
    requires w & 0x1f_ffff == cut && cut as nat == r
    ensures Decode(SetSwap(v, typ, w)) == Swapped(r)
  {
    SetSwapDecodes(v, typ, w);
  }

  /** A stored frame number is read back modulo 2^13, whatever the entry held before. */
  lemma DecodeSetFpn(v: Word, f: nat)
    requires f < TWO64
    ensures Decode(SetFpn(v, OfNat(f))) == Present(f % 0x2000)
  {
    Low13(f);
    OfNatHolds(f % 0x2000);
    FrameDecodesTo(v, OfNat(f), OfNat(f % 0x2000), f % 0x2000);
  }

  /** A stored swap offset is read back modulo 2^21. */
  lemma DecodeSetSwap(v: Word, typ: Word, off: nat)
    requires off < TWO64
    ensures Decode(SetSwap(v, typ, OfNat(off))) == Swapped(off % 0x20_0000)
  {
    Low21(off);
    OfNatHolds(off % 0x20_0000);
    SwapDecodesTo(v, typ, OfNat(off), OfNat(off % 0x20_0000), off % 0x20_0000);
  }

  lemma FieldsBounded(e: Word)
    ensures FpnField(e) as nat < MAX_FRAMES && SwpField(e) as nat < MAX_SWAP_FRAMES
  {
    assert FpnField(e) <= 0x1fff && SwpField(e) <= 0x1f_ffff;
  }

  /** So every physical address an entry can lead to lies below 2^25. */
  lemma PhysicalAddressBelow(e: Word, off: nat)
    requires off < 4096
    ensures FpnField(e) as nat * 4096 + off < 0x200_0000
  {
    FieldsBounded(e);
  }

  /** The frame survives the encoding exactly when it fits the 13-bit field. */
  lemma FpnFits(v: Word, f: nat)
    requires f < TWO64
    ensures Decode(SetFpn(v, OfNat(f))) == Present(f) <==> f < MAX_FRAMES
  {
    DecodeSetFpn(v, f);
    CutFrame(Decode(SetFpn(v, OfNat(f))), f);
  }

  lemma CutFrame(e: Pte, f: nat)
    requires e == Present(f % 0x2000)
    ensures e == Present(f) <==> f < MAX_FRAMES
  {
  }

  lemma SwapOffsetFits(v: Word, typ: Word, off: nat)
    requires off < TWO64
    ensures Decode(SetSwap(v, typ, OfNat(off))) == Swapped(off) <==> off < MAX_SWAP_FRAMES
  {
    DecodeSetSwap(v, typ, off);
    CutOffset(Decode(SetSwap(v, typ, OfNat(off))), off);
  }

  lemma CutOffset(e: Pte, off: nat)
    requires e == Swapped(off % 0x20_0000)
    ensures e == Swapped(off) <==> off < MAX_SWAP_FRAMES
  {
  }

  type U64 = n: nat | n < TWO64

  datatype EntryUpdate = ToFrame(fpn: U64) | ToSwap(swptyp: Word, swpoff: U64) {
    function Apply(v: Word): Word {
      match this
      case ToFrame(fpn) => SetFpn(v, OfNat(fpn))
      case ToSwap(typ, off) => SetSwap(v, typ, OfNat(off))
    }

    /** The number cut down to its field. */
    function Meaning(): Pte {
      match this
      case ToFrame(fpn) => Present(fpn % 0x2000)
      case ToSwap(_, off) => Swapped(off % 0x20_0000)
    }
  }

  function AfterUpdates(v: Word, us: seq<EntryUpdate>): Word {
    if us == [] then v else us[|us| - 1].Apply(AfterUpdates(v, us[..|us| - 1]))
  }

  lemma UpdateDecodes(v: Word, u: EntryUpdate)
    ensures Decode(u.Apply(v)) == u.Meaning()
  {
    match u
    case ToFrame(f) => DecodeSetFpn(v, f);
    case ToSwap(typ, off) => DecodeSetSwap(v, typ, off);
  }

  lemma UpdateNeverBoth(v: Word, u: EntryUpdate)
    ensures !(IsPresent(Low32(u.Apply(v))) && IsSwapped(Low32(u.Apply(v))))
  {
    match u
    case ToFrame(f) => SetFpnBits(v, OfNat(f));
    case ToSwap(typ, off) => SetSwapBits(v, typ, OfNat(off));
  }

  /**
    Whatever an entry held before and however often it was re-encoded, the last
    update alone decides what it means: its number cut down to its field, with no
    stale bit of earlier encodings (a frame number below a swap offset, a swap type)
    leaking in.  An entry is never present and swapped at once.
   */
  lemma LastUpdateDecides(v: Word, us: seq<EntryUpdate>)
    requires us != []
    ensures Decode(AfterUpdates(v, us)) == us[|us| - 1].Meaning()
    ensures !(IsPresent(Low32(AfterUpdates(v, us))) && IsSwapped(Low32(AfterUpdates(v, us))))
  {
    var before, u := AfterUpdates(v, us[..|us| - 1]), us[|us| - 1];
    UpdateDecodes(before, u);
    UpdateNeverBoth(before, u);
  }

  // ---- The five indices of a page number -----------------------------------

  datatype Indices = Indices(pgd: Word, p4d: Word, pud: Word, pmd: Word, pt: Word)

  /** get_pd_from_address accepts an address whose top seven bits are all 0 or all 1. */
  predicate AddressAccepted(addr: Word) { addr >> 57 == 0 || addr >> 57 == 0x7f }

  function OfAddress(addr: Word): Indices {
    Indices((addr & 0x1ff000000000000) >> 48, (addr & 0xff8000000000) >> 39, (addr & 0x7fc0000000) >> 30,
            (addr & 0x3fe00000) >> 21, (addr & 0x1ff000) >> 12)
  }

  function OfPage(pgn: Word): Indices { OfAddress(pgn << 12) }

  /** get_pd_from_pagenum.  For a refused address it leaves the five indices unset, and the
      walk, which ignores the refusal, goes on with whatever they held: None. */
  function Split(pgn: Word): Option<Indices> {
    if AddressAccepted(pgn << 12) then Some(OfPage(pgn)) else None
  }

  lemma IndicesSmall(pgn: Word)
    ensures var x := OfPage(pgn);
            x.pgd as nat < 512 && x.p4d as nat < 512 && x.pud as nat < 512 && x.pmd as nat < 512 && x.pt as nat < 512
  {
    var x := OfPage(pgn);
    assert x.pgd <= 511 && x.p4d <= 511 && x.pud <= 511 && x.pmd <= 511 && x.pt <= 511;
  }

  function Recombined(x: Indices): Word {
    (x.pgd << 36) | (x.p4d << 27) | (x.pud << 18) | (x.pmd << 9) | x.pt
  }

  lemma FieldsRecombine(p: Word)
    ensures Recombined(OfPage(p)) == p & 0x1fff_ffff_ffff
  {
  }

  /** The indices of an accepted page recombine to its low 45 bits. */
  lemma IndicesRecombine(p: Word)
    ensures Split(p).Some? ==> Recombined(Split(p).value) == p & 0x1fff_ffff_ffff
  {
    FieldsRecombine(p);
  }

  lemma LowBitsDecide(p: Word)
    ensures OfPage(p & 0x1fff_ffff_ffff) == OfPage(p)
  {
  }

  lemma SameFieldsIff(p: Word, q: Word)
    ensures OfPage(p) == OfPage(q) <==> p & 0x1fff_ffff_ffff == q & 0x1fff_ffff_ffff
  {
    if OfPage(p) == OfPage(q) {
      FieldsRecombine(p);
      FieldsRecombine(q);
    }
    if p & 0x1fff_ffff_ffff == q & 0x1fff_ffff_ffff {
      LowBitsDecide(p);
      LowBitsDecide(q);
    }
  }

  /** Two page numbers have the same indices exactly when both are accepted and agree on
      the low 45 bits. */
  lemma SameIndicesIff(p: Word, q: Word)
    ensures Split(p).Some? && Split(p) == Split(q) <==>
            AddressAccepted(p << 12) && AddressAccepted(q << 12) && p & 0x1fff_ffff_ffff == q & 0x1fff_ffff_ffff
  {
    SameFieldsIff(p, q);
  }

  /** Pages of the upper half (top bits 0x7f) are accepted, and have the indices of a
      lower-half page. */
  lemma UpperHalfAliases(p: Word)
    requires p < 0x2000_0000_0000
    ensures Split(p).Some? && Split(p | (0x7f << 45)) == Split(p)
  {
  }

  lemma SmallPage(pgn: nat)
    requires pgn < MAX_PGN
    ensures OfNat(pgn) & 0x1fff_ffff_ffff == OfNat(pgn)
  {
    var k := Mask45();
    MaskCuts(pgn, k, 0x1fff_ffff_ffff, pgn);
  }

  lemma SmallAccepted(w: Word)
    ensures w & 0x1fff_ffff_ffff == w ==> AddressAccepted(w << 12)
  {
  }

  /** Every page number below 2^45 is accepted. */
  lemma PageAccepted(pgn: nat)
    requires pgn < MAX_PGN
    ensures Split(OfNat(pgn)).Some?
  {
    SmallPage(pgn);
    SmallAccepted(OfNat(pgn));
  }

  function Entries(x: Indices): seq<nat> { [x.pgd as nat, x.p4d as nat, x.pud as nat, x.pmd as nat, x.pt as nat] }

  /** The walk of a page number as a list of table slots. */
  function Path(pgn: nat): (path: seq<nat>)
    requires pgn < MAX_PGN
    ensures |path| == 5 && forall i :: 0 <= i < 5 ==> path[i] < 512
  {
    PageAccepted(pgn);
    IndicesSmall(OfNat(pgn));
    Entries(Split(OfNat(pgn)).value)
  }

  /** Distinct pages below 2^45 have distinct paths. */
  lemma PathInjective(p: nat, q: nat)
    requires p < MAX_PGN && q < MAX_PGN
    requires Path(p) == Path(q)
    ensures p == q
  {
    PageAccepted(p);
    PageAccepted(q);
    SamePathEntries(Split(OfNat(p)).value, Split(OfNat(q)).value);
    SameSplit(p, q);
  }

  lemma SameSplit(p: nat, q: nat)
    requires p < MAX_PGN && q < MAX_PGN && Split(OfNat(p)).Some? && Split(OfNat(p)) == Split(OfNat(q))
    ensures p == q
  {
    SameIndicesIff(OfNat(p), OfNat(q));
    SmallPage(p);
    SmallPage(q);
    SameWord(p, q);
  }

  lemma SameWord(p: nat, q: nat)
    requires p < TWO64 && q < TWO64
    ensures OfNat(p) == OfNat(q) ==> p == q
  {
    OfNatHolds(p);
    OfNatHolds(q);
  }

  lemma SamePathEntries(x: Indices, y: Indices)
    ensures Entries(x) == Entries(y) ==> x == y
  {
    if Entries(x) == Entries(y) {
      var s, t := Entries(x), Entries(y);
      assert s[0] == t[0] && s[1] == t[1] && s[2] == t[2] && s[3] == t[3] && s[4] == t[4];
      SameNatSameWord(x.pgd, y.pgd);
      SameNatSameWord(x.p4d, y.p4d);
      SameNatSameWord(x.pud, y.pud);
      SameNatSameWord(x.pmd, y.pmd);
      SameNatSameWord(x.pt, y.pt);
    }
  }
}
