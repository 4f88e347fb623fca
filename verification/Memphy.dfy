/**
  The physical memory device of src/mm-memphy.c: a byte array and the free and used frame
  lists, and the page copy between two devices (src/mm64.c:600-613).  Every operation is
  proved against the device value of module Devices.
 */
module Memphys {
  import opened Devices
  import opened Collections

  /** The contents of the first n frames of a storage. */
  function PagesIn(s: seq<Byte>, n: nat): (pages: seq<PageData>)
    requires n * 4096 <= |s|
    ensures |pages| == n
  {
    seq(n, f requires 0 <= f < n => s[f * 4096..f * 4096 + 4096])
  }

  function Numbers(n: nat): seq<nat> { seq(n, i => i) }

  /** All frames a format with this page size creates lie inside the storage. */
  predicate FramesFit(maxsz: nat, pagesz: nat)
    requires pagesz > 0
  {
    maxsz / pagesz * 4096 <= maxsz
  }

  /** Frames are addressed at 4096 bytes each, so a format with that size fits every
      device; the 256 that init_memphy passes fits only a device without any frame. */
  lemma WhichFormatFits(maxsz: nat)
    ensures FramesFit(maxsz, 4096)
    ensures FramesFit(maxsz, 256) <==> maxsz < 256
  {
  }

  class Memphy {
    const storage: array<Byte>
    var free: seq<nat>
    var used: seq<nat>
    ghost var d: Device

    ghost predicate Valid()
      reads this, storage
    {
      && free == d.free && used == d.used
      && |d.pages| * 4096 <= storage.Length
      && forall f, o :: 0 <= f < |d.pages| && 0 <= o < 4096 ==> storage[f * 4096 + o] == d.pages[f][o]
    }

    /** init_memphy, up to the format. */
    constructor (maxsz: nat)
      ensures Valid() && fresh(storage) && storage.Length == maxsz && d == Device([], [], [])
      ensures forall i :: 0 <= i < maxsz ==> storage[i] == 0
    {
      storage := new Byte[maxsz](_ => 0);
      free, used, d := [], [], Device([], [], []);
    }

    /** MEMPHY_format: all frames free, in ascending order; refused for a device smaller
        than one page. */
    method Format(pagesz: nat) returns (ok: bool)
      requires Valid() && pagesz > 0
      modifies this
      ensures ok <==> pagesz <= storage.Length
      ensures ok ==> free == Numbers(storage.Length / pagesz) && used == []
      ensures !ok ==> Valid() && d == old(d)
      ensures ok && FramesFit(storage.Length, pagesz) ==>
                var n := storage.Length / pagesz;
                Valid() && d == Device(Numbers(n), [], PagesIn(storage[..], n))
    {
      var numfp := storage.Length / pagesz;
      Quotient(storage.Length, pagesz);
      if numfp == 0 {
        return false;
      }
      free := [0];
      for iter := 1 to numfp
        invariant |free| == iter && forall i :: 0 <= i < iter ==> free[i] == i
      {
        free := free + [iter];
      }
      used := [];
      assert free == Numbers(numfp);
      if FramesFit(storage.Length, pagesz) {
        d := Device(free, used, PagesIn(storage[..], numfp));
      }
      return true;
    }

    static lemma Quotient(a: nat, b: nat)
      requires b > 0
      ensures a / b > 0 <==> b <= a
    {
      if b <= a { assert a / b >= 1; }
    }

    /** MEMPHY_get_freefp */
    method GetFreefp() returns (fpn: Option<nat>)
      requires Valid()
      modifies this
      ensures Valid()
      ensures fpn == if old(d.free) == [] then None else Some(old(d.free)[0])
      ensures d == if old(d.free) == [] then old(d) else old(d).Take()
    {
      if free == [] {
        return None;
      }
      fpn := Some(free[0]);
      free, used := free[1..], [free[0]] + used;
      d := d.Take();
    }

    /** MEMPHY_put_freefp: the frame is looked for in the used list. */
    method PutFreefp(fpn: nat) returns (ok: bool)
      requires Valid()
      modifies this
      ensures Valid() && d == old(d).Give(fpn) && (ok <==> fpn in old(d.used))
    {
      var i := 0;
      while i < |used| && used[i] != fpn
        invariant i <= |used| && fpn !in used[..i]
      {
        i := i + 1;
      }
      d := d.Give(fpn);
      if i == |used| {
        assert used[..i] == used;
        return false;
      }
      WithoutAt(used, fpn, i);
      used := used[..i] + used[i + 1..];
      free := [fpn] + free;
      return true;
    }

    /** MEMPHY_read on a random-access device. */
    method Read(addr: nat) returns (value: Byte)
      requires Valid() && addr < storage.Length
      ensures addr / 4096 < |d.pages| ==> value == d.pages[addr / 4096][addr % 4096]
    {
      value := storage[addr];
      assert addr == addr / 4096 * 4096 + addr % 4096;
    }

    /** MEMPHY_write on a random-access device.  A byte behind the last whole frame is
        written too, and belongs to no frame. */
    method Write(addr: nat, data: Byte)
      requires Valid() && addr < storage.Length
      modifies this`d, storage
      ensures Valid() && d == old(d).Put(addr / 4096, old(d).Frame(addr / 4096)[addr % 4096 := data])
      ensures storage[..] == old(storage[..])[addr := data]
    {
      assert addr == addr / 4096 * 4096 + addr % 4096;
      storage[addr] := data;
      d := d.Put(addr / 4096, d.Frame(addr / 4096)[addr % 4096 := data]);
    }
  }

  /** The contents of a page after its first k bytes were copied from another. */
  function Mixed(src: PageData, dst: PageData, k: nat): (r: PageData)
    requires k <= 4096
  {
    src[..k] + dst[k..]
  }

  lemma MixedSteps(src: PageData, dst: PageData, k: nat)
    requires k <= 4096
    ensures Mixed(src, dst, 0) == dst && Mixed(src, dst, 4096) == src
    ensures k < 4096 ==> Mixed(src, dst, k)[k := src[k]] == Mixed(src, dst, k + 1)
  {
  }

  lemma PutTwice(d: Device, f: nat, x: PageData, y: PageData)
    requires f < |d.pages|
    ensures d.Put(f, d.pages[f]) == d && d.Put(f, x).Put(f, y) == d.Put(f, y) && d.Put(f, x).Frame(f) == x
  {
    assert d.pages[f := d.pages[f]] == d.pages;
  }

  /** __swap_cp_page: byte by byte, the destination frame becomes the source frame. */
  method SwapCopyPage(src: Memphy, srcfpn: nat, dst: Memphy, dstfpn: nat)
    requires src.Valid() && dst.Valid() && src != dst && src.storage != dst.storage
    requires srcfpn < |src.d.pages| && dstfpn < |dst.d.pages|
    modifies dst`d, dst.storage
    ensures src.Valid() && src.d == old(src.d)
    ensures dst.Valid() && dst.d == old(dst.d).Put(dstfpn, old(src.d).Frame(srcfpn))
  {
    ghost var from, to, was := src.d.pages[srcfpn], dst.d.pages[dstfpn], dst.d;
    MixedSteps(from, to, 0);
    PutTwice(was, dstfpn, to, to);
    for cellidx := 0 to 4096
      invariant src.Valid() && src.d == old(src.d) && dst.Valid()
      invariant dst.d == was.Put(dstfpn, Mixed(from, to, cellidx))
    {
      var data := src.Read(srcfpn * 4096 + cellidx);
      dst.Write(dstfpn * 4096 + cellidx, data);
      MixedSteps(from, to, cellidx);
      PutTwice(was, dstfpn, Mixed(from, to, cellidx), Mixed(from, to, cellidx + 1));
    }
  }
}
