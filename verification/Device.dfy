/**
  A physical memory device as a value (src/mm-memphy.c): its two frame lists and
  the contents of its frames, 4096 bytes each.
 */
module Devices {
  import opened Collections

  type Byte = b: int | 0 <= b < 256
  type PageData = d: seq<Byte> | |d| == 4096 witness seq(4096, _ => 0)

  datatype Device = Device(free: seq<nat>, used: seq<nat>, pages: seq<PageData>) {

    /** The free and the used list partition the frames and hold none twice. */
    ghost predicate Ok() {
      && NoDup(free) && NoDup(used)
      && (forall f :: f in free ==> f < |pages| && f !in used)
      && (forall f :: f in used ==> f < |pages|)
      && (forall f :: 0 <= f < |pages| ==> f in free || f in used)
    }

    /** MEMPHY_get_freefp on a device with a free frame: that frame is free[0]. */
    function Take(): Device
      requires free != []
    {
      Device(free[1..], [free[0]] + used, pages)
    }

    /** MEMPHY_put_freefp; a frame that is not in use is refused. */
    function Give(f: nat): Device {
      if f in used then Device([f] + free, Without(used, f), pages) else this
    }

    /** The contents of a frame; the model gives zeroes outside the device. */
    function Frame(f: nat): PageData { if f < |pages| then pages[f] else seq(4096, _ => 0) }

    function Put(f: nat, data: PageData): Device {
      if f < |pages| then this.(pages := pages[f := data]) else this
    }

    lemma TakeOk()
      requires Ok() && free != []
      ensures Take().Ok()
      ensures forall f :: f in Take().used <==> f in used || f == free[0]
      ensures free[0] !in used && free[0] < |pages|
    {
      assert free == [free[0]] + free[1..];
      assert free[0] in free;
    }

    lemma GiveOk(f: nat)
      requires Ok() && f in used
      ensures Give(f).Ok()
      ensures forall g :: g in Give(f).used <==> g in used && g != f
    {
      WithoutNoDup(used, f);
      forall g ensures g in Without(used, f) <==> g in used && g != f {
        WithoutElements(used, f, g);
      }
    }

    /** Taking a frame and giving it straight back restores the device. */
    lemma TakeGive()
      requires Ok() && free != []
      ensures Take().Give(free[0]) == this
    {
      assert free[0] in free;
      assert Without([free[0]] + used, free[0]) == used;
      assert [free[0]] + free[1..] == free;
    }
  }
}
