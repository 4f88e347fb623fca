/**
  The list of areas of an address space (src/mm-vm.c:31-53, 105-149, 157-214): looking an
  area up by its number, the test that a planned range overlaps no other area, and the
  growth of one area of several.
 */
module VmAreas {
  import opened Collections
  import opened CNumbers

  datatype Vma = Vma(id: int, start: nat, end: nat) {
    predicate Has(x: nat) { start <= x < end }
  }

  /** The area get_vma_by_num stops at: the first whose number is not smaller. */
  predicate IsFirst(areas: seq<Vma>, vmaid: int, k: nat) {
    k < |areas| && areas[k].id >= vmaid && forall j :: 0 <= j < k ==> areas[j].id < vmaid
  }

  method GetVmaByNum(areas: seq<Vma>, vmaid: int) returns (k: Option<nat>)
    ensures k.Some? ==> IsFirst(areas, vmaid, k.value)
    ensures k.None? ==> forall j :: 0 <= j < |areas| ==> areas[j].id < vmaid
  {
    var i := 0;
    while i < |areas| && areas[i].id < vmaid
      invariant i <= |areas| && forall j :: 0 <= j < i ==> areas[j].id < vmaid
    {
      i := i + 1;
    }
    return if i < |areas| then Some(i) else None;
  }

  /** Area v keeps clear of [start, end) in the sense of the test. */
  predicate Clear(v: Vma, start: nat, end: nat) { !(start < v.end && v.start < end) }

  /** Every area but the one with number vmaid keeps clear. */
  predicate OthersClear(areas: seq<Vma>, vmaid: int, start: nat, end: nat) {
    forall j :: 0 <= j < |areas| && areas[j].id != vmaid ==> Clear(areas[j], start, end)
  }

  /** validate_overlap_vm_area */
  method ValidateOverlap(areas: seq<Vma>, vmaid: int, start: nat, end: nat) returns (ok: bool)
    ensures ok <==> start < end && areas != [] && OthersClear(areas, vmaid, start, end)
  {
    if start >= end || areas == [] {
      return false;
    }
    for i := 0 to |areas|
      invariant forall j :: 0 <= j < i && areas[j].id != vmaid ==> Clear(areas[j], start, end)
    {
      if areas[i].id != vmaid && start < areas[i].end && areas[i].start < end {
        return false;
      }
    }
    return true;
  }

  /** What the test means: it rejects an area exactly if the area shares an address with
      the range, or is empty and lies strictly inside it. */
  lemma ClearMeansDisjoint(v: Vma, start: nat, end: nat)
    requires start < end && v.start <= v.end
    ensures !Clear(v, start, end) <==>
            (exists x: nat :: v.Has(x) && start <= x < end) || (v.start == v.end && start < v.start < end)
  {
    if !Clear(v, start, end) && v.start < v.end {
      var x := if v.start < start then start else v.start;
      assert v.Has(x) && start <= x < end;
    }
  }

  // ---- Growing one area of several ----------------------------------------------------------

  function Grown(v: Vma, end: nat): Vma { v.(end := end) }

  /** Area k is the one asked for, and its new end in 64 bits passes the test. */
  predicate Allowed(areas: seq<Vma>, vmaid: int, k: nat, amount: nat) {
    && IsFirst(areas, vmaid, k) && areas[k].end < Wrap(areas[k].end + amount)
    && OthersClear(areas, vmaid, areas[k].end, Wrap(areas[k].end + amount))
  }

  /** The area part of inc_vma_limit: the new list and the index of the area that grew, or
      None if there is no such area or the growth would overlap another one. */
  method IncLimit(areas: seq<Vma>, vmaid: int, amount: nat) returns (k: Option<nat>, areas': seq<Vma>)
    ensures k.None? ==> areas' == areas
    ensures k.Some? ==> IsFirst(areas, vmaid, k.value)
    ensures k.Some? ==> areas' == areas[k.value := Grown(areas[k.value], Wrap(areas[k.value].end + amount))]
    ensures k.Some? <==> exists i: nat :: Allowed(areas, vmaid, i, amount)
  {
    k := GetVmaByNum(areas, vmaid);
    if k.None? {
      assert forall i: nat :: !IsFirst(areas, vmaid, i);
      return None, areas;
    }
    var newEnd := Wrap(areas[k.value].end + amount);
    var ok := ValidateOverlap(areas, vmaid, areas[k.value].end, newEnd);
    if !ok {
      assert forall i: nat :: IsFirst(areas, vmaid, i) ==> i == k.value;
      return None, areas;
    }
    assert Allowed(areas, vmaid, k.value, amount);
    areas' := areas[k.value := Grown(areas[k.value], newEnd)];
  }

  /** No two areas share an address. */
  ghost predicate Apart(areas: seq<Vma>) {
    forall i, j, x: nat :: 0 <= i < j < |areas| ==> !(areas[i].Has(x) && areas[j].Has(x))
  }

  /** The list is sorted by number. */
  predicate WellNumbered(areas: seq<Vma>) {
    && (forall i, j :: 0 <= i < j < |areas| ==> areas[i].id < areas[j].id)
    && (forall i :: 0 <= i < |areas| ==> areas[i].start <= areas[i].end)
  }

  /** No empty area lies strictly inside (start, end). */
  predicate NoneInside(areas: seq<Vma>, start: nat, end: nat) {
    forall j :: 0 <= j < |areas| && areas[j].start == areas[j].end ==> !(start < areas[j].start < end)
  }

  /** The test accepts a growth exactly when the areas then still share no address, and no
      empty area is swallowed. */
  lemma GrowthAcceptedIff(areas: seq<Vma>, vmaid: int, k: nat, end: nat)
    requires WellNumbered(areas) && Apart(areas) && IsFirst(areas, vmaid, k) && areas[k].end < end
    ensures OthersClear(areas, vmaid, areas[k].end, end) <==>
            Apart(areas[k := Grown(areas[k], end)]) && NoneInside(areas, areas[k].end, end)
  {
    var start, areas' := areas[k].end, areas[k := Grown(areas[k], end)];
    if OthersClear(areas, vmaid, start, end) {
      forall i, j, x: nat | 0 <= i < j < |areas| ensures !(areas'[i].Has(x) && areas'[j].Has(x)) {
        assert !(areas[i].Has(x) && areas[j].Has(x));
        OneClear(areas, vmaid, k, start, end, i);
        OneClear(areas, vmaid, k, start, end, j);
      }
      forall j | 0 <= j < |areas| ensures Clear(areas[j], start, end) {
        OneClear(areas, vmaid, k, start, end, j);
      }
    } else {
      var j :| 0 <= j < |areas| && areas[j].id != vmaid && !Clear(areas[j], start, end);
      ClearMeansDisjoint(areas[j], start, end);
      if x: nat :| areas[j].Has(x) && start <= x < end {
        assert areas'[k].Has(x) && areas'[j].Has(x);
      }
    }
  }

  lemma OneClear(areas: seq<Vma>, vmaid: int, k: nat, start: nat, end: nat, j: nat)
    requires WellNumbered(areas) && IsFirst(areas, vmaid, k) && start == areas[k].end && j < |areas|
    requires OthersClear(areas, vmaid, start, end)
    ensures Clear(areas[j], start, end)
  {
  }
}
