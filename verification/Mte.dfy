/** Memory tags: one small number per 16-byte granule, and pointers that carry a tag. */
module Mte {

  const GRANULE: nat := 16

  type Tag = t: int | 0 <= t < 16

  datatype Pointer = Pointer(addr: nat, tag: Tag)

  /** The region starting at addr covers this granule. */
  predicate InRegion(granule: nat, addr: nat, size: nat) {
    addr < (granule + 1) * GRANULE && granule * GRANULE < addr + size
  }

  /** Every granule of the region carries the tag. */
  ghost predicate Matches(tags: map<nat, Tag>, addr: nat, size: nat, tag: Tag) {
    forall g: nat | InRegion(g, addr, size) :: g in tags && tags[g] == tag
  }

  predicate Whole(addr: nat, size: nat) { addr % GRANULE == 0 && size % GRANULE == 0 }

  /** Disjoint regions made of whole granules share none. Other regions may. */
  lemma GranulesApart(a: nat, sizeA: nat, b: nat, sizeB: nat, g: nat)
    requires Whole(a, sizeA) && Whole(b, sizeB) && (a + sizeA <= b || b + sizeB <= a)
    ensures !(InRegion(g, a, sizeA) && InRegion(g, b, sizeB))
  {
    WholeGranules(a, sizeA, g);
    WholeGranules(b, sizeB, g);
  }

  lemma WholeGranules(a: nat, size: nat, g: nat)
    requires Whole(a, size)
    ensures InRegion(g, a, size) <==> a / GRANULE <= g < a / GRANULE + size / GRANULE
  {
    assert a == a / GRANULE * GRANULE && size == size / GRANULE * GRANULE;
  }

  class TagMemory {
    var tags: map<nat, Tag>

    constructor ()
      ensures tags == map[]
    {
      tags := map[];
    }

    /** STG: tags the granule at addr. */
    method StoreTag(addr: nat, tag: Tag)
      modifies this
      ensures tags == old(tags)[addr / GRANULE := tag]
    {
      tags := tags[addr / GRANULE := tag];
    }

    /** tag_pointer with the tag that IRG picks: afterwards the region's granules, and no others,
        have the tag of the pointer that is returned. */
    method TagPointer(addr: nat, size: nat, picked: Tag) returns (p: Pointer)
      requires addr != 0 && Whole(addr, size)
      modifies this
      ensures p == Pointer(addr, picked) && Matches(tags, addr, size, picked)
      ensures forall g: nat | !InRegion(g, addr, size) ::
              (g in tags <==> g in old(tags)) && (g in tags ==> tags[g] == old(tags[g]))
    {
      p := Pointer(addr, picked);
      StoreTags(addr, size, picked);
    }

    /** untag_pointer: the region's granules get tag 0, as does the pointer. */
    method UntagPointer(p: Pointer, size: nat) returns (q: Pointer)
      requires p.addr != 0 && Whole(p.addr, size)
      modifies this
      ensures q == Pointer(p.addr, 0) && Matches(tags, p.addr, size, 0)
      ensures forall g: nat | !InRegion(g, p.addr, size) ::
              (g in tags <==> g in old(tags)) && (g in tags ==> tags[g] == old(tags[g]))
    {
      q := Pointer(p.addr, 0);
      StoreTags(p.addr, size, 0);
    }

    method StoreTags(addr: nat, size: nat, tag: Tag)
      requires Whole(addr, size)
      modifies this
      ensures Matches(tags, addr, size, tag)
      ensures forall g: nat | !InRegion(g, addr, size) ::
              (g in tags <==> g in old(tags)) && (g in tags ==> tags[g] == old(tags[g]))
    {
      var ptr, end := addr, addr + size;
      while ptr < end
        invariant addr <= ptr <= end && ptr % GRANULE == 0
        invariant forall g: nat :: (addr / GRANULE <= g < ptr / GRANULE ==> g in tags && tags[g] == tag)
        invariant forall g: nat | !(addr / GRANULE <= g < ptr / GRANULE) ::
                  (g in tags <==> g in old(tags)) && (g in tags ==> tags[g] == old(tags[g]))
      {
        StoreTag(ptr, tag);
        ptr := ptr + GRANULE;
      }
      forall g: nat ensures InRegion(g, addr, size) <==> addr / GRANULE <= g < ptr / GRANULE {
        WholeGranules(addr, size, g);
      }
    }
  }
}
