/** Version array pages: each has 512 slots, and an enclave page keeps one of them for as long as it exists. */
module VaSlots {
  import opened Pages

  const SLOT_COUNT := 512

  class VaPage {
    const slots: array<bool>

    ghost predicate Valid() {
      slots.Length == SLOT_COUNT
    }

    ghost predicate Full()
      requires Valid()
      reads slots
    {
      forall i | 0 <= i < SLOT_COUNT :: slots[i]
    }

    constructor ()
      ensures Valid() && fresh(slots) && forall i | 0 <= i < SLOT_COUNT :: !slots[i]
    {
      slots := new bool[SLOT_COUNT](_ => false);
    }

    /** The offset of the first free slot, which is taken; the page size when there is none. */
    method AllocSlot() returns (offset: nat)
      requires Valid()
      modifies slots
      ensures offset <= PAGE_SIZE && offset % 8 == 0
      ensures offset < PAGE_SIZE ==> !old(slots[offset / 8]) && slots[..] == old(slots[..])[offset / 8 := true]
      ensures offset == PAGE_SIZE <==> old(Full())
      ensures offset == PAGE_SIZE ==> slots[..] == old(slots[..])
      ensures forall i | 0 <= i < offset / 8 :: old(slots[i])
    {
      var slot: nat := 0;
      while slot < SLOT_COUNT && slots[slot]
        invariant slot <= SLOT_COUNT && forall i | 0 <= i < slot :: slots[i]
      {
        slot := slot + 1;
      }
      if slot < SLOT_COUNT {
        slots[slot] := true;
      }
      offset := slot * 8;
    }

    method FreeSlot(offset: nat)
      requires Valid() && offset < PAGE_SIZE
      modifies slots
      ensures slots[..] == old(slots[..])[offset / 8 := false]
    {
      slots[offset / 8] := false;
    }
  }

  ghost predicate ValidPages(pages: seq<VaPage>) {
    && (forall p | p in pages :: p.Valid())
    && (forall i, j | 0 <= i < j < |pages| :: pages[i].slots != pages[j].slots)
  }

  /** The search of sgx_init_page, undisturbed by others: a slot of one of the enclave's pages, or of a new page when
      all are full. The slot was in nobody's use, and no other slot is touched. It fails, and touches nothing, exactly
      if all pages are full and a new one cannot be set up. */
  method InitPage(pages: seq<VaPage>, canAllocate: bool)
    returns (ok: bool, page: VaPage?, offset: nat, pages': seq<VaPage>)
    requires ValidPages(pages)
    modifies set p | p in pages :: p.slots
    ensures ok <==> canAllocate || exists p :: p in pages && !old(p.Full())
    ensures ValidPages(pages')
    ensures !ok ==> pages' == pages && page == null && forall p | p in pages :: p.slots[..] == old(p.slots[..])
    ensures ok ==> page != null && page in pages' && offset < PAGE_SIZE && offset % 8 == 0
    ensures ok ==> page.slots[offset / 8] && (page in pages ==> !old(page.slots[offset / 8]))
    ensures ok ==> forall p, i | p in pages && 0 <= i < SLOT_COUNT && (p != page || i != offset / 8) ::
                     p.slots[i] == old(p.slots[i])
    ensures ok && page in pages ==> pages' == pages
    ensures ok && page !in pages ==>
              && fresh(page) && fresh(page.slots) && pages' == [page] + pages
              && (forall p | p in pages :: old(p.Full()))
              && (forall i | 0 <= i < SLOT_COUNT && i != offset / 8 :: !page.slots[i])
  {
    var k := 0;
    while k < |pages|
      invariant 0 <= k <= |pages|
      invariant forall p | p in pages :: p.slots[..] == old(p.slots[..])
      invariant forall j | 0 <= j < k :: old(pages[j].Full())
    {
      var candidate := pages[k];
      offset := candidate.AllocSlot();
      if offset < PAGE_SIZE {
        return true, candidate, offset, pages;
      }
      k := k + 1;
    }
    if !canAllocate {
      return false, null, PAGE_SIZE, pages;
    }
    var added := new VaPage();
    assert !added.slots[0];
    offset := added.AllocSlot();
    return true, added, offset, [added] + pages;
  }
}
