/** The setup of the page cache: the pages of each EPC bank are put on the free list. */
module EpcBanks {
  import opened Pages
  import EpcPaging

  /** The pages of a bank from its `i`-th byte on: the address of each page, with the number of the bank in the low
      bits that page addresses leave free. */
  function BankPages(start: nat, size: nat, bank: nat, i: nat): seq<nat>
    decreases size - i
  {
    if i >= size then [] else [start + i + bank] + BankPages(start, size, bank, i + PAGE_SIZE)
  }

  /** The address of a page without the number of its bank. */
  function PageAddress(p: nat): nat {
    p - p % PAGE_SIZE
  }

  lemma AddressOf(a: nat, bank: nat)
    requires a % PAGE_SIZE == 0 && bank < PAGE_SIZE
    ensures PageAddress(a + bank) == a
  {
  }

  ghost predicate Distinct(pages: seq<nat>) {
    forall i, j | 0 <= i < j < |pages| :: pages[i] != pages[j]
  }

  lemma FirstIsDistinct(p: nat, rest: seq<nat>)
    requires Distinct(rest) && p !in rest
    ensures Distinct([p] + rest)
  {
    assert forall k | 0 <= k < |rest| :: rest[k] in rest;
  }

  lemma NothingIsDistinct()
    ensures Distinct([])
  {
  }

  /** Every page of a bank lies in its range, and no two are the same. */
  lemma {:induction false} BankPagesInRange(start: nat, size: nat, bank: nat, i: nat)
    requires start % PAGE_SIZE == 0 && bank < PAGE_SIZE && i % PAGE_SIZE == 0
    ensures forall p | p in BankPages(start, size, bank, i) :: start + i <= PageAddress(p) < start + size
    ensures Distinct(BankPages(start, size, bank, i))
    decreases size - i
  {
    hide PageAddress, Distinct;
    NothingIsDistinct();
    if i < size {
      AddressOf(start + i, bank);
      BankPagesInRange(start, size, bank, i + PAGE_SIZE);
      FirstIsDistinct(start + i + bank, BankPages(start, size, bank, i + PAGE_SIZE));
    }
  }

  /** The number of a page in the paging model: where it first stands on the list. */
  function Number(pages: seq<nat>, p: nat): (n: nat)
    requires p in pages
    ensures n < |pages| && pages[n] == p && p !in pages[..n]
  {
    if pages[0] == p then 0
    else
      var n := 1 + Number(pages[1..], p);
      assert pages[..n] == [pages[0]] + pages[1..][..n - 1];
      n
  }

  function Numbers(pages: seq<nat>): seq<nat> {
    seq(|pages|, i requires 0 <= i < |pages| => Number(pages, pages[i]))
  }

  /** Different pages have different numbers, and every number up to how many there are is used, in order. */
  lemma NumbersInOrder(pages: seq<nat>)
    requires Distinct(pages)
    ensures Numbers(pages) == seq(|pages|, i => i)
  {
  }

  /** Every page-aligned address in the range of the bank is the address of one of its pages. */
  lemma {:induction false} BankPagesCover(start: nat, size: nat, bank: nat, i: nat, a: nat)
    requires start % PAGE_SIZE == 0 && bank < PAGE_SIZE && i % PAGE_SIZE == 0
    requires a % PAGE_SIZE == 0 && start + i <= a < start + size
    ensures a + bank in BankPages(start, size, bank, i) && PageAddress(a + bank) == a
    decreases size - i
  {
    AddressOf(a, bank);
    if a != start + i {
      BankPagesCover(start, size, bank, i + PAGE_SIZE, a);
    }
  }

  lemma DistinctAppend(a: seq<nat>, b: seq<nat>)
    requires Distinct(a) && Distinct(b) && forall p | p in a :: p !in b
    ensures Distinct(a + b)
  {
    forall i, j | 0 <= i < j < |a + b|
      ensures (a + b)[i] != (a + b)[j]
    {
      if i < |a| <= j {
        assert a[i] in a && b[j - |a|] in b;
      }
    }
  }

  class PageCache {
    var free: seq<nat>
    var totalPages: nat
    var freePages: int

    ghost predicate Valid()
      reads this
    {
      totalPages == freePages == |free| && Distinct(free)
    }

    constructor ()
      ensures Valid() && free == []
    {
      free, totalPages, freePages := [], 0, 0;
    }

    /** The state the driver starts in when all banks are there. */
    ghost function Booted(): EpcPaging.State
      reads this
    {
      EpcPaging.State(totalPages, Numbers(free), freePages, 0, 0, map[], map[])
    }

    /** sgx_add_epc_bank, when `nodes` list nodes can be allocated. The banks so far lie elsewhere. If there are not
        enough nodes, the whole free list is given up, the pages of earlier banks with it; the counters stay. */
    method AddEpcBank(start: nat, size: nat, bank: nat, nodes: nat) returns (ok: bool)
      requires Valid() && start % PAGE_SIZE == 0 && bank < PAGE_SIZE
      requires forall p | p in free :: !(start <= PageAddress(p) < start + size)
      modifies this
      ensures ok <==> |BankPages(start, size, bank, 0)| <= nodes
      ensures ok ==> Valid() && free == old(free) + BankPages(start, size, bank, 0)
      ensures ok ==> forall a: nat | a % PAGE_SIZE == 0 && start <= a < start + size :: a + bank in free
      ensures ok ==> EpcPaging.Boot(Booted()) && EpcPaging.Inv(Booted())
      ensures !ok ==> free == [] && totalPages == freePages == |old(free)| + nodes
      ensures !ok ==> (Valid() <==> old(free) == [] && nodes == 0)
    {
      var i, left := 0, nodes;
      BankPagesInRange(start, size, bank, 0);
      ghost var added := BankPages(start, size, bank, 0);
      while i < size
        invariant i % PAGE_SIZE == 0 && totalPages == freePages == |free| == |old(free)| + nodes - left
        invariant free + BankPages(start, size, bank, i) == old(free) + added
      {
        if left == 0 {
          assert |BankPages(start, size, bank, i)| > 0;
          free := [];
          return false;
        }
        left := left - 1;
        free := free + [start + i + bank];
        totalPages := totalPages + 1;
        freePages := freePages + 1;
        i := i + PAGE_SIZE;
      }
      assert free == old(free) + added;
      DistinctAppend(old(free), added);
      NumbersInOrder(free);
      forall a: nat | a % PAGE_SIZE == 0 && start <= a < start + size
        ensures a + bank in free
      {
        BankPagesCover(start, size, bank, 0, a);
      }
      EpcPaging.BootKeepsInv(Booted());
      return true;
    }
  }
}
