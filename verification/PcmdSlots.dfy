/** Where the driver keeps the paging metadata (PCMD) of an evicted enclave page: a page of the PCMD file, counted
    from the enclave's base, and an offset in it taken from the absolute address. */
module PcmdSlots {
  import opened Pages
  import opened PowersOfTwo

  const PCMD_SIZE := 128
  /** What one page of the PCMD file covers: 32 pages. */
  const PCMD_SPAN := 131072

  /** What sgx_validate_secs demands of the range of an enclave. */
  predicate Validated(base: nat, size: nat) {
    size >= 2 * PAGE_SIZE && PowerOfTwo(size) && base % size == 0
  }

  /** A page of the enclave, or the one behind its last that stands for the SECS. */
  predicate IsPage(base: nat, size: nat, addr: nat) {
    base <= addr <= base + size && addr % PAGE_SIZE == 0
  }

  /** sgx_get_backing: (addr - base) >> (PAGE_SHIFT + 5) */
  function PcmdIndex(base: nat, addr: nat): nat
    requires base <= addr
  {
    (addr - base) / PCMD_SPAN
  }

  /** ((addr >> PAGE_SHIFT) & 31) * 128 */
  function PcmdOffset(addr: nat): nat {
    addr / PAGE_SIZE % 32 * PCMD_SIZE
  }

  /** sgx_encl_alloc: (size + PAGE_SIZE) >> 5 bytes */
  function PcmdFileSize(size: nat): nat {
    (size + PAGE_SIZE) / 32
  }

  lemma Powers()
    ensures PowerOfTwo(8192) && PowerOfTwo(16384) && PowerOfTwo(32768) && PowerOfTwo(65536) && PowerOfTwo(131072)
  {
    assert PowerOfTwo(2) && PowerOfTwo(8) && PowerOfTwo(16) && PowerOfTwo(32);
    TimesSixteen(32);
    TimesSixteen(512);
    assert PowerOfTwo(16384) && PowerOfTwo(32768);
  }

  lemma {:induction false} LargePowerIsMultiple(n: nat)
    requires PowerOfTwo(n) && n >= PCMD_SPAN
    ensures n % PCMD_SPAN == 0
  {
    hide PowerOfTwo;
    Powers();
    if n > PCMD_SPAN {
      NextPower(PCMD_SPAN, n);
      var half := Half(n);
      LargePowerIsMultiple(half);
      SumOfMultiples(half, half);
    }
  }

  lemma Half(n: nat) returns (half: nat)
    requires PowerOfTwo(n) && n > 1
    ensures PowerOfTwo(half) && n == half + half
  {
    half := n / 2;
  }

  lemma {:induction false} Multiple(n: nat, q: nat)
    requires n % PCMD_SPAN == 0
    ensures (n * q) % PCMD_SPAN == 0
  {
    if q > 0 {
      Multiple(n, q - 1);
      SumOfMultiples(n * (q - 1), n);
      assert n * q == n * (q - 1) + n;
    }
  }

  lemma SumOfMultiples(a: nat, b: nat)
    requires a % PCMD_SPAN == 0 && b % PCMD_SPAN == 0
    ensures (a + b) % PCMD_SPAN == 0
  {
  }

  /** An enclave either spans whole PCMD pages and starts at the beginning of one, or is one of four small sizes. */
  lemma Sizes(base: nat, size: nat)
    requires Validated(base, size)
    ensures if size >= PCMD_SPAN then size % PCMD_SPAN == 0 && base % PCMD_SPAN == 0
            else size == 8192 || size == 16384 || size == 32768 || size == 65536
    ensures size % PAGE_SIZE == 0 && base % PAGE_SIZE == 0
  {
    if size >= PCMD_SPAN {
      LargePowerIsMultiple(size);
      BaseIsMultiple(base, size);
    } else {
      SmallSizes(size);
      SmallBase(base, size);
    }
  }

  lemma BaseIsMultiple(base: nat, size: nat)
    requires size > 0 && size % PCMD_SPAN == 0 && base % size == 0
    ensures base % PCMD_SPAN == 0
  {
    var q := base / size;
    Multiple(size, q);
    assert base == size * q;
  }

  lemma SmallSizes(size: nat)
    requires PowerOfTwo(size) && 8192 <= size < PCMD_SPAN
    ensures size == 8192 || size == 16384 || size == 32768 || size == 65536
  {
    hide PowerOfTwo;
    Powers();
    if size > 8192 { NextPower(8192, size); }
    if size > 16384 { NextPower(16384, size); }
    if size > 32768 { NextPower(32768, size); }
    if size > 65536 { NextPower(65536, size); }
  }

  lemma SmallBase(base: nat, size: nat)
    requires size == 8192 || size == 16384 || size == 32768 || size == 65536
    requires base % size == 0
    ensures base % PAGE_SIZE == 0
  {
    PageMultiple(base, size, size / PAGE_SIZE);
  }

  lemma PageMultiple(base: nat, size: nat, m: nat)
    requires size == m * PAGE_SIZE && size > 0 && base % size == 0
    ensures base % PAGE_SIZE == 0
  {
    var q := base / size;
    assert base == size * q == (m * PAGE_SIZE) * q == PAGE_SIZE * (m * q);
  }

  /** The page that a slot belongs to. */
  function PageOfSlot(base: nat, index: nat, offset: nat): nat {
    base + index * PCMD_SPAN + (offset / PCMD_SIZE * PAGE_SIZE - base) % PCMD_SPAN
  }

  /** A slot tells the page it belongs to, although its two coordinates are counted from different origins. */
  lemma SlotDeterminesPage(base: nat, size: nat, addr: nat)
    requires IsPage(base, size, addr)
    ensures PageOfSlot(base, PcmdIndex(base, addr), PcmdOffset(addr)) == addr
  {
    hide PcmdOffset;
    OffsetIsResidue(addr);
    ResidueOfDifference(addr, base);
    assert addr - base == (addr - base) / PCMD_SPAN * PCMD_SPAN + (addr - base) % PCMD_SPAN;
  }

  lemma OffsetIsResidue(addr: nat)
    requires addr % PAGE_SIZE == 0
    ensures PcmdOffset(addr) / PCMD_SIZE * PAGE_SIZE == addr % PCMD_SPAN
  {
    var k := addr / PAGE_SIZE;
    assert addr == k * PAGE_SIZE && k == k / 32 * 32 + k % 32;
  }

  lemma ResidueOfDifference(a: nat, b: nat)
    ensures (a % PCMD_SPAN - b) % PCMD_SPAN == (a - b) % PCMD_SPAN
  {
    assert a == a / PCMD_SPAN * PCMD_SPAN + a % PCMD_SPAN;
  }

  /** Different pages of an enclave, the SECS among them, never share a slot. */
  lemma DistinctSlots(base: nat, size: nat, a: nat, b: nat)
    requires IsPage(base, size, a) && IsPage(base, size, b) && a != b
    ensures (PcmdIndex(base, a), PcmdOffset(a)) != (PcmdIndex(base, b), PcmdOffset(b))
  {
    SlotDeterminesPage(base, size, a);
    SlotDeterminesPage(base, size, b);
  }

  /** Each slot lies in one page, and that page belongs to the file. */
  lemma SlotInFile(base: nat, size: nat, addr: nat)
    requires Validated(base, size) && IsPage(base, size, addr)
    ensures PcmdOffset(addr) + PCMD_SIZE <= PAGE_SIZE
    ensures PcmdIndex(base, addr) * PAGE_SIZE < PcmdFileSize(size)
  {
    Sizes(base, size);
  }

  predicate WithinLength(base: nat, size: nat, addr: nat)
    requires base <= addr
  {
    PcmdIndex(base, addr) * PAGE_SIZE + PcmdOffset(addr) + PCMD_SIZE <= PcmdFileSize(size)
  }

  /** All slots lie within the length the file was set up with exactly when the enclave is large, or its base is
      aligned to what one PCMD page covers. Otherwise the page is there, but some slot in it is beyond the length. */
  lemma LengthSuffices(base: nat, size: nat)
    requires Validated(base, size)
    ensures (forall addr | IsPage(base, size, addr) :: WithinLength(base, size, addr))
            <==> size >= PCMD_SPAN || base % PCMD_SPAN == 0
  {
    if size >= PCMD_SPAN || base % PCMD_SPAN == 0 {
      forall addr | IsPage(base, size, addr)
        ensures WithinLength(base, size, addr)
      {
        AlignedWithinLength(base, size, addr);
      }
    } else {
      LastBeyondLength(base, size);
    }
  }

  /** The range in pages. */
  lemma InPages(base: nat, size: nat, addr: nat) returns (n: nat, page: nat)
    requires base % PAGE_SIZE == 0 && size % PAGE_SIZE == 0 && IsPage(base, size, addr)
    ensures size == n * PAGE_SIZE && addr == base + page * PAGE_SIZE && page <= n
  {
    var m, k := base / PAGE_SIZE, addr / PAGE_SIZE;
    n, page := size / PAGE_SIZE, k - m;
    assert base == m * PAGE_SIZE && addr == k * PAGE_SIZE && size == n * PAGE_SIZE;
  }

  lemma AlignedWithinLength(base: nat, size: nat, addr: nat)
    requires Validated(base, size) && IsPage(base, size, addr)
    requires size >= PCMD_SPAN || base % PCMD_SPAN == 0
    ensures WithinLength(base, size, addr)
  {
    hide PcmdIndex, PcmdOffset, PcmdFileSize, Validated;
    Sizes(base, size);
    var n, page := InPages(base, size, addr);
    SlotOfPage(base, addr, page);
    FileSizeInPages(size, n);
  }

  /** Where the base is aligned to a PCMD page, the slots follow the pages. */
  lemma SlotOfPage(base: nat, addr: nat, page: nat)
    requires base % PCMD_SPAN == 0 && addr == base + page * PAGE_SIZE
    ensures PcmdIndex(base, addr) * PAGE_SIZE + PcmdOffset(addr) == page * PCMD_SIZE
  {
    var k := base / PCMD_SPAN;
    assert base == k * PCMD_SPAN;
    assert addr / PAGE_SIZE == 32 * k + page;
    assert PcmdIndex(base, addr) == page / 32;
  }

  lemma FileSizeInPages(size: nat, n: nat)
    requires size == n * PAGE_SIZE
    ensures PcmdFileSize(size) == (n + 1) * PCMD_SIZE
  {
  }

  lemma LastBeyondLength(base: nat, size: nat)
    requires Validated(base, size) && size < PCMD_SPAN && base % PCMD_SPAN != 0
    ensures IsPage(base, size, base + size - PAGE_SIZE) && !WithinLength(base, size, base + size - PAGE_SIZE)
  {
    hide Validated, PcmdOffset, PcmdIndex, PcmdFileSize;
    Sizes(base, size);
    SmallRanges(base, size);
    var addr := base + size - PAGE_SIZE;
    LastPage(base, size);
    OffsetIsResidue(addr);
    OffsetIsWhole(addr);
    BeyondFile(size, base % PCMD_SPAN, PcmdOffset(addr) / PCMD_SIZE);
  }

  /** Where the last page of a small enclave lies. */
  lemma LastPage(base: nat, size: nat)
    requires base % PAGE_SIZE == 0 == size % PAGE_SIZE && PAGE_SIZE <= size < PCMD_SPAN
    requires base % PCMD_SPAN + size <= PCMD_SPAN
    ensures var addr := base + size - PAGE_SIZE;
            && addr % PAGE_SIZE == 0 && PcmdIndex(base, addr) == 0
            && addr % PCMD_SPAN == base % PCMD_SPAN + size - PAGE_SIZE
  {
    var k, start := base / PCMD_SPAN, base % PCMD_SPAN;
    assert base + size - PAGE_SIZE == k * PCMD_SPAN + (start + size - PAGE_SIZE);
  }

  lemma BeyondFile(size: nat, start: nat, q: nat)
    requires size > PAGE_SIZE && start >= size && q * PAGE_SIZE == start + size - PAGE_SIZE
    ensures q * PCMD_SIZE + PCMD_SIZE > PcmdFileSize(size)
  {
  }

  lemma OffsetIsWhole(addr: nat)
    ensures PcmdOffset(addr) / PCMD_SIZE * PCMD_SIZE == PcmdOffset(addr)
  {
  }

  lemma SmallRange8192(base: nat)
    requires base % 8192 == 0 && base % PCMD_SPAN != 0
    ensures base % PCMD_SPAN >= 8192 && base % PCMD_SPAN + 8192 <= PCMD_SPAN
  {
  }

  lemma SmallRange16384(base: nat)
    requires base % 16384 == 0 && base % PCMD_SPAN != 0
    ensures base % PCMD_SPAN >= 16384 && base % PCMD_SPAN + 16384 <= PCMD_SPAN
  {
  }

  lemma SmallRange32768(base: nat)
    requires base % 32768 == 0 && base % PCMD_SPAN != 0
    ensures base % PCMD_SPAN >= 32768 && base % PCMD_SPAN + 32768 <= PCMD_SPAN
  {
  }

  lemma SmallRange65536(base: nat)
    requires base % 65536 == 0 && base % PCMD_SPAN != 0
    ensures base % PCMD_SPAN >= 65536 && base % PCMD_SPAN + 65536 <= PCMD_SPAN
  {
  }

  /** A small enclave that does not start at a PCMD page starts at least its own size behind one. */
  lemma SmallRanges(base: nat, size: nat)
    requires Validated(base, size) && size < PCMD_SPAN && base % PCMD_SPAN != 0
    ensures base % PCMD_SPAN >= size && base % PCMD_SPAN + size <= PCMD_SPAN
  {
    Sizes(base, size);
    if size == 8192 {
      SmallRange8192(base);
    } else if size == 16384 {
      SmallRange16384(base);
    } else if size == 32768 {
      SmallRange32768(base);
    } else {
      SmallRange65536(base);
    }
  }
}
