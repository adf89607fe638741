/**
  The page tables the boot loader hands to the kernel, and the hardware walk over them.

  Tables sit in consecutive pages of a pool; page k of the pool has physical address
  base + 4096 k.  An entry is an aligned address with flags in its low twelve bits, so the
  source's `|` is an addition here.  Addresses are walked by their low 48 bits.
*/
module PageTables {
  import opened Wrappers
  import opened Words

  const HUGE_PAGE_SIZE: nat := 0x20_0000
  const ENTRIES: nat := 512
  const RW_PRESENT: nat := 3
  /** present, writable, 2 MiB page, global */
  const HUGE_RW_GLOBAL: nat := 0x183
  const POOL_PAGES: nat := 32
  const TABLES_USED: nat := 7
  const PHYS_LIMIT: nat := 0x10_0000_0000_0000
  const ADDRESS_SPACE: nat := 0x1_0000_0000_0000
  const FOUR_GIB: nat := 0x1_0000_0000
  const KERNEL_HIGHER_HALF_BASE: nat := 0xFFFF_FFFF_8000_0000

  // ---------------------------------------------------------------- the hardware walk

  /** What a translation permits, and whether it survives an ordinary TLB flush. */
  datatype Rights = Rights(writable: bool, user: bool, executable: bool, global: bool)

  datatype Translation = NotPresent | OutsidePool | Mapped(phys: nat, rights: Rights)

  predicate Present(e: u64) { e % 2 == 1 }

  predicate Writable(e: u64) { e / 2 % 2 == 1 }

  predicate User(e: u64) { e / 4 % 2 == 1 }

  predicate Huge(e: u64) { e / 128 % 2 == 1 }

  predicate Global(e: u64) { e / 256 % 2 == 1 }

  predicate NoExecute(e: u64) { e >= 0x8000_0000_0000_0000 }

  /** All three levels must permit a write or a user access; any one forbids execution. */
  function RightsOf(e4: u64, e3: u64, e2: u64): Rights
  {
    Rights(Writable(e4) && Writable(e3) && Writable(e2), User(e4) && User(e3) && User(e2),
           !NoExecute(e4) && !NoExecute(e3) && !NoExecute(e2), Global(e2))
  }

  /** Bits 12 to 51 of an entry. */
  function TableAddress(e: u64): nat { e % 0x10_0000_0000_0000 / PAGE_SIZE * PAGE_SIZE }

  /** Bits 21 to 51 of an entry. */
  function HugeAddress(e: u64): nat { e % 0x10_0000_0000_0000 / 0x20_0000 * 0x20_0000 }

  predicate Tables(tables: seq<seq<u64>>) { forall p :: 0 <= p < |tables| ==> |tables[p]| == ENTRIES }

  /** An entry of the table at a physical address, when that is a page of the pool. */
  function EntryAt(tables: seq<seq<u64>>, base: nat, table: nat, idx: nat): Option<u64>
    requires Tables(tables) && idx < ENTRIES
  {
    if table < base || (table - base) % PAGE_SIZE != 0 || (table - base) / PAGE_SIZE >= |tables| then None
    else Some(tables[(table - base) / PAGE_SIZE][idx])
  }

  /** The walk with the three table indices and the offset in a 2 MiB page. */
  function WalkParts(tables: seq<seq<u64>>, base: nat, root: nat, i4: nat, i3: nat, i2: nat, off: nat): Translation
    requires Tables(tables) && i4 < ENTRIES && i3 < ENTRIES && i2 < ENTRIES
  {
    var e4 := EntryAt(tables, base, root, i4);
    if e4.None? then OutsidePool
    else if !Present(e4.value) then NotPresent
    else
      var e3 := EntryAt(tables, base, TableAddress(e4.value), i3);
      if e3.None? || (Present(e3.value) && Huge(e3.value)) then OutsidePool
      else if !Present(e3.value) then NotPresent
      else
        var e2 := EntryAt(tables, base, TableAddress(e3.value), i2);
        if e2.None? || (Present(e2.value) && !Huge(e2.value)) then OutsidePool
        else if !Present(e2.value) then NotPresent
        else Mapped(HugeAddress(e2.value) + off, RightsOf(e4.value, e3.value, e2.value))
  }

  function Walk(tables: seq<seq<u64>>, base: nat, root: nat, va: nat): Translation
    requires Tables(tables) && va < ADDRESS_SPACE
  {
    WalkParts(tables, base, root, va / 0x80_0000_0000, va / 0x4000_0000 % 512, va / 0x20_0000 % 512, va % 0x20_0000)
  }

  // ---------------------------------------------------------------- the tables

  /** Entry k of table page p: PML4, identity PDPT, four directories, upper PDPT. */
  function Expected(base: nat, p: nat, k: nat): nat
    requires p < TABLES_USED && k < ENTRIES
  {
    if p == 0 then
      (if k == 0 then base + PAGE_SIZE + RW_PRESENT else if k == 511 then base + 6 * PAGE_SIZE + RW_PRESENT else 0)
    else if p == 1 || p == 6 then
      (if k < 4 then base + (2 + k) * PAGE_SIZE + RW_PRESENT else 0)
    else
      ((p - 2) * 512 + k) * HUGE_PAGE_SIZE + HUGE_RW_GLOBAL
  }

  /** A pool whose first seven pages hold these tables. */
  predicate Built(tables: seq<seq<u64>>, base: nat)
  {
    && Tables(tables) && |tables| >= TABLES_USED
    && base % PAGE_SIZE == 0 && base + POOL_PAGES * PAGE_SIZE <= PHYS_LIMIT
    && forall p, k :: 0 <= p < TABLES_USED && 0 <= k < ENTRIES ==> tables[p][k] == Expected(base, p, k)
  }

  lemma EntryFits(base: nat, p: nat)
    requires base + POOL_PAGES * PAGE_SIZE <= PHYS_LIMIT && p < POOL_PAGES
    ensures base + p * PAGE_SIZE + RW_PRESENT < U64_SIZE
  {
  }

  /** The low bits of an entry that leads to a table. */
  lemma TableFlags(x: nat)
    requires 4096 * x + 3 < 0x8000_0000_0000_0000
    ensures Present(4096 * x + 3) && Writable(4096 * x + 3) && !User(4096 * x + 3) && !Huge(4096 * x + 3)
    ensures !NoExecute(4096 * x + 3)
  {
    var e := 4096 * x + 3;
    Quotient(e, 2, 2048 * x + 1, 1);
    Quotient(2048 * x + 1, 2, 1024 * x, 1);
    Quotient(e, 4, 1024 * x, 3);
    Quotient(1024 * x, 2, 512 * x, 0);
    Quotient(e, 128, 32 * x, 3);
    Quotient(32 * x, 2, 16 * x, 0);
  }

  lemma Quotient(e: nat, d: nat, q: nat, r: nat)
    requires e == d * q + r && r < d
    ensures e / d == q && e % d == r
  {
    var p := e / d;
    assert e == d * p + e % d;
    assert p < q ==> d * (p + 1) <= d * q;
    assert q < p ==> d * (q + 1) <= d * p;
  }

  lemma TableEntry(base: nat, p: nat)
    requires base % PAGE_SIZE == 0 && base + POOL_PAGES * PAGE_SIZE <= PHYS_LIMIT && p < POOL_PAGES
    ensures var e := base + p * PAGE_SIZE + RW_PRESENT;
            && e < U64_SIZE && Present(e) && !Huge(e) && TableAddress(e) == base + p * PAGE_SIZE
            && Writable(e) && !User(e) && !NoExecute(e)
  {
    hide Present, Writable, User, Huge, NoExecute;
    var x := base / PAGE_SIZE + p;
    assert base + p * PAGE_SIZE + RW_PRESENT == 4096 * x + 3;
    TableFlags(x);
  }

  /** The low bits of an entry for a 2 MiB page. */
  lemma HugeFlags(m: nat)
    requires m < 2048
    ensures Present(m * 0x20_0000 + 0x183) && Writable(m * 0x20_0000 + 0x183) && !User(m * 0x20_0000 + 0x183)
    ensures !NoExecute(m * 0x20_0000 + 0x183)
  {
    var e := m * 0x20_0000 + 0x183;
    Quotient(e, 2, m * 0x10_0000 + 0xC1, 1);
    Quotient(m * 0x10_0000 + 0xC1, 2, m * 0x8_0000 + 0x60, 1);
    Quotient(e, 4, m * 0x8_0000 + 0x60, 3);
    Quotient(m * 0x8_0000 + 0x60, 2, m * 0x4_0000 + 0x30, 0);
  }

  lemma HugeSizeFlags(m: nat)
    requires m < 2048
    ensures Huge(m * 0x20_0000 + 0x183) && Global(m * 0x20_0000 + 0x183)
  {
    var e := m * 0x20_0000 + 0x183;
    Quotient(e, 128, m * 0x4000 + 3, 3);
    Quotient(m * 0x4000 + 3, 2, m * 0x2000 + 1, 1);
    Quotient(e, 256, m * 0x2000 + 1, 0x83);
    Quotient(m * 0x2000 + 1, 2, m * 0x1000, 1);
  }

  lemma HugeEntry(m: nat)
    requires m < 2048
    ensures var e := m * HUGE_PAGE_SIZE + HUGE_RW_GLOBAL;
            && e < U64_SIZE && Present(e) && Huge(e) && HugeAddress(e) == m * HUGE_PAGE_SIZE
            && Writable(e) && !User(e) && !NoExecute(e) && Global(e)
  {
    hide Present, Writable, User, Huge, NoExecute, Global;
    HugeFlags(m);
    HugeSizeFlags(m);
    assert (m * 0x20_0000 + 0x183) / 0x20_0000 == m;
  }

  lemma EntryOfPage(tables: seq<seq<u64>>, base: nat, p: nat, idx: nat)
    requires Built(tables, base) && p < TABLES_USED && idx < ENTRIES
    ensures EntryAt(tables, base, base + p * PAGE_SIZE, idx) == Some(Expected(base, p, idx))
  {
    assert (base + p * PAGE_SIZE - base) / PAGE_SIZE == p;
  }

  const KERNEL_RIGHTS: Rights := Rights(true, false, true, true)

  /** Both halves of the root lead to the four directories and nothing else. */
  lemma WalkBuiltParts(tables: seq<seq<u64>>, base: nat, i4: nat, i3: nat, i2: nat, off: nat)
    requires Built(tables, base) && i4 < ENTRIES && i3 < ENTRIES && i2 < ENTRIES
    ensures WalkParts(tables, base, base, i4, i3, i2, off)
            == if (i4 == 0 || i4 == 511) && i3 < 4 then Mapped((i3 * 512 + i2) * HUGE_PAGE_SIZE + off, KERNEL_RIGHTS)
               else NotPresent
  {
    hide Huge, Present, Writable, User, Global, NoExecute, TableAddress, HugeAddress, EntryAt;
    NotPresentZero();
    EntryOfPage(tables, base, 0, i4);
    if i4 == 0 || i4 == 511 {
      var p := if i4 == 0 then 1 else 6;
      TableEntry(base, p);
      EntryOfPage(tables, base, p, i3);
      if i3 < 4 {
        TableEntry(base, 2 + i3);
        EntryOfPage(tables, base, 2 + i3, i2);
        HugeEntry(i3 * 512 + i2);
      }
    }
  }

  lemma NotPresentZero()
    ensures !Present(0)
  {
  }

  lemma Parts(va: nat)
    requires va < ADDRESS_SPACE
    ensures var i4, i3, i2, off := va / 0x80_0000_0000, va / 0x4000_0000 % 512, va / 0x20_0000 % 512, va % 0x20_0000;
            i4 < 512 && va == i4 * 0x80_0000_0000 + i3 * 0x4000_0000 + i2 * 0x20_0000 + off
  {
    var page := va / 0x20_0000;
    GigabyteOf(va, page, page / 512, page % 512);
    GigabytesOf512(va, va / 0x4000_0000);
  }

  lemma GigabyteOf(va: nat, page: nat, q: nat, r: nat)
    requires page == va / 0x20_0000 && page == 512 * q + r && r < 512
    ensures va / 0x4000_0000 == q
  {
    assert 0x4000_0000 * q <= va < 0x4000_0000 * (q + 1);
  }

  lemma GigabytesOf512(va: nat, gib: nat)
    requires gib == va / 0x4000_0000
    ensures gib / 512 == va / 0x80_0000_0000
  {
    var q := gib / 512;
    assert 0x80_0000_0000 * q <= va < 0x80_0000_0000 * (q + 1);
  }

  const UPPER_WINDOW: nat := 0xFF80_0000_0000

  /** Every address below 4 GiB maps to itself, the upper window maps the same 4 GiB, and nothing else is mapped. */
  lemma WalkIsIdentityAndWindow(tables: seq<seq<u64>>, base: nat, va: nat)
    requires Built(tables, base) && va < ADDRESS_SPACE
    ensures Walk(tables, base, base, va)
            == if va < FOUR_GIB then Mapped(va, KERNEL_RIGHTS)
               else if UPPER_WINDOW <= va < UPPER_WINDOW + FOUR_GIB then Mapped(va - UPPER_WINDOW, KERNEL_RIGHTS)
               else NotPresent
  {
    var i4, i3, i2, off := va / 0x80_0000_0000, va / 0x4000_0000 % 512, va / 0x20_0000 % 512, va % 0x20_0000;
    Parts(va);
    WalkBuiltParts(tables, base, i4, i3, i2, off);
    assert (i3 * 512 + i2) * HUGE_PAGE_SIZE == i3 * 0x4000_0000 + i2 * 0x20_0000;
  }

  /** The documented kernel base selects root entry 511, but entry 510 of its table, which is empty. */
  lemma KernelBaseIsNotMapped(tables: seq<seq<u64>>, base: nat)
    requires Built(tables, base)
    ensures Walk(tables, base, base, KERNEL_HIGHER_HALF_BASE % ADDRESS_SPACE) == NotPresent
    ensures 0xFFFF_FF80_0000_0000 % ADDRESS_SPACE == UPPER_WINDOW
  {
    WalkIsIdentityAndWindow(tables, base, KERNEL_HIGHER_HALF_BASE % ADDRESS_SPACE);
  }

  // ---------------------------------------------------------------- building them

  datatype PageTablesError = PoolExhausted(usedPages: nat, totalPages: nat)

  ghost predicate Pages(pages: seq<array<u64>>)
  {
    |pages| >= TABLES_USED
    && (forall p :: 0 <= p < |pages| ==> pages[p].Length == ENTRIES)
    && (forall p, q :: 0 <= p < q < |pages| ==> pages[p] != pages[q])
  }

  /** Page p holds its expected table. */
  ghost predicate Holds(pages: seq<array<u64>>, base: nat, p: nat)
    requires Pages(pages) && p < TABLES_USED
    reads pages[p]
  {
    forall k :: 0 <= k < ENTRIES ==> pages[p][k] == Expected(base, p, k)
  }

  /** The contents of the pages. */
  ghost predicate Shows(pages: seq<array<u64>>, tables: seq<seq<u64>>)
    requires Pages(pages)
    reads pages
  {
    |tables| == |pages| && forall p :: 0 <= p < |pages| ==> tables[p] == pages[p][..]
  }

  ghost predicate Zeroed(pages: seq<array<u64>>, p: nat)
    requires Pages(pages) && p < |pages|
    reads pages[p]
  {
    forall k :: 0 <= k < ENTRIES ==> pages[p][k] == 0
  }

  /** Hands out the next page of the pool, cleared. */
  class TableAllocator {
    const pages: seq<array<u64>>
    var next: nat

    constructor (pages: seq<array<u64>>)
      ensures this.pages == pages && next == 0
    {
      this.pages := pages;
      next := 0;
    }

    /** The source's pool has 32 pages whatever lies behind it; callers stay below the pages there are. */
    method AllocateTable() returns (r: Result<nat, PageTablesError>)
      requires Pages(pages) && next < |pages|
      modifies this`next, pages[next]
      ensures if old(next) < POOL_PAGES then r == Ok(old(next)) && next == old(next) + 1 && Zeroed(pages, old(next))
              else r == Err(PoolExhausted(old(next), POOL_PAGES)) && next == old(next)
    {
      if next * PAGE_SIZE + PAGE_SIZE > POOL_PAGES * PAGE_SIZE {
        return Err(PoolExhausted(next, POOL_PAGES));
      }
      var page := pages[next];
      forall k | 0 <= k < ENTRIES {
        page[k] := 0;
      }
      next := next + 1;
      return Ok(next - 1);
    }
  }

  /** Fills directory i with the 2 MiB pages of gigabyte i. */
  method FillDirectory(pages: seq<array<u64>>, base: nat, i: nat)
    requires Pages(pages) && i < 4
    modifies pages[2 + i]
    ensures Holds(pages, base, 2 + i)
  {
    var pd := pages[2 + i];
    for j := 0 to ENTRIES
      invariant forall k :: 0 <= k < j ==> pd[k] == Expected(base, 2 + i, k)
    {
      HugeEntry(i * 512 + j);
      pd[j] := i * 512 * HUGE_PAGE_SIZE + j * HUGE_PAGE_SIZE + HUGE_RW_GLOBAL;
    }
  }

  /** The identity PDPT so far: the first n directories are entered. */
  ghost predicate IdentityUpTo(pages: seq<array<u64>>, base: nat, n: nat)
    requires Pages(pages) && n <= 4
    reads pages[1]
  {
    forall k :: 0 <= k < ENTRIES ==> pages[1][k] == if k < n then Expected(base, 1, k) else 0
  }

  /** One more directory, entered in the identity PDPT. */
  method AddDirectory(alloc: TableAllocator, pages: seq<array<u64>>, base: nat, i: nat)
    requires Pages(pages) && base % PAGE_SIZE == 0 && base + POOL_PAGES * PAGE_SIZE <= PHYS_LIMIT && i < 4
    requires alloc.pages == pages && alloc.next == 2 + i && IdentityUpTo(pages, base, i)
    modifies alloc`next, pages[1], pages[2 + i]
    ensures alloc.next == 3 + i && IdentityUpTo(pages, base, i + 1) && Holds(pages, base, 2 + i)
  {
    var _ := alloc.AllocateTable();
    FillDirectory(pages, base, i);
    EntryFits(base, 2 + i);
    assert pages[1] != pages[2 + i];
    pages[1][i] := base + (2 + i) * PAGE_SIZE + RW_PRESENT;
  }

  /** The first half of the root: the identity PDPT and its four directories. */
  method BuildIdentity(alloc: TableAllocator, pages: seq<array<u64>>, base: nat)
    requires Pages(pages) && base % PAGE_SIZE == 0 && base + POOL_PAGES * PAGE_SIZE <= PHYS_LIMIT
    requires alloc.pages == pages && alloc.next == 1
    modifies alloc`next, pages[1..6]
    ensures alloc.next == 6 && forall p :: 1 <= p < 6 ==> Holds(pages, base, p)
  {
    var _ := alloc.AllocateTable();
    for i := 0 to 4
      invariant alloc.next == 2 + i && IdentityUpTo(pages, base, i)
      invariant forall p :: 2 <= p < 2 + i ==> Holds(pages, base, p)
    {
      AddDirectory(alloc, pages, base, i);
    }
    assert Holds(pages, base, 1);
  }

  /** The upper PDPT repeats the four entries of the identity PDPT. */
  method BuildUpper(alloc: TableAllocator, pages: seq<array<u64>>, base: nat)
    requires Pages(pages) && alloc.pages == pages && alloc.next == 6 && Holds(pages, base, 1)
    modifies alloc`next, pages[6]
    ensures Holds(pages, base, 6)
  {
    var _ := alloc.AllocateTable();
    assert pages[1] != pages[6];
    for i := 0 to 4
      invariant Holds(pages, base, 1)
      invariant forall k :: 0 <= k < ENTRIES ==> pages[6][k] == if k < i then Expected(base, 6, k) else 0
    {
      pages[6][i] := pages[1][i];
    }
  }

  lemma BuiltFromPages(pages: seq<array<u64>>, tables: seq<seq<u64>>, base: nat)
    requires Pages(pages) && base % PAGE_SIZE == 0 && base + POOL_PAGES * PAGE_SIZE <= PHYS_LIMIT
    requires Shows(pages, tables) && forall p :: 0 <= p < TABLES_USED ==> Holds(pages, base, p)
    ensures Built(tables, base)
  {
    hide Expected;
    forall p, k | 0 <= p < TABLES_USED && 0 <= k < ENTRIES ensures tables[p][k] == Expected(base, p, k) {
      assert Holds(pages, base, p);
    }
  }

  /** Builds the tables in the first seven pages of the pool and touches no other page. */
  method SetupKernelPageTables(pages: seq<array<u64>>, base: nat) returns (r: Result<nat, PageTablesError>)
    requires Pages(pages) && base % PAGE_SIZE == 0 && base + POOL_PAGES * PAGE_SIZE <= PHYS_LIMIT
    modifies pages[..TABLES_USED]
    ensures r == Ok(base)
    ensures forall p :: 0 <= p < TABLES_USED ==> Holds(pages, base, p)
    ensures forall tables :: Shows(pages, tables) ==> Built(tables, base)
  {
    var alloc := new TableAllocator(pages);
    var _ := alloc.AllocateTable();
    BuildIdentity(alloc, pages, base);
    assert pages[0] !in pages[1..6];
    EntryFits(base, 1);
    pages[0][0] := base + PAGE_SIZE + RW_PRESENT;
    BuildUpper(alloc, pages, base);
    EntryFits(base, 6);
    var index := KERNEL_HIGHER_HALF_BASE / 0x80_0000_0000 % ENTRIES;
    assert pages[0] != pages[6];
    pages[0][index] := base + 6 * PAGE_SIZE + RW_PRESENT;
    assert Holds(pages, base, 0);
    forall tables | Shows(pages, tables) ensures Built(tables, base) { BuiltFromPages(pages, tables, base); }
    return Ok(base);
  }
}
