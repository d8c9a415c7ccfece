/** Address arithmetic of the kernel: page sizes, the kernel's linear window and
    the layout of page-directory and page-table entries (cpu/memlayout.h).

    A machine word is an `int` in [0, 2^32).  Entries are built from page-aligned
    addresses, so `pa | flags` is addition; module `EntryBits` shows that on 32-bit
    vectors, together with the other masks used by the macros. */
module Layout {
  const PGSIZE := 0x1000
  const KERNBASE := 0x8000_0000
  const PHYSTOP := 0x800_0000
  const NPAGES := 0x8000        // PHYSTOP / PGSIZE

  function PgRoundDown(a: nat): nat { a / 0x1000 * 0x1000 }

  function PgRoundUp(a: nat): nat { (a + 0xFFF) / 0x1000 * 0x1000 }

  // The first page that starts at or above a: PgRoundUp(a) / PGSIZE.
  function PageCeil(a: nat): (v: nat)
    ensures v * 0x1000 == PgRoundUp(a)
    ensures a <= 0x8000_0000 ==> v <= 0x8_0000
  {
    (a + 0xFFF) / 0x1000
  }

  // Kernel virtual address of a physical page (P2V), and back (V2P).
  function Kva(page: nat): nat { 0x8000_0000 + page * 0x1000 }

  function PageAt(v: int): int { (v - 0x8000_0000) / 0x1000 }

  lemma KvaPage(page: nat)
    ensures PageAt(Kva(page)) == page
  {
  }

  // The flags PTE_P, PTE_W, PTE_U and PTE_PS of an entry.
  predicate Present(w: int) { w % 2 == 1 }
  predicate Writable(w: int) { w / 2 % 2 == 1 }
  predicate User(w: int) { w / 4 % 2 == 1 }
  predicate Large(w: int) { w / 0x80 % 2 == 1 }

  // The physical page named by an entry (PTE_ADDR).
  function PageOf(w: int): int { w / 0x1000 }

  // Directory and table index of a virtual address (the macros PDX and PTX) ...
  function PDX(va: nat): (i: nat) ensures i < 1024 { va / 0x40_0000 % 1024 }
  function PTX(va: nat): (i: nat) ensures i < 1024 { va / 0x1000 % 1024 }

  // ... and of a virtual page number.
  function Pdx(v: nat): (i: nat) ensures i < 1024 { v / 1024 % 1024 }
  function Ptx(v: nat): (i: nat) ensures i < 1024 { v % 1024 }

  lemma PageIndices(va: nat)
    ensures PDX(va) == Pdx(va / 0x1000) && PTX(va) == Ptx(va / 0x1000)
  {
  }

  lemma UserPageIndices(v: nat, u: nat)
    requires v < 0x8_0000 && u < 0x8_0000
    ensures Pdx(v) < 512 && v == 1024 * Pdx(v) + Ptx(v)
    ensures Pdx(v) == Pdx(u) && Ptx(v) == Ptx(u) ==> u == v
  {
  }

  // The entry written for user tables and user frames: pa | P | W | U.
  function Entry(page: nat): nat { page * 0x1000 + 7 }

  // The kernel half of a directory: 4 MiB pages covering [0, PHYSTOP).
  function KernelPde(i: int): int {
    if 512 <= i < 544 then (i - 512) * 0x40_0000 + 0x83 else 0
  }

  lemma Halves(q: nat)
    ensures (2 * q + 1) % 2 == 1 && (2 * q + 1) / 2 == q
  {
  }

  lemma EntryPresent(page: nat)
    ensures Present(Entry(page))
  {
    Halves(2048 * page + 3);
  }

  lemma EntryWritable(page: nat)
    ensures Writable(Entry(page))
  {
    Halves(2048 * page + 3);
    Halves(1024 * page + 1);
  }

  lemma Quarter(q: nat)
    ensures (4 * q + 3) / 4 == q
  {
  }

  lemma EntryUser(page: nat)
    ensures User(Entry(page))
  {
    Quarter(1024 * page + 1);
    Halves(512 * page);
  }

  lemma EntrySmall(page: nat)
    ensures !Large(Entry(page))
  {
    var q := 32 * page;
    assert Entry(page) == 128 * q + 7;
    assert (128 * q + 7) / 128 == q;
  }

  lemma EntryPage(page: nat)
    ensures PageOf(Entry(page)) == page
  {
  }

  /** What the user entry format means to the MMU. */
  lemma EntryFields(page: nat)
    ensures Present(Entry(page)) && Writable(Entry(page)) && User(Entry(page))
    ensures !Large(Entry(page)) && PageOf(Entry(page)) == page
  {
    hide Present, Writable, User, Large, PageOf;
    EntryPresent(page);
    EntryWritable(page);
    EntryUser(page);
    EntrySmall(page);
    EntryPage(page);
  }
}

/** The bit tricks behind the arithmetic of `Layout`, on 32-bit words. */
module EntryBits {
  const LOW: bv32 := 0xFFF

  // For a page-aligned address, or-ing flags below 4096 adds them, and masking
  // recovers both halves.
  lemma OrIsAdd(pa: bv32, flags: bv32)
    requires pa & LOW == 0 && flags <= LOW
    ensures pa | flags == pa + flags
    ensures (pa | flags) & !LOW == pa && (pa | flags) & LOW == flags
  {
  }
}
