/** How far a user range reaches (cpu/idt.c): the walkers that system calls use to
    check user pointers, against the access rules of the MMU (sections 4.3 and 4.6 of
    the Intel SDM, Volume 3A).  The tables are arbitrary here: any words, 4 KiB and
    4 MiB pages mixed. */
module Walkers {
  import opened Layout
  import opened Mem
  import opened Vm

  const FRAMEBUFFER_SIZE := 64000   // VIDEO_MODE13_FRAMEBUFFER_SIZE

  // The two entries that translate va; only meaningful where `Mapped` asks for them.
  function Pde(ram: seq<Page>, d: nat, va: nat): int
    requires d < |ram|
  {
    ram[d][PDX(va)]
  }

  function Pte(ram: seq<Page>, d: nat, va: nat): int
    requires d < |ram|
  {
    var t := PageOf(Pde(ram, d, va));
    if 0 <= t < |ram| then ram[t][PTX(va)] else 0
  }

  // A user-mode read of va is allowed.
  predicate Readable(ram: seq<Page>, d: nat, va: nat)
    requires d < |ram|
  {
    var pde, pte := Pde(ram, d, va), Pte(ram, d, va);
    Present(pde) && User(pde) && (Large(pde) || (Present(pte) && User(pte)))
  }

  predicate UserReadable(ram: seq<Page>, d: nat, va: nat)
    requires d < |ram|
  {
    va < KERNBASE && Readable(ram, d, va)
  }

  // A user-mode write of va is allowed: the writable flag is needed at both levels.
  predicate HardwareWritable(ram: seq<Page>, d: nat, va: nat)
    requires d < |ram|
  {
    Readable(ram, d, va) && Writable(Pde(ram, d, va)) && (Large(Pde(ram, d, va)) || Writable(Pte(ram, d, va)))
  }

  // What user_writable_after tests: the flag at the last level only.
  predicate WalkWritable(ram: seq<Page>, d: nat, va: nat)
    requires d < |ram|
  {
    Readable(ram, d, va) && if Large(Pde(ram, d, va)) then Writable(Pde(ram, d, va)) else Writable(Pte(ram, d, va))
  }

  /** The access rules flag by flag: bit 0 is present, bit 1 writable, bit 2 user and bit 7
      a large page; bits 31-12 of a directory entry give the page of the table. */
  lemma AccessBits(ram: seq<Page>, d: nat, va: nat)
    requires d < |ram| && va < 0x1_0000_0000
    ensures var pde := ram[d][va / 0x40_0000];
      var pte := if 0 <= pde / 0x1000 < |ram| then ram[pde / 0x1000][va / 0x1000 % 0x400] else 0;
      && (Readable(ram, d, va) <==>
          pde % 2 == 1 && pde / 4 % 2 == 1 && (pde / 128 % 2 == 1 || (pte % 2 == 1 && pte / 4 % 2 == 1)))
      && (HardwareWritable(ram, d, va) <==>
          Readable(ram, d, va) && pde / 2 % 2 == 1 && (pde / 128 % 2 == 1 || pte / 2 % 2 == 1))
      && (WalkWritable(ram, d, va) <==>
          Readable(ram, d, va) && if pde / 128 % 2 == 1 then pde / 2 % 2 == 1 else pte / 2 % 2 == 1)
  {
  }

  // The kernel can follow every user table of directory d.
  ghost predicate TablesInRam(ram: seq<Page>, d: nat)
    requires d < |ram|
  {
    forall i :: 0 <= i < 512 && Present(ram[d][i]) && User(ram[d][i]) && !Large(ram[d][i]) ==>
      0 <= PageOf(ram[d][i]) < |ram|
  }

  lemma SameEntries(ram: seq<Page>, d: nat, va: nat, a: nat)
    requires d < |ram| && va < KERNBASE
    requires a / 0x1000 == va / 0x1000 || (a / 0x40_0000 == va / 0x40_0000 && Large(Pde(ram, d, va)))
    ensures PDX(va) < 512 && Pde(ram, d, a) == Pde(ram, d, va)
    ensures Readable(ram, d, a) == Readable(ram, d, va)
    ensures WalkWritable(ram, d, a) == WalkWritable(ram, d, va)
  {
    if a / 0x1000 == va / 0x1000 {
      PageIndices(va);
      PageIndices(a);
    }
  }

  // The end of the page that holds va.
  function PageEnd(ram: seq<Page>, d: nat, va: nat): (e: nat)
    requires d < |ram| && va < KERNBASE
    ensures va < e <= KERNBASE
  {
    if Large(Pde(ram, d, va)) then va / 0x40_0000 * 0x40_0000 + 0x40_0000 else va / 0x1000 * 0x1000 + 0x1000
  }

  lemma PageUniform(ram: seq<Page>, d: nat, va: nat)
    requires d < |ram| && va < KERNBASE
    ensures forall a :: va <= a < PageEnd(ram, d, va) ==>
      Readable(ram, d, a) == Readable(ram, d, va) && WalkWritable(ram, d, a) == WalkWritable(ram, d, va)
  {
    forall a | va <= a < PageEnd(ram, d, va)
      ensures Readable(ram, d, a) == Readable(ram, d, va) && WalkWritable(ram, d, a) == WalkWritable(ram, d, va)
    {
      SameEntries(ram, d, va, a);
    }
  }

  // [ptr, ptr + n) is the longest range below KERNBASE that user mode can read.
  ghost predicate LongestReadable(ram: seq<Page>, d: nat, ptr: nat, n: nat)
    requires d < |ram|
  {
    if ptr >= KERNBASE then n == 0 else
      && ptr + n <= KERNBASE
      && (forall a :: ptr <= a < ptr + n ==> Readable(ram, d, a))
      && (ptr + n < KERNBASE ==> !Readable(ram, d, ptr + n))
  }

  // The same for writing, as far as the last level tells.
  ghost predicate LongestWritable(ram: seq<Page>, d: nat, ptr: nat, n: nat)
    requires d < |ram|
  {
    if ptr >= KERNBASE then n == 0 else
      && ptr + n <= KERNBASE
      && (forall a :: ptr <= a < ptr + n ==> WalkWritable(ram, d, a))
      && (ptr + n < KERNBASE ==> !WalkWritable(ram, d, ptr + n))
  }

  /** There is one longest range of either kind. */
  lemma LongestUnique(ram: seq<Page>, d: nat, ptr: nat, n: nat, k: nat)
    requires d < |ram|
    ensures LongestReadable(ram, d, ptr, n) && LongestReadable(ram, d, ptr, k) ==> n == k
    ensures LongestWritable(ram, d, ptr, n) && LongestWritable(ram, d, ptr, k) ==> n == k
  {
    hide Readable, WalkWritable;
    assert n < k ==> ptr <= ptr + n < ptr + k;
    assert k < n ==> ptr <= ptr + k < ptr + n;
  }

  /** The largest n such that user mode can read every byte of [ptr, ptr + n) below
      KERNBASE. */
  method UserReadableAfter(ram: seq<Page>, d: nat, ptr: nat) returns (bytes: nat)
    requires d < |ram| && TablesInRam(ram, d)
    ensures LongestReadable(ram, d, ptr, bytes)
  {
    if ptr >= KERNBASE {
      return 0;
    }
    var va := ptr;
    bytes := 0;
    while va < KERNBASE
      invariant ptr <= va == ptr + bytes <= KERNBASE
      invariant forall a :: ptr <= a < va ==> Readable(ram, d, a)
    {
      SameEntries(ram, d, va, va);
      PageUniform(ram, d, va);
      var pde := ram[d][PDX(va)];
      if !Present(pde) || !User(pde) {
        break;
      }
      var pageEnd;
      if Large(pde) {
        pageEnd := va / 0x40_0000 * 0x40_0000 + 0x40_0000;
      } else {
        var pte := ram[PageOf(pde)][PTX(va)];
        if !Present(pte) || !User(pte) {
          break;
        }
        pageEnd := PgRoundDown(va) + PGSIZE;
      }
      if pageEnd > KERNBASE {
        pageEnd := KERNBASE;
      }
      bytes := bytes + (pageEnd - va);
      va := pageEnd;
    }
  }

  // A uint32_t converted to int.
  function ToInt(n: nat): int {
    if n % 0x1_0000_0000 < 0x8000_0000 then n % 0x1_0000_0000 else n % 0x1_0000_0000 - 0x1_0000_0000
  }

  // Only 2^31 bytes from address 0 make the count negative.
  function SignedCount(ptr: nat, n: nat): int {
    if ptr == 0 && n == 0x8000_0000 then -0x8000_0000 else n
  }

  /** The largest n such that the last level allows writes to all of [ptr, ptr + n),
      converted to int: 2^31 writable bytes come out negative. */
  method UserWritableAfter(ram: seq<Page>, d: nat, ptr: nat) returns (r: int)
    requires d < |ram| && TablesInRam(ram, d)
    ensures exists n: nat :: LongestWritable(ram, d, ptr, n) && r == SignedCount(ptr, n)
  {
    if ptr >= KERNBASE {
      assert LongestWritable(ram, d, ptr, 0);
      return 0;
    }
    var va := ptr;
    var count := 0;
    while va < KERNBASE
      invariant ptr <= va == ptr + count <= KERNBASE
      invariant forall a :: ptr <= a < va ==> WalkWritable(ram, d, a)
    {
      SameEntries(ram, d, va, va);
      PageUniform(ram, d, va);
      var pde := ram[d][PDX(va)];
      if !Present(pde) || !User(pde) {
        break;
      }
      var pageEnd;
      if Large(pde) {
        if !Writable(pde) {
          break;
        }
        pageEnd := va / 0x40_0000 * 0x40_0000 + 0x40_0000;
      } else {
        var pte := ram[PageOf(pde)][PTX(va)];
        if !Present(pte) || !User(pte) || !Writable(pte) {
          break;
        }
        pageEnd := PgRoundDown(va) + PGSIZE;
      }
      if pageEnd > KERNBASE {
        pageEnd := KERNBASE;
      }
      count := count + (pageEnd - va);
      va := pageEnd;
    }
    r := ToInt(count);
    assert LongestWritable(ram, d, ptr, count);
  }

  // A user half of large pages, all writable.
  function WritableExample(): seq<Page> { [seq(1024, i => if i < 512 then 0x87 else 0)] }

  /** The count does come out negative on some tables. */
  lemma CountNegative()
    ensures TablesInRam(WritableExample(), 0) && LongestWritable(WritableExample(), 0, 0, 0x8000_0000)
    ensures SignedCount(0, 0x8000_0000) < 0
  {
    var ram := WritableExample();
    forall a | 0 <= a < 0x8000_0000 ensures WalkWritable(ram, 0, a) {
      SameEntries(ram, 0, a, a);
      assert Pde(ram, 0, a) == 0x87;
    }
  }

  /** The guard of handle_enter13h: the whole frame buffer is readable. */
  method FramebufferReadable(ram: seq<Page>, d: nat, ptr: nat) returns (ok: bool)
    requires d < |ram| && TablesInRam(ram, d)
    ensures ok <==> forall a :: ptr <= a < ptr + FRAMEBUFFER_SIZE ==> UserReadable(ram, d, a)
  {
    var bytes := UserReadableAfter(ram, d, ptr);
    ok := bytes >= FRAMEBUFFER_SIZE;
    assert !UserReadable(ram, d, ptr + bytes);
    assert !ok ==> ptr <= ptr + bytes < ptr + FRAMEBUFFER_SIZE;
  }

  /** The guard of handle_poll: the four bytes are writable - unless the pointer is null
      and the entire user half is, when the converted count is negative. */
  method EventWritable(ram: seq<Page>, d: nat, ptr: nat) returns (ok: bool)
    requires d < |ram| && TablesInRam(ram, d)
    ensures ok <==>
      && (forall a :: ptr <= a < ptr + 4 ==> a < KERNBASE && WalkWritable(ram, d, a))
      && !(ptr == 0 && forall a :: 0 <= a < KERNBASE ==> WalkWritable(ram, d, a))
  {
    var r := UserWritableAfter(ram, d, ptr);
    ok := r >= 4;
    ghost var bytes: nat :| LongestWritable(ram, d, ptr, bytes) && r == SignedCount(ptr, bytes);
    ghost var beyond := WalkWritable(ram, d, ptr + bytes);
    assert !(ptr + bytes < KERNBASE && beyond);
    assert bytes < 4 ==> ptr <= ptr + bytes < ptr + 4;
  }

  // No directory entry without the writable flag leads to a user-writable table entry.
  ghost predicate NoReadOnlyTable(ram: seq<Page>, d: nat)
    requires d < |ram|
  {
    forall i, j :: 0 <= i < 512 && 0 <= j < 1024 && Present(ram[d][i]) && User(ram[d][i]) && !Large(ram[d][i])
                   && !Writable(ram[d][i]) && 0 <= PageOf(ram[d][i]) < |ram| ==>
      var pte := ram[PageOf(ram[d][i])][j];
      !(Present(pte) && User(pte) && Writable(pte))
  }

  lemma PageNumberIndices(i: nat, j: nat)
    requires i < 512 && j < 1024
    ensures Pdx(i * 1024 + j) == i && Ptx(i * 1024 + j) == j
  {
  }

  lemma AddressOf(i: nat, j: nat)
    requires i < 512 && j < 1024
    ensures i * 0x40_0000 + j * 0x1000 < KERNBASE
    ensures PDX(i * 0x40_0000 + j * 0x1000) == i && PTX(i * 0x40_0000 + j * 0x1000) == j
  {
    var va, v := i * 0x40_0000 + j * 0x1000, i * 1024 + j;
    assert va == v * 0x1000;
    PageIndices(va);
    assert va / 0x1000 == v;
    PageNumberIndices(i, j);
    hide PDX, PTX, Pdx, Ptx;
  }

  /** The walk sees exactly the hardware's write permissions if and only if read-only
      directory entries hide no writable table entry. */
  lemma WalkWritableExact(ram: seq<Page>, d: nat)
    requires d < |ram| && TablesInRam(ram, d)
    ensures (forall va :: 0 <= va < KERNBASE ==> (WalkWritable(ram, d, va) <==> HardwareWritable(ram, d, va)))
            <==> NoReadOnlyTable(ram, d)
  {
    if NoReadOnlyTable(ram, d) {
      forall va | 0 <= va < KERNBASE ensures WalkWritable(ram, d, va) <==> HardwareWritable(ram, d, va) {
        SameEntries(ram, d, va, va);
      }
    } else {
      var i, j :| 0 <= i < 512 && 0 <= j < 1024 && Present(ram[d][i]) && User(ram[d][i]) && !Large(ram[d][i])
                  && !Writable(ram[d][i]) && 0 <= PageOf(ram[d][i]) < |ram|
                  && var pte := ram[PageOf(ram[d][i])][j]; Present(pte) && User(pte) && Writable(pte);
      AddressOf(i, j);
      var va := i * 0x40_0000 + j * 0x1000;
      assert WalkWritable(ram, d, va) && !HardwareWritable(ram, d, va);
    }
  }

  // A directory that grants reads only, above a table that grants writes.
  function ReadOnlyExample(): seq<Page> {
    [Filled(0)[0 := 0x1005], Filled(0)[0 := 0x2007]]
  }

  /** The two do differ on some tables. */
  lemma WalkWritableTooLax()
    ensures TablesInRam(ReadOnlyExample(), 0)
    ensures WalkWritable(ReadOnlyExample(), 0, 0) && !HardwareWritable(ReadOnlyExample(), 0, 0)
  {
    var ram := ReadOnlyExample();
    assert PageOf(0x1005) == 1 && Pde(ram, 0, 0) == 0x1005 && Pte(ram, 0, 0) == 0x2007;
  }

  /** On the tables that the kernel builds, user mode can read, and can write, exactly
      the mapped pages; and the walkers agree with the hardware. */
  lemma KernelTablesAccess(ram: seq<Page>, owner: seq<Role>, d: nat, va: nat)
    requires |ram| == |owner| && Linked(ram, owner) && d < |ram| && owner[d].Dir? && va < KERNBASE
    ensures TablesInRam(ram, d)
    ensures Readable(ram, d, va) <==> Flat(ram, d, va / 0x1000) != 0
    ensures HardwareWritable(ram, d, va) <==> Flat(ram, d, va / 0x1000) != 0
    ensures WalkWritable(ram, d, va) <==> Flat(ram, d, va / 0x1000) != 0
  {
    forall i | 0 <= i < 512 && ram[d][i] != 0 ensures 0 <= PageOf(ram[d][i]) < |ram| {
      DirEntry(ram, owner, d, i);
    }
    SameEntries(ram, d, va, va);
    PageIndices(va);
    var v := va / 0x1000;
    if ram[d][Pdx(v)] != 0 {
      DirEntry(ram, owner, d, Pdx(v));
      EntryFields(PageOf(ram[d][Pdx(v)]));
      if Flat(ram, d, v) != 0 {
        FlatOwned(ram, owner, d, v);
        EntryFields(PageOf(Flat(ram, d, v)));
      }
    }
  }

  // The frames of the first n virtual pages.
  ghost function Frames(ram: seq<Page>, d: nat, n: nat): set<int>
    requires d < |ram| && n <= 0x8_0000
  {
    set v | 0 <= v < n :: PageOf(Flat(ram, d, v))
  }

  lemma FrameInRam(ram: seq<Page>, owner: seq<Role>, d: nat, v: nat)
    requires |ram| == |owner| && Linked(ram, owner) && d < |ram| && owner[d].Dir? && v < 0x8_0000
    requires Flat(ram, d, v) != 0
    ensures 0 <= PageOf(Flat(ram, d, v)) < |ram|
  {
    FlatOwned(ram, owner, d, v);
  }

  lemma FramesDiffer(ram: seq<Page>, owner: seq<Role>, d: nat, v: nat, u: nat)
    requires |ram| == |owner| && Linked(ram, owner) && d < |ram| && owner[d].Dir? && v < u < 0x8_0000
    requires Flat(ram, d, v) != 0 && Flat(ram, d, u) != 0
    ensures PageOf(Flat(ram, d, v)) != PageOf(Flat(ram, d, u))
  {
    FlatOwned(ram, owner, d, v);
    FlatOwned(ram, owner, d, u);
    if PageOf(Flat(ram, d, v)) == PageOf(Flat(ram, d, u)) {
      NoAliasing(ram, owner, d, v, d, u);
    }
  }

  predicate Below(p: int, n: nat) { 0 <= p < n }

  ghost function Pages(n: nat): set<int> { set p: int | 0 <= p < n && Below(p, n) }

  lemma {:induction false} FramesCount(ram: seq<Page>, owner: seq<Role>, d: nat, n: nat)
    requires |ram| == |owner| && Linked(ram, owner) && d < |ram| && owner[d].Dir? && n <= 0x8_0000
    requires forall v :: 0 <= v < n ==> Flat(ram, d, v) != 0
    ensures |Frames(ram, d, n)| == n && Frames(ram, d, n) <= Pages(|ram|)
  {
    hide Linked, Flat, PageOf;
    if n > 0 {
      FramesCount(ram, owner, d, n - 1);
      var last := PageOf(Flat(ram, d, n - 1));
      FrameInRam(ram, owner, d, n - 1);
      forall v | 0 <= v < n - 1 ensures PageOf(Flat(ram, d, v)) != last {
        FramesDiffer(ram, owner, d, v, n - 1);
      }
      assert Frames(ram, d, n) == Frames(ram, d, n - 1) + {last};
    }
  }

  lemma {:induction false} PagesCount(n: nat)
    ensures |Pages(n)| == n
  {
    if n > 0 {
      PagesCount(n - 1);
      assert Pages(n) == Pages(n - 1) + {n - 1};
    }
  }

  lemma SubsetCount(a: set<int>, b: set<int>)
    requires a <= b
    ensures |a| <= |b|
  {
    assert b == a + (b - a);
  }

  /** There are fewer frames than virtual pages, so the user half is never entirely
      mapped: on tables that the kernel builds, user_writable_after returns the exact
      count, also for the null pointer. */
  lemma KernelCountExact(ram: seq<Page>, owner: seq<Role>, d: nat, ptr: nat, n: nat)
    requires |ram| == |owner| == NPAGES && Linked(ram, owner) && d < NPAGES && owner[d].Dir?
    requires LongestWritable(ram, d, ptr, n)
    ensures n < 0x8000_0000 && SignedCount(ptr, n) == n
  {
    if ptr == 0 && n == 0x8000_0000 {
      forall v | 0 <= v < 0x8001 ensures Flat(ram, d, v) != 0 {
        KernelTablesAccess(ram, owner, d, v * 0x1000);
      }
      hide Linked, Flat;
      FramesCount(ram, owner, d, 0x8001);
      PagesCount(NPAGES);
      SubsetCount(Frames(ram, d, 0x8001), Pages(NPAGES));
    }
  }

  // The physical address behind va, where a translation exists.
  function Translate(ram: seq<Page>, d: nat, va: nat): int
    requires d < |ram|
  {
    if Large(Pde(ram, d, va)) then Pde(ram, d, va) / 0x40_0000 * 0x40_0000 + va % 0x40_0000
    else PageOf(Pte(ram, d, va)) * 0x1000 + va % 0x1000
  }

  /** The kernel half of every address space is the window onto physical memory, closed
      to user mode. */
  lemma KernelWindow(ram: seq<Page>, owner: seq<Role>, d: nat, pa: nat)
    requires |ram| == |owner| && Linked(ram, owner) && d < |ram| && owner[d].Dir? && pa < PHYSTOP
    ensures var va := KERNBASE + pa;
      && Present(Pde(ram, d, va)) && Large(Pde(ram, d, va)) && Writable(Pde(ram, d, va)) && !User(Pde(ram, d, va))
      && Translate(ram, d, va) == pa
  {
    var n := pa / 0x40_0000;
    assert n < 32 && PDX(KERNBASE + pa) == 512 + n;
    assert ram[d][512 + n] == KernelPde(512 + n) == n * 0x40_0000 + 0x83;
    assert Pde(ram, d, KERNBASE + pa) == n * 0x40_0000 + 0x83;
    assert (n * 0x40_0000 + 0x83) / 2 == n * 0x20_0000 + 0x41;
    assert (n * 0x40_0000 + 0x83) / 4 == n * 0x10_0000 + 0x20;
    assert (n * 0x40_0000 + 0x83) / 0x80 == n * 0x8000 + 1;
  }

  // The zero byte at a ends a string that starts at ptr, all of it readable below KERNBASE.
  ghost predicate StringEnd(ram: seq<Page>, d: nat, ptr: nat, a: nat, load: nat --> int)
    requires d < |ram| && forall a :: 0 <= a < KERNBASE && Readable(ram, d, a) ==> load.requires(a)
  {
    ptr <= a < KERNBASE && (forall b :: ptr <= b <= a ==> Readable(ram, d, b)) && load(a) == 0
  }

  /** A user string: the pointer is accepted exactly when it is not null and a zero byte
      follows before the end of readable memory.  `load` is user memory; loading is
      defined only where a read does not fault. */
  method GetUserspacePtr(ram: seq<Page>, d: nat, ptr: nat, load: nat --> int) returns (r: nat)
    requires d < |ram| && TablesInRam(ram, d)
    requires forall a :: 0 <= a < KERNBASE && Readable(ram, d, a) ==> load.requires(a)
    ensures r == ptr || r == 0
    ensures r != 0 <==> ptr != 0 && exists a :: StringEnd(ram, d, ptr, a, load)
  {
    var readable := UserReadableAfter(ram, d, ptr);
    var i := 0;
    while i < readable
      invariant 0 <= i <= readable
      invariant forall a :: ptr <= a < ptr + i ==> load(a) != 0
    {
      if load(ptr + i) == 0 {
        assert StringEnd(ram, d, ptr, ptr + i, load);
        return ptr;
      }
      i := i + 1;
    }
    r := 0;
  }
}
