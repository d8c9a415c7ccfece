/** Process start and teardown (proc.c): what run_elf maps and what killproc gives back. */
module Proc {
  import opened Layout
  import opened Mem
  import opened Vm

  const USER_BASE := 0x40_0000
  const USER_STACK_BASE := 0xF0_0000
  const STACK_BOTTOM := 0xEF_E000   // USER_STACK_BASE - 2 * PGSIZE

  // The program-header fields that the loader looks at.
  datatype Phdr = Phdr(ptype: nat, vaddr: nat, memsz: nat)

  predicate Loadable(h: Phdr) { h.ptype == 1 && h.memsz != 0 }

  // p_vaddr + p_memsz in 32-bit arithmetic.
  function SegTop(h: Phdr): nat { (h.vaddr + h.memsz) % 0x1_0000_0000 }

  ghost function ImageTop(fileTop: nat, phdrs: seq<Phdr>): nat {
    if phdrs == [] then fileTop
    else
      var rest := ImageTop(fileTop, phdrs[..|phdrs| - 1]);
      var h := phdrs[|phdrs| - 1];
      if Loadable(h) && SegTop(h) > rest then SegTop(h) else rest
  }

  /** The image top is the least bound on the file and on every loadable segment. */
  lemma {:induction false} ImageTopBounds(fileTop: nat, phdrs: seq<Phdr>)
    ensures fileTop <= ImageTop(fileTop, phdrs)
    ensures forall k :: 0 <= k < |phdrs| && Loadable(phdrs[k]) ==> SegTop(phdrs[k]) <= ImageTop(fileTop, phdrs)
    ensures ImageTop(fileTop, phdrs) == fileTop ||
            exists k :: 0 <= k < |phdrs| && Loadable(phdrs[k]) && SegTop(phdrs[k]) == ImageTop(fileTop, phdrs)
  {
    if phdrs != [] {
      var last := |phdrs| - 1;
      ImageTopBounds(fileTop, phdrs[..last]);
      assert forall k :: 0 <= k < last ==> phdrs[..last][k] == phdrs[k];
      assert Loadable(phdrs[last]) ==> SegTop(phdrs[last]) <= ImageTop(fileTop, phdrs);
    }
  }

  method FindImageTop(fileTop: nat, phdrs: seq<Phdr>) returns (top: nat)
    ensures top == ImageTop(fileTop, phdrs)
  {
    top := fileTop;
    var i := 0;
    while i < |phdrs|
      invariant 0 <= i <= |phdrs| && top == ImageTop(fileTop, phdrs[..i])
    {
      assert phdrs[..i + 1][..i] == phdrs[..i];
      if Loadable(phdrs[i]) && SegTop(phdrs[i]) > top {
        top := SegTop(phdrs[i]);
      }
      i := i + 1;
    }
    assert phdrs[..i] == phdrs;
  }

  // Does the header ask for memory above address a: of type PT_LOAD, not empty, and with
  // its end, in 32-bit arithmetic, behind a?
  predicate ReachesAbove(h: Phdr, a: nat) {
    h.ptype == 1 && h.memsz >= 1 && (h.vaddr + h.memsz) % 0x1_0000_0000 > a
  }

  // Is byte a one that the header asks for, above USER_BASE and without wrapping around?
  predicate AsksFor(h: Phdr, a: nat) {
    h.ptype == 1 && h.memsz >= 1 && USER_BASE <= h.vaddr <= a < h.vaddr + h.memsz < 0x1_0000_0000
  }

  // File and segments stay below the stack.
  predicate FitsBelowStack(size: nat, phdrs: seq<Phdr>) {
    USER_BASE + size <= STACK_BOTTOM && forall k :: 0 <= k < |phdrs| ==> !ReachesAbove(phdrs[k], STACK_BOTTOM)
  }

  /** The image top in terms of the headers' fields: it lies above an address exactly when
      the file does or some header reaches above it. */
  lemma ImageTopAbove(size: nat, phdrs: seq<Phdr>, a: nat)
    ensures ImageTop(USER_BASE + size, phdrs) > a <==>
      USER_BASE + size > a || exists k :: 0 <= k < |phdrs| && ReachesAbove(phdrs[k], a)
  {
    ImageTopBounds(USER_BASE + size, phdrs);
    var top := ImageTop(USER_BASE + size, phdrs);
    hide ImageTop;
    forall k | 0 <= k < |phdrs| ensures ReachesAbove(phdrs[k], a) <==> Loadable(phdrs[k]) && SegTop(phdrs[k]) > a {
    }
  }

  /** What is below the stack keeps the image top there. */
  lemma ImageTopFits(size: nat, phdrs: seq<Phdr>)
    ensures ImageTop(USER_BASE + size, phdrs) <= STACK_BOTTOM <==> FitsBelowStack(size, phdrs)
  {
    ImageTopAbove(size, phdrs, STACK_BOTTOM);
  }

  // The virtual pages of a loaded image and of its stack.
  predicate ImagePage(v: nat, top: nat) {
    0x400 <= v < PageCeil(top) || 0xEFE <= v < 0xF00
  }

  lemma SectorInImage(a: nat, size: nat)
    requires USER_BASE <= a < USER_BASE + (size + 511) / 512 * 512
    ensures ImagePage(a / 0x1000, USER_BASE + size)
  {
    assert a / 512 < 0x2000 + (size + 511) / 512;
    assert a / 0x1000 == a / 512 / 8;
  }

  lemma ImagePageMonotone(v: nat, low: nat, top: nat)
    requires low <= top && ImagePage(v, low)
    ensures ImagePage(v, top)
  {
  }

  // A header as the loader reads it, in 32-bit words.
  predicate InWords(h: Phdr) { h.vaddr < 0x1_0000_0000 && h.memsz < 0x1_0000_0000 }

  predicate Wraps(h: Phdr) { h.vaddr + h.memsz >= 0x1_0000_0000 }

  // The address of byte i of a segment.
  function ByteAddress(h: Phdr, i: nat): nat { (h.vaddr + i) % 0x1_0000_0000 }

  ghost predicate SegmentMapped(h: Phdr, top: nat) {
    forall i: nat :: i < h.memsz ==> ImagePage(ByteAddress(h, i) / 0x1000, top)
  }

  /** A byte of a loadable segment that does not wrap around is mapped if and only if it
      lies at or above USER_BASE, ... */
  lemma SegmentByteMapped(size: nat, phdrs: seq<Phdr>, k: nat, a: nat)
    requires k < |phdrs| && Loadable(phdrs[k]) && phdrs[k].vaddr <= a < SegTop(phdrs[k]) && !Wraps(phdrs[k])
    requires ImageTop(USER_BASE + size, phdrs) <= STACK_BOTTOM
    ensures ImagePage(a / 0x1000, ImageTop(USER_BASE + size, phdrs)) <==> USER_BASE <= a
  {
    ImageTopBounds(USER_BASE + size, phdrs);
    hide ImageTop;
  }

  lemma NotMappedAbove(v: nat, top: nat)
    requires top <= STACK_BOTTOM && v >= 0xF00
    ensures !ImagePage(v, top)
  {
  }

  lemma SegmentMappedWhen(size: nat, phdrs: seq<Phdr>, k: nat)
    requires k < |phdrs| && Loadable(phdrs[k]) && InWords(phdrs[k])
    requires ImageTop(USER_BASE + size, phdrs) <= STACK_BOTTOM
    ensures SegmentMapped(phdrs[k], ImageTop(USER_BASE + size, phdrs)) <==>
      USER_BASE <= phdrs[k].vaddr && !Wraps(phdrs[k])
  {
    var h, top := phdrs[k], ImageTop(USER_BASE + size, phdrs);
    hide ImageTop, ImagePage;
    if Wraps(h) {
      var i := 0xFFFF_FFFF - h.vaddr;
      assert ByteAddress(h, i) / 0x1000 == 0xF_FFFF;
      NotMappedAbove(0xF_FFFF, top);
    } else {
      forall i: nat | i < h.memsz ensures ImagePage(ByteAddress(h, i) / 0x1000, top) <==> USER_BASE <= h.vaddr + i {
        SegmentByteMapped(size, phdrs, k, h.vaddr + i);
      }
      assert !ImagePage(ByteAddress(h, 0) / 0x1000, top) <==> h.vaddr < USER_BASE;
    }
  }

  /** ... so that every byte of every loadable segment is mapped if and only if each of
      them starts at or above USER_BASE and none wraps around.  The sectors that
      read_file writes are always mapped. */
  lemma ImageCovered(size: nat, phdrs: seq<Phdr>)
    requires forall k :: 0 <= k < |phdrs| ==> InWords(phdrs[k])
    requires ImageTop(USER_BASE + size, phdrs) <= STACK_BOTTOM
    ensures forall a :: USER_BASE <= a < USER_BASE + (size + 511) / 512 * 512 ==>
              ImagePage(a / 0x1000, ImageTop(USER_BASE + size, phdrs))
    ensures (forall k :: 0 <= k < |phdrs| && Loadable(phdrs[k]) ==>
               SegmentMapped(phdrs[k], ImageTop(USER_BASE + size, phdrs)))
       <==> (forall k :: 0 <= k < |phdrs| && Loadable(phdrs[k]) ==> USER_BASE <= phdrs[k].vaddr && !Wraps(phdrs[k]))
  {
    hide ImageTop, SegmentMapped, Wraps, ImagePage;
    forall a | USER_BASE <= a < USER_BASE + (size + 511) / 512 * 512
      ensures ImagePage(a / 0x1000, ImageTop(USER_BASE + size, phdrs))
    {
      ImageTopBounds(USER_BASE + size, phdrs);
      SectorInImage(a, size);
      ImagePageMonotone(a / 0x1000, USER_BASE + size, ImageTop(USER_BASE + size, phdrs));
    }
    forall k | 0 <= k < |phdrs| && Loadable(phdrs[k])
      ensures SegmentMapped(phdrs[k], ImageTop(USER_BASE + size, phdrs)) <==>
              USER_BASE <= phdrs[k].vaddr && !Wraps(phdrs[k])
    {
      SegmentMappedWhen(size, phdrs, k);
    }
  }

  /** A segment that starts one page below USER_BASE, and one that ends at 2^32: neither
      is mapped, and run_elf does not notice. */
  lemma SegmentNotMapped(size: nat, h: Phdr)
    requires size <= 0x1000 && (h == Phdr(1, 0x3F_F000, 0x2000) || h == Phdr(1, 0xFFFF_F000, 0x1000))
    ensures ImageTop(USER_BASE + size, [h]) <= STACK_BOTTOM
    ensures !SegmentMapped(h, ImageTop(USER_BASE + size, [h]))
  {
    assert ImageTop(USER_BASE + size, [h][..0]) == USER_BASE + size;
    SegmentMappedWhen(size, [h], 0);
  }

  // The same pages are free.
  ghost predicate SameFree(owner0: seq<Role>, owner: seq<Role>)
    requires |owner0| == |owner|
  {
    forall p :: 0 <= p < |owner| ==> (owner[p].Free? <==> owner0[p].Free?)
  }

  // Pages in use kept their purpose and their contents.
  ghost predicate SameUsed(ram0: seq<Page>, owner0: seq<Role>, ram: seq<Page>, owner: seq<Role>)
    requires |ram0| == |owner0| == |ram| == |owner|
  {
    forall p :: 0 <= p < |owner| && !owner0[p].Free? ==> owner[p] == owner0[p] && ram[p] == ram0[p]
  }

  /** A directory made from a free page, grown, and released: nothing is left of it. */
  lemma LifeConserves(ram0: seq<Page>, owner0: seq<Role>, d: nat,
                      ram1: seq<Page>, owner1: seq<Role>, ram: seq<Page>, owner: seq<Role>)
    requires |ram0| == |owner0| == |ram1| == |owner1| == |ram| == |owner| && d < |ram|
    requires Linked(ram0, owner0) && owner0[d].Free?
    requires Grew(ram0[d := KernelDir(32)], owner0[d := Dir], ram1, owner1, d)
    requires Released(ram1, owner1, ram, owner, d)
    ensures SameFree(owner0, owner) && SameUsed(ram0, owner0, ram, owner)
  {
  }

  // Is virtual page v one that allocuvm maps for the byte range r?
  predicate InPages(r: (nat, nat), v: nat) {
    PageCeil(r.0) <= v < PageCeil(r.1)
  }

  ghost predicate Disjoint(ranges: seq<(nat, nat)>) {
    forall k, l, v :: 0 <= k < l < |ranges| ==> !(InPages(ranges[k], v) && InPages(ranges[l], v))
  }

  // Directory d maps nothing outside the given ranges.
  ghost predicate MapsOnly(ram: seq<Page>, d: nat, ranges: seq<(nat, nat)>)
    requires d < |ram|
  {
    forall v :: 0 <= v < 0x8_0000 && Flat(ram, d, v) != 0 ==> exists k :: 0 <= k < |ranges| && InPages(ranges[k], v)
  }

  lemma NextRangeUnmapped(ram: seq<Page>, d: nat, ranges: seq<(nat, nat)>, i: nat)
    requires d < |ram| && i < |ranges| && Disjoint(ranges) && MapsOnly(ram, d, ranges[..i])
    ensures forall v :: 0 <= v < 0x8_0000 && InPages(ranges[i], v) ==> Flat(ram, d, v) == 0
  {
  }

  lemma MapsOnlyNext(ram0: seq<Page>, ram: seq<Page>, owner: seq<Role>, d: nat,
                   ranges: seq<(nat, nat)>, i: nat, stop: nat)
    requires |ram0| == |ram| == |owner| && d < |ram| && owner[d].Dir? && i < |ranges|
    requires MapsOnly(ram0, d, ranges[..i])
    requires var lo, hi := PageCeil(ranges[i].0), PageCeil(ranges[i].1);
      FlatExcept(ram0, ram, owner, d, lo, stop) && (stop == lo || stop <= hi)
    ensures MapsOnly(ram, d, ranges[..i + 1])
  {
    var next := ranges[..i + 1];
    forall v | 0 <= v < 0x8_0000 && Flat(ram, d, v) != 0
      ensures exists k :: 0 <= k < |next| && InPages(next[k], v)
    {
      if !InPages(ranges[i], v) {
        var k :| 0 <= k < i && InPages(ranges[..i][k], v);
        assert InPages(next[k], v);
      } else {
        assert InPages(next[i], v);
      }
    }
  }

  // One allocuvm call of the sequence, whether or not it finds enough memory.
  method MapRange(m: Machine, pgdir: int, ranges: seq<(nat, nat)>, i: nat, ghost d: nat)
    requires Sound(m) && d < NPAGES && m.owner[d].Dir? && pgdir == Kva(d)
    requires i < |ranges| && ranges[i].0 <= KERNBASE && ranges[i].1 <= KERNBASE
    requires Disjoint(ranges) && MapsOnly(m.ram[..], d, ranges[..i])
    modifies m, m.ram
    ensures Sound(m) && Grew(old(m.ram[..]), old(m.owner), m.ram[..], m.owner, d)
    ensures MapsOnly(m.ram[..], d, ranges[..i + 1])
  {
    hide Machine.Valid, Linked, Grew, Flat, FlatExcept, Zeroed, MapsOnly, Disjoint, PageCeil, Need, Tables;
    ghost var ram0, owner0 := m.ram[..], m.owner;
    NextRangeUnmapped(ram0, d, ranges, i);
    var r, stop := Allocuvm(m, pgdir, ranges[i].0, ranges[i].1, d);
    MapsOnlyNext(ram0, m.ram[..], owner0, d, ranges, i, stop);
  }

  lemma MapsNothing(ram: seq<Page>, d: nat, ranges: seq<(nat, nat)>)
    requires d < |ram| && forall v :: 0 <= v < 0x8_0000 ==> Flat(ram, d, v) == 0
    ensures MapsOnly(ram, d, ranges[..0])
  {
  }

  /** Life of an address space: create it, map any non-overlapping ranges - as far as
      memory lasts - and release it.  Exactly the original pages are free again. */
  method Lifecycle(m: Machine, ranges: seq<(nat, nat)>)
    requires Sound(m) && m.free != [] && Disjoint(ranges)
    requires forall k :: 0 <= k < |ranges| ==> ranges[k].0 <= KERNBASE && ranges[k].1 <= KERNBASE
    modifies m, m.ram
    ensures Sound(m) && SameFree(old(m.owner), m.owner)
    ensures SameUsed(old(m.ram[..]), old(m.owner), m.ram[..], m.owner)
  {
    ghost var ram0, owner0 := m.ram[..], m.owner;
    ghost var d := m.free[|m.free| - 1];
    assert d < NPAGES && owner0[d].Free?;
    hide Machine.Valid, Linked, Grew, Flat, Released, SameFree, SameUsed, MapsOnly, Disjoint;
    var pgdir := SetupKvm(m);
    ghost var ram1, owner1 := m.ram[..], m.owner;
    EmptyFlat(ram0, ram1, d);
    MapsNothing(ram1, d, ranges);
    GrewNot(ram1, owner1, d);
    var i := 0;
    while i < |ranges|
      invariant 0 <= i <= |ranges| && Sound(m) && Grew(ram1, owner1, m.ram[..], m.owner, d)
      invariant m.owner[d].Dir? && MapsOnly(m.ram[..], d, ranges[..i])
    {
      ghost var ram2, owner2 := m.ram[..], m.owner;
      MapRange(m, pgdir, ranges, i, d);
      GrewKeeps(ram2, owner2, m.ram[..], m.owner, d, d);
      GrewTransitive(ram1, owner1, ram2, owner2, m.ram[..], m.owner, d);
      i := i + 1;
    }
    ghost var ram2, owner2 := m.ram[..], m.owner;
    Freevm(m, pgdir, d);
    LifeConserves(ram0, owner0, d, ram2, owner2, m.ram[..], m.owner);
  }

  // Pages that running a program with this file and image takes, besides its directory:
  // the calls of run_elf in order, each starting from the tables the earlier ones left.
  ghost function RunNeed(fileEnd: nat, imageEnd: nat): nat {
    var t1 := Reached({}, 0x400, fileEnd);
    var t2 := Reached(t1, 0xEFE, 0xF00);
    Need({}, 0x400, fileEnd) + Need(t1, 0xEFE, 0xF00) + Need(t2, fileEnd, imageEnd)
  }

  predicate Between(lo: nat, i: nat, hi: nat) { lo <= i <= hi }

  // The directory entries lo to hi.
  ghost function Entries(lo: nat, hi: nat): set<nat> {
    set i: nat | i <= hi && Between(lo, i, hi)
  }

  lemma {:induction false} ReachedIs(tables: set<nat>, lo: nat, hi: nat)
    requires lo < hi <= 0x8_0000
    ensures Reached(tables, lo, hi) == tables + Entries(lo / 1024, (hi - 1) / 1024)
    decreases hi - lo
  {
    if lo + 1 < hi {
      ReachedIs(tables + {Pdx(lo)}, lo + 1, hi);
    }
  }

  // In closed form: a page for each page of the file and each table under it, ...
  function FileNeed(fileEnd: nat): int {
    if fileEnd <= 0x400 then 0 else (fileEnd - 0x400) + (fileEnd - 1) / 1024
  }

  // ... and for each page of image and stack and each of the 4 MiB regions 1, 2 and 3
  // that they touch.
  function FullNeed(imageEnd: nat): int {
    (imageEnd - 0x400) + 2 + if imageEnd <= 0x800 then 2 else 3
  }

  lemma NeedNothing(tables: set<nat>, lo: nat)
    ensures Need(tables, lo, lo) == 0
  {
  }

  lemma FirstEntries(hi: nat)
    requires 1 <= hi <= 3
    ensures Entries(1, hi) == if hi == 1 then {1} else if hi == 2 then {1, 2} else {1, 2, 3}
    ensures |Entries(1, hi)| == hi
  {
    assert Entries(1, hi) == if hi == 1 then {1} else if hi == 2 then {1, 2} else {1, 2, 3};
  }

  lemma FirstNeed(fileEnd: nat)
    requires 0x400 < fileEnd <= 0xEFE
    ensures Need({}, 0x400, fileEnd) == FileNeed(fileEnd)
    ensures Reached({}, 0x400, fileEnd) == Entries(1, (fileEnd - 1) / 1024)
  {
    hide Need, Reached;
    var a := (fileEnd - 1) / 1024;
    ReachedIs({}, 0x400, fileEnd);
    NeedCount({}, 0x400, fileEnd);
    FirstEntries(a);
    assert Absent({}, 0x400, fileEnd) == Entries(1, a);
  }

  lemma StackNeed(a: nat)
    requires 1 <= a <= 3
    ensures Need(Entries(1, a), 0xEFE, 0xF00) == if a < 3 then 3 else 2
    ensures Reached(Entries(1, a), 0xEFE, 0xF00) == Entries(1, a) + {3}
  {
    hide Need, Reached;
    FirstEntries(a);
    ReachedIs(Entries(1, a), 0xEFE, 0xF00);
    NeedCount(Entries(1, a), 0xEFE, 0xF00);
    assert Absent(Entries(1, a), 0xEFE, 0xF00) == if a < 3 then {3} else {};
    assert Entries(0xEFE / 1024, (0xF00 - 1) / 1024) == {3};
  }

  /** Both are what the calls of run_elf take. */
  lemma RunNeedTotal(fileEnd: nat, imageEnd: nat)
    requires 0x400 < fileEnd <= imageEnd <= 0xEFE
    ensures Need({}, 0x400, fileEnd) == FileNeed(fileEnd)
    ensures RunNeed(fileEnd, imageEnd) == FullNeed(imageEnd)
  {
    hide Need, Reached;
    var a, b := (fileEnd - 1) / 1024, (imageEnd - 1) / 1024;
    FirstNeed(fileEnd);
    StackNeed(a);
    FirstEntries(a);
    var t2 := Entries(1, a) + {3};
    if fileEnd == imageEnd {
      NeedNothing(t2, fileEnd);
    } else {
      NeedCount(t2, fileEnd, imageEnd);
      assert Absent(t2, fileEnd, imageEnd) == if a == 1 && b >= 2 then {2} else {};
    }
  }

  /** Does run_elf start a non-empty file, with so many pages to spare?  The file must
      fit.  Then it starts if nothing has to be mapped beyond the file, or if everything
      fits, or - without a stack - if there is one page left that cannot become a stack
      page, because the stack's table is missing too, and that is the page needed. */
  predicate Starts(fileEnd: nat, imageEnd: nat, spare: int) {
    && spare >= FileNeed(fileEnd)
    && (|| imageEnd == fileEnd
        || spare >= FullNeed(imageEnd)
        || (spare == FileNeed(fileEnd) + 1 && imageEnd == fileEnd + 1 && fileEnd <= 0xC00 && fileEnd % 1024 != 0))
  }

  // The pages left after the stack was mapped into tables t1, from k pages.
  ghost function StackRest(t1: set<nat>, k: nat): nat {
    if k >= Need(t1, 0xEFE, 0xF00) then k - Need(t1, 0xEFE, 0xF00)
    else if k == 1 && 3 !in t1 then 1 else 0
  }

  // A failing call for the stack leaves a page only if that would have had to be a table.
  lemma StackShort(t1: set<nat>, k: nat, n: nat, tables: set<nat>, stop: nat)
    requires 0xEFE <= stop < 0xF00 && tables == Reached(t1, 0xEFE, stop)
    requires k == n + Need(t1, 0xEFE, stop) && n < PageCost(tables, stop)
    ensures n == StackRest(t1, k) && k < Need(t1, 0xEFE, 0xF00) && (n == 1 ==> tables == t1)
  {
    NeedNothing(t1, 0xEFE);
    NeedOne(t1, 0xEFE, 0xF00);
    NeedSplit(t1, 0xEFE, 0xEFF, 0xF00);
    ReachedNext(t1, 0xEFE, 0xEFE);
    NeedOne(Reached(t1, 0xEFE, 0xEFF), 0xEFF, 0xF00);
    assert Reached(t1, 0xEFE, 0xEFE) == t1;
    hide Need, Reached;
  }

  // Where the mapping of the stack ends when the file fits: before the first stack page,
  // before the second, or behind both.
  function StackEnd(fileEnd: nat, spare: int): (v: nat)
    ensures 0xEFE <= v <= 0xF00
  {
    var k := spare - FileNeed(fileEnd) - if fileEnd <= 0xC00 then 1 else 0;
    if k >= 2 then 0xF00 else if k == 1 then 0xEFF else 0xEFE
  }

  lemma ReachedNothing(tables: set<nat>, lo: nat)
    ensures Reached(tables, lo, lo) == tables
  {
  }

  lemma FileNeedIs(fileEnd: nat)
    requires 0x400 <= fileEnd <= 0xEFE
    ensures Need({}, 0x400, fileEnd) == FileNeed(fileEnd)
    ensures 3 in Reached({}, 0x400, fileEnd) <==> fileEnd > 0xC00
  {
    if fileEnd == 0x400 {
      NeedNothing({}, 0x400);
      ReachedNothing({}, 0x400);
    } else {
      RunNeedTotal(fileEnd, fileEnd);
      ReachedIs({}, 0x400, fileEnd);
    }
    hide Need, Reached;
  }

  lemma StackEndIs(fileEnd: nat, spare: nat, left: nat, tables: set<nat>, stop: nat)
    requires 0x400 <= fileEnd <= 0xEFE && 0xEFE <= stop <= 0xF00
    requires var t1 := Reached({}, 0x400, fileEnd);
      && tables == Reached(t1, 0xEFE, stop) && (stop < 0xF00 ==> left < PageCost(tables, stop))
      && spare == Need({}, 0x400, fileEnd) + Need(t1, 0xEFE, stop) + left
    ensures stop == StackEnd(fileEnd, spare)
  {
    hide Need, Reached;
    var t1 := Reached({}, 0x400, fileEnd);
    FileNeedIs(fileEnd);
    NeedNothing(t1, 0xEFE);
    ReachedNext(t1, 0xEFE, 0xEFE);
    NeedOne(t1, 0xEFE, 0xEFF);
    NeedSplit(t1, 0xEFE, 0xEFF, 0xF00);
    NeedOne(Reached(t1, 0xEFE, 0xEFF), 0xEFF, 0xF00);
    ReachedNothing(t1, 0xEFE);
  }

  // What the calls for file and stack leave when the file fits: so many pages, and,
  // as far as they are of use, these tables.
  ghost predicate StackLeft(fileEnd: nat, spare: nat, left: nat, tables: set<nat>) {
    var t1, k := Reached({}, 0x400, fileEnd), spare - Need({}, 0x400, fileEnd);
    && k >= 0 && left == StackRest(t1, k)
    && (if k >= Need(t1, 0xEFE, 0xF00) then tables == Reached(t1, 0xEFE, 0xF00) else left == 1 ==> tables == t1)
  }

  // What the last call of run_elf finds decides whether the program starts.
  lemma StartsWhen(fileEnd: nat, imageEnd: nat, spare: nat, left: nat, tables: set<nat>)
    requires 0x400 < fileEnd <= imageEnd <= 0xEFE && StackLeft(fileEnd, spare, left, tables)
    ensures left >= Need(tables, fileEnd, imageEnd) <==> Starts(fileEnd, imageEnd, spare)
  {
    hide Need, Reached;
    var t1 := Reached({}, 0x400, fileEnd);
    var k := spare - Need({}, 0x400, fileEnd);
    RunNeedTotal(fileEnd, imageEnd);
    NeedNothing(tables, fileEnd);
    ReachedIs({}, 0x400, fileEnd);
    NeedCount(t1, 0xEFE, 0xF00);
    assert Need(t1, 0xEFE, 0xF00) >= 2;
    if k >= Need(t1, 0xEFE, 0xF00) {
      assert spare - RunNeed(fileEnd, imageEnd) == left - Need(tables, fileEnd, imageEnd);
    } else if fileEnd < imageEnd {
      NeedOne(tables, fileEnd, imageEnd);
      if left == 1 {
        NeedSplit(t1, fileEnd, fileEnd + 1, imageEnd);
        if fileEnd + 1 < imageEnd {
          NeedOne(Reached(t1, fileEnd, fileEnd + 1), fileEnd + 1, imageEnd);
        } else {
          NeedOne(t1, fileEnd, fileEnd + 1);
        }
        assert 3 in t1 <==> fileEnd > 0xC00;
        assert Pdx(fileEnd) in t1 <==> fileEnd % 1024 != 0;
      }
    }
  }

  datatype Status = NotFound | Fault | OutOfMemory | Running

  // Directory d, a free page before, holds a user address space; nothing else changed.
  ghost predicate Born(ram0: seq<Page>, owner0: seq<Role>, ram: seq<Page>, owner: seq<Role>, d: nat)
    requires |ram0| == |owner0| == |ram| == |owner|
  {
    d < |ram| && owner0[d].Free? && Grew(ram0[d := KernelDir(32)], owner0[d := Dir], ram, owner, d)
  }

  // Directory d maps exactly the virtual pages in the three ranges.
  ghost predicate MapsExactly(ram: seq<Page>, d: nat, a: (nat, nat), b: (nat, nat), c: (nat, nat))
    requires d < |ram|
  {
    forall v :: 0 <= v < 0x8_0000 ==>
      (Flat(ram, d, v) != 0 <==> a.0 <= v < a.1 || b.0 <= v < b.1 || c.0 <= v < c.1)
  }

  lemma MapsStep(ram0: seq<Page>, ram: seq<Page>, owner: seq<Role>, d: nat, lo: nat, stop: nat)
    requires |ram0| == |ram| == |owner| && d < |ram| && owner[d].Dir? && stop <= 0x8_0000
    requires FlatExcept(ram0, ram, owner, d, lo, stop) && Zeroed(owner, ram, d, lo, stop)
    ensures forall v :: 0 <= v < 0x8_0000 ==>
      (Flat(ram, d, v) != 0 <==> Flat(ram0, d, v) != 0 || lo <= v < stop)
  {
  }

  // The first two allocuvm calls of run_elf, in a new directory: file and stack.
  method MapFileAndStack(m: Machine, pgdir: int, size: nat, ghost d: nat)
      returns (r1: int, r2: int, ghost s1: nat, ghost s2: nat)
    requires Sound(m) && d < NPAGES && m.owner[d].Dir? && pgdir == Kva(d)
    requires Tables(m.ram[..], d) == {} && MapsExactly(m.ram[..], d, (0, 0), (0, 0), (0, 0))
    requires USER_BASE + size <= STACK_BOTTOM
    modifies m, m.ram
    ensures Sound(m) && Grew(old(m.ram[..]), old(m.owner), m.ram[..], m.owner, d)
    ensures MapsExactly(m.ram[..], d, (0x400, s1), (0xEFE, s2), (0, 0))
    ensures var fileEnd := PageCeil(USER_BASE + size);
      && s1 <= fileEnd && s2 <= 0xF00 && (r1 == 0 <==> s1 == fileEnd) && (r2 == 0 <==> s2 == 0xF00)
      && (r1 == 0 <==> |old(m.free)| >= Need({}, 0x400, fileEnd))
      && (r1 == r2 == 0 <==>
          |old(m.free)| >= Need({}, 0x400, fileEnd) + Need(Reached({}, 0x400, fileEnd), 0xEFE, 0xF00))
      && (r1 == 0 ==> StackLeft(fileEnd, old(|m.free|), |m.free|, Tables(m.ram[..], d)))
      && (r1 == 0 ==> s2 == StackEnd(fileEnd, old(|m.free|)))
  {
    hide Machine.Valid, Linked, Grew, Flat, FlatExcept, Zeroed, Need, Reached, Tables, PageCost;
    ghost var ram0, owner0 := m.ram[..], m.owner;
    r1, s1 := Allocuvm(m, pgdir, USER_BASE, USER_BASE + size, d);
    ghost var ram1, owner1, n1 := m.ram[..], m.owner, |m.free|;
    MapsStep(ram0, ram1, owner0, d, 0x400, s1);
    GrewKeeps(ram0, owner0, ram1, owner1, d, d);
    r2, s2 := Allocuvm(m, pgdir, USER_STACK_BASE - 2 * PGSIZE, USER_STACK_BASE, d);
    MapsStep(ram1, m.ram[..], owner1, d, 0xEFE, s2);
    GrewTransitive(ram0, owner0, ram1, owner1, m.ram[..], m.owner, d);
    if r1 == 0 {
      StackEndIs(PageCeil(USER_BASE + size), old(|m.free|), |m.free|, Tables(m.ram[..], d), s2);
      if r2 != 0 {
        StackShort(Tables(ram1, d), n1, |m.free|, Tables(m.ram[..], d), s2);
      }
    }
  }

  lemma NothingLinked(ram: seq<Page>, owner: seq<Role>)
    requires |ram| == |owner| && forall p :: 0 <= p < |owner| ==> Loose(owner[p])
    ensures Linked(ram, owner)
  {
  }

  // If some page is free then the list is not empty, and its first page is free.
  lemma TopFree(m: Machine, p: nat) returns (d: nat)
    requires m.Valid() && p < NPAGES && m.owner[p].Free?
    ensures m.free != [] && d == m.free[|m.free| - 1] && d < NPAGES && m.owner[d].Free?
  {
    d := m.free[|m.free| - 1];
  }

  /** kmain's memory setup: the free pages are exactly those from 1 MiB up, except the
      one that holds the kernel's page directory. */
  method Boot(m: Machine) returns (dir: int, ghost d: nat)
    requires m.Valid() && m.free == [] && m.owner == seq(0x8000, _ => Role.Kernel)
    modifies m, m.ram
    ensures Sound(m) && d < NPAGES && dir == Kva(d) && m.owner[d].Dir? && m.ram[d] == KernelDir(32)
    ensures forall p :: 0 <= p < NPAGES ==> (m.owner[p].Free? <==> 0x100 <= p && p != d)
  {
    hide Machine.Valid, Machine.InRange, Linked;
    Machine.InRangeOfPages(0x100, 0x200);
    Machine.InRangeOfPages(0x200, 0x8000);
    m.Freerange(Kva(0x100), Kva(0x200));
    d := TopFree(m, 0x100);
    NothingLinked(m.ram[..], m.owner);
    dir := SetupKvm(m);
    ghost var ram1, owner1 := m.ram[..], m.owner;
    m.Freerange(Kva(0x200), Kva(0x8000));
    LooseIrrelevant(ram1, owner1, m.ram[..], m.owner);
  }

  // The rest of loading, once the directory is in force: read the file, map what the
  // segments need beyond it.
  method LoadImage(m: Machine, pgdir: int, size: nat, phdrs: seq<Phdr>,
                 r1: int, ghost s1: nat, ghost s2: nat, ghost d: nat)
      returns (status: Status, ghost s3: nat)
    requires Sound(m) && d < NPAGES && m.owner[d].Dir? && pgdir == Kva(d)
    requires MapsExactly(m.ram[..], d, (0x400, s1), (0xEFE, s2), (0, 0))
    requires r1 == 0 <==> s1 == PageCeil(USER_BASE + size)
    requires s1 <= PageCeil(USER_BASE + size) && ImageTop(USER_BASE + size, phdrs) <= STACK_BOTTOM
    modifies m, m.ram
    ensures Sound(m) && Grew(old(m.ram[..]), old(m.owner), m.ram[..], m.owner, d)
    ensures var fileEnd, imageEnd := PageCeil(USER_BASE + size), PageCeil(ImageTop(USER_BASE + size, phdrs));
      && fileEnd <= s3 <= imageEnd
      && MapsExactly(m.ram[..], d, (0x400, s1), (0xEFE, s2), (fileEnd, s3))
      && (status == NotFound <==> size == 0) && (status == Fault <==> size != 0 && r1 != 0)
      && (status == Running <==> size != 0 && r1 == 0 && s3 == imageEnd)
      && (size != 0 && r1 == 0 ==> (s3 == imageEnd <==>
        |old(m.free)| >= Need(old(Tables(m.ram[..], d)), fileEnd, imageEnd)))
  {
    hide Machine.Valid, Linked, Grew, Flat, FlatExcept, Zeroed, Tables, ImageTop;
    var fileTop := USER_BASE + size;
    ImageTopBounds(fileTop, phdrs);
    ghost var ram0, owner0 := m.ram[..], m.owner;
    GrewNot(ram0, owner0, d);
    s3 := PageCeil(fileTop);
    if size == 0 {
      status := NotFound;
    } else if r1 != 0 {
      status := Fault;
    } else {
      var top := FindImageTop(fileTop, phdrs);
      status := Running;
      if top > fileTop {
        var r3;
        r3, s3 := Allocuvm(m, pgdir, fileTop, top, d);
        MapsStep(ram0, m.ram[..], owner0, d, PageCeil(fileTop), s3);
        if r3 < 0 {
          status := OutOfMemory;
        }
      }
    }
  }

  lemma MapsNone(ram: seq<Page>, d: nat)
    requires d < |ram| && forall v :: 0 <= v < 0x8_0000 ==> Flat(ram, d, v) == 0
    ensures MapsExactly(ram, d, (0, 0), (0, 0), (0, 0))
  {
  }

  lemma RunMaps(ram: seq<Page>, d: nat, fileEnd: nat, imageEnd: nat, s2: nat)
    requires d < |ram| && 0x400 <= fileEnd <= imageEnd <= 0xEFE && s2 <= 0xF00
    requires MapsExactly(ram, d, (0x400, fileEnd), (0xEFE, s2), (fileEnd, imageEnd))
    ensures MapsExactly(ram, d, (0x400, imageEnd), (0xEFE, s2), (0, 0))
    ensures MapsExactly(ram, d, (0x400, imageEnd), (0xEFE, 0xF00), (0, 0)) <==> s2 == 0xF00
  {
    if s2 < 0xF00 {
      assert Flat(ram, d, 0xEFF) == 0;
    }
  }

  // The pages below the stack that directory d maps are exactly those that start below the
  // end of the file, or below the end of a header's segment.
  ghost predicate ImageMapped(ram: seq<Page>, d: nat, size: nat, phdrs: seq<Phdr>)
    requires d < |ram|
  {
    forall v :: 0x400 <= v < 0xEFE ==>
      (Flat(ram, d, v) != 0 <==>
       v * 0x1000 < USER_BASE + size || exists k :: 0 <= k < |phdrs| && ReachesAbove(phdrs[k], v * 0x1000))
  }

  lemma ImageIsMapped(ram: seq<Page>, d: nat, size: nat, phdrs: seq<Phdr>, s2: nat)
    requires d < |ram| && 0xEFE <= s2 && ImageTop(USER_BASE + size, phdrs) <= STACK_BOTTOM
    requires MapsExactly(ram, d, (0x400, PageCeil(ImageTop(USER_BASE + size, phdrs))), (0xEFE, s2), (0, 0))
    ensures ImageMapped(ram, d, size, phdrs)
  {
    var top := ImageTop(USER_BASE + size, phdrs);
    forall v | 0x400 <= v < 0xEFE
      ensures Flat(ram, d, v) != 0 <==>
        v * 0x1000 < USER_BASE + size || exists k :: 0 <= k < |phdrs| && ReachesAbove(phdrs[k], v * 0x1000)
    {
      ImageTopAbove(size, phdrs, v * 0x1000);
      assert v < PageCeil(top) <==> top > v * 0x1000;
    }
  }

  /** So every byte that some header asks for is mapped. */
  lemma AskedForMapped(ram: seq<Page>, d: nat, size: nat, phdrs: seq<Phdr>, k: nat, a: nat)
    requires d < |ram| && ImageMapped(ram, d, size, phdrs) && FitsBelowStack(size, phdrs)
    requires k < |phdrs| && AsksFor(phdrs[k], a)
    ensures a < STACK_BOTTOM && Flat(ram, d, a / 0x1000) != 0
  {
    assert !ReachesAbove(phdrs[k], STACK_BOTTOM);
    assert ReachesAbove(phdrs[k], a / 0x1000 * 0x1000);
  }

  // Byte a of the user half has a translation, below the stack.
  ghost predicate ByteMapped(ram: seq<Page>, d: nat, a: nat)
    requires d < |ram|
  {
    a < STACK_BOTTOM && Flat(ram, d, a / 0x1000) != 0
  }

  ghost predicate AskedForAllMapped(ram: seq<Page>, d: nat, phdrs: seq<Phdr>)
    requires d < |ram|
  {
    forall k: nat, a: nat :: k < |phdrs| && AsksFor(phdrs[k], a) ==> ByteMapped(ram, d, a)
  }

  lemma AllMapped(ram: seq<Page>, d: nat, size: nat, phdrs: seq<Phdr>, s2: nat)
    requires d < |ram| && 0xEFE <= s2 && FitsBelowStack(size, phdrs)
    requires MapsExactly(ram, d, (0x400, PageCeil(ImageTop(USER_BASE + size, phdrs))), (0xEFE, s2), (0, 0))
    ensures ImageMapped(ram, d, size, phdrs) && AskedForAllMapped(ram, d, phdrs)
  {
    hide ImageMapped, Flat, FitsBelowStack, MapsExactly;
    ImageTopFits(size, phdrs);
    ImageIsMapped(ram, d, size, phdrs, s2);
    forall k: nat, a: nat | k < |phdrs| && AsksFor(phdrs[k], a)
      ensures ByteMapped(ram, d, a)
    {
      AskedForMapped(ram, d, size, phdrs, k, a);
    }
  }

  // Is v the kernel address of a page with this purpose?
  ghost predicate PageFor(owner: seq<Role>, v: int, role: Role) {
    0 <= PageAt(v) < |owner| && v == Kva(PageAt(v)) && owner[PageAt(v)] == role
  }

  // The pages, besides the task page, that are free when run_elf builds the address space.
  ghost function Spare(m: Machine, userTask: int): int
    reads m
  {
    |m.free| - if userTask == 0 then 2 else 1
  }

  /** How run_elf ends, from what is known before the call. */
  ghost function Outcome(size: nat, phdrs: seq<Phdr>, spare: int): Status {
    var fileEnd, imageEnd := PageCeil(USER_BASE + size), PageCeil(ImageTop(USER_BASE + size, phdrs));
    if size == 0 then NotFound
    else if spare < FileNeed(fileEnd) then Fault
    else if Starts(fileEnd, imageEnd, spare) then Running
    else OutOfMemory
  }

  /** A one-byte file with one page beyond it fails with one page to spare, and with two.
      More memory is not always better: it starts with three, without a stack, but not
      with four or five.  The file alone starts with no, one or two stack pages. */
  lemma OutcomeExample()
    ensures var phdrs := [Phdr(1, USER_BASE, 0x1001)];
      && Outcome(1, phdrs, 1) == Fault && Outcome(1, phdrs, 2) == OutOfMemory
      && Outcome(1, phdrs, 3) == Running
      && Outcome(1, phdrs, 4) == Outcome(1, phdrs, 5) == OutOfMemory && Outcome(1, phdrs, 6) == Running
    ensures StackEnd(0x401, 3) == 0xEFE
    ensures Outcome(1, [], 2) == Outcome(1, [], 4) == Outcome(1, [], 5) == Running
    ensures StackEnd(0x401, 2) == 0xEFE && StackEnd(0x401, 4) == 0xEFF && StackEnd(0x401, 5) == 0xF00
    ensures forall spare :: Outcome(0, [], spare) == NotFound
  {
    var h := Phdr(1, USER_BASE, 0x1001);
    assert ImageTop(USER_BASE + 1, [h][..0]) == USER_BASE + 1;
    assert ImageTop(USER_BASE + 1, [h]) == USER_BASE + 0x1001;
  }

  lemma OutcomeIs(size: nat, phdrs: seq<Phdr>, spare: nat, r1: int, r2: int, left: nat, tables: set<nat>,
                  s3: nat, status: Status)
    requires ImageTop(USER_BASE + size, phdrs) <= STACK_BOTTOM
    requires var fileEnd, imageEnd := PageCeil(USER_BASE + size), PageCeil(ImageTop(USER_BASE + size, phdrs));
      && (r1 == 0 <==> spare >= Need({}, 0x400, fileEnd))
      && (r1 == 0 ==> StackLeft(fileEnd, spare, left, tables))
      && (r1 == r2 == 0 <==>
          spare >= Need({}, 0x400, fileEnd) + Need(Reached({}, 0x400, fileEnd), 0xEFE, 0xF00))
      && (status == NotFound <==> size == 0) && (status == Fault <==> size != 0 && r1 != 0)
      && (status == Running <==> size != 0 && r1 == 0 && s3 == imageEnd)
      && (size != 0 && r1 == 0 ==> (s3 == imageEnd <==> left >= Need(tables, fileEnd, imageEnd)))
    ensures status == Outcome(size, phdrs, spare)
    ensures status == Running && r2 == 0 <==>
      size != 0 && spare >= FullNeed(PageCeil(ImageTop(USER_BASE + size, phdrs)))
  {
    hide Need, Reached, Starts, ImageTop;
    ImageTopBounds(USER_BASE + size, phdrs);
    var fileEnd, imageEnd := PageCeil(USER_BASE + size), PageCeil(ImageTop(USER_BASE + size, phdrs));
    if size != 0 {
      RunNeedTotal(fileEnd, imageEnd);
      if r1 == 0 {
        StartsWhen(fileEnd, imageEnd, spare, left, tables);
      }
    }
  }

  lemma NotSameFree(owner0: seq<Role>, owner: seq<Role>, d: nat)
    requires |owner0| == |owner| && d < |owner| && owner0[d].Free? && !owner[d].Free?
    ensures !SameFree(owner0, owner)
  {
  }

  lemma ReleasedKeeps(ram0: seq<Page>, owner0: seq<Role>, ram: seq<Page>, owner: seq<Role>, d: nat, p: nat)
    requires |ram0| == |owner0| == |ram| == |owner| && Released(ram0, owner0, ram, owner, d)
    requires p < |ram| && p != d && (owner0[p].Dir? || owner0[p].Kernel?)
    ensures owner[p] == owner0[p] && ram[p] == ram0[p]
  {
  }

  class Kernel {
    const m: Machine
    var kvm: int        // the kernel's own page directory
    var cr3: int        // the directory in force
    var userTask: int   // the task page, or 0
    var pgdir: int      // user_task->pgdir

    ghost predicate Valid()
      reads this, m, m.ram
    {
      && Sound(m) && PageFor(m.owner, kvm, Dir) && m.ram[PageAt(kvm)] == KernelDir(32)
      && (userTask == 0 || PageFor(m.owner, userTask, Role.Kernel))
    }

    constructor ()
      ensures Valid() && fresh(m) && fresh(m.ram) && cr3 == kvm && userTask == 0
      ensures forall p :: 0 <= p < NPAGES ==> (m.owner[p].Free? <==> 0x100 <= p && Kva(p) != kvm)
    {
      var mem := new Machine();
      var dir, d := Boot(mem);
      m, kvm, cr3, userTask, pgdir := mem, dir, dir, 0, 0;
    }

    // vm.user_task is allocated once and kept.
    method EnsureTask()
      requires Valid() && (userTask == 0 ==> m.free != [])
      modifies this, m
      ensures Valid() && userTask != 0 && kvm == old(kvm) && cr3 == old(cr3) && m.ram[..] == old(m.ram[..])
      ensures Spare(m, userTask) == old(Spare(m, userTask))
      ensures if old(userTask) != 0 then userTask == old(userTask) && m.owner == old(m.owner)
              else 0 <= PageAt(userTask) < NPAGES &&
                   old(m.owner)[PageAt(userTask)].Free? && m.owner == old(m.owner)[PageAt(userTask) := Role.Kernel]
    {
      if userTask == 0 {
        hide Linked;
        ghost var ram0, owner0 := m.ram[..], m.owner;
        ghost var t := m.free[|m.free| - 1];
        userTask := m.Kalloc();
        KvaPage(t);
        Transit(ram0, owner0, t, ram0[t], Role.Kernel);
        assert ram0[t := ram0[t]] == m.ram[..];
      }
    }

    /** Load and start a program.  The source does not check its first two allocations,
        so a shortage shows up later: as a fault while the file is read, as a failure of
        the last allocation, or not at all, and the program starts without its stack.
        Which of these happens depends on file, image and spare pages as stated; so does
        how much of the stack a started program has, while its image is always mapped. */
    method RunElf(size: nat, phdrs: seq<Phdr>) returns (status: Status, ghost d: nat)
      requires Valid() && Spare(m, userTask) >= 0
      requires FitsBelowStack(size, phdrs)   // else, if memory lasts, mappages panics: "remap"
      modifies this, m, m.ram
      ensures Valid() && userTask != 0 && kvm == old(kvm) && (old(userTask) != 0 ==> userTask == old(userTask))
      ensures d < NPAGES && pgdir == cr3 == Kva(d) != kvm && m.owner[d].Dir?
      ensures 0 <= PageAt(userTask) < NPAGES &&
              (old(m.owner)[PageAt(userTask)].Free? || old(m.owner)[PageAt(userTask)].Kernel?) &&
              Born(old(m.ram[..]), old(m.owner)[PageAt(userTask) := Role.Kernel], m.ram[..], m.owner, d)
      ensures status == Outcome(size, phdrs, old(Spare(m, userTask)))
      ensures status == Running ==>
        MapsExactly(m.ram[..], d, (0x400, PageCeil(ImageTop(USER_BASE + size, phdrs))),
                    (0xEFE, StackEnd(PageCeil(USER_BASE + size), old(Spare(m, userTask)))), (0, 0))
      ensures status == Running ==>
        ImageMapped(m.ram[..], d, size, phdrs) && AskedForAllMapped(m.ram[..], d, phdrs)
      ensures var imageEnd := PageCeil(ImageTop(USER_BASE + size, phdrs));
        status == Running && MapsExactly(m.ram[..], d, (0x400, imageEnd), (0xEFE, 0xF00), (0, 0)) <==>
        size != 0 && old(Spare(m, userTask)) >= FullNeed(imageEnd)
    {
      hide Machine.Valid, Linked, Grew, Flat, FlatExcept, Zeroed, Need, Reached, Tables, ImageTop,
        MapsExactly, StackLeft,
        Outcome, FullNeed, StackEnd, FitsBelowStack, ImageMapped, AskedForAllMapped;
      ImageTopFits(size, phdrs);
      ImageTopBounds(USER_BASE + size, phdrs);
      EnsureTask();
      ghost var ram0, owner0, spare := m.ram[..], m.owner, |m.free| - 1;
      d := m.free[|m.free| - 1];
      pgdir := SetupKvm(m);
      ghost var ram1, owner1 := m.ram[..], m.owner;
      EmptyFlat(ram0, ram1, d);
      MapsNone(ram1, d);
      var r1, r2, s1, s2 := MapFileAndStack(m, pgdir, size, d);
      ghost var ram2, owner2, n2 := m.ram[..], m.owner, |m.free|;
      GrewKeeps(ram1, owner1, ram2, owner2, d, d);
      cr3 := pgdir;
      ghost var s3;
      status, s3 := LoadImage(m, pgdir, size, phdrs, r1, s1, s2, d);
      GrewTransitive(ram1, owner1, ram2, owner2, m.ram[..], m.owner, d);
      GrewKeeps(ram1, owner1, m.ram[..], m.owner, d, d);
      GrewKeeps(ram1, owner1, m.ram[..], m.owner, d, PageAt(kvm));
      GrewKeeps(ram1, owner1, m.ram[..], m.owner, d, PageAt(userTask));
      KvaPage(d);
      assert owner0 == old(m.owner)[PageAt(userTask) := Role.Kernel];
      OutcomeIs(size, phdrs, spare, r1, r2, n2, Tables(ram2, d), s3, status);
      if status == Running {
        RunMaps(m.ram[..], d, PageCeil(USER_BASE + size), s3, s2);
        AllMapped(m.ram[..], d, size, phdrs, s2);
      }
    }

    method SwitchKvm()
      requires Valid()
      modifies this`cr3
      ensures Valid() && cr3 == kvm
    {
      cr3 := kvm;
    }

    method FreeUser(ghost d: nat)
      requires Valid() && userTask != 0 && d < NPAGES && m.owner[d].Dir? && pgdir == Kva(d) && pgdir != kvm
      modifies m, m.ram
      ensures Valid() && Released(old(m.ram[..]), old(m.owner), m.ram[..], m.owner, d)
      ensures m.ram[PageAt(kvm)] == old(m.ram[PageAt(kvm)]) && m.ram[PageAt(userTask)] == old(m.ram[PageAt(userTask)])
    {
      hide Machine.Valid, Linked, Released;
      ghost var ram0, owner0 := m.ram[..], m.owner;
      Freevm(m, pgdir, d);
      KvaPage(d);
      ReleasedKeeps(ram0, owner0, m.ram[..], m.owner, d, PageAt(kvm));
      ReleasedKeeps(ram0, owner0, m.ram[..], m.owner, d, PageAt(userTask));
    }

    /** Teardown.  The kernel's directory is put in force before the user's is freed;
        neither it nor the task page, whose stack this runs on, is touched. */
    method KillProc(ghost d: nat)
      requires Valid() && userTask != 0 && d < NPAGES && m.owner[d].Dir? && pgdir == Kva(d) && pgdir != kvm
      modifies this, m, m.ram
      ensures Valid() && cr3 == kvm == old(kvm) && userTask == old(userTask)
      ensures Released(old(m.ram[..]), old(m.owner), m.ram[..], m.owner, d)
      ensures m.ram[PageAt(kvm)] == old(m.ram[PageAt(kvm)]) && m.ram[PageAt(userTask)] == old(m.ram[PageAt(userTask)])
    {
      SwitchKvm();
      FreeUser(d);
    }

    /** A program that starts and finishes gives back every page: afterwards the same
        pages are free as before, apart from the task page if this run allocated it.
        One that does not start keeps its directory and what was mapped in it.  Which of
        the two happens is settled before the call. */
    method RunProgram(size: nat, phdrs: seq<Phdr>) returns (status: Status)
      requires Valid() && Spare(m, userTask) >= 0
      requires FitsBelowStack(size, phdrs)   // else, if memory lasts, mappages panics: "remap"
      modifies this, m, m.ram
      ensures Valid() && userTask != 0 && 0 <= PageAt(userTask) < NPAGES
      ensures status == Outcome(size, phdrs, old(Spare(m, userTask)))
      ensures var owner0 := old(m.owner)[PageAt(userTask) := Role.Kernel];
        && (status == Running <==> SameFree(owner0, m.owner))
        && if status == Running then cr3 == kvm && SameUsed(old(m.ram[..]), owner0, m.ram[..], m.owner)
           else PageFor(m.owner, cr3, Dir) && Born(old(m.ram[..]), owner0, m.ram[..], m.owner, PageAt(cr3))
    {
      ghost var d;
      hide Machine.Valid, Linked, Grew, Released, SameFree, SameUsed, ImageTop, MapsExactly, Outcome;
      ghost var ram0, owner0 := m.ram[..], m.owner;
      status, d := RunElf(size, phdrs);
      KvaPage(d);
      owner0 := owner0[PageAt(userTask) := Role.Kernel];
      if status == Running {
        ghost var ram1, owner1 := m.ram[..], m.owner;
        KillProc(d);
        Transit(ram0, old(m.owner), PageAt(userTask), ram0[PageAt(userTask)], Role.Kernel);
        assert ram0[PageAt(userTask) := ram0[PageAt(userTask)]] == ram0;
        LifeConserves(ram0, owner0, d, ram1, owner1, m.ram[..], m.owner);
      } else {
        NotSameFree(owner0, m.owner, d);
      }
    }
  }
}
