/** Two-level page tables (kernel/vm.c), written in place into the pages that
    `Mem` hands out. */
module Vm {
  import opened Layout
  import opened Mem

  // Entry w of a directory or table leads to a page owned for exactly that purpose.
  ghost predicate LeadsTo(owner: seq<Role>, w: int, role: Role) {
    0 <= PageOf(w) < |owner| && w == Entry(PageOf(w)) && owner[PageOf(w)] == role
  }

  /** Every user directory, page table and user frame in the machine hangs together:
      entries lead only to pages owned for that entry, every table and every frame
      is reachable from its directory, and the kernel half of each directory is the
      linear window. */
  ghost predicate Linked(ram: seq<Page>, owner: seq<Role>)
    requires |ram| == |owner|
  {
    && (forall d, i :: 0 <= d < |owner| && owner[d].Dir? && 0 <= i < 512 && ram[d][i] != 0 ==>
          LeadsTo(owner, ram[d][i], Table(d, i)))
    && (forall d, i :: 0 <= d < |owner| && owner[d].Dir? && 512 <= i < 1024 ==>
          ram[d][i] == KernelPde(i))
    && (forall t, j :: 0 <= t < |owner| && owner[t].Table? && 0 <= j < 1024 && ram[t][j] != 0 ==>
          LeadsTo(owner, ram[t][j], Frame(t, j)))
    && (forall t :: 0 <= t < |owner| && owner[t].Table? ==>
          && owner[t].dir < |owner| && owner[owner[t].dir].Dir?
          && owner[t].pdx < 512 && ram[owner[t].dir][owner[t].pdx] == Entry(t))
    && (forall f :: 0 <= f < |owner| && owner[f].Frame? ==>
          && owner[f].table < |owner| && owner[owner[f].table].Table?
          && owner[f].ptx < 1024 && ram[owner[f].table][owner[f].ptx] == Entry(f))
  }

  ghost predicate Sound(m: Machine)
    reads m, m.ram
    ensures Sound(m) ==> m.ram.Length == NPAGES && |m.owner| == NPAGES
  {
    m.Valid() && Linked(m.ram[..], m.owner)
  }

  /** The flat map that the two levels stand for: the entry for virtual page v, or 0. */
  ghost function Flat(ram: seq<Page>, d: nat, v: nat): int
    requires d < |ram| && v < 0x8_0000
  {
    var pde := ram[d][Pdx(v)];
    if 0 <= PageOf(pde) < |ram| && pde != 0 then ram[PageOf(pde)][Ptx(v)] else 0
  }

  // A directory with its first n kernel entries filled in.
  ghost function KernelDir(n: nat): Page {
    seq(1024, i => if 512 <= i < 512 + n then KernelPde(i) else 0)
  }

  lemma KernelDirStep(n: nat)
    requires n < 32
    ensures KernelDir(0) == Filled(0)
    ensures KernelDir(n)[512 + n := KernelPde(512 + n)] == KernelDir(n + 1)
  {
  }

  lemma NewDir(ram: seq<Page>, owner: seq<Role>, d: nat)
    requires |ram| == |owner| && d < |ram| && Linked(ram, owner) && owner[d].Free?
    ensures Linked(ram[d := KernelDir(32)], owner[d := Dir])
  {
  }

  lemma FlatEntry(ram: seq<Page>, d: nat, v: nat, t: nat)
    requires d < |ram| && t < |ram| && v < 0x8_0000 && ram[d][Pdx(v)] == Entry(t)
    ensures Flat(ram, d, v) == ram[t][Ptx(v)]
  {
    EntryFields(t);
  }

  // No translation of any address space changed ...
  ghost predicate SameFlat(ram0: seq<Page>, ram: seq<Page>, owner: seq<Role>)
    requires |ram0| == |ram| == |owner|
  {
    forall e, v :: 0 <= e < |ram| && owner[e].Dir? && 0 <= v < 0x8_0000 ==> Flat(ram, e, v) == Flat(ram0, e, v)
  }

  // ... and none except that virtual page u of directory d now has entry w.
  ghost predicate FlatUpdate(ram0: seq<Page>, ram: seq<Page>, owner: seq<Role>, d: nat, u: nat, w: int)
    requires |ram0| == |ram| == |owner|
  {
    forall e, v :: 0 <= e < |ram| && owner[e].Dir? && 0 <= v < 0x8_0000 ==>
      Flat(ram, e, v) == if e == d && v == u then w else Flat(ram0, e, v)
  }

  method SetupKvm(m: Machine) returns (pgdir: int)
    requires Sound(m) && m.free != []
    modifies m, m.ram
    ensures Sound(m)
    ensures var d := old(m.free)[|old(m.free)| - 1];
      && d < NPAGES && old(m.owner)[d].Free?
      && pgdir == Kva(d) && m.owner == old(m.owner)[d := Dir]
      && m.ram[..] == old(m.ram[..])[d := KernelDir(32)]
      && m.free == old(m.free)[..|old(m.free)| - 1]
  {
    hide Machine.Valid, Linked;
    ghost var d, before := m.free[|m.free| - 1], m.ram[..];
    pgdir := m.Kalloc();
    KvaPage(d);
    var dir := PageAt(pgdir);
    m.Fill(dir, 0);
    var pa := 0;
    ghost var n := 0;
    KernelDirStep(0);
    while pa < 0x800_0000
      invariant 0 <= n <= 32 && pa == n * 0x40_0000
      invariant m.Valid() && m.free == old(m.free)[..|old(m.free)| - 1]
      invariant m.owner == old(m.owner)[d := Kernel]
      invariant m.ram[..] == before[d := KernelDir(n)]
    {
      var va := 0x8000_0000 + pa;
      KernelDirStep(n);
      assert va / 0x40_0000 % 1024 == 512 + n;
      m.Store(dir, va / 0x40_0000 % 1024, pa + 0x83);
      pa := pa + 0x40_0000;
      n := n + 1;
    }
    m.Assign(d, Dir);
    NewDir(before, old(m.owner), d);
    assert m.owner == old(m.owner)[d := Dir];
    assert m.ram[..] == before[d := KernelDir(32)];
    assert m.Valid();
    assert Linked(m.ram[..], m.owner);
  }

  // Adding an empty page table t behind entry i of directory d.
  ghost function WithTable(ram: seq<Page>, d: nat, i: nat, t: nat): seq<Page>
    requires d < |ram| && t < |ram| && i < 1024
  {
    ram[t := Filled(0)][d := ram[d][i := Entry(t)]]
  }

  lemma NewTable(ram: seq<Page>, owner: seq<Role>, d: nat, i: nat, t: nat)
    requires |ram| == |owner| && Linked(ram, owner)
    requires d < |ram| && owner[d].Dir? && i < 512 && ram[d][i] == 0
    requires t < |ram| && owner[t].Free?
    ensures Linked(WithTable(ram, d, i, t), owner[t := Table(d, i)])
  {
    EntryFields(t);
  }

  lemma NewTableFlat(ram: seq<Page>, owner: seq<Role>, d: nat, i: nat, t: nat)
    requires |ram| == |owner| && Linked(ram, owner)
    requires d < |ram| && owner[d].Dir? && i < 512 && ram[d][i] == 0
    requires t < |ram| && owner[t].Free?
    ensures SameFlat(ram, WithTable(ram, d, i, t), owner)
  {
    EntryFields(t);
    forall e, v | 0 <= e < |ram| && owner[e].Dir? && 0 <= v < 0x8_0000
      ensures Flat(WithTable(ram, d, i, t), e, v) == Flat(ram, e, v)
    {
      UserPageIndices(v, v);
    }
  }

  // Mapping frame f, freshly zeroed, behind entry j of page table t.
  ghost function WithFrame(ram: seq<Page>, t: nat, j: nat, f: nat): seq<Page>
    requires t < |ram| && f < |ram| && j < 1024
  {
    ram[t := ram[t][j := Entry(f)]]
  }

  lemma NewFrame(ram: seq<Page>, owner: seq<Role>, t: nat, j: nat, f: nat)
    requires |ram| == |owner| && Linked(ram, owner)
    requires t < |ram| && owner[t].Table? && j < 1024 && ram[t][j] == 0
    requires f < |ram| && owner[f].Kernel?
    ensures Linked(WithFrame(ram, t, j, f), owner[f := Frame(t, j)])
  {
    EntryFields(f);
  }

  lemma NewFrameFlat(ram: seq<Page>, owner: seq<Role>, t: nat, j: nat, f: nat, u: nat)
    requires |ram| == |owner| && Linked(ram, owner)
    requires t < |ram| && owner[t].Table? && j < 1024 && ram[t][j] == 0
    requires f < |ram| && owner[f].Kernel?
    requires u < 0x8_0000 && Pdx(u) == owner[t].pdx && Ptx(u) == j
    ensures FlatUpdate(ram, WithFrame(ram, t, j, f), owner, owner[t].dir, u, Entry(f))
  {
    EntryFields(t);
    forall e, v | 0 <= e < |ram| && owner[e].Dir? && 0 <= v < 0x8_0000
      ensures Flat(WithFrame(ram, t, j, f), e, v) ==
        if e == owner[t].dir && v == u then Entry(f) else Flat(ram, e, v)
    {
      UserPageIndices(v, u);
    }
  }

  ghost predicate TableOf(owner: seq<Role>, p: nat, d: nat) {
    p < |owner| && owner[p].Table? && owner[p].dir == d
  }

  ghost predicate FrameOf(owner: seq<Role>, p: nat, d: nat) {
    p < |owner| && owner[p].Frame? && TableOf(owner, owner[p].table, d)
  }

  // The memory of d's address space may have grown out of free pages; nothing else changed.
  ghost predicate Grew(ram0: seq<Page>, owner0: seq<Role>, ram: seq<Page>, owner: seq<Role>, d: nat)
    requires |ram0| == |owner0| == |ram| == |owner|
  {
    && (forall p :: 0 <= p < |owner| && !owner0[p].Free? ==> owner[p] == owner0[p])
    && (forall p :: 0 <= p < |owner| && !owner0[p].Free? && p != d && !TableOf(owner0, p, d) ==> ram[p] == ram0[p])
    && (forall p :: 0 <= p < |owner| && owner0[p].Free? ==>
          owner[p] == owner0[p] || TableOf(owner, p, d) || FrameOf(owner, p, d))
  }

  lemma GrewKeeps(ram0: seq<Page>, owner0: seq<Role>, ram: seq<Page>, owner: seq<Role>, d: nat, p: nat)
    requires |ram0| == |owner0| == |ram| == |owner| && Grew(ram0, owner0, ram, owner, d)
    requires p < |owner| && !owner0[p].Free?
    ensures owner[p] == owner0[p]
    ensures p != d && !TableOf(owner0, p, d) ==> ram[p] == ram0[p]
  {
  }

  ghost predicate KeepsDirs(owner0: seq<Role>, owner: seq<Role>)
    requires |owner0| == |owner|
  {
    forall e :: 0 <= e < |owner| && owner0[e].Dir? ==> owner[e].Dir?
  }

  lemma GrewKeepsDirs(ram0: seq<Page>, owner0: seq<Role>, ram: seq<Page>, owner: seq<Role>, d: nat)
    requires |ram0| == |owner0| == |ram| == |owner| && Grew(ram0, owner0, ram, owner, d)
    ensures KeepsDirs(owner0, owner)
  {
  }

  lemma SameFlatAt(ram0: seq<Page>, ram: seq<Page>, owner: seq<Role>, e: nat, v: nat)
    requires |ram0| == |ram| == |owner| && SameFlat(ram0, ram, owner)
    requires e < |ram| && owner[e].Dir? && v < 0x8_0000
    ensures Flat(ram, e, v) == Flat(ram0, e, v)
  {
  }

  lemma SameFlatThenUpdate(ram0: seq<Page>, ram1: seq<Page>, ram2: seq<Page>, owner0: seq<Role>, owner1: seq<Role>,
                           d: nat, u: nat, w: int)
    requires |ram0| == |ram1| == |ram2| == |owner0| == |owner1|
    requires KeepsDirs(owner0, owner1)
    requires SameFlat(ram0, ram1, owner0) && FlatUpdate(ram1, ram2, owner1, d, u, w)
    ensures FlatUpdate(ram0, ram2, owner0, d, u, w)
  {
  }

  lemma GrewTransitive(ram0: seq<Page>, owner0: seq<Role>, ram1: seq<Page>, owner1: seq<Role>,
                       ram2: seq<Page>, owner2: seq<Role>, d: nat)
    requires |ram0| == |owner0| == |ram1| == |owner1| == |ram2| == |owner2|
    requires Grew(ram0, owner0, ram1, owner1, d) && Grew(ram1, owner1, ram2, owner2, d)
    ensures Grew(ram0, owner0, ram2, owner2, d)
  {
  }

  // Hanging a zeroed page behind an empty directory entry, all at once.
  lemma TableAdded(ram0: seq<Page>, owner0: seq<Role>, ram: seq<Page>, owner: seq<Role>, d: nat, i: nat, t: nat)
    requires |ram0| == |owner0| && Linked(ram0, owner0)
    requires d < |ram0| && owner0[d].Dir? && i < 512 && ram0[d][i] == 0
    requires t < |ram0| && owner0[t].Free?
    requires ram == WithTable(ram0, d, i, t) && owner == owner0[t := Table(d, i)]
    ensures Linked(ram, owner) && SameFlat(ram0, ram, owner0) && Grew(ram0, owner0, ram, owner, d)
  {
    NewTable(ram0, owner0, d, i, t);
    NewTableFlat(ram0, owner0, d, i, t);
    hide Linked, SameFlat;
  }

  /** The entry for a virtual address in the page table behind its directory entry,
      creating the table if asked to: the address of the table, or 0. */
  method Walkpgdir(m: Machine, pgdir: int, va: nat, alloc: bool, ghost d: nat) returns (pt: int, j: nat)
    requires Sound(m) && d < NPAGES && m.owner[d].Dir? && pgdir == Kva(d)
    requires va < KERNBASE
    modifies m, m.ram
    ensures Sound(m) && Grew(old(m.ram[..]), old(m.owner), m.ram[..], m.owner, d)
    ensures SameFlat(old(m.ram[..]), m.ram[..], old(m.owner))
    ensures j == PTX(va)
    ensures pt == 0 ==> m.ram[..] == old(m.ram[..]) && m.owner == old(m.owner)
    ensures pt != 0 ==>
      && 0 <= PageAt(pt) < NPAGES && pt == Kva(PageAt(pt)) && m.owner[PageAt(pt)] == Table(d, PDX(va))
      && Entry(PageAt(pt)) == m.ram[d][PDX(va)]
    ensures var present := old(m.ram[d][PDX(va)]) != 0;
      && (pt == 0 <==> !present && (!alloc || old(m.free) == []))
      && (m.free == if present || pt == 0 then old(m.free) else old(m.free)[..|old(m.free)| - 1])
      && (forall i :: 0 <= i < 1024 && i != PDX(va) ==> m.ram[d][i] == old(m.ram[d][i]))
  {
    hide Machine.Valid;
    ghost var ram0, owner0 := m.ram[..], m.owner;
    KvaPage(d);
    PageIndices(va);
    UserPageIndices(va / 0x1000, 0);
    var pd, i := PageAt(pgdir), PDX(va);
    var pde := m.ram[pd][i];
    j := PTX(va);
    if Present(pde) {
      EntryFields(PageOf(pde));
      KvaPage(PageOf(pde));
      pt := Kva(PageOf(pde));
    } else {
      if pde != 0 { EntryFields(PageOf(pde)); assert false; }
      if !alloc {
        return 0, j;
      }
      pt := m.Kalloc();
      if pt == 0 {
        return;
      }
      var t := PageAt(pt);
      ghost var top := old(m.free)[|old(m.free)| - 1];
      KvaPage(top);
      assert t == top;
      m.Fill(t, 0);
      m.Store(pd, i, Entry(t));
      m.Assign(t, Table(d, i));
      assert m.ram[..] == WithTable(ram0, d, i, t);
      assert m.owner == owner0[t := Table(d, i)];
      TableAdded(ram0, owner0, m.ram[..], m.owner, d, i, t);
    }
  }

  // Is the table for virtual page v missing?
  ghost predicate Missing(ram: seq<Page>, d: nat, v: nat)
    requires d < |ram|
  {
    ram[d][Pdx(v)] == 0
  }

  lemma GrewFrame(ram0: seq<Page>, owner0: seq<Role>, ram: seq<Page>, owner: seq<Role>, t: nat, j: nat, f: nat, d: nat)
    requires |ram0| == |owner0| == |ram| == |owner| && j < 1024
    requires Grew(ram0, owner0, ram, owner, d)
    requires TableOf(owner, t, d) && f < |ram| && owner0[f].Kernel?
    ensures Grew(ram0, owner0[f := Free(0)], WithFrame(ram, t, j, f), owner[f := Frame(t, j)], d)
  {
  }

  /** Map the zeroed page f at the page of va.  Fails exactly when a page table is
      needed and no page is free. */
  method MapPage(m: Machine, pgdir: int, va: nat, pa: nat, ghost d: nat, ghost f: nat) returns (r: int)
    requires Sound(m) && d < NPAGES && m.owner[d].Dir? && pgdir == Kva(d)
    requires va < KERNBASE && va % 0x1000 == 0
    requires f < NPAGES && m.owner[f].Kernel? && pa == f * 0x1000
    requires Flat(m.ram[..], d, va / 0x1000) == 0   // otherwise mappages panics: "remap"
    modifies m, m.ram
    ensures Sound(m)
    ensures r == 0 || r == -1
    ensures var missing := old(Missing(m.ram[..], d, va / 0x1000));
      && (r == -1 <==> missing && old(m.free) == [])
      && m.free == if missing && r == 0 then old(m.free)[..|old(m.free)| - 1] else old(m.free)
    ensures forall i :: 0 <= i < 1024 && i != PDX(va) ==> m.ram[d][i] == old(m.ram[d][i])
    ensures r == -1 ==> m.ram[..] == old(m.ram[..]) && m.owner == old(m.owner)
    ensures r == 0 ==>
      && !Missing(m.ram[..], d, va / 0x1000)
      && FrameOf(m.owner, f, d) && m.ram[f] == old(m.ram[f])
      && Grew(old(m.ram[..]), old(m.owner)[f := Free(0)], m.ram[..], m.owner, d)
      && FlatUpdate(old(m.ram[..]), m.ram[..], old(m.owner), d, va / 0x1000, Entry(f))
  {
    hide Machine.Valid, Linked, SameFlat, FlatUpdate, Grew, Flat, Pdx, Ptx, PDX, PTX;
    ghost var ram0, owner0 := m.ram[..], m.owner;
    PageIndices(va);
    UserPageIndices(va / 0x1000, 0);
    var pt, j := Walkpgdir(m, pgdir, va, true, d);
    if pt == 0 {
      return -1;
    }
    ghost var ram1, owner1 := m.ram[..], m.owner;
    var t := PageAt(pt);
    FlatEntry(ram1, d, va / 0x1000, t);
    GrewKeeps(ram0, owner0, ram1, owner1, d, f);
    GrewKeeps(ram0, owner0, ram1, owner1, d, d);
    assert Flat(ram0, d, va / 0x1000) == Flat(ram1, d, va / 0x1000)
      by { SameFlatAt(ram0, ram1, owner0, d, va / 0x1000); }
    m.Store(t, j, pa + 7);
    m.Assign(f, Frame(t, j));
    NewFrame(ram1, owner1, t, j, f);
    NewFrameFlat(ram1, owner1, t, j, f, va / 0x1000);
    GrewKeepsDirs(ram0, owner0, ram1, owner1, d);
    SameFlatThenUpdate(ram0, ram1, WithFrame(ram1, t, j, f), owner0, owner1, d, va / 0x1000, Entry(f));
    GrewFrame(ram0, owner0, ram1, owner1, t, j, f, d);
    assert m.ram[..] == WithFrame(ram1, t, j, f);
    assert m.owner == owner1[f := Frame(t, j)];
    r := 0;
  }

  // The user page tables present in directory d.
  ghost function Tables(ram: seq<Page>, d: nat): set<nat>
    requires d < |ram|
  {
    set i: nat | 0 <= i < 512 && ram[d][i] != 0
  }

  /** The pages that mapping [lo, hi) takes, page by page: one frame each, and a table
      whenever the first page of a missing one is reached. */
  ghost function Need(tables: set<nat>, lo: nat, hi: nat): nat
    decreases hi - lo
  {
    if hi <= lo then 0
    else 1 + (if Pdx(lo) in tables then 0 else 1) + Need(tables + {Pdx(lo)}, lo + 1, hi)
  }

  // Virtual pages [lo, hi) of directory d hold distinct frames that were free and are zero.
  ghost predicate Zeroed(owner0: seq<Role>, ram: seq<Page>, d: nat, lo: nat, hi: nat)
    requires |ram| == |owner0| && d < |ram| && hi <= 0x8_0000
  {
    forall v :: lo <= v < hi ==>
      && 0 <= PageOf(Flat(ram, d, v)) < |ram| && Flat(ram, d, v) == Entry(PageOf(Flat(ram, d, v)))
      && owner0[PageOf(Flat(ram, d, v))].Free?
      && ram[PageOf(Flat(ram, d, v))] == Filled(0)
  }

  // No translation changed except those of virtual pages [lo, hi) of directory d.
  ghost predicate FlatExcept(ram0: seq<Page>, ram: seq<Page>, owner0: seq<Role>, d: nat, lo: nat, hi: nat)
    requires |ram0| == |ram| == |owner0|
  {
    forall e, v :: 0 <= e < |ram| && owner0[e].Dir? && 0 <= v < 0x8_0000 && !(e == d && lo <= v < hi) ==>
      Flat(ram, e, v) == Flat(ram0, e, v)
  }

  lemma TransitFlat(ram: seq<Page>, owner: seq<Role>, f: nat, page: Page)
    requires |ram| == |owner| && Linked(ram, owner) && f < |ram| && (owner[f].Free? || owner[f].Kernel?)
    ensures SameFlat(ram, ram[f := page], owner)
  {
    forall e, v | 0 <= e < |ram| && owner[e].Dir? && 0 <= v < 0x8_0000
      ensures Flat(ram[f := page], e, v) == Flat(ram, e, v)
    {
      UserPageIndices(v, v);
      EntryFields(PageOf(ram[e][Pdx(v)]));
    }
  }

  // Pages outside every address space can change hands and contents freely.
  lemma Transit(ram: seq<Page>, owner: seq<Role>, f: nat, page: Page, role: Role)
    requires |ram| == |owner| && Linked(ram, owner) && f < |ram|
    requires (owner[f].Free? || owner[f].Kernel?) && (role.Free? || role.Kernel?)
    ensures Linked(ram[f := page], owner[f := role])
    ensures SameFlat(ram, ram[f := page], owner)
  {
    TransitFlat(ram, owner, f, page);
    hide SameFlat;
  }

  // Growing from a state in which the free page f is in transit is growing.
  lemma GrewFromTransit(ram0: seq<Page>, owner0: seq<Role>, ram: seq<Page>, owner: seq<Role>,
                      f: nat, page: Page, d: nat)
    requires |ram0| == |owner0| == |ram| == |owner| && f < |ram| && owner0[f].Free?
    requires Grew(ram0[f := page], owner0[f := Free(0)], ram, owner, d)
    requires owner[f] == owner0[f] || FrameOf(owner, f, d)
    ensures Grew(ram0, owner0, ram, owner, d)
  {
  }

  lemma GrewNot(ram: seq<Page>, owner: seq<Role>, d: nat)
    requires |ram| == |owner|
    ensures Grew(ram, owner, ram, owner, d) && SameFlat(ram, ram, owner) && KeepsDirs(owner, owner)
  {
  }

  lemma KernelKeepsDirs(owner: seq<Role>, f: nat)
    requires f < |owner| && owner[f].Free?
    ensures KeepsDirs(owner, owner[f := Kernel])
  {
  }

  lemma GrewJunk(ram: seq<Page>, owner: seq<Role>, f: nat, junk: Page, d: nat)
    requires |ram| == |owner| && f < |ram| && owner[f].Free?
    ensures Grew(ram, owner, ram[f := junk], owner, d)
  {
  }

  // One iteration of allocuvm.
  method AllocPage(m: Machine, pgdir: int, a: nat, ghost d: nat) returns (r: int, ghost f: nat)
    requires Sound(m) && d < NPAGES && m.owner[d].Dir? && pgdir == Kva(d)
    requires a < KERNBASE && a % 0x1000 == 0 && Flat(m.ram[..], d, a / 0x1000) == 0
    modifies m, m.ram
    ensures Sound(m) && Grew(old(m.ram[..]), old(m.owner), m.ram[..], m.owner, d)
    ensures var cost := if old(Missing(m.ram[..], d, a / 0x1000)) then 2 else 1;
      && r == (if |old(m.free)| >= cost then 0 else -1)
      && |m.free| == if r == 0 then |old(m.free)| - cost else |old(m.free)|
    ensures r == 0 ==>
      && f < NPAGES && old(m.owner)[f].Free? && m.ram[f] == Filled(0)
      && FlatUpdate(old(m.ram[..]), m.ram[..], old(m.owner), d, a / 0x1000, Entry(f))
      && !Missing(m.ram[..], d, a / 0x1000)
    ensures r != 0 ==> SameFlat(old(m.ram[..]), m.ram[..], old(m.owner)) && m.ram[d] == old(m.ram[d])
    ensures forall i :: 0 <= i < 1024 && i != PDX(a) ==> m.ram[d][i] == old(m.ram[d][i])
  {
    hide Machine.Valid, Linked, SameFlat, FlatUpdate, Flat, Grew, FrameOf, KeepsDirs, PDX, Pdx, PTX;
    ghost var ram0, owner0, free0 := m.ram[..], m.owner, m.free;
    var pa := m.Kalloc();
    if pa == 0 {
      GrewNot(ram0, owner0, d);
      return -1, 0;
    }
    f := free0[|free0| - 1];
    KvaPage(f);
    assert PageAt(pa) == f;
    m.Fill(PageAt(pa), 0);
    Transit(ram0, owner0, f, Filled(0), Kernel);
    ghost var ram1 := m.ram[..];
    assert ram1 == ram0[f := Filled(0)];
    assert m.owner == owner0[f := Kernel];
    SameFlatAt(ram0, ram1, owner0, d, a / 0x1000);
    r := MapPage(m, pgdir, a, pa - 0x8000_0000, d, f);
    if r < 0 {
      m.Kfree(pa, f);
      ghost var junk := m.ram[f];
      Transit(ram0, owner0, f, junk, owner0[f]);
      GrewJunk(ram0, owner0, f, junk, d);
      assert m.ram[..] == ram0[f := junk];
      assert m.owner == owner0 == owner0[f := owner0[f]];
    } else {
      assert owner0[f := Kernel][f := Free(0)] == owner0[f := Free(0)];
      KernelKeepsDirs(owner0, f);
      SameFlatThenUpdate(ram0, ram1, m.ram[..], owner0, owner0[f := Kernel], d, a / 0x1000, Entry(f));
      GrewFromTransit(ram0, owner0, m.ram[..], m.owner, f, Filled(0), d);
    }
  }

  /** A translation names a frame owned for exactly that directory and page. */
  lemma FlatOwned(ram: seq<Page>, owner: seq<Role>, d: nat, v: nat)
    requires |ram| == |owner| && Linked(ram, owner)
    requires d < |ram| && owner[d].Dir? && v < 0x8_0000 && Flat(ram, d, v) != 0
    ensures var t, f := PageOf(ram[d][Pdx(v)]), PageOf(Flat(ram, d, v));
      && 0 <= t < |ram| && owner[t] == Table(d, Pdx(v))
      && 0 <= f < |ram| && owner[f] == Frame(t, Ptx(v)) && Flat(ram, d, v) == Entry(f)
  {
    UserPageIndices(v, v);
  }

  /** No frame is mapped twice, in one address space or in two. */
  lemma NoAliasing(ram: seq<Page>, owner: seq<Role>, d: nat, v: nat, e: nat, u: nat)
    requires |ram| == |owner| && Linked(ram, owner)
    requires d < |ram| && owner[d].Dir? && v < 0x8_0000
    requires e < |ram| && owner[e].Dir? && u < 0x8_0000
    requires Flat(ram, d, v) == Flat(ram, e, u) != 0
    ensures d == e && v == u
  {
    FlatOwned(ram, owner, d, v);
    FlatOwned(ram, owner, e, u);
    UserPageIndices(v, u);
  }

  // The tables present once pages [lo, hi) are mapped.
  ghost function Reached(tables: set<nat>, lo: nat, hi: nat): set<nat>
    decreases hi - lo
  {
    if hi <= lo then tables else Reached(tables + {Pdx(lo)}, lo + 1, hi)
  }

  lemma {:induction false} NeedSplit(tables: set<nat>, lo: nat, mid: nat, hi: nat)
    requires lo <= mid <= hi
    ensures Need(tables, lo, hi) == Need(tables, lo, mid) + Need(Reached(tables, lo, mid), mid, hi)
    decreases mid - lo
  {
    if lo < mid {
      NeedSplit(tables + {Pdx(lo)}, lo + 1, mid, hi);
    }
  }

  lemma {:induction false} ReachedNext(tables: set<nat>, lo: nat, mid: nat)
    requires lo <= mid
    ensures Reached(tables, lo, mid + 1) == Reached(tables, lo, mid) + {Pdx(mid)}
    decreases mid - lo
  {
    if lo < mid {
      ReachedNext(tables + {Pdx(lo)}, lo + 1, mid);
    }
  }

  // One more page mapped: what the loop of allocuvm maintains.
  lemma ZeroedNext(ram0: seq<Page>, owner0: seq<Role>, ram1: seq<Page>, owner1: seq<Role>,
                   ram: seq<Page>, owner: seq<Role>, d: nat, lo: nat, v: nat, f: nat)
    requires |ram0| == |owner0| == |ram1| == |owner1| == |ram| == |owner| && d < |ram|
      && lo <= v < 0x8_0000 && f < |ram|
    requires Linked(ram1, owner1) && owner0[d].Dir? && owner1[d].Dir?
    requires Grew(ram0, owner0, ram1, owner1, d) && Grew(ram1, owner1, ram, owner, d)
    requires Zeroed(owner0, ram1, d, lo, v) && FlatExcept(ram0, ram1, owner0, d, lo, v)
    requires owner1[f].Free? && ram[f] == Filled(0) && FlatUpdate(ram1, ram, owner1, d, v, Entry(f))
    ensures Zeroed(owner0, ram, d, lo, v + 1) && FlatExcept(ram0, ram, owner0, d, lo, v + 1)
  {
    forall u | lo <= u < v + 1
      ensures var w := Flat(ram, d, u);
        0 <= PageOf(w) < |ram| && w == Entry(PageOf(w)) && owner0[PageOf(w)].Free? && ram[PageOf(w)] == Filled(0)
    {
      if u < v {
        FlatOwned(ram1, owner1, d, u);
      } else {
        EntryFields(f);
      }
    }
    GrewKeepsDirs(ram0, owner0, ram1, owner1, d);
  }

  lemma ZeroedKept(ram0: seq<Page>, owner0: seq<Role>, ram1: seq<Page>, owner1: seq<Role>,
                   ram: seq<Page>, owner: seq<Role>, d: nat, lo: nat, v: nat)
    requires |ram0| == |owner0| == |ram1| == |owner1| == |ram| == |owner| && d < |ram| && v <= 0x8_0000
    requires Linked(ram1, owner1) && owner0[d].Dir? && owner1[d].Dir?
    requires Grew(ram0, owner0, ram1, owner1, d) && Grew(ram1, owner1, ram, owner, d)
    requires Zeroed(owner0, ram1, d, lo, v) && FlatExcept(ram0, ram1, owner0, d, lo, v)
    requires SameFlat(ram1, ram, owner1)
    ensures Zeroed(owner0, ram, d, lo, v) && FlatExcept(ram0, ram, owner0, d, lo, v)
  {
    forall u | lo <= u < v ensures ram[PageOf(Flat(ram, d, u))] == Filled(0) {
      FlatOwned(ram1, owner1, d, u);
    }
    GrewKeepsDirs(ram0, owner0, ram1, owner1, d);
  }

  lemma FlatExceptNone(ram: seq<Page>, owner: seq<Role>, d: nat, lo: nat)
    requires |ram| == |owner| && d < |ram| && lo <= 0x8_0000
    ensures FlatExcept(ram, ram, owner, d, lo, lo) && Zeroed(owner, ram, d, lo, lo)
  {
  }

  lemma FlatExceptAt(ram0: seq<Page>, ram: seq<Page>, owner: seq<Role>, d: nat, lo: nat, hi: nat, v: nat)
    requires |ram0| == |ram| == |owner| && d < |ram| && owner[d].Dir? && v < 0x8_0000 && !(lo <= v < hi)
    requires FlatExcept(ram0, ram, owner, d, lo, hi)
    ensures Flat(ram, d, v) == Flat(ram0, d, v)
  {
  }

  lemma TablesNext(ram1: seq<Page>, ram: seq<Page>, d: nat, v: nat)
    requires d < |ram1| == |ram| && v < 0x8_0000
    requires !Missing(ram, d, v)
    requires forall i :: 0 <= i < 1024 && i != Pdx(v) ==> ram[d][i] == ram1[d][i]
    ensures Tables(ram, d) == Tables(ram1, d) + {Pdx(v)}
  {
    UserPageIndices(v, v);
  }

  lemma EmptyFlat(ram0: seq<Page>, ram: seq<Page>, d: nat)
    requires d < |ram0| && ram == ram0[d := KernelDir(32)]
    ensures forall v :: 0 <= v < 0x8_0000 ==> Flat(ram, d, v) == 0
    ensures Tables(ram, d) == {}
  {
    forall v | 0 <= v < 0x8_0000 ensures Flat(ram, d, v) == 0 {
      UserPageIndices(v, v);
    }
  }

  lemma TablesSame(ram0: seq<Page>, ram: seq<Page>, d: nat)
    requires d < |ram0| == |ram| && ram[d] == ram0[d]
    ensures Tables(ram, d) == Tables(ram0, d)
  {
  }

  lemma TablesMissing(ram: seq<Page>, d: nat, v: nat)
    requires d < |ram| && v < 0x8_0000
    ensures Missing(ram, d, v) <==> Pdx(v) !in Tables(ram, d)
  {
    UserPageIndices(v, v);
  }

  // Pages [lo, stop) of directory d have been given frames, at their exact cost.
  ghost predicate Partial(ram0: seq<Page>, owner0: seq<Role>, n0: nat, ram: seq<Page>, owner: seq<Role>, n: nat,
                          d: nat, lo: nat, stop: nat)
    requires |ram0| == |owner0| == |ram| == |owner| && d < |ram|
  {
    && Grew(ram0, owner0, ram, owner, d)
    && lo <= stop <= 0x8_0000
    && FlatExcept(ram0, ram, owner0, d, lo, stop) && Zeroed(owner0, ram, d, lo, stop)
    && n0 == n + Need(Tables(ram0, d), lo, stop)
    && Tables(ram, d) == Reached(Tables(ram0, d), lo, stop)
  }

  // What mapping page v takes.
  ghost function PageCost(tables: set<nat>, v: nat): nat {
    if Pdx(v) in tables then 1 else 2
  }

  /** The contract of allocuvm on virtual pages [lo, hi), from a machine with n0 free
      pages to one with n: pages [lo, stop) got frames, and all of them did, r == 0,
      exactly when n0 covers the need.  After a failure too few pages are left for the
      page at `stop`. */
  ghost predicate Allocated(ram0: seq<Page>, owner0: seq<Role>, n0: nat, ram: seq<Page>, owner: seq<Role>, n: nat,
                            d: nat, lo: nat, hi: nat, stop: nat, r: int)
    requires |ram0| == |owner0| == |ram| == |owner| && d < |ram|
  {
    && Partial(ram0, owner0, n0, ram, owner, n, d, lo, stop)
    && (stop == lo || stop <= hi)
    && r == (if stop >= hi then 0 else -1)
    && (r == 0 <==> n0 >= Need(Tables(ram0, d), lo, hi))
    && (r == -1 ==> n < PageCost(Tables(ram, d), stop))
  }

  lemma PartialStart(ram: seq<Page>, owner: seq<Role>, n: nat, d: nat, lo: nat)
    requires |ram| == |owner| && d < |ram| && lo <= 0x8_0000
    ensures Partial(ram, owner, n, ram, owner, n, d, lo, lo)
  {
    GrewNot(ram, owner, d);
    FlatExceptNone(ram, owner, d, lo);
  }

  // The cost of the first page of a range, and of a range of one page.
  lemma NeedOne(tables: set<nat>, lo: nat, hi: nat)
    requires lo < hi
    ensures Need(tables, lo, hi) >= PageCost(tables, lo)
    ensures Need(tables, lo, lo + 1) == PageCost(tables, lo)
  {
  }

  // One iteration of allocuvm after the pages [lo, stop).
  method AllocNext(m: Machine, pgdir: int, ghost d: nat, ghost lo: nat, ghost hi: nat, a: nat, ghost stop: nat,
                   ghost ram0: seq<Page>, ghost owner0: seq<Role>, ghost n0: nat) returns (r: int)
    requires Sound(m) && |ram0| == |owner0| == NPAGES && d < NPAGES && owner0[d].Dir? && pgdir == Kva(d)
    requires Partial(ram0, owner0, n0, m.ram[..], m.owner, |m.free|, d, lo, stop)
    requires a == stop * 0x1000 && stop < hi <= 0x8_0000 && Flat(ram0, d, stop) == 0
    modifies m, m.ram
    ensures Sound(m) && (r == 0 || r == -1)
    ensures Partial(ram0, owner0, n0, m.ram[..], m.owner, |m.free|, d, lo, if r == 0 then stop + 1 else stop)
    ensures r == -1 ==> n0 < Need(Tables(ram0, d), lo, hi) && |m.free| < PageCost(Tables(m.ram[..], d), stop)
  {
    hide Machine.Valid, Linked, Flat, FlatUpdate, FlatExcept, Zeroed, Grew, SameFlat, Tables, Missing, Need, Reached;
    ghost var ram1, owner1 := m.ram[..], m.owner;
    ghost var tables0 := Tables(ram0, d);
    GrewKeeps(ram0, owner0, ram1, owner1, d, d);
    FlatExceptAt(ram0, ram1, owner0, d, lo, stop, stop);
    NeedSplit(tables0, lo, stop, hi);
    NeedOne(Tables(ram1, d), stop, hi);
    TablesMissing(ram1, d, stop);
    PageIndices(a);
    ghost var f;
    r, f := AllocPage(m, pgdir, a, d);
    GrewTransitive(ram0, owner0, ram1, owner1, m.ram[..], m.owner, d);
    if r < 0 {
      ZeroedKept(ram0, owner0, ram1, owner1, m.ram[..], m.owner, d, lo, stop);
      TablesSame(ram1, m.ram[..], d);
    } else {
      TablesNext(ram1, m.ram[..], d, stop);
      ReachedNext(tables0, lo, stop);
      NeedSplit(tables0, lo, stop, stop + 1);
      ZeroedNext(ram0, owner0, ram1, owner1, m.ram[..], m.owner, d, lo, stop, f);
    }
  }

  lemma NeedGrows(tables: set<nat>, lo: nat, hi: nat, stop: nat)
    requires hi <= stop
    ensures Need(tables, lo, hi) <= Need(tables, lo, stop)
  {
    if lo <= hi {
      NeedSplit(tables, lo, hi, stop);
    }
  }

  /** Map zeroed user frames at the pages of [base, top).  Returns 0 if all of them got
      one; on failure the pages before `stop` keep theirs. */
  method Allocuvm(m: Machine, pgdir: int, base: nat, top: nat, ghost d: nat) returns (r: int, ghost stop: nat)
    requires Sound(m) && d < NPAGES && m.owner[d].Dir? && pgdir == Kva(d)
    requires base <= KERNBASE && top <= KERNBASE
    requires forall v :: PageCeil(base) <= v < PageCeil(top) ==> Flat(m.ram[..], d, v) == 0
    modifies m, m.ram
    ensures Sound(m)
    ensures Allocated(old(m.ram[..]), old(m.owner), old(|m.free|), m.ram[..], m.owner, |m.free|,
                      d, PageCeil(base), PageCeil(top), stop, r)
  {
    hide Sound, Flat, Need, Tables;
    ghost var lo, hi := PageCeil(base), PageCeil(top);
    ghost var ram0, owner0, n0 := m.ram[..], m.owner, |m.free|;
    stop := lo;
    var a := PgRoundUp(base);
    PartialStart(ram0, owner0, n0, d, lo);
    while a < top
      invariant a == stop * 0x1000 && (stop == lo || stop <= hi) && Sound(m)
      invariant Partial(ram0, owner0, n0, m.ram[..], m.owner, |m.free|, d, lo, stop)
    {
      r := AllocNext(m, pgdir, d, lo, hi, a, stop, ram0, owner0, n0);
      if r < 0 {
        return;
      }
      a := a + 0x1000;
      stop := stop + 1;
    }
    NeedGrows(Tables(ram0, d), lo, hi, stop);
    r := 0;
  }

  // The tables in the range of pages [lo, hi) that `tables` lacks.
  ghost function Absent(tables: set<nat>, lo: nat, hi: nat): set<nat> {
    set i: nat | lo / 1024 <= i <= (hi - 1) / 1024 && i !in tables
  }

  /** The page-by-page cost is one frame for every page and one table for every
      missing directory entry in the range. */
  lemma {:induction false} NeedCount(tables: set<nat>, lo: nat, hi: nat)
    requires lo < hi <= 0x8_0000
    ensures Need(tables, lo, hi) == (hi - lo) + |Absent(tables, lo, hi)|
    decreases hi - lo
  {
    var p := Pdx(lo);
    assert p == lo / 1024;
    if lo + 1 == hi {
      assert Absent(tables, lo, hi) == if p in tables then {} else {p};
    } else {
      NeedCount(tables + {p}, lo + 1, hi);
      assert Absent(tables + {p}, lo + 1, hi) == Absent(tables, lo, hi) - {p};
      assert p in Absent(tables, lo, hi) <==> p !in tables;
    }
  }

  // Does p belong to the part of d's address space that is gone once freevm has
  // freed all tables before entry i, and the frames before entry j of table i?
  ghost predicate Gone(owner: seq<Role>, p: nat, d: nat, i: nat, j: nat) {
    || (TableOf(owner, p, d) && owner[p].pdx < i)
    || (FrameOf(owner, p, d) &&
        (owner[owner[p].table].pdx < i || (owner[owner[p].table].pdx == i && owner[p].ptx < j)))
  }

  ghost predicate Freed(ram0: seq<Page>, owner0: seq<Role>, ram: seq<Page>, owner: seq<Role>, d: nat, i: nat, j: nat)
    requires |ram0| == |owner0| == |ram| == |owner|
  {
    forall p :: 0 <= p < |owner| ==>
      if Gone(owner0, p, d, i, j) then owner[p].Free?
      else owner[p] == owner0[p] && (!owner0[p].Free? ==> ram[p] == ram0[p])
  }

  lemma FreedFrame(ram0: seq<Page>, owner0: seq<Role>, ram: seq<Page>, owner: seq<Role>, d: nat, i: nat, j: nat,
                   t: nat, f: nat, junk: Page, rank: nat)
    requires |ram0| == |owner0| == |ram| == |owner| && Linked(ram0, owner0)
    requires Freed(ram0, owner0, ram, owner, d, i, j)
    requires t < |ram| && owner0[t] == Table(d, i) && j < 1024
    requires f < |ram| && owner0[f] == Frame(t, j)
    ensures Freed(ram0, owner0, ram[f := junk], owner[f := Free(rank)], d, i, j + 1)
  {
    assert ram0[t][j] == Entry(f);
    forall p | 0 <= p < |owner| && Gone(owner0, p, d, i, j + 1) && !Gone(owner0, p, d, i, j) ensures p == f {
      assert ram0[d][i] == Entry(owner0[p].table);
    }
  }

  // A frame whose turn has not come is still in use.
  lemma FreedUsed(ram0: seq<Page>, owner0: seq<Role>, ram: seq<Page>, owner: seq<Role>, d: nat,
                i: nat, j: nat, t: nat, f: nat)
    requires |ram0| == |owner0| == |ram| == |owner| && Freed(ram0, owner0, ram, owner, d, i, j)
    requires t < |ram| && owner0[t] == Table(d, i) && f < |ram| && owner0[f] == Frame(t, j)
    ensures !owner[f].Free?
  {
  }

  lemma FreedHole(ram0: seq<Page>, owner0: seq<Role>, ram: seq<Page>, owner: seq<Role>, d: nat, i: nat, j: nat, t: nat)
    requires |ram0| == |owner0| == |ram| == |owner| && Linked(ram0, owner0)
    requires Freed(ram0, owner0, ram, owner, d, i, j)
    requires t < |ram| && owner0[t] == Table(d, i) && j < 1024 && ram0[t][j] == 0
    ensures Freed(ram0, owner0, ram, owner, d, i, j + 1)
  {
    forall p | 0 <= p < |owner| && Gone(owner0, p, d, i, j + 1) ensures Gone(owner0, p, d, i, j) {
      assert FrameOf(owner0, p, d) ==> ram0[d][owner0[owner0[p].table].pdx] == Entry(owner0[p].table);
    }
  }

  lemma FreedTable(ram0: seq<Page>, owner0: seq<Role>, ram: seq<Page>, owner: seq<Role>, d: nat, i: nat,
                   t: nat, junk: Page, rank: nat)
    requires |ram0| == |owner0| == |ram| == |owner| && Linked(ram0, owner0)
    requires Freed(ram0, owner0, ram, owner, d, i, 1024)
    requires t < |ram| && owner0[t] == Table(d, i)
    ensures Freed(ram0, owner0, ram[t := junk], owner[t := Free(rank)], d, i + 1, 0)
  {
    forall p | 0 <= p < |owner| && Gone(owner0, p, d, i + 1, 0) && !Gone(owner0, p, d, i, 1024) ensures p == t {
      assert ram0[d][i] == Entry(p);
    }
  }

  lemma FreedGap(ram0: seq<Page>, owner0: seq<Role>, ram: seq<Page>, owner: seq<Role>, d: nat, i: nat)
    requires |ram0| == |owner0| == |ram| == |owner| && Linked(ram0, owner0)
    requires Freed(ram0, owner0, ram, owner, d, i, 0)
    requires d < |ram| && owner0[d].Dir? && i < 512 && ram0[d][i] == 0
    ensures Freed(ram0, owner0, ram, owner, d, i + 1, 0)
  {
    forall p | 0 <= p < |owner| && Gone(owner0, p, d, i + 1, 0) ensures Gone(owner0, p, d, i, 0) {
    }
  }

  // Everything of address space d is free, and nothing else changed.
  ghost predicate Released(ram0: seq<Page>, owner0: seq<Role>, ram: seq<Page>, owner: seq<Role>, d: nat)
    requires |ram0| == |owner0| == |ram| == |owner|
  {
    forall p :: 0 <= p < |owner| ==>
      if p == d || TableOf(owner0, p, d) || FrameOf(owner0, p, d) then owner[p].Free?
      else owner[p] == owner0[p] && (!owner0[p].Free? ==> ram[p] == ram0[p])
  }

  lemma FreedAll(ram0: seq<Page>, owner0: seq<Role>, ram: seq<Page>, owner: seq<Role>, d: nat, junk: Page, rank: nat)
    requires |ram0| == |owner0| == |ram| == |owner| && Linked(ram0, owner0)
    requires d < |ram| && owner0[d].Dir? && Freed(ram0, owner0, ram, owner, d, 512, 0)
    ensures Released(ram0, owner0, ram[d := junk], owner[d := Free(rank)], d)
  {
  }

  lemma ReleasedLinked(ram0: seq<Page>, owner0: seq<Role>, ram: seq<Page>, owner: seq<Role>, d: nat)
    requires |ram0| == |owner0| == |ram| == |owner| && Linked(ram0, owner0)
    requires d < |ram| && owner0[d].Dir? && Released(ram0, owner0, ram, owner, d)
    ensures Linked(ram, owner)
  {
    forall p | 0 <= p < |owner| && !owner[p].Free? ensures owner[p] == owner0[p] && ram[p] == ram0[p] {
    }
    forall e, i | 0 <= e < |owner| && owner[e].Dir? && 0 <= i < 512 && ram[e][i] != 0
      ensures LeadsTo(owner, ram[e][i], Table(e, i))
    {
      assert LeadsTo(owner0, ram0[e][i], Table(e, i));
    }
    forall t, j | 0 <= t < |owner| && owner[t].Table? && 0 <= j < 1024 && ram[t][j] != 0
      ensures LeadsTo(owner, ram[t][j], Frame(t, j))
    {
      assert LeadsTo(owner0, ram0[t][j], Frame(t, j));
    }
  }

  lemma FreedStart(ram: seq<Page>, owner: seq<Role>, d: nat)
    requires |ram| == |owner|
    ensures Freed(ram, owner, ram, owner, d, 0, 0)
  {
  }

  lemma FreedAt(ram0: seq<Page>, owner0: seq<Role>, ram: seq<Page>, owner: seq<Role>, d: nat, i: nat, j: nat, p: nat)
    requires |ram0| == |owner0| == |ram| == |owner| && p < |ram| && Freed(ram0, owner0, ram, owner, d, i, j)
    requires owner0[p] == Dir || owner0[p] == Table(d, i)
    ensures owner[p] == owner0[p] && ram[p] == ram0[p]
  {
  }

  lemma TableEntry(ram: seq<Page>, owner: seq<Role>, t: nat, j: nat)
    requires |ram| == |owner| && Linked(ram, owner) && t < |ram| && owner[t].Table? && j < 1024 && ram[t][j] != 0
    ensures LeadsTo(owner, ram[t][j], Frame(t, j)) && Present(ram[t][j])
  {
    EntryFields(PageOf(ram[t][j]));
  }

  method Freept(m: Machine, pt: int, ghost t: nat, ghost d: nat,
              ghost i: nat, ghost ram0: seq<Page>, ghost owner0: seq<Role>)
    requires m.Valid() && |ram0| == |owner0| == NPAGES && Linked(ram0, owner0)
    requires t < NPAGES && pt == Kva(t) && owner0[t] == Table(d, i)
    requires Freed(ram0, owner0, m.ram[..], m.owner, d, i, 0)
    modifies m, m.ram
    ensures m.Valid() && Freed(ram0, owner0, m.ram[..], m.owner, d, i + 1, 0)
  {
    hide Machine.Valid, Linked, Freed;
    KvaPage(t);
    var k := 0;
    while k < 1024
      invariant 0 <= k <= 1024 && m.Valid() && Freed(ram0, owner0, m.ram[..], m.owner, d, i, k)
    {
      ghost var ram1, owner1 := m.ram[..], m.owner;
      FreedAt(ram0, owner0, ram1, owner1, d, i, k, t);
      var pte := m.ram[PageAt(pt)][k];
      if pte != 0 {
        TableEntry(ram0, owner0, t, k);
      }
      if Present(pte) {
        ghost var f := PageOf(pte);
        FreedUsed(ram0, owner0, ram1, owner1, d, i, k, t, f);
        m.Kfree(Kva(PageOf(pte)), f);
        FreedFrame(ram0, owner0, ram1, owner1, d, i, k, t, f, m.ram[f], m.owner[f].rank);
      } else {
        FreedHole(ram0, owner0, ram1, owner1, d, i, k, t);
      }
      k := k + 1;
    }
    ghost var ram1, owner1 := m.ram[..], m.owner;
    FreedAt(ram0, owner0, ram1, owner1, d, i, 1024, t);
    m.Kfree(pt, t);
    FreedTable(ram0, owner0, ram1, owner1, d, i, t, m.ram[t], m.owner[t].rank);
  }

  lemma DirEntry(ram: seq<Page>, owner: seq<Role>, d: nat, i: nat)
    requires |ram| == |owner| && Linked(ram, owner) && d < |ram| && owner[d].Dir? && i < 512 && ram[d][i] != 0
    ensures LeadsTo(owner, ram[d][i], Table(d, i)) && Present(ram[d][i])
  {
    EntryFields(PageOf(ram[d][i]));
  }

  /** Free a whole address space: its frames, its tables and its directory, each once,
      and no other page.  Tables are read only while they still hold their entries. */
  method Freevm(m: Machine, pgdir: int, ghost d: nat)
    requires Sound(m) && d < NPAGES && m.owner[d].Dir? && pgdir == Kva(d)
    modifies m, m.ram
    ensures Sound(m)
    ensures Released(old(m.ram[..]), old(m.owner), m.ram[..], m.owner, d)
  {
    hide Machine.Valid, Linked, Freed, Released;
    ghost var ram0, owner0 := m.ram[..], m.owner;
    KvaPage(d);
    FreedStart(ram0, owner0, d);
    var i := 0;
    while i < 512
      invariant 0 <= i <= 512 && m.Valid() && Freed(ram0, owner0, m.ram[..], m.owner, d, i, 0)
    {
      FreedAt(ram0, owner0, m.ram[..], m.owner, d, i, 0, d);
      var pde := m.ram[PageAt(pgdir)][i];
      if pde != 0 {
        DirEntry(ram0, owner0, d, i);
      }
      if Present(pde) {
        Freept(m, Kva(PageOf(pde)), PageOf(pde), d, i, ram0, owner0);
      } else {
        FreedGap(ram0, owner0, m.ram[..], m.owner, d, i);
      }
      i := i + 1;
    }
    ghost var ram1, owner1 := m.ram[..], m.owner;
    FreedAt(ram0, owner0, ram1, owner1, d, 512, 0, d);
    m.Kfree(pgdir, d);
    FreedAll(ram0, owner0, ram1, owner1, d, m.ram[d], m.owner[d].rank);
    ReleasedLinked(ram0, owner0, m.ram[..], m.owner, d);
  }

  ghost predicate Loose(role: Role) { role.Free? || role.Kernel? }

  // Linkage depends only on the pages that are part of some address space.
  lemma LooseIrrelevant(ram0: seq<Page>, owner0: seq<Role>, ram: seq<Page>, owner: seq<Role>)
    requires |ram0| == |owner0| == |ram| == |owner| && Linked(ram0, owner0)
    requires forall p :: 0 <= p < |owner| ==>
      if Loose(owner0[p]) then Loose(owner[p]) else owner[p] == owner0[p] && ram[p] == ram0[p]
    ensures Linked(ram, owner)
  {
  }

  lemma {:induction false} ReachedSplit(tables: set<nat>, lo: nat, mid: nat, hi: nat)
    requires lo <= mid <= hi
    ensures Reached(tables, lo, hi) == Reached(Reached(tables, lo, mid), mid, hi)
    decreases mid - lo
  {
    if lo < mid {
      ReachedSplit(tables + {Pdx(lo)}, lo + 1, mid, hi);
    }
  }

  lemma ZeroedJoin(ram0: seq<Page>, owner0: seq<Role>, ram1: seq<Page>, owner1: seq<Role>,
                   ram: seq<Page>, owner: seq<Role>, d: nat, lo: nat, mid: nat, stop: nat)
    requires |ram0| == |owner0| == |ram1| == |owner1| == |ram| == |owner| && d < |ram| && lo <= mid <= stop <= 0x8_0000
    requires Linked(ram1, owner1) && owner0[d].Dir? && owner1[d].Dir?
    requires Grew(ram0, owner0, ram1, owner1, d) && Grew(ram1, owner1, ram, owner, d)
    requires Zeroed(owner0, ram1, d, lo, mid) && FlatExcept(ram0, ram1, owner0, d, lo, mid)
    requires Zeroed(owner1, ram, d, mid, stop) && FlatExcept(ram1, ram, owner1, d, mid, stop)
    ensures Zeroed(owner0, ram, d, lo, stop) && FlatExcept(ram0, ram, owner0, d, lo, stop)
  {
    forall v | lo <= v < stop
      ensures var w := Flat(ram, d, v);
        0 <= PageOf(w) < |ram| && w == Entry(PageOf(w)) && owner0[PageOf(w)].Free? && ram[PageOf(w)] == Filled(0)
    {
      if v < mid {
        FlatOwned(ram1, owner1, d, v);
      }
    }
    GrewKeepsDirs(ram0, owner0, ram1, owner1, d);
  }

  /** Two calls on adjacent ranges do what one call on the whole does. */
  lemma AllocatedCompose(ram0: seq<Page>, owner0: seq<Role>, n0: nat, ram1: seq<Page>, owner1: seq<Role>, n1: nat,
                         ram: seq<Page>, owner: seq<Role>, n: nat, d: nat, lo: nat, mid: nat, hi: nat,
                           stop: nat, r: int)
    requires |ram0| == |owner0| == |ram1| == |owner1| == |ram| == |owner| && d < |ram| && lo <= mid <= hi
    requires Linked(ram1, owner1) && owner0[d].Dir?
    requires Allocated(ram0, owner0, n0, ram1, owner1, n1, d, lo, mid, mid, 0)
    requires Allocated(ram1, owner1, n1, ram, owner, n, d, mid, hi, stop, r)
    ensures Allocated(ram0, owner0, n0, ram, owner, n, d, lo, hi, stop, r)
  {
    GrewTransitive(ram0, owner0, ram1, owner1, ram, owner, d);
    NeedSplit(Tables(ram0, d), lo, mid, stop);
    NeedSplit(Tables(ram0, d), lo, mid, hi);
    ReachedSplit(Tables(ram0, d), lo, mid, stop);
    ZeroedJoin(ram0, owner0, ram1, owner1, ram, owner, d, lo, mid, stop);
  }

  /** ... and a first call that runs out of memory stops where one call would. */
  lemma AllocatedShort(ram0: seq<Page>, owner0: seq<Role>, n0: nat, ram: seq<Page>, owner: seq<Role>, n: nat,
                       d: nat, lo: nat, mid: nat, hi: nat, stop: nat)
    requires |ram0| == |owner0| == |ram| == |owner| && d < |ram| && lo <= mid <= hi
    requires Allocated(ram0, owner0, n0, ram, owner, n, d, lo, mid, stop, -1)
    ensures Allocated(ram0, owner0, n0, ram, owner, n, d, lo, hi, stop, -1)
  {
    NeedSplit(Tables(ram0, d), lo, mid, hi);
  }
}
