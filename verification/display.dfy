/** The mode-13h mirror inside the kernel: its two variables beside the page tables that it
    depends on (drivers/mode13fb.c, cpu/idt.c, proc.c).  `Tick` stands between any two
    assignments where the timer interrupt can fall.  Every assignment is recorded as an
    action of the protocol in `Mirror`, so that what holds there holds here. */
module Display {
  import opened Layout
  import opened Mem
  import opened Vm
  import opened Walkers
  import opened Proc
  import Mirror

  // The virtual pages that directory d maps.
  ghost function Mapped(ram: seq<Page>, d: nat): set<nat>
    requires d < |ram|
  {
    set v: nat | v < 0x8_0000 && Flat(ram, d, v) != 0
  }

  lemma MappedReadable(ram: seq<Page>, owner: seq<Role>, d: nat, a: nat)
    requires |ram| == |owner| && Linked(ram, owner) && d < |ram| && owner[d].Dir?
    ensures UserReadable(ram, d, a) <==> Mirror.PageReadable(Mapped(ram, d), a)
  {
    if a < KERNBASE {
      KernelTablesAccess(ram, owner, d, a);
    }
  }

  // ----- bytes of user memory ------------------------------------------------

  // Byte k of a word, the lowest first, and the word with that byte replaced.
  function GetByte(w: int, k: nat): int
    decreases k
  {
    if k == 0 then w % 0x100 else GetByte(w / 0x100, k - 1)
  }

  type Byte = b: nat | b < 0x100

  function SetByte(w: int, k: nat, b: Byte): int
    decreases k
  {
    if k == 0 then w / 0x100 * 0x100 + b else SetByte(w / 0x100, k - 1, b) * 0x100 + w % 0x100
  }

  lemma Shift(q: int, r: Byte)
    ensures (q * 0x100 + r) / 0x100 == q && (q * 0x100 + r) % 0x100 == r
  {
  }

  // Words are stored low byte first.
  lemma ByteOrder(b0: Byte, b1: Byte, b2: Byte, b3: Byte)
    ensures var w := b0 + 0x100 * (b1 + 0x100 * (b2 + 0x100 * b3));
      GetByte(w, 0) == b0 && GetByte(w, 1) == b1 && GetByte(w, 2) == b2 && GetByte(w, 3) == b3
  {
    Shift(b3, b2);
    Shift(b2 + 0x100 * b3, b1);
    Shift(b1 + 0x100 * (b2 + 0x100 * b3), b0);
  }

  lemma {:induction false} GetSet(w: int, k: nat, b: Byte, j: nat)
    ensures GetByte(SetByte(w, k, b), j) == if j == k then b else GetByte(w, j)
    decreases k
  {
    if k == 0 {
      Shift(w / 0x100, b);
    } else {
      Shift(SetByte(w / 0x100, k - 1, b), w % 0x100);
      if j > 0 {
        GetSet(w / 0x100, k - 1, b, j - 1);
      }
    }
  }

  // The byte at an offset of a page, and the page with that byte replaced.
  function PageByte(page: Page, offset: nat): int
    requires offset < 0x1000
  {
    GetByte(page[offset / 4], offset % 4)
  }

  function PageSet(page: Page, offset: nat, b: Byte): Page
    requires offset < 0x1000
  {
    page[offset / 4 := SetByte(page[offset / 4], offset % 4, b)]
  }

  lemma PageGetSet(page: Page, offset: nat, b: Byte, o: nat)
    requires offset < 0x1000 && o < 0x1000
    ensures PageByte(PageSet(page, offset, b), o) == if o == offset then b else PageByte(page, o)
  {
    GetSet(page[offset / 4], offset % 4, b, o % 4);
    hide GetByte, SetByte;
  }

  // The byte that user mode reads at va.
  function UserByte(ram: seq<Page>, d: nat, va: nat): int
    requires d < |ram|
  {
    var pa := Translate(ram, d, va);
    if 0 <= pa / 0x1000 < |ram| then PageByte(ram[pa / 0x1000], pa % 0x1000) else 0
  }

  /** Every readable address lies in a frame of that very address space. */
  lemma ReadableFrame(ram: seq<Page>, owner: seq<Role>, d: nat, va: nat)
    requires |ram| == |owner| && Linked(ram, owner) && d < |ram| && owner[d].Dir? && va < KERNBASE
    requires Readable(ram, d, va)
    ensures var pa := Translate(ram, d, va);
      && 0 <= pa < |ram| * 0x1000 && FrameOf(owner, pa / 0x1000, d) && pa % 0x1000 == va % 0x1000
      && pa / 0x1000 == PageOf(Flat(ram, d, va / 0x1000)) && Flat(ram, d, va / 0x1000) != 0
  {
    KernelTablesAccess(ram, owner, d, va);
    FlatOwned(ram, owner, d, va / 0x1000);
    SameEntries(ram, d, va, va);
    PageIndices(va);
    EntryFields(PageOf(ram[d][PDX(va)]));
  }

  /** What a program writes into its frames is nothing to the page tables. */
  lemma FrameContents(ram: seq<Page>, owner: seq<Role>, f: nat, page: Page)
    requires |ram| == |owner| && Linked(ram, owner) && f < |ram| && owner[f].Frame?
    ensures Linked(ram[f := page], owner) && SameFlat(ram, ram[f := page], owner)
  {
    forall e, v | 0 <= e < |ram| && owner[e].Dir? && 0 <= v < 0x8_0000
      ensures Flat(ram[f := page], e, v) == Flat(ram, e, v)
    {
      UserPageIndices(v, v);
      EntryFields(PageOf(ram[e][Pdx(v)]));
    }
  }

  // Memory after byte b was stored at va, which lies in frame f.
  ghost function Stored(ram: seq<Page>, f: nat, va: nat, b: Byte): seq<Page>
    requires f < |ram|
  {
    ram[f := PageSet(ram[f], va % 0x1000, b)]
  }

  lemma StoredAt(ram: seq<Page>, f: nat, va: nat, b: Byte)
    requires f < |ram|
    ensures var now := Stored(ram, f, va, b); |now| == |ram| && now == ram[f := now[f]]
  {
  }

  // Byte b went to va, in the frame that directory d maps there, and nothing else changed.
  ghost predicate Wrote(was: seq<Page>, ram: seq<Page>, d: nat, va: nat, b: Byte)
    requires d < |was|
  {
    va < KERNBASE && var f := PageOf(Flat(was, d, va / 0x1000)); 0 <= f < |was| && ram == Stored(was, f, va, b)
  }

  lemma UserByteIs(ram: seq<Page>, owner: seq<Role>, d: nat, va: nat)
    requires |ram| == |owner| && Linked(ram, owner) && d < |ram| && owner[d].Dir? && UserReadable(ram, d, va)
    ensures var f := PageOf(Flat(ram, d, va / 0x1000));
      0 <= f < |ram| && FrameOf(owner, f, d) && UserByte(ram, d, va) == PageByte(ram[f], va % 0x1000)
  {
    ReadableFrame(ram, owner, d, va);
    hide Translate, PageByte, Linked, Readable, Flat;
  }

  lemma SameFrame(ram: seq<Page>, owner: seq<Role>, d: nat, u: nat, v: nat)
    requires |ram| == |owner| && Linked(ram, owner) && d < |ram| && owner[d].Dir? && u < 0x8_0000 && v < 0x8_0000
    requires Flat(ram, d, u) != 0 && Flat(ram, d, v) != 0 && PageOf(Flat(ram, d, u)) == PageOf(Flat(ram, d, v))
    ensures u == v
  {
    FlatOwned(ram, owner, d, u);
    FlatOwned(ram, owner, d, v);
    NoAliasing(ram, owner, d, u, d, v);
  }

  /** A store changes the byte at its own address and no other byte that the program can
      read. */
  lemma StoreOneByte(ram: seq<Page>, owner: seq<Role>, d: nat, va: nat, b: Byte, a: nat)
    requires |ram| == |owner| && Linked(ram, owner) && d < |ram| && owner[d].Dir?
    requires UserReadable(ram, d, va) && UserReadable(ram, d, a)
    ensures var f := PageOf(Flat(ram, d, va / 0x1000));
      && 0 <= f < |ram|
      && UserByte(Stored(ram, f, va, b), d, a) == if a == va then b else UserByte(ram, d, a)
  {
    var f, g := PageOf(Flat(ram, d, va / 0x1000)), PageOf(Flat(ram, d, a / 0x1000));
    UserByteIs(ram, owner, d, va);
    UserByteIs(ram, owner, d, a);
    KernelTablesAccess(ram, owner, d, va);
    KernelTablesAccess(ram, owner, d, a);
    var now := Stored(ram, f, va, b);
    FrameContents(ram, owner, f, now[f]);
    SameFlatAt(ram, now, owner, d, a / 0x1000);
    KernelTablesAccess(now, owner, d, a);
    hide Linked, Flat, Readable, UserByte, FrameOf, SameFlat, PageByte, PageSet;
    UserByteIs(now, owner, d, a);
    if f == g {
      SameFrame(ram, owner, d, va / 0x1000, a / 0x1000);
      PageGetSet(ram[f], va % 0x1000, b, a % 0x1000);
    }
  }

  lemma FrameStoreGrew(ram0: seq<Page>, owner0: seq<Role>, ram: seq<Page>, owner: seq<Role>, d: nat, f: nat, page: Page)
    requires |ram0| == |owner0| == |ram| == |owner| && Linked(ram0, owner0)
    requires Born(ram0, owner0, ram, owner, d) && f < |ram| && FrameOf(owner, f, d)
    ensures Born(ram0, owner0, ram[f := page], owner, d)
  {
  }

  lemma SameMapped(ram0: seq<Page>, ram: seq<Page>, owner: seq<Role>, d: nat)
    requires |ram0| == |ram| == |owner| && SameFlat(ram0, ram, owner) && d < |ram| && owner[d].Dir?
    ensures Mapped(ram, d) == Mapped(ram0, d)
  {
    forall v: nat | v < 0x8_0000 ensures Flat(ram, d, v) == Flat(ram0, d, v) {
      SameFlatAt(ram0, ram, owner, d, v);
    }
  }

  // Nothing of the user half is mapped in the kernel's directory.
  lemma KernelMapsNothing(ram: seq<Page>, d: nat)
    requires d < |ram| && ram[d] == KernelDir(32)
    ensures Mapped(ram, d) == {}
  {
    forall v: nat | v < 0x8_0000 ensures Flat(ram, d, v) == 0 {
      UserPageIndices(v, v);
    }
  }

  /** The order of killproc is needed: with the kernel's directory in force, no bound
      address would be safe to copy from. */
  lemma OrderMatters(k: Kernel, p: nat)
    requires k.Valid()
    ensures !Mirror.CopySafe(Mapped(k.m.ram[..], PageAt(k.kvm)), p)
  {
    KernelMapsNothing(k.m.ram[..], PageAt(k.kvm));
    assert !Mirror.PageReadable({}, p);
  }

  // What the running program does next.
  datatype Call =
    | Enter(p: nat)              // enter13h
    | Leave                      // leave13h
    | Write(va: nat, b: Byte)    // a store to its memory; a fault ends it
    | Wait                       // nothing: only the timer goes on

  // The task page may still have been free.
  lemma LinkedStart(ram: seq<Page>, owner: seq<Role>, t: nat)
    requires |ram| == |owner| && Linked(ram, owner) && t < |ram| && (owner[t].Free? || owner[t].Kernel?)
    ensures Linked(ram, owner[t := Role.Kernel])
  {
    Transit(ram, owner, t, ram[t], Role.Kernel);
    assert ram[t := ram[t]] == ram;
  }

  lemma BornReleased(ram0: seq<Page>, owner0: seq<Role>, d: nat,
                     ram1: seq<Page>, owner1: seq<Role>, ram: seq<Page>, owner: seq<Role>)
    requires |ram0| == |owner0| == |ram1| == |owner1| == |ram| == |owner| && Linked(ram0, owner0)
    requires Born(ram0, owner0, ram1, owner1, d) && Released(ram1, owner1, ram, owner, d)
    ensures SameFree(owner0, owner) && SameUsed(ram0, owner0, ram, owner)
  {
    LifeConserves(ram0, owner0, d, ram1, owner1, ram, owner);
  }

  class Mode13 {
    const k: Kernel
    const video: array<int>      // the 64000 bytes of video memory
    var enabled: bool            // mode13_enabled
    var fb: nat                  // mode13_user_fb_ptr
    ghost var at: Mirror.Point   // where the thread stands,
    ghost var trace: seq<Mirror.Action>   // and what has happened since boot

    // A program's directory is in force.
    ghost predicate Runs()
      reads this, k, k.m
    {
      && k.userTask != 0 && PageFor(k.m.owner, k.cr3, Dir) && k.pgdir == k.cr3 != k.kvm
    }

    // The state of the protocol that this state stands for.
    ghost function Abs(): Mirror.State
      requires k.Valid() && PageFor(k.m.owner, k.cr3, Dir)
      requires PageFor(k.m.owner, if at.Freeing? then k.pgdir else k.cr3, Dir)
      reads this, k, k.m, k.m.ram
    {
      Mirror.State(at, enabled, fb, Mapped(k.m.ram[..], PageAt(k.cr3)),
                   if at.Freeing? then Mapped(k.m.ram[..], PageAt(k.pgdir)) else {}, false)
    }

    /** This state is the one that the protocol reaches from boot by what has happened. */
    ghost predicate Valid()
      reads this, k, k.m, k.m.ram
      ensures Valid() ==> k.m.ram.Length == NPAGES && 0 <= PageAt(k.cr3) < NPAGES && video.Length == FRAMEBUFFER_SIZE
    {
      && k.Valid() && video.Length == FRAMEBUFFER_SIZE && PageFor(k.m.owner, k.cr3, Dir)
      && !at.Building? && !at.Loading? && (at.Idle? || at.Freeing? || Runs())
      && (at.Freeing? ==> k.userTask != 0 && PageFor(k.m.owner, k.pgdir, Dir) && k.cr3 == k.kvm != k.pgdir)
      && Mirror.Run(Mirror.BOOT, trace) == Abs()
    }

    constructor ()
      ensures Valid() && fresh(k) && fresh(k.m) && fresh(k.m.ram) && fresh(video) && at == Mirror.Idle && !enabled
    {
      k := new Kernel();
      video := new int[FRAMEBUFFER_SIZE](_ => 0);
      enabled, fb, at, trace := false, 0, Mirror.Idle, [];
      new;
      KernelMapsNothing(k.m.ram[..], PageAt(k.kvm));
    }

    // The protocol's safety, in terms of the page tables.
    lemma BoundReadable(i: nat)
      requires Valid() && enabled && i < FRAMEBUFFER_SIZE
      ensures !at.Idle? && !at.Freeing? && UserReadable(k.m.ram[..], PageAt(k.cr3), fb + i)
    {
      Mirror.MirrorSafe(trace);
      assert Mirror.PageReadable(Mapped(k.m.ram[..], PageAt(k.cr3)), fb + i);
      MappedReadable(k.m.ram[..], k.m.owner, PageAt(k.cr3), fb + i);
    }

    // A load by user address: it faults unless the address is readable.
    method Load(va: nat) returns (b: int)
      requires Valid() && UserReadable(k.m.ram[..], PageAt(k.cr3), va)
      ensures b == UserByte(k.m.ram[..], PageAt(k.cr3), va)
    {
      b := UserByte(k.m.ram[..], PageAt(k.cr3), va);
    }

    // mode13_fb_tick
    method Copy()
      requires Valid()
      modifies video
      ensures Valid()
      ensures enabled ==>
        forall i :: 0 <= i < FRAMEBUFFER_SIZE ==> video[i] == UserByte(k.m.ram[..], PageAt(k.cr3), fb + i)
      ensures !enabled ==> video[..] == old(video[..])
    {
      hide UserByte, UserReadable, Valid;
      if !enabled {
        return;
      }
      var i := 0;
      while i < FRAMEBUFFER_SIZE
        invariant 0 <= i <= FRAMEBUFFER_SIZE && Valid()
        invariant forall j :: 0 <= j < i ==> video[j] == UserByte(k.m.ram[..], PageAt(k.cr3), fb + j)
      {
        BoundReadable(i);
        video[i] := Load(fb + i);
        i := i + 1;
      }
    }

    lemma Extend(a: Mirror.Action)
      requires Valid()
      ensures Mirror.Run(Mirror.BOOT, trace + [a]) == Mirror.Step(Abs(), a)
    {
      Mirror.RunAppend(Mirror.BOOT, trace, [a]);
      Mirror.RunOne(Abs(), a);
    }

    /** The timer interrupt: the copy never reads an unreadable byte, and video memory shows
        the program's frame buffer. */
    method Tick()
      requires Valid()
      modifies video, this`trace
      ensures Valid() && trace == old(trace) + [Mirror.Tick]
      ensures enabled ==>
        forall i :: 0 <= i < FRAMEBUFFER_SIZE ==> video[i] == UserByte(k.m.ram[..], PageAt(k.cr3), fb + i)
      ensures !enabled ==> video[..] == old(video[..])
    {
      hide Kernel.Valid, UserByte, Mapped;
      Copy();
      Extend(Mirror.Tick);
      Mirror.MirrorSafe(trace);
      trace := trace + [Mirror.Tick];
    }

    // The two assignments of mode13_fb_bind, and its copy.
    method SetPointer(p: nat)
      requires Valid() && at == Mirror.BindPtr(p)
      modifies this`fb, this`at, this`trace
      ensures Valid() && at == Mirror.BindFlag(p) && fb == p && trace == old(trace) + [Mirror.Proceed]
    {
      hide Kernel.Valid, Mapped;
      Extend(Mirror.Proceed);
      fb, at, trace := p, Mirror.BindFlag(p), trace + [Mirror.Proceed];
    }

    method SetFlag(p: nat)
      requires Valid() && at == Mirror.BindFlag(p)
      modifies this`enabled, this`at, this`trace
      ensures Valid() && at == Mirror.BindCopy && enabled && trace == old(trace) + [Mirror.Proceed]
    {
      hide Kernel.Valid, Mapped;
      Extend(Mirror.Proceed);
      enabled, at, trace := true, Mirror.BindCopy, trace + [Mirror.Proceed];
    }

    method FirstCopy()
      requires Valid() && at == Mirror.BindCopy
      modifies video, this`at, this`trace
      ensures Valid() && at == Mirror.User && trace == old(trace) + [Mirror.Proceed]
    {
      hide Kernel.Valid, Mapped;
      Copy();
      Extend(Mirror.Proceed);
      Mirror.MirrorSafe(trace);
      at, trace := Mirror.User, trace + [Mirror.Proceed];
    }

    // user_readable_after
    method Measure(p: nat) returns (n: nat)
      requires Valid()
      ensures Mirror.ReadableAfter(Mapped(k.m.ram[..], PageAt(k.cr3)), p, n)
      ensures n >= FRAMEBUFFER_SIZE <==> Mirror.CopySafe(Mapped(k.m.ram[..], PageAt(k.cr3)), p)
    {
      ghost var ram, d := k.m.ram[..], PageAt(k.cr3);
      KernelTablesAccess(ram, k.m.owner, d, 0);
      hide Flat;
      n := UserReadableAfter(k.m.ram[..], PageAt(k.cr3), p);
      Mirror.WalkerIsReadableAfter(ram, k.m.owner, d, Mapped(ram, d), p, n);
      assert n < FRAMEBUFFER_SIZE ==> p <= p + n < p + FRAMEBUFFER_SIZE;
    }

    ghost method Admit(p: nat, readable: nat)
      requires Valid() && at == Mirror.User && readable >= FRAMEBUFFER_SIZE
      requires Mirror.ReadableAfter(Mapped(k.m.ram[..], PageAt(k.cr3)), p, readable)
      modifies this`at, this`trace
      ensures Valid() && at == Mirror.BindPtr(p)
    {
      hide Kernel.Valid, Mapped;
      Extend(Mirror.Enter13h(p, readable));
      at, trace := Mirror.BindPtr(p), trace + [Mirror.Enter13h(p, readable)];
    }

    /** handle_enter13h with mode13_fb_bind, interrupted after every step: accepted exactly
        when the whole frame buffer is readable. */
    method Enter13h(p: nat) returns (r: int)
      requires Valid() && at == Mirror.User
      modifies this`enabled, this`fb, this`at, this`trace, video
      ensures Valid() && at == Mirror.User
      ensures r == if Mirror.CopySafe(Mapped(k.m.ram[..], PageAt(k.cr3)), p) then 0 else -1
      ensures if r == 0 then enabled && fb == p else enabled == old(enabled) && fb == old(fb)
    {
      hide Valid, Mapped, Mirror.CopySafe, Mirror.ReadableAfter;
      var readable := Measure(p);
      Tick();
      if readable < FRAMEBUFFER_SIZE {
        return -1;
      }
      Admit(p, readable);
      Tick();
      SetPointer(p);
      Tick();
      SetFlag(p);
      Tick();
      FirstCopy();
      r := 0;
    }

    // proc_restore_text_mode: the test, and the two assignments of mode13_fb_unbind.
    method TestFlag(exiting: bool) returns (active: bool)
      requires Valid() && at == Mirror.Restore(exiting)
      modifies this`at, this`trace
      ensures Valid() && active == enabled
      ensures at == if active then Mirror.UnbindFlag(exiting) else if exiting then Mirror.Switch else Mirror.User
    {
      hide Kernel.Valid, Mapped;
      Extend(Mirror.Proceed);
      active := enabled;
      at := if active then Mirror.UnbindFlag(exiting) else if exiting then Mirror.Switch else Mirror.User;
      trace := trace + [Mirror.Proceed];
    }

    method ClearFlag(exiting: bool)
      requires Valid() && at == Mirror.UnbindFlag(exiting)
      modifies this`enabled, this`at, this`trace
      ensures Valid() && at == Mirror.UnbindPtr(exiting) && !enabled
    {
      hide Kernel.Valid, Mapped;
      Extend(Mirror.Proceed);
      enabled, at, trace := false, Mirror.UnbindPtr(exiting), trace + [Mirror.Proceed];
    }

    method ClearPointer(exiting: bool)
      requires Valid() && at == Mirror.UnbindPtr(exiting)
      modifies this`fb, this`at, this`trace
      ensures Valid() && at == if exiting then Mirror.Switch else Mirror.User
    {
      hide Kernel.Valid, Mapped;
      Extend(Mirror.Proceed);
      fb, trace := 0, trace + [Mirror.Proceed];
      at := if exiting then Mirror.Switch else Mirror.User;
    }

    ghost method Begin(exiting: bool)
      requires Valid() && at == Mirror.User
      modifies this`at, this`trace
      ensures Valid() && at == Mirror.Restore(exiting)
    {
      hide Kernel.Valid, Mapped;
      var a := if exiting then Mirror.Exit else Mirror.Leave13h;
      Extend(a);
      at, trace := Mirror.Restore(exiting), trace + [a];
    }

    /** proc_restore_text_mode, for leave13h or on the way out. */
    method RestoreTextMode(exiting: bool)
      requires Valid() && at == Mirror.User
      modifies this`enabled, this`fb, this`at, this`trace, video
      ensures Valid() && !enabled && at == if exiting then Mirror.Switch else Mirror.User
    {
      hide Valid;
      Begin(exiting);
      Tick();
      var active := TestFlag(exiting);
      if !active {
        return;
      }
      Tick();
      ClearFlag(exiting);
      Tick();
      ClearPointer(exiting);
    }

    // switchkvm, which the mirror does not survive.
    method LeaveSpace()
      requires Valid() && at.Switch?
      modifies this`at, this`trace, k`cr3
      ensures Valid() && at.Freeing? && k.cr3 == k.kvm && k.userTask != 0
    {
      hide Sound, Mapped;
      Extend(Mirror.Proceed);
      KernelMapsNothing(k.m.ram[..], PageAt(k.kvm));
      k.SwitchKvm();
      at, trace := Mirror.Freeing, trace + [Mirror.Proceed];
    }

    // With no program in its directory the mirror is off.
    lemma OffOutside()
      requires Valid() && (at.Idle? || at.Freeing? || at.Switch?)
      ensures !enabled
    {
      Mirror.MirrorSafe(trace);
    }

    // freevm on the program's directory.
    method FreeSpace()
      requires Valid() && at.Freeing?
      modifies this`at, this`trace, k.m, k.m.ram
      ensures Valid() && at.Idle? && !enabled
      ensures Released(old(k.m.ram[..]), old(k.m.owner), k.m.ram[..], k.m.owner, PageAt(k.pgdir))
    {
      hide Sound, Mapped, Released;
      OffOutside();
      KernelMapsNothing(k.m.ram[..], PageAt(k.kvm));
      ghost var s := Abs();
      ghost var t := Mirror.FreeAll(s);
      Mirror.RunAppend(Mirror.BOOT, trace, t);
      trace := trace + t;
      Mirror.RunAppend(Mirror.BOOT, trace, [Mirror.Done]);
      Mirror.RunOne(s.(building := {}), Mirror.Done);
      k.FreeUser(PageAt(k.pgdir));
      KernelMapsNothing(k.m.ram[..], PageAt(k.kvm));
      at, trace := Mirror.Idle, trace + [Mirror.Done];
    }

    /** killproc: the mirror goes off, then the directory is switched, then freed, with
        interrupts in between. */
    method Exit()
      requires Valid() && at.User?
      modifies this, video, k`cr3, k.m, k.m.ram
      ensures Valid() && at.Idle? && !enabled && k.cr3 == k.kvm
      ensures Released(old(k.m.ram[..]), old(k.m.owner), k.m.ram[..], k.m.owner, old(PageAt(k.cr3)))
    {
      hide Kernel.Valid, Released, Mapped;
      assert k.pgdir == k.cr3;
      RestoreTextMode(true);
      Tick();
      LeaveSpace();
      Tick();
      FreeSpace();
      Tick();
    }

    // The protocol's account of run_elf: file and stack pages before the directory is in
    // force, the pages beyond the file after it.
    lemma Loaded(s0: Mirror.State, fileEnd: nat, runs: bool) returns (t: seq<Mirror.Action>)
      requires s0.at.Idle? && k.Valid() && PageFor(k.m.owner, k.cr3, Dir)
      ensures Mirror.Run(s0, t) == s0.(at := if runs then Mirror.User else Mirror.Idle, building := {},
                                       inForce := Mapped(k.m.ram[..], PageAt(k.cr3)))
    {
      var pages := Mapped(k.m.ram[..], PageAt(k.cr3));
      var early := set v | v in pages && (v < fileEnd || v >= 0xEFE);
      hide Mapped, Kernel.Valid;
      t := Mirror.Load(s0, early, pages - early, runs);
      assert early + (pages - early) == pages;
    }

    /** run_elf.  The mirror is off all the time, so interrupts do nothing. */
    method Start(size: nat, phdrs: seq<Phdr>) returns (status: Status)
      requires Valid() && at.Idle? && Spare(k.m, k.userTask) >= 0
      requires FitsBelowStack(size, phdrs)   // else, if memory lasts, mappages panics: "remap"
      modifies this`at, this`trace, k, k.m, k.m.ram
      ensures Valid() && !enabled && status == Outcome(size, phdrs, old(Spare(k.m, k.userTask)))
      ensures at == (if status == Running then Mirror.User else Mirror.Idle) && 0 <= PageAt(k.userTask) < NPAGES
      ensures old(k.m.owner)[PageAt(k.userTask)].Free? || old(k.m.owner)[PageAt(k.userTask)].Kernel?
      ensures Born(old(k.m.ram[..]), old(k.m.owner)[PageAt(k.userTask) := Role.Kernel], k.m.ram[..],
                   k.m.owner, PageAt(k.cr3))
    {
      hide Sound, Born, Outcome, ImageTop, Mapped;
      OffOutside();
      ghost var s0 := Abs();
      ghost var d;
      status, d := k.RunElf(size, phdrs);
      KvaPage(d);
      ghost var t := Loaded(s0, PageCeil(USER_BASE + size), status == Running);
      at := if status == Running then Mirror.User else Mirror.Idle;
      Mirror.RunAppend(Mirror.BOOT, trace, t);
      trace := trace + t;
    }

    // The page and the offset of the memory behind va.
    method Locate(va: nat) returns (p: nat, offset: nat)
      requires Valid() && UserReadable(k.m.ram[..], PageAt(k.cr3), va)
      ensures p < NPAGES && FrameOf(k.m.owner, p, PageAt(k.cr3)) && offset == va % 0x1000
      ensures p == PageOf(Flat(k.m.ram[..], PageAt(k.cr3), va / 0x1000))
    {
      ReadableFrame(k.m.ram[..], k.m.owner, PageAt(k.cr3), va);
      var pa := Translate(k.m.ram[..], PageAt(k.cr3), va);
      hide Translate, Readable, Flat, Mapped, Linked;
      p, offset := pa / 0x1000, pa % 0x1000;
    }

    method StoreAt(f: nat, offset: nat, b: Byte)
      requires Valid() && at.User? && f < NPAGES && FrameOf(k.m.owner, f, PageAt(k.cr3)) && offset < 0x1000
      modifies k.m.ram
      ensures Valid() && k.m.ram[..] == old(k.m.ram[..])[f := PageSet(old(k.m.ram[f]), offset, b)]
    {
      hide Linked, Flat, Mapped, SetByte;
      ghost var ram0 := k.m.ram[..];
      FrameContents(ram0, k.m.owner, f, PageSet(ram0[f], offset, b));
      k.m.Store(f, offset / 4, SetByte(k.m.ram[f][offset / 4], offset % 4, b));
      assert k.m.ram[..] == ram0[f := PageSet(ram0[f], offset, b)];
      SameMapped(ram0, k.m.ram[..], k.m.owner, PageAt(k.cr3));
    }

    /** A store of the program, which succeeds exactly where the hardware allows it, changes
        one byte of one of its own frames. */
    method Store(va: nat, b: Byte) returns (ok: bool, ghost f: nat)
      requires Valid() && at.User?
      modifies k.m.ram
      ensures Valid() && ok == old(va < KERNBASE && HardwareWritable(k.m.ram[..], PageAt(k.cr3), va))
      ensures !ok ==> k.m.ram[..] == old(k.m.ram[..])
      ensures ok ==>
        && f < NPAGES && FrameOf(k.m.owner, f, PageAt(k.cr3))
        && f == old(PageOf(Flat(k.m.ram[..], PageAt(k.cr3), va / 0x1000)))
        && k.m.ram[..] == Stored(old(k.m.ram[..]), f, va, b)
    {
      f := 0;
      ok := va < KERNBASE && HardwareWritable(k.m.ram[..], PageAt(k.cr3), va);
      if ok {
        hide HardwareWritable;
        var p, offset := Locate(va);
        f := p;
        StoreAt(p, offset, b);
      }
    }

    // One action of the running program; a faulting store ends it.
    method Do(c: Call, ghost ram0: seq<Page>, ghost owner0: seq<Role>) returns (alive: bool)
      requires Valid() && at.User? && |ram0| == |owner0| == NPAGES && Linked(ram0, owner0)
      requires Born(ram0, owner0, k.m.ram[..], k.m.owner, PageAt(k.cr3))
      modifies this`enabled, this`fb, this`at, this`trace, video, k.m.ram
      ensures Valid() && at.User? && Born(ram0, owner0, k.m.ram[..], k.m.owner, PageAt(k.cr3))
      ensures match c
        case Enter(p) =>
          && alive && k.m.ram[..] == old(k.m.ram[..])
          && if old(Mirror.CopySafe(Mapped(k.m.ram[..], PageAt(k.cr3)), p)) then enabled && fb == p
             else enabled == old(enabled) && fb == old(fb)
        case Leave => alive && !enabled && k.m.ram[..] == old(k.m.ram[..])
        case Write(va, b) =>
          && alive == old(va < KERNBASE && HardwareWritable(k.m.ram[..], PageAt(k.cr3), va))
          && enabled == old(enabled) && fb == old(fb)
          && if alive then Wrote(old(k.m.ram[..]), k.m.ram[..], PageAt(k.cr3), va, b)
             else k.m.ram[..] == old(k.m.ram[..])
        case Wait => alive && enabled == old(enabled) && fb == old(fb) && k.m.ram[..] == old(k.m.ram[..])
    {
      hide Sound, PageFor, Born, Mapped, Linked, HardwareWritable, Stored, Mirror.CopySafe;
      alive := true;
      match c {
        case Enter(p) =>
          var r := Enter13h(p);
        case Leave =>
          RestoreTextMode(false);
        case Write(va, b) =>
          ghost var ram1 := k.m.ram[..];
          ghost var f;
          alive, f := Store(va, b);
          if alive {
            FrameStoreGrew(ram0, owner0, ram1, k.m.owner, PageAt(k.cr3), f, k.m.ram[f]);
            assert k.m.ram[..] == ram1[f := k.m.ram[f]] by { StoredAt(ram1, f, va, b); }
          }
        case Wait =>
      }
      Tick();
    }

    /** A whole program: started, doing anything - system calls, and stores anywhere - and
        ended, with timer interrupts throughout.  Every copy reads readable memory; the
        mirror is off at the end; every page is given back, and no page that was in use
        before has changed. */
    method RunProgram(size: nat, phdrs: seq<Phdr>, calls: seq<Call>) returns (status: Status)
      requires Valid() && at.Idle? && Spare(k.m, k.userTask) >= 0
      requires FitsBelowStack(size, phdrs)   // else, if memory lasts, mappages panics: "remap"
      modifies this, video, k, k.m, k.m.ram
      ensures Valid() && at.Idle? && !enabled && 0 <= PageAt(k.userTask) < NPAGES
      ensures status == Outcome(size, phdrs, old(Spare(k.m, k.userTask)))
      ensures var owner0 := old(k.m.owner)[PageAt(k.userTask) := Role.Kernel];
        status == Running ==>
          k.cr3 == k.kvm && SameFree(owner0, k.m.owner) && SameUsed(old(k.m.ram[..]), owner0, k.m.ram[..], k.m.owner)
    {
      hide Linked, Machine.Valid, Born, Released, SameFree, SameUsed, Outcome, ImageTop, Mapped, KernelDir;
      ghost var ram0, owner1 := k.m.ram[..], k.m.owner;
      status := Start(size, phdrs);
      Tick();
      if status != Running {
        return;
      }
      ghost var t := PageAt(k.userTask);
      ghost var owner0 := owner1[t := Role.Kernel];
      LinkedStart(ram0, owner1, t);
      var alive, i := true, 0;
      while alive && i < |calls|
        invariant Valid() && at.User? && PageAt(k.userTask) == t && status == Running
        invariant Born(ram0, owner0, k.m.ram[..], k.m.owner, PageAt(k.cr3))
      {
        alive := Do(calls[i], ram0, owner0);
        i := i + 1;
      }
      ghost var ram2, owner2, d := k.m.ram[..], k.m.owner, PageAt(k.cr3);
      Exit();
      BornReleased(ram0, owner0, d, ram2, owner2, k.m.ram[..], k.m.owner);
    }
  }
}
