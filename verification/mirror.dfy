/** The mode-13h mirror (drivers/mode13fb.c): on every timer interrupt the kernel copies
    64000 bytes from a user pointer to video memory.  The interrupt can fall between any
    two assignments of the thread it interrupts, so system calls (cpu/idt.c), program
    start and teardown (proc.c) are modelled as single steps with ticks in between. */
module Mirror {
  import opened Layout
  import Mem
  import Vm
  import Walkers

  // Where the interrupted thread stands.
  datatype Point =
    | Idle                    // kernel loop, no program
    | Building                // run_elf before switchuvm
    | Loading                 // run_elf after switchuvm: file and segments
    | User
    | BindPtr(p: nat)         // mode13_fb_bind: about to set the pointer,
    | BindFlag(p: nat)        //   about to set the flag,
    | BindCopy                //   about to change the mode and copy once
    | Restore(exiting: bool)  // proc_restore_text_mode: about to test the flag,
    | UnbindFlag(exiting: bool)   // mode13_fb_unbind: about to clear the flag,
    | UnbindPtr(exiting: bool)    //   about to clear the pointer
    | Switch                  // killproc: about to install the kernel directory,
    | Freeing                 //   freeing the user's pages

  datatype State = State(
    at: Point,
    enabled: bool,            // mode13_enabled
    fb: nat,                  // mode13_user_fb_ptr
    inForce: set<nat>,        // virtual pages that user mode can read in the directory in cr3
    building: set<nat>,       // the same for the program's directory while it is not in cr3
    faulted: bool)            // a copy read an unreadable byte

  datatype Action =
    | Tick                    // timer interrupt
    | Start | MapNext(page: nat) | Install | LoadMap(page: nat) | GiveUp | Enter
    | Enter13h(p: nat, readable: nat) | Leave13h | Exit
    | Proceed                 // the next assignment of the thread
    | FreeNext(page: nat) | Done

  predicate PageReadable(pages: set<nat>, a: nat) {
    a < KERNBASE && a / 0x1000 in pages
  }

  // What user_readable_after returns: the longest readable range from p.
  ghost predicate ReadableAfter(pages: set<nat>, p: nat, n: nat) {
    && (forall a :: p <= a < p + n ==> PageReadable(pages, a))
    && !PageReadable(pages, p + n)
  }

  /** The walker that guards enter13h computes just that, on the directory's pages. */
  lemma WalkerIsReadableAfter(ram: seq<Mem.Page>, owner: seq<Mem.Role>, d: nat, pages: set<nat>, p: nat, n: nat)
    requires |ram| == |owner| && Vm.Linked(ram, owner) && d < |ram| && owner[d].Dir?
    requires forall v :: 0 <= v < 0x8_0000 ==> (v in pages <==> Vm.Flat(ram, d, v) != 0)
    requires Walkers.LongestReadable(ram, d, p, n)
    ensures ReadableAfter(pages, p, n)
  {
    forall a | 0 <= a < KERNBASE ensures PageReadable(pages, a) <==> Walkers.Readable(ram, d, a) {
      Walkers.KernelTablesAccess(ram, owner, d, a);
    }
    hide Vm.Linked, Vm.Flat, Walkers.Readable;
  }

  // Copying from the bound pointer stays inside readable memory.
  ghost predicate CopySafe(pages: set<nat>, fb: nat) {
    forall a :: fb <= a < fb + Walkers.FRAMEBUFFER_SIZE ==> PageReadable(pages, a)
  }

  // mode13_fb_tick
  ghost function Copy(s: State): State {
    if s.enabled && !CopySafe(s.inForce, s.fb) then s.(faulted := true) else s
  }

  // The next assignment of bind, unbind and killproc.
  ghost function Advance(s: State): State {
    match s.at
    case BindPtr(p) => s.(fb := p, at := BindFlag(p))
    case BindFlag(p) => s.(enabled := true, at := BindCopy)
    case BindCopy => Copy(s).(at := User)
    case Restore(exiting) => s.(at := if s.enabled then UnbindFlag(exiting) else if exiting then Switch else User)
    case UnbindFlag(exiting) => s.(enabled := false, at := UnbindPtr(exiting))
    case UnbindPtr(exiting) => s.(fb := 0, at := if exiting then Switch else User)
    case Switch => s.(building := s.inForce, inForce := {}, at := Freeing)
    case _ => s
  }

  // One step of the machine; an action that is not possible changes nothing.
  ghost function Step(s: State, a: Action): State {
    match a
    case Tick => Copy(s)
    case Start => if s.at == Idle then s.(at := Building, building := {}) else s
    case MapNext(page) => if s.at == Building then s.(building := s.building + {page}) else s
    case Install => if s.at == Building then s.(at := Loading, inForce := s.building, building := {}) else s
    case LoadMap(page) => if s.at == Loading then s.(inForce := s.inForce + {page}) else s
    case GiveUp => if s.at == Loading then s.(at := Idle) else s
    case Enter => if s.at == Loading then s.(at := User) else s
    case Enter13h(p, n) =>
      if s.at == User && ReadableAfter(s.inForce, p, n) && n >= Walkers.FRAMEBUFFER_SIZE
        then s.(at := BindPtr(p)) else s
    case Leave13h => if s.at == User then s.(at := Restore(false)) else s
    case Exit => if s.at == User then s.(at := Restore(true)) else s
    case Proceed => Advance(s)
    case FreeNext(page) => if s.at == Freeing then s.(building := s.building - {page}) else s
    case Done => if s.at == Freeing && s.building == {} then s.(at := Idle) else s
  }

  ghost function Run(s: State, actions: seq<Action>): State
    decreases |actions|
  {
    if actions == [] then s else Run(Step(s, actions[0]), actions[1..])
  }

  // Boot: nothing bound, the kernel's directory in force.
  const BOOT := State(Idle, false, 0, {}, {}, false)

  /** Whenever the mirror is on, a program is running with its directory in force and
      the whole frame buffer readable in it. */
  ghost predicate Safe(s: State) {
    && !s.faulted
    && (s.enabled ==>
          && CopySafe(s.inForce, s.fb)
          && (s.at == User || s.at.BindPtr? || s.at.BindFlag? || s.at == BindCopy || s.at.Restore? || s.at.UnbindFlag?))
    && (s.at.BindPtr? ==> CopySafe(s.inForce, s.at.p))
    && (s.at.BindFlag? ==> CopySafe(s.inForce, s.at.p) && s.fb == s.at.p)
  }

  lemma StepSafe(s: State, a: Action)
    requires Safe(s)
    ensures Safe(Step(s, a))
  {
    hide PageReadable;
  }

  lemma SafeIs(s: State)
    requires Safe(s)
    ensures !s.faulted
  {
  }

  /** No interleaving of ticks with system calls, program start and teardown makes a copy
      read memory that the running program could not read itself. */
  lemma {:induction false} RunSafe(s: State, actions: seq<Action>)
    requires Safe(s)
    ensures Safe(Run(s, actions)) && !Run(s, actions + [Tick]).faulted
    decreases |actions|
  {
    hide Safe, Step;
    if actions == [] {
      StepSafe(s, Tick);
      SafeIs(Step(s, Tick));
      assert (actions + [Tick])[1..] == [];
    } else {
      StepSafe(s, actions[0]);
      assert (actions + [Tick])[0] == actions[0] && (actions + [Tick])[1..] == actions[1..] + [Tick];
      RunSafe(Step(s, actions[0]), actions[1..]);
    }
  }

  lemma {:induction false} RunAppend(s: State, t: seq<Action>, u: seq<Action>)
    ensures Run(s, t + u) == Run(Run(s, t), u)
    decreases |t|
  {
    hide Step;
    if t == [] {
      assert t + u == u;
    } else {
      assert (t + u)[0] == t[0] && (t + u)[1..] == t[1..] + u;
      RunAppend(Step(s, t[0]), t[1..], u);
    }
  }

  lemma RunOne(s: State, a: Action)
    ensures Run(s, [a]) == Step(s, a)
  {
    hide Step;
    assert Run(Step(s, a), [a][1..]) == Step(s, a);
  }

  // The same pages can be mapped, or freed, one by one.
  lemma MapAll(s: State, pages: set<nat>) returns (t: seq<Action>)
    requires s.at == Building
    ensures Run(s, t) == s.(building := s.building + pages)
    decreases |pages|
  {
    t := [];
    if pages == {} {
      assert s.building + pages == s.building;
    } else {
      var v :| v in pages;
      var n := Step(s, MapNext(v));
      var rest := MapAll(n, pages - {v});
      t := [MapNext(v)] + rest;
      RunAppend(s, [MapNext(v)], rest);
      RunOne(s, MapNext(v));
      assert n.building + (pages - {v}) == s.building + pages;
    }
  }

  lemma LoadAll(s: State, pages: set<nat>) returns (t: seq<Action>)
    requires s.at == Loading
    ensures Run(s, t) == s.(inForce := s.inForce + pages)
    decreases |pages|
  {
    t := [];
    if pages == {} {
      assert s.inForce + pages == s.inForce;
    } else {
      var v :| v in pages;
      var n := Step(s, LoadMap(v));
      var rest := LoadAll(n, pages - {v});
      t := [LoadMap(v)] + rest;
      RunAppend(s, [LoadMap(v)], rest);
      RunOne(s, LoadMap(v));
      assert n.inForce + (pages - {v}) == s.inForce + pages;
    }
  }

  lemma FreeAll(s: State) returns (t: seq<Action>)
    requires s.at == Freeing
    ensures Run(s, t) == s.(building := {})
    decreases |s.building|
  {
    t := [];
    if s.building != {} {
      var v :| v in s.building;
      var n := Step(s, FreeNext(v));
      var rest := FreeAll(n);
      t := [FreeNext(v)] + rest;
      RunAppend(s, [FreeNext(v)], rest);
      RunOne(s, FreeNext(v));
    }
  }

  // What run_elf does: early pages before the directory is in force, late ones after it.
  lemma Load(s0: State, early: set<nat>, late: set<nat>, runs: bool) returns (t: seq<Action>)
    requires s0.at == Idle
    ensures Run(s0, t) == s0.(at := if runs then User else Idle, building := {}, inForce := early + late)
  {
    var last := if runs then Enter else GiveUp;
    var s1 := Step(s0, Start);
    var t1 := MapAll(s1, early);
    var s2 := s1.(building := early);
    assert {} + early == early;
    var s3 := Step(s2, Install);
    var t2 := LoadAll(s3, late);
    RunOne(s0, Start);
    RunOne(s2, Install);
    RunOne(s3.(inForce := early + late), last);
    t := [Start] + t1;
    RunAppend(s0, [Start], t1);
    RunAppend(s0, t, [Install]);
    RunAppend(s0, t + [Install], t2);
    RunAppend(s0, t + [Install] + t2, [last]);
    t := t + [Install] + t2 + [last];
  }

  /** From boot. */
  lemma MirrorSafe(actions: seq<Action>)
    ensures Safe(Run(BOOT, actions)) && !Run(BOOT, actions + [Tick]).faulted
  {
    RunSafe(BOOT, actions);
  }
}
