# Verification of a small teaching kernel and its snake game

The project models the parts of the system with the most state and the most shared
memory, and proves what they keep over every call and every run.

| file | models |
|---|---|
| `memlayout.dfy` | address arithmetic and entry formats of `cpu/memlayout.h` |
| `mem.dfy`, `vm.dfy`, `proc.dfy` | page allocator, two-level page tables, program start and teardown |
| `walkers.dfy` | the user-range walkers behind the system calls |
| `mirror.dfy` | the mode-13h mirror, its system calls and the timer interrupt, interleaved |
| `display.dfy` | the mirror's two variables inside the kernel, over the real page tables, with a program that calls and stores as it likes; every step is one of `mirror.dfy` |
| `field.dfy`, `snake_rules.dfy`, `snake_model.dfy` | the playing field, the rules as functions, and the engine that updates arrays in place |
| `snake_invariants.dfy`, `snake_runs.dfy` | what every step, tick and whole game keeps |
| `snake_input.dfy`, `snake_render.dfy` | turn queue and drawing |
| `snake_session.dfy`, `snake_game.dfy` | the main loop as a function of keys, time and ticks, and as the program that updates its objects |
| `snake_laws.dfy` | what keys and ticks do to a game, over frames and runs |
| `stale_example.dfy` | one concrete game, computed from its seed |
| `terminal.dfy` | overlapping copies and the scrolling text console |
| `fs_image.dfy` | the file image, its writer and its reader |

How it is put together:

- Code that updates memory is a class or a method over arrays.  Each such method is proved
  against a function or predicate on values (`Advance`, `Tick`, `Allocated`, `Put`, ...), and
  the properties are lemmas about those.
- In `Mem` every physical page has exactly one owner, recorded in a ghost sequence.  `Linked`
  says that entries lead only to pages owned for that very entry, so free pages, directories,
  tables and frames can never overlap.  Words of memory are integers
  without a width: table entries are page addresses below 2^27 with flags added.
- The panics of `kfree` ("kfree") and `mappages` ("remap") are preconditions.  `RunElf`,
  `KillProc` and `Lifecycle` meet them, so in those runs the panics are unreachable.
- `SnakeGame.Game.Inv` is the invariant of the whole game program; `Play` keeps it for every
  sequence of frames, where a frame is any batch of key events, any time and any number of ticks,
  and ends in the state that the rules (`Session`) give.

Where the code differs from what one would expect, the code is modelled and the exact
condition is proved:

- `run_elf` does not check its first two allocations and keeps the page directory when it fails
  to start a program.  How it ends is settled by the file's size, the image's end and the number
  of spare pages (`Outcome`); pages are given back if and only if the program starts
  (`RunProgram`).  A started program always has its image, but it can start with one stack page or
  none (`StackEnd`), and more free memory can make it fail (`OutcomeExample`).
- `run_elf` maps only what lies at or above USER_BASE: every byte of every loadable segment is
  mapped if and only if all of them start there or above and none reaches 2^32 (`ImageCovered`);
  others are not refused (`SegmentNotMapped`).
- `user_writable_after` ignores the writable flag of directory entries, and converts its count
  to `int`.  It agrees with the hardware if and only if read-only directory entries hide no
  writable table entry (`WalkWritableExact`, `WalkWritableTooLax`), and the count is wrong only
  when the whole user half is writable and the pointer is null (`UserWritableAfter`, `EventWritable`,
  `CountNegative`).
  On tables that the kernel builds neither happens (`KernelTablesAccess`, `KernelCountExact`).
- Incremental drawing leaves one cell stale if and only if the snake eats and the next apple is
  put on the cell that the tail just left (`StaleExactly`, `StaleWhen`, `PickIs`); the first tick of
  the game with seed 101213 does so (`StaleHappens`), and the next tick repairs it.
- Enter pressed during a game stays pending: when the game ends, a frame without keys starts the
  next one if and only if Enter was pressed before (`ConfirmLingers`).
- `snake_model_init_center` wraps: the initial body is free of repetition if and only if its
  length is at most 32, or 20 for a vertical snake (`InitDistinct`); of
  these, exactly the lengths from two up make coherent games (`NewGameExactly`).  A snake of one
  cell never grows (`OneCellNeverGrows`); a longer one has grown once it has eaten as many apples
  as it had cells (`GrowsAtAll`).
- A file whose base name has more than 19 characters is stored under a cut name; a file is found
  under its own base name if and only if that name was not cut and no earlier file has it
  (`StoreAndLoad`).
- `read_file` rounds up in 32 bits, so a file of more than 2^32 - 512 bytes reads as empty
  (`ReadFile`).
- The comment above `read_file` in `fs/fs.h` promises -1 on failure; the code never returns it.

## Model

| member | source | states |
|---|---|---|
| EntryBits.OrIsAdd | cpu/memlayout.h:29-30 | On 32-bit vectors, or-ing flags into a page-aligned address is addition, and the two masks of the macros recover address and flags |
| Layout.EntryFields | kernel/vm.c:50-72 | An entry written for a user table or frame is present, writable, user-accessible, not a large page, and names its page |
| Layout.PageIndices | cpu/memlayout.h:23-27 | The directory and table index of an address are those of its page number |
| Layout.UserPageIndices | cpu/memlayout.h:23-27 | Below KERNBASE the two indices stay in the user half, determine the page, and differ for different pages |
| Mem.Machine.constructor | kernel/mem.c:15-17 | At power-on the allocator holds nothing |
| Mem.Machine.Kfree | kernel/mem.c:44-57 | The page is filled with junk, linked in front of the old list and owned by nobody; no other page changes; the list stays acyclic and free of repetition |
| Mem.Machine.Kalloc | kernel/mem.c:62-70 | Returns null exactly when no page is free; otherwise the first free page, which leaves the list |
| Mem.Machine.Freerange | kernel/mem.c:19-26 | Exactly the whole pages inside the range become free |
| Vm.SetupKvm | kernel/vm.c:8-18 | A free page becomes a directory whose user half is empty and whose kernel half is the linear window |
| Vm.Walkpgdir | kernel/vm.c:33-53 | Finds or creates the page table of an address without changing any translation; fails exactly when the table is missing and may not or cannot be allocated |
| Vm.MapPage | kernel/vm.c:58-79 | One translation is added and none changed; fails exactly when a table is needed and no page is free, and then nothing changed |
| Vm.NewTable | kernel/vm.c:43-50 | Hanging a zeroed page behind an empty directory entry keeps every link of every address space sound |
| Vm.NewTableFlat | kernel/vm.c:43-50 | ... and changes no translation of any address space |
| Vm.NewFrame | kernel/vm.c:70-72 | Hanging a frame behind an empty table entry keeps every link sound |
| Vm.NewFrameFlat | kernel/vm.c:70-72 | ... and changes exactly one translation, in one address space |
| Vm.AllocPage | kernel/vm.c:83-91 | One page of a range: succeeds exactly when a frame and, if missing, a table are free; when the table cannot be had, the frame is given back |
| Vm.Allocuvm | kernel/vm.c:81-94 | Pages [PGROUNDUP(base), stop) get distinct zeroed frames that were free, nothing else changes, and all pages get one exactly when the free list covers the need |
| Vm.NeedCount | kernel/vm.c:81-94 | The need is one page per frame and one per missing page table of the range |
| Vm.NeedSplit | kernel/vm.c:81-94 | The need of a range is the need of its first part plus that of the rest with the tables the first part left |
| Vm.AllocatedCompose | kernel/vm.c:81-94 | Two calls on adjacent ranges, at any unaligned border, satisfy the contract of one call on the whole |
| Vm.AllocatedShort | kernel/vm.c:84-91 | A first call that runs out of memory stops where a single call would |
| Vm.FlatOwned | kernel/vm.c:33-79 | Every translation leads through a table and to a frame owned for exactly that directory and page |
| Vm.NoAliasing | kernel/vm.c:33-94 | No frame is mapped twice, in one address space or in two |
| Vm.Freept | kernel/vm.c:96-103 | Frees the frames of one page table, each once and read before the table is junked, and then the table |
| Vm.Freevm | kernel/vm.c:105-112 | Frees exactly the directory, tables and frames of one address space; every other page keeps owner and contents; all links stay sound |
| Proc.LifeConserves | kernel/vm.c:8-112 | A directory made from a free page, grown by any allocations and released leaves exactly the original pages free and the used ones unchanged |
| Proc.Lifecycle | kernel/vm.c:8-112 | Any sequence of allocuvm calls on disjoint ranges, including failing ones, between setupkvm and freevm, conserves the free pages |
| Proc.ImageTopBounds | proc.c:63-74 | The image top is the least bound on the file and all loadable segments |
| Proc.FindImageTop | proc.c:63-74 | The loop computes it |
| Proc.ImageTopAbove | proc.c:63-74 | The image top lies above an address exactly when the file does, or a header of type 1 and a size other than 0 ends above it |
| Proc.ImageTopFits | proc.c:63-79 | It stays below the stack exactly when the file and all such headers do |
| Proc.ImageIsMapped | proc.c:51-79 | The pages mapped below the stack are exactly those that start below the end of the file or of such a header |
| Proc.AskedForMapped | proc.c:63-79 | Every byte that a header asks for is mapped, however small its segment |
| Proc.SegmentByteMapped | proc.c:63-79 | A byte of a loadable segment that does not wrap is mapped if and only if it lies at or above USER_BASE |
| Proc.ImageCovered | proc.c:51-79 | Every sector that read_file writes is mapped; every byte of every loadable segment is if and only if all of them start at or above USER_BASE and none wraps around |
| Proc.SegmentNotMapped | proc.c:63-79 | Concrete segments below USER_BASE and up to 2^32, which are not mapped |
| Proc.RunNeedTotal | proc.c:51-79 | The calls for the file take one page per file page and per table under it; all calls take one per image page, two for the stack and one per touched 4 MiB region |
| Proc.StackShort | proc.c:53 | A failing call for the stack leaves no page, or the one that could not be a table |
| Proc.StackEndIs | proc.c:53 | How much of the stack gets mapped follows from file end and spare pages |
| Proc.StartsWhen | proc.c:52-79 | What is left suffices for the last call in exactly the cases named: nothing to map, enough for everything, or one page left over and needed |
| Proc.OutcomeExample | proc.c:41-100 | A program that fails with two spare pages, starts with three but without a stack, fails with four and five, and starts with six; one that starts with no, one or two stack pages; an empty file never starts |
| Proc.MapFileAndStack | proc.c:52-53 | After the first two allocations the file and stack pages are mapped, both fully exactly when memory suffices; what is left otherwise |
| Proc.LoadImage | proc.c:56-79 | The remaining branches: empty file, unmapped file pages, segments beyond the file, out of memory |
| Proc.Boot | kernel.c:123-125 | After boot the free pages are those from 1 MiB up except the kernel's directory |
| Proc.Kernel.constructor | kernel.c:122-125 | The kernel starts with its own directory in force and no task page |
| Proc.Kernel.EnsureTask | proc.c:48-50 | The task page is allocated once and then kept |
| Proc.Kernel.RunElf | proc.c:41-100 | Whether the file is found empty, reading it faults, memory runs out or the program runs follows from size, image and spare pages; a program that runs has exactly the pages mapped that start below the end of its file or of a header of type 1 and a size other than 0, so every byte asked for, and the part of its stack that `StackEnd` computes |
| Proc.Kernel.KillProc | proc.c:102-110 | The kernel's directory is in force afterwards; the user's is released; the task page and the kernel's directory are untouched |
| Proc.Kernel.RunProgram | proc.c:41-110 | All pages are given back if and only if the program starts, and that is settled before the call; otherwise directory and mappings stay |
| Walkers.AccessBits | cpu/memlayout.h:35-43 | The access rules flag by flag, in the bits of the two entries |
| Walkers.UserReadableAfter | cpu/idt.c:97-133 | The largest n such that user mode can read all of [ptr, ptr+n) below KERNBASE, over arbitrary tables with 4 KiB and 4 MiB pages |
| Walkers.UserWritableAfter | cpu/idt.c:208-247 | The same for write rights at the last level; 2^31 bytes come out negative |
| Walkers.LongestUnique | cpu/idt.c:97-133 | There is exactly one such range |
| Walkers.CountNegative | cpu/idt.c:246 | Tables on which the converted count is negative |
| Walkers.FramebufferReadable | cpu/idt.c:190-197 | The guard of enter13h holds exactly when all 64000 bytes are readable |
| Walkers.EventWritable | cpu/idt.c:249-252 | The guard of poll holds exactly when four bytes are writable, except for a null pointer into an entirely writable half |
| Walkers.WalkWritableExact | cpu/idt.c:217-236 | The write walk agrees with the hardware everywhere if and only if read-only directory entries hide no writable table entry |
| Walkers.WalkWritableTooLax | cpu/idt.c:229-236 | Concrete tables on which it does not |
| Walkers.KernelTablesAccess | kernel/vm.c:50-72 | On tables built by the kernel, readable, writable and mapped mean the same, to the walkers and to the hardware |
| Walkers.KernelCountExact | cpu/idt.c:208-247 | On tables built by the kernel the user half is never entirely mapped, so the converted count is exact |
| Walkers.KernelWindow | kernel/vm.c:12-16 | In every address space the kernel half translates KERNBASE+pa to pa, supervisor only |
| Walkers.GetUserspacePtr | cpu/idt.c:167-180 | A string pointer is accepted exactly when it is not null and a zero byte follows inside readable memory; no unreadable byte is loaded |
| Mirror.WalkerIsReadableAfter | cpu/idt.c:190-197 | The walker's result on kernel tables is the readable range that the protocol checks |
| Mirror.StepSafe | drivers/mode13fb.c:12-35 | Every single assignment of bind, unbind, program start and teardown, and every tick, keeps the safety invariant |
| Mirror.RunSafe | drivers/mode13fb.c:12-35 | After any interleaving from a safe state a further tick cannot fault |
| Mirror.MirrorSafe | proc.c:102-125 | From boot, whenever the mirror is on the user's directory is in force and all 64000 bytes are readable in it |
| Display.MappedReadable | cpu/idt.c:97-133 | The protocol's readable pages are the mapped pages of the directory in force |
| Display.ReadableFrame | kernel/vm.c:50-72 | Whatever user mode can read lies in a frame of its own address space |
| Display.FrameContents | kernel/vm.c:33-79 | Nothing that is written into user frames changes a translation |
| Display.ByteOrder | drivers/mode13fb.c:17 | Words of memory are copied low byte first |
| Display.StoreOneByte | kernel/vm.c:50-72 | A store changes the byte at its own address and no other byte that the program can read |
| Display.OrderMatters | proc.c:102-106 | With the kernel's directory in force no bound address is safe to copy from, so the mirror must be off by then |
| Display.Mode13.constructor | drivers/mode13fb.c:9-10 | At boot, with the mirror off, the kernel is in the protocol's first state |
| Display.Mode13.BoundReadable | drivers/mode13fb.c:12-18 | From the protocol: while the mirror is on, every byte at the bound pointer is readable in the tables in force |
| Display.Mode13.Tick | drivers/mode13fb.c:12-18 | A tick, possible after every assignment, never reads an unreadable byte; video memory shows the frame buffer of the running program |
| Display.Mode13.SetPointer | drivers/mode13fb.c:25 | The first assignment of bind is a step of the protocol |
| Display.Mode13.SetFlag | drivers/mode13fb.c:26 | So is the second |
| Display.Mode13.FirstCopy | drivers/mode13fb.c:28-29 | And the copy that follows |
| Display.Mode13.Enter13h | cpu/idt.c:190-197 | Accepted exactly when all 64000 bytes are readable in the tables; refused without a change |
| Display.Mode13.ClearFlag | drivers/mode13fb.c:33 | Clearing the flag is a step of the protocol |
| Display.Mode13.ClearPointer | drivers/mode13fb.c:34 | So is clearing the pointer |
| Display.Mode13.RestoreTextMode | proc.c:112-125 | The mirror is off afterwards, with ticks in between |
| Display.Mode13.Start | proc.c:41-100 | Everything run_elf maps is accounted for in the protocol, and the mirror is off throughout |
| Display.Mode13.LeaveSpace | proc.c:105 | Switching to the kernel's directory is a step of the protocol that leaves nothing readable |
| Display.Mode13.FreeSpace | proc.c:106 | Freeing the program's directory is a run of the protocol, and releases exactly its pages |
| Display.Mode13.Exit | proc.c:102-110 | Mirror off, then the directory switched, then freed, with ticks in between |
| Display.Mode13.Store | kernel/vm.c:70-72 | A store of a byte, anywhere, succeeds exactly where the hardware allows it and changes one byte of one of the program's frames |
| Display.Mode13.Do | cpu/idt.c:190-202 | What each call of a program does: enter13h binds exactly if the buffer is readable, leave13h ends the mirror, a store writes its byte or ends the program, waiting changes nothing |
| Display.Mode13.RunProgram | proc.c:41-117 | A program that makes any calls and stores anywhere, with ticks throughout: no copy faults, the mirror is off at the end, all pages are given back and no page in use before has changed |
| Field.WrapIsMod | user/snake_game/snake_model.c:23-29 | The truncating remainder with correction is reduction modulo the side of the field |
| Field.NextIsNeighbour | user/snake_game/snake_model.c:325-326 | Up, right, down and left lead to the cell above, to the right, below and to the left, around the edges |
| Field.OppositeIsReverse | user/snake_game/snake_input.c:6-8 | The exclusive-or test recognizes exactly the reverse direction |
| Field.Neighbours | user/snake_game/snake_model.c:325-326 | Different directions lead to different neighbours, and only the reverse leads back |
| Rings.RingPush | user/snake_game/snake_model.c:142-144 | Writing at (head+count) modulo the size appends to the queue |
| Rings.RingPop | user/snake_game/snake_model.c:148-158 | The slot at head is the front, and advancing head drops it |
| SnakeModel.Model.FindAppleAt | user/snake_game/snake_model.c:97-104 | The first apple on a cell, or -1 if there is none |
| SnakeModel.Model.CellIsFree | user/snake_game/snake_model.c:48-62 | True exactly for cells on the field without body, obstacle and apple |
| SnakeModel.Model.AddObstacle | user/snake_game/snake_model.c:64-77 | Adds to list and map exactly when the cell is free and the list is not full |
| SnakeModel.Model.AddApple | user/snake_game/snake_model.c:79-91 | Adds exactly when the cell is free and the list is not full |
| SnakeModel.Model.PickRandomFreeCell | user/snake_game/snake_model.c:106-135 | The scan returns the free cell selected by the random residue |
| SnakeModel.Model.ScanFree | user/snake_game/snake_model.c:120-132 | Returns the cell with so many free cells before it, and fails exactly when there are not that many |
| SnakeModel.Model.SpawnObstacle | user/snake_game/snake_model.c:227-238 | Picks a cell and adds it |
| SnakeModel.Model.InitRandomObstacles | user/snake_game/snake_model.c:240-252 | Clears the obstacles and places up to the clamped target |
| SnakeModel.Model.SpawnApple | user/snake_game/snake_model.c:261-273 | Picks a cell and adds it |
| SnakeModel.Model.SeedRandom | user/snake_game/snake_model.c:254-259 | A zero seed is replaced |
| SnakeModel.Model.InitCenter | user/snake_game/snake_model.c:160-218 | From any previous contents, a straight snake on an empty field with all representations in agreement |
| SnakeModel.Model.EnqueueGrowthPoint | user/snake_game/snake_model.c:137-146 | Appends to the growth queue unless it is full |
| SnakeModel.Model.PopGrowthPoint | user/snake_game/snake_model.c:152-158 | Drops the oldest growth point, if any |
| SnakeModel.Model.TryConsumeApple | user/snake_game/snake_model.c:282-302 | Eats exactly when the head lies on an apple; removes that apple, scores, queues the cell |
| SnakeModel.Model.Step | user/snake_game/snake_model.c:304-369 | Fails exactly when the next cell is an obstacle or in the body that stays, and then changes nothing; otherwise body, grid, ends, queue and direction become what the rules say |
| SnakeModel.CrashesWhen | user/snake_game/snake_model.c:325-345 | A step fails if and only if the next cell is an obstacle, or a body cell other than a tail that moves away |
| SnakeModel.Model.MarkMove | user/snake_game/snake_model.c:357-362 | Clearing the tail's cell before taking the head's keeps the grid right also when they are the same cell |
| SnakeInvariants.FreeCellsAre | user/snake_game/snake_model.c:120-132 | The scan lists every free cell once |
| SnakeInvariants.FreeCellsOrdered | user/snake_game/snake_model.c:120-132 | ... in row-major order |
| SnakeInvariants.FreeCellsCount | user/snake_game/snake_model.c:112 | 640 - length - apples - obstacles is exactly the number of free cells |
| SnakeInvariants.PickSound | user/snake_game/snake_model.c:106-135 | A pick succeeds exactly when a free cell exists; the residue selects among all of them and the search never runs off the field |
| SnakeInvariants.FreeCellsBelow | user/snake_game/snake_model.c:120-132 | As many cells before any place are free as the snake, the obstacles and the apples leave |
| SnakeInvariants.PickIs | user/snake_game/snake_model.c:106-135 | A pick gives a certain cell if and only if that is free and the random residue is the number of free cells before it |
| SnakeInvariants.GrowsWhen | user/snake_game/snake_model.c:332-335 | The snake grows exactly when its oldest growth point is the cell before the tail |
| SnakeInvariants.StepGrowth | user/snake_game/snake_model.c:332-355 | A step keeps the growth points on the body, in strict order, ahead of the tail |
| SnakeInvariants.StepKeeps | user/snake_game/snake_model.c:304-369 | Every surviving step keeps the invariant of the whole state |
| SnakeInvariants.ConsumeKeeps | user/snake_game/snake_model.c:282-302 | Eating keeps the invariant, removes only that apple and always finds room in the queue |
| SnakeInvariants.SpawnAppleKeeps | user/snake_game/snake_model.c:261-273 | Spawning keeps the invariant and succeeds exactly when there is room |
| SnakeInvariants.FillToReaches | user/snake.c:53-57 | Filling ends with exactly the target number of apples |
| SnakeInvariants.EffectiveTargetIsMin | user/snake.c:36-51 | The effective target is the minimum of request, 16 and free room |
| SnakeInvariants.StepPopulated | user/snake.c:233-247 | A step that eats nothing, growing or not, keeps the apple population |
| SnakeInvariants.TickKeeps | user/snake.c:233-247 | Every surviving tick keeps invariant and population |
| SnakeInvariants.InitDistinct | user/snake_game/snake_model.c:207-214 | The initial body is free of repetition if and only if it is no longer than the field in its direction |
| SnakeInvariants.ObstaclesToReaches | user/snake_game/snake_model.c:240-252 | Placing obstacles reaches its target while there is room |
| SnakeInvariants.NewGameExactly | user/snake.c:59-72 | A new game is coherent, settled and populated, with ten obstacles, if and only if its length is at least two and at most the side of the field |
| SnakeRuns.TickLedger | user/snake_game/snake_model.c:297-300 | Length plus pending growth equals initial length plus score, across every tick |
| SnakeRuns.RunKeeps | user/snake.c:223-251 | After any run: invariant, population, ledger, fewer growth points than body cells, and no counter near its range |
| SnakeRuns.OneCellNeverGrows | user/snake_game/snake_model.c:332-335 | A snake of one cell stays so over every run |
| SnakeRuns.GrowsAtAll | user/snake.c:223-251 | A snake that has eaten as many apples as it had cells has grown if and only if it had two cells or more |
| SnakeRuns.CountdownNow | user/snake_game/snake_model.c:332-335 | The countdown of a meal is 1 exactly when it is the oldest and the snake grows next |
| SnakeRuns.CountdownTick | user/snake_game/snake_model.c:332-355 | Each tick counts every pending meal down by one |
| SnakeRuns.GrowsOnTime | snake.md:13 | A meal at index j with k meals before it makes the snake grow on surviving step length+k-1-j, not before, and none is skipped |
| SnakeInput.EnqueueKeeps | user/snake_game/snake_input.c:10-33 | An accepted turn is neither the direction it follows nor its opposite |
| SnakeInput.PollKeeps | user/snake_game/snake_input.c:67-126 | No sequence of key events breaks that, or changes the committed direction |
| SnakeInput.PollPending | user/snake_game/snake_input.c:67-126 | An action is pending exactly when it was before or some event asks for it; A and D also ask for fewer and more apples |
| SnakeInput.PollHeld | user/snake_game/snake_input.c:67-126 | A key is held exactly when its last event is a press |
| SnakeInput.PressesQueue | user/snake_game/snake_input.c:10-33 | Every real turn that is pressed is queued, in order, while there is room for eight |
| SnakeInput.PopKeeps | user/snake_game/snake_input.c:128-141 | Popping commits a real turn and leaves a queue of real turns |
| SnakeInput.Input.Init | user/snake_game/snake_input.c:58-65 | An empty, enabled queue with the given direction committed |
| SnakeInput.Input.EnqueueTurn | user/snake_game/snake_input.c:10-33 | A turn is accepted if and only if turns are, fewer than eight are queued and it is neither the last direction nor its reverse; then it is appended, else nothing changes |
| SnakeInput.Input.PollEvents | user/snake_game/snake_input.c:67-126 | The event loop implements the fold over events, and reports their number or a failing call |
| SnakeInput.Input.HandleEvent | user/snake_game/snake_input.c:80-124 | One event, pressed or released, does what the rule for it says |
| SnakeInput.Input.IsHeld | user/snake_game/snake_input.c:143-145 | Reports whether a key is held |
| SnakeInput.Input.PopTurn | user/snake_game/snake_input.c:128-141 | Takes the oldest turn, if any, and commits it |
| SnakeInput.Input.PressAndPop | user/snake_game/snake_input.c:10-141 | Up to eight real turns that are pressed come out again, all and in order |
| SnakeInput.Input.TakeAction | user/snake_game/snake_input.c:147-151 | Reports and clears one pending action |
| SnakeInput.Input.SetTurnQueueEnabled | user/snake_game/snake_input.c:153-159 | Disabling empties the queue |
| SnakeInput.Input.ClearTurnQueue | user/snake_game/snake_input.c:161-164 | Empties the queue |
| SnakeRender.PictureTells | user/snake_game/snake_render.c:243-265 | A tile of the full picture tells exactly what lies on its cell |
| SnakeRender.Screen.RenderFull | user/snake_game/snake_render.c:243-265 | Every cell shows what lies on it, ends above body above apples above obstacles |
| SnakeRender.Screen.RenderStep | user/snake_game/snake_render.c:286-301 | Every cell shows what the drawing order of a step makes of it |
| SnakeRender.IncrementalIsFull | user/snake_game/snake_render.c:286-301 | On every cell, drawing a step over a full picture with at most one stale cell gives the full new picture, except for an apple on the cell the tail left; earlier staleness is repaired |
| SnakeRender.StaleExactly | user/snake_game/snake_render.c:286-301 | After drawing a step the whole picture is right if and only if no apple was put on that cell |
| SnakeRender.StaleWhen | user/snake.c:233-247 | An apple is put there if and only if the snake eats and that is the cell picked |
| StaleExample.TheGame | user/snake.c:59-72 | The whole layout that the seed 101213 gives: ten obstacles and five apples, pick by pick |
| StaleExample.StaleHappens | user/snake.c:243-247 | The first tick of that game to the right puts an apple on the cell that the tail left |
| SnakeGame.FillApples | user/snake.c:53-57 | The loop fills up to the effective target and terminates |
| SnakeGame.NoReversal | user/snake.c:224-233 | No tick steps onto the second body cell |
| SnakeGame.ResetModel | user/snake.c:63-66 | Builds the new game |
| SnakeGame.TickModel | user/snake.c:233-246 | Step, eat and refill as the rules say, or no change |
| SnakeSession.TicksAdd | user/snake.c:223-251 | Ticks in two batches are ticks in one |
| SnakeSession.FramesMerge | user/snake.c:110-267 | How ticks are spread over frames without keys and failures makes no difference, also when the snake dies between |
| SnakeSession.ConfirmLingers | user/snake.c:166-179 | After a game ends, a frame without keys starts a new one if and only if Enter was pressed before |
| SnakeLaws.TickTurns | user/snake.c:223-251 | A tick takes the oldest queued turn, if any, and moves the head that way; a crash ends the game and changes nothing else |
| SnakeLaws.TicksAreRun | user/snake.c:223-251 | n ticks are a run in the queued turns, in order, and then straight on |
| SnakeLaws.QuitEnds | user/snake.c:118-121 | The program ends with code 0 if and only if Q is waiting |
| SnakeLaws.FailureEnds | user/snake.c:112-267 | ... and with code 1 if and only if a call made in this frame fails |
| SnakeLaws.StartKeys | user/snake.c:125-183 | What the keys do in the menu and after a game: the number of apples, and a new game with R or Enter |
| SnakeLaws.RestartKey | user/snake.c:186-194 | R during a game starts a new one |
| SnakeLaws.PauseFrame | user/snake.c:196-251 | P changes between paused and running; a paused snake does not move, a running one makes its steered ticks |
| SnakeLaws.PauseRun | user/snake.c:110-267 | Over any frames with no key but P, the game is paused exactly when the number of frames with P says so |
| SnakeGame.Game.constructor | user/snake.c:90-97 | The program starts in the menu |
| SnakeGame.Game.ResetGame | user/snake.c:59-72 | Model and input start afresh and agree on the direction, whatever was there before |
| SnakeGame.Game.StartGame | user/snake.c:74-78 | ... with a complete picture |
| SnakeGame.Game.TogglePause | user/snake.c:196-208 | Paused becomes running and running paused; pausing empties and closes the turn queue, resuming opens it; the model and the committed direction stay, and the picture is complete |
| SnakeGame.Game.TickOnce | user/snake.c:223-251 | One tick takes the oldest queued turn, if any, and moves the head that way, never onto the neck; a crash ends the game and leaves the model; the one cell that may be stale is as the rules say |
| SnakeGame.Game.RunFrame | user/snake.c:110-267 | In every phase, one iteration does what the rules say for its events, ticks and failing calls, ends the program when they say, and keeps the program invariant |
| SnakeGame.Game.Play | user/snake.c:110-267 | Every run ends as the rules say, with the program invariant |
| KString.Kmemmove | lib/string.c:3-16 | The destination receives the old source, however they overlap; nothing else changes |
| Terminal.PutConcat | drivers/vga.c:105-120 | Printing two strings is printing their concatenation |
| Terminal.PutInWindow | drivers/vga.c:105-120 | The cursor stays inside the 25 rows |
| Terminal.PutPlain | drivers/vga.c:105-120 | Text without newlines appears as it is |
| Terminal.PutNewline | drivers/vga.c:105-120 | A newline fills its row with blanks |
| Terminal.PutIsWindow | drivers/vga.c:97-120 | The text is that of a terminal without scrolling, and the window stands no lower than its last 25 rows demand |
| Terminal.BackspaceUndoes | drivers/vga.c:86-95 | Backspace takes back a typed character, also across a scroll |
| Terminal.SessionNext | drivers/vga.c:86-120 | A session is its operations one after the other |
| Terminal.Vga.SetCursor | drivers/vga.c:48-61 | The two cursor bytes hold the offset modulo 2^16 |
| Terminal.Vga.ClearScreen | drivers/vga.c:79-84 | An empty screen |
| Terminal.Vga.VgaBackspace | drivers/vga.c:86-95 | Takes back one cell of the terminal, unless at the top left of the window |
| Terminal.Vga.Scroll | drivers/vga.c:97-103 | The window moves one row down the terminal |
| Terminal.Vga.PrintString | drivers/vga.c:105-120 | Video memory shows the window of the terminal with the text written on it; cells behind the cursor are blank |
| Terminal.Vga.RunSession | drivers/vga.c:86-120 | The same after any sequence of prints and backspaces |
| FsImage.EntryRoundTrip | fs/fs.h:25-35 | Every directory entry survives its 32 bytes |
| FsImage.BasenameSuffix | tools/mkfs.c:6-12 | The base name is the part of the path behind its last slash |
| FsImage.Strncmp | lib/string.c:18-28 | Zero exactly when the strings agree up to the first terminator or the limit |
| FsImage.NameMatches | tools/mkfs.c:63-64 | A stored name is found under a name exactly when that is the stored name cut to 19 characters |
| FsImage.ExtentsDisjoint | tools/mkfs.c:33-54 | No two files share a sector, and none uses the directory's |
| FsImage.AppendFile | tools/mkfs.c:47-54 | A file is appended in whole sectors and counted exactly |
| FsImage.ImageLaidOut | tools/mkfs.c:33-71 | One directory sector, then the files in order, each filled up to whole sectors, nothing between them or behind; each entry's offset, size and name at its bytes |
| FsImage.MkFs | tools/mkfs.c:14-79 | Exactly that image, and every file is where its entry says |
| FsImage.Stat | fs/fs.c:9-21 | The first entry with the name, or -1 if there is none |
| FsImage.ReadFile | fs/fs.c:26-39 | The file's bytes, as many as fit in whole sectors; none if rounding its size up wraps |
| FsImage.StoreAndLoad | fs/fs.c:9-39 | A file is found under its base name exactly when findable, and reading gives back its bytes |

## Left out

- Vm.MapPage: covers one page at a time, because the only caller passes PGSIZE; the loop of `mappages` over longer ranges is not modelled.
- Vm.Allocuvm: requires base and top at most KERNBASE and an unmapped range, which is what its callers pass; on other ranges the source panics or follows large kernel pages.
- Vm.SetupKvm: requires a free page, because the source uses the result of `kalloc` unchecked.
- Proc.Kernel.RunElf: requires room for the task page and the directory and an image below the stack; reading headers and saving registers are not modelled.
- Proc.Kernel.KillProc: the text-mode restoration that comes first is in `Display` and `Mirror`, not here.
- Display.Mode13.Store: a wider store is a sequence of these; a store outside the program's pages ends the program, as the exception does.
- SnakeInvariants.StepKeeps: needs at least one obstacle, which keeps the body below 640 cells; the game places ten.
- SnakeModel.Model.Step: requires a body without repeated cells, which `NewGameExactly` says when a game has; on others the occupancy grid does not match the body. Direction codes outside the enumeration, which the source rejects, do not occur in the model.
- SnakeInput.Input.PollEvents: keys arrive already decoded.
- SnakeGame.Game.RunFrame: how many ticks a frame has is an input, so pacing and the effect of the speed key are not modelled, nor is the picture of the menu.
- SnakeRender.Screen.RenderFull: tiles are opaque pictures; pixels, fonts, colours and panel layouts are not modelled.
- FsImage.MkFs: requires at most 15 files and fewer than 2^23 sectors, the limits of the directory and of 32-bit byte counts; errors of the host's file operations are not modelled.
- Terminal.Vga.PrintString: the spinner that another callback draws over the screen is not modelled.
- Wall-clock pacing, sound, the serial port, the disk controller, video mode registers, segment and interrupt tables, boot code and assembly are not part of this model.
- The 32-event keyboard ring and scancode tables: any sequence of decoded events is taken as input.
- The quality of the random generator: the results hold for every 32-bit value.
