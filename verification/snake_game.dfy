/** The game loop (user/snake.c): model, input queue and picture working together, over
    every sequence of key events, pauses, restarts and ticks. */
module SnakeGame {
  import opened Field
  import opened SnakeRules
  import opened SnakeInvariants
  import opened SnakeRuns
  import opened SnakeModel
  import opened SnakeInput
  import opened SnakeRender
  import opened SnakeSession
  import opened SnakeLaws
  import opened Rings

  datatype Phase = Menu | Playing | GameOver

  // What holds of the model at the start of every tick.
  ghost predicate GoodModel(m: Snake, target: nat) {
    Coherent(m) && Settled(m) && Populated(m, target) && Ledger(m, 5)
  }

  lemma ReverseTwice(d: Dir, e: Dir)
    ensures e == Reverse(d) <==> d == Reverse(e)
    ensures d != Reverse(d)
  {
  }

  /** The direction of a tick is never back onto the neck: with the committed direction
      equal to the model's, neither going on nor taking a queued turn leads to the
      second body cell. */
  lemma NoReversal(m: Snake, v: Turns, d: Dir)
    requires Coherent(m) && TurnsOk(v) && v.committed == m.dir
    requires d == TickDir(v, m)
    ensures !IsOpposite(d, m.dir) && Next(m.body[0], d) != m.body[1]
  {
    if v.queue != [] {
      assert RealTurn(Before(v, 0), v.queue[0]);
    }
    OppositeIsReverse(d, m.dir);
    OppositeIsReverse(m.dir, m.dir);
    var neck := m.body[1];
    assert InField(neck) && m.body[0] == Next(neck, m.dir);
    hide IsOpposite, Next, Coherent, TurnsOk;
    Neighbours(neck, m.dir, d);
    ReverseTwice(d, m.dir);
  }

  /** snake_fill_apples */
  method FillApples(model: Model, requested: nat)
    requires model.Valid()
    modifies model`rng, model`appleCount, model.apples
    ensures model.Valid() && model.View() == Fill(old(model.View()), requested)
  {
    hide Pick;
    ghost var m := model.View();
    var room := 640 - model.length - model.obstacleCount;
    if room < 0 {
      room := 0;
    }
    var most := 16;
    if room < most {
      most := room;
    }
    var target := if requested > most then most else requested;
    assert target == EffectiveTarget(m, requested);
    while model.appleCount < target
      invariant model.Valid() && FillTo(model.View(), target) == FillTo(m, target)
      decreases target - model.appleCount
    {
      var ok := model.SpawnApple();
      if !ok {
        assert FillTo(m, target) == model.View();
        return;
      }
    }
  }

  // The model's part of a tick: step, and if that went well, eat and refill.
  method TickModel(model: Model, d: Dir, target: nat) returns (ok: bool)
    requires model.Valid() && Distinct(model.body[..model.length])
    modifies model, model.body, model.occupancy, model.apples, model.growth
    ensures model.Valid()
    ensures ok <==> !Crashes(old(model.View()), d)
    ensures model.View() == if ok then Tick(old(model.View()), d, target) else old(model.View())
  {
    hide Ring, Model.Marks, Model.OnField, Distinct, Crashes, Advance, Consume, Fill;
    ok := model.Step(d);
    if ok {
      ConsumeNothing(model.View());
      var ate := model.TryConsumeApple();
      if ate {
        FillApples(model, target);
      }
    }
  }

  lemma GoodTick(m: Snake, d: Dir, target: nat)
    requires GoodModel(m, target) && !Crashes(m, d)
    ensures var n := Tick(m, d, target);
      GoodModel(n, target) && n.dir == d && StaleOk(n, NewStale(n, TailOf(m)))
  {
    TickKeeps(m, d, target);
    TickLedger(m, d, target, 5);
    TickBody(m, d, target);
    hide Coherent, Settled, Populated, Ledger, Tick, Crashes;
  }

  lemma PictureFollows(m: Snake, d: Dir, target: nat, stale: Option<Cell>)
    requires GoodModel(m, target) && !Crashes(m, d) && StaleOk(m, stale)
    ensures var n := Tick(m, d, target);
      forall c :: StepTile(StaleTile(m, stale, c), n, HeadOf(m), TailOf(m), c) ==
        StaleTile(n, NewStale(n, TailOf(m)), c)
  {
    hide Tick, Crashes, StaleOk, StepTile, StaleTile, NewStale;
    forall c ensures var n := Tick(m, d, target);
      StepTile(StaleTile(m, stale, c), n, HeadOf(m), TailOf(m), c) == StaleTile(n, NewStale(n, TailOf(m)), c)
    {
      IncrementalIsFull(m, d, target, stale, c);
    }
  }

  // The part of snake_reset_game that concerns the model.
  method ResetModel(model: Model, initialDir: Dir, length: nat, now: bv32, target: nat)
    requires model.Shape()
    modifies model, model.body, model.occupancy, model.obstacleMap, model.obstacles, model.apples
    ensures model.Valid() && model.View() == NewGame(initialDir, ClampLength(length), now, target)
  {
    hide Ring, Model.Marks, Model.OnField, InitBody, ObstaclesTo, Fill;
    model.InitCenter(initialDir, length);
    model.SeedRandom(now);
    assert model.View() == InitSnake(initialDir, ClampLength(length), if now == 0 then 0xA341_316C else now);
    assert model.View().(obstacles := []) == model.View();
    model.InitRandomObstacles(10);
    FillApples(model, target);
  }

  // Whether turns are accepted has no bearing on the queued ones.
  lemma SameTurnsEnabled(v: Turns, w: Turns)
    requires TurnsOk(v) && w.committed == v.committed && (w.queue == v.queue || w.queue == [])
    ensures TurnsOk(w)
  {
    assert w.queue == v.queue ==> forall i :: 0 <= i < |w.queue| ==> Before(w, i) == Before(v, i);
  }

  lemma NoTurns(v: Turns)
    requires v.queue == []
    ensures TurnsOk(v)
  {
  }

  lemma GoodStart(d: Dir, now: bv32, target: nat)
    ensures GoodModel(NewGame(d, 5, now, target), target) && NewGame(d, 5, now, target).dir == d
  {
    NewGameKeeps(d, 5, now, target);
  }

  lemma EndsCached(model: Model)
    requires model.Valid()
    ensures model.head == HeadOf(model.View()) && model.tail == TailOf(model.View())
  {
  }

  lemma GoodBody(m: Snake, target: nat)
    requires GoodModel(m, target)
    ensures |m.body| >= 2
  {
  }

  lemma GoodInField(m: Snake, target: nat)
    requires GoodModel(m, target)
    ensures CellsInField(m) && Distinct(m.body) && |m.body| >= 2
  {
  }

  class Game {
    const model: Model
    const input: Input
    const screen: Screen
    var phase: Phase
    var alive: bool
    var paused: bool
    var target: nat
    ghost var stale: Option<Cell>    // the cell whose picture is out of date, if any

    ghost function Repr(): set<object> {
      {this, model, model.apples, model.obstacles, model.growth, model.body, model.occupancy, model.obstacleMap,
       input, input.turnQueue, screen, screen.tiles}
    }

    ghost predicate Ready()
      reads Repr()
    {
      model.Shape() && input.Valid() && screen.Valid() && TurnsOk(input.View()) && 1 <= target <= 16
    }

    // The model, the committed direction and the picture agree.
    ghost predicate InPlay()
      reads Repr()
      ensures InPlay() ==> Ready() && alive
    {
      && Ready() && alive && model.Valid() && GoodModel(model.View(), target)
      && input.committedDir == model.dir && input.turnQueueEnabled == !paused
      && StaleOk(model.View(), stale) && screen.Shows(model.View(), stale)
      && (paused ==> stale == None && input.queueSize == 0)
      && screen.overlay == if paused then PausePanel(model.score) else ScoreText(model.score)
    }

    ghost predicate Ended()
      reads Repr()
      ensures Ended() ==> Ready() && !alive
    {
      && Ready() && !alive && model.Valid() && GoodModel(model.View(), target)
      && screen.Shows(model.View(), None) && screen.overlay == GameOverPanel(model.score)
    }

    /** The invariant of the program. */
    ghost predicate Inv()
      reads Repr()
      ensures Inv() ==> input.Valid() && (phase != Menu ==> model.Bounded())
    {
      match phase
      case Menu => Ready()
      case Playing => InPlay()
      case GameOver => Ended()
    }

    // What the rules say about: everything but the arrays.
    ghost function World(): World
      requires Inv()
      reads Repr()
    {
      match phase
      case Menu => InMenu(target, input.View())
      case Playing => InGame(target, input.View(), model.View(), paused, stale)
      case GameOver => Over(target, input.View(), model.View())
    }

    constructor ()
      ensures Inv() && fresh(Repr()) && World() == InMenu(5, Turns(Right, true, [], {}, {}))
    {
      model := new Model();
      input := new Input(Right);
      screen := new Screen();
      phase, alive, paused, target, stale := Menu, false, false, 5, None;
      new;
      screen.RenderMenu(target);
    }

    /** snake_reset_game for the initial length of five. */
    method ResetGame(initialDir: Dir, now: bv32)
      requires Ready()
      modifies Repr()
      ensures Ready() && alive && !paused && target == old(target)
      ensures model.dir == initialDir && input.View() == Turns(initialDir, true, [], {}, {})
      ensures model.Valid() && model.View() == NewGame(initialDir, 5, now, target) && GoodModel(model.View(), target)
    {
      hide Ring, Model.Marks, Model.OnField, TurnsOk, NewGame, GoodModel;
      input.Init(initialDir);
      NoTurns(input.View());
      ResetModel(model, initialDir, 5, now, target);
      GoodStart(initialDir, now, target);
      alive, paused := true, false;
    }

    /** snake_start_game */
    method StartGame(initialDir: Dir, now: bv32)
      requires Ready()
      modifies Repr()
      ensures Inv() && World() == InGame(old(target), Turns(initialDir, true, [], {}, {}),
                                         NewGame(initialDir, 5, now, old(target)), false, None)
    {
      hide Model.Valid, TurnsOk, NewGame, GoodModel, Screen.Shows, CellsInField, Distinct;
      ResetGame(initialDir, now);
      phase := Playing;
      stale := None;
      GoodInField(model.View(), target);
      screen.RenderFull(model);
    }

    // The snake has crashed.
    method EndGame()
      requires Ready() && model.Valid() && GoodModel(model.View(), target)
      modifies this`alive, this`phase, screen, screen.tiles
      ensures Ended() && phase == GameOver && model.View() == old(model.View())
    {
      hide Model.Valid, GoodModel, TurnsOk, Screen.Shows, CellsInField, Distinct;
      alive := false;
      phase := GameOver;
      GoodInField(model.View(), target);
      screen.RenderGameOver(model);
    }

    // The direction of the next tick.
    method ChooseDir() returns (d: Dir)
      requires InPlay()
      modifies input`queueHead, input`queueSize, input`committedDir
      ensures var m := model.View(); d == TickDir(old(input.View()), m) && Next(m.body[0], d) != m.body[1]
      ensures input.Valid() && input.View() == Popped(old(input.View()))
      ensures TurnsOk(input.View()) && input.committedDir == d
      ensures input.turnQueueEnabled == old(input.turnQueueEnabled)
    {
      hide Ring, Model.Marks, Model.OnField, Coherent, TurnsOk, Screen.Shows, StaleOk,
        Next, IsOpposite, Populated, Ledger;
      ghost var v := input.View();
      d := model.dir;
      var popped, queuedDir := input.PopTurn();
      if popped {
        d := queuedDir;
        PopKeeps(v);
      }
      NoReversal(model.View(), v, d);
    }

    // Draw a tick from m that the model has already made.
    method DrawTick(prevHead: Cell, prevTail: Cell, ghost m: Snake, ghost d: Dir, ghost stale0: Option<Cell>)
      requires model.Valid() && screen.Valid() && CellsInField(model.View()) && CellsInField(m)
      requires GoodModel(m, target) && !Crashes(m, d) && StaleOk(m, stale0) && screen.Shows(m, stale0)
      requires model.View() == Tick(m, d, target) && prevHead == HeadOf(m) && prevTail == TailOf(m)
      modifies this`stale, screen, screen.tiles
      ensures stale == NewStale(model.View(), prevTail) && screen.Shows(model.View(), stale)
      ensures screen.overlay == ScoreText(model.score)
    {
      hide Model.Valid, Crashes, Tick, StaleOk, NewStale, StaleTile, StepTile, CellsInField;
      GoodBody(m, target);
      EndsInField(m);
      stale := NewStale(model.View(), prevTail);
      screen.RenderStep(model, prevHead, prevTail);
      PictureFollows(m, d, target, stale0);
    }

    // Between choosing a direction and moving: as in play, but the committed direction is
    // already the new one.
    ghost predicate Chosen(d: Dir)
      reads Repr()
      ensures Chosen(d) ==> input.Valid() && model.Bounded()
    {
      && Ready() && phase == Playing && alive && !paused && model.Valid() && GoodModel(model.View(), target)
      && input.committedDir == d && input.turnQueueEnabled
      && StaleOk(model.View(), stale) && screen.Shows(model.View(), stale)
    }

    // The rest of a tick.
    method Move(d: Dir)
      requires Chosen(d)
      modifies this`phase, this`alive, this`stale, model, model.body, model.occupancy, model.apples, model.growth,
               screen, screen.tiles
      ensures Inv() && World() == Moved(old(model.View()), d, target, input.View())
    {
      hide Model.Valid, GoodModel, TurnsOk, Crashes, Tick, Screen.Shows,
        StaleOk, NewStale, Distinct, Next, CellsInField, Ended;
      ghost var m, stale0 := model.View(), stale;
      GoodInField(m, target);
      EndsCached(model);
      var prevHead, prevTail := model.head, model.tail;
      var ok := TickModel(model, d, target);
      if !ok {
        EndGame();
      } else {
        GoodTick(m, d, target);
        GoodInField(model.View(), target);
        DrawTick(prevHead, prevTail, m, d, stale0);
      }
    }

    /** One tick.  It moves in the oldest queued direction, or straight on; it never
        turns the head back onto the neck; and it leaves the model as the rules say, with
        the picture up to date except for an apple on the cell that the tail left. */
    method TickOnce()
      requires InPlay() && phase == Playing && !paused
      modifies Repr()
      ensures Inv() && phase != Menu && World() == Ticked(old(World()))
      ensures var m, v := old(model.View()), old(input.View());
        var d := if v.queue == [] then m.dir else v.queue[0];
        && Next(m.body[0], d) != m.body[1]
        && input.View() == (if v.queue == [] then v else v.(committed := d, queue := v.queue[1..]))
        && if Crashes(m, d) then phase == GameOver && model.View() == m
           else phase == Playing && model.dir == d && model.View().body[0] == Next(m.body[0], d)
    {
      hide Model.Valid, GoodModel, TurnsOk, Crashes, Tick, Screen.Shows, StaleOk, NewStale, Next, Model.Shape;
      ghost var m := model.View();
      GoodBody(m, target);
      var d := ChooseDir();
      Move(d);
      if !Crashes(m, d) {
        TickHead(m, d, target);
      }
    }

    method Redraw()
      requires model.Valid() && screen.Valid() && GoodModel(model.View(), target)
      modifies screen, screen.tiles
      ensures screen.Shows(model.View(), None)
      ensures screen.overlay == if paused then PausePanel(model.score) else ScoreText(model.score)
    {
      hide GoodModel, Screen.Shows, CellsInField, Distinct, Model.Valid;
      GoodInField(model.View(), target);
      if paused {
        screen.RenderPause(model);
      } else {
        screen.RenderFull(model);
      }
    }

    // Turns are accepted only while the game runs; pausing forgets the queued ones.
    method SetPause(enabled: bool)
      requires input.Valid() && TurnsOk(input.View())
      modifies input`turnQueueEnabled, input`queueHead, input`queueSize
      ensures input.Valid() && TurnsOk(input.View()) && input.committedDir == old(input.committedDir)
      ensures input.turnQueueEnabled == enabled && (!enabled ==> input.queueSize == 0)
      ensures var v := old(input.View());
        input.View() == v.(enabled := enabled, queue := if enabled then v.queue else [])
    {
      hide Ring, TurnsOk;
      ghost var v := input.View();
      input.SetTurnQueueEnabled(enabled);
      if !enabled {
        input.ClearTurnQueue();
      }
      SameTurnsEnabled(v, input.View());
    }

    // P pressed: pausing empties the turn queue and covers the picture, resuming redraws it.
    method TogglePause()
      requires InPlay() && phase == Playing
      modifies Repr()
      ensures Inv() && World() == Toggled(old(World()))
      ensures phase == Playing && paused == !old(paused) && input.turnQueueEnabled == !paused
      ensures model.View() == old(model.View()) && input.committedDir == old(input.committedDir)
      ensures input.View().queue == if paused then [] else old(input.View().queue)
    {
      hide Ring, GoodModel, Screen.Shows, CellsInField, TurnsOk, Distinct, Model.Valid, Model.Shape, Input.View, Ended;
      paused := !paused;
      SetPause(!paused);
      Redraw();
      stale := None;
    }

    // As many ticks as the clock allows.
    method RunTicks(ticks: nat)
      requires InPlay() && phase == Playing
      modifies Repr()
      ensures Inv() && World() == Ticks(old(World()), ticks)
    {
      hide InPlay, Ended, Ready, Ticked;
      var left := ticks;
      while !paused && alive && left > 0
        invariant Inv() && (phase == Playing || phase == GameOver) && (alive <==> phase == Playing)
        invariant Ticks(World(), left) == Ticks(old(World()), ticks)
        decreases left
      {
        TickOnce();
        left := left - 1;
      }
    }

    // Handle the waiting key events: turns are queued, other keys become pending actions.
    method TakeEvents(events: seq<Event>, fails: bool) returns (processed: int)
      requires Inv()
      modifies input, input.turnQueue
      ensures Inv() && (processed < 0 <==> fails)
      ensures World() == WithInput(old(World()), Poll(old(World()).input, events))
    {
      hide Ring, Model.Marks, Model.OnField, GoodModel, StaleTile, TurnsOk, Poll;
      PollKeeps(input.View(), events);
      processed := input.PollEvents(events, fails);
    }

    method Take(a: Action) returns (isSet: bool)
      requires Inv()
      modifies input`pendingActions
      ensures Inv() && isSet == (a in old(World()).input.pending)
      ensures World() == if isSet then WithInput(old(World()), Without(old(World()).input, {a})) else old(World())
    {
      hide Ring, Model.Marks, Model.OnField, GoodModel, StaleTile, TurnsOk;
      ghost var v := input.View();
      isSet := input.TakeAction(a);
      SameTurnsEnabled(v, input.View());
    }

    // Start a game if one of the two keys for it was pressed, else sleep.
    method StartIfAsked(f: Frame) returns (exit: Exit)
      requires Inv()
      modifies Repr()
      ensures Inv() && (World(), exit) == TryStart(old(World()), f)
    {
      hide InPlay, Ended, Ready;
      var start := Take(Restart);
      if !start {
        start := Take(Confirm);
      }
      if start {
        StartGame(Right, f.now);
        return ExitIf(f, {StartPresent});
      }
      exit := ExitIf(f, {Sleep});
    }

    // The keys of the menu.
    method AdjustTarget() returns (changed: bool)
      requires Inv() && phase == Menu
      modifies this`target, input`pendingActions, screen, screen.tiles
      ensures Inv() && phase == Menu && World() == Adjusted(old(World())) && changed == MenuChanges(old(World()))
    {
      hide InPlay, Ended, TurnsOk, Ring, Model.Shape;
      changed := false;
      var dec := Take(ApplesDec);
      if dec && target > 1 {
        target := target - 1;
        changed := true;
      }
      var inc := Take(ApplesInc);
      if inc && target < 16 {
        target := target + 1;
        changed := true;
      }
      if changed {
        screen.RenderMenu(target);
      }
    }

    method PauseIfAsked()
      requires Inv() && phase == Playing
      modifies Repr()
      ensures Inv() && phase == Playing && World() == Paused(old(World()))
    {
      hide Ended, Ready;
      var toggle := Take(PauseToggle);
      if toggle {
        TogglePause();
      }
    }

    // ... while a game is on.
    method PlayFrame(f: Frame) returns (exit: Exit)
      requires Inv() && phase == Playing
      modifies Repr()
      ensures Inv() && (World(), exit) == GameFrame(old(World()), f)
    {
      hide InPlay, Ended, Ready, Ticks, Toggled, Model.View, Input.View;
      var restart := Take(Restart);
      if restart {
        StartGame(Right, f.now);
        return ExitIf(f, {StartPresent});
      }
      PauseIfAsked();
      RunTicks(f.ticks);
      exit := Stay;
      if phase == GameOver && OverPresent in f.failing {
        exit := Failed;
      }
      if exit == Stay && FramePresent in f.failing {
        exit := Failed;
      }
      if exit == Stay && Sleep in f.failing {
        exit := Failed;
      }
    }

    /** One iteration of the main loop. */
    method RunFrame(f: Frame) returns (exit: Exit)
      requires Inv()
      modifies Repr()
      ensures Inv() && (World(), exit) == OnFrame(old(World()), f)
    {
      hide InPlay, Ended, Ready, Ticks, Toggled, Adjusted, Poll, MenuChanges;
      var processed := TakeEvents(f.events, f.pollFails);
      if processed < 0 {
        return Failed;
      }
      var quit := Take(Quit);
      if quit {
        return Exit.Left;
      }
      if phase == Menu {
        var changed := AdjustTarget();
        if changed && MenuPresent in f.failing {
          return Failed;
        }
        exit := StartIfAsked(f);
      } else if phase == GameOver {
        exit := StartIfAsked(f);
      } else {
        exit := PlayFrame(f);
      }
    }

    /** The program: whatever the player and the clock do, the invariant holds at every
        iteration, and the game goes as the rules say. */
    method Play(frames: seq<Frame>) returns (exit: Exit)
      requires Inv()
      modifies Repr()
      ensures Inv() && (World(), exit) == Session(old(World()), frames)
    {
      hide Inv, World, OnFrame;
      exit := Stay;
      var i := 0;
      while i < |frames|
        invariant 0 <= i <= |frames| && Inv() && exit == Stay
        invariant Session(World(), frames[i..]) == Session(old(World()), frames)
      {
        assert frames[i..][1..] == frames[i + 1..];
        exit := RunFrame(frames[i]);
        if exit != Stay {
          return;
        }
        i := i + 1;
      }
    }
  }
}
