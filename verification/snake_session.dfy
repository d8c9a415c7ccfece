/** The game program as a function of what the player does and the clock allows: the
    rules that the loop in user/snake.c follows, from menu to game over. */
module SnakeSession {
  import opened Field
  import opened SnakeRules
  import opened SnakeInvariants
  import opened SnakeInput
  import opened SnakeRender

  // Where the main loop shows the picture or sleeps.
  datatype Site = MenuPresent | StartPresent | OverPresent | FramePresent | Sleep

  // One iteration of the main loop: the events waiting, and whether fetching them fails;
  // the time, and how many ticks the clock allows; and which of the calls would fail.
  datatype Frame = Frame(events: seq<Event>, pollFails: bool, now: bv32, ticks: nat, failing: set<Site>)

  // Whether the program goes on, or ends with exit code 0 or 1.
  datatype Exit = Stay | Left | Failed

  // `stale` is the cell whose picture is out of date, if any.
  datatype World =
    | InMenu(target: nat, input: Turns)
    | InGame(target: nat, input: Turns, m: Snake, paused: bool, stale: Option<Cell>)
    | Over(target: nat, input: Turns, m: Snake)

  // The queue after the oldest turn, if any, was popped.
  function Popped(v: Turns): Turns {
    if v.queue == [] then v else v.(committed := v.queue[0], queue := v.queue[1..])
  }

  // The direction of the next tick.
  function TickDir(v: Turns, m: Snake): Dir {
    if v.queue == [] then m.dir else v.queue[0]
  }

  function Without(v: Turns, actions: set<Action>): Turns {
    v.(pending := v.pending - actions)
  }

  function WithInput(w: World, v: Turns): World { w.(input := v) }

  function Started(w: World, now: bv32): World {
    InGame(w.target, Turns(Right, true, [], {}, {}), NewGame(Right, 5, now, w.target), false, None)
  }

  function ExitIf(f: Frame, sites: set<Site>): Exit {
    if f.failing !! sites then Stay else Failed
  }

  // Start a game if one of the two keys for it was pressed, else sleep.
  function TryStart(w: World, f: Frame): (World, Exit) {
    if Restart in w.input.pending || Confirm in w.input.pending
    then (Started(w, f.now), ExitIf(f, {StartPresent}))
    else (w, ExitIf(f, {Sleep}))
  }

  // Do the menu keys change the number of apples?
  predicate MenuChanges(w: World) {
    var fewer := ApplesDec in w.input.pending && w.target > 1;
    fewer || (ApplesInc in w.input.pending && (if fewer then w.target - 1 else w.target) < 16)
  }

  // The menu keys change the number of apples, between 1 and 16.
  function Adjusted(w: World): World {
    var fewer := if ApplesDec in w.input.pending && w.target > 1 then w.target - 1 else w.target;
    w.(target := if ApplesInc in w.input.pending && fewer < 16 then fewer + 1 else fewer,
       input := Without(w.input, {ApplesDec, ApplesInc}))
  }

  // Pausing forgets the queued turns; the picture is drawn anew either way.
  function Toggled(w: World): World
    requires w.InGame?
  {
    w.(paused := !w.paused, stale := None,
       input := w.input.(enabled := w.paused, queue := if w.paused then w.input.queue else []))
  }

  // The world after snake m has moved in direction d.
  function Moved(m: Snake, d: Dir, target: nat, v: Turns): World {
    if m.body == [] || Crashes(m, d) then Over(target, v, m)
    else
      var n := Tick(m, d, target);
      InGame(target, v, n, false, NewStale(n, TailOf(m)))
  }

  function Ticked(w: World): World
    requires w.InGame?
  {
    Moved(w.m, TickDir(w.input, w.m), w.target, Popped(w.input))
  }

  function Ticks(w: World, n: nat): World
    decreases n
  {
    if n == 0 || !w.InGame? || w.paused then w else Ticks(Ticked(w), n - 1)
  }

  // Pause or resume if P was pressed.
  function Paused(w: World): World
    requires w.InGame?
  {
    if PauseToggle !in w.input.pending then w else Toggled(WithInput(w, Without(w.input, {PauseToggle})))
  }

  function GameFrame(w: World, f: Frame): (World, Exit)
    requires w.InGame?
  {
    if Restart in w.input.pending then (Started(w, f.now), ExitIf(f, {StartPresent}))
    else
      var n := Ticks(Paused(w), f.ticks);
      (n, ExitIf(f, {FramePresent, Sleep} + if n.Over? then {OverPresent} else {}))
  }

  // One iteration, and whether it ends the program.
  function OnFrame(w0: World, f: Frame): (World, Exit) {
    var w := WithInput(w0, Poll(w0.input, f.events));
    if f.pollFails then (w, Failed)
    else if Quit in w.input.pending then (WithInput(w, Without(w.input, {Quit})), Exit.Left)
    else
      match w
      case InMenu(_, _) =>
        if MenuChanges(w) && MenuPresent in f.failing then (Adjusted(w), Failed) else TryStart(Adjusted(w), f)
      case Over(_, _, _) => TryStart(w, f)
      case InGame(_, _, _, _, _) => GameFrame(w, f)
  }

  function Session(w: World, frames: seq<Frame>): (World, Exit)
    decreases |frames|
  {
    if frames == [] then (w, Stay)
    else
      var (n, exit) := OnFrame(w, frames[0]);
      if exit == Stay then Session(n, frames[1..]) else (n, exit)
  }

  lemma {:induction false} TicksAdd(w: World, a: nat, b: nat)
    ensures Ticks(Ticks(w, a), b) == Ticks(w, a + b)
    decreases a
  {
    hide Ticked;
    if a > 0 && w.InGame? && !w.paused {
      TicksAdd(Ticked(w), a - 1, b);
    }
  }

  // Ticks take no action and never lead to the menu.
  lemma {:induction false} TicksKeep(w: World, n: nat)
    requires !w.InMenu?
    ensures var x := Ticks(w, n); !x.InMenu? && x.input.pending == w.input.pending && x.target == w.target
    decreases n
  {
    if n > 0 && w.InGame? && !w.paused {
      TicksKeep(Ticked(w), n - 1);
    }
  }

  // No key is pressed and nothing fails.
  predicate Quiet(f: Frame) {
    f.events == [] && !f.pollFails && f.failing == {}
  }

  lemma OneFrame(w: World, f: Frame)
    ensures Session(w, [f]) == OnFrame(w, f)
  {
    hide OnFrame;
    assert Session(OnFrame(w, f).0, [f][1..]) == (OnFrame(w, f).0, Stay);
  }

  // A frame without keys only runs ticks.
  lemma QuietFrame(w: World, f: Frame)
    requires !w.InMenu? && Quiet(f) && w.input.pending !! {Quit, Restart, PauseToggle, Confirm}
    ensures OnFrame(w, f) == (Ticks(w, f.ticks), Stay)
  {
    hide Ticked, Toggled, Started;
  }

  /** How the ticks fall on frames makes no difference: without waiting keys, two frames
      do what one frame with the ticks of both does, also when the snake dies between. */
  lemma FramesMerge(w: World, f: Frame, g: Frame, h: Frame)
    requires w.InGame? && w.input.pending !! {Quit, Restart, PauseToggle, Confirm}
    requires Quiet(f) && Quiet(g) && Quiet(h) && h.ticks == f.ticks + g.ticks
    ensures Session(w, [f, g]) == Session(w, [h])
  {
    hide Ticks, Ticked, Toggled, Started;
    var x := Ticks(w, f.ticks);
    TicksKeep(w, f.ticks);
    TicksAdd(w, f.ticks, g.ticks);
    QuietFrame(w, f);
    QuietFrame(x, g);
    QuietFrame(w, h);
    OneFrame(x, g);
    OneFrame(w, h);
    assert [f, g][1..] == [g];
    hide OnFrame;
  }

  /** Enter pressed during a game is not forgotten: after the frame in which the game
      ends, a frame without any further key starts a new one if and only if Enter was
      pressed before. */
  lemma ConfirmLingers(w: World, f: Frame, g: Frame)
    requires w.InGame? && OnFrame(w, f).0.Over? && g.events == [] && !g.pollFails
    ensures OnFrame(OnFrame(w, f).0, g).0 ==
      if Confirm in Poll(w.input, f.events).pending then Started(w, g.now) else OnFrame(w, f).0
    ensures OnFrame(OnFrame(w, f).0, g).0.InGame? <==> Confirm in Poll(w.input, f.events).pending
  {
    hide Ticks, Ticked;
    TicksKeep(Paused(WithInput(w, Poll(w.input, f.events))), f.ticks);
  }
}
