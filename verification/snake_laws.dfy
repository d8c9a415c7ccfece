/** What the player can rely on: turns steer the snake in order, P pauses and resumes, and
    the menu and restart keys do what they say.  These are laws about whole frames and
    runs of frames, in terms of the keys pressed and of the snake. */
module SnakeLaws {
  import opened Field
  import opened SnakeRules
  import opened SnakeInvariants
  import opened SnakeRuns
  import opened SnakeInput
  import opened SnakeSession

  // ----- steering ------------------------------------------------------------

  // The direction of tick i: the queued turns in order, then straight on.
  function Steer(queue: seq<Dir>, dir: Dir, i: nat): Dir {
    if i < |queue| then queue[i] else if queue == [] then dir else queue[|queue| - 1]
  }

  function Steering(queue: seq<Dir>, dir: Dir, n: nat): (s: seq<Dir>)
    ensures |s| == n
  {
    seq(n, i requires 0 <= i => Steer(queue, dir, i))
  }

  // The turns left after n ticks.
  function TurnsLeft(v: Turns, n: nat): Turns {
    var k := if n < |v.queue| then n else |v.queue|;
    if k == 0 then v else v.(committed := v.queue[k - 1], queue := v.queue[k..])
  }

  lemma SteeringRest(queue: seq<Dir>, dir: Dir, n: nat)
    requires n > 0
    ensures var d := Steer(queue, dir, 0);
      && Steering(queue, dir, n)[0] == d
      && Steering(queue, dir, n)[1..] == Steering(if queue == [] then [] else queue[1..], d, n - 1)
  {
    var d, rest := Steer(queue, dir, 0), if queue == [] then [] else queue[1..];
    forall i: nat ensures Steer(queue, dir, i + 1) == Steer(rest, d, i) {
    }
  }

  lemma LeftRest(v: Turns, w: Turns, n: nat)
    requires n > 0
    requires w == if v.queue == [] then v else v.(committed := v.queue[0], queue := v.queue[1..])
    ensures TurnsLeft(v, n) == TurnsLeft(w, n - 1)
  {
    if v.queue != [] && n > 1 {
      var k := if n < |v.queue| then n else |v.queue|;
      assert v.queue[1..][k - 1..] == v.queue[k..];
    }
  }

  // The head moves in the direction of the tick, which becomes the snake's direction.
  lemma TickHead(m: Snake, d: Dir, requested: nat)
    requires m.body != [] && !Crashes(m, d)
    ensures var n := Tick(m, d, requested);
      n.dir == d && n.body != [] && n.body[0] == Next(m.body[0], d)
  {
    var n := Advance(m, d);
    if Eats(n) {
      FillSnake(Consume(n), EffectiveTarget(Consume(n), requested));
    }
    hide Crashes, Eats, FillTo;
  }

  /** One tick of a running game: it takes the oldest turn, if there is one, and moves the
      head that way; a crash ends the game and changes nothing else. */
  lemma TickTurns(w: World)
    requires w.InGame? && !w.paused && w.m.body != []
    ensures var x, q := Ticks(w, 1), w.input.queue;
      var d := if q == [] then w.m.dir else q[0];
      var input := if q == [] then w.input else w.input.(committed := d, queue := q[1..]);
      if Crashes(w.m, d) then x == Over(w.target, input, w.m)
      else
        && x.InGame? && !x.paused && x.target == w.target && x.input == input
        && x.m == Tick(w.m, d, w.target) && x.m.dir == d && x.m.body != []
        && x.m.body[0] == Next(w.m.body[0], d)
  {
    var d := if w.input.queue == [] then w.m.dir else w.input.queue[0];
    if !Crashes(w.m, d) {
      TickHead(w.m, d, w.target);
    }
    assert Ticks(Ticked(w), 0) == Ticked(w);
    hide Crashes, Tick, Next;
  }

  lemma NoTicks(w: World)
    ensures Ticks(w, 0) == w
    ensures w.InGame? ==> Steering(w.input.queue, w.m.dir, 0) == [] && TurnsLeft(w.input, 0) == w.input
  {
  }

  lemma TicksAfterEnd(x: World, n: nat)
    requires x.Over?
    ensures Ticks(x, n) == x
  {
  }

  /** n ticks are a run in the queued directions, then straight on: the game goes on if and
      only if that run does not crash, and then it has moved just so. */
  lemma {:induction false} TicksAreRun(w: World, n: nat)
    requires w.InGame? && !w.paused && w.m.body != []
    ensures var x, r := Ticks(w, n), Run(w.m, Steering(w.input.queue, w.m.dir, n), w.target);
      && (x.InGame? <==> r.Some?) && (x.InGame? || x.Over?)
      && (x.InGame? ==> !x.paused && x.m == r.value && x.m.body != [] && x.target == w.target
                        && x.input == TurnsLeft(w.input, n))
    decreases n
  {
    hide Steering, TurnsLeft, Crashes, Tick, Next;
    if n == 0 {
      NoTicks(w);
    } else {
      TickTurns(w);
      TicksAdd(w, 1, n - 1);
      SteeringRest(w.input.queue, w.m.dir, n);
      var x := Ticks(w, 1);
      if x.InGame? {
        LeftRest(w.input, x.input, n);
        TicksAreRun(x, n - 1);
      } else {
        TicksAfterEnd(x, n - 1);
      }
    }
  }

  // ----- keys ----------------------------------------------------------------

  // Is action a waiting once the events of frame f are in?
  predicate Waits(w: World, f: Frame, a: Action) {
    a in w.input.pending || exists i :: 0 <= i < |f.events| && Asks(f.events[i], a)
  }

  predicate NothingFails(f: Frame) { !f.pollFails && f.failing == {} }

  lemma WaitsIs(w: World, f: Frame, a: Action)
    ensures a in Poll(w.input, f.events).pending <==> Waits(w, f, a)
  {
    PollPending(w.input, f.events, a);
  }

  /** The program ends with code 0 if and only if Q is waiting. */
  lemma QuitEnds(w: World, f: Frame)
    ensures OnFrame(w, f).1 == Exit.Left <==> !f.pollFails && Waits(w, f, Quit)
  {
    hide Poll, Waits, Asks, Ticks, Paused, Started;
    WaitsIs(w, f, Quit);
  }

  // The number of apples after the menu keys: one less, one more, between 1 and 16; both
  // together undo each other, except that nothing is taken from one.
  function MenuTarget(target: nat, dec: bool, inc: bool): nat
    requires 1 <= target <= 16
  {
    if dec && inc then (if target == 1 then 2 else target)
    else if dec then (if target == 1 then 1 else target - 1)
    else if inc then (if target == 16 then 16 else target + 1)
    else target
  }

  /** In the menu and after a game, R or Enter starts a new game, with the snake of five
      cells heading right and the number of apples chosen; otherwise nothing but that
      number changes. */
  lemma StartKeys(w: World, f: Frame)
    requires !w.InGame? && 1 <= w.target <= 16 && NothingFails(f) && !Waits(w, f, Quit)
    ensures var (x, exit) := OnFrame(w, f);
      var dec, inc := Waits(w, f, ApplesDec), Waits(w, f, ApplesInc);
      var target := if w.InMenu? then MenuTarget(w.target, dec, inc) else w.target;
      && exit == Stay && x.target == target
      && if Waits(w, f, Restart) || Waits(w, f, Confirm)
         then x == InGame(target, Turns(Right, true, [], {}, {}), NewGame(Right, 5, f.now, target), false, None)
         else !x.InGame? && (x.InMenu? <==> w.InMenu?) && (x.Over? ==> x.m == w.m)
  {
    hide Poll, Waits, Asks, NewGame;
    WaitsIs(w, f, Quit);
    WaitsIs(w, f, Restart);
    WaitsIs(w, f, Confirm);
    WaitsIs(w, f, ApplesDec);
    WaitsIs(w, f, ApplesInc);
  }

  /** During a game, R starts a new one at once. */
  lemma RestartKey(w: World, f: Frame)
    requires w.InGame? && NothingFails(f) && !Waits(w, f, Quit) && Waits(w, f, Restart)
    ensures OnFrame(w, f) ==
      (InGame(w.target, Turns(Right, true, [], {}, {}), NewGame(Right, 5, f.now, w.target), false, None), Stay)
  {
    hide Poll, Waits, Asks, NewGame;
    WaitsIs(w, f, Quit);
    WaitsIs(w, f, Restart);
  }

  /** The program ends with code 1 if and only if a call that this frame makes fails: to
      fetch events, to show the menu after a change, to show a new game, to sleep, or to
      show a running or a finished game. */
  lemma FailureEnds(w: World, f: Frame)
    requires 1 <= w.target <= 16
    ensures var (x, exit) := OnFrame(w, f);
      var dec, inc := Waits(w, f, ApplesDec), Waits(w, f, ApplesInc);
      var changes := w.InMenu? && ((dec && w.target > 1) || (inc && (w.target < 16 || dec)));
      var starts := Waits(w, f, Restart) || (!w.InGame? && Waits(w, f, Confirm));
      var fails :=
        || (changes && MenuPresent in f.failing)
        || (if starts then StartPresent in f.failing else Sleep in f.failing)
        || (w.InGame? && !starts && (FramePresent in f.failing || (x.Over? && OverPresent in f.failing)));
      exit == Failed <==> f.pollFails || (!Waits(w, f, Quit) && fails)
  {
    hide Poll, Waits, Asks, NewGame, Ticks;
    WaitsIs(w, f, Quit);
    WaitsIs(w, f, Restart);
    WaitsIs(w, f, Confirm);
    WaitsIs(w, f, ApplesDec);
    WaitsIs(w, f, ApplesInc);
  }

  // ----- pausing -------------------------------------------------------------

  lemma StillPaused(u: World, n: nat)
    requires u.InGame? && u.paused
    ensures Ticks(u, n) == u
  {
  }

  /** A frame of a game without Q and R.  P changes between paused and running.  In a
      paused frame the snake does not move, and with P the queued turns are gone and no more
      are accepted; in a running one it makes its ticks, steered by the queued turns, and
      with P turns are accepted again. */
  lemma PauseFrame(w: World, f: Frame)
    requires w.InGame? && w.m.body != [] && NothingFails(f) && !Waits(w, f, Quit) && !Waits(w, f, Restart)
    ensures var (x, exit) := OnFrame(w, f);
      var p, v := Waits(w, f, PauseToggle), Poll(w.input, f.events);
      && exit == Stay && x.input.pending == v.pending - {PauseToggle}
      && if w.paused != p then
           && x.InGame? && x.paused && x.m == w.m && x.target == w.target && x.input.committed == v.committed
           && x.input.queue == (if p then [] else v.queue) && x.input.enabled == (if p then false else v.enabled)
         else
           var r := Run(w.m, Steering(v.queue, w.m.dir, f.ticks), w.target);
           && (x.InGame? <==> r.Some?) && (x.InGame? || x.Over?)
           && (x.InGame? ==> !x.paused && x.m == r.value && x.m.body != [] && x.target == w.target)
           && (x.InGame? ==> x.input.enabled == (if p then true else v.enabled))
  {
    hide Poll, Waits, Asks, Run, Steering, Ticks;
    WaitsIs(w, f, Quit);
    WaitsIs(w, f, Restart);
    WaitsIs(w, f, PauseToggle);
    var v := Poll(w.input, f.events);
    var u := Paused(WithInput(w, v));
    assert u.input.pending == v.pending - {PauseToggle};
    TicksKeep(u, f.ticks);
    if u.paused {
      StillPaused(u, f.ticks);
    } else {
      TicksAreRun(u, f.ticks);
    }
  }

  // Every event of the frame is about P.
  predicate OnlyP(f: Frame) {
    NothingFails(f) && forall i :: 0 <= i < |f.events| ==> f.events[i].key == Act(PauseToggle)
  }

  predicate PressesP(f: Frame) { exists i :: 0 <= i < |f.events| && Asks(f.events[i], PauseToggle) }

  // How many frames see P pressed.
  function PFrames(frames: seq<Frame>): nat {
    if frames == [] then 0 else (if PressesP(frames[0]) then 1 else 0) + PFrames(frames[1..])
  }

  lemma OnlyPWaits(w: World, f: Frame, a: Action)
    requires OnlyP(f)
    ensures Waits(w, f, a) <==> a in w.input.pending || (a == PauseToggle && PressesP(f))
  {
  }

  lemma OnlyPKeeps(w: World, f: Frame)
    requires OnlyP(f) && w.input.pending !! {Quit, Restart, Confirm}
    ensures Poll(w.input, f.events).pending !! {Quit, Restart, Confirm}
  {
    forall a | a in {Quit, Restart, Confirm} ensures a !in Poll(w.input, f.events).pending {
      WaitsIs(w, f, a);
      OnlyPWaits(w, f, a);
    }
  }

  lemma OverStays(w: World, f: Frame)
    requires w.Over? && NothingFails(f)
    requires Poll(w.input, f.events).pending !! {Quit, Restart, Confirm}
    ensures OnFrame(w, f) == (WithInput(w, Poll(w.input, f.events)), Stay)
  {
    hide Poll;
  }

  /** Over frames with no key but P, a game that is still on is paused exactly when the
      number of frames with P flips it. */
  lemma {:induction false} PauseRun(w: World, frames: seq<Frame>)
    requires (w.InGame? && w.m.body != [] && PauseToggle !in w.input.pending) || w.Over?
    requires w.input.pending !! {Quit, Restart, Confirm} && forall f :: f in frames ==> OnlyP(f)
    ensures var (x, exit) := Session(w, frames);
      exit == Stay && !x.InMenu? && (x.InGame? ==> w.InGame? && x.paused == (w.paused != (PFrames(frames) % 2 == 1)))
    decreases |frames|
  {
    if frames != [] {
      var f := frames[0];
      OnlyPWaits(w, f, Quit);
      OnlyPWaits(w, f, Restart);
      OnlyPWaits(w, f, Confirm);
      OnlyPWaits(w, f, PauseToggle);
      OnlyPKeeps(w, f);
      hide Waits, OnlyP, OnFrame, PressesP, Poll, Run, Steering;
      var x := OnFrame(w, f).0;
      if w.InGame? {
        PauseFrame(w, f);
      } else {
        OverStays(w, f);
      }
      PauseRun(x, frames[1..]);
      assert (PFrames(frames) % 2 == 1) == ((PFrames(frames[1..]) % 2 == 1) != PressesP(f));
    }
  }
}
