/** Whole games: what holds after any sequence of surviving ticks. */
module SnakeRuns {
  import opened Field
  import opened SnakeRules
  import opened SnakeInvariants

  // The state after ticks in the given directions, or None if one of them crashed.
  function Run(m: Snake, dirs: seq<Dir>, requested: nat): Option<Snake>
    decreases |dirs|
  {
    if dirs == [] then Some(m)
    else if m.body == [] || Crashes(m, dirs[0]) then None
    else Run(Tick(m, dirs[0], requested), dirs[1..], requested)
  }

  // Length and pending growth account for the initial length and every apple eaten.
  predicate Ledger(m: Snake, initial: nat) {
    |m.body| + |m.growth| == initial + m.score
  }

  lemma StepLedger(m: Snake, d: Dir, initial: nat)
    requires Coherent(m) && Settled(m) && !Crashes(m, d) && Ledger(m, initial)
    ensures Coherent(Advance(m, d)) && Ledger(Advance(m, d), initial)
  {
    StepKeeps(m, d);
    StepBody(m, d);
    StepSizes(m, d);
  }

  lemma ConsumeLedger(m: Snake, initial: nat)
    requires Coherent(m) && Ledger(m, initial)
    ensures Ledger(Consume(m), initial)
    ensures Consume(m).score == m.score + if Eats(m) then 1 else 0
  {
    GrowthBound(m);
    BodyFits(m);
    ConsumeKeeps(m);
    hide Coherent;
  }

  // Apart from apples, a tick is a step followed by a consumption check.
  lemma TickSnake(m: Snake, d: Dir, requested: nat)
    requires Coherent(m) && Settled(m) && !Crashes(m, d)
    ensures SameSnake(Consume(Advance(m, d)), Tick(m, d, requested))
    ensures Tick(m, d, requested).body == Advance(m, d).body
  {
    var n := Advance(m, d);
    StepKeeps(m, d);
    if Eats(n) {
      ConsumeKeeps(n);
      var e := Consume(n);
      RoomLeft(e);
      assert e.body == n.body;
      hide Coherent, Consume, Advance, Crashes, Settled;
      FillSnake(e, EffectiveTarget(e, requested));
    }
  }

  lemma TickLedger(m: Snake, d: Dir, requested: nat, initial: nat)
    requires Coherent(m) && Settled(m) && !Crashes(m, d) && Ledger(m, initial)
    ensures Ledger(Tick(m, d, requested), initial)
    ensures Tick(m, d, requested).score == m.score + if Eats(Advance(m, d)) then 1 else 0
  {
    StepLedger(m, d, initial);
    ConsumeLedger(Advance(m, d), initial);
    TickSnake(m, d, requested);
    hide *;
  }

  lemma LedgerBounds(m: Snake, initial: nat)
    requires Coherent(m) && Settled(m) && Ledger(m, initial)
    ensures |m.growth| < |m.body| < 640 && m.score < 1280
  {
    RoomLeft(m);
    GrowthBound(m);
  }

  /** After any run: the whole-state invariant, the apple population, and the growth
      ledger; so the score stays far below the range of its 16-bit counter. */
  lemma {:induction false} RunKeeps(m: Snake, dirs: seq<Dir>, requested: nat, initial: nat)
    requires Coherent(m) && Settled(m) && Populated(m, requested) && Ledger(m, initial)
    ensures var r := Run(m, dirs, requested);
      r.Some? ==>
        && Coherent(r.value) && Settled(r.value) && Populated(r.value, requested) && Ledger(r.value, initial)
        && |r.value.growth| < |r.value.body| < 640 && r.value.score < 1280
    decreases |dirs|
  {
    hide Coherent, Tick, Crashes, Populated;
    if dirs == [] {
      LedgerBounds(m, initial);
    } else if !Crashes(m, dirs[0]) {
      TickKeeps(m, dirs[0], requested);
      TickLedger(m, dirs[0], requested, initial);
      RunKeeps(Tick(m, dirs[0], requested), dirs[1..], requested, initial);
    }
  }

  // ----- a snake of one cell -------------------------------------------------

  /** A snake of one cell never grows, whatever it eats: the growth test needs two. */
  lemma {:induction false} OneCellNeverGrows(m: Snake, dirs: seq<Dir>, requested: nat)
    requires |m.body| == 1
    ensures var r := Run(m, dirs, requested); r.Some? ==> |r.value.body| == 1 && !Grows(r.value)
    decreases |dirs|
  {
    if dirs != [] && !Crashes(m, dirs[0]) {
      var n := Advance(m, dirs[0]);
      if Eats(n) {
        FillSnake(Consume(n), EffectiveTarget(Consume(n), requested));
      }
      hide Crashes, Advance, Consume, Fill, Eats;
      OneCellNeverGrows(Tick(m, dirs[0], requested), dirs[1..], requested);
    }
  }

  /** A snake that has eaten as many apples as it had cells at first has grown, if and only
      if it had two cells or more. */
  lemma GrowsAtAll(d: Dir, length: nat, seed: bv32, dirs: seq<Dir>, requested: nat)
    requires 1 <= length <= MaxInitial(d)
    ensures var r := Run(NewGame(d, length, seed, requested), dirs, requested);
      r.Some? && r.value.score >= length ==> (|r.value.body| > length <==> length >= 2)
  {
    var m := NewGame(d, length, seed, requested);
    if length == 1 {
      NewGameBody(d, length, seed, requested);
      hide NewGame, Run;
      OneCellNeverGrows(m, dirs, requested);
    } else {
      NewGameKeeps(d, length, seed, requested);
      hide NewGame, Run, Coherent, Settled, Populated, MaxInitial;
      RunKeeps(m, dirs, requested, length);
    }
  }

  // ----- when a meal makes the snake longer ----------------------------------

  // The number of surviving steps until the k-th pending cell makes the snake grow.
  ghost function Countdown(m: Snake, k: nat): int
    requires k < |m.growth| && m.growth[k] in m.body
  {
    |m.body| + k - 1 - IndexOf(m.body, m.growth[k])
  }

  /** The count is 1 exactly when the cell is the oldest and the snake grows on the
      next step. */
  lemma CountdownNow(m: Snake, k: nat)
    requires Coherent(m) && Settled(m) && k < |m.growth|
    ensures m.growth[k] in m.body && Countdown(m, k) >= 1
    ensures Countdown(m, k) == 1 <==> Grows(m) && m.growth[k] == m.growth[0]
    ensures m.growth[k] == m.growth[0] <==> k == 0
  {
    GrowsWhen(m);
    assert GrowthOrdered(m.body, m.growth);
    if k > 0 {
      assert IndexOf(m.body, m.growth[0]) > IndexOf(m.body, m.growth[k]);
    }
  }

  // The k-th pending cell of m is the l-th of n, and one step nearer to being due.
  ghost predicate CountsDown(m: Snake, k: nat, n: Snake, l: int) {
    && k < |m.growth| && m.growth[k] in m.body
    && 0 <= l < |n.growth| && n.growth[l] == m.growth[k] && n.growth[l] in n.body
    && Countdown(n, l) == Countdown(m, k) - 1
  }

  lemma StepCountsDown(m: Snake, k: nat, d: Dir)
    requires Coherent(m) && Settled(m) && !Crashes(m, d) && k < |m.growth|
    requires m.growth[k] in m.body && Countdown(m, k) > 1
    ensures CountsDown(m, k, Advance(m, d), if Grows(m) then k - 1 else k)
  {
    hide Coherent, Settled, Crashes, Advance, Grows, IndexOf;
    CountdownNow(m, k);
    StepSizes(m, d);
    StepBody(m, d);
    StepGrowthAt(m, d, if Grows(m) then k - 1 else k);
  }

  // Eating and refilling leave the body alone and can only add to the queue.
  lemma TickGrowth(m: Snake, d: Dir, requested: nat)
    requires Coherent(m) && Settled(m) && !Crashes(m, d)
    ensures var n, t := Advance(m, d), Tick(m, d, requested); t.body == n.body && n.growth <= t.growth
  {
    TickSnake(m, d, requested);
    StepKeeps(m, d);
    ConsumeKeeps(Advance(m, d));
    ConsumeNothing(Advance(m, d));
    hide Coherent, Settled, Crashes, Advance, Consume, Tick;
  }

  /** Each surviving tick counts every pending cell down by one. */
  lemma CountdownTick(m: Snake, k: nat, d: Dir, requested: nat)
    requires Coherent(m) && Settled(m) && !Crashes(m, d) && k < |m.growth|
    requires m.growth[k] in m.body && Countdown(m, k) > 1
    ensures CountsDown(m, k, Tick(m, d, requested), if Grows(m) then k - 1 else k)
  {
    StepCountsDown(m, k, d);
    TickGrowth(m, d, requested);
    hide Coherent, Settled, Crashes, Advance, Tick, Grows, IndexOf;
  }

  /** A meal with k meals pending before it, lying at body index j, makes the snake grow
      on step length + k - 1 - j of any run that lasts that long - not before, and no
      meal is skipped. */
  lemma {:induction false} GrowsOnTime(m: Snake, k: nat, dirs: seq<Dir>, requested: nat)
    requires Coherent(m) && Settled(m) && Populated(m, requested)
    requires k < |m.growth| && m.growth[k] in m.body && |dirs| < Countdown(m, k)
    requires Run(m, dirs, requested).Some?
    ensures var s := Run(m, dirs, requested).value;
      && m.growth[k] in s.growth
      && (Grows(s) && s.growth[0] == m.growth[k] <==> |dirs| == Countdown(m, k) - 1)
    decreases |dirs|
  {
    CountdownNow(m, k);
    if dirs != [] {
      CountdownTick(m, k, dirs[0], requested);
      TickKeeps(m, dirs[0], requested);
      var l := if Grows(m) then k - 1 else k;
      GrowsOnTime(Tick(m, dirs[0], requested), l, dirs[1..], requested);
      hide *;
    }
  }
}
