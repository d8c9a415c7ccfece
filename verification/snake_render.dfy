/** Drawing the game (user/snake_game/snake_render.c) at the level of tiles: one picture
    per cell, and one overlay above them for the score or a panel.  Every tile drawing
    routine first clears its cell, so the last one to draw a cell decides its picture. */
module SnakeRender {
  import opened Field
  import opened SnakeRules
  import opened SnakeInvariants
  import opened SnakeRuns
  import opened SnakeModel

  datatype Tile = Background | BodyTile | TailTile | HeadTile(dir: Dir) | AppleTile | ObstacleTile

  datatype Overlay = MenuScreen(apples: nat) | ScoreText(score: nat)
    | PausePanel(score: nat) | GameOverPanel(score: nat)

  // ----- what the pictures are -----------------------------------------------

  function HeadOf(m: Snake): Cell { if m.body == [] then Cell(0, 0) else m.body[0] }

  function TailOf(m: Snake): Cell { if m.body == [] then Cell(0, 0) else m.body[|m.body| - 1] }

  function FullTile(m: Snake, c: Cell): Tile
  {
    if c == HeadOf(m) then HeadTile(m.dir)
    else if c == TailOf(m) then TailTile
    else if c in m.body then BodyTile
    else if c in m.apples then AppleTile
    else if c in m.obstacles then ObstacleTile
    else Background
  }

  // Cell c after snake_render_step, if it showed `was` before.
  function StepTile(was: Tile, m: Snake, prevHead: Cell, prevTail: Cell, c: Cell): Tile
  {
    if c == HeadOf(m) then HeadTile(m.dir)
    else if c == TailOf(m) then TailTile
    else if c == prevHead then BodyTile
    else if c == prevTail then if c in m.obstacles then ObstacleTile else Background
    else if c in m.apples then AppleTile
    else was
  }

  // The full picture, except that the cell `stale`, if any, shows background.
  function StaleTile(m: Snake, stale: Option<Cell>, c: Cell): Tile
  {
    if stale == Some(c) then Background else FullTile(m, c)
  }

  // The cell that incremental drawing of a tick leaves stale: the old tail, if an apple
  // was put there.
  function NewStale(m: Snake, prevTail: Cell): Option<Cell> {
    if prevTail in m.apples then Some(prevTail) else None
  }

  // A stale cell hides an apple.
  predicate StaleOk(m: Snake, stale: Option<Cell>) {
    stale.Some? ==> stale.value in m.apples
  }

  // Every apple of the field before a tick is still there, unless it was just eaten.
  lemma ApplesStay(m: Snake, d: Dir, requested: nat, a: Cell)
    requires Coherent(m) && Settled(m) && !Crashes(m, d) && Populated(m, requested) && a in m.apples
    ensures a in Tick(m, d, requested).apples || a == Next(m.body[0], d)
  {
    var n := Advance(m, d);
    StepKeeps(m, d);
    if Eats(n) {
      ConsumeKeeps(n);
      var e := Consume(n);
      assert a in e.apples || a == n.body[0];
      StepBody(m, d);
      RoomLeft(m);
      RoomLeft(e);
      hide Coherent, Consume, Crashes, FillTo, Settled;
      FillToReaches(e, EffectiveTarget(e, requested));
    }
  }

  lemma TickBody(m: Snake, d: Dir, requested: nat)
    requires Coherent(m) && Settled(m) && !Crashes(m, d)
    ensures var n := Tick(m, d, requested);
      n.body == [Next(m.body[0], d)] + Kept(m) && n.dir == d
  {
    TickSnake(m, d, requested);
  }

  // What a tick from m to n means for one cell c.
  ghost predicate CellMoves(m: Snake, n: Snake, c: Cell) {
    && HeadOf(m) != TailOf(m)
    && (c in n.body <==> c == HeadOf(n) || (c in m.body && (Grows(m) || c != TailOf(m))))
    && (c == TailOf(n) ==> c in n.body) && (c == HeadOf(m) ==> c in n.body)
    && (Grows(m) ==> TailOf(n) == TailOf(m))
    && n.obstacles == m.obstacles
    && (c in n.apples || c in n.obstacles ==> c !in n.body)
    && (c in m.apples || c in m.obstacles ==> c !in m.body)
    && (c in m.apples ==> c in n.apples || c == HeadOf(n))
    && (c == TailOf(m) ==> c in m.body) && (c in n.apples ==> c !in n.obstacles)
  }

  lemma BodyMoves(m: Snake, body: seq<Cell>, next: Cell, c: Cell)
    requires |m.body| >= 2 && Distinct(m.body) && body == [next] + Kept(m)
    ensures HeadOf(m) != TailOf(m) && body[0] == next
    ensures c in body <==> c == next || (c in m.body && (Grows(m) || c != TailOf(m)))
    ensures (c == body[|body| - 1] ==> c in body) && (c == HeadOf(m) ==> c in body) && (c == TailOf(m) ==> c in m.body)
    ensures Grows(m) ==> body[|body| - 1] == TailOf(m)
  {
    MovedCells(m, next);
    assert body[1] == HeadOf(m);
  }

  lemma Separate(m: Snake, c: Cell)
    requires Coherent(m) && Settled(m)
    ensures |m.body| >= 2 && Distinct(m.body)
    ensures c in m.apples || c in m.obstacles ==> c !in m.body
    ensures c in m.apples ==> c !in m.obstacles
  {
  }

  lemma MiddleApart(m: Snake)
    requires Coherent(m)
    ensures |m.body| >= 2 && m.body[0] != m.body[|m.body| - 1]
    ensures m.body[0] !in m.body[1..|m.body| - 1] && m.body[|m.body| - 1] !in m.body[1..|m.body| - 1]
  {
  }

  /** The full picture tells everything that lies on the field: what each tile means. */
  lemma PictureTells(m: Snake, c: Cell)
    requires Coherent(m) && Settled(m)
    ensures FullTile(m, c) == HeadTile(m.dir) <==> c == m.body[0]
    ensures FullTile(m, c) == TailTile <==> c == m.body[|m.body| - 1]
    ensures FullTile(m, c) == BodyTile <==> c in m.body[1..|m.body| - 1]
    ensures FullTile(m, c) == AppleTile <==> c in m.apples
    ensures FullTile(m, c) == ObstacleTile <==> c in m.obstacles
    ensures FullTile(m, c) == Background <==> c !in m.body && c !in m.apples && c !in m.obstacles
    ensures FullTile(m, c).HeadTile? ==> FullTile(m, c).dir == m.dir
  {
    Separate(m, c);
    var n := |m.body| - 1;
    assert m.body == [m.body[0]] + m.body[1..n] + [m.body[n]];
    MiddleApart(m);
    hide Coherent, Settled;
  }

  lemma TickMoves(m: Snake, d: Dir, requested: nat, c: Cell)
    requires Coherent(m) && Settled(m) && !Crashes(m, d) && Populated(m, requested)
    ensures CellMoves(m, Tick(m, d, requested), c)
  {
    hide Coherent, Tick, Crashes, Populated, Next, Kept, Grows, Distinct;
    var n := Tick(m, d, requested);
    TickKeeps(m, d, requested);
    TickBody(m, d, requested);
    Separate(m, c);
    Separate(n, c);
    BodyMoves(m, n.body, Next(m.body[0], d), c);
    if c in m.apples {
      ApplesStay(m, d, requested, c);
    }
  }

  lemma MovesDraw(m: Snake, n: Snake, stale: Option<Cell>, c: Cell)
    requires CellMoves(m, n, c) && StaleOk(m, stale)
    ensures StepTile(StaleTile(m, stale, c), n, HeadOf(m), TailOf(m), c) == StaleTile(n, NewStale(n, TailOf(m)), c)
  {
    hide Grows;
  }

  /** Drawing only what a tick changed gives the full new picture on every cell, except
      that a new apple on the cell the tail left is missing.  Whatever was stale before
      is repaired. */
  lemma IncrementalIsFull(m: Snake, d: Dir, requested: nat, stale: Option<Cell>, c: Cell)
    requires Coherent(m) && Settled(m) && !Crashes(m, d) && Populated(m, requested) && StaleOk(m, stale)
    ensures var n := Tick(m, d, requested);
      StepTile(StaleTile(m, stale, c), n, HeadOf(m), TailOf(m), c) == StaleTile(n, NewStale(n, TailOf(m)), c)
  {
    hide CellMoves, Coherent, Tick, Crashes, Populated, StaleTile, StepTile, NewStale, StaleOk;
    TickMoves(m, d, requested, c);
    MovesDraw(m, Tick(m, d, requested), stale, c);
  }

  /** So the picture after a tick is the full picture if and only if the tick put no apple
      on the cell that the tail left, ... */
  lemma StaleExactly(m: Snake, d: Dir, requested: nat, stale: Option<Cell>)
    requires Coherent(m) && Settled(m) && !Crashes(m, d) && Populated(m, requested) && StaleOk(m, stale)
    ensures var n := Tick(m, d, requested);
      (forall c :: StepTile(StaleTile(m, stale, c), n, HeadOf(m), TailOf(m), c) == FullTile(n, c))
      <==> TailOf(m) !in n.apples
  {
    var n, tail := Tick(m, d, requested), TailOf(m);
    TickKeeps(m, d, requested);
    Separate(n, tail);
    hide Coherent, Settled, Populated, Crashes, Tick, StaleOk, StepTile, Distinct;
    forall c ensures StepTile(StaleTile(m, stale, c), n, HeadOf(m), tail, c) == StaleTile(n, NewStale(n, tail), c) {
      IncrementalIsFull(m, d, requested, stale, c);
    }
    if tail in n.apples {
      assert HeadOf(n) in n.body && TailOf(n) in n.body;
      assert StaleTile(n, NewStale(n, tail), tail) != FullTile(n, tail);
    }
  }

  lemma TailStays(m: Snake, d: Dir)
    requires Coherent(m) && Settled(m) && !Crashes(m, d)
    ensures var n := Advance(m, d);
      && n.body != [] && n.apples == m.apples && n.obstacles == m.obstacles && TailOf(m) !in m.apples
      && (|n.body| == |m.body| || (TailOf(m) in n.body && |n.body| == |m.body| + 1))
  {
    Separate(m, TailOf(m));
    assert TailOf(m) in m.body;
    var n := Advance(m, d);
    assert Grows(m) ==> n.body[|n.body| - 1] == TailOf(m);
  }

  lemma ConsumeBody(n: Snake)
    requires n.body != []
    ensures Consume(n).body == n.body && Consume(n).obstacles == n.obstacles
  {
  }

  lemma PickOff(e: Snake)
    requires Coherent(e) && Settled(e)
    ensures Pick(e).1.Some? ==> Pick(e).1.value !in e.body
  {
    PickSound(e);
    hide Coherent, Settled, Pick;
  }

  lemma PickRoom(e: Snake)
    requires FreeCount(e) > 0 && |FreeCells(e, 640)| == FreeCount(e)
    ensures Pick(e).1.Some?
  {
    hide FreeCells, NextRandom;
  }

  // Filling with at most one apple.
  lemma FillOne(e: Snake, target: nat)
    requires target <= |e.apples| + 1 && |e.apples| < 16
    requires target == |e.apples| + 1 ==> Pick(e).1.Some?
    ensures FillTo(e, target).apples == e.apples + if target == |e.apples| + 1 then [Pick(e).1.value] else []
  {
    hide Pick;
  }

  // e is m after a step and a meal.
  lemma StaleEaten(m: Snake, e: Snake, requested: nat)
    requires Coherent(e) && Settled(e) && Populated(m, requested) && e.obstacles == m.obstacles
    requires |e.body| == |m.body| || (TailOf(m) in e.body && |e.body| == |m.body| + 1)
    requires |e.apples| + 1 == |m.apples| <= 16 && TailOf(m) !in e.apples
    requires |m.body| + |m.apples| + |m.obstacles| <= 640
    ensures TailOf(m) in Fill(e, requested).apples <==> Pick(e).1 == Some(TailOf(m))
  {
    var target := EffectiveTarget(e, requested);
    PickSound(e);
    FreeCellsCount(e);
    PickOff(e);
    hide Coherent, Settled, Pick, FreeCells, TailOf, Shaped, NextRandom;
    if target > |e.apples| {
      PickRoom(e);
    }
    FillOne(e, target);
  }

  /** ... and it does so if and only if the snake eats and the cell picked for the next
      apple is that cell. */
  lemma StaleWhen(m: Snake, d: Dir, requested: nat)
    requires Coherent(m) && Settled(m) && !Crashes(m, d) && Populated(m, requested)
    ensures TailOf(m) in Tick(m, d, requested).apples <==>
      Eats(Advance(m, d)) && Pick(Consume(Advance(m, d))).1 == Some(TailOf(m))
  {
    var n, tail := Advance(m, d), TailOf(m);
    TailStays(m, d);
    RoomLeft(m);
    StepKeeps(m, d);
    hide Coherent, Settled, Crashes, Advance, Grows, Consume, FillTo, Pick;
    if Eats(n) {
      ConsumeKeeps(n);
      ConsumeBody(n);
      StaleEaten(m, Consume(n), requested);
    }
  }

  // ----- the layers of a full drawing, bottom up ------------------------------

  function ObstacleLayer(obstacles: seq<Cell>, c: Cell): Tile {
    if c in obstacles then ObstacleTile else Background
  }

  function AppleLayer(m: Snake, apples: seq<Cell>, c: Cell): Tile {
    if c in apples then AppleTile else ObstacleLayer(m.obstacles, c)
  }

  function BodyLayer(m: Snake, c: Cell): Tile {
    if c in m.body then BodyTile else AppleLayer(m, m.apples, c)
  }

  lemma FullIsLayers(m: Snake, c: Cell)
    ensures FullTile(m, c) ==
      if c == HeadOf(m) then HeadTile(m.dir) else if c == TailOf(m) then TailTile else BodyLayer(m, c)
  {
  }

  // Cell c after the apples and the left cell have been drawn.
  function ChangedLayer(was: Tile, m: Snake, prevTail: Cell, c: Cell): Tile {
    if c == prevTail then if c in m.obstacles then ObstacleTile else Background
    else if c in m.apples then AppleTile
    else was
  }

  function StepLayers(was: Tile, m: Snake, prevHead: Cell, prevTail: Cell, c: Cell): Tile {
    if c == HeadOf(m) then HeadTile(m.dir)
    else if c == TailOf(m) then TailTile
    else if c == prevHead then BodyTile
    else ChangedLayer(was, m, prevTail, c)
  }

  lemma StepIsLayers(m: Snake, prevHead: Cell, prevTail: Cell)
    ensures forall was, c :: StepTile(was, m, prevHead, prevTail, c) == StepLayers(was, m, prevHead, prevTail, c)
  {
  }

  ghost predicate CellsInField(m: Snake) {
    forall c :: c in m.body || c in m.apples || c in m.obstacles ==> InField(c)
  }

  lemma EndsInField(m: Snake)
    requires m.body != [] && CellsInField(m)
    ensures InField(m.body[0]) && InField(m.body[|m.body| - 1])
  {
  }

  class Screen {
    const tiles: array2<Tile>
    var overlay: Overlay

    ghost predicate Valid() {
      tiles.Length0 == 20 && tiles.Length1 == 32
    }

    constructor ()
      ensures Valid() && fresh(tiles)
    {
      tiles := new Tile[20, 32];
      overlay := MenuScreen(0);
    }

    method Draw(c: Cell, t: Tile)
      requires Valid() && InField(c)
      modifies tiles
      ensures forall x, y :: 0 <= x < 32 && 0 <= y < 20 ==>
        tiles[y, x] == if Cell(x, y) == c then t else old(tiles[y, x])
    {
      tiles[c.y, c.x] := t;
    }

    method Clear()
      requires Valid()
      modifies tiles
      ensures forall x, y :: 0 <= x < 32 && 0 <= y < 20 ==> tiles[y, x] == Background
    {
      forall x, y | 0 <= x < 32 && 0 <= y < 20 {
        tiles[y, x] := Background;
      }
    }

    method DrawObstacles(model: Model)
      requires Valid() && model.Valid() && CellsInField(model.View())
      requires forall x, y :: 0 <= x < 32 && 0 <= y < 20 ==> tiles[y, x] == Background
      modifies tiles
      ensures forall x, y :: 0 <= x < 32 && 0 <= y < 20 ==> tiles[y, x] == AppleLayer(model.View(), [], Cell(x, y))
    {
      ghost var m := model.View();
      var i := 0;
      while i < model.obstacleCount
        invariant 0 <= i <= |m.obstacles|
        invariant forall x, y :: 0 <= x < 32 && 0 <= y < 20 ==>
          tiles[y, x] == ObstacleLayer(m.obstacles[..i], Cell(x, y))
      {
        assert model.obstacles[i] == m.obstacles[i];
        assert m.obstacles[..i + 1] == m.obstacles[..i] + [m.obstacles[i]];
        Draw(model.obstacles[i], ObstacleTile);
        i := i + 1;
      }
      assert m.obstacles[..i] == m.obstacles;
    }

    method DrawApples(model: Model)
      requires Valid() && model.Valid() && CellsInField(model.View())
      modifies tiles
      ensures forall x, y :: 0 <= x < 32 && 0 <= y < 20 ==>
        tiles[y, x] == if Cell(x, y) in model.View().apples then AppleTile else old(tiles[y, x])
    {
      ghost var m := model.View();
      var i := 0;
      while i < model.appleCount
        invariant 0 <= i <= |m.apples|
        invariant forall x, y :: 0 <= x < 32 && 0 <= y < 20 ==>
          tiles[y, x] == if Cell(x, y) in m.apples[..i] then AppleTile else old(tiles[y, x])
      {
        assert model.apples[i] == m.apples[i];
        assert m.apples[..i + 1] == m.apples[..i] + [m.apples[i]];
        Draw(model.apples[i], AppleTile);
        i := i + 1;
      }
      assert m.apples[..i] == m.apples;
    }

    method DrawBody(model: Model)
      requires Valid() && model.Valid()
      modifies tiles
      ensures forall x, y :: 0 <= x < 32 && 0 <= y < 20 ==>
        tiles[y, x] == if Cell(x, y) in model.View().body then BodyTile else old(tiles[y, x])
    {
      ghost var m := model.View();
      var y := 0;
      while y < 20
        invariant 0 <= y <= 20
        invariant forall i, j :: 0 <= i < 32 && 0 <= j < 20 ==>
          tiles[j, i] == if Cell(i, j) in m.body && j < y then BodyTile else old(tiles[j, i])
      {
        var x := 0;
        while x < 32
          invariant 0 <= x <= 32
          invariant forall i, j :: 0 <= i < 32 && 0 <= j < 20 ==>
            tiles[j, i] == if Cell(i, j) in m.body && (j < y || (j == y && i < x)) then BodyTile else old(tiles[j, i])
        {
          if model.IsOccupied(x, y) {
            Draw(Cell(x, y), BodyTile);
          }
          x := x + 1;
        }
        y := y + 1;
      }
    }

    // Everything below the two ends of the snake.
    method DrawLayers(model: Model)
      requires Valid() && model.Valid() && CellsInField(model.View())
      modifies tiles
      ensures forall x, y :: 0 <= x < 32 && 0 <= y < 20 ==> tiles[y, x] == BodyLayer(model.View(), Cell(x, y))
    {
      hide Model.Marks, Model.OnField, ObstacleLayer;
      Clear();
      DrawObstacles(model);
      DrawApples(model);
      DrawBody(model);
    }

    // The tiles show the full picture of m, except for the stale cell.
    ghost predicate Shows(m: Snake, stale: Option<Cell>)
      requires Valid()
      reads tiles
    {
      forall x, y :: 0 <= x < 32 && 0 <= y < 20 ==> tiles[y, x] == StaleTile(m, stale, Cell(x, y))
    }

    /** Redraw everything. */
    method RenderFull(model: Model)
      requires Valid() && model.Valid() && CellsInField(model.View())
      modifies this, tiles
      ensures Shows(model.View(), None) && overlay == ScoreText(model.score)
    {
      hide Model.Marks, Model.OnField, CellsInField, BodyLayer, FullTile;
      ghost var m := model.View();
      EndsInField(m);
      DrawLayers(model);
      Draw(model.tail, TailTile);
      Draw(model.head, HeadTile(model.dir));
      forall c ensures FullTile(m, c) ==
        if c == HeadOf(m) then HeadTile(m.dir) else if c == TailOf(m) then TailTile else BodyLayer(m, c) {
        FullIsLayers(m, c);
      }
      overlay := ScoreText(model.score);
    }

    method RenderPause(model: Model)
      requires Valid() && model.Valid() && CellsInField(model.View())
      modifies this, tiles
      ensures Shows(model.View(), None) && overlay == PausePanel(model.score)
    {
      RenderFull(model);
      overlay := PausePanel(model.score);
    }

    method RenderGameOver(model: Model)
      requires Valid() && model.Valid() && CellsInField(model.View())
      modifies this, tiles
      ensures Shows(model.View(), None) && overlay == GameOverPanel(model.score)
    {
      RenderFull(model);
      overlay := GameOverPanel(model.score);
    }

    method RenderMenu(apples: nat)
      requires Valid()
      modifies this, tiles
      ensures overlay == MenuScreen(apples)
    {
      Clear();
      overlay := MenuScreen(apples);
    }

    // The apples, and the cell that the tail left.
    method DrawChanged(model: Model, prevTail: Cell)
      requires Valid() && model.Valid() && CellsInField(model.View()) && InField(prevTail)
      modifies tiles
      ensures forall x, y :: 0 <= x < 32 && 0 <= y < 20 ==>
        tiles[y, x] == ChangedLayer(old(tiles[y, x]), model.View(), prevTail, Cell(x, y))
    {
      hide Model.OnField;
      DrawApples(model);
      if model.HasObstacle(prevTail.x, prevTail.y) {
        Draw(prevTail, ObstacleTile);
      } else {
        Draw(prevTail, Background);
      }
    }

    /** Redraw what one step changed. */
    method RenderStep(model: Model, prevHead: Cell, prevTail: Cell)
      requires Valid() && model.Valid() && CellsInField(model.View()) && InField(prevHead) && InField(prevTail)
      modifies this, tiles
      ensures overlay == ScoreText(model.score)
      ensures forall x, y :: 0 <= x < 32 && 0 <= y < 20 ==>
        tiles[y, x] == StepTile(old(tiles[y, x]), model.View(), prevHead, prevTail, Cell(x, y))
    {
      hide Model.Marks, Model.OnField, CellsInField, ChangedLayer;
      EndsInField(model.View());
      DrawChanged(model, prevTail);
      Draw(prevHead, BodyTile);
      Draw(model.tail, TailTile);
      Draw(model.head, HeadTile(model.dir));
      overlay := ScoreText(model.score);
      StepIsLayers(model.View(), prevHead, prevTail);
    }
  }
}
