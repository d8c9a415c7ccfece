/** The snake engine's mutable state (user/snake_game/snake_model.c): a body array, an
    occupancy grid, an obstacle list and map, an apple list, cached ends and a ring of
    growth points, all updated in place.  Every method is proved against the function
    of the same operation in `SnakeRules`. */
module SnakeModel {
  import opened Field
  import opened Rings
  import opened SnakeRules
  import opened SnakeInvariants

  // The cells that a move leaves occupied: the new head, and the old body, without its
  // tail unless the snake grows.
  ghost predicate MovesTo(was: seq<Cell>, now: seq<Cell>, next: Cell, tail: Cell, grow: bool) {
    forall c :: c in now <==> c == next || (c in was && (grow || c != tail))
  }

  lemma InitCellIs(d: Dir, i: nat)
    ensures InitCell(d, i) == Cell(WrapCoord(16 - Dx(d) * i, 32), WrapCoord(10 - Dy(d) * i, 20))
  {
  }

  lemma HeadCached(model: Model)
    requires model.Valid()
    ensures model.View().body != [] && model.View().body[0] == model.head
  {
  }

  lemma ConsumeMissed(m: Snake)
    requires m.body != [] && forall c :: c in m.apples ==> !(c.x == m.body[0].x && c.y == m.body[0].y)
    ensures !Eats(m) && Consume(m) == m
  {
  }

  lemma ConsumeFound(m: Snake, k: nat)
    requires m.body != [] && m.body[0] in m.apples && k == IndexOf(m.apples, m.body[0])
    ensures Eats(m) && k < |m.apples|
    ensures Consume(m) == m.(apples := m.apples[..k] + m.apples[k + 1..], score := NextScore(m.score),
                             growth := if |m.growth| < 640 then m.growth + [m.apples[k]] else m.growth)
  {
  }

  lemma CrashesWhen(m: Snake, d: Dir)
    requires m.body != [] && Distinct(m.body)
    ensures var n := Next(m.body[0], d);
      Crashes(m, d) <==> n in m.obstacles || (n in m.body && (Grows(m) || n != m.body[|m.body| - 1]))
  {
  }

  lemma AdvanceIs(m: Snake, d: Dir)
    requires m.body != []
    ensures Advance(m, d) == m.(body := [Next(m.body[0], d)] + Kept(m), dir := d,
                                growth := if Grows(m) then m.growth[1..] else m.growth)
  {
  }

  lemma MarksAt(grid: array2<bool>, s: seq<Cell>, x: nat, y: nat)
    requires grid.Length0 == 20 && grid.Length1 == 32 && Model.Marks(grid, s) && x < 32 && y < 20
    ensures grid[y, x] <==> Cell(x, y) in s
  {
  }

  lemma OnFieldMoves(m: Snake, next: Cell)
    requires m.body != [] && Model.OnField(m.body) && InField(next) && |m.body| <= 640
    ensures Model.OnField([next] + Kept(m)) && InField(m.body[|m.body| - 1])
    ensures Kept(m) == (if Grows(m) then m.body else m.body[..|m.body| - 1])
      && (Grows(m) ==> |m.body| < 640 && m.growth != [])
  {
  }

  lemma MovedCells(m: Snake, next: Cell)
    requires m.body != [] && Distinct(m.body)
    ensures MovesTo(m.body, [next] + Kept(m), next, m.body[|m.body| - 1], Grows(m))
  {
  }

  lemma RowMajor(x: nat, y: nat)
    requires x < 32
    ensures CellAt(32 * y + x) == Cell(x, y)
  {
  }

  lemma {:induction false} SameFreeCells(m: Snake, r: bv32, n: nat)
    ensures FreeCells(m.(rng := r), n) == FreeCells(m, n)
  {
    hide CellAt;
    if n > 0 {
      SameFreeCells(m, r, n - 1);
    }
  }

  lemma {:induction false} FreePrefix(m: Snake, a: nat, b: nat)
    requires a <= b
    ensures FreeCells(m, a) <= FreeCells(m, b)
  {
    if a < b {
      FreePrefix(m, a, b - 1);
    }
  }

  lemma {:induction false} FreeCellsFree(m: Snake, n: nat, k: nat)
    requires k < |FreeCells(m, n)|
    ensures IsFree(m, FreeCells(m, n)[k])
  {
    if n > 0 && k < |FreeCells(m, n - 1)| {
      FreeCellsFree(m, n - 1, k);
    }
  }

  // A picked cell is free.
  lemma PickIsFree(m: Snake)
    ensures Pick(m).1.Some? ==> IsFree(m, Pick(m).1.value)
  {
    hide IsFree, NextRandom;
    if Pick(m).1.Some? {
      FreeCellsFree(m, 640, NextRandom(m.rng) as int % FreeCount(m));
    }
  }

  class Model {
    var dir: Dir
    var length: nat
    var score: nat
    var rng: bv32
    var head: Cell
    var tail: Cell
    const apples: array<Cell>
    var appleCount: nat
    const obstacles: array<Cell>
    var obstacleCount: nat
    const growth: array<Cell>
    var growthHead: nat
    var growthCount: nat
    const body: array<Cell>
    const occupancy: array2<bool>
    const obstacleMap: array2<bool>

    ghost predicate Shape() {
      && apples.Length == 16 && obstacles.Length == 64 && growth.Length == 640 && body.Length == 640
      && occupancy.Length0 == 20 && occupancy.Length1 == 32
      && obstacleMap.Length0 == 20 && obstacleMap.Length1 == 32
      && apples != obstacles && apples != growth && apples != body && obstacles != growth && obstacles != body
      && growth != body && occupancy != obstacleMap
    }

    // The grid marks exactly the cells of s.
    static ghost predicate Marks(grid: array2<bool>, s: seq<Cell>)
      requires grid.Length0 == 20 && grid.Length1 == 32
      reads grid
    {
      forall x, y :: 0 <= x < 32 && 0 <= y < 20 ==> (grid[y, x] <==> Cell(x, y) in s)
    }

    static ghost predicate OnField(s: seq<Cell>) {
      forall i :: 0 <= i < |s| ==> InField(s[i])
    }

    // The counters stay within the arrays.
    ghost predicate Bounded()
      reads this
    {
      && Shape() && 1 <= length <= 640 && appleCount <= 16 && obstacleCount <= 64
      && growthHead < 640 && growthCount <= 640
    }

    /** The redundant representations agree. */
    ghost predicate Valid()
      reads this, apples, obstacles, growth, body, occupancy, obstacleMap
      ensures Valid() ==> Bounded()
    {
      && Bounded()
      && head == body[0] && tail == body[length - 1]
      && Marks(occupancy, body[..length]) && Marks(obstacleMap, obstacles[..obstacleCount])
      && OnField(body[..length])
    }

    ghost function View(): Snake
      requires Bounded()
      reads this, apples, obstacles, growth, body
    {
      Snake(dir, body[..length], Ring(growth[..], growthHead, growthCount), apples[..appleCount],
            obstacles[..obstacleCount], score, rng)
    }

    constructor ()
      ensures Shape()
      ensures fresh(apples) && fresh(obstacles) && fresh(growth) && fresh(body)
        && fresh(occupancy) && fresh(obstacleMap)
    {
      var c := Cell(0, 0);
      apples, obstacles, growth, body := new Cell[16](_ => c), new Cell[64](_ => c),
        new Cell[640](_ => c), new Cell[640](_ => c);
      occupancy, obstacleMap := new bool[20, 32], new bool[20, 32];
      dir, length, score, rng, head, tail := Right, 0, 0, 0, c, c;
      appleCount, obstacleCount, growthHead, growthCount := 0, 0, 0, 0;
    }

    method FindAppleAt(x: int, y: int) returns (index: int)
      requires Valid()
      ensures index == -1 ==> forall c :: c in View().apples ==> !(c.x == x && c.y == y)
      ensures index != -1 ==>
        && 0 <= index < appleCount && 0 <= x && 0 <= y
        && Cell(x, y) in View().apples && index == IndexOf(View().apples, Cell(x, y))
    {
      var i := 0;
      while i < appleCount
        invariant 0 <= i <= appleCount
        invariant forall k :: 0 <= k < i ==> !(apples[k].x == x && apples[k].y == y)
      {
        if apples[i].x == x && apples[i].y == y {
          assert Cell(x, y) == View().apples[i];
          return i;
        }
        i := i + 1;
      }
      index := -1;
    }

    predicate InBounds(x: int, y: int) {
      x >= 0 && y >= 0 && x < 32 && y < 20
    }

    method CellIsFree(x: int, y: int) returns (free: bool)
      requires Valid()
      ensures free <==> 0 <= x && 0 <= y && IsFree(View(), Cell(x, y))
    {
      if !InBounds(x, y) {
        return false;
      }
      if occupancy[y, x] {
        return false;
      }
      if obstacleMap[y, x] {
        return false;
      }
      var apple := FindAppleAt(x, y);
      return apple < 0;
    }

    method AddObstacle(x: int, y: int) returns (ok: bool)
      requires Valid()
      modifies this`obstacleCount, obstacles, obstacleMap
      ensures Valid()
      ensures ok <==> 0 <= x && 0 <= y && IsFree(old(View()), Cell(x, y)) && old(obstacleCount) < 64
      ensures View() == if ok then old(View()).(obstacles := old(View()).obstacles + [Cell(x, y)]) else old(View())
    {
      var free := CellIsFree(x, y);
      if !free {
        return false;
      }
      if obstacleCount >= 64 {
        return false;
      }
      obstacles[obstacleCount] := Cell(x, y);
      obstacleCount := obstacleCount + 1;
      obstacleMap[y, x] := true;
      assert obstacles[..obstacleCount] == old(obstacles[..obstacleCount]) + [Cell(x, y)];
      return true;
    }

    method AddApple(x: int, y: int) returns (ok: bool)
      requires Valid()
      modifies this`appleCount, apples
      ensures Valid()
      ensures ok <==> 0 <= x && 0 <= y && IsFree(old(View()), Cell(x, y)) && old(appleCount) < 16
      ensures View() == if ok then old(View()).(apples := old(View()).apples + [Cell(x, y)]) else old(View())
    {
      var free := CellIsFree(x, y);
      if !free {
        return false;
      }
      if appleCount >= 16 {
        return false;
      }
      apples[appleCount] := Cell(x, y);
      appleCount := appleCount + 1;
      assert apples[..appleCount] == old(apples[..appleCount]) + [Cell(x, y)];
      return true;
    }

    method RandU32() returns (x: bv32)
      modifies this`rng
      ensures x == rng == NextRandom(old(rng))
    {
      hide NextRandom;
      x := NextRandom(rng);
      rng := x;
    }

    // Walk the field row by row to the free cell that has `target` others before it.
    method ScanFree(target: nat) returns (ok: bool, outX: nat, outY: nat)
      requires Valid()
      ensures ok <==> target < |FreeCells(View(), 640)|
      ensures ok ==> FreeCells(View(), 640)[target] == Cell(outX, outY)
    {
      hide CellAt, IsFree, Valid, View;
      outX, outY := 0, 0;
      ghost var m := View();
      var left := target;
      ghost var n := 0;
      var y := 0;
      while y < 20
        invariant 0 <= y <= 20 && n == 32 * y
        invariant left >= 0 && |FreeCells(m, n)| + left == target
      {
        var x := 0;
        while x < 32
          invariant 0 <= x <= 32 && n == 32 * y + x
          invariant left >= 0 && |FreeCells(m, n)| + left == target
        {
          var free := CellIsFree(x, y);
          RowMajor(x, y);
          if free {
            if left == 0 {
              FreePrefix(m, n + 1, 640);
              assert FreeCells(m, n + 1)[target] == Cell(x, y);
              return true, x, y;
            }
            left := left - 1;
          }
          x := x + 1;
          n := n + 1;
        }
        y := y + 1;
      }
      return false, 0, 0;
    }

    method PickRandomFreeCell() returns (ok: bool, outX: nat, outY: nat)
      requires Valid()
      modifies this`rng
      ensures Valid()
      ensures View() == old(View()).(rng := Pick(old(View())).0)
      ensures Pick(old(View())).1 == if ok then Some(Cell(outX, outY)) else None
    {
      hide NextRandom, FreeCells, Ring, Marks, OnField;
      ghost var m := View();
      var freeCells := 640 - length - appleCount - obstacleCount;
      if freeCells <= 0 {
        return false, 0, 0;
      }
      var r := RandU32();
      SameFreeCells(m, r, 640);
      ok, outX, outY := ScanFree(r as int % freeCells);
    }

    method SpawnObstacle() returns (ok: bool)
      requires Valid()
      modifies this`rng, this`obstacleCount, obstacles, obstacleMap
      ensures Valid()
      ensures (View(), ok) == SnakeRules.SpawnObstacle(old(View()))
    {
      hide Pick;
      PickIsFree(View());
      if obstacleCount >= 64 {
        return false;
      }
      var found, x, y := PickRandomFreeCell();
      if !found {
        return false;
      }
      ok := AddObstacle(x, y);
    }

    method SpawnApple() returns (ok: bool)
      requires Valid()
      modifies this`rng, this`appleCount, apples
      ensures Valid()
      ensures (View(), ok) == SnakeRules.SpawnApple(old(View()))
    {
      hide Pick;
      PickIsFree(View());
      if appleCount >= 16 {
        return false;
      }
      var found, x, y := PickRandomFreeCell();
      if !found {
        return false;
      }
      ok := AddApple(x, y);
    }

    method SeedRandom(seed: bv32)
      requires Valid()
      modifies this`rng
      ensures Valid() && View() == old(View()).(rng := if seed == 0 then 0xA341_316C else seed)
    {
      rng := seed;
      if rng == 0 {
        rng := 0xA341_316C;
      }
    }

    method ClearGrid(grid: array2<bool>)
      requires grid.Length0 == 20 && grid.Length1 == 32
      modifies grid
      ensures Marks(grid, [])
    {
      var y := 0;
      while y < 20
        invariant 0 <= y <= 20
        invariant forall i, j :: 0 <= i < 32 && 0 <= j < y ==> !grid[j, i]
      {
        var x := 0;
        while x < 32
          invariant 0 <= x <= 32
          invariant forall i, j :: 0 <= i < 32 && 0 <= j < y ==> !grid[j, i]
          invariant forall i :: 0 <= i < x ==> !grid[y, i]
        {
          grid[y, x] := false;
          x := x + 1;
        }
        y := y + 1;
      }
    }

    /** Place up to targetCount obstacles on an obstacle-free field. */
    method InitRandomObstacles(targetCount: nat)
      requires Valid()
      modifies this`rng, this`obstacleCount, obstacles, obstacleMap
      ensures Valid()
      ensures View() == ObstaclesTo(old(View()).(obstacles := []), if targetCount > 64 then 64 else targetCount)
    {
      hide Pick;
      var target := if targetCount > 64 then 64 else targetCount;
      obstacleCount := 0;
      ClearGrid(obstacleMap);
      ghost var m := View();
      assert m == old(View()).(obstacles := []);
      while obstacleCount < target
        invariant Valid() && ObstaclesTo(m, target) == ObstaclesTo(View(), target)
        decreases target - obstacleCount
      {
        var ok := SpawnObstacle();
        if !ok {
          assert ObstaclesTo(m, target) == View();
          return;
        }
      }
    }

    method EnqueueGrowthPoint(point: Cell) returns (ok: bool)
      requires Valid()
      modifies this`growthCount, growth
      ensures Valid() && ok == (old(growthCount) < 640)
      ensures View() == if ok then old(View()).(growth := old(View()).growth + [point]) else old(View())
    {
      if growthCount >= 640 {
        return false;
      }
      SlotIsMod(growthHead, growthCount, 640);
      RingPush(growth[..], growthHead, growthCount, point);
      var index := (growthHead + growthCount) % 640;
      ghost var pushed := growth[..][index := point];
      growth[index] := point;
      assert growth[..] == pushed;
      growthCount := growthCount + 1;
      return true;
    }

    method PopGrowthPoint()
      requires growth.Length == 640 && growthHead < 640 && growthCount <= 640
      modifies this`growthHead, this`growthCount
      ensures growthHead < 640 && growthCount <= 640
      ensures Ring(growth[..], growthHead, growthCount) ==
        var was := old(Ring(growth[..], growthHead, growthCount)); if was == [] then was else was[1..]
    {
      if growthCount == 0 {
        return;
      }
      SlotIsMod(growthHead, 1, 640);
      RingPop(growth[..], growthHead, growthCount);
      growthHead := (growthHead + 1) % 640;
      growthCount := growthCount - 1;
    }

    method ScoreOne()
      requires Valid()
      modifies this`score
      ensures Valid() && View() == old(View()).(score := NextScore(old(score)))
    {
      score := (score + 1) % 0x1_0000;
    }

    method RemoveApple(index: nat)
      requires Valid() && index < appleCount
      modifies this`appleCount, apples
      ensures Valid()
      ensures View() == old(View()).(apples := old(View()).apples[..index] + old(View()).apples[index + 1..])
    {
      hide Ring, Marks, OnField;
      ghost var before := apples[..appleCount];
      var i := index;
      while i + 1 < appleCount
        invariant index <= i < appleCount == |before|
        invariant forall k :: 0 <= k < index ==> apples[k] == before[k]
        invariant forall k :: index <= k < i ==> apples[k] == before[k + 1]
        invariant forall k :: i < k < appleCount ==> apples[k] == before[k]
      {
        apples[i] := apples[i + 1];
        i := i + 1;
      }
      appleCount := appleCount - 1;
      assert apples[..appleCount] == before[..index] + before[index + 1..];
    }

    method Eat(appleIndex: nat)
      requires Valid() && appleIndex < appleCount
      modifies this`appleCount, this`score, this`growthCount, apples, growth
      ensures Valid()
      ensures View() == var m := old(View());
        m.(apples := m.apples[..appleIndex] + m.apples[appleIndex + 1..],
           score := NextScore(m.score),
           growth := if |m.growth| < 640 then m.growth + [m.apples[appleIndex]] else m.growth)
    {
      hide Valid, Ring, NextScore;
      var consumed := apples[appleIndex];
      RemoveApple(appleIndex);
      ScoreOne();
      var queued := EnqueueGrowthPoint(consumed);
    }

    /** Eat the apple under the head, if there is one. */
    method TryConsumeApple() returns (ate: bool)
      requires Valid()
      modifies this`appleCount, this`score, this`growthCount, apples, growth
      ensures Valid() && ate == Eats(old(View())) && View() == Consume(old(View()))
    {
      hide IndexOf, Consume, Valid, Ring, Eats, NextScore;
      ghost var m := View();
      HeadCached(this);
      if appleCount == 0 {
        ConsumeMissed(m);
        return false;
      }
      var appleIndex := FindAppleAt(head.x, head.y);
      if appleIndex < 0 {
        ConsumeMissed(m);
        return false;
      }
      assert Cell(head.x, head.y) == head;
      ConsumeFound(m, appleIndex);
      Eat(appleIndex);
      return true;
    }

    predicate HasObstacle(x: int, y: int)
      requires Shape()
      reads obstacleMap
    {
      InBounds(x, y) && obstacleMap[y, x]
    }

    predicate IsOccupied(x: int, y: int)
      requires Shape()
      reads occupancy
    {
      InBounds(x, y) && occupancy[y, x]
    }

    // Move body cells [0, n) one position towards the tail.
    method ShiftBody(n: nat)
      requires Shape() && n < 640
      modifies body
      ensures body[..n + 1] == [old(body[0])] + old(body[..n])
      ensures forall k :: n < k < 640 ==> body[k] == old(body[k])
    {
      var i := n;
      while i > 0
        invariant 0 <= i <= n
        invariant forall k :: 0 <= k <= i ==> body[k] == old(body[k])
        invariant forall k :: i < k <= n ==> body[k] == old(body[k - 1])
        invariant forall k :: n < k < 640 ==> body[k] == old(body[k])
      {
        body[i] := body[i - 1];
        i := i - 1;
      }
    }

    // Would a step without growth bring the tail onto the oldest growth point?
    method GrowsNow() returns (shouldGrow: bool)
      requires Valid()
      ensures shouldGrow == Grows(View())
    {
      shouldGrow := false;
      if growthCount > 0 && length > 1 && length < 640 {
        var reached := body[length - 2];
        shouldGrow := reached == growth[growthHead];
      }
    }

    // Free the old tail's cell unless the snake grows, then take the new head's cell:
    // in this order, because they may be the same cell.
    method MarkMove(tailX: nat, tailY: nat, nextX: nat, nextY: nat, shouldGrow: bool,
                ghost was: seq<Cell>, ghost now: seq<Cell>)
      requires Shape() && tailX < 32 && tailY < 20 && nextX < 32 && nextY < 20 && Marks(occupancy, was)
      requires MovesTo(was, now, Cell(nextX, nextY), Cell(tailX, tailY), shouldGrow)
      modifies occupancy
      ensures Marks(occupancy, now)
    {
      if !shouldGrow {
        occupancy[tailY, tailX] := false;
      }
      occupancy[nextY, nextX] := true;
    }

    // Shift the body, with its cached length and growth queue, and set the new head cell.
    method PushHead(nextX: nat, nextY: nat, shouldGrow: bool)
      requires Shape() && 1 <= length <= 640 && (shouldGrow ==> length < 640)
      requires growthHead < 640 && growthCount <= 640
      modifies this`length, this`growthHead, this`growthCount, body
      ensures length == old(length) + (if shouldGrow then 1 else 0)
      ensures body[..length] == [Cell(nextX, nextY)] + old(if shouldGrow then body[..length] else body[..length - 1])
      ensures growthHead < 640 && growthCount <= 640
      ensures Ring(growth[..], growthHead, growthCount) ==
        var was := old(Ring(growth[..], growthHead, growthCount)); if was == [] || !shouldGrow then was else was[1..]
    {
      hide Ring;
      ghost var n := if shouldGrow then length else length - 1;
      ghost var kept := body[..n];
      if shouldGrow {
        ShiftBody(length);
        length := length + 1;
        PopGrowthPoint();
      } else if length > 1 {
        ShiftBody(length - 1);
      }
      ghost var prefix := body[..n + 1];
      assert prefix == [body[0]] + kept;
      body[0] := Cell(nextX, nextY);
      assert body[..n + 1] == prefix[0 := Cell(nextX, nextY)];
      assert length == n + 1;
    }

    method ShiftAndMark(nextX: nat, nextY: nat, shouldGrow: bool, ghost was: seq<Cell>, ghost now: seq<Cell>)
      requires Bounded() && nextX < 32 && nextY < 20 && tail.x < 32 && tail.y < 20 && (shouldGrow ==> length < 640)
      requires was == body[..length] && now == [Cell(nextX, nextY)] + (if shouldGrow then was else was[..length - 1])
      requires Marks(occupancy, was) && MovesTo(was, now, Cell(nextX, nextY), tail, shouldGrow)
      modifies this`length, this`growthHead, this`growthCount, body, occupancy
      ensures Bounded() && body[..length] == now && Marks(occupancy, now)
      ensures Ring(growth[..], growthHead, growthCount) ==
        var rest := old(Ring(growth[..], growthHead, growthCount));
          if rest == [] || !shouldGrow then rest else rest[1..]
    {
      hide Ring, Marks, MovesTo;
      var tailX, tailY := tail.x, tail.y;
      PushHead(nextX, nextY, shouldGrow);
      MarkMove(tailX, tailY, nextX, nextY, shouldGrow, was, now);
    }

    method CacheEnds()
      requires Bounded()
      modifies this`head, this`tail
      ensures head == body[0] && tail == body[length - 1]
    {
      head := body[0];
      tail := body[length - 1];
    }

    // The second half of a step: shift the body, update the grid and the cached ends.
    method MoveBody(nextX: nat, nextY: nat, shouldGrow: bool, ghost now: seq<Cell>)
      requires Valid() && nextX < 32 && nextY < 20
      requires shouldGrow == Grows(View()) && now == [Cell(nextX, nextY)] + Kept(View())
      requires MovesTo(View().body, now, Cell(nextX, nextY), tail, shouldGrow)
      modifies this, body, occupancy
      ensures Valid()
      ensures View() == var m := old(View()); m.(body := now, growth := if shouldGrow then m.growth[1..] else m.growth)
    {
      hide Ring, Marks, MovesTo, OnField, Kept, Grows;
      ghost var m := View();
      OnFieldMoves(m, Cell(nextX, nextY));
      ShiftAndMark(nextX, nextY, shouldGrow, m.body, now);
      CacheEnds();
      assert apples[..appleCount] == m.apples;
      assert obstacles[..obstacleCount] == m.obstacles;
    }

    /** One step.  It fails exactly when the rules say that the snake crashes, and then
        changes nothing; otherwise the model becomes what the rules say. */
    method Step(nextDir: Dir) returns (ok: bool)
      requires Valid() && Distinct(body[..length])
      modifies this, body, occupancy
      ensures Valid()
      ensures ok <==> !Crashes(old(View()), nextDir)
      ensures View() == if ok then Advance(old(View()), nextDir) else old(View())
    {
      hide Ring, Marks, OnField, Distinct, Kept, Crashes, Advance, WrapCoord;
      ghost var m := View();
      var nextX := WrapCoord(head.x + Dx(nextDir), 32);
      var nextY := WrapCoord(head.y + Dy(nextDir), 20);
      ghost var next := Next(m.body[0], nextDir);
      assert next == Cell(nextX, nextY);
      CrashesWhen(m, nextDir);
      MarksAt(occupancy, m.body, nextX, nextY);
      MarksAt(obstacleMap, m.obstacles, nextX, nextY);
      var tailX, tailY := tail.x, tail.y;
      var movingIntoTail := nextX == tailX && nextY == tailY;
      var shouldGrow := GrowsNow();
      if HasObstacle(nextX, nextY) {
        return false;
      }
      if IsOccupied(nextX, nextY) && (!movingIntoTail || shouldGrow) {
        return false;
      }
      MovedCells(m, next);
      MoveBody(nextX, nextY, shouldGrow, [next] + Kept(m));
      dir := nextDir;
      AdvanceIs(m, nextDir);
      return true;
    }

    method ClearBothGrids()
      requires Shape()
      modifies this`obstacleCount, occupancy, obstacleMap
      ensures obstacleCount == 0 && Marks(occupancy, []) && Marks(obstacleMap, [])
    {
      hide Marks;
      ClearGrid(occupancy);
      obstacleCount := 0;
      ClearGrid(obstacleMap);
    }

    method LayBody(initialDir: Dir)
      requires Shape() && 1 <= length <= 640 && Marks(occupancy, [])
      modifies body, occupancy
      ensures body[..length] == InitBody(initialDir, length)
      ensures Marks(occupancy, body[..length]) && OnField(body[..length])
    {
      hide InitCell;
      var i := 0;
      while i < length
        invariant 0 <= i <= length
        invariant forall k :: 0 <= k < i ==> body[k] == InitCell(initialDir, k) && InField(body[k])
        invariant Marks(occupancy, body[..i])
      {
        var x := WrapCoord(16 - Dx(initialDir) * i, 32);
        var y := WrapCoord(10 - Dy(initialDir) * i, 20);
        InitCellIs(initialDir, i);
        ghost var was := body[..i];
        body[i] := Cell(x, y);
        occupancy[y, x] := true;
        i := i + 1;
        assert body[..i] == was + [Cell(x, y)];
      }
    }

    method ResetCounters(initialDir: Dir, initialLength: nat)
      requires Shape()
      modifies this
      ensures dir == initialDir && length == ClampLength(initialLength)
      ensures rng == old(rng) && obstacleCount == old(obstacleCount)
      ensures score == appleCount == growthHead == growthCount == 0
    {
      dir := initialDir;
      length := if initialLength == 0 then 1 else initialLength;
      if length > 640 {
        length := 640;
      }
      score, appleCount, growthHead, growthCount := 0, 0, 0, 0;
    }

    /** A straight snake in the middle of an empty field, its length between 1 and 640.
        The field it starts from may hold anything. */
    method InitCenter(initialDir: Dir, initialLength: nat)
      requires Shape()
      modifies this, body, occupancy, obstacleMap
      ensures Valid() && rng == old(rng)
      ensures View() == InitSnake(initialDir, ClampLength(initialLength), rng)
    {
      hide Marks, OnField, Ring, InitBody, ClampLength;
      ResetCounters(initialDir, initialLength);
      ClearBothGrids();
      LayBody(initialDir);
      head := body[0];
      tail := body[length - 1];
      assert obstacles[..obstacleCount] == [];
    }
  }
}
