/** The rules of the snake game as functions on values: what each operation of
    user/snake_game/snake_model.c computes, and the invariants of every game. */
module SnakeRules {
  import opened Field

  datatype Snake = Snake(
    dir: Dir,
    body: seq<Cell>,        // head first
    growth: seq<Cell>,      // cells of eaten apples that the tail has not reached, oldest first
    apples: seq<Cell>,
    obstacles: seq<Cell>,
    score: nat,
    rng: bv32)

  // ----- one step ------------------------------------------------------------

  // Does the tail arrive at the oldest pending apple cell on this step?
  predicate Grows(m: Snake) {
    m.growth != [] && 1 < |m.body| < 640 && m.body[|m.body| - 2] == m.growth[0]
  }

  function Kept(m: Snake): seq<Cell>
    requires m.body != []
  {
    if Grows(m) then m.body else m.body[..|m.body| - 1]
  }

  // Does stepping in direction d end the game?
  predicate Crashes(m: Snake, d: Dir)
    requires m.body != []
  {
    Next(m.body[0], d) in m.obstacles || Next(m.body[0], d) in Kept(m)
  }

  // The model after a step that does not crash.
  function Advance(m: Snake, d: Dir): Snake
    requires m.body != []
  {
    m.(body := [Next(m.body[0], d)] + Kept(m), growth := if Grows(m) then m.growth[1..] else m.growth, dir := d)
  }

  // ----- eating --------------------------------------------------------------

  function IndexOf(s: seq<Cell>, c: Cell): (k: nat)
    requires c in s
    ensures k < |s| && s[k] == c && c !in s[..k]
  {
    if s[0] == c then 0 else
      assert c in s[1..];
      var k := IndexOf(s[1..], c);
      assert s[..k + 1] == [s[0]] + s[1..][..k];
      1 + k
  }

  predicate Eats(m: Snake)
    requires m.body != []
  {
    m.body[0] in m.apples
  }

  // The score is a 16-bit counter.
  function NextScore(score: nat): nat { (score + 1) % 0x1_0000 }

  function Consume(m: Snake): Snake
    requires m.body != []
  {
    if !Eats(m) then m else
      var k := IndexOf(m.apples, m.body[0]);
      m.(apples := m.apples[..k] + m.apples[k + 1..],
         score := NextScore(m.score),
         growth := if |m.growth| < 640 then m.growth + [m.body[0]] else m.growth)
  }

  // ----- random placement ----------------------------------------------------

  predicate IsFree(m: Snake, c: Cell) {
    InField(c) && c !in m.body && c !in m.obstacles && c !in m.apples
  }

  // The free cells among the first n, in row-major order.
  function FreeCells(m: Snake, n: nat): (s: seq<Cell>)
    ensures |s| <= n
  {
    if n == 0 then [] else
      FreeCells(m, n - 1) + if IsFree(m, CellAt(n - 1)) then [CellAt(n - 1)] else []
  }

  // The number of free cells as the program computes it.
  function FreeCount(m: Snake): int {
    640 - |m.body| - |m.apples| - |m.obstacles|
  }

  function NextRandom(x: bv32): bv32 {
    var a := if x == 0 then 0x9E37_79B9 else x;
    var b := a ^ (a << 13);
    var c := b ^ (b >> 17);
    c ^ (c << 5)
  }

  datatype Option<T> = None | Some(value: T)

  // The state of the generator after a pick, and the cell picked.
  function Pick(m: Snake): (bv32, Option<Cell>) {
    if FreeCount(m) <= 0 then (m.rng, None) else
      var r := NextRandom(m.rng);
      var target := r as int % FreeCount(m);
      (r, if target < |FreeCells(m, 640)| then Some(FreeCells(m, 640)[target]) else None)
  }

  function SpawnApple(m: Snake): (Snake, bool) {
    if |m.apples| >= 16 then (m, false) else
      var (r, cell) := Pick(m);
      match cell
      case None => (m.(rng := r), false)
      case Some(c) => (m.(rng := r, apples := m.apples + [c]), true)
  }

  function SpawnObstacle(m: Snake): (Snake, bool) {
    if |m.obstacles| >= 64 then (m, false) else
      var (r, cell) := Pick(m);
      match cell
      case None => (m.(rng := r), false)
      case Some(c) => (m.(rng := r, obstacles := m.obstacles + [c]), true)
  }

  // snake_effective_apple_target
  function EffectiveTarget(m: Snake, requested: nat): nat {
    var room := 640 - |m.body| - |m.obstacles|;
    var room := if room < 0 then 0 else room;
    var most := if room < 16 then room else 16;
    if requested > most then most else requested
  }

  function FillTo(m: Snake, target: nat): Snake
    decreases target - |m.apples|
  {
    if |m.apples| >= target then m else
      var (n, ok) := SpawnApple(m);
      if ok then FillTo(n, target) else n
  }

  function Fill(m: Snake, requested: nat): Snake {
    FillTo(m, EffectiveTarget(m, requested))
  }

  function ObstaclesTo(m: Snake, target: nat): Snake
    decreases target - |m.obstacles|
  {
    if |m.obstacles| >= target then m else
      var (n, ok) := SpawnObstacle(m);
      if ok then ObstaclesTo(n, target) else n
  }

  // A snake has between one cell and as many as the field.
  function ClampLength(length: nat): (r: nat)
    ensures 1 <= r <= 640
  {
    if length == 0 then 1 else if length > 640 then 640 else length
  }

  // ----- a new game ----------------------------------------------------------

  // The i-th cell of the initial body.
  function InitCell(d: Dir, i: nat): Cell {
    Cell(WrapCoord(16 - Dx(d) * i, 32), WrapCoord(10 - Dy(d) * i, 20))
  }

  function InitBody(d: Dir, length: nat): seq<Cell> {
    seq(length, i requires 0 <= i => InitCell(d, i))
  }

  // ----- one tick of the game loop -------------------------------------------

  // Move, eat, and refill the field if something was eaten.
  function Tick(m: Snake, d: Dir, requested: nat): Snake
    requires m.body != [] && !Crashes(m, d)
  {
    var n := Advance(m, d);
    if Eats(n) then Fill(Consume(n), requested) else n
  }
}
