/** A real game in which incremental drawing leaves a stale cell: started with the time
    101213 and five apples, its first tick eats, and the new apple goes to the very cell
    that the tail has just left. */
module StaleExample {
  import opened Field
  import opened SnakeRules
  import opened SnakeInvariants
  import opened SnakeRender

  function Body(): seq<Cell> { [Cell(16, 10), Cell(15, 10), Cell(14, 10), Cell(13, 10), Cell(12, 10)] }

  function Obstacles(): (s: seq<Cell>)
    ensures |s| == 10
  {
    [Cell(28, 12), Cell(6, 3), Cell(23, 18), Cell(27, 19), Cell(24, 2),
     Cell(16, 0), Cell(15, 6), Cell(30, 10), Cell(25, 16), Cell(17, 7)]
  }

  function Apples(): (s: seq<Cell>)
    ensures |s| == 5
  { [Cell(10, 4), Cell(17, 10), Cell(22, 5), Cell(22, 10), Cell(10, 10)] }

  // The seed and the random numbers for the obstacles, and those for the apples.
  function Randoms(): (s: seq<bv32>)
    ensures |s| == 11
  {
    [101213, 0x1c2c_4ee8, 0x2bd1_8610, 0x7962_f8b9, 0xe8cc_bbe3, 0x89ac_635b, 0xbd27_36b8, 0x25f3_7340, 0x38f1_872d,
     0x0a90_47c7, 0x4f7c_7893]
  }

  function LaterRandoms(): (s: seq<bv32>)
    ensures |s| == 6
  {
    [0x4f7c_7893, 0xcda1_6c24, 0xe496_1af6, 0xded1_eb52, 0x94c0_8b6f, 0x3008_1e99]
  }

  // The random numbers reduced modulo the number of free cells.
  function Residues(): seq<nat> { [407, 102, 592, 627, 88, 16, 204, 341, 526, 237] }

  function LaterResidues(): seq<nat> { [135, 326, 178, 329, 323] }

  // The cells of the snake are numbered 332 to 336.
  function BodyBelow(i: nat): nat { if i <= 332 then 0 else 5 }

  lemma BodyBelowIs(i: nat)
    requires i <= 332 || 336 < i
    ensures CountBelow(Body(), 5, i) == BodyBelow(i)
  {
    assert CountBelow(Body(), 1, i) == if i <= 332 then 0 else 1;
    assert CountBelow(Body(), 2, i) == if i <= 332 then 0 else 2;
    assert CountBelow(Body(), 3, i) == if i <= 332 then 0 else 3;
    assert CountBelow(Body(), 4, i) == if i <= 332 then 0 else 4;
  }

  predicate ObstacleOk(k: nat)
    requires k < 10
  {
    var i := IndexOfCell(Obstacles()[k]);
    Residues()[k] == i - BodyBelow(i) - CountBelow(Obstacles(), k, i)
  }

  predicate AppleOk(k: nat)
    requires k < 5
  {
    var i := IndexOfCell(Apples()[k]);
    LaterResidues()[k] == i - BodyBelow(i) - CountBelow(Obstacles(), 10, i) - CountBelow(Apples(), k, i)
  }

  predicate RandomOk(k: nat)
    requires k < 10
  {
    NextRandom(Randoms()[k]) == Randoms()[k + 1] && Randoms()[k + 1] as int % (635 - k) == Residues()[k]
  }

  predicate LaterRandomOk(k: nat)
    requires k < 5
  {
    NextRandom(LaterRandoms()[k]) == LaterRandoms()[k + 1] &&
      LaterRandoms()[k + 1] as int % (625 - k) == LaterResidues()[k]
  }

  lemma RandomsOk(k: nat)
    requires k < 10
    ensures RandomOk(k)
  {
    if k < 5 {
      assert RandomOk(0) && RandomOk(1) && RandomOk(2) && RandomOk(3) && RandomOk(4);
    } else {
      assert RandomOk(5) && RandomOk(6) && RandomOk(7) && RandomOk(8) && RandomOk(9);
    }
  }

  lemma LaterRandomsOk(k: nat)
    requires k < 5
    ensures LaterRandomOk(k)
  {
    assert LaterRandomOk(0) && LaterRandomOk(1) && LaterRandomOk(2) && LaterRandomOk(3) && LaterRandomOk(4);
  }

  lemma ObstaclesOk(k: nat)
    requires k < 6
    ensures ObstacleOk(k)
  {
    assert ObstacleOk(0) && ObstacleOk(1) && ObstacleOk(2) && ObstacleOk(3) && ObstacleOk(4) && ObstacleOk(5);
  }

  lemma LaterObstaclesOk(k: nat)
    requires 6 <= k < 10
    ensures ObstacleOk(k)
  {
    if k < 8 { assert ObstacleOk(6) && ObstacleOk(7); } else { assert ObstacleOk(8) && ObstacleOk(9); }
  }

  lemma ApplesOk(k: nat)
    requires k < 3
    ensures AppleOk(k)
  {
    assert AppleOk(0) && AppleOk(1) && AppleOk(2);
  }

  lemma LaterApplesOk(k: nat)
    requires 3 <= k < 5
    ensures AppleOk(k)
  {
    if k == 3 { assert AppleOk(3); } else { assert AppleOk(4); }
  }

  // The game with the first k obstacles placed, ...
  function Walled(k: nat): Snake
    requires k <= 10
  {
    Snake(Right, Body(), [], [], Obstacles()[..k], 0, Randoms()[k])
  }

  // ... and with all of them and the first k apples.
  function Laid(k: nat): Snake
    requires k <= 5
  {
    Snake(Right, Body(), [], Apples()[..k], Obstacles(), 0, LaterRandoms()[k])
  }

  lemma Apart()
    ensures Distinct(Obstacles()) && Distinct(Apples())
    ensures forall c :: c in Obstacles() || c in Apples() ==> InField(c) && c !in Body()
    ensures forall c :: c in Obstacles() || c in Apples() ==> IndexOfCell(c) <= 332 || 336 < IndexOfCell(c)
    ensures forall c :: c in Apples() ==> c !in Obstacles()
  {
  }

  lemma ObstacleRank(k: nat)
    requires k < 10
    ensures var m, c := Walled(k), Obstacles()[k];
      IsFree(m, c) && FreeCount(m) == 635 - k && Rank(m, c) == Residues()[k]
  {
    var c := Obstacles()[k];
    Apart();
    assert c in Obstacles() && c !in Obstacles()[..k];
    if k < 6 { ObstaclesOk(k); } else { LaterObstaclesOk(k); }
    hide Obstacles, Residues, IndexOfCell, BodyBelow, Distinct;
    BodyBelowIs(IndexOfCell(c));
    BelowPrefix(Obstacles()[..k], Obstacles(), k, IndexOfCell(c));
  }

  lemma WalledRandom(k: nat)
    requires k < 10
    ensures NextRandom(Walled(k).rng) == Randoms()[k + 1]
    ensures Randoms()[k + 1] as int % (635 - k) == Residues()[k]
  {
    RandomsOk(k);
    hide NextRandom, Randoms, Residues;
  }

  lemma ObstaclePick(k: nat)
    requires k < 10 && Shaped(Walled(k)) && Settled(Walled(k))
    ensures Pick(Walled(k)) == (Randoms()[k + 1], Some(Obstacles()[k])) && IsFree(Walled(k), Obstacles()[k])
  {
    ObstacleRank(k);
    WalledRandom(k);
    hide *;
    PickGives(Walled(k), Obstacles()[k], Randoms()[k + 1], 635 - k);
  }

  lemma AppleRank(k: nat)
    requires k < 5
    ensures var m, c := Laid(k), Apples()[k];
      IsFree(m, c) && FreeCount(m) == 625 - k && Rank(m, c) == LaterResidues()[k]
  {
    var c := Apples()[k];
    Apart();
    assert c in Apples() && c !in Apples()[..k];
    if k < 3 { ApplesOk(k); } else { LaterApplesOk(k); }
    hide Apples, LaterResidues, IndexOfCell, BodyBelow, Distinct;
    BodyBelowIs(IndexOfCell(c));
    BelowPrefix(Apples()[..k], Apples(), k, IndexOfCell(c));
  }

  lemma LaidRandom(k: nat)
    requires k < 5
    ensures NextRandom(Laid(k).rng) == LaterRandoms()[k + 1]
    ensures LaterRandoms()[k + 1] as int % (625 - k) == LaterResidues()[k]
  {
    LaterRandomsOk(k);
    hide NextRandom, LaterRandoms, LaterResidues;
  }

  lemma ApplePick(k: nat)
    requires k < 5 && Shaped(Laid(k)) && Settled(Laid(k))
    ensures Pick(Laid(k)) == (LaterRandoms()[k + 1], Some(Apples()[k])) && IsFree(Laid(k), Apples()[k])
  {
    AppleRank(k);
    LaidRandom(k);
    hide *;
    PickGives(Laid(k), Apples()[k], LaterRandoms()[k + 1], 625 - k);
  }

  lemma WalledMore(k: nat)
    requires k < 10
    ensures |Walled(k).obstacles| == k
    ensures Walled(k + 1) ==
            Walled(k).(rng := Randoms()[k + 1], obstacles := Walled(k).obstacles + [Obstacles()[k]])
  {
    hide Obstacles, Randoms, Body;
    assert Obstacles()[..k] + [Obstacles()[k]] == Obstacles()[..k + 1];
  }

  lemma WalledNext(k: nat)
    requires k < 10 && Shaped(Walled(k)) && Settled(Walled(k))
    ensures SpawnObstacle(Walled(k)) == (Walled(k + 1), true) && |Walled(k).obstacles| == k
    ensures Shaped(Walled(k + 1)) && Settled(Walled(k + 1))
  {
    ObstaclePick(k);
    WalledMore(k);
    hide Shaped, Settled, Pick, IsFree, Walled;
    AddObstacle(Walled(k), Obstacles()[k], Randoms()[k + 1]);
  }

  lemma {:induction false} AllWalled(k: nat)
    requires k <= 10 && Shaped(Walled(k)) && Settled(Walled(k))
    ensures ObstaclesTo(Walled(k), 10) == Walled(10)
    decreases 10 - k
  {
    hide Shaped, Settled, SpawnObstacle;
    if k < 10 {
      WalledNext(k);
      AllWalled(k + 1);
    }
  }

  lemma CoherentShaped(m: Snake)
    requires Coherent(m)
    ensures Shaped(m)
  {
  }

  lemma LaidMore(k: nat)
    requires k < 5
    ensures |Laid(k).apples| == k
    ensures Laid(k + 1) == Laid(k).(rng := LaterRandoms()[k + 1], apples := Laid(k).apples + [Apples()[k]])
  {
    hide Obstacles, Apples, LaterRandoms, Body;
    assert Apples()[..k] + [Apples()[k]] == Apples()[..k + 1];
  }

  lemma LaidNext(k: nat)
    requires k < 5 && Coherent(Laid(k)) && Settled(Laid(k))
    ensures SpawnApple(Laid(k)) == (Laid(k + 1), true) && |Laid(k).apples| == k
    ensures Coherent(Laid(k + 1)) && Settled(Laid(k + 1))
  {
    CoherentShaped(Laid(k));
    ApplePick(k);
    LaidMore(k);
    hide Coherent, Shaped, Settled, Pick, IsFree, Laid;
    AddApple(Laid(k), Apples()[k], LaterRandoms()[k + 1]);
  }

  lemma {:induction false} AllLaid(k: nat)
    requires k <= 5 && Coherent(Laid(k)) && Settled(Laid(k))
    ensures FillTo(Laid(k), 5) == Laid(5)
    decreases 5 - k
  {
    hide Coherent, Settled, SpawnApple;
    if k < 5 {
      LaidNext(k);
      AllLaid(k + 1);
    }
  }

  lemma StartsSo()
    ensures InitSnake(Right, 5, 101213) == Walled(0)
    ensures Walled(0).apples == Walled(0).obstacles == [] && |Walled(0).body| == 5
    ensures Walled(10) == Laid(0) && |Laid(0).obstacles| == 10 && EffectiveTarget(Laid(0), 5) == 5
  {
    assert InitBody(Right, 5) == Body();
    assert Obstacles()[..10] == Obstacles() && Apples()[..0] == [];
  }

  lemma ShapedCoherent(m: Snake)
    requires Shaped(m) && m.obstacles != []
    ensures Coherent(m)
  {
  }

  /** What this seed lays out. */
  lemma TheGame()
    ensures NewGame(Right, 5, 101213, 5) == Laid(5)
  {
    var m := InitSnake(Right, 5, 101213);
    StartsSo();
    InitShaped(Right, 5, 101213);
    hide Shaped, Settled, Coherent, ObstaclesTo, FillTo, InitSnake, Walled, Laid;
    AllWalled(0);
    ObstaclesToReaches(m, 10);
    ShapedCoherent(Laid(0));
    AllLaid(0);
  }

  // After moving onto the apple in front and eating it.
  function Eaten(): Snake {
    Snake(Right, [Cell(17, 10)] + Body()[..4], [Cell(17, 10)], [Cell(10, 4), Cell(22, 5), Cell(22, 10), Cell(10, 10)],
          Obstacles(), 1, 0x3008_1e99)
  }

  lemma FirstMove()
    ensures !Crashes(Laid(5), Right) && TailOf(Laid(5)) == Cell(12, 10)
    ensures Advance(Laid(5), Right) ==
            Snake(Right, [Cell(17, 10)] + Body()[..4], [], Apples(), Obstacles(), 0, 0x3008_1e99)
  {
    NextIsNeighbour(Cell(16, 10), Right);
    hide Next;
    assert Kept(Laid(5)) == Body()[..4];
    assert Apples()[..5] == Apples();
  }

  lemma FirstTick()
    ensures var m := Laid(5); m.body != [] && Eats(Advance(m, Right)) && Consume(Advance(m, Right)) == Eaten()
  {
    FirstMove();
    assert IndexOf(Apples(), Cell(17, 10)) == 1;
    assert Apples()[..1] + Apples()[2..] == Eaten().apples;
    hide IndexOf, Next, Advance;
  }

  lemma TailRandom()
    ensures NextRandom(Eaten().rng) == 0x48bf_c9f4 && 0x48bf_c9f4 as bv32 as int % 621 == 324
  {
  }

  lemma TailRank()
    ensures IsFree(Eaten(), Cell(12, 10)) && FreeCount(Eaten()) == 621 && Rank(Eaten(), Cell(12, 10)) == 324
  {
    assert CountBelow(Obstacles(), 10, 332) == 5;
    assert CountBelow(Eaten().apples, 4, 332) == 3;
    assert CountBelow(Eaten().body, 3, 332) == 0;
  }

  lemma TailIsNext()
    requires Shaped(Eaten()) && Settled(Eaten())
    ensures Pick(Eaten()).1 == Some(Cell(12, 10))
  {
    TailRank();
    TailRandom();
    hide *;
    PickGives(Eaten(), Cell(12, 10), 0x48bf_c9f4, 621);
  }

  /** The first tick of a game started at time 101213 leaves the picture of one cell out of
      date: the tail's cell has an apple, and the step has painted it as background. */
  lemma StaleHappens()
    ensures var m := NewGame(Right, 5, 101213, 5);
      && Coherent(m) && Settled(m) && Populated(m, 5) && !Crashes(m, Right)
      && TailOf(m) in Tick(m, Right, 5).apples
  {
    var m := NewGame(Right, 5, 101213, 5);
    TheGame();
    NewGameKeeps(Right, 5, 101213, 5);
    FirstMove();
    FirstTick();
    hide Coherent, Settled, Populated, Crashes, Tick, Consume, Advance, Pick, NewGame, TailOf, Laid, Eaten;
    StaleWhen(m, Right, 5);
    StepKeeps(m, Right);
    ConsumeKeeps(Advance(m, Right));
    CoherentShaped(Eaten());
    TailIsNext();
  }
}
