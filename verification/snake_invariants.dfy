/** What every game of snake keeps, for all inputs and all random numbers. */
module SnakeInvariants {
  import opened Field
  import opened SnakeRules

  // Consecutive body cells touch, and the head lies in direction dir of its neighbour.
  ghost predicate Chained(m: Snake) {
    && |m.body| >= 2
    && m.body[0] == Next(m.body[1], m.dir)
    && forall i :: 0 <= i < |m.body| - 1 ==> Adjacent(m.body[i], m.body[i + 1])
  }

  // The pending growth cells lie on the body, each nearer to the head than the one
  // queued before it, and all of them before the tail.
  ghost predicate GrowthOrdered(body: seq<Cell>, growth: seq<Cell>) {
    && (forall k :: 0 <= k < |growth| ==> growth[k] in body && IndexOf(body, growth[k]) <= |body| - 2)
    && (forall k, l :: 0 <= k < l < |growth| ==>
          growth[k] in body && growth[l] in body && IndexOf(body, growth[k]) > IndexOf(body, growth[l]))
  }

  ghost predicate Shaped(m: Snake) {
    && Chained(m)
    && Distinct(m.body) && Distinct(m.apples) && Distinct(m.obstacles)
    && (forall c :: c in m.body || c in m.apples || c in m.obstacles ==> InField(c))
    && (forall c :: c in m.obstacles ==> c !in m.body && c !in m.apples)
    && (forall c :: c in m.apples && c in m.body ==> c == m.body[0])
    && GrowthOrdered(m.body, m.growth)
    && (Eats(m) ==> m.body[0] !in m.growth)
    && |m.obstacles| <= 64 && |m.apples| <= 16
  }

  /** The invariant of the whole state.  The head may lie on an apple: that is so
      between a step and the consumption check that follows it. */
  ghost predicate Coherent(m: Snake) {
    Shaped(m) && m.obstacles != []
  }

  // At the end of a tick no apple lies under the snake.
  ghost predicate Settled(m: Snake) {
    m.body != [] && !Eats(m)
  }

  // ----- counting cells ------------------------------------------------------

  ghost function Cells(n: nat): set<Cell> {
    set i | 0 <= i < n :: CellAt(i)
  }

  lemma {:induction false} CellsCount(n: nat)
    requires n <= 640
    ensures |Cells(n)| == n
  {
    if n > 0 {
      CellsCount(n - 1);
      assert Cells(n) == Cells(n - 1) + {CellAt(n - 1)};
      forall i | 0 <= i < n - 1 ensures CellAt(i) != CellAt(n - 1) {
        CellIndex(CellAt(i), i);
        CellIndex(CellAt(n - 1), n - 1);
      }
    }
  }

  ghost function SetOf(s: seq<Cell>): set<Cell> { set c | c in s }

  lemma {:induction false} DistinctCount(s: seq<Cell>)
    requires Distinct(s)
    ensures |SetOf(s)| == |s|
  {
    if s != [] {
      var last := |s| - 1;
      DistinctCount(s[..last]);
      assert SetOf(s) == SetOf(s[..last]) + {s[last]};
    }
  }

  lemma FreeIsInField(m: Snake)
    ensures forall c :: IsFree(m, c) ==> InField(c) && IndexOfCell(c) < 640
  {
    forall c | IsFree(m, c) ensures IndexOfCell(c) < 640 {
      CellIndex(c, 0);
    }
  }

  lemma {:induction false} FreeCellsAre(m: Snake, n: nat)
    requires n <= 640
    ensures Distinct(FreeCells(m, n))
    ensures forall c :: c in FreeCells(m, n) <==> IsFree(m, c) && IndexOfCell(c) < n
  {
    hide CellAt, IndexOfCell, IsFree;
    if n == 0 {
    } else {
      FreeCellsAre(m, n - 1);
      CellIndex(CellAt(n - 1), n - 1);
      FreeIsInField(m);
      forall c | IsFree(m, c) && IndexOfCell(c) == n - 1 ensures c == CellAt(n - 1) {
        CellIndex(c, 0);
      }
    }
  }

  /** The free cells are listed in row-major order. */
  lemma {:induction false} FreeCellsOrdered(m: Snake, n: nat)
    requires n <= 640
    ensures forall i, j :: 0 <= i < j < |FreeCells(m, n)| ==>
      IndexOfCell(FreeCells(m, n)[i]) < IndexOfCell(FreeCells(m, n)[j])
  {
    hide CellAt, IndexOfCell, IsFree;
    if n > 0 {
      FreeCellsOrdered(m, n - 1);
      FreeCellsAre(m, n - 1);
      CellIndex(CellAt(n - 1), n - 1);
      var s := FreeCells(m, n - 1);
      forall i | 0 <= i < |s| ensures IndexOfCell(s[i]) < n - 1 {
        assert s[i] in s;
      }
    }
  }

  lemma CellsAreField(c: Cell)
    ensures c in Cells(640) <==> InField(c)
  {
    hide CellAt, IndexOfCell;
    CellIndex(c, 0);
    if InField(c) {
      assert CellAt(IndexOfCell(c)) in Cells(640);
    } else if c in Cells(640) {
      var i :| 0 <= i < 640 && c == CellAt(i);
      CellIndex(c, i);
    }
  }

  lemma TakenCount(m: Snake)
    requires Shaped(m) && Settled(m)
    ensures |SetOf(m.body) + SetOf(m.apples) + SetOf(m.obstacles)| == |m.body| + |m.apples| + |m.obstacles|
    ensures SetOf(m.body) + SetOf(m.apples) + SetOf(m.obstacles) <= Cells(640)
  {
    DistinctCount(m.body);
    DistinctCount(m.apples);
    DistinctCount(m.obstacles);
    assert SetOf(m.body) !! SetOf(m.apples);
    assert SetOf(m.body) + SetOf(m.apples) !! SetOf(m.obstacles);
    forall c | c in SetOf(m.body) + SetOf(m.apples) + SetOf(m.obstacles) ensures c in Cells(640) {
      CellsAreField(c);
    }
  }

  /** Counting argument behind the random placement: the program's count is the number
      of free cells, and `FreeCells` lists each of them once. */
  lemma FreeCellsCount(m: Snake)
    requires Shaped(m) && Settled(m)
    ensures |FreeCells(m, 640)| == FreeCount(m) >= 0
    ensures Distinct(FreeCells(m, 640))
    ensures forall c :: c in FreeCells(m, 640) <==> IsFree(m, c)
  {
    FreeCellsAre(m, 640);
    FreeIsInField(m);
    DistinctCount(FreeCells(m, 640));
    TakenCount(m);
    CellsCount(640);
    var free, taken := SetOf(FreeCells(m, 640)), SetOf(m.body) + SetOf(m.apples) + SetOf(m.obstacles);
    hide FreeCells, Shaped, CellAt, IndexOfCell, Cells;
    forall c ensures c in free <==> c in Cells(640) - taken {
      CellsAreField(c);
    }
    assert free == Cells(640) - taken;
  }

  lemma PickAmong(m: Snake, free: seq<Cell>, r: bv32)
    requires free == FreeCells(m, 640) && |free| == FreeCount(m) && r == NextRandom(m.rng)
    requires forall c :: c in free <==> IsFree(m, c)
    ensures Pick(m).1.Some? <==> exists c :: IsFree(m, c)
    ensures free != [] ==> Pick(m).1 == Some(free[r as int % |free|]) && IsFree(m, free[r as int % |free|])
  {
    hide FreeCells, IsFree, NextRandom, FreeCount;
    if free != [] {
      assert free[r as int % |free|] in free;
    }
  }

  /** A pick succeeds exactly when a free cell exists, and the residue of the random
      number selects among all free cells: the search never runs off the field. */
  lemma PickSound(m: Snake)
    requires Shaped(m) && Settled(m)
    ensures Pick(m).1.Some? <==> exists c :: IsFree(m, c)
    ensures Pick(m).1.Some? ==>
      && IsFree(m, Pick(m).1.value) && FreeCount(m) > 0
      && Pick(m).1.value == FreeCells(m, 640)[NextRandom(m.rng) as int % FreeCount(m)]
  {
    FreeCellsCount(m);
    hide Shaped, Settled, FreeCells, IsFree, NextRandom;
    PickAmong(m, FreeCells(m, 640), NextRandom(m.rng));
  }

  // How many of the first k cells of s are numbered below n.
  function CountBelow(s: seq<Cell>, k: nat, n: nat): nat
    requires k <= |s|
  {
    if k == 0 then 0 else CountBelow(s, k - 1, n) + if IndexOfCell(s[k - 1]) < n then 1 else 0
  }

  lemma {:induction false} BelowNext(s: seq<Cell>, k: nat, n: nat)
    requires n < 640 && k <= |s| && Distinct(s)
    requires forall c :: c in s ==> InField(c)
    ensures CountBelow(s, k, n + 1) == CountBelow(s, k, n) + if CellAt(n) in s[..k] then 1 else 0
  {
    hide CellAt, IndexOfCell;
    if k > 0 {
      BelowNext(s, k - 1, n);
      var last := s[k - 1];
      assert last in s;
      CellIndex(last, n);
      assert s[..k] == s[..k - 1] + [last];
      assert last !in s[..k - 1];
    }
  }

  lemma {:induction false} BelowPrefix(s: seq<Cell>, t: seq<Cell>, k: nat, n: nat)
    requires k <= |s| && k <= |t| && s[..k] == t[..k]
    ensures CountBelow(s, k, n) == CountBelow(t, k, n)
  {
    if k > 0 {
      assert s[k - 1] == s[..k][k - 1] == t[..k][k - 1] == t[k - 1];
      assert s[..k - 1] == s[..k][..k - 1] == t[..k][..k - 1] == t[..k - 1];
      BelowPrefix(s, t, k - 1, n);
    }
  }

  // How many cells numbered below n the snake, the obstacles and the apples take.
  function TakenBelow(m: Snake, n: nat): nat {
    CountBelow(m.body, |m.body|, n) + CountBelow(m.obstacles, |m.obstacles|, n) + CountBelow(m.apples, |m.apples|, n)
  }

  lemma TakenNext(m: Snake, n: nat)
    requires Shaped(m) && Settled(m) && n < 640
    ensures TakenBelow(m, n + 1) == TakenBelow(m, n) + if IsFree(m, CellAt(n)) then 0 else 1
  {
    hide Chained, GrowthOrdered, CellAt, InField, Distinct;
    BelowNext(m.body, |m.body|, n);
    BelowNext(m.obstacles, |m.obstacles|, n);
    BelowNext(m.apples, |m.apples|, n);
    CellIndex(CellAt(n), n);
    assert m.body[..|m.body|] == m.body && m.obstacles[..|m.obstacles|] == m.obstacles
      && m.apples[..|m.apples|] == m.apples;
  }

  // The number of free cells before c.
  function Rank(m: Snake, c: Cell): int {
    IndexOfCell(c) - TakenBelow(m, IndexOfCell(c))
  }

  lemma {:induction false} BelowNone(s: seq<Cell>, k: nat)
    requires k <= |s|
    ensures CountBelow(s, k, 0) == 0
  {
    if k > 0 {
      BelowNone(s, k - 1);
    }
  }

  lemma {:induction false} FreeCellsBelow(m: Snake, n: nat)
    requires Shaped(m) && Settled(m) && n <= 640
    ensures |FreeCells(m, n)| == n - TakenBelow(m, n)
  {
    hide Shaped, Settled, CellAt, IsFree, IndexOfCell;
    if n == 0 {
      BelowNone(m.body, |m.body|);
      BelowNone(m.obstacles, |m.obstacles|);
      BelowNone(m.apples, |m.apples|);
    } else {
      hide TakenBelow;
      FreeCellsBelow(m, n - 1);
      TakenNext(m, n - 1);
    }
  }

  // The cell with the rank k is the k-th free cell.
  lemma {:induction false} FreeCellAt(m: Snake, c: Cell, n: nat)
    requires IsFree(m, c) && IndexOfCell(c) < n <= 640
    ensures |FreeCells(m, IndexOfCell(c))| < |FreeCells(m, n)|
    ensures FreeCells(m, n)[|FreeCells(m, IndexOfCell(c))|] == c
  {
    hide CellAt, IndexOfCell, IsFree;
    CellIndex(c, 0);
    FreeIsInField(m);
    if IndexOfCell(c) < n - 1 {
      FreeCellAt(m, c, n - 1);
    }
  }

  /** A pick returns a given cell if and only if that cell is free and the random residue
      is its rank. */
  lemma PickIs(m: Snake, c: Cell)
    requires Shaped(m) && Settled(m)
    ensures Pick(m).1 == Some(c) <==>
      IsFree(m, c) && FreeCount(m) > 0 && NextRandom(m.rng) as int % FreeCount(m) == Rank(m, c)
  {
    PickSound(m);
    FreeCellsCount(m);
    FreeIsInField(m);
    hide Shaped, Settled, IsFree, Pick, NextRandom, IndexOfCell, CellAt, FreeCount;
    if IsFree(m, c) {
      FreeCellAt(m, c, 640);
      FreeCellsBelow(m, IndexOfCell(c));
    }
  }

  // The same with the next random number given.
  lemma PickGives(m: Snake, c: Cell, r: bv32, n: nat)
    requires Shaped(m) && Settled(m) && NextRandom(m.rng) == r
    requires IsFree(m, c) && FreeCount(m) == n > 0 && r as int % n == Rank(m, c)
    ensures Pick(m) == (r, Some(c))
  {
    hide Shaped, Settled, NextRandom, IsFree, Rank, FreeCells, FreeCount;
    PickIs(m, c);
  }

  // ----- moving --------------------------------------------------------------

  // Counted at once: body, apples and obstacles fit on the field together.
  lemma RoomLeft(m: Snake)
    requires Coherent(m) && Settled(m)
    ensures |m.body| + |m.apples| + |m.obstacles| <= 640 && |m.body| < 640
  {
    FreeCellsCount(m);
    hide FreeCells;
  }

  lemma IndexUnique(s: seq<Cell>, c: Cell, k: nat)
    requires Distinct(s) && k < |s| && s[k] == c
    ensures c in s && IndexOf(s, c) == k
  {
  }

  /** The snake grows on exactly the steps on which its tail would enter the cell of
      its oldest uncollected meal. */
  lemma GrowsWhen(m: Snake)
    requires Coherent(m) && Settled(m)
    ensures Grows(m) <==> m.growth != [] && IndexOf(m.body, m.growth[0]) == |m.body| - 2
  {
    RoomLeft(m);
    if m.growth != [] {
      assert m.growth[0] in m.body;
      if Grows(m) {
        IndexUnique(m.body, m.growth[0], |m.body| - 2);
      }
    }
  }

  // A pending growth cell lies on the part of the body that a step keeps.
  lemma PendingAhead(m: Snake, c: Cell)
    requires Coherent(m) && c in m.growth
    ensures c in m.body && IndexOf(m.body, c) <= |m.body| - 2
  {
  }

  lemma GrowthDistinct(m: Snake)
    requires Coherent(m)
    ensures Distinct(m.body) && |m.body| >= 2
  {
  }

  lemma StepBody(m: Snake, d: Dir)
    requires Coherent(m) && Settled(m) && !Crashes(m, d)
    ensures Distinct(Advance(m, d).body)
    ensures forall c :: c in Advance(m, d).body ==> c in m.body || c == Next(m.body[0], d)
    ensures |Advance(m, d).body| == |m.body| + if Grows(m) then 1 else 0
  {
  }

  // How one step moves the pending growth cells along the body.
  lemma GrowthShifts(m: Snake, d: Dir, c: Cell)
    requires Coherent(m) && Settled(m) && !Crashes(m, d)
    requires c in Advance(m, d).growth
    ensures c in m.growth && c in m.body && c in Advance(m, d).body
    ensures IndexOf(Advance(m, d).body, c) == 1 + IndexOf(m.body, c)
  {
    var n := Advance(m, d);
    var k := IndexOf(m.body, c);
    PendingAhead(m, c);
    StepBody(m, d);
    GrowthDistinct(m);
    hide Coherent, Settled, Crashes, IndexOf, Next, Distinct;
    assert n.body[k + 1] == m.body[k];
    IndexUnique(n.body, c, k + 1);
  }

  lemma StepSizes(m: Snake, d: Dir)
    requires Coherent(m) && !Crashes(m, d)
    ensures GrowthOrdered(m.body, m.growth) && m.body != [] && Advance(m, d).body != []
    ensures |Advance(m, d).growth| + (if Grows(m) then 1 else 0) == |m.growth|
  {
  }

  // The oldest pending cell is the one nearest to the tail.
  lemma FrontFirst(body: seq<Cell>, growth: seq<Cell>, k: nat)
    requires GrowthOrdered(body, growth) && k < |growth|
    ensures growth[0] in body && growth[k] in body && IndexOf(body, growth[k]) <= |body| - 2
    ensures k > 0 ==> IndexOf(body, growth[0]) > IndexOf(body, growth[k])
  {
    hide IndexOf;
  }

  // The k-th pending cell after a step is the k-th, or the one behind it, before.
  lemma StepGrowthAt(m: Snake, d: Dir, k: nat)
    requires Coherent(m) && Settled(m) && !Crashes(m, d) && k < |Advance(m, d).growth|
    ensures var n, s := Advance(m, d), if Grows(m) then 1 else 0;
      && n.growth[k] == m.growth[k + s] && n.growth[k] in n.body && n.growth[k] in m.body
      && IndexOf(n.body, n.growth[k]) == 1 + IndexOf(m.body, m.growth[k + s]) <= |n.body| - 2
  {
    hide Coherent, Settled, Crashes, Next, IndexOf, GrowthOrdered;
    StepSizes(m, d);
    StepBody(m, d);
    GrowsWhen(m);
    var n, s := Advance(m, d), if Grows(m) then 1 else 0;
    GrowthShifts(m, d, n.growth[k]);
    FrontFirst(m.body, m.growth, k + s);
  }

  lemma ShiftOrdered(body0: seq<Cell>, growth0: seq<Cell>, body: seq<Cell>, growth: seq<Cell>, s: nat)
    requires GrowthOrdered(body0, growth0) && |growth| + s == |growth0| && body != []
    requires forall k :: 0 <= k < |growth| ==>
      && growth[k] == growth0[k + s] && growth[k] in body && growth[k] in body0
      && IndexOf(body, growth[k]) == 1 + IndexOf(body0, growth[k]) <= |body| - 2
    ensures GrowthOrdered(body, growth) && body[0] !in growth
  {
    hide IndexOf;
    forall k, l | 0 <= k < l < |growth| ensures IndexOf(body, growth[k]) > IndexOf(body, growth[l]) {
      assert IndexOf(body0, growth0[k + s]) > IndexOf(body0, growth0[l + s]);
    }
  }

  lemma StepGrowth(m: Snake, d: Dir)
    requires Coherent(m) && Settled(m) && !Crashes(m, d)
    ensures GrowthOrdered(Advance(m, d).body, Advance(m, d).growth) && Advance(m, d).body != []
    ensures Advance(m, d).body[0] !in Advance(m, d).growth
  {
    hide *;
    StepSizes(m, d);
    var n, s := Advance(m, d), if Grows(m) then 1 else 0;
    forall k | 0 <= k < |n.growth|
      ensures n.growth[k] == m.growth[k + s] && n.growth[k] in n.body && n.growth[k] in m.body
      ensures IndexOf(n.body, n.growth[k]) == 1 + IndexOf(m.body, n.growth[k]) <= |n.body| - 2
    {
      StepGrowthAt(m, d, k);
    }
    ShiftOrdered(m.body, m.growth, n.body, n.growth, s);
  }

  lemma StepChained(m: Snake, d: Dir)
    requires Coherent(m) && !Crashes(m, d)
    ensures Chained(Advance(m, d))
  {
    var n := Advance(m, d);
    assert n.body[0] == Next(n.body[1], d);
    forall i | 0 <= i < |n.body| - 1 ensures Adjacent(n.body[i], n.body[i + 1]) {
      if i > 0 {
        assert Adjacent(m.body[i - 1], m.body[i]);
      }
    }
  }

  /** Every surviving step keeps the whole-state invariant. */
  lemma StepKeeps(m: Snake, d: Dir)
    requires Coherent(m) && Settled(m) && !Crashes(m, d)
    ensures Coherent(Advance(m, d))
  {
    StepBody(m, d);
    StepGrowth(m, d);
    StepChained(m, d);
    hide Chained, GrowthOrdered, Next;
  }

  // ----- eating --------------------------------------------------------------

  lemma EatenGone(apples: seq<Cell>, c: Cell)
    requires Distinct(apples) && c in apples
    ensures var k := IndexOf(apples, c); var rest := apples[..k] + apples[k + 1..];
      Distinct(rest) && |rest| == |apples| - 1 && forall a :: a in rest <==> a in apples && a != c
  {
    var k := IndexOf(apples, c);
    var rest := apples[..k] + apples[k + 1..];
    hide IndexOf;
    forall a | a in apples && a != c ensures a in rest {
      var i :| 0 <= i < |apples| && apples[i] == a;
      assert a == rest[if i < k then i else i - 1];
    }
    forall a | a in rest ensures a in apples && a != c {
      var i :| 0 <= i < |rest| && rest[i] == a;
      assert a == apples[if i < k then i else i + 1];
    }
  }

  lemma {:induction false} Descending(body: seq<Cell>, growth: seq<Cell>, k: nat)
    requires GrowthOrdered(body, growth) && k < |growth|
    ensures growth[0] in body && growth[k] in body
    ensures IndexOf(body, growth[0]) >= IndexOf(body, growth[k]) + k
  {
    if k > 0 {
      Descending(body, growth, k - 1);
    }
  }

  lemma GrowthBound(m: Snake)
    requires Coherent(m)
    ensures |m.growth| <= |m.body| - 1
  {
    if m.growth != [] {
      Descending(m.body, m.growth, |m.growth| - 1);
    }
  }

  lemma AppendOrdered(body: seq<Cell>, growth: seq<Cell>)
    requires GrowthOrdered(body, growth) && |body| >= 2 && body[0] !in growth
    ensures GrowthOrdered(body, growth + [body[0]])
  {
    var g := growth + [body[0]];
    assert IndexOf(body, body[0]) == 0;
    hide IndexOf;
    forall k | 0 <= k < |growth| ensures IndexOf(body, g[k]) > 0 {
      assert g[k] in growth;
    }
  }

  lemma BodyFits(m: Snake)
    requires Coherent(m)
    ensures |m.body| < 640
  {
    var s := m.(apples := []);
    assert Coherent(s) && Settled(s);
    RoomLeft(s);
  }

  lemma ConsumeNothing(m: Snake)
    requires m.body != []
    ensures !Eats(m) ==> Consume(m) == m
  {
  }

  lemma ConsumeParts(m: Snake)
    requires Coherent(m) && Eats(m)
    ensures var n := Consume(m);
      && n.growth == m.growth + [m.body[0]] && GrowthOrdered(m.body, n.growth)
      && n == m.(growth := n.growth, apples := n.apples, score := n.score)
      && Distinct(n.apples) && |n.apples| == |m.apples| - 1
      && (forall a :: a in n.apples <==> a in m.apples && a != m.body[0])
  {
    GrowthBound(m);
    BodyFits(m);
    assert GrowthOrdered(m.body, m.growth) && m.body[0] !in m.growth && |m.body| >= 2;
    assert Distinct(m.apples);
    hide Coherent, Shaped, GrowthOrdered, IndexOf;
    AppendOrdered(m.body, m.growth);
    EatenGone(m.apples, m.body[0]);
  }

  /** Eating keeps the invariant, takes exactly the apple under the head, and always
      finds room in the queue. */
  lemma ConsumeKeeps(m: Snake)
    requires Coherent(m)
    ensures Coherent(Consume(m)) && Settled(Consume(m))
    ensures Eats(m) ==>
      && Consume(m).growth == m.growth + [m.body[0]]
      && |Consume(m).apples| == |m.apples| - 1
      && (forall a :: a in Consume(m).apples <==> a in m.apples && a != m.body[0])
  {
    hide IndexOf, GrowthOrdered, Next;
    if Eats(m) {
      ConsumeParts(m);
      hide Consume;
      assert Chained(Consume(m));
    }
  }

  // ----- placing -------------------------------------------------------------

  // What adding an apple or an obstacle leaves alone.
  predicate SameSnake(m: Snake, n: Snake) {
    n.dir == m.dir && n.body == m.body && n.growth == m.growth && n.score == m.score
  }

  lemma AddApple(m: Snake, c: Cell, r: bv32)
    requires Coherent(m) && Settled(m) && IsFree(m, c) && |m.apples| < 16
    ensures Coherent(m.(rng := r, apples := m.apples + [c])) && Settled(m.(rng := r, apples := m.apples + [c]))
  {
    hide GrowthOrdered;
    var n := m.(rng := r, apples := m.apples + [c]);
    assert Chained(n);
  }

  lemma NewRng(m: Snake, r: bv32)
    requires Coherent(m) && Settled(m)
    ensures Coherent(m.(rng := r)) && Settled(m.(rng := r))
  {
    hide GrowthOrdered;
    assert Chained(m.(rng := r));
  }

  /** Spawning an apple succeeds exactly when there is room for one. */
  lemma SpawnAppleKeeps(m: Snake)
    requires Coherent(m) && Settled(m)
    ensures var (n, ok) := SpawnApple(m);
      && Coherent(n) && Settled(n) && SameSnake(m, n) && n.obstacles == m.obstacles
      && (ok <==> |m.apples| < 16 && |m.body| + |m.obstacles| + |m.apples| < 640)
      && |n.apples| == |m.apples| + (if ok then 1 else 0)
      && m.apples <= n.apples
  {
    PickSound(m);
    FreeCellsCount(m);
    hide Coherent, Shaped, FreeCells, IsFree, NextRandom, Settled;
    var (r, cell) := Pick(m);
    if |m.apples| < 16 {
      match cell
      case Some(c) => AddApple(m, c, r);
      case None => NewRng(m, r);
    }
  }

  /** Filling ends with exactly the apples asked for, or as many as fit. */
  lemma {:induction false} FillToReaches(m: Snake, target: nat)
    requires Coherent(m) && Settled(m)
    requires |m.apples| <= target <= 16 && target <= 640 - |m.body| - |m.obstacles|
    ensures var n := FillTo(m, target);
      Coherent(n) && Settled(n) && SameSnake(m, n) && n.obstacles == m.obstacles
        && |n.apples| == target && m.apples <= n.apples
    decreases target - |m.apples|
  {
    if |m.apples| < target {
      SpawnAppleKeeps(m);
      var (n, ok) := SpawnApple(m);
      hide *;
      FillToReaches(n, target);
    }
  }

  // ----- a tick --------------------------------------------------------------

  // The population rule: as many apples as asked for, as allowed, and as fit.
  ghost predicate Populated(m: Snake, requested: nat) {
    |m.apples| == EffectiveTarget(m, requested)
  }

  function Min(a: int, b: int): int { if a < b then a else b }

  lemma EffectiveTargetIsMin(m: Snake, requested: nat)
    requires Coherent(m) && Settled(m)
    ensures EffectiveTarget(m, requested) == Min(requested, Min(16, 640 - |m.body| - |m.obstacles|))
  {
    RoomLeft(m);
  }

  /** A step that eats nothing keeps the population: when it grows the snake, either
      the field was not full of apples, or the step was not survivable. */
  lemma StepPopulated(m: Snake, d: Dir, requested: nat)
    requires Coherent(m) && Settled(m) && !Crashes(m, d) && Populated(m, requested)
    requires !Eats(Advance(m, d))
    ensures Populated(Advance(m, d), requested)
  {
    StepKeeps(m, d);
    StepBody(m, d);
    RoomLeft(m);
    RoomLeft(Advance(m, d));
    hide Coherent, Crashes, Grows;
  }

  /** Every tick that the snake survives keeps the invariant and the population. */
  lemma TickKeeps(m: Snake, d: Dir, requested: nat)
    requires Coherent(m) && Settled(m) && !Crashes(m, d) && Populated(m, requested)
    ensures var n := Tick(m, d, requested);
      Coherent(n) && Settled(n) && Populated(n, requested) && n.obstacles == m.obstacles
  {
    var n := Advance(m, d);
    StepKeeps(m, d);
    StepBody(m, d);
    RoomLeft(m);
    if Eats(n) {
      ConsumeKeeps(n);
      var e := Consume(n);
      RoomLeft(e);
      assert e.body == n.body && e.obstacles == m.obstacles && |e.apples| == |m.apples| - 1;
      hide Coherent, Consume, Advance, Crashes, FillTo, Settled;
      FillToReaches(e, EffectiveTarget(e, requested));
    } else {
      StepPopulated(m, d, requested);
    }
  }

  // ----- a new game ----------------------------------------------------------

  // The longest initial body that does not run into itself.
  function MaxInitial(d: Dir): nat { if d == Up || d == Down then 20 else 32 }

  lemma Mod32(v: int, s: int)
    ensures (v % 32 + s) % 32 == (v + s) % 32
    ensures 0 < s < 32 ==> (v + s) % 32 != v % 32
  {
  }

  lemma Mod20(v: int, s: int)
    ensures (v % 20 + s) % 20 == (v + s) % 20
    ensures 0 < s < 20 ==> (v + s) % 20 != v % 20
  {
  }

  // Wrapping after each move and wrapping once at the end agree.
  lemma WrapOnce(v: int, s: int)
    ensures WrapCoord(WrapCoord(v, 32) + s, 32) == WrapCoord(v + s, 32)
    ensures WrapCoord(WrapCoord(v, 20) + s, 20) == WrapCoord(v + s, 20)
  {
    hide WrapCoord;
    WrapIsMod(v);
    WrapIsMod(v + s);
    WrapIsMod(v % 32 + s);
    WrapIsMod(v % 20 + s);
    Mod32(v, s);
    Mod20(v, s);
  }

  lemma InitChain(d: Dir, i: nat)
    ensures InField(InitCell(d, i)) && InitCell(d, i) == Next(InitCell(d, i + 1), d)
  {
    hide WrapCoord;
    WrapOnce(16 - Dx(d) * (i + 1), Dx(d));
    WrapOnce(10 - Dy(d) * (i + 1), Dy(d));
  }

  lemma InitCells(d: Dir, i: nat, j: nat)
    requires i < j < MaxInitial(d)
    ensures InitCell(d, i) != InitCell(d, j)
  {
    hide WrapCoord;
    var u, v := if Dx(d) == 1 then j else i, if Dx(d) == 1 then i else j;
    var p, q := if Dy(d) == 1 then j else i, if Dy(d) == 1 then i else j;
    WrapIsMod(16 - Dx(d) * u);
    WrapIsMod(16 - Dx(d) * v);
    WrapIsMod(10 - Dy(d) * p);
    WrapIsMod(10 - Dy(d) * q);
    Mod32(16 - Dx(d) * u, j - i);
    Mod20(10 - Dy(d) * p, j - i);
  }

  /** The initial body is free of repetition exactly up to the width, or the height, of
      the field: a longer one wraps around onto its own head. */
  lemma InitDistinct(d: Dir, length: nat)
    ensures Distinct(InitBody(d, length)) <==> length <= MaxInitial(d)
  {
    if length <= MaxInitial(d) {
      forall i, j | 0 <= i < j < length ensures InitCell(d, i) != InitCell(d, j) {
        InitCells(d, i, j);
      }
    } else {
      var n := MaxInitial(d);
      WrapIsMod(16);
      WrapIsMod(10);
      WrapIsMod(16 - Dx(d) * n);
      WrapIsMod(10 - Dy(d) * n);
      assert InitBody(d, length)[0] == InitBody(d, length)[n];
    }
  }

  // A snake of the given length in the middle of an empty field.
  function InitSnake(d: Dir, length: nat, rng: bv32): Snake {
    Snake(d, InitBody(d, length), [], [], [], 0, rng)
  }

  lemma InitShaped(d: Dir, length: nat, rng: bv32)
    requires 2 <= length <= MaxInitial(d)
    ensures Shaped(InitSnake(d, length, rng)) && Settled(InitSnake(d, length, rng))
  {
    InitDistinct(d, length);
    forall i | 0 <= i < length ensures InField(InitCell(d, i)) && InitCell(d, i) == Next(InitCell(d, i + 1), d) {
      InitChain(d, i);
    }
    hide InitCell, Next;
  }

  lemma AddObstacle(m: Snake, c: Cell, r: bv32)
    requires Shaped(m) && Settled(m) && IsFree(m, c) && |m.obstacles| < 64
    ensures Shaped(m.(rng := r, obstacles := m.obstacles + [c])) &&
      Settled(m.(rng := r, obstacles := m.obstacles + [c]))
  {
    hide GrowthOrdered;
    assert Chained(m.(rng := r, obstacles := m.obstacles + [c]));
  }

  lemma FreeExists(m: Snake)
    requires |FreeCells(m, 640)| == FreeCount(m) > 0 && forall c :: c in FreeCells(m, 640) <==> IsFree(m, c)
    ensures exists c :: IsFree(m, c)
  {
    assert FreeCells(m, 640)[0] in FreeCells(m, 640);
  }

  lemma {:induction false} ObstaclesToReaches(m: Snake, target: nat)
    requires Shaped(m) && Settled(m) && |m.obstacles| <= target <= 64 && target <= 640 - |m.body| - |m.apples|
    ensures var n := ObstaclesTo(m, target);
      Shaped(n) && Settled(n) && SameSnake(m, n) && n.apples == m.apples && |n.obstacles| == target
    decreases target - |m.obstacles|
  {
    if |m.obstacles| < target {
      PickSound(m);
      FreeCellsCount(m);
      FreeExists(m);
      var (r, cell) := Pick(m);
      AddObstacle(m, cell.value, r);
      hide Shaped, Settled, Pick, FreeCells, IsFree;
      ObstaclesToReaches(SpawnObstacle(m).0, target);
    }
  }

  // snake_reset_game for ten obstacles
  function NewGame(d: Dir, length: nat, seed: bv32, requested: nat): Snake {
    var rng := if seed == 0 then 0xA341_316C else seed;
    Fill(ObstaclesTo(InitSnake(d, length, rng), 10), requested)
  }

  /** A new game starts in a coherent, settled, populated state. */
  lemma NewGameKeeps(d: Dir, length: nat, seed: bv32, requested: nat)
    requires 2 <= length <= MaxInitial(d)
    ensures var m := NewGame(d, length, seed, requested);
      && Coherent(m) && Settled(m) && Populated(m, requested)
      && m.dir == d && |m.body| == length && m.growth == [] && m.score == 0 && |m.obstacles| == 10
  {
    var rng := if seed == 0 then 0xA341_316C else seed;
    var m := InitSnake(d, length, rng);
    InitShaped(d, length, rng);
    ObstaclesToReaches(m, 10);
    var o := ObstaclesTo(m, 10);
    hide Shaped, ObstaclesTo, FillTo, InitBody;
    FillToReaches(o, EffectiveTarget(o, requested));
  }

  lemma {:induction false} ObstaclesSameBody(m: Snake, target: nat)
    ensures ObstaclesTo(m, target).body == m.body
    decreases target - |m.obstacles|
  {
    hide Pick;
    if |m.obstacles| < target && SpawnObstacle(m).1 {
      ObstaclesSameBody(SpawnObstacle(m).0, target);
    }
  }

  lemma {:induction false} FillSnake(m: Snake, target: nat)
    ensures SameSnake(m, FillTo(m, target))
    decreases target - |m.apples|
  {
    if |m.apples| < target {
      hide Pick;
      var (n, ok) := SpawnApple(m);
      if ok {
        FillSnake(n, target);
      }
    }
  }

  lemma NewGameBody(d: Dir, length: nat, seed: bv32, requested: nat)
    ensures NewGame(d, length, seed, requested).body == InitBody(d, length)
  {
    var m := InitSnake(d, length, if seed == 0 then 0xA341_316C else seed);
    ObstaclesSameBody(m, 10);
    FillSnake(ObstaclesTo(m, 10), EffectiveTarget(ObstaclesTo(m, 10), requested));
    hide ObstaclesTo, FillTo, InitBody;
  }

  lemma NeedsDistinct(m: Snake)
    ensures Coherent(m) ==> |m.body| >= 2 && Distinct(m.body)
  {
  }

  /** Exactly the lengths from two up to the side of the field make a game that is
      coherent, settled and populated, with ten obstacles. */
  lemma NewGameExactly(d: Dir, length: nat, seed: bv32, requested: nat)
    ensures var m := NewGame(d, length, seed, requested);
      Coherent(m) && Settled(m) && Populated(m, requested) && |m.obstacles| == 10 && m.dir == d
      <==> 2 <= length <= MaxInitial(d)
  {
    if 2 <= length <= MaxInitial(d) {
      NewGameKeeps(d, length, seed, requested);
    } else {
      NewGameBody(d, length, seed, requested);
      InitDistinct(d, length);
      hide NewGame, InitBody, Distinct;
      NeedsDistinct(NewGame(d, length, seed, requested));
    }
  }
}
