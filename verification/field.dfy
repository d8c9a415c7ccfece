/** The snake's playing field: a 32 by 20 torus (user/snake_game/snake_model.h and the
    coordinate helpers of snake_model.c). */
module Field {
  datatype Dir = Up | Right | Down | Left

  datatype Cell = Cell(x: nat, y: nat)

  predicate InField(c: Cell) { c.x < 32 && c.y < 20 }

  // The enumeration values of snake_dir_t.
  function Code(d: Dir): bv8 {
    match d case Up => 0 case Right => 1 case Down => 2 case Left => 3
  }

  predicate IsOpposite(a: Dir, b: Dir) { Code(a) ^ Code(b) == 2 }

  function Reverse(d: Dir): Dir {
    match d case Up => Down case Right => Left case Down => Up case Left => Right
  }

  function Dx(d: Dir): int { match d case Right => 1 case Left => -1 case _ => 0 }
  function Dy(d: Dir): int { match d case Down => 1 case Up => -1 case _ => 0 }

  // Remainder as C computes it: the sign follows the dividend.
  function CMod(a: int, n: int): int
    requires n > 0
  {
    if a >= 0 then a % n else -((-a) % n)
  }

  function WrapCoord(value: int, limit: int): (w: int)
    requires limit > 0
    ensures 0 <= w < limit
  {
    var wrapped := CMod(value, limit);
    if wrapped < 0 then wrapped + limit else wrapped
  }

  lemma WrapIsMod32(value: int)
    ensures WrapCoord(value, 32) == value % 32
  {
  }

  lemma WrapIsMod20(value: int)
    ensures WrapCoord(value, 20) == value % 20
  {
  }

  // On the two sides of the field, wrapping is reduction modulo the side.
  lemma WrapIsMod(value: int)
    ensures WrapCoord(value, 32) == value % 32 && WrapCoord(value, 20) == value % 20
  {
    hide WrapCoord;
    WrapIsMod32(value);
    WrapIsMod20(value);
  }

  // The neighbour of c in direction d.
  function Next(c: Cell, d: Dir): (n: Cell)
    ensures InField(n)
  {
    Cell(WrapCoord(c.x + Dx(d), 32), WrapCoord(c.y + Dy(d), 20))
  }

  predicate Adjacent(a: Cell, b: Cell) {
    a == Next(b, Up) || a == Next(b, Right) || a == Next(b, Down) || a == Next(b, Left)
  }

  lemma OppositeIsReverse(a: Dir, b: Dir)
    ensures IsOpposite(a, b) <==> b == Reverse(a)
  {
  }

  // The same, case by case.
  function Neighbour(c: Cell, d: Dir): Cell {
    match d
    case Up => Cell(c.x, if c.y == 0 then 19 else c.y - 1)
    case Right => Cell(if c.x == 31 then 0 else c.x + 1, c.y)
    case Down => Cell(c.x, if c.y == 19 then 0 else c.y + 1)
    case Left => Cell(if c.x == 0 then 31 else c.x - 1, c.y)
  }

  lemma WrapOneStep(v: int, limit: int)
    requires -1 <= v <= limit && (limit == 32 || limit == 20)
    ensures WrapCoord(v, limit) == if v == -1 then limit - 1 else if v == limit then 0 else v
  {
    WrapIsMod(v);
  }

  lemma NextIsNeighbour(c: Cell, d: Dir)
    requires InField(c)
    ensures Next(c, d) == Neighbour(c, d)
  {
    hide WrapCoord;
    WrapOneStep(c.x + Dx(d), 32);
    WrapOneStep(c.y + Dy(d), 20);
  }

  /** Different directions lead to different neighbours, none of them c itself, and
      only the reverse direction leads back. */
  lemma Neighbours(c: Cell, d: Dir, e: Dir)
    requires InField(c)
    ensures Next(c, d) != c
    ensures Next(c, d) == Next(c, e) ==> d == e
    ensures Next(Next(c, d), e) == c <==> e == Reverse(d)
  {
    hide Next;
    NextIsNeighbour(c, d);
    NextIsNeighbour(c, e);
    NextIsNeighbour(Next(c, d), e);
  }

  // Row-major numbering of the field.
  function CellAt(i: nat): Cell { Cell(i % 32, i / 32) }

  function IndexOfCell(c: Cell): nat { c.y * 32 + c.x }

  lemma CellIndex(c: Cell, i: nat)
    ensures InField(c) ==> IndexOfCell(c) < 640 && CellAt(IndexOfCell(c)) == c
    ensures i < 640 ==> InField(CellAt(i)) && IndexOfCell(CellAt(i)) == i
  {
  }

  ghost predicate Distinct<T(!new)>(s: seq<T>) {
    forall i, j :: 0 <= i < j < |s| ==> s[i] != s[j]
  }
}

/** Sequences kept in ring buffers. */
module Rings {
  // The buffer position i places after head.
  function Slot(head: nat, i: nat, size: nat): nat
    requires head < size && i <= size
  {
    if head + i < size then head + i else head + i - size
  }

  lemma Below(a: nat, n: nat)
    requires a < n
    ensures a % n == a && a / n == 0
  {
  }

  lemma OneTurn(a: nat, n: nat)
    requires a < n
    ensures (a + n) % n == a % n
  {
    Below(a, n);
    assert (a + n) / n == 1;
  }

  lemma SlotIsMod(head: nat, i: nat, size: nat)
    requires head < size && i <= size
    ensures Slot(head, i, size) == (head + i) % size
  {
    if head + i < size {
      Below(head + i, size);
    } else {
      Below(head + i - size, size);
      assert (head + i) % size == (head + i - size) % size by { OneTurn(head + i - size, size); }
    }
  }

  // The count elements of a ring buffer, front first.
  ghost function Ring<T>(buffer: seq<T>, head: nat, count: nat): (s: seq<T>)
    requires head < |buffer| && count <= |buffer|
    ensures |s| == count
  {
    seq(count, i requires 0 <= i < count => buffer[Slot(head, i, |buffer|)])
  }

  lemma RingAt<T>(buffer: seq<T>, head: nat, count: nat, i: nat)
    requires head < |buffer| && i < count <= |buffer|
    ensures Ring(buffer, head, count)[i] == buffer[Slot(head, i, |buffer|)]
  {
  }

  /** Writing behind the last element appends; advancing the head drops the front. */
  lemma RingPush<T>(buffer: seq<T>, head: nat, count: nat, x: T)
    requires head < |buffer| && count < |buffer|
    ensures Ring(buffer[Slot(head, count, |buffer|) := x], head, count + 1) == Ring(buffer, head, count) + [x]
  {
  }

  lemma RingPop<T>(buffer: seq<T>, head: nat, count: nat)
    requires head < |buffer| && 0 < count <= |buffer|
    ensures Ring(buffer, head, count)[0] == buffer[head]
    ensures Ring(buffer, Slot(head, 1, |buffer|), count - 1) == Ring(buffer, head, count)[1..]
  {
  }
}
