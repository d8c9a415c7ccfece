/** Overlapping copies (lib/string.c). */
module KString {
  type Byte = b: nat | b < 256

  // Memory after `size` bytes at src have been copied to dst.
  function Moved(mem: seq<Byte>, dst: nat, src: nat, size: nat): seq<Byte>
    requires dst + size <= |mem| && src + size <= |mem|
  {
    mem[..dst] + mem[src..src + size] + mem[dst + size..]
  }

  lemma MovedIs(was: seq<Byte>, now: seq<Byte>, dst: nat, src: nat, size: nat)
    requires |now| == |was| && dst + size <= |was| && src + size <= |was|
    requires forall k :: 0 <= k < |was| && !(dst <= k < dst + size) ==> now[k] == was[k]
    requires forall k {:trigger now[k]} :: dst <= k < dst + size ==> now[k] == was[k - dst + src]
    ensures now == Moved(was, dst, src, size)
  {
  }

  /** kmemmove inside one block of memory: the destination receives what the source held
      before the call, however the two overlap, and nothing else changes. */
  method Kmemmove(mem: array<Byte>, dst: nat, src: nat, size: nat)
    requires dst + size <= mem.Length && src + size <= mem.Length
    modifies mem
    ensures mem[..] == Moved(old(mem[..]), dst, src, size)
  {
    hide Moved;
    ghost var was := mem[..];
    if dst == src {
      MovedIs(was, was, dst, src, size);
      return;
    }
    if dst > src && dst < src + size {
      var left := size;
      while left != 0
        invariant 0 <= left <= size
        invariant forall k :: 0 <= k < mem.Length && !(dst + left <= k < dst + size) ==> mem[k] == was[k]
        invariant forall k {:trigger mem[k]} :: dst + left <= k < dst + size ==> mem[k] == was[k - dst + src]
      {
        mem[dst + left - 1] := mem[src + left - 1];
        left := left - 1;
      }
    } else {
      var i := 0;
      while i < size
        invariant 0 <= i <= size
        invariant forall k :: 0 <= k < mem.Length && !(dst <= k < dst + i) ==> mem[k] == was[k]
        invariant forall k {:trigger mem[k]} :: dst <= k < dst + i ==> mem[k] == was[k - dst + src]
      {
        mem[dst + i] := mem[src + i];
        i := i + 1;
      }
    }
    MovedIs(was, mem[..], dst, src, size);
  }
}

/** The text console (drivers/vga.c) as a window on an unbounded terminal. */
module Terminal {
  import opened KString

  // Characters that occur in C strings.
  type Text = s: seq<Byte> | forall k :: 0 <= k < |s| ==> s[k] != 0

  const BLANK: Byte := 32
  const NEWLINE: Byte := 10
  const COLOR: Byte := 7     // light gray on black

  /** The unbounded terminal: everything written so far, row after row, up to the cursor,
      and the number of rows that have scrolled out of sight. */
  datatype Tape = Tape(cells: seq<Byte>, top: nat)

  function Blanks(n: nat): seq<Byte> { seq(n, _ => BLANK) }

  // The terminal with one more character, before any scrolling.
  function Written(t: Tape, c: Byte): Tape {
    t.(cells := t.cells + if c == NEWLINE then Blanks(80 - |t.cells| % 80) else [c])
  }

  // Rows scroll away when the cursor would leave the 25-row window.
  function Scrolled(t: Tape): Tape {
    if |t.cells| >= 80 * (t.top + 25) then t.(top := t.top + 1) else t
  }

  function PutChar(t: Tape, c: Byte): Tape {
    Scrolled(Written(t, c))
  }

  function Put(t: Tape, s: seq<Byte>): Tape
    decreases |s|
  {
    if s == [] then t else Put(PutChar(t, s[0]), s[1..])
  }

  // Backspace takes back one cell, but nothing that is out of sight.
  function Backspace(t: Tape): Tape {
    if |t.cells| == 80 * t.top then t else
      if |t.cells| == 0 then t else t.(cells := t.cells[..|t.cells| - 1])
  }

  // The cursor is in the window.
  predicate InWindow(t: Tape) {
    80 * t.top <= |t.cells| < 80 * (t.top + 25)
  }

  // What the window shows at offset i.
  function Shown(t: Tape, i: nat): Byte {
    if 80 * t.top + i < |t.cells| then t.cells[80 * t.top + i] else BLANK
  }

  // Video memory: a character byte and a colour byte for every offset.
  function VideoByte(t: Tape, k: nat): Byte {
    if k % 2 == 0 then Shown(t, k / 2) else COLOR
  }

  // One character changes at most the cell under the cursor.
  lemma WrittenShows(t: Tape, c: Byte)
    requires InWindow(t)
    ensures var at, next := |t.cells| - 80 * t.top, Written(t, c);
      && (forall k :: 0 <= k < 4000 && (c == NEWLINE || k / 2 != at) ==> VideoByte(next, k) == VideoByte(t, k))
      && (c != NEWLINE ==> VideoByte(next, 2 * at) == c && VideoByte(next, 2 * at + 1) == COLOR)
      && |next.cells| - 80 * t.top == if c == NEWLINE then (at / 80 + 1) * 80 else at + 1
  {
  }

  /** Backspace takes back a typed character, also across a scroll. */
  lemma BackspaceUndoes(t: Tape, c: Byte)
    requires InWindow(t) && c != NEWLINE
    ensures Backspace(PutChar(t, c)).cells == t.cells
    ensures Backspace(PutChar(t, c)).top == PutChar(t, c).top
  {
  }

  lemma PutCharInWindow(t: Tape, c: Byte)
    requires InWindow(t)
    ensures InWindow(PutChar(t, c))
  {
  }

  lemma {:induction false} PutInWindow(t: Tape, s: seq<Byte>)
    requires InWindow(t)
    ensures InWindow(Put(t, s))
    decreases |s|
  {
    if s != [] {
      PutCharInWindow(t, s[0]);
      PutInWindow(PutChar(t, s[0]), s[1..]);
    }
  }

  /** Printing one string after another is printing their concatenation. */
  lemma {:induction false} PutConcat(t: Tape, s: seq<Byte>, u: seq<Byte>)
    ensures Put(t, s + u) == Put(Put(t, s), u)
    decreases |s|
  {
    if s == [] {
      assert s + u == u;
    } else {
      assert (s + u)[1..] == s[1..] + u;
      PutConcat(PutChar(t, s[0]), s[1..], u);
    }
  }

  /** Text without newlines appears as it is, ... */
  lemma {:induction false} PutPlain(t: Tape, s: seq<Byte>)
    requires NEWLINE !in s
    ensures Put(t, s).cells == t.cells + s
    decreases |s|
  {
    if s == [] {
      assert t.cells + s == t.cells;
    } else {
      PutPlain(PutChar(t, s[0]), s[1..]);
      assert t.cells + [s[0]] + s[1..] == t.cells + s;
    }
  }

  /** ... and a newline fills its row with blanks, a whole row if nothing is on it yet. */
  lemma PutNewline(t: Tape)
    ensures var cells := Put(t, [10]).cells;
      && |cells| == (|t.cells| / 80 + 1) * 80 && cells[..|t.cells|] == t.cells
      && forall i :: |t.cells| <= i < |cells| ==> cells[i] == 32
  {
    assert Put(PutChar(t, 10), [10][1..]) == PutChar(t, 10);
  }

  // The terminal without a window: text only.
  function CellsAfter(cells: seq<Byte>, s: seq<Byte>): seq<Byte>
    decreases |s|
  {
    if s == [] then cells else CellsAfter(Written(Tape(cells, 0), s[0]).cells, s[1..])
  }

  function Max(a: int, b: int): int { if a < b then b else a }

  /** Printing writes the text on a terminal that knows nothing of scrolling, and the
      window stands as high as it did unless its last 25 rows have to be lower. */
  lemma {:induction false} PutIsWindow(t: Tape, s: seq<Byte>)
    requires InWindow(t)
    ensures Put(t, s).cells == CellsAfter(t.cells, s)
    ensures Put(t, s).top == Max(t.top, |Put(t, s).cells| / 80 - 24)
    ensures |Put(t, s).cells| >= |t.cells|
    decreases |s|
  {
    if s != [] {
      PutCharInWindow(t, s[0]);
      PutIsWindow(PutChar(t, s[0]), s[1..]);
    }
  }

  datatype Op = Print(text: Text) | Back

  function Session(t: Tape, ops: seq<Op>): Tape
    decreases |ops|
  {
    if ops == [] then t else
      Session(match ops[0] case Print(s) => Put(t, s) case Back => Backspace(t), ops[1..])
  }

  /** A session, operation by operation. */
  lemma {:induction false} SessionNext(t: Tape, ops: seq<Op>, s: Text)
    ensures Session(t, ops + [Print(s)]) == Put(Session(t, ops), s)
    ensures Session(t, ops + [Back]) == Backspace(Session(t, ops))
    decreases |ops|
  {
    if ops == [] {
      assert ops + [Print(s)] == [Print(s)] && ops + [Back] == [Back];
      assert [Print(s)][1..] == [] && [Back][1..] == [];
    } else {
      var n := match ops[0] case Print(u) => Put(t, u) case Back => Backspace(t);
      assert (ops + [Print(s)])[1..] == ops[1..] + [Print(s)] && (ops + [Back])[1..] == ops[1..] + [Back];
      SessionNext(n, ops[1..], s);
    }
  }

  class Vga {
    const video: array<Byte>    // 2000 pairs of character and colour
    var cursorHigh: Byte
    var cursorLow: Byte

    ghost predicate Shape() {
      video.Length == 4000
    }

    // The screen shows the window of t, in the default colours, and blanks behind it.
    ghost predicate ShowsCells(t: Tape)
      reads video
    {
      Shape() && forall k :: 0 <= k < 4000 ==> video[k] == VideoByte(t, k)
    }

    function Cursor(): nat
      reads this
    {
      cursorHigh * 256 + cursorLow
    }

    ghost predicate Shows(t: Tape)
      reads this, video
    {
      ShowsCells(t) && InWindow(t) && Cursor() == |t.cells| - 80 * t.top
    }

    constructor ()
      ensures Shows(Tape([], 0)) && fresh(video)
    {
      video := new Byte[4000](i => if i % 2 == 0 then BLANK else COLOR);
      cursorHigh, cursorLow := 0, 0;
    }

    // The cursor register holds 16 bits, written as two bytes.
    method SetCursor(offset: nat)
      modifies this
      ensures Cursor() == offset % 0x1_0000
    {
      cursorHigh := offset / 256 % 256;
      cursorLow := offset % 256;
    }

    method SetCharDefaultColor(offset: nat, c: Byte)
      requires Shape() && offset < 2000
      modifies video
      ensures video[2 * offset] == c && video[2 * offset + 1] == COLOR
      ensures forall k :: 0 <= k < 4000 && k / 2 != offset ==> video[k] == old(video[k])
    {
      video[2 * offset] := c;
      video[2 * offset + 1] := COLOR;
    }

    method ClearScreen()
      requires Shape()
      modifies this, video
      ensures Shows(Tape([], 0))
    {
      var i := 0;
      while i < 2000
        invariant 0 <= i <= 2000
        invariant forall k :: 0 <= k < 2 * i ==> video[k] == VideoByte(Tape([], 0), k)
      {
        SetCharDefaultColor(i, BLANK);
        i := i + 1;
      }
      SetCursor(0);
    }

    method VgaBackspace(ghost t: Tape)
      requires Shows(t)
      modifies this, video
      ensures Shows(Backspace(t))
    {
      var offset := Cursor();
      if offset == 0 {
        return;
      }
      offset := offset - 1;
      SetCursor(offset);
      SetCharDefaultColor(offset, BLANK);
    }

    // Move everything up one row and blank the last one.
    method Scroll(ghost t: Tape) returns (offset: nat)
      requires ShowsCells(t) && |t.cells| == 80 * (t.top + 25)
      modifies video
      ensures offset == 1920 && ShowsCells(t.(top := t.top + 1))
    {
      ghost var was := video[..];
      ghost var up := t.(top := t.top + 1);
      Kmemmove(video, 0, 160, 3840);
      forall k | 0 <= k < 3840 ensures video[k] == VideoByte(up, k) {
        assert video[k] == was[k + 160];
      }
      var col := 0;
      while col < 80
        invariant 0 <= col <= 80
        invariant forall k :: 0 <= k < 3840 + 2 * col ==> video[k] == VideoByte(up, k)
      {
        SetCharDefaultColor(1920 + col, BLANK);
        col := col + 1;
      }
      offset := 1920;
    }

    // One iteration of the print loop.
    method PutOne(offset: nat, c: Byte, ghost t: Tape) returns (after: nat)
      requires ShowsCells(t) && InWindow(t) && offset == |t.cells| - 80 * t.top
      modifies video
      ensures ShowsCells(PutChar(t, c)) && after == |PutChar(t, c).cells| - 80 * PutChar(t, c).top
    {
      hide VideoByte;
      ghost var next := Written(t, c);
      WrittenShows(t, c);
      if c == NEWLINE {
        after := (offset / 80 + 1) * 80;
      } else {
        SetCharDefaultColor(offset, c);
        after := offset + 1;
      }
      assert ShowsCells(next);
      if after >= 2000 {
        after := Scroll(next);
      }
    }

    /** Printing: whatever the screen was a window of, it is now the window of that
        terminal with the text written on it. */
    method PrintString(s: Text, ghost t: Tape)
      requires Shows(t)
      modifies this, video
      ensures Shows(Put(t, s))
    {
      var offset := Cursor();
      var i := 0;
      ghost var cur := t;
      while i < |s|
        invariant 0 <= i <= |s| && ShowsCells(cur) && InWindow(cur) && offset == |cur.cells| - 80 * cur.top
        invariant Put(cur, s[i..]) == Put(t, s)
      {
        ghost var next := PutChar(cur, s[i]);
        PutCharInWindow(cur, s[i]);
        assert s[i..][1..] == s[i + 1..];
        offset := PutOne(offset, s[i], cur);
        i := i + 1;
        cur := next;
      }
      SetCursor(offset);
    }

    /** Any session of prints and backspaces. */
    method RunSession(ops: seq<Op>)
      requires Shows(Tape([], 0))
      modifies this, video
      ensures Shows(Session(Tape([], 0), ops))
    {
      hide Shows, Put, Backspace;
      var i := 0;
      ghost var t := Tape([], 0);
      assert ops[0..] == ops;
      while i < |ops|
        invariant 0 <= i <= |ops| && Shows(t) && Session(t, ops[i..]) == Session(Tape([], 0), ops)
      {
        assert ops[i..][1..] == ops[i + 1..];
        match ops[i] {
          case Print(s) => PrintString(s, t); t := Put(t, s);
          case Back => VgaBackspace(t); t := Backspace(t);
        }
        i := i + 1;
      }
    }
  }
}
