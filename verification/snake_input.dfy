/** The snake's turn queue (user/snake_game/snake_input.c). */
module SnakeInput {
  import opened Field
  import opened Rings

  datatype Action = Quit | Restart | PauseToggle | Confirm | ApplesDec | ApplesInc

  // What a key means to the game.
  datatype Key = Turn(dir: Dir) | Speed | Act(action: Action) | Other

  datatype Event = Event(key: Key, pressed: bool)

  datatype Turns = Turns(committed: Dir, enabled: bool, queue: seq<Dir>, pending: set<Action>, held: set<Key>)

  // The turn that a new one follows.
  function LastTurn(v: Turns): Dir {
    if v.queue == [] then v.committed else v.queue[|v.queue| - 1]
  }

  function Enqueue(v: Turns, d: Dir): Turns {
    if !v.enabled || d == LastTurn(v) || IsOpposite(d, LastTurn(v)) || |v.queue| >= 8 then v
    else v.(queue := v.queue + [d])
  }

  function OnEvent(v: Turns, e: Event): Turns {
    match e.key
    case Turn(d) =>
      if e.pressed then
        var p := if d == Left then {ApplesDec} else if d == Right then {ApplesInc} else {};
        Enqueue(v.(pending := v.pending + p, held := v.held + {e.key}), d)
      else v.(held := v.held - {e.key})
    case Speed => v.(held := if e.pressed then v.held + {e.key} else v.held - {e.key})
    case Act(a) => if e.pressed then v.(pending := v.pending + {a}) else v
    case Other => v
  }

  function Poll(v: Turns, events: seq<Event>): Turns
    decreases |events|
  {
    if events == [] then v else Poll(OnEvent(v, events[0]), events[1..])
  }

  // The direction that the i-th queued turn follows.
  function Before(v: Turns, i: nat): Dir
    requires i < |v.queue|
  {
    if i == 0 then v.committed else v.queue[i - 1]
  }

  predicate RealTurn(from: Dir, to: Dir) {
    to != from && !IsOpposite(to, from)
  }

  /** Every queued turn is a real one: neither the direction it follows nor its opposite. */
  ghost predicate TurnsOk(v: Turns) {
    && |v.queue| <= 8
    && forall i :: 0 <= i < |v.queue| ==> RealTurn(Before(v, i), v.queue[i])
  }

  lemma EnqueueKeeps(v: Turns, d: Dir)
    requires TurnsOk(v)
    ensures TurnsOk(Enqueue(v, d)) && Enqueue(v, d).committed == v.committed
  {
    hide IsOpposite;
    var w := Enqueue(v, d);
    forall i | 0 <= i < |w.queue| ensures RealTurn(Before(w, i), w.queue[i]) {
      assert i < |v.queue| ==> RealTurn(Before(v, i), v.queue[i]);
    }
  }

  lemma SameTurns(v: Turns, w: Turns)
    ensures TurnsOk(v) && w == v.(pending := w.pending, held := w.held) ==> TurnsOk(w)
  {
    assert w == v.(pending := w.pending, held := w.held) ==>
      forall i :: 0 <= i < |w.queue| ==> Before(w, i) == Before(v, i);
  }

  /** No sequence of key events makes the queue unreal, or changes the committed
      direction. */
  lemma {:induction false} PollKeeps(v: Turns, events: seq<Event>)
    requires TurnsOk(v)
    ensures TurnsOk(Poll(v, events))
    ensures Poll(v, events).committed == v.committed && Poll(v, events).enabled == v.enabled
    ensures !v.enabled ==> Poll(v, events).queue == v.queue
    decreases |events|
  {
    if events != [] {
      var e := events[0];
      SameTurns(v, OnEvent(v, e));
      if e.pressed && e.key.Turn? {
        var p := if e.key.dir == Left then {ApplesDec} else if e.key.dir == Right then {ApplesInc} else {};
        var u := v.(pending := v.pending + p, held := v.held + {e.key});
        SameTurns(v, u);
        EnqueueKeeps(u, e.key.dir);
      }
      PollKeeps(OnEvent(v, e), events[1..]);
    }
  }

  /** Popping commits the oldest turn, a real turn from what was committed before. */
  lemma PopKeeps(v: Turns)
    requires TurnsOk(v) && v.queue != []
    ensures RealTurn(v.committed, v.queue[0])
    ensures TurnsOk(v.(committed := v.queue[0], queue := v.queue[1..]))
  {
    hide RealTurn;
    var w := v.(committed := v.queue[0], queue := v.queue[1..]);
    assert RealTurn(Before(v, 0), v.queue[0]);
    forall i | 0 <= i < |w.queue| ensures RealTurn(Before(w, i), w.queue[i]) {
      assert RealTurn(Before(v, i + 1), v.queue[i + 1]);
    }
  }

  // Does the event ask for action a?
  predicate Asks(e: Event, a: Action) {
    e.pressed &&
      (e.key == Act(a) || (a == ApplesDec && e.key == Turn(Left)) || (a == ApplesInc && e.key == Turn(Right)))
  }

  /** An action is pending after a batch of events exactly when it was before or some event
      asks for it. */
  lemma {:induction false} PollPending(v: Turns, events: seq<Event>, a: Action)
    ensures a in Poll(v, events).pending <==>
      a in v.pending || exists i :: 0 <= i < |events| && Asks(events[i], a)
    decreases |events|
  {
    if events != [] {
      var w := OnEvent(v, events[0]);
      assert a in w.pending <==> a in v.pending || Asks(events[0], a);
      hide Asks, OnEvent;
      PollPending(w, events[1..], a);
      assert forall i :: 0 <= i < |events| - 1 ==> events[1..][i] == events[i + 1];
      if i :| 0 <= i < |events| && Asks(events[i], a) && i > 0 {
        assert events[1..][i - 1] == events[i];
      }
    }
  }

  // Is key k held after these events, if `held` says whether it was before?
  predicate HeldAfter(events: seq<Event>, k: Key, held: bool) {
    || (held && forall i :: 0 <= i < |events| ==> events[i].key != k)
    || exists i :: 0 <= i < |events| && events[i].key == k && events[i].pressed
                   && forall j :: i < j < |events| ==> events[j].key != k
  }

  lemma HeldShift(events: seq<Event>, k: Key, held: bool)
    requires events != []
    ensures HeldAfter(events, k, held) <==>
      HeldAfter(events[1..], k, if events[0].key == k then events[0].pressed else held)
  {
    var rest, now := events[1..], if events[0].key == k then events[0].pressed else held;
    assert forall i :: 0 <= i < |rest| ==> rest[i] == events[i + 1];
    if i :| 0 <= i < |events| && events[i].key == k && events[i].pressed
            && forall j :: i < j < |events| ==> events[j].key != k {
      if i > 0 {
        assert rest[i - 1] == events[i];
      }
    }
    if i :| 0 <= i < |rest| && rest[i].key == k && rest[i].pressed && forall j :: i < j < |rest| ==> rest[j].key != k {
      assert events[i + 1] == rest[i];
      assert forall j :: i + 1 < j < |events| ==> events[j] == rest[j - 1];
    }
    assert forall i :: 0 < i < |events| ==> events[i] == rest[i - 1];
  }

  /** A key is held exactly when its last event is a press. */
  lemma {:induction false} PollHeld(v: Turns, events: seq<Event>, k: Key)
    requires k.Turn? || k.Speed?
    ensures k in Poll(v, events).held <==> HeldAfter(events, k, k in v.held)
    decreases |events|
  {
    if events != [] {
      var w, rest := OnEvent(v, events[0]), events[1..];
      assert k in w.held <==> if events[0].key == k then events[0].pressed else k in v.held;
      hide OnEvent;
      PollHeld(w, rest, k);
      HeldShift(events, k, k in v.held);
    }
  }

  // Presses of the turn keys.
  function Presses(dirs: seq<Dir>): seq<Event> {
    seq(|dirs|, i requires 0 <= i < |dirs| => Event(Turn(dirs[i]), true))
  }

  function Prior(from: Dir, dirs: seq<Dir>, i: nat): Dir
    requires i < |dirs|
  {
    if i == 0 then from else dirs[i - 1]
  }

  predicate TurnsFrom(before: Dir, d: Dir) { d != before && d != Reverse(before) }

  // Each direction is neither the one before it nor the reverse of that.
  predicate RealTurns(from: Dir, dirs: seq<Dir>) {
    forall i :: 0 <= i < |dirs| ==> TurnsFrom(Prior(from, dirs, i), dirs[i])
  }

  lemma RealTurnsRest(from: Dir, dirs: seq<Dir>)
    requires dirs != [] && RealTurns(from, dirs)
    ensures TurnsFrom(from, dirs[0]) && RealTurns(dirs[0], dirs[1..])
  {
    assert TurnsFrom(Prior(from, dirs, 0), dirs[0]);
    forall i | 0 <= i < |dirs| - 1 ensures TurnsFrom(Prior(dirs[0], dirs[1..], i), dirs[1..][i]) {
      assert TurnsFrom(Prior(from, dirs, i + 1), dirs[i + 1]);
    }
  }

  /** As long as there is room, every real turn that is pressed is queued, in order. */
  lemma {:induction false} PressesQueue(v: Turns, dirs: seq<Dir>)
    requires v.enabled && |v.queue| + |dirs| <= 8
    requires RealTurns(if v.queue == [] then v.committed else v.queue[|v.queue| - 1], dirs)
    ensures Poll(v, Presses(dirs)).queue == v.queue + dirs
    ensures Poll(v, Presses(dirs)).committed == v.committed
    decreases |dirs|
  {
    if dirs == [] {
      assert v.queue + dirs == v.queue;
    } else {
      var last := if v.queue == [] then v.committed else v.queue[|v.queue| - 1];
      RealTurnsRest(last, dirs);
      OppositeIsReverse(dirs[0], last);
      hide IsOpposite, Reverse;
      var w := OnEvent(v, Event(Turn(dirs[0]), true));
      assert w.queue == v.queue + [dirs[0]];
      assert Presses(dirs)[1..] == Presses(dirs[1..]);
      PressesQueue(w, dirs[1..]);
      assert v.queue + [dirs[0]] + dirs[1..] == v.queue + dirs;
    }
  }

  class Input {
    var pendingActions: set<Action>
    var heldKeys: set<Key>
    var committedDir: Dir
    var turnQueueEnabled: bool
    var queueHead: nat
    var queueSize: nat
    const turnQueue: array<Dir>

    ghost predicate Valid()
      reads this
    {
      turnQueue.Length == 8 && queueHead < 8 && queueSize <= 8
    }

    ghost function View(): Turns
      requires Valid()
      reads this, turnQueue
    {
      Turns(committedDir, turnQueueEnabled, Ring(turnQueue[..], queueHead, queueSize), pendingActions, heldKeys)
    }

    constructor (initialDir: Dir)
      ensures Valid() && fresh(turnQueue) && View() == Turns(initialDir, true, [], {}, {})
    {
      turnQueue := new Dir[8](_ => Up);
      heldKeys, pendingActions, committedDir := {}, {}, initialDir;
      turnQueueEnabled, queueHead, queueSize := true, 0, 0;
    }

    method Init(initialDir: Dir)
      requires turnQueue.Length == 8
      modifies this
      ensures Valid() && View() == Turns(initialDir, true, [], {}, {})
    {
      heldKeys, pendingActions, committedDir := {}, {}, initialDir;
      turnQueueEnabled, queueHead, queueSize := true, 0, 0;
    }

    // The direction that a new turn follows.
    method TailDir() returns (d: Dir)
      requires Valid()
      ensures d == LastTurn(View())
    {
      hide Ring;
      d := committedDir;
      if queueSize > 0 {
        SlotIsMod(queueHead, queueSize - 1, 8);
        RingAt(turnQueue[..], queueHead, queueSize, queueSize - 1);
        d := turnQueue[(queueHead + queueSize - 1) % 8];
      }
    }

    method Append(d: Dir)
      requires Valid() && queueSize < 8
      modifies this`queueSize, turnQueue
      ensures Valid() && View() == old(View()).(queue := old(View()).queue + [d])
    {
      hide Ring;
      SlotIsMod(queueHead, queueSize, 8);
      RingPush(turnQueue[..], queueHead, queueSize, d);
      var writeIndex := (queueHead + queueSize) % 8;
      ghost var pushed := turnQueue[..][writeIndex := d];
      turnQueue[writeIndex] := d;
      assert turnQueue[..] == pushed;
      queueSize := queueSize + 1;
    }

    method EnqueueTurn(d: Dir) returns (ok: bool)
      requires Valid()
      modifies this`queueSize, turnQueue
      ensures Valid() && View() == Enqueue(old(View()), d)
      ensures var v := old(View());
        var last := if v.queue == [] then v.committed else v.queue[|v.queue| - 1];
        && (ok <==> v.enabled && |v.queue| < 8 && d != last && d != Reverse(last))
        && View() == if ok then v.(queue := v.queue + [d]) else v
    {
      OppositeIsReverse(d, LastTurn(View()));
      hide IsOpposite, Ring, LastTurn;
      if !turnQueueEnabled {
        return false;
      }
      var tailDir := TailDir();
      if d == tailDir || IsOpposite(d, tailDir) {
        return false;
      }
      if queueSize >= 8 {
        return false;
      }
      Append(d);
      return true;
    }

    method HandleEvent(e: Event)
      requires Valid()
      modifies this, turnQueue
      ensures Valid() && View() == OnEvent(old(View()), e)
    {
      hide Ring, Enqueue;
      match e.key {
        case Turn(d) =>
          if !e.pressed {
            heldKeys := heldKeys - {e.key};
            return;
          }
          heldKeys := heldKeys + {e.key};
          assert pendingActions + {} == pendingActions;
          if d == Left {
            pendingActions := pendingActions + {ApplesDec};
          } else if d == Right {
            pendingActions := pendingActions + {ApplesInc};
          }
          var queued := EnqueueTurn(d);
        case Speed =>
          heldKeys := if e.pressed then heldKeys + {e.key} else heldKeys - {e.key};
        case Act(a) =>
          if e.pressed {
            pendingActions := pendingActions + {a};
          }
        case Other =>
      }
    }

    /** Handle every event that the keyboard has, until there are no more or the call
        that fetches them fails.  Returns how many there were, or -1. */
    method PollEvents(events: seq<Event>, fails: bool) returns (processed: int)
      requires Valid()
      modifies this, turnQueue
      ensures Valid() && View() == Poll(old(View()), events)
      ensures processed == if fails then -1 else |events|
    {
      hide Ring, Enqueue;
      processed := 0;
      while processed < |events|
        invariant 0 <= processed <= |events| && Valid()
        invariant Poll(View(), events[processed..]) == Poll(old(View()), events)
      {
        var e := events[processed];
        assert events[processed..][1..] == events[processed + 1..];
        HandleEvent(e);
        processed := processed + 1;
      }
      if fails {
        processed := -1;
      }
    }

    method IsHeld(key: Key) returns (held: bool)
      requires Valid()
      ensures held == (key in View().held)
    {
      held := key in heldKeys;
    }

    method PopTurn() returns (ok: bool, d: Dir)
      requires Valid()
      modifies this`queueHead, this`queueSize, this`committedDir
      ensures Valid() && ok == (old(View()).queue != [])
      ensures ok ==> d == old(View()).queue[0]
      ensures View() == if ok then old(View()).(committed := d, queue := old(View()).queue[1..]) else old(View())
    {
      if queueSize == 0 {
        return false, committedDir;
      }
      RingPop(turnQueue[..], queueHead, queueSize);
      SlotIsMod(queueHead, 1, 8);
      d := turnQueue[queueHead];
      queueHead := (queueHead + 1) % 8;
      queueSize := queueSize - 1;
      committedDir := d;
      return true, d;
    }

    method TakeAction(a: Action) returns (isSet: bool)
      requires Valid()
      modifies this`pendingActions
      ensures Valid() && isSet == (a in old(View()).pending)
      ensures View() == old(View()).(pending := old(View()).pending - {a})
    {
      isSet := a in pendingActions;
      pendingActions := pendingActions - {a};
    }

    method SetTurnQueueEnabled(enabled: bool)
      requires Valid()
      modifies this`turnQueueEnabled, this`queueHead, this`queueSize
      ensures Valid()
      ensures View() == old(View()).(enabled := enabled, queue := if enabled then old(View()).queue else [])
    {
      turnQueueEnabled := enabled;
      if !enabled {
        queueHead := 0;
        queueSize := 0;
      }
    }

    method ClearTurnQueue()
      requires Valid()
      modifies this`queueHead, this`queueSize
      ensures Valid() && View() == old(View()).(queue := [])
    {
      queueHead := 0;
      queueSize := 0;
    }

    /** Up to eight real turns pressed one after the other come out again, all and in
        order. */
    method PressAndPop(dirs: seq<Dir>) returns (out: seq<Dir>)
      requires Valid() && View().enabled && View().queue == [] && |dirs| <= 8 && RealTurns(View().committed, dirs)
      modifies this, turnQueue
      ensures Valid() && out == dirs && View().queue == []
    {
      hide Ring, Poll, Presses, RealTurns;
      PressesQueue(View(), dirs);
      var processed := PollEvents(Presses(dirs), false);
      out := [];
      var popped, d := PopTurn();
      while popped
        invariant Valid() && (popped ==> out + [d] + View().queue == dirs)
        invariant !popped ==> out == dirs && View().queue == []
        decreases |View().queue|, popped
      {
        out := out + [d];
        popped, d := PopTurn();
      }
    }
  }
}
