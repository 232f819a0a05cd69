/**
 * Key-repeat normalisation: turns a queue of keydown/keyup events into discrete moves,
 * re-emitting a held input every RepeatInterval(input) ticks.
 */
module Repeater {
  import opened Inputs

  /** The number of ticks an input must be held before it repeats. */
  function RepeatInterval(input: MoveInput): nat {
    match input
    case Up => 24
    case Down => 4
    case Left => 8
    case Right => 8
    case RotateCCW => 12
    case RotateCW => 12
  }

  predicate NoDuplicates(s: seq<MoveInput>) {
    forall j, k :: 0 <= j < k < |s| ==> s[j] != s[k]
  }

  /** The loop over the input types meets each type once: the next one is not among those before it. */
  lemma NextInputIsNew(n: nat)
    requires n < |MOVE_INPUTS|
    ensures MOVE_INPUTS[n] !in MOVE_INPUTS[..n]
    ensures forall i: MoveInput :: i in MOVE_INPUTS[..n + 1] <==> i in MOVE_INPUTS[..n] || i == MOVE_INPUTS[n]
  {
    assert MOVE_INPUTS[..n + 1] == MOVE_INPUTS[..n] + [MOVE_INPUTS[n]];
  }

  /** `set.delete(x)`: the other members keep their insertion order. */
  function Remove(s: seq<MoveInput>, x: MoveInput): (r: seq<MoveInput>)
    ensures forall y :: y in r <==> y in s && y != x
  {
    if s == [] then [] else (if s[0] == x then [] else [s[0]]) + Remove(s[1..], x)
  }

  lemma {:induction false} RemoveKeepsNoDuplicates(s: seq<MoveInput>, x: MoveInput)
    requires NoDuplicates(s)
    ensures NoDuplicates(Remove(s, x))
  {
    if s != [] {
      assert NoDuplicates(s[1..]) by {
        forall j, k | 0 <= j < k < |s[1..]| ensures s[1..][j] != s[1..][k] {
          assert s[1..][j] == s[j + 1] && s[1..][k] == s[k + 1];
        }
      }
      RemoveKeepsNoDuplicates(s[1..], x);
      var rest := Remove(s[1..], x);
      if s[0] != x {
        assert s[0] !in s[1..] by {
          forall k | 0 <= k < |s[1..]| ensures s[1..][k] != s[0] {
            assert s[1..][k] == s[k + 1];
          }
        }
        assert s[0] !in rest;
        var r := [s[0]] + rest;
        forall j, k | 0 <= j < k < |r| ensures r[j] != r[k] {
          if j == 0 {
            assert r[k] == rest[k - 1];
          } else {
            assert r[j] == rest[j - 1] && r[k] == rest[k - 1];
          }
        }
      } else {
        assert Remove(s, x) == rest;
      }
    }
  }

  /** One event keeps the held set free of duplicates. */
  lemma AfterEventKeepsNoDuplicates(held: seq<MoveInput>, event: MoveInputEvent)
    requires NoDuplicates(held)
    ensures NoDuplicates(AfterEvent(held, event))
  {
    if event.eventType == KeyUp {
      RemoveKeepsNoDuplicates(held, event.input);
    }
  }

  /**
   * The repeater's state: the held inputs in the insertion order of the source's Set
   * (which fixes the order of repeat emissions) and one counter per input.
   */
  datatype RepeaterState = RepeaterState(held: seq<MoveInput>, counters: map<MoveInput, nat>)

  /** What every tick keeps: a set without duplicates, a counter for each input, 0 when not held. */
  predicate ValidState(st: RepeaterState) {
    NoDuplicates(st.held) &&
    (forall i: MoveInput :: i in st.counters) &&
    (forall i: MoveInput :: i !in st.held ==> st.counters[i] == 0)
  }

  /** The state of a new repeater. */
  function InitialState(): (r: RepeaterState)
    ensures ValidState(r)
    ensures r.held == [] && forall i: MoveInput :: r.counters[i] == 0
  {
    MoveInputsComplete();
    RepeaterState([], map i | i in MOVE_INPUTS :: 0)
  }

  /** The held set after one event of the event loop. */
  function AfterEvent(held: seq<MoveInput>, event: MoveInputEvent): seq<MoveInput> {
    if event.eventType == KeyDown && event.input !in held then held + [event.input]
    else if event.eventType == KeyUp then Remove(held, event.input)
    else held
  }

  /** What one event emits: a keydown for an input not already held. */
  function PressOf(held: seq<MoveInput>, event: MoveInputEvent): seq<MoveInput> {
    if event.eventType == KeyDown && event.input !in held then [event.input] else []
  }

  /** The held set after the whole event queue. */
  function HeldAfter(held: seq<MoveInput>, queue: seq<MoveInputEvent>): seq<MoveInput>
    decreases |queue|
  {
    if queue == [] then held else AfterEvent(HeldAfter(held, queue[..|queue| - 1]), queue[|queue| - 1])
  }

  /** The fresh presses of the event queue, in queue order. */
  function Presses(held: seq<MoveInput>, queue: seq<MoveInputEvent>): seq<MoveInput>
    decreases |queue|
  {
    if queue == [] then []
    else
      var front := queue[..|queue| - 1];
      Presses(held, front) + PressOf(HeldAfter(held, front), queue[|queue| - 1])
  }

  lemma {:induction false} HeldAfterKeepsNoDuplicates(held: seq<MoveInput>, queue: seq<MoveInputEvent>)
    requires NoDuplicates(held)
    ensures NoDuplicates(HeldAfter(held, queue))
    decreases |queue|
  {
    if queue != [] {
      HeldAfterKeepsNoDuplicates(held, queue[..|queue| - 1]);
      AfterEventKeepsNoDuplicates(HeldAfter(held, queue[..|queue| - 1]), queue[|queue| - 1]);
    }
  }

  /** Unfolding HeldAfter and Presses at one more event. */
  lemma QueueStep(held: seq<MoveInput>, queue: seq<MoveInputEvent>, k: nat)
    requires k < |queue|
    ensures HeldAfter(held, queue[..k + 1]) == AfterEvent(HeldAfter(held, queue[..k]), queue[k])
    ensures Presses(held, queue[..k + 1]) == Presses(held, queue[..k]) + PressOf(HeldAfter(held, queue[..k]), queue[k])
  {
    assert queue[..k + 1][..k] == queue[..k];
  }

  /** The held inputs whose counter has reached their interval, in held order. */
  function Due(held: seq<MoveInput>, counters: map<MoveInput, nat>): seq<MoveInput>
    requires forall i: MoveInput :: i in counters
    decreases |held|
  {
    if held == [] then []
    else
      var last := held[|held| - 1];
      Due(held[..|held| - 1], counters) + (if counters[last] >= RepeatInterval(last) then [last] else [])
  }

  lemma DueStep(held: seq<MoveInput>, j: nat, counters: map<MoveInput, nat>)
    requires j < |held|
    requires forall i: MoveInput :: i in counters
    ensures Due(held[..j + 1], counters) ==
      Due(held[..j], counters) + (if counters[held[j]] >= RepeatInterval(held[j]) then [held[j]] else [])
  {
    assert held[..j + 1][..j] == held[..j];
  }

  /** The counters after a tick: held inputs count on from 0 (if they repeated) or from their old value. */
  function CountersAfter(held: seq<MoveInput>, counters: map<MoveInput, nat>): (r: map<MoveInput, nat>)
    requires forall i: MoveInput :: i in counters
    ensures forall i: MoveInput :: i in r
    ensures forall i: MoveInput :: i !in held ==> r[i] == 0
    ensures forall i: MoveInput :: i in held && counters[i] >= RepeatInterval(i) ==> r[i] == 1
    ensures forall i: MoveInput :: i in held && counters[i] < RepeatInterval(i) ==> r[i] == counters[i] + 1
  {
    MoveInputsComplete();
    map i | i in MOVE_INPUTS ::
      if i in held then (if counters[i] >= RepeatInterval(i) then 0 else counters[i]) + 1 else 0
  }

  /** Two maps defined on every input are equal when they agree on every input. */
  lemma TotalMapsEqual(a: map<MoveInput, nat>, b: map<MoveInput, nat>)
    requires forall i: MoveInput :: i in a && i in b && a[i] == b[i]
    ensures a == b
  {
  }

  /** A queue of one event applies that event. */
  lemma OneEvent(held: seq<MoveInput>, e: MoveInputEvent)
    ensures HeldAfter(held, [e]) == AfterEvent(held, e)
    ensures Presses(held, [e]) == PressOf(held, e)
  {
    assert [e][..0] == [];
  }

  /** A queue of two events applies them in order. */
  lemma TwoEvents(held: seq<MoveInput>, e1: MoveInputEvent, e2: MoveInputEvent)
    ensures HeldAfter(held, [e1, e2]) == AfterEvent(AfterEvent(held, e1), e2)
    ensures Presses(held, [e1, e2]) == PressOf(held, e1) + PressOf(AfterEvent(held, e1), e2)
  {
    assert [e1, e2][..1] == [e1];
    OneEvent(held, e1);
  }

  /** An input added last to the held set is checked last by the repeat pass. */
  lemma DueAppend(held: seq<MoveInput>, counters: map<MoveInput, nat>, i: MoveInput)
    requires forall j: MoveInput :: j in counters
    ensures Due(held + [i], counters) == Due(held, counters) + (if counters[i] >= RepeatInterval(i) then [i] else [])
  {
    var h := held + [i];
    assert h[..|h| - 1] == held;
  }

  /** One tick: the new state and the emitted moves (fresh presses, then repeats). */
  function Tick(st: RepeaterState, queue: seq<MoveInputEvent>): (RepeaterState, seq<MoveInput>)
    requires forall i: MoveInput :: i in st.counters
  {
    var held := HeldAfter(st.held, queue);
    (RepeaterState(held, CountersAfter(held, st.counters)), Presses(st.held, queue) + Due(held, st.counters))
  }

  /** A tick keeps the repeater's state well formed. */
  lemma TickKeepsValid(st: RepeaterState, queue: seq<MoveInputEvent>)
    requires ValidState(st)
    ensures ValidState(Tick(st, queue).0)
  {
    HeldAfterKeepsNoDuplicates(st.held, queue);
  }

  /** After a tick every held input has counted one more frame (from 0 if it just repeated),
      and every input not held is back at 0. */
  lemma CountersAfterTick(st: RepeaterState, queue: seq<MoveInputEvent>, i: MoveInput)
    requires ValidState(st)
    ensures var (st', _) := Tick(st, queue);
      if i in st'.held then st'.counters[i] == (if st.counters[i] >= RepeatInterval(i) then 0 else st.counters[i]) + 1
      else st'.counters[i] == 0
  {
    MoveInputsComplete();
  }

  /** An input that no event of the queue names keeps its held status. */
  lemma {:induction false} HeldOnlyChangesForQueued(held: seq<MoveInput>, queue: seq<MoveInputEvent>, i: MoveInput)
    requires forall k :: 0 <= k < |queue| ==> queue[k].input != i
    ensures i in HeldAfter(held, queue) <==> i in held
    decreases |queue|
  {
    if queue != [] {
      HeldOnlyChangesForQueued(held, queue[..|queue| - 1], i);
    }
  }

  /** Presses emits only inputs that some keydown of the queue names. */
  lemma {:induction false} PressesAreKeyDowns(held: seq<MoveInput>, queue: seq<MoveInputEvent>, i: MoveInput)
    requires i in Presses(held, queue)
    ensures exists k :: 0 <= k < |queue| && queue[k] == MoveInputEvent(i, KeyDown)
    decreases |queue|
  {
    var front := queue[..|queue| - 1];
    if i in Presses(held, front) {
      PressesAreKeyDowns(held, front, i);
      var k :| 0 <= k < |front| && front[k] == MoveInputEvent(i, KeyDown);
      assert queue[k] == front[k];
    } else {
      assert queue[|queue| - 1] == MoveInputEvent(i, KeyDown);
    }
  }

  /** Pressing an input that is not held emits it at once; it is then held with counter 1. */
  lemma PressEmitsOnce(st: RepeaterState, i: MoveInput)
    requires ValidState(st)
    requires i !in st.held
    ensures var (st', moves) := Tick(st, [MoveInputEvent(i, KeyDown)]);
      moves == [i] + Due(st.held, st.counters) && i in st'.held && st'.counters[i] == 1
  {
    var held := st.held + [i];
    OneEvent(st.held, MoveInputEvent(i, KeyDown));
    assert HeldAfter(st.held, [MoveInputEvent(i, KeyDown)]) == held;
    assert Presses(st.held, [MoveInputEvent(i, KeyDown)]) == [i];
    assert st.counters[i] == 0 < RepeatInterval(i);
    DueAppend(st.held, st.counters, i);
    assert Due(held, st.counters) == Due(st.held, st.counters);
    assert i in held;
  }

  /** Keydown of an input that is already held emits nothing extra and leaves its counter running. */
  lemma HeldKeyDownIgnored(st: RepeaterState, i: MoveInput)
    requires ValidState(st)
    requires i in st.held
    ensures Tick(st, [MoveInputEvent(i, KeyDown)]) == Tick(st, [])
  {
    OneEvent(st.held, MoveInputEvent(i, KeyDown));
  }

  /** Releasing an input stops it: it is not held, its counter is 0 and it does not repeat. */
  lemma ReleaseStops(st: RepeaterState, i: MoveInput)
    requires ValidState(st)
    ensures var (st', moves) := Tick(st, [MoveInputEvent(i, KeyUp)]);
      i !in st'.held && st'.counters[i] == 0 && i !in moves
  {
    OneEvent(st.held, MoveInputEvent(i, KeyUp));
    DueSubset(Remove(st.held, i), st.counters, i);
  }

  lemma {:induction false} DueSubset(held: seq<MoveInput>, counters: map<MoveInput, nat>, i: MoveInput)
    requires forall j: MoveInput :: j in counters
    requires i !in held
    ensures i !in Due(held, counters)
    decreases |held|
  {
    if held != [] {
      assert held == held[..|held| - 1] + [held[|held| - 1]];
      DueSubset(held[..|held| - 1], counters, i);
    }
  }

  /** The repeat pass emits a held input at most once per tick, and exactly once when it is due. */
  lemma {:induction false} RepeatEmittedOnce(held: seq<MoveInput>, counters: map<MoveInput, nat>, i: MoveInput)
    requires NoDuplicates(held)
    requires forall j: MoveInput :: j in counters
    ensures multiset(Due(held, counters))[i] == if i in held && counters[i] >= RepeatInterval(i) then 1 else 0
    decreases |held|
  {
    if held != [] {
      var front := held[..|held| - 1];
      var last := held[|held| - 1];
      assert held == front + [last];
      assert NoDuplicates(front) by {
        forall j, k | 0 <= j < k < |front| ensures front[j] != front[k] {
          assert front[j] == held[j] && front[k] == held[k];
        }
      }
      assert last !in front by {
        forall k | 0 <= k < |front| ensures front[k] != last {
          assert front[k] == held[k];
        }
      }
      RepeatEmittedOnce(front, counters, i);
      DueSubset(front, counters, last);
    }
  }

  /**
   * The state after `t` ticks with no events: the held set stays, the counters move on
   * (IdleTicksAreTicks shows this is `t` applications of Tick with an empty queue).
   */
  function IdleTicks(st: RepeaterState, t: nat): (r: RepeaterState)
    requires ValidState(st)
    ensures ValidState(r)
    ensures r.held == st.held
    ensures forall i :: i in st.held ==> r.counters[i] == IdleCount(st.counters[i], RepeatInterval(i), t)
  {
    if t == 0 then st
    else
      var prev := IdleTicks(st, t - 1);
      MoveInputsComplete();
      RepeaterState(st.held, CountersAfter(st.held, prev.counters))
  }

  /** Each idle tick is a Tick with an empty event queue. */
  lemma IdleTicksAreTicks(st: RepeaterState, t: nat)
    requires ValidState(st) && t > 0
    ensures IdleTicks(st, t) == Tick(IdleTicks(st, t - 1), []).0
  {
  }

  /** Without events, a held input counts up and is due exactly when its counter reaches its interval. */
  lemma IdleTickRepeats(st: RepeaterState, i: MoveInput)
    requires ValidState(st)
    requires i in st.held
    ensures var (st', moves) := Tick(st, []);
      (i in moves <==> st.counters[i] >= RepeatInterval(i)) &&
      st'.counters[i] == (if st.counters[i] >= RepeatInterval(i) then 1 else st.counters[i] + 1)
  {
    MoveInputsComplete();
    DueMembership(st.held, st.counters, i);
  }

  lemma {:induction false} DueMembership(held: seq<MoveInput>, counters: map<MoveInput, nat>, i: MoveInput)
    requires forall j: MoveInput :: j in counters
    ensures i in Due(held, counters) <==> i in held && counters[i] >= RepeatInterval(i)
    decreases |held|
  {
    if held != [] {
      var front := held[..|held| - 1];
      DueMembership(front, counters, i);
      assert held == front + [held[|held| - 1]];
    }
  }

  /** Counting modulo a repeat interval. */
  lemma ModStep(t: nat, n: nat)
    requires n == 4 || n == 8 || n == 12 || n == 24
    ensures (t + 1) % n == if t % n == n - 1 then 0 else t % n + 1
  {
    if n == 4 { ModStep4(t); }
    else if n == 8 { ModStep8(t); }
    else if n == 12 { ModStep12(t); }
    else { ModStep24(t); }
  }

  lemma ModStep4(t: nat)
    ensures (t + 1) % 4 == if t % 4 == 3 then 0 else t % 4 + 1
  {
    var q, r := t / 4, t % 4;
    assert t == 4 * q + r;
    if r == 3 { assert t + 1 == 4 * (q + 1); } else { assert t + 1 == 4 * q + (r + 1); }
  }

  lemma ModStep8(t: nat)
    ensures (t + 1) % 8 == if t % 8 == 7 then 0 else t % 8 + 1
  {
    var q, r := t / 8, t % 8;
    assert t == 8 * q + r;
    if r == 7 { assert t + 1 == 8 * (q + 1); } else { assert t + 1 == 8 * q + (r + 1); }
  }

  lemma ModStep12(t: nat)
    ensures (t + 1) % 12 == if t % 12 == 11 then 0 else t % 12 + 1
  {
    var q, r := t / 12, t % 12;
    assert t == 12 * q + r;
    if r == 11 { assert t + 1 == 12 * (q + 1); } else { assert t + 1 == 12 * q + (r + 1); }
  }

  lemma ModStep24(t: nat)
    ensures (t + 1) % 24 == if t % 24 == 23 then 0 else t % 24 + 1
  {
    var q, r := t / 24, t % 24;
    assert t == 24 * q + r;
    if r == 23 { assert t + 1 == 24 * (q + 1); } else { assert t + 1 == 24 * q + (r + 1); }
  }

  /**
   * Holding a key repeats it with period RepeatInterval: once its counter is 1 (the tick of the
   * press), the counter after `t` idle ticks is `t % N + 1`, so the input is emitted on idle
   * tick `t + 1` exactly when `(t + 1) % N == 0`.
   */
  lemma {:induction false} HeldInputRepeatsPeriodically(st: RepeaterState, i: MoveInput, t: nat)
    requires ValidState(st)
    requires i in st.held && st.counters[i] == 1
    ensures IdleTicks(st, t).counters[i] == t % RepeatInterval(i) + 1
    ensures i in Tick(IdleTicks(st, t), []).1 <==> (t + 1) % RepeatInterval(i) == 0
  {
    var n := RepeatInterval(i);
    IdleCountIsModular(n, t);
    var now := IdleTicks(st, t);
    IdleTickRepeats(now, i);
    ModStep(t, n);
  }

  /** The counter of a held input after `t` idle ticks, starting from `c`. */
  function IdleCount(c: nat, n: nat, t: nat): nat {
    if t == 0 then c else CountStep(IdleCount(c, n, t - 1), n)
  }

  /** One idle tick of a held input's counter with interval `n`. */
  function CountStep(c: nat, n: nat): nat {
    if c >= n then 1 else c + 1
  }

  lemma {:induction false} IdleCountIsModular(n: nat, t: nat)
    requires n == 4 || n == 8 || n == 12 || n == 24
    ensures IdleCount(1, n, t) == t % n + 1
  {
    if t > 0 {
      IdleCountIsModular(n, t - 1);
      ModStep(t - 1, n);
    }
  }

  /**
   * A keyup then keydown of a held input within one tick emits a fresh press but keeps the old
   * counter: if that counter has reached its interval the input is emitted twice in that tick.
   */
  lemma ReleaseAndPressInOneTick(st: RepeaterState, i: MoveInput)
    requires ValidState(st)
    requires i in st.held && st.counters[i] >= RepeatInterval(i)
    ensures multiset(Tick(st, [MoveInputEvent(i, KeyUp), MoveInputEvent(i, KeyDown)]).1)[i] == 2
  {
    TwoEvents(st.held, MoveInputEvent(i, KeyUp), MoveInputEvent(i, KeyDown));
    var removed := Remove(st.held, i);
    DueAppend(removed, st.counters, i);
    DueSubset(removed, st.counters, i);
    assert multiset(Due(removed, st.counters))[i] == 0;
  }

  /** The source's object: a Set of held inputs and a counter per input, changed in place by tick. */
  class InputRepeater {
    var movingDirections: seq<MoveInput>
    var movingCounters: map<MoveInput, nat>

    function State(): RepeaterState
      reads this
    {
      RepeaterState(movingDirections, movingCounters)
    }

    ghost predicate Valid()
      reads this
    {
      ValidState(State())
    }

    constructor ()
      ensures Valid()
      ensures State() == InitialState()
    {
      movingDirections := [];
      movingCounters := InitialState().counters;
    }

    /** One tick: the fresh presses of the queue, then the repeats of held inputs. */
    method TickInputs(inputQueue: seq<MoveInputEvent>) returns (moveQueue: seq<MoveInput>)
      requires Valid()
      modifies this
      ensures Valid()
      ensures (State(), moveQueue) == Tick(old(State()), inputQueue)
    {
      ghost var st := State();
      moveQueue := ApplyEvents(inputQueue);
      HeldAfterKeepsNoDuplicates(st.held, inputQueue);
      var repeats := EmitRepeats();
      moveQueue := moveQueue + repeats;
      UpdateCounters(st.counters);
    }

    /** The event loop: fresh keydowns are emitted and join the held set, keyups leave it. */
    method ApplyEvents(inputQueue: seq<MoveInputEvent>) returns (moveQueue: seq<MoveInput>)
      requires NoDuplicates(movingDirections)
      modifies this
      ensures movingCounters == old(movingCounters)
      ensures movingDirections == HeldAfter(old(movingDirections), inputQueue)
      ensures moveQueue == Presses(old(movingDirections), inputQueue)
    {
      ghost var held0 := movingDirections;
      moveQueue := [];
      var k := 0;
      while k < |inputQueue|
        invariant 0 <= k <= |inputQueue|
        invariant movingCounters == old(movingCounters)
        invariant movingDirections == HeldAfter(held0, inputQueue[..k])
        invariant moveQueue == Presses(held0, inputQueue[..k])
        invariant NoDuplicates(movingDirections)
      {
        var event := inputQueue[k];
        QueueStep(held0, inputQueue, k);
        AfterEventKeepsNoDuplicates(movingDirections, event);
        if event.eventType == KeyDown && event.input !in movingDirections {
          moveQueue := moveQueue + [event.input];
          movingDirections := movingDirections + [event.input];
        } else if event.eventType == KeyUp {
          movingDirections := Remove(movingDirections, event.input);
        }
        k := k + 1;
      }
      assert inputQueue[..k] == inputQueue;
    }

    /** The repeat loop: each held input whose counter reached its interval is emitted and reset. */
    method EmitRepeats() returns (repeats: seq<MoveInput>)
      requires NoDuplicates(movingDirections)
      requires forall i: MoveInput :: i in movingCounters
      modifies this
      ensures movingDirections == old(movingDirections)
      ensures repeats == Due(movingDirections, old(movingCounters))
      ensures forall i: MoveInput :: i in movingCounters
      ensures forall i: MoveInput ::
                movingCounters[i] == if i in movingDirections && old(movingCounters)[i] >= RepeatInterval(i)
                                     then 0 else old(movingCounters)[i]
    {
      ghost var held := movingDirections;
      ghost var counters0 := movingCounters;
      repeats := [];
      var j := 0;
      while j < |movingDirections|
        invariant 0 <= j <= |movingDirections|
        invariant movingDirections == held
        invariant repeats == Due(held[..j], counters0)
        invariant forall i: MoveInput :: i in movingCounters
        invariant forall i: MoveInput ::
                    movingCounters[i] == if i in held[..j] && counters0[i] >= RepeatInterval(i) then 0 else counters0[i]
      {
        var input := movingDirections[j];
        DueStep(held, j, counters0);
        assert input !in held[..j];
        assert forall i: MoveInput :: i in held[..j + 1] <==> i in held[..j] || i == input;
        if movingCounters[input] >= RepeatInterval(input) {
          repeats := repeats + [input];
          movingCounters := movingCounters[input := 0];
        }
        j := j + 1;
      }
      assert held[..j] == held;
    }

    /** The counter loop: held inputs count up, all others reset to 0. */
    method UpdateCounters(ghost counters0: map<MoveInput, nat>)
      requires forall i: MoveInput :: i in counters0
      requires forall i: MoveInput :: i in movingCounters
      requires forall i: MoveInput ::
                 movingCounters[i] == if i in movingDirections && counters0[i] >= RepeatInterval(i) then 0 else counters0[i]
      modifies this
      ensures movingDirections == old(movingDirections)
      ensures movingCounters == CountersAfter(movingDirections, counters0)
    {
      ghost var repeated := movingCounters;
      var n := 0;
      while n < |MOVE_INPUTS|
        invariant 0 <= n <= |MOVE_INPUTS|
        invariant movingDirections == old(movingDirections)
        invariant forall i: MoveInput :: i in movingCounters
        invariant forall i: MoveInput ::
                    movingCounters[i] == if i !in MOVE_INPUTS[..n] then repeated[i]
                                         else if i in movingDirections then repeated[i] + 1 else 0
      {
        var inputType := MOVE_INPUTS[n];
        NextInputIsNew(n);
        if inputType in movingDirections {
          movingCounters := movingCounters[inputType := movingCounters[inputType] + 1];
        } else {
          movingCounters := movingCounters[inputType := 0];
        }
        n := n + 1;
      }
      MoveInputsComplete();
      assert MOVE_INPUTS[..n] == MOVE_INPUTS;
      TotalMapsEqual(movingCounters, CountersAfter(movingDirections, counters0));
    }
  }
}
