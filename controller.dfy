/**
 * The single-player controller: the game-mode state machine and the queue of move events
 * that is handed to the game on each game tick.
 */
module Controller {
  import opened Wrappers
  import opened Inputs

  datatype Mode = Ready | Playing | Paused | Won | Lost | Ended

  datatype TransitionName = Play | Pause | Resume | Win | Lose | Reset | End

  /** The `from` of a table entry: one mode, or `'*'` for every mode. */
  datatype From = FromMode(mode: Mode) | AnyMode

  datatype Transition = Transition(name: TransitionName, from: From, to: Mode)

  /** The mode machine's transition table, in table order. */
  const MODE_TRANSITIONS: seq<Transition> := [
    Transition(Play, FromMode(Ready), Playing),
    Transition(Pause, FromMode(Playing), Paused),
    Transition(Resume, FromMode(Paused), Playing),
    Transition(Win, FromMode(Playing), Won),
    Transition(Lose, FromMode(Playing), Lost),
    Transition(Reset, AnyMode, Ready),
    Transition(End, AnyMode, Ended)
  ]

  /** The mode the machine starts in. */
  const INITIAL_MODE: Mode := Ready

  predicate Applies(entry: Transition, mode: Mode, name: TransitionName) {
    entry.name == name && (entry.from == AnyMode || entry.from == FromMode(mode))
  }

  /** The first of `table` that fires `name` from `mode`. */
  function Lookup(table: seq<Transition>, mode: Mode, name: TransitionName): (r: Option<Mode>)
    ensures r.None? <==> forall k :: 0 <= k < |table| ==> !Applies(table[k], mode, name)
    ensures r.Some? ==> exists k :: 0 <= k < |table| && Applies(table[k], mode, name) && table[k].to == r.value
  {
    if table == [] then None
    else if Applies(table[0], mode, name) then Some(table[0].to)
    else
      var r := Lookup(table[1..], mode, name);
      assert forall k :: 1 <= k < |table| ==> table[k] == table[1..][k - 1];
      r
  }

  /** The mode after firing `name` from `mode`, or None when the table has no such transition. */
  function NextMode(mode: Mode, name: TransitionName): Option<Mode> {
    Lookup(MODE_TRANSITIONS, mode, name)
  }

  /** The mode graph of the table, edge by edge. */
  lemma ModeGraph(mode: Mode, name: TransitionName)
    ensures NextMode(mode, name) ==
      match name
      case Play => if mode == Ready then Some(Playing) else None
      case Pause => if mode == Playing then Some(Paused) else None
      case Resume => if mode == Paused then Some(Playing) else None
      case Win => if mode == Playing then Some(Won) else None
      case Lose => if mode == Playing then Some(Lost) else None
      case Reset => Some(Ready)
      case End => Some(Ended)
  {
    var t := MODE_TRANSITIONS;
    assert t[0].name == Play && t[1].name == Pause && t[2].name == Resume && t[3].name == Win;
    assert t[4].name == Lose && t[5].name == Reset && t[6].name == End;
    var k := match name
      case Play => 0 case Pause => 1 case Resume => 2 case Win => 3 case Lose => 4 case Reset => 5 case End => 6;
    LookupOnlyEntry(t, mode, name, k);
  }

  /** When only entry `k` of the table has the name, that entry alone decides the lookup. */
  lemma LookupOnlyEntry(table: seq<Transition>, mode: Mode, name: TransitionName, k: int)
    requires 0 <= k < |table| && table[k].name == name
    requires forall j :: 0 <= j < |table| && j != k ==> table[j].name != name
    ensures Lookup(table, mode, name) == if Applies(table[k], mode, name) then Some(table[k].to) else None
  {
  }

  /** reset and end are allowed from every mode. */
  lemma ResetAndEndAlwaysAllowed(mode: Mode)
    ensures NextMode(mode, Reset) == Some(Ready)
    ensures NextMode(mode, End) == Some(Ended)
  {
    ModeGraph(mode, Reset);
    ModeGraph(mode, End);
  }

  /** Won, Lost and Ended can only be left by reset and end. */
  lemma FinishedModesOnlyResetOrEnd(mode: Mode, name: TransitionName)
    requires mode == Won || mode == Lost || mode == Ended
    ensures NextMode(mode, name).Some? <==> name == Reset || name == End
  {
    ModeGraph(mode, name);
  }

  /** The play input can only start a game from Ready, and the game is only entered by play or resume. */
  lemma PlayingOnlyByPlayOrResume(mode: Mode, name: TransitionName)
    ensures NextMode(mode, name) == Some(Playing) <==>
      (name == Play && mode == Ready) || (name == Resume && mode == Paused)
  {
    ModeGraph(mode, name);
  }

  /** The controller's inputs other than the six moves. */
  datatype ControlInput = PlayInput | PauseInput | ResumeInput | ResetInput | MoveKey(input: MoveInput)

  /** The queues that `steps` game ticks hand to the game, starting from `queue`. */
  function QueuesSent(queue: seq<MoveInputEvent>, steps: nat): (r: seq<seq<MoveInputEvent>>)
    ensures |r| == steps
    ensures steps > 0 ==> r[0] == queue
    ensures forall k :: 1 <= k < steps ==> r[k] == []
  {
    if steps == 0 then [] else QueuesSent(queue, steps - 1) + [if steps == 1 then queue else []]
  }

  function Flatten(qs: seq<seq<MoveInputEvent>>): seq<MoveInputEvent> {
    if qs == [] then [] else Flatten(qs[..|qs| - 1]) + qs[|qs| - 1]
  }

  /** Across the game ticks of one frame every queued event reaches the game exactly once, on the first. */
  lemma {:induction false} QueuedEventsDeliveredOnce(queue: seq<MoveInputEvent>, steps: nat)
    requires steps > 0
    ensures Flatten(QueuesSent(queue, steps)) == queue
  {
    if steps > 1 {
      QueuedEventsDeliveredOnce(queue, steps - 1);
      var prev := QueuesSent(queue, steps - 1);
      assert QueuesSent(queue, steps)[..steps - 1] == prev;
    } else {
      assert QueuesSent(queue, 1) == [queue];
      assert QueuesSent(queue, 1)[..0] == [];
    }
  }

  class SingleGameController {
    /** The state of the mode machine. */
    var mode: Mode
    /** Move events queued since the last game tick. */
    var moveInputQueue: seq<MoveInputEvent>
    /** The queues handed to the current game's tick, oldest first; a new game starts with none. */
    var gameInputs: seq<seq<MoveInputEvent>>

    constructor ()
      ensures mode == INITIAL_MODE
      ensures moveInputQueue == [] && gameInputs == []
    {
      mode := INITIAL_MODE;
      moveInputQueue := [];
      gameInputs := [];
    }

    /**
     * Fires a transition of the mode machine. A transition the table does not allow leaves
     * everything unchanged; reset starts a new game.
     */
    method Fire(name: TransitionName) returns (ok: bool)
      modifies this
      ensures ok <==> NextMode(old(mode), name).Some?
      ensures ok ==> mode == NextMode(old(mode), name).value
      ensures !ok ==> mode == old(mode)
      ensures gameInputs == if ok && name == Reset then [] else old(gameInputs)
      ensures moveInputQueue == old(moveInputQueue)
    {
      var next := NextMode(mode, name);
      if next.None? {
        return false;
      }
      mode := next.value;
      if name == Reset {
        gameInputs := [];
      }
      return true;
    }

    /** Queues a move for the next game tick, but only while the game is being played. */
    method EnqueueMoveInput(input: MoveInput, eventType: InputEventType)
      modifies this
      ensures moveInputQueue == if old(mode) == Playing then old(moveInputQueue) + [MoveInputEvent(input, eventType)]
                                else old(moveInputQueue)
      ensures mode == old(mode) && gameInputs == old(gameInputs)
    {
      if mode != Playing {
        return;
      }
      moveInputQueue := moveInputQueue + [MoveInputEvent(input, eventType)];
    }

    /** Routes one input event: pause and resume act on keydown only, play and reset on any event. */
    method HandleInput(input: ControlInput, eventType: InputEventType)
      modifies this
      ensures input.PauseInput? && eventType == KeyUp ==> mode == old(mode)
      ensures input.ResumeInput? && eventType == KeyUp ==> mode == old(mode)
      ensures input.PauseInput? && eventType == KeyDown ==>
        mode == (if old(mode) == Playing then Paused else old(mode))
      ensures input.ResumeInput? && eventType == KeyDown ==>
        mode == (if old(mode) == Paused then Playing else old(mode))
      ensures input.PlayInput? ==> mode == (if old(mode) == Ready then Playing else old(mode))
      ensures input.ResetInput? ==> mode == Ready && gameInputs == [] && moveInputQueue == old(moveInputQueue)
      ensures input.MoveKey? ==> mode == old(mode) && gameInputs == old(gameInputs)
      ensures input.MoveKey? && old(mode) == Playing ==>
        moveInputQueue == old(moveInputQueue) + [MoveInputEvent(input.input, eventType)]
      ensures input.MoveKey? && old(mode) != Playing ==> moveInputQueue == old(moveInputQueue)
      ensures !input.MoveKey? ==> moveInputQueue == old(moveInputQueue)
      ensures !input.ResetInput? ==> gameInputs == old(gameInputs)
    {
      match input
      case PlayInput =>
        ModeGraph(mode, Play);
        var _ := Fire(Play);
      case PauseInput =>
        if eventType == KeyDown {
          ModeGraph(mode, Pause);
          var _ := Fire(Pause);
        }
      case ResumeInput =>
        if eventType == KeyDown {
          ModeGraph(mode, Resume);
          var _ := Fire(Resume);
        }
      case ResetInput =>
        ResetAndEndAlwaysAllowed(mode);
        var _ := Fire(Reset);
      case MoveKey(m) =>
        EnqueueMoveInput(m, eventType);
    }

    /** One game tick: the game receives the whole queue, which is then emptied. */
    method TickGame()
      modifies this
      ensures gameInputs == old(gameInputs) + [old(moveInputQueue)]
      ensures moveInputQueue == []
      ensures mode == old(mode)
    {
      gameInputs := gameInputs + [moveInputQueue];
      moveInputQueue := [];
    }

    /**
     * One frame: nothing happens unless the game is being played; otherwise `steps` game
     * ticks run (the number the frame's elapsed time allows).
     */
    method Tick(steps: nat)
      modifies this
      ensures old(mode) != Playing ==> mode == old(mode) && moveInputQueue == old(moveInputQueue) &&
                                       gameInputs == old(gameInputs)
      ensures old(mode) == Playing ==> mode == old(mode) &&
                                       gameInputs == old(gameInputs) + QueuesSent(old(moveInputQueue), steps) &&
                                       moveInputQueue == (if steps == 0 then old(moveInputQueue) else [])
    {
      if mode != Playing {
        return;
      }
      var n := 0;
      while n < steps
        invariant 0 <= n <= steps
        invariant mode == old(mode)
        invariant gameInputs == old(gameInputs) + QueuesSent(old(moveInputQueue), n)
        invariant moveInputQueue == if n == 0 then old(moveInputQueue) else []
      {
        TickGame();
        n := n + 1;
      }
    }
  }
}
