/** The move inputs and the key events that carry them. */
module Inputs {

  /** The six inputs that move or rotate the falling pill. */
  datatype MoveInput = Up | Down | Left | Right | RotateCCW | RotateCW

  datatype InputEventType = KeyDown | KeyUp

  /** `{input, eventType}` */
  datatype MoveInputEvent = MoveInputEvent(input: MoveInput, eventType: InputEventType)

  /** The key order of the repeater's counter object. */
  const MOVE_INPUTS: seq<MoveInput> := [Up, Down, Left, Right, RotateCCW, RotateCW]

  /** Every input has a counter key. */
  lemma MoveInputsComplete()
    ensures forall i: MoveInput :: i in MOVE_INPUTS
  {
    forall i: MoveInput ensures i in MOVE_INPUTS {
      match i
      case Up => assert MOVE_INPUTS[0] == Up;
      case Down => assert MOVE_INPUTS[1] == Down;
      case Left => assert MOVE_INPUTS[2] == Left;
      case Right => assert MOVE_INPUTS[3] == Right;
      case RotateCCW => assert MOVE_INPUTS[4] == RotateCCW;
      case RotateCW => assert MOVE_INPUTS[5] == RotateCW;
    }
  }
}
