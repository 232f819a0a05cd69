/** Move events as one letter: lower case for keydown, upper case for keyup. */
module MoveCodec {
  import opened Wrappers
  import opened Inputs

  function MoveLetter(input: MoveInput): (c: char)
    ensures 'a' <= c <= 'z'
  {
    match input
    case Up => 'u'
    case Down => 'd'
    case Left => 'l'
    case Right => 'r'
    case RotateCCW => 'q'
    case RotateCW => 'e'
  }

  function LetterMove(c: char): Option<MoveInput> {
    match c
    case 'u' => Some(Up)
    case 'd' => Some(Down)
    case 'l' => Some(Left)
    case 'r' => Some(Right)
    case 'q' => Some(RotateCCW)
    case 'e' => Some(RotateCW)
    case _ => None
  }

  function Upper(c: char): char
    requires 'a' <= c <= 'z'
  {
    (c as int - 'a' as int + 'A' as int) as char
  }

  function EncodeMoveInputEvent(event: MoveInputEvent): (s: seq<char>)
    ensures |s| == 1
    ensures event.eventType == KeyDown <==> 'a' <= s[0] <= 'z'
  {
    var c := MoveLetter(event.input);
    if event.eventType == KeyDown then [c] else [Upper(c)]
  }

  function DecodeMoveInputEvent(s: seq<char>): (r: Option<MoveInputEvent>)
    ensures r.Some? ==> |s| == 1
  {
    if |s| != 1 then None
    else if 'a' <= s[0] <= 'z' then
      var m := LetterMove(s[0]);
      if m.Some? then Some(MoveInputEvent(m.value, KeyDown)) else None
    else if 'A' <= s[0] <= 'Z' then
      var m := LetterMove((s[0] as int - 'A' as int + 'a' as int) as char);
      if m.Some? then Some(MoveInputEvent(m.value, KeyUp)) else None
    else None
  }

  /** Each of the twelve events (six moves, two event types) survives the round trip. */
  lemma MoveEventRoundTrip(event: MoveInputEvent)
    ensures DecodeMoveInputEvent(EncodeMoveInputEvent(event)) == Some(event)
  {
    var c := MoveLetter(event.input);
    assert LetterMove(c) == Some(event.input);
    if event.eventType == KeyUp {
      assert (Upper(c) as int - 'A' as int + 'a' as int) as char == c;
    }
  }

  /** The twelve events have twelve distinct encodings. */
  lemma MoveEventInjective(a: MoveInputEvent, b: MoveInputEvent)
    ensures EncodeMoveInputEvent(a) == EncodeMoveInputEvent(b) ==> a == b
  {
    MoveEventRoundTrip(a);
    MoveEventRoundTrip(b);
  }

  /** Encoding inverts decoding on every string that decodes. */
  lemma MoveTokenRoundTrip(s: seq<char>)
    requires DecodeMoveInputEvent(s).Some?
    ensures EncodeMoveInputEvent(DecodeMoveInputEvent(s).value) == s
  {
  }
}
