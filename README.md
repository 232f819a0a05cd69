# mrdario core, modelled in Dafny

mrdario is a falling-pill puzzle game. This project models the parts of its engine whose results can be stated outright:

- **The grid's spatial algorithms** (`Grid`, `GridLines`, over the `GridTypes` data model):
  - bounds-checked cell lookup and neighbours at a distance;
  - direction deltas and the can-move test;
  - virus detection;
  - same-colour runs in one row (`FindLinesIn`) and over a whole grid (`FindLines`);
  - orphaned pill halves ("widows", `FindWidows`).
- **The key-repeat normaliser `InputRepeater`** (`Repeater`, with the move inputs in `Inputs`). It is a class whose held set and hold counters change in place on every tick. It is proved against the pure step function `Repeater.Tick`, and the repeat behaviour is proved as lemmas about that function.
- **The single-player controller** (`Controller`):
  - the seven-entry mode transition table and the starting mode;
  - the rule that a move is queued only while the game is being played;
  - the game tick that hands the whole queue to the game and empties it;
  - the Playing guard on the per-frame tick.

  Each queue handed to the game is recorded in `gameInputs`. That makes "each queued move reaches the game exactly once" a statement about the controller's state.
- **The text codecs** (`IntCodec`, `ObjectCodec`, `PillCodec`, `MoveCodec`, `GridCodec`):
  - integers in base 36;
  - the 20-character grid-object dictionary;
  - pill colour pairs;
  - move events;
  - the whitespace-tolerant grid format `g<height>,<width>:` followed by rows.

  The codec sources are not part of this model. Their contracts come from the repository's tests. Where a test leaves the alphabet open, a concrete one is chosen:
  - base-36 digits `0-9a-z`;
  - the pill pairs `1`-`9`;
  - one letter per move event: lower case on keydown, upper case on keyup.

  For each codec the round trip and the length facts are proved. Each encoder is also proved injective, as a corollary of its round trip. Where the codec has a decoder of whole texts, decoding is proved to reject any text holding a character outside the alphabet.

Decisions where the model has to pick a reading of the code:

- `hasColor` is true for every object except Empty and Destroyed. `guards.ts` is not part of this model; this reading matches the test fixtures.
- `isEmpty` of a missing neighbour is false.
- A JavaScript `Set` iterates in insertion order, so the held set is a sequence without duplicates. The order of repeat emissions therefore follows the order of the presses.
- An invalid mode transition throws in the state-machine library. Here it is `Fire` returning `false` with nothing changed.

## Model

| member | source | states |
|---|---|---|
| `Grid.GetInRow` | core/src/game/utils/grid.ts:29-34 | None exactly when the column index is negative or past the row's end; otherwise the stored cell |
| `Grid.GetInGrid` | core/src/game/utils/grid.ts:36-42 | None exactly when the location is outside the grid (row out of range, or column out of that row's range); otherwise the stored cell |
| `Grid.HasViruses` | core/src/game/utils/grid.ts:44-46 | true iff some cell of the grid is a virus |
| `Grid.EveryRowVirusFree` | core/src/game/utils/grid.ts:45 | the outer `every`: true iff no cell of any row is a virus |
| `Grid.EveryCellVirusFree` | core/src/game/utils/grid.ts:45 | the inner `every`: true iff no cell of the row is a virus |
| `Grid.IsPillVertical` | core/src/game/utils/grid.ts:48-50 | true iff the pill's first cell is on the grid and holds a pill top |
| `Grid.GetCellNeighbors` | core/src/game/utils/grid.ts:52-66 | each of up, down, left and right is present exactly when (r-d,c), (r+d,c), (r,c-d) or (r,c+d) respectively lies inside the grid, and then it is the object in that cell |
| `Grid.DeltaRowCol` | core/src/game/utils/grid.ts:72-81 | fails exactly for distance 0. Otherwise Down is (d,0), Up (-d,0), Right (0,d) and Left (0,-d), and \|dRow\|+\|dCol\| = \|d\| |
| `Grid.NeighborAtDelta` | core/src/game/utils/grid.ts:52-81 | the neighbour in a direction is the cell reached by adding that direction's delta |
| `Grid.CanMoveCell` | core/src/game/utils/grid.ts:68-70 | true iff the cell one step in the direction is on the grid and Empty |
| `Grid.WidowIffPartnerMissing` | core/src/game/utils/grid.ts:154-164 | a cell is a widow iff it is a pill half and its partner-direction neighbour is not the opposite half. Colour is ignored and an off-grid partner counts as missing |
| `Grid.JoinedHalvesAreNotWidows` | core/src/game/utils/grid.ts:160-164 | a left/right or top/bottom pair of halves reports neither half |
| `Grid.RowWidowsUpToFacts` | core/src/game/utils/grid.ts:153-170 | the scan of a row's first n cells reports exactly that prefix's widows, in column order |
| `Grid.RowAppendCell` | core/src/game/utils/grid.ts:153-170 | scanning one more cell of a row, and appending it when it is a widow, keeps the row's list sound, complete and in column order |
| `Grid.WidowsUpToFacts` | core/src/game/utils/grid.ts:150-173 | the scan of the first n rows reports exactly their widows, in row-major order |
| `Grid.WidowsExactly` | core/src/game/utils/grid.ts:149-175 | every reported cell is a widow, every widow is reported, and the list is in row-major order |
| `Grid.FindWidows` | core/src/game/utils/grid.ts:149-175 | the nested scan loops return exactly `Widows(grid)` |
| `GridLines.RunStart` | core/src/game/utils/grid.ts:94-104 | the start of the same-colour stretch ending at k: every cell from it to k has k's colour, and the cell before it does not |
| `GridLines.Range` | core/src/game/utils/grid.ts:102-104 | the consecutive indices s, s+1, …, e-1 that a current line collects |
| `GridLines.SegmentStep` | core/src/game/utils/grid.ts:94-104 | on a colour change the current line restarts, and a cell with a colour is appended to it |
| `GridLines.RunStartAfterBoundary` | core/src/game/utils/grid.ts:94-100 | a run never reaches back across a colour boundary |
| `GridLines.MaximalRunStart` | core/src/game/utils/grid.ts:94-104 | a maximal run's start is the run start of its last cell |
| `GridLines.SegmentIsMaximalRun` | core/src/game/utils/grid.ts:94-108 | the line closed at a boundary is a maximal same-colour run |
| `GridLines.ClosedLineIsRunLine` | core/src/game/utils/grid.ts:96-98 | a closed line that is long enough is a maximal run of at least lineLength coloured cells |
| `GridLines.LinesBeforeRunLines` | core/src/game/utils/grid.ts:88-112 | every line pushed before index i is a maximal run of length at least lineLength ending by i |
| `GridLines.EarlierLineEndsFirst` | core/src/game/utils/grid.ts:94-100 | a line ending before position i ends no later than the run containing i-1 starts |
| `GridLines.LinesBeforeAscending` | core/src/game/utils/grid.ts:88-112 | the lines pushed so far are disjoint and in ascending order |
| `GridLines.LinesBeforeGrows` | core/src/game/utils/grid.ts:88-112 | a line once pushed stays in the result |
| `GridLines.LinesExactly` | core/src/game/utils/grid.ts:84-113 | for lineLength ≥ 1: a line is returned iff it is a maximal same-colour run of consecutive indices of length at least lineLength; the lines are disjoint and ascending |
| `GridLines.ColorlessNeverInLine` | core/src/game/utils/grid.ts:89-104 | every index in a returned line is on the row and holds a coloured object |
| `GridLines.FindLinesIn` | core/src/game/utils/grid.ts:84-113 | the loop with its last colour and current line returns `Lines(row, lineLength)` for every lineLength |
| `GridLines.ScanStep` | core/src/game/utils/grid.ts:94-107 | at each index the scan adds the line closed by a colour change, and after the last index the line still open, when long enough |
| `GridLines.AlongRow` | core/src/game/utils/grid.ts:122 | one location per column index of the line: the k-th is (row, line[k]) |
| `GridLines.AlongColumn` | core/src/game/utils/grid.ts:139 | one location per row index of the line: the k-th is (line[k], column) |
| `GridLines.Column` | core/src/game/utils/grid.ts:129-133 | the column slice has one cell per row, the cell of that row in that column |
| `GridLines.FindLines` | core/src/game/utils/grid.ts:116-146 | the result is all horizontal groups followed by all vertical groups |
| `GridLines.RowGroupsExactly` | core/src/game/utils/grid.ts:118-124 | a row's groups lie in that row, follow column order, and include every long enough maximal run of the row |
| `GridLines.ColumnGroupsExactly` | core/src/game/utils/grid.ts:134-141 | a column's groups share that column with consecutive rows, follow row order, and include every long enough maximal run of the column |
| `GridLines.HorizontalFromExactly` | core/src/game/utils/grid.ts:117-126 | the horizontal groups from row r on are exactly the long runs of those rows, in row order |
| `GridLines.VerticalFromGroups` | core/src/game/utils/grid.ts:134-142 | every vertical group from column c on is a long run of one column |
| `GridLines.VerticalFromOrdered` | core/src/game/utils/grid.ts:134-142 | the vertical groups come in column order |
| `GridLines.VerticalFromCovers` | core/src/game/utils/grid.ts:134-142 | every long run of a column from c on is among the vertical groups |
| `GridLines.FindLinesExactly` | core/src/game/utils/grid.ts:116-146 | horizontal part: exactly the long row runs, in row order. Vertical part: exactly the long column runs, in column order |
| `GridLines.CellInBothDirections` | core/src/game/utils/grid.ts:145 | no deduplication: with lineLength 1 a single coloured cell is reported once per direction |
| `Inputs.MoveInputsComplete` | core/src/api/game/encoding/move.test.ts:6-13 | the move set is exactly Up, Down, Left, Right, RotateCCW and RotateCW |
| `Repeater.Remove` | src/frontend/game/InputRepeater.js:41 | deleting from the held set keeps exactly the other members |
| `Repeater.RemoveKeepsNoDuplicates` | src/frontend/game/InputRepeater.js:41 | deleting keeps the held set free of duplicates |
| `Repeater.AfterEventKeepsNoDuplicates` | src/frontend/game/InputRepeater.js:35-43 | one event keeps the held set free of duplicates |
| `Repeater.InitialState` | src/frontend/game/InputRepeater.js:15-29 | a new repeater holds nothing and all six counters are 0 |
| `Repeater.HeldAfterKeepsNoDuplicates` | src/frontend/game/InputRepeater.js:35-43 | the event loop keeps the held set free of duplicates |
| `Repeater.QueueStep` | src/frontend/game/InputRepeater.js:35-43 | the event loop handles one event at a time, in queue order |
| `Repeater.DueStep` | src/frontend/game/InputRepeater.js:45-50 | the repeat pass visits held inputs in order, emitting each one whose counter has reached its interval |
| `Repeater.CountersAfter` | src/frontend/game/InputRepeater.js:53-57 | every input has a counter afterwards: 0 if the input is not held, 1 if it is held and its counter had reached its repeat interval, and otherwise one more than before |
| `Repeater.TickKeepsValid` | src/frontend/game/InputRepeater.js:31-60 | a tick keeps the state well formed: no duplicates, all six counters, unheld counters at 0 |
| `Repeater.CountersAfterTick` | src/frontend/game/InputRepeater.js:53-57 | after a tick a held input's counter is one more than before (or 1 if it just repeated), and an unheld input's counter is 0 |
| `Repeater.HeldOnlyChangesForQueued` | src/frontend/game/InputRepeater.js:35-43 | an input that no event names keeps its held status |
| `Repeater.PressesAreKeyDowns` | src/frontend/game/InputRepeater.js:35-39 | every fresh press comes from a keydown event for that input |
| `Repeater.PressEmitsOnce` | src/frontend/game/InputRepeater.js:35-39 | a keydown for an unheld input emits it first and once, marks it held, and starts its counter at 1 |
| `Repeater.HeldKeyDownIgnored` | src/frontend/game/InputRepeater.js:36 | a keydown for an input already held acts like no event at all |
| `Repeater.ReleaseStops` | src/frontend/game/InputRepeater.js:40-42 | a keyup releases the input, resets its counter and emits nothing for it |
| `Repeater.DueSubset` | src/frontend/game/InputRepeater.js:45-50 | an input not held is never emitted by the repeat pass |
| `Repeater.RepeatEmittedOnce` | src/frontend/game/InputRepeater.js:45-50 | the repeat pass emits an input exactly once if it is held with its counter at or past its interval, and otherwise not at all |
| `Repeater.IdleTicks` | src/frontend/game/InputRepeater.js:31-60 | ticks with no events keep the state well formed and the held set unchanged, and each held input's counter is its count-up-and-wrap value `IdleCount` |
| `Repeater.IdleTicksAreTicks` | src/frontend/game/InputRepeater.js:31-60 | each idle tick is a tick with an empty event queue |
| `Repeater.IdleTickRepeats` | src/frontend/game/InputRepeater.js:45-57 | with no events a held input is emitted iff its counter has reached its interval; its counter then becomes 1, or otherwise goes up by one |
| `Repeater.DueMembership` | src/frontend/game/InputRepeater.js:45-50 | an input is emitted by the repeat pass iff it is held and its counter has reached its interval |
| `Repeater.HeldInputRepeatsPeriodically` | src/frontend/game/InputRepeater.js:6-13 | after the press tick, an input held with no further events has counter t mod N + 1 after t idle ticks. It is re-emitted on idle tick t+1 iff N divides t+1, where N is 24, 4, 8, 8, 12 or 12 for Up, Down, Left, Right, RotateCCW and RotateCW |
| `Repeater.ReleaseAndPressInOneTick` | src/frontend/game/InputRepeater.js:35-50 | a keyup then keydown in one tick for a due input emits it twice: once as a press, and once because its counter was not reset |
| `Repeater.InputRepeater.constructor` | src/frontend/game/InputRepeater.js:15-29 | the new object's state is `InitialState()` |
| `Repeater.InputRepeater.TickInputs` | src/frontend/game/InputRepeater.js:31-60 | the three loops turn the state and the returned moves into exactly `Tick(old state, queue)`: presses in queue order, then repeats |
| `Repeater.InputRepeater.ApplyEvents` | src/frontend/game/InputRepeater.js:35-43 | the event loop leaves the held set as `HeldAfter` and returns the fresh presses |
| `Repeater.InputRepeater.EmitRepeats` | src/frontend/game/InputRepeater.js:45-50 | the repeat loop returns the due inputs and resets exactly their counters |
| `Repeater.InputRepeater.UpdateCounters` | src/frontend/game/InputRepeater.js:53-57 | the counter loop increments held inputs' counters and zeroes the others |
| `Controller.Lookup` | src/frontend/game/SingleGameController.js:43-51 | no transition exactly when no table entry has that name and a matching from-mode; otherwise the target of a matching entry |
| `Controller.ModeGraph` | src/frontend/game/SingleGameController.js:43-51 | play Ready→Playing, pause Playing→Paused, resume Paused→Playing, win Playing→Won, lose Playing→Lost; reset →Ready and end →Ended; nothing else |
| `Controller.ResetAndEndAlwaysAllowed` | src/frontend/game/SingleGameController.js:49-50 | reset and end are allowed from every mode |
| `Controller.FinishedModesOnlyResetOrEnd` | src/frontend/game/SingleGameController.js:43-51 | from Won, Lost and Ended the only transitions are reset and end |
| `Controller.PlayingOnlyByPlayOrResume` | src/frontend/game/SingleGameController.js:44-46 | Playing is entered only by play from Ready or resume from Paused |
| `Controller.QueuesSent` | src/frontend/game/SingleGameController.js:147-150 | n game ticks hand over n queues: the first tick gets the whole queue and each later tick an empty one |
| `Controller.QueuedEventsDeliveredOnce` | src/frontend/game/SingleGameController.js:147-164 | over n ≥ 1 game ticks the queues handed over, joined in order, are exactly the queue: every queued move reaches the game once, in order |
| `Controller.SingleGameController.constructor` | src/frontend/game/SingleGameController.js:63-75 | starts in Ready with an empty move queue and a new game |
| `Controller.SingleGameController.Fire` | src/frontend/game/SingleGameController.js:63-73 | succeeds iff the table has the transition, then moves to its target; reset starts a new game; a refused transition changes nothing |
| `Controller.SingleGameController.EnqueueMoveInput` | src/frontend/game/SingleGameController.js:121-126 | appends the event only while Playing; otherwise the queue is unchanged |
| `Controller.SingleGameController.HandleInput` | src/frontend/game/SingleGameController.js:106-120 | pause and resume change the mode only on keydown; play and reset act on any event; move keys go to the gated queue |
| `Controller.SingleGameController.TickGame` | src/frontend/game/SingleGameController.js:157-164 | the game receives the whole current queue, which is then empty; the mode is unchanged |
| `Controller.SingleGameController.Tick` | src/frontend/game/SingleGameController.js:138-156 | no effect unless Playing; while Playing, n game ticks hand over the queue and then n-1 empty queues |
| `IntCodec.DigitChar` | core/src/__tests__/encoding/game.test.ts:16-21 | a digit is one of `0-9a-z` |
| `IntCodec.DigitValue` | core/src/__tests__/encoding/game.test.ts:22-28 | a digit's value is below the base and maps back to that digit |
| `IntCodec.DigitRoundTrip` | core/src/__tests__/encoding/game.test.ts:22-28 | every digit value below the base decodes back to itself |
| `IntCodec.Numeral` | core/src/__tests__/encoding/game.test.ts:16-21 | a numeral has at least one digit |
| `IntCodec.ValueOf` | core/src/__tests__/encoding/game.test.ts:22-28 | a string has a value exactly when it is non-empty and every character is a digit of the base |
| `IntCodec.NumeralRoundTrip` | core/src/__tests__/encoding/game.test.ts:22-28 | decoding a numeral in the same base gives back the number |
| `IntCodec.IntRoundTrip` | core/src/__tests__/encoding/game.test.ts:22-28 | `decodeInt(encodeInt(n)) == n` for every natural n |
| `IntCodec.EncodeIntInjective` | core/src/__tests__/encoding/game.test.ts:22-28 | distinct naturals have distinct numerals |
| `IntCodec.NumeralStep` | core/src/__tests__/encoding/game.test.ts:16-21 | a number of at least the base has one digit more than its quotient by the base |
| `IntCodec.DecimalLengthMonotone` | core/src/__tests__/encoding/game.test.ts:16-21 | a larger number never has fewer decimal digits |
| `IntCodec.NeverLongerThanDecimal` | core/src/__tests__/encoding/game.test.ts:16-21 | the encoded integer is never longer than its decimal string |
| `IntCodec.ShorterThanDecimal` | core/src/__tests__/encoding/game.test.ts:16-21 | from 100 on, the encoded integer is strictly shorter than its decimal string |
| `IntCodec.EncodeIntExamples` | core/src/__tests__/encoding/game.test.ts:16-28 | 1111 encodes shorter than "1111", 2323 round-trips, and 17 is "h" |
| `ObjectCodec.ObjectRoundTrip` | core/src/__tests__/api/encoding/grid.test.ts:31-37 | every grid object's character decodes back to that object |
| `ObjectCodec.CharRoundTrip` | core/src/__tests__/game/Game.test.ts:5-26 | every character that decodes maps back to itself |
| `ObjectCodec.ObjectCharInjective` | core/src/__tests__/game/Game.test.ts:5-26 | distinct objects have distinct characters |
| `ObjectCodec.DictionaryEntries` | core/src/__tests__/game/Game.test.ts:5-26 | each dictionary entry is both the object's encoding and the character's decoding |
| `ObjectCodec.DictionaryIsTheCode` | core/src/__tests__/game/Game.test.ts:5-26 | the dictionary has 20 entries with distinct characters, and every grid object is listed with its character |
| `ObjectCodec.DictionaryIndex` | core/src/__tests__/game/Game.test.ts:5-26 | every object has a dictionary entry |
| `ObjectCodec.ColorlessCodes` | core/src/__tests__/game/Game.test.ts:6-7 | the characters that decode to a colourless object are exactly X (Empty) and Y (Destroyed) |
| `ObjectCodec.EncodeObject` | core/src/__tests__/api/encoding/grid.test.ts:32-33 | an object encodes to a one-character string |
| `ObjectCodec.DecodeObject` | core/src/__tests__/api/encoding/grid.test.ts:34-35 | decoding succeeds iff the string is one known character |
| `ObjectCodec.EncodeObjectRoundTrip` | core/src/__tests__/api/encoding/grid.test.ts:31-37 | decoding an encoded object succeeds and gives the object back |
| `ObjectCodec.FixtureCharacters` | core/src/__tests__/api/encoding/grid.test.ts:56-85 | X, Y, V, N, O, E, S, K, D and R decode as in the indented-grid fixture |
| `PillCodec.ColorIndex` | core/src/__tests__/encoding/game.test.ts:33-35 | each of the three colours has an index below 3 |
| `PillCodec.EncodePillColors` | core/src/__tests__/encoding/game.test.ts:32-41 | each ordered colour pair encodes to one character in `1`-`9` |
| `PillCodec.DecodePillColors` | core/src/__tests__/encoding/game.test.ts:42-51 | only a single character in `1`-`9` decodes |
| `PillCodec.PillColorsRoundTrip` | core/src/__tests__/encoding/game.test.ts:42-51 | every pair decodes back to itself, order preserved |
| `PillCodec.PillColorsInjective` | core/src/__tests__/encoding/game.test.ts:42-51 | the nine pairs have nine distinct characters |
| `PillCodec.PillCharRoundTrip` | core/src/__tests__/encoding/game.test.ts:42-51 | encoding inverts decoding on the nine pill characters |
| `PillCodec.EncodePillSequence` | core/src/__tests__/encoding/game.test.ts:52-61 | one character per pill, each that pill's code |
| `PillCodec.DecodePillSequence` | core/src/__tests__/encoding/game.test.ts:62 | a sequence decodes exactly when every character is a pair code, and then pill k is the pair of character k |
| `PillCodec.PillSequenceRoundTrip` | core/src/__tests__/encoding/game.test.ts:52-62 | decoding an encoded pill sequence gives it back |
| `PillCodec.EncodePillSequenceInjective` | core/src/__tests__/encoding/game.test.ts:52-62 | distinct pill sequences have distinct encodings |
| `PillCodec.PillSequenceTextRoundTrip` | core/src/__tests__/encoding/game.test.ts:52-62 | every text that decodes is the encoding of the pills it decodes to |
| `PillCodec.PillSequenceExample` | core/src/__tests__/encoding/game.test.ts:53-62 | the three-pill fixture encodes to three characters and round-trips |
| `MoveCodec.MoveLetter` | core/src/api/game/encoding/move.test.ts:6-13 | each move has a lower-case letter |
| `MoveCodec.EncodeMoveInputEvent` | core/src/api/game/encoding/move.test.ts:14-16 | one character, lower case exactly for keydown |
| `MoveCodec.DecodeMoveInputEvent` | core/src/api/game/encoding/move.test.ts:16 | only one-character strings decode |
| `MoveCodec.MoveEventRoundTrip` | core/src/api/game/encoding/move.test.ts:5-19 | each keydown and keyup event of the six moves decodes back to itself |
| `MoveCodec.MoveEventInjective` | core/src/api/game/encoding/move.test.ts:16 | the twelve events have distinct encodings |
| `MoveCodec.MoveTokenRoundTrip` | core/src/api/game/encoding/move.test.ts:16 | encoding inverts decoding on every token that decodes |
| `GridCodec.Compact` | core/src/__tests__/api/encoding/grid.test.ts:55-60 | the compacted text has no whitespace and is no longer than the input |
| `GridCodec.IndexOf` | core/src/__tests__/api/encoding/grid.test.ts:56 | the first occurrence of a separator, or None when there is none |
| `GridCodec.RowString` | core/src/__tests__/api/encoding/grid.test.ts:38-40 | one character per cell, that cell's code |
| `GridCodec.DecodeRow` | core/src/__tests__/game/Game.test.ts:136-138 | a row decodes exactly when every character is a cell code, and then cell k is the object of character k |
| `GridCodec.DecodeRows` | core/src/__tests__/api/encoding/grid.test.ts:55-85 | a decoded body has exactly `height` rows of `width` cells, and every character of the body is a cell code |
| `GridCodec.DecodeGrid` | core/src/__tests__/api/encoding/grid.test.ts:55-85 | a successful decode has a header, the result is rectangular with the header's height and width, and every character of the body is a cell code |
| `GridCodec.UnknownCellRejected` | core/src/__tests__/api/encoding/grid.test.ts:55-85 | under any well-formed header, a body holding a character that is no cell code fails to decode |
| `GridCodec.UnknownCellExample` | core/src/__tests__/api/encoding/grid.test.ts:55-85 | `g1,1:Z` fails to decode |
| `GridCodec.CompactAppend` | core/src/__tests__/api/encoding/grid.test.ts:55-60 | compaction distributes over concatenation |
| `GridCodec.CompactNoWhitespace` | core/src/__tests__/api/encoding/grid.test.ts:38-40 | text without whitespace is left alone |
| `GridCodec.ObjectCharIsPlain` | core/src/__tests__/game/Game.test.ts:5-26 | every object character is an upper-case letter, never whitespace |
| `GridCodec.CompactLines` | core/src/__tests__/api/encoding/grid.test.ts:38-40 | the encoded rows compact to the row characters in row-major order |
| `GridCodec.DecodeRowString` | core/src/__tests__/api/encoding/grid.test.ts:38-40 | every row decodes back from its characters |
| `GridCodec.DecodeCells` | core/src/__tests__/api/encoding/grid.test.ts:38-53 | the row characters of a grid with rows of one width decode back to that grid |
| `GridCodec.IndexAfterPrefix` | core/src/__tests__/api/encoding/grid.test.ts:56 | the separator's first occurrence is right after a prefix that lacks it |
| `GridCodec.NumeralThenSeparator` | core/src/__tests__/api/encoding/grid.test.ts:56 | after an encoded integer, the first `,` or `:` is the one that follows it |
| `GridCodec.NoSeparatorInNumeral` | core/src/__tests__/api/encoding/grid.test.ts:56 | an encoded integer contains no `,` and no `:` |
| `GridCodec.DigitsOnly` | core/src/__tests__/game/Game.test.ts:69 | every numeral character is a digit or lower-case letter |
| `GridCodec.HeaderRoundTrip` | core/src/__tests__/api/encoding/grid.test.ts:38-40 | the header parser reads back the height, the width and the rest of the text |
| `GridCodec.ParseHeaderOf` | core/src/__tests__/api/encoding/grid.test.ts:38-40 | a header whose two fields hold no separator yields exactly those fields' values and the text after the colon, or nothing when a field is not a numeral |
| `GridCodec.HeaderIsPlain` | core/src/__tests__/api/encoding/grid.test.ts:38-40 | the header has no whitespace |
| `GridCodec.EncodeGridInjective` | core/src/__tests__/api/encoding/grid.test.ts:38-53 | distinct rectangular grids have distinct encodings |
| `GridCodec.GridRoundTrip` | core/src/__tests__/api/encoding/grid.test.ts:38-53 | `decodeGrid(encodeGrid(g)) == g` for every rectangular grid, the 4×3 and 40×80 fixtures among them |
| `GridCodec.WhitespaceIgnored` | core/src/__tests__/api/encoding/grid.test.ts:55-60 | texts that differ only in whitespace decode alike |
| `GridCodec.CompactPadded` | core/src/__tests__/api/encoding/grid.test.ts:57-60 | indentation before a row vanishes under compaction |
| `GridCodec.CompactWhitespace` | core/src/__tests__/api/encoding/grid.test.ts:57-60 | pure whitespace compacts to nothing |
| `GridCodec.CompactIndentedLines` | core/src/__tests__/api/encoding/grid.test.ts:55-60 | indented rows on their own lines compact to the row characters |
| `GridCodec.IndentedRoundTrip` | core/src/__tests__/api/encoding/grid.test.ts:55-85 | a header followed by a rectangular grid's rows, each on its own indented line, decodes to that grid |
| `GridCodec.IndentedLinesStep` | core/src/__tests__/api/encoding/grid.test.ts:57-60 | each row sits on its own line after the indentation |
| `GridCodec.IndentedFixture` | core/src/__tests__/api/encoding/grid.test.ts:55-85 | `g4,3:` and the four indented rows XVO, NYE, SXK, DRY decode to the expected 4×3 grid |
| `GridCodec.HeaderFixesShape` | core/src/__tests__/api/encoding/grid.test.ts:55-85 | a successful decode has exactly as many rows, and cells per row, as its header says |
| `GridCodec.HeaderExamples` | core/src/__tests__/game/Game.test.ts:69-86 | `gh,8:` decodes to 17 rows of 8 cells, and `g5,6:` to 5 rows of 6 cells (as in core/src/__tests__/encoding/game.test.ts:79-85) |
| `GridCodec.PillRowFixture` | core/src/__tests__/game/Game.test.ts:135-138 | row `XXXDRXXX` holds PillLeft Color3 at column 3 and PillRight Color2 at column 4, the pill `[[1,3],[1,4]]` |

## Left out

- Rendering (Pixi sprites, SVG animation), networking (the socket client), React pages and routing, touch input and build scripts. None of them is game logic.
- The controller's timing loop: `requestAnimationFrame`, `timestamp()` and the floating-point `dt` accumulator. `Controller.SingleGameController.Tick` takes how many game ticks the frame allows as a parameter instead.
- The state-machine library's callbacks, except resetting the game on reset:
  - `onEnterState` re-renders and notifies the input managers;
  - `onPlay` starts the loop;
  - `onResume` calls `tick`.
- The game simulation itself (`Game` construction, viruses, `tick`, and the win and lose callbacks that fire `win`/`lose`). Its source is not part of this model, and its fixtures depend on a seeded random generator. In the controller the game shows up only as the list of queues it has received.
- `encodeGameState`: its test only logs the result.
- The pill-sequence fixture `'123456789a'`. It has ten characters while only nine colour pairs exist, so the real pill alphabet is unknown and this model's `1`-`9` alphabet does not decode it.
- The codec source files are not part of this model. Their alphabets are choices consistent with the tests: base 36, `1`-`9`, and one letter per move event.
- `IntCodec.ValueOf`: strict. An empty string or any non-digit character gives None. How the original decoder treats malformed text is not known, since its source is not part of this model.
- `Controller.SingleGameController.Fire`: a transition the table refuses returns `false` and changes nothing. The library throws instead.
- `GridLines.FindLines`: requires a non-empty grid with rows of one width. The source reads `grid[0].length` and fails on an empty grid; its behaviour on ragged rows depends on helpers that are not part of this model.
- `GridLines.LinesExactly`: the run properties are stated only for lineLength ≥ 1. For lineLength ≤ 0 the source also pushes empty lines; `GridLines.FindLinesIn` still equals `Lines` there.
- `Grid.IsPillVertical`: requires a non-empty list of pill cells. The source reads `pillCells[0]` and fails without one.
- `GridCodec.IndentedFixture`: the fixture text is built from the expected grid by `IndentedLines` rather than written out literally. What is proved is that a header followed by rows on indented lines decodes to that grid.
- `GridCodec.HeaderExamples`: states the shape of any successful decode under the `gh,8:` and `g5,6:` headers; the seeded boards themselves are not reproduced.
- `Repeater.InputRepeater.TickInputs`: the `movingCounters` keys are assumed to be the move inputs themselves, so `movingDirections.has(inputType)` finds them. The `INPUTS` constants are not part of this model.
