# Reversi engine: a Dafny model

This project models the core of a C Reversi (Othello) program: the board and
its rules in `src/logic/logic.c`, the disc count and result of
`src/input_output/game_io.c`, and the alpha-beta search of
`src/minimax/minimax.c`.

The model has two layers.

- Value-level functions state what each C routine computes:
  - `Othello`: squares, boards, directions and rays.
  - `Legality`: marking the squares where a move is valid.
  - `Capture`: flipping the captured discs.
  - `Counting`: the disc counts and the winner.
  - `Rules`: the opening position, playing a move, handing over the turn, the game loop.
  - `Codec`: the move code exchanged with an opposing program, and the board string.
  - `Search`: `minimax` and `find_best_move`.
- The imperative layer works the way the C code does:
  - `Engine.Game` is the `Game` record. Its 8x8 board is an `array2` that is updated in place.
  - Each C routine that changes the game is a method of `Game`. Its tail recursion becomes a loop.
  - Each method is proved to leave exactly the board, turn and state that the value-level function describes.
  - `Cpu` runs the search on a `Game` object. A child is made in place, searched, and undone by writing back the copy taken before the loop.
  - `Cpu` is proved to return what `Search` computes and to leave the game as it found it.

The search functions are generic in the child step, the function that makes a
child position from a move. The program's own step is `Search.SearchChild`:
play the move, then switch the turn or, if the opponent cannot move, re-mark
the same mover's squares. The `Cpu` methods take that step as a ghost
parameter, required to agree with `SearchChild` everywhere
(`Search.IsSearchChild`). `Search.SearchChildQualifies` shows that
`SearchChild` itself meets the requirement.

Some behaviours of the C code are kept as written:

- `is_max` is toggled for every child whose turn was switched and is never reset inside a node. Whether a node maximises is fixed by the `is_max` it was called with.
- The prune flag is checked only at the start of a row. A row that has begun is finished.
- A drawn terminal position below the depth limit scores ±`HUGE_NUMBER`: no child is tried.
- `find_best_move` searches every child at depth 0.
- Marking a line stops at the first square it marks.
- The diagonals of one or two squares that `get_starting_indices`/`get_next_array` never visit are not scanned. They are too short to hold a capture.

## Model

| member | source | states |
|---|---|---|
| Othello.Opposite | src/logic/logic.c:757-763 | the colour a disc takes when flipped differs from its old colour |
| Othello.Flipped | src/logic/logic.c:757-763 | flipping keeps the status and turns the colour to the opposite |
| Othello.Set | src/logic/logic.c:436-454 | writing one square changes that square and no other |
| Othello.Succ | src/logic/logic.c:529-546 | the next direction in the order north, north-east, …, north-west |
| Othello.Reverse | src/logic/logic.c:512-516 | reversing a direction adds 4 modulo 8 |
| Othello.Steps | src/logic/logic.c:695-728 | a measure that is positive on the board |
| Othello.StepsDecrease | src/logic/logic.c:695-728 | one step from a square lands within one square of the board and strictly lowers the measure, so every walk ends |
| Othello.StepBack | src/logic/logic.c:512-516 | a step followed by a step in the reversed direction comes back |
| Othello.RayStep | src/logic/logic.c:695-728 | a step along a ray moves one place further out; a reversed step moves one place back |
| Othello.RayInjective | src/logic/logic.c:479-509 | distinct distances along a ray are distinct squares |
| Othello.RayIndex | src/logic/logic.c:479-509 | the unique distance at which a square lies on a ray, or -1 |
| Legality.RunLengthMeaning | src/logic/logic.c:661-692 | the run length is Some(k) exactly when k opposite discs are followed by a disc of the mover's colour; None means no k brackets |
| Legality.RunShift | src/logic/logic.c:661-692 | over an opposite disc, bracketing by k+1 from here is bracketing by k from the next square |
| Legality.RunLengthSameDiscs | src/logic/logic.c:661-692 | the run length depends only on the discs, not on marks |
| Legality.FlankedSameDiscs | src/logic/logic.c:661-692 | whether a square is a capture depends only on the discs |
| Legality.ScanLine | src/logic/logic.c:661-692 | `mark_valid_moves_array` only turns non-full squares on the scanned line into valid ones |
| Legality.ScanLineSound | src/logic/logic.c:661-692 | every square the line scan marks is flanked in the reverse direction: a move there captures |
| Legality.StartIndices | src/logic/logic.c:621-658 | every direction starts its lines on the board |
| Legality.NextArrayDecreases | src/logic/logic.c:564-618 | the next line of a direction starts on the board and the walk over lines terminates |
| Legality.OnlyMarksSameDiscs | src/logic/logic.c:549-561 | a board changed only by marks holds the same discs |
| Legality.ScanLines | src/logic/logic.c:549-561 | scanning all lines of a direction changes only marks |
| Legality.ScanDirections | src/logic/logic.c:529-546 | scanning every remaining direction changes only marks |
| Legality.ClearedAt | src/logic/logic.c:731-745 | `delete_all_valid_moves` empties exactly the valid squares and keeps the rest |
| Legality.MarkedKeepsDiscs | src/logic/logic.c:519-526 | `mark_valid_moves` keeps every disc and leaves each other square empty or valid |
| Legality.MarksAfterClearing | src/logic/logic.c:519-526 | marks added to a cleared board keep its discs and leave only empty or valid squares |
| Legality.ScanLinesSound | src/logic/logic.c:549-561 | every square marked by a direction's lines is flanked along that direction |
| Legality.ScanDirectionsSound | src/logic/logic.c:529-546 | every square marked over the directions is a capture for the colour |
| Legality.MarkedSound | src/logic/logic.c:519-526 | every valid square after marking is empty and a move there captures |
| Legality.MarkedIgnoresMarks | src/logic/logic.c:519-526 | marking depends only on the discs, not on old marks |
| Legality.RemarkOverrides | src/logic/logic.c:519-526 | marking for one colour then another equals marking for the second only |
| Legality.MarkedIdempotent | src/logic/logic.c:519-526 | marking twice for the same colour is marking once |
| Capture.RayIndexStep | src/logic/logic.c:695-728 | from the next square, each square of the ray is one step closer |
| Capture.FlipRunAt | src/logic/logic.c:757-763 | flipping a run of k squares flips exactly the squares at distances 0..k-1 |
| Capture.ReverseRayFlipsRun | src/logic/logic.c:479-509 | along a direction, exactly the opposite discs bracketed by a mover's disc become the mover's colour |
| Capture.RunFound | src/logic/logic.c:479-509 | opposite discs up to a mover's disc at distance t give a run of t-1 |
| Capture.RunMissing | src/logic/logic.c:479-509 | opposite discs up to the edge or a non-full square give no run |
| Capture.FlipBackStep | src/logic/logic.c:479-509 | flipping the disc at distance t extends the flipped stretch down to t |
| Capture.FlipBackDone | src/logic/logic.c:479-509 | once the whole run is flipped the board is the captured board |
| Capture.ReverseRayCaptures | src/logic/logic.c:479-509 | capturing along a ray only turns opposite discs to the mover's colour and keeps the move square |
| Capture.ReverseWalkOn | src/logic/logic.c:479-509 | going out over an opposite disc or the move square: step on |
| Capture.ReverseWalkTurn | src/logic/logic.c:479-509 | going out onto a mover's disc: reverse the direction, start going back (`reverse_direction`) |
| Capture.ReverseWalkFlip | src/logic/logic.c:479-509 | going back over an opposite disc: flip it (`change_discs_color`) and step on |
| Capture.ReverseWalkBackOn | src/logic/logic.c:479-509 | going back over a mover's disc: step on unchanged |
| Capture.ReverseWalkBackFlip | src/logic/logic.c:479-509 | a step back flips the disc at distance t and keeps the flipped-stretch invariant |
| Capture.ReverseWalkBack | src/logic/logic.c:479-509 | the walk back from anywhere in the run ends in the captured board |
| Capture.ReverseWalkStops | src/logic/logic.c:479-509 | a walk out that meets the edge or a non-full square changes nothing, and no capture happens |
| Capture.ReverseWalkFound | src/logic/logic.c:479-509 | a walk out that meets a mover's disc ends in the captured board |
| Capture.ReverseWalkOut | src/logic/logic.c:479-509 | the walk out from any point on the opposite run ends in the captured board |
| Capture.ReverseWalkRay | src/logic/logic.c:479-509 | the C walk of `reverse_color_in_array` computes exactly the captures along one direction |
| Capture.ReverseFrom | src/logic/logic.c:463-476 | the captures in all remaining directions only turn opposite discs to the mover's colour and keep the move square; the exact result is `Capture.ReverseFromFlipsRuns` |
| Capture.RaysDisjoint | src/logic/logic.c:463-476 | two rays from the move square share no other square |
| Capture.AgreeOnRayStep | src/logic/logic.c:695-728 | boards that agree on a ray agree on its first square and on the ray from the next square |
| Capture.RunLengthOnRay | src/logic/logic.c:479-509 | the walk along a direction reads only the squares of its own ray |
| Capture.ReverseRayOtherRays | src/logic/logic.c:463-476 | capturing along one direction leaves every square on the other rays from the move as it was |
| Capture.ReverseRayOtherRuns | src/logic/logic.c:463-476 | capturing along one direction changes no run that the move brackets along another direction |
| Capture.CapturedFromSplit | src/logic/logic.c:463-476 | a square is captured from direction d on exactly when it is captured along d or from the next direction on |
| Capture.ReverseFromFlipsRuns | src/logic/logic.c:463-476 | the loop over the directions from d on turns to the mover's colour exactly the squares on a run that some such direction brackets on the original board, and keeps every other square; the order of the directions does not matter |
| Capture.ReverseColorFlipsRuns | src/logic/logic.c:457-476 | `reverse_color` turns to the mover's colour exactly the squares on a run that the new disc brackets in some direction, and keeps every other square |
| Counting.RowSplit | src/input_output/game_io.c:242-262 | in a row, the white and black counts add up to the full squares |
| Counting.RowsSplit | src/input_output/game_io.c:242-262 | over rows, the white and black counts add up to the full squares, at most 8 per row |
| Counting.DiscsSplit | src/input_output/game_io.c:242-262 | the two counters together gain the number of full squares, at most 64 |
| Counting.RowSame | src/input_output/game_io.c:242-262 | rows holding the same discs count the same |
| Counting.RowsSame | src/input_output/game_io.c:242-262 | boards' rows holding the same discs give the same totals over all rows |
| Counting.DiscsIgnoreMarks | src/input_output/game_io.c:242-262 | the counters look only at discs, never at marks |
| Counting.RowFullSame | src/input_output/game_io.c:242-262 | rows with the same full squares have the same full count |
| Counting.RowFullOneMore | src/input_output/game_io.c:242-262 | one more full square in a row raises its full count by one |
| Counting.RowsFullSame | src/input_output/game_io.c:242-262 | rows with equal full counts give equal totals |
| Counting.RowsFullOneMore | src/input_output/game_io.c:242-262 | one row with one more full square raises the total by one |
| Counting.FullCountOneMore | src/input_output/game_io.c:242-262 | one square becoming full, the others unchanged, raises the full count by exactly one |
| Counting.GameOutcome | src/input_output/game_io.c:311-325 | a draw exactly when the counts are equal; otherwise the winner has more discs |
| Rules.InitialBoard | src/logic/logic.c:277-302 | white on (3,3) and (4,4), black on (3,4) and (4,3), every other square empty |
| Rules.Switch | src/logic/logic.c:748-754 | switching always changes the turn |
| Rules.SwitchInvolution | src/logic/logic.c:748-754 | switching twice gives back the turn |
| Rules.SwitchChangesMover | src/logic/logic.c:428-433 | with two different colours, switching the turn switches the colour to move |
| Rules.TransformedProperties | src/logic/logic.c:436-454 | a move fills its square with the mover's colour and adds exactly one full square; discs only turn from the opponent's colour to the mover's; the board comes out marked for the opponent |
| Rules.TurnTransitionStep | src/logic/logic.c:225-273 | the turn passes if the opponent can move; otherwise the mover's squares are re-marked; the match ends exactly when neither side can move |
| Rules.TurnTransitionMarksMover | src/logic/logic.c:225-273 | after a turn transition the board is marked for whoever moves next |
| Rules.StartMatchPosition | src/logic/logic.c:331-347 | the main menu starts a running match with the chosen first player, player 1's chosen colour and the other colour for player 2, the discs of the opening position, and the board marked for the first mover |
| Rules.InitialFullSquares | src/logic/logic.c:277-302 | exactly the four centre squares are full at the opening |
| Rules.GameRoundPhases | src/logic/logic.c:305-425 | one round: game over leads to the main menu, the menu to a running match with the chosen colours, and a running match stays running or ends without changing the colours |
| Rules.PlayPhases | src/logic/logic.c:305-425 | `transform_game` returns at the main menu, or still running when the moves run out; the colours are the menu's when play starts at the menu and never change otherwise; a running round is one turn transition |
| Rules.PlayMarksMover | src/logic/logic.c:305-425 | once a match has started from the menu, the players have opposite colours, and a running game's board is always marked for the side to move |
| Codec.EncodeMove | src/logic/logic.c:999-1010 | the code is a column letter A..H followed by a row digit 1..8 |
| Codec.FgetsLine | src/logic/logic.c:955 | `fgets` keeps a prefix of the input, at most the room, with no newline before its end; it stops early only after reading a newline or at the end of the input |
| Codec.DecodeEncode | src/logic/logic.c:963-977 | a written move code reads back as the same move, whatever follows |
| Codec.EncodeDecode | src/logic/logic.c:963-977 | a decoded move is what the first two characters encode |
| Codec.PassWordIsSentinel | src/logic/logic.c:1013-1023 | "PASO" reads as a skipped turn, and no move code does |
| Codec.DecodeRejects | src/logic/logic.c:957-977 | a line that is not "PASO" and has characters outside A..H or 1..8 in its first two places is rejected |
| Codec.ReadWrittenMove | src/logic/logic.c:979-994 | a written move is accepted exactly when its square is marked valid; otherwise the match ends |
| Codec.ReadPassWord | src/logic/logic.c:957-960 | a "PASO" file skips the turn on any board |
| Codec.ReadAcceptedMove | src/logic/logic.c:963-994 | an accepted move is the file's two-character code, onto a valid square |
| Codec.BoardString | src/logic/logic.c:872-909 | the board string has 65 characters |
| Codec.BoardStringDetermines | src/logic/logic.c:872-909 | the string determines every square's status, every disc's colour and the colour to move |
| Search.Min | src/minimax/minimax.c:363-369 | the smaller argument |
| Search.Max | src/minimax/minimax.c:373-379 | the larger argument |
| Search.CornerScore | src/minimax/minimax.c:384-407 | the corner bonus lies between -4·CORNER_VALUE and 4·CORNER_VALUE |
| Search.CornerScoreIgnoresMarks | src/minimax/minimax.c:384-407 | the corner bonus depends only on the discs |
| Search.Evaluation | src/minimax/minimax.c:173-203 | the evaluation is MIN_SCORE, 0 or MAX_SCORE |
| Search.EvaluationMeaning | src/minimax/minimax.c:173-203 | MIN_SCORE exactly when nobody can move and black wins, MAX_SCORE exactly when nobody can move and white wins, 0 otherwise |
| Search.SearchChildQualifies | src/minimax/minimax.c:255-283 | the program's child step is an admissible step for the search |
| Search.Minimax | src/minimax/minimax.c:206-359 | every score lies between -HUGE_NUMBER and HUGE_NUMBER |
| Search.NodeRun | src/minimax/minimax.c:239-358 | the candidate loops keep the best score within ±HUGE_NUMBER |
| Search.MinOverStep | src/minimax/minimax.c:286-287 | folding `min` over one more score keeps the minimum |
| Search.MaxOverStep | src/minimax/minimax.c:330-331 | folding `max` over one more score keeps the maximum |
| Search.NodeRunValidStep | src/minimax/minimax.c:256-291 | a valid square makes its child, scores it one level deeper and updates best, alpha, beta and the prune flag |
| Search.NodeRunChildStep | src/minimax/minimax.c:256-291 | the same step, for a child and score the caller already has |
| Search.NodeRunSkipStep | src/minimax/minimax.c:245-256 | a square that is not valid, or a row end, is passed over |
| Search.TracedStep | src/minimax/minimax.c:239-358 | a traced stretch of the loop extends backwards over one child |
| Search.NodeRunTrace | src/minimax/minimax.c:239-358 | along the loops, alpha only rises, beta only falls, the prune flag is never cleared, and best is the min or max over start and the children tried |
| Search.TracedNothing | src/minimax/minimax.c:239-358 | an empty stretch of the loop is traced |
| Search.TraceValidStep | src/minimax/minimax.c:256-291 | a traced rest of the loop after a valid square gives a traced loop from that square |
| Search.PruneFinishesRow | src/minimax/minimax.c:248-251 | once pruned, a new row is not entered, but the current row still tries each remaining valid square |
| Search.NodeRunNoMoves | src/minimax/minimax.c:239-358 | with no valid square the loops change nothing |
| Search.MinimaxLeaves | src/minimax/minimax.c:213-236 | a decided position scores MIN_SCORE + depth or MAX_SCORE - depth plus the corner bonus; any other position at depth 7 scores the corner bonus alone |
| Search.DrawnTerminal | src/minimax/minimax.c:213-245 | a drawn position with nobody to move, below depth 7, scores ±HUGE_NUMBER |
| Search.MinimaxNode | src/minimax/minimax.c:239-358 | an inner node scores the minimum (minimizer) or maximum (maximizer) over HUGE_NUMBER and its children's scores |
| Search.CandidatesChildStep | src/minimax/minimax.c:60-99 | a valid square contributes its child's depth-0 score at the head of the remaining candidates |
| Search.InOrderCons | src/minimax/minimax.c:60-99 | a valid square followed by later candidates stays in row-major order |
| Search.CandidatesInOrder | src/minimax/minimax.c:60-99 | the candidates are valid squares at or after the start, in strictly increasing row-major order |
| Search.SelectFirstBest | src/minimax/minimax.c:86-96 | no candidate beats the selection, nor does the start; unless the start is kept, the selection is a candidate strictly better than the start and than every candidate before it |
| Search.BestMoveIsFirstBest | src/minimax/minimax.c:38-168 | `find_best_move` returns the first candidate with the best score for the mover's side, or keeps ±HUGE_NUMBER and leaves the move when nothing beats it |
| Engine.Game.constructor | src/logic/logic.c:277-302 | a new game is at the main menu with the opening position; the menu branch sets its turn and colours before any move |
| Engine.Game.InitializeBoard | src/logic/logic.c:277-302 | the square-by-square walk writes the opening position |
| Engine.Game.DeleteAllValidMoves | src/logic/logic.c:731-745 | the walk leaves the cleared board |
| Engine.Game.MarkValidMovesArray | src/logic/logic.c:661-692 | the walk along one line leaves the line-scanned board |
| Engine.Game.MarkValidMovesAllArrays | src/logic/logic.c:549-561 | the loop over the lines of a direction leaves the scanned board |
| Engine.Game.MarkValidMovesAllDirections | src/logic/logic.c:529-546 | the loop over the directions leaves the scanned board |
| Engine.Game.MarkValidMoves | src/logic/logic.c:519-526 | clearing then scanning leaves the marked board |
| Engine.Game.ChangeDiscsColor | src/logic/logic.c:757-763 | the one square's colour becomes the opposite and nothing else changes |
| Engine.Game.ReverseColorInArray | src/logic/logic.c:479-509 | the in-place walk out and back leaves exactly the captures along one direction |
| Engine.Game.ReverseColorAllDirections | src/logic/logic.c:463-476 | the loop over the directions leaves the captures in all of them, which `Capture.ReverseFromFlipsRuns` states exactly |
| Engine.Game.ReverseColor | src/logic/logic.c:457-460 | the captures in all eight directions, starting north, which `Capture.ReverseColorFlipsRuns` states exactly |
| Engine.Game.TransformBoard | src/logic/logic.c:436-454 | the game after placing the disc, capturing and marking the opponent's moves |
| Engine.Game.CheckForValidMoves | src/logic/logic.c:912-936 | true exactly when some square is marked valid |
| Engine.Game.SwitchPlayer | src/logic/logic.c:748-754 | the turn is switched |
| Engine.Game.TurnTransition | src/logic/logic.c:225-273 | the game after one turn transition |
| Engine.Game.TransformGame | src/logic/logic.c:305-425 | the game after running the loop of `transform_game` with the given menu answers and moves |
| Engine.Game.GetGameScore | src/input_output/game_io.c:242-262 | each counter gains the number of discs of its colour |
| Engine.Game.Outcome | src/input_output/game_io.c:311-325 | the announced result is the draw/winner decision on the board |
| Engine.Game.ConvertBoardToString | src/logic/logic.c:872-909 | the buffer holds the board string followed by NUL; the rest of the buffer is unchanged |
| Engine.Game.Snapshot | src/minimax/minimax.c:239 | the copy is the game's current value |
| Engine.Game.Restore | src/minimax/minimax.c:290-291 | writing back the copy restores the game exactly |
| Cpu.Evaluate | src/minimax/minimax.c:173-203 | the evaluation of the board, computed on the game |
| Cpu.EvaluateCorners | src/minimax/minimax.c:384-407 | the corner bonus of the board, computed on the game |
| Cpu.MakeChild | src/minimax/minimax.c:262-280 | the game after a move, then the turn switch or the re-marking of the same mover |
| Cpu.TryChild | src/minimax/minimax.c:256-291 | one child is scored by `minimax` as the search specifies, and the game is restored |
| Cpu.Minimax | src/minimax/minimax.c:206-359 | the in-place search returns the score of the search function and leaves the game unchanged |
| Cpu.TryMoves | src/minimax/minimax.c:239-358 | the candidate loops return the best score the search function computes |
| Cpu.TrySquare | src/minimax/minimax.c:256-291 | one valid square advances the loop exactly as the search function does |
| Cpu.TryCandidate | src/minimax/minimax.c:60-99 | one valid square of `find_best_move` yields the next candidate |
| Cpu.FindBestMove | src/minimax/minimax.c:38-168 | the score and move of the best-move function; the caller's move is kept when nothing beats the start; the game is unchanged |

## Left out

- The GTK interface, the terminal and file output, the prompts, the statistics file, `time_delay` and the polling for the opponent's file are not modelled. `transform_game` reads its moves from a sequence. The moves would come from the human, the search or the opponent's file.
- `main_menu_function` (src/main_menu/main_menu.c:10-15) is not modelled as prompts. Its answers, the first player and player 1's colour, are the `Rules.MenuChoice` parameter, whether typed or drawn at random. Player 2 always gets the other colour, as in the C.
- The game mode is left out. It only selects where a move comes from. In the mode against another program, a pass also reads or writes the exchange file. A malformed file read there can end the match (`src/logic/logic.c:241-251`); that I/O path is not modelled.
- `get_human_move`, `read_user_input`, `get_machine_move`, `button_pressed_callback`, `player_1_turn` and `player_2_turn` are not part of this model. They are input handling around the turn logic.
- Engine.Game.TransformGame: the C recursion runs until the program exits. The model stops when the given moves run out, and also at the main menu after a finished match.
- Cpu.Evaluate: the C counters passed to `get_game_score` are never initialised. The model starts them at zero, the evidently intended value.
- Codec.DecodeMove: the contents of `input_string` after `fgets` on an empty file are undefined. The model treats a line shorter than two characters as malformed.
- The running branch of `transform_game` repeats the body of `turn_transition`. The model uses `Rules.TurnTransition` for both.
- Legality.MarkedSound proves only that every marked square is a real capture. The C marker does not find every capture, because the scan of a line stops at its first mark: on the line own, opposite, empty, own, opposite, empty, that line leaves the second empty square unmarked. No completeness is claimed. The skipped diagonals of one or two squares play no part in this, since a capture needs three squares in a line.
- `Cpu.TryChild`, `Cpu.TrySquare`, `Cpu.TryCandidate` and `Cpu.MakeChild` are blocks repeated inside the loops of `minimax` and `find_best_move`, extracted as methods. The minimizer and maximizer branches of the C loops differ only in `min`/`max` and are one loop here.
- The search depth is bounded by `MAX_DEPTH` = 7. C integer overflow cannot occur: every score stays within ±1000000.
