# Tic-tac-toe board and win detector

A Dafny model of the game core of the browser tic-tac-toe in `js/script.js`:

- the board store `gameBoard` (a map from square position 0..8 to the mark
  written there), with `setContents`, `clearContents`, `getContentsLength`
  and the win-line detector `isTriplet`;
- the click rule of `game._playerClick`, which counts clicks on empty
  squares, marks `"x"` on an odd counter and `"o"` on an even one, and never
  changes a marked square;
- the check after each click: a triplet is a win for the mark on its first
  square, nine filled squares without a triplet are a tie;
- `startGame` (empty board, counter zero, listeners attached) and `endGame`
  (`"x"` is player 1, any other mark player 2, `null` a tie; listeners
  removed).

Modules:

- `Wrappers` (`wrappers.dfy`): `Option`, standing for JavaScript's
  `undefined`, `null` and `false` sentinels.
- `GameBoard` (`board.dfy`): the store, generic in the stored value as the
  source's object is. An absent key is an empty square. `IsTriplet` is the
  source's eight hand-written tests in the source's order. `FirstComplete` is
  an independent ordered scan over the eight lines, and a lemma ties the two
  together.
- `Game` (`game.dfy`): marks, players, the click rule (`Place`), the outcome
  check (`Evaluate`), `EndGame`, and the state machine `Click` over
  (board, click counter, listening). The invariant `Consistent` holds in every
  reachable state. `Built` is the board that alternate play of distinct
  moves produces, and `Replay` says what a run of clicks from `StartGame`
  leads to.
- `Scenarios` (`scenarios.dfy`): the classic draw 0,1,2,4,3,5,7,6,8, an early
  row win, an early diagonal win, a win for player 2, and boards where
  several lines are complete at once.

The text of a square is always equal to the board cell at the same position.
The handler writes the mark to the square and then stores exactly that text,
and `startGame` clears both together. So the model keeps only the board: an
empty square's `""` is an absent key. Attaching and removing the click
listeners is the `listening` flag. Once it is false, clicks have no effect
until the next `StartGame`.

## Model

| member | source | states |
|---|---|---|
| GameBoard.SetContents | js/script.js:34-36 | the written key reads back the new value, every other key reads as before, the key count grows by one exactly when the key was absent, and a store keyed only by squares stays so |
| GameBoard.RewriteIsNoOp | js/script.js:34-36 | writing the value a square already holds leaves the store unchanged |
| GameBoard.ClearContents | js/script.js:38-40 | after a reset every square is empty, the count is 0 and the detector finds no line |
| GameBoard.Length | js/script.js:42-44 | on a store keyed by squares the count is at most 9, equals 9 exactly when every square is filled, and is 0 exactly when no square is filled |
| GameBoard.KeyCount | js/script.js:42-44 | a store keyed by squares has at most nine keys, and nine exactly when it is full |
| GameBoard.IsTriplet | js/script.js:46-110 | a reported line is one of the eight lines and its three squares are filled with equal values; nothing is reported exactly when no line is complete, so a line with an empty square never counts |
| GameBoard.FirstComplete | js/script.js:47-107 | the ordered scan returns the index of a complete line with no complete line before it in row, column, diagonal order, or nothing when no line from the start index on is complete |
| GameBoard.IsTripletIsFirstComplete | js/script.js:47-109 | the detector returns exactly the first complete line in the order [0,1,2], [3,4,5], [6,7,8], [0,3,6], [1,4,7], [2,5,8], [0,4,8], [2,4,6] |
| GameBoard.NoTripletInSubBoard | js/script.js:46-109 | filling more squares never removes a complete line, so a board with no line has none at any earlier stage |
| GameBoard.SetAllKeys | js/script.js:34-36 | a run of writes adds exactly the written positions to the store's keys |
| GameBoard.LengthCountsDistinctWrites | js/script.js:38-44 | after a reset, the count equals the number of distinct positions written since |
| Game.Place | js/script.js:193-204 | a click on a marked square changes neither the counter nor the board; a click on an empty square adds one to the counter and fills only that square, with player 1's mark when the new counter is odd and player 2's when it is even |
| Game.Evaluate | js/script.js:206-213 | a win carries the first complete line in the detector's order (rows, then columns, then diagonals) and the mark on that line's first square; a win is reported exactly when some line is complete, and a tie exactly when the board is full with no complete line |
| Game.EndGame | js/script.js:229-238 | no mark gives no winner (a tie), player 1's mark gives player 1, player 2's mark gives player 2 |
| Game.Announce | js/script.js:206-212 | the argument `_playerClick` passes to `endGame`, mapped as `endGame` maps it: a tie announces no player, a win for x announces player 1 and a win for o player 2 |
| Game.StartGame | js/script.js:216-227 | a new game has an empty board, counter 0, listeners attached, and satisfies the game invariant |
| Game.Click | js/script.js:188-214 | a finished game ignores clicks; otherwise the board and counter change as the click rule says, and the listeners stay attached exactly while the new board is neither a win nor a tie |
| Game.ClickPreservesConsistent | js/script.js:188-214 | every click keeps the invariant: only squares are keys, the fill count equals the counter, x has (counter+1)/2 squares and o has counter/2, and the listeners are attached exactly while no win or tie is on the board; so the counter never passes 9 |
| Game.OccupiedClickIsNoOp | js/script.js:193-213 | in a reachable state, clicking a marked square leaves the whole state unchanged |
| Game.WinnerIsMover | js/script.js:193-209 | a winning click was a move onto an empty square, the winning line runs through that square, and the winning mark is the one the counter gives the mover |
| Game.AnnouncedWinnerIsMover | js/script.js:229-238 | after a winning click, player 1 is announced when the counter is odd and player 2 when it is even |
| Game.PlayPreservesConsistent | js/script.js:188-214 | any run of clicks from a reachable state reaches a reachable state |
| Game.FinishedIgnoresClicks | js/script.js:242-245 | after the game ends, no run of clicks changes the state |
| Game.BuiltGet | js/script.js:193-204 | in alternate play of distinct squares, the i-th move's square (from 0) holds the mark of counter value i+1 |
| Game.BuiltLength | js/script.js:42-44 | alternate play of distinct squares fills exactly as many squares as moves |
| Game.Replay | js/script.js:188-227 | from a new game, a run of distinct moves with no earlier win or tie ends on the built board with the counter at the number of moves, and is over exactly when that board is a win or a tie |
| Scenarios.DrawNeverShowsTriplet | js/script.js:46-109 | no state of the game 0,1,2,4,3,5,7,6,8 shows a triplet |
| Scenarios.DrawStaysOpen | js/script.js:206-213 | that game stays open through its first eight clicks |
| Scenarios.DrawEndsInTie | js/script.js:206-238 | its ninth click ends it in a tie, announced with no player |
| Scenarios.RowWinForPlayer1 | js/script.js:47-54 | x on 0, 1, 2 after five clicks is a win for x on [0,1,2], announced as player 1 |
| Scenarios.DiagonalWinBeforeFull | js/script.js:94-100 | x on 0, 4, 8 is reported as [0,4,8] as soon as square 8 is set, with only five squares filled |
| Scenarios.MiddleRowWinForPlayer2 | js/script.js:55-61 | o on 3, 4, 5 is a win for o on [3,4,5], announced as player 2 |
| Scenarios.TwoLinesReportTopRow | js/script.js:206-209 | in the game 1,3,2,5,4,6,8,7,0 the last click completes both [0,1,2] and [0,4,8]; the game ends as a win for x on [0,1,2], the first line in the detector's order |
| Scenarios.DetectorPriority | js/script.js:71-100 | with both the left column and the main diagonal complete the column is reported, and on a board of all x the top row is |
| Scenarios.EmptySquareBlocksLine | js/script.js:47-51 | two equal marks and an empty third square are not a triplet |

## Left out

- `gameElements` (js/script.js:5-21): DOM queries. They have no counterpart in the model.
- `Player.markSquare` (js/script.js:126-128) and `displayController` (js/script.js:141-175): writing square text and logging to the console. The square text is the board cell itself, and `EndGame`'s result is the value `displayWinner` would log.
- The commented-out `renderContents` (js/script.js:150-160, 256-257): dead code.
- Adding and removing event listeners (js/script.js:224-226, 243-245): modelled only as the `listening` flag.
- `Number(_playSquareID)` (js/script.js:200): a click receives its square as a `Position`, an integer in 0..8.
- GameBoard.SetContents: requires a key in 0..8. The source stores any key, but its only caller passes square ids.
- `getContents` (js/script.js:30-32) returns the live object. The model has no aliasing: the board is a value, and a single square is read with `Get`.
- The module-level singletons `gameBoard` and `game` become an explicit `Game` value passed through `Click` and `Play`.
