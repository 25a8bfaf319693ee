# Gomoku game engine

A model of the engine of a browser Gomoku (free-style five in a row) game,
the `GomokuGame` class of `game.js`. Two players, Black (1) and White (2),
take turns putting stones on the empty cells (0) of a 15 by 15 board. Black
moves first. A move that makes five or more consecutive stones of one colour
along a row, a column or a diagonal wins. A move that fills the last empty
cell without winning is a draw. A click is ignored once the game is over, when
it is off the board, and when its cell is taken.

The project has four modules:

- `Board` (board.dfy): the constants `BOARD_SIZE`, `EMPTY`, `BLACK` and `WHITE`,
  the grid as rows of cell values, placing a stone, the full-board test, the
  turn switch, and stone tallies.
- `WinDetector` (win_detector.dfy): the outward walks of `checkWin` as
  recursive functions. They are related to an independent definition of a
  win: some window of five consecutive cells through the played cell, along
  one of the four orientations, all hold the played stone. A third definition
  covers the whole board: five in a row anywhere.
- `Rules` (rules.dfy): the engine's fields as a value `GameState`, and what a
  click does to it (`Click`, `Move`). It also gives the invariant `Consistent`
  that every reachable state keeps:
  - Black has as many stones as White, or one more.
  - The player to move follows from those counts.
  - No five in a row exists before a win.
  - After a win, only the winner has five in a row.
  - A draw happens only on a full board.

  Sequences of clicks from a new game are covered as well.
- `Engine` (engine.dfy): the class `GomokuGame`. It holds a 15 by 15 `array2`
  board updated in place, plus the fields `currentPlayer`, `gameOver` and
  `winner`. Its methods keep the loops of the original. Each is proved to
  leave the object in the state the `Rules` function gives. A ghost field
  `cells` mirrors the array as a sequence of rows.

`winner` is `null` in the original until somebody wins. Here it is
`Option<int>`, and `None` stands for `null`.

Two notes on how the model relates to the code:

- The inner `while` loop of `checkWin` is a method of its own,
  `WalkOutward`. `CheckWin` calls it once for each of the two steps of an
  orientation.
- `handleClick` tests game over first, then bounds, then occupancy
  (game.js:171, 183, 188), and `Click` follows that order. A failed check
  leaves the state unchanged and reports no reason, so the order does not
  show in the state.

## Model

| member | source | states |
|---|---|---|
| Board.EmptyGrid | game.js:46-48 | the new board has 15 rows of 15 cells, and every cell is empty |
| Board.Place | game.js:203 | placing a stone sets exactly the chosen cell to the stone and leaves every other cell as it was |
| Board.Opponent | game.js:292-293 | the player after Black is White and the player after anything else is Black; the result is always a player |
| Board.PlaceAddsOneStone | game.js:201-203 | a stone put on an empty cell raises the number of stones on the board by exactly one |
| Board.TallyZero | game.js:278-287 | a colour has count zero exactly when no cell holds it |
| Board.FullIffAllStones | game.js:278-287 | on a board of empty cells and stones, no cell is empty exactly when the board holds 15 × 15 stones |
| WinDetector.WalkStaysOnBoard | game.js:254-262 | a walk that counts any cell starts on the board and counts no more cells than remain before the first edge it reaches |
| WinDetector.RemainingReachesEdge | game.js:254-256 | from a cell on the board, the first `Remaining` cells along a step are on the board and the next one is off it, so `Remaining` is the distance to the first edge the walk meets |
| WinDetector.Walk | game.js:254-262 | the `while` loop's count; a walk that counts anything starts on a cell that holds the value; its full meaning is stated by WalkIsRun (every counted cell holds the value, the next does not) and WalkCoversRun (a run is counted in full) |
| WinDetector.WalkFrom | game.js:249-262 | an outward walk from a cell counts at most BOARD_SIZE - 1 cells |
| WinDetector.WalkIsRun | game.js:254-262 | every cell a walk counts is on the board and holds the player's value, and the cell just past the walk is off the board or holds another value |
| WinDetector.WalkCoversRun | game.js:254-262 | a run of m consecutive cells holding the value is counted in full: the walk is at least m long |
| WinDetector.LineCount | game.js:246-263 | `count` after both walks of an orientation: between 1 and 29; LineCountReachesFive states when it reaches five |
| WinDetector.LineCountReachesFive | game.js:245-268 | the count of an orientation (1 plus both outward walks) is 5 or more exactly when some window of five consecutive cells through the cell, along that orientation, all hold its value; longer lines count too |
| WinDetector.WinsHasFive | game.js:209-211 | a win at a cell shows five in a row of that cell's colour on the board |
| WinDetector.NewFivePassesThroughMove | game.js:208-214 | a five in a row that appears when a stone is placed is of the placed colour and passes through the placed cell, so checking only that cell finds every new five |
| WinDetector.NoStonesNoFive | game.js:46-48 | a board with no stone of a colour has no five in a row of it |
| Rules.Initial | game.js:29-32 | the state of a new game: a board of empty cells with no stones, Black to move, the game not over, no winner; InitialConsistent proves it keeps the invariant (the same state `reset` restores, game.js:330-332) |
| Rules.Move | game.js:201-225 | the state after `makeMove`, on a well-formed board; what it does is stated by ClickPlacesOneStone (exactly the played cell changes, to the mover's colour, one more stone) and ClickOutcome (win, then draw, then turn switch) |
| Rules.Click | game.js:169-194 | a click leaves the whole state unchanged exactly when the game is over, the position is off the board or its cell is taken; these guards are tested in that order, and otherwise the move is played |
| Rules.InitialConsistent | game.js:26-48 | the state of a new game (empty board, Black to move, not over, no winner) keeps the invariant and has no stones |
| Rules.ClickPlacesOneStone | game.js:169-203 | an accepted click sets the clicked cell to the mover's colour, changes no other cell, and adds exactly one stone; a rejected click adds none |
| Rules.ClickOutcome | game.js:208-224 | after an accepted move, a win ends the game with the mover as winner and without switching the turn; otherwise a full board ends it as a draw, with the winner still unset and no switch; otherwise the game goes on with the other player to move |
| Rules.ClickPreservesConsistent | game.js:169-225 | every click keeps the invariant: the stone counts match the turn, there is no five before a win, after a win only the winner has five, and a draw means a full board |
| Rules.TurnByParity | game.js:223-224 | while the game goes on, Black is to move exactly when the board holds an even number of stones |
| Rules.PlayPreservesConsistent | game.js:169-225 | any sequence of clicks keeps the invariant and adds one stone per accepted click |
| Rules.GameFromStart | game.js:169-225 | from a new game, the number of stones on the board equals the number of accepted clicks, and while the game goes on Black is to move after an even number of them: moves alternate Black, White, Black, … |
| Engine.GomokuGame.constructor | game.js:26-40 | a new game object has a fresh all-empty 15 × 15 board, Black to move, the game not over, no winner, and the invariant |
| Engine.GomokuGame.InitBoard | game.js:46-48 | the board becomes a fresh 15 × 15 array of empty cells, and the other fields are unchanged |
| Engine.GomokuGame.HandleClick | game.js:169-194 | the new state is `Click` of the old one: unchanged on a rejected click, the move played otherwise; the invariant is kept and the board array is the same object |
| Engine.GomokuGame.MakeMove | game.js:201-225 | the new state is `Move` of the old one: the stone is placed in the array, then a win or a full board ends the game, or the turn passes |
| Engine.GomokuGame.CheckWin | game.js:233-272 | the result is true exactly when the stone on (row, col) has five or more in a row through it along some orientation |
| Engine.GomokuGame.WalkOutward | game.js:250-262 | the loop counts exactly the cells of the outward walk from (row, col) along one step |
| Engine.GomokuGame.IsBoardFull | game.js:278-287 | the result is true exactly when no cell is empty |
| Engine.GomokuGame.SwitchPlayer | game.js:292-293 | the player to move becomes the other player; nothing else changes |
| Engine.GomokuGame.Reset | game.js:328-335 | the object returns to the state of a new game on a fresh empty board, with the invariant |

## Left out

- Canvas drawing (`drawBoard`, `drawStarPoints`, `drawPiece`, `redrawAllPieces`, game.js:53-163, and the calls at game.js:37, 206 and 338): graphics side effects only.
- Status display (`updateCurrentPlayerDisplay`, `showWinner`, `showDraw`, the status clearing in `reset`, game.js:294, 300-323, 341-346): browser output only.
- The conversion of a mouse position into a grid position in `handleClick` (game.js:174-180). It uses the canvas layout and floating-point rounding. `HandleClick` takes the integer row and column that conversion produces.
- Event binding and page start-up (`bindEvents`, `initGame`, the load hook, game.js:352-376), and the canvas and drawing context kept by the constructor (game.js:27-28): event plumbing.
- The layout constants `CELL_SIZE`, `PIECE_RADIUS` and `PADDING` (game.js:8-10): they serve only drawing and input mapping.
