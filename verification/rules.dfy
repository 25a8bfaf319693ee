/**
 * The game's state machine as values: the state after a click on a grid
 * position, the invariant every reachable state keeps, and what a whole
 * sequence of clicks from the initial state produces.
 */
module Rules {
  import opened Board
  import opened WinDetector

  datatype Option<T> = None | Some(value: T)

  /** The engine's fields: the board, whose turn it is, whether the game has
      ended, and the winner (None while there is none, and after a draw). */
  datatype GameState = GameState(cells: Grid, currentPlayer: int, gameOver: bool, winner: Option<int>)

  /** The state of a new or reset game. */
  function Initial(): (s: GameState)
    ensures CellsValid(s.cells) && Stones(s.cells) == 0
    ensures s.currentPlayer == BLACK && !s.gameOver && s.winner == None
  {
    EmptyGridHasNoStones();
    GameState(EmptyGrid(), BLACK, false, None)
  }

  /** A click on (row, col) is taken as a move: the game is not over, the
      position is on the board and its cell is empty. */
  predicate Accepts(s: GameState, row: int, col: int)
    requires WellFormed(s.cells)
  {
    !s.gameOver && InBounds(row, col) && s.cells[row][col] == EMPTY
  }

  /** Playing (row, col) for the current player: the stone is put down, then
      a win ends the game with the mover as winner, else a full board ends
      it as a draw, else the turn passes to the other player. */
  function Move(s: GameState, row: int, col: int): (t: GameState)
    requires WellFormed(s.cells) && InBounds(row, col)
    ensures WellFormed(t.cells)
  {
    var g := Place(s.cells, row, col, s.currentPlayer);
    if Wins(g, row, col) then s.(cells := g, gameOver := true, winner := Some(s.currentPlayer))
    else if IsFull(g) then s.(cells := g, gameOver := true)
    else s.(cells := g, currentPlayer := Opponent(s.currentPlayer))
  }

  /** A click on (row, col): ignored when the game is over, when the
      position is off the board and when the cell is taken, in that order;
      otherwise the move is played. */
  function Click(s: GameState, row: int, col: int): (t: GameState)
    requires WellFormed(s.cells) && IsPlayer(s.currentPlayer)
    ensures WellFormed(t.cells) && IsPlayer(t.currentPlayer)
    ensures t == s <==> !Accepts(s, row, col)
  {
    if s.gameOver then s
    else if row < 0 || row >= BOARD_SIZE || col < 0 || col >= BOARD_SIZE then s
    else if s.cells[row][col] != EMPTY then s
    else
      var t := Move(s, row, col);
      assert t.cells[row][col] != s.cells[row][col];
      t
  }

  /** Whose turn it is follows from the stone counts: Black has as many
      stones as White or one more; with equal counts Black is to move (or,
      once the game is over, White made the last move), otherwise White is
      to move (or Black made the last move). */
  predicate TurnMatchesStones(s: GameState)
    requires WellFormed(s.cells)
  {
    var b, w := Tally(s.cells, BLACK), Tally(s.cells, WHITE);
    (b == w || b == w + 1) &&
    s.currentPlayer == (if (b == w) != s.gameOver then BLACK else WHITE)
  }

  /** What holds of every state the game can reach. */
  ghost predicate Consistent(s: GameState) {
    && CellsValid(s.cells)
    && IsPlayer(s.currentPlayer)
    && TurnMatchesStones(s)
    // No five in a row anywhere until somebody wins.
    && (s.winner.None? ==> !HasFive(s.cells, BLACK) && !HasFive(s.cells, WHITE))
    // The winner is the last mover, has five in a row, and the loser has none.
    && (s.winner.Some? ==>
          && s.gameOver
          && s.winner.value == s.currentPlayer
          && HasFive(s.cells, s.currentPlayer)
          && !HasFive(s.cells, Opponent(s.currentPlayer)))
    // A game over without a winner is a draw on a full board.
    && (s.gameOver && s.winner.None? ==> IsFull(s.cells))
  }

  /** The initial state is consistent and holds no stone. */
  lemma InitialConsistent()
    ensures Consistent(Initial()) && Stones(Initial().cells) == 0
  {
    EmptyGridHasNoStones();
    NoStonesNoFive(EmptyGrid(), BLACK);
    NoStonesNoFive(EmptyGrid(), WHITE);
  }

  /** An accepted click changes exactly the clicked cell, to the mover's
      colour, and so adds exactly one stone; a rejected one adds none. */
  lemma ClickPlacesOneStone(s: GameState, row: int, col: int)
    requires WellFormed(s.cells) && IsPlayer(s.currentPlayer)
    ensures var t := Click(s, row, col);
      if Accepts(s, row, col) then
        && t.cells[row][col] == s.currentPlayer
        && (forall r, c | InBounds(r, c) && (r != row || c != col) :: t.cells[r][c] == s.cells[r][c])
        && Stones(t.cells) == Stones(s.cells) + 1
      else
        Stones(t.cells) == Stones(s.cells)
  {
    if Accepts(s, row, col) {
      PlaceAddsOneStone(s.cells, row, col, s.currentPlayer);
    }
  }

  /** How an accepted move ends: a five in a row through the new stone wins
      for the mover; otherwise a full board is a draw; otherwise the game
      goes on with the other player. A game that has ended does not switch
      the turn. */
  lemma ClickOutcome(s: GameState, row: int, col: int)
    requires WellFormed(s.cells) && IsPlayer(s.currentPlayer) && Accepts(s, row, col)
    ensures var t := Click(s, row, col);
      && (Wins(t.cells, row, col) ==>
            t.gameOver && t.winner == Some(s.currentPlayer) && t.currentPlayer == s.currentPlayer)
      && (!Wins(t.cells, row, col) && IsFull(t.cells) ==>
            t.gameOver && t.winner == s.winner && t.currentPlayer == s.currentPlayer)
      && (!Wins(t.cells, row, col) && !IsFull(t.cells) ==>
            !t.gameOver && t.winner == s.winner && t.currentPlayer == Opponent(s.currentPlayer))
  {
  }

  /** Every click keeps the invariant. */
  lemma ClickPreservesConsistent(s: GameState, row: int, col: int)
    requires Consistent(s)
    ensures Consistent(Click(s, row, col))
  {
    if Accepts(s, row, col) {
      var p := s.currentPlayer;
      var g := s.cells;
      var t := Click(s, row, col);
      var h := t.cells;
      assert h == Place(g, row, col, p);
      PlaceTally(g, row, col, p, BLACK);
      PlaceTally(g, row, col, p, WHITE);
      NewFivePassesThroughMove(g, row, col, p, BLACK);
      NewFivePassesThroughMove(g, row, col, p, WHITE);
      if Wins(h, row, col) {
        WinsHasFive(h, row, col);
      }
    }
  }

  /** With the game still going, Black is to move exactly when the number of
      stones on the board is even: the turns alternate Black, White, Black, ... */
  lemma TurnByParity(s: GameState)
    requires Consistent(s) && !s.gameOver
    ensures s.currentPlayer == BLACK <==> Stones(s.cells) % 2 == 0
  {
  }

  /** The states a sequence of clicks passes through, ending in the last. */
  function Play(s: GameState, clicks: seq<(int, int)>): (t: GameState)
    requires WellFormed(s.cells) && IsPlayer(s.currentPlayer)
    ensures WellFormed(t.cells) && IsPlayer(t.currentPlayer)
    decreases |clicks|
  {
    if clicks == [] then s else Play(Click(s, clicks[0].0, clicks[0].1), clicks[1..])
  }

  /** How many clicks of the sequence are taken as moves. */
  function AcceptedCount(s: GameState, clicks: seq<(int, int)>): (n: nat)
    requires WellFormed(s.cells) && IsPlayer(s.currentPlayer)
    ensures n <= |clicks|
    decreases |clicks|
  {
    if clicks == [] then 0
    else
      (if Accepts(s, clicks[0].0, clicks[0].1) then 1 else 0)
      + AcceptedCount(Click(s, clicks[0].0, clicks[0].1), clicks[1..])
  }

  /** Any sequence of clicks keeps the invariant and adds one stone per
      accepted click. */
  lemma {:induction false} PlayPreservesConsistent(s: GameState, clicks: seq<(int, int)>)
    requires Consistent(s)
    ensures Consistent(Play(s, clicks))
    ensures Stones(Play(s, clicks).cells) == Stones(s.cells) + AcceptedCount(s, clicks)
    decreases |clicks|
  {
    if clicks != [] {
      var (row, col) := clicks[0];
      ClickPreservesConsistent(s, row, col);
      ClickPlacesOneStone(s, row, col);
      PlayPreservesConsistent(Click(s, row, col), clicks[1..]);
    }
  }

  /** From a new game, the number of stones on the board is the number of
      accepted clicks, and while the game goes on Black is to move after an
      even number of them. */
  lemma GameFromStart(clicks: seq<(int, int)>)
    ensures var t := Play(Initial(), clicks);
      && Consistent(t)
      && Stones(t.cells) == AcceptedCount(Initial(), clicks)
      && (!t.gameOver ==> (t.currentPlayer == BLACK <==> AcceptedCount(Initial(), clicks) % 2 == 0))
  {
    InitialConsistent();
    PlayPreservesConsistent(Initial(), clicks);
    var t := Play(Initial(), clicks);
    if !t.gameOver {
      TurnByParity(t);
    }
  }
}
