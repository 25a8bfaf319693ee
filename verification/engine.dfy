/**
 * The game engine object: a 15 by 15 array of cell values updated in place,
 * the player to move, whether the game has ended and the winner. Each method
 * is proved against the state machine of module Rules.
 */
module Engine {
  import opened Board
  import opened WinDetector
  import opened Rules

  class GomokuGame {
    var board: array2<int>
    var currentPlayer: int
    var gameOver: bool
    var winner: Option<int>

    /** The contents of `board`, as rows of cell values. */
    ghost var cells: Grid

    /** The board array has the grid's shape and holds `cells`. */
    ghost predicate Wf()
      reads this, board
    {
      && board.Length0 == BOARD_SIZE
      && board.Length1 == BOARD_SIZE
      && WellFormed(cells)
      && forall r, c | 0 <= r < BOARD_SIZE && 0 <= c < BOARD_SIZE :: board[r, c] == cells[r][c]
    }

    /** The fields as a value of the state machine. */
    ghost function State(): GameState
      reads this
    {
      GameState(cells, currentPlayer, gameOver, winner)
    }

    /** The object invariant: well formed, in a state the game can reach. */
    ghost predicate Valid()
      reads this, board
    {
      Wf() && Consistent(State())
    }

    /** A new game: an empty board, Black to move, not over, no winner. */
    constructor ()
      ensures Valid() && fresh(board)
      ensures State() == Initial()
    {
      currentPlayer := BLACK;
      gameOver := false;
      winner := None;
      board := new int[BOARD_SIZE, BOARD_SIZE]((r, c) => EMPTY);
      cells := EmptyGrid();
      new;
      InitialConsistent();
    }

    /** Replaces the board by a fresh all-empty one. */
    method InitBoard()
      modifies this
      ensures Wf() && fresh(board) && cells == EmptyGrid()
      ensures currentPlayer == old(currentPlayer) && gameOver == old(gameOver) && winner == old(winner)
    {
      board := new int[BOARD_SIZE, BOARD_SIZE]((r, c) => EMPTY);
      cells := EmptyGrid();
    }

    /** A click that has been mapped to the grid position (row, col). */
    method HandleClick(row: int, col: int)
      requires Valid()
      modifies this, board
      ensures Valid() && board == old(board)
      ensures State() == Click(old(State()), row, col)
    {
      if gameOver {
        return;
      }
      if row < 0 || row >= BOARD_SIZE || col < 0 || col >= BOARD_SIZE {
        return;
      }
      if board[row, col] != EMPTY {
        return;
      }
      MakeMove(row, col);
      ClickPreservesConsistent(old(State()), row, col);
    }

    /** Puts the current player's stone on (row, col), then ends the game on
        a win or a full board, or else passes the turn. */
    method MakeMove(row: int, col: int)
      requires Wf() && InBounds(row, col)
      modifies this, board
      ensures Wf() && board == old(board)
      ensures State() == Move(old(State()), row, col)
    {
      board[row, col] := currentPlayer;
      cells := Place(cells, row, col, currentPlayer);

      var won := CheckWin(row, col);
      if won {
        gameOver := true;
        winner := Some(currentPlayer);
        return;
      }

      var full := IsBoardFull();
      if full {
        gameOver := true;
        return;
      }

      SwitchPlayer();
    }

    /** Whether the stone on (row, col) completes five or more in a row:
        for each orientation, count the cell and the equal cells met walking
        outward both ways. */
    method CheckWin(row: int, col: int) returns (win: bool)
      requires Wf() && InBounds(row, col)
      ensures win == Wins(cells, row, col)
    {
      var player := board[row, col];
      OrientationsAreOrientations();

      for i := 0 to |ORIENTATIONS|
        invariant forall j | 0 <= j < i :: LineCount(cells, row, col, ORIENTATIONS[j]) < 5
      {
        var direction := ORIENTATIONS[i];
        assert IsOrientation(direction);
        assert IsStep(direction[0]) && IsStep(direction[1]);
        var count := 1;

        for k := 0 to |direction|
          invariant count == 1 + (if k > 0 then WalkFrom(cells, row, col, direction[0]) else 0)
                               + (if k > 1 then WalkFrom(cells, row, col, direction[1]) else 0)
        {
          var steps := WalkOutward(row, col, direction[k], player);
          count := count + steps;
        }

        LineCountReachesFive(cells, row, col, direction);
        if count >= 5 {
          return true;
        }
      }

      forall j | 0 <= j < |ORIENTATIONS|
        ensures !FiveThrough(cells, cells[row][col], row, col, ORIENTATIONS[j][1])
      {
        LineCountReachesFive(cells, row, col, ORIENTATIONS[j]);
      }
      return false;
    }

    /** The number of cells holding `player` met walking outward from
        (row, col) along d, up to the edge or the first other cell. */
    method WalkOutward(row: int, col: int, d: Dir, player: int) returns (steps: int)
      requires Wf() && InBounds(row, col) && IsStep(d) && player == cells[row][col]
      ensures steps == WalkFrom(cells, row, col, d)
    {
      steps := 0;
      var newRow := row + d.dr;
      var newCol := col + d.dc;
      while 0 <= newRow < BOARD_SIZE && 0 <= newCol < BOARD_SIZE && board[newRow, newCol] == player
        invariant steps + Walk(cells, player, newRow, newCol, d) == WalkFrom(cells, row, col, d)
        decreases Walk(cells, player, newRow, newCol, d)
      {
        steps := steps + 1;
        newRow := newRow + d.dr;
        newCol := newCol + d.dc;
      }
    }

    /** Whether no cell of the board is empty. */
    method IsBoardFull() returns (full: bool)
      requires Wf()
      ensures full == IsFull(cells)
    {
      for row := 0 to BOARD_SIZE
        invariant forall r, c | 0 <= r < row && 0 <= c < BOARD_SIZE :: cells[r][c] != EMPTY
      {
        for col := 0 to BOARD_SIZE
          invariant forall c | 0 <= c < col :: cells[row][c] != EMPTY
        {
          if board[row, col] == EMPTY {
            return false;
          }
        }
      }
      return true;
    }

    /** Passes the turn to the other player. */
    method SwitchPlayer()
      modifies this
      ensures currentPlayer == Opponent(old(currentPlayer))
      ensures board == old(board) && cells == old(cells)
      ensures gameOver == old(gameOver) && winner == old(winner)
    {
      currentPlayer := if currentPlayer == BLACK then WHITE else BLACK;
    }

    /** Starts a new game on a fresh empty board. */
    method Reset()
      modifies this
      ensures Valid() && fresh(board)
      ensures State() == Initial()
    {
      currentPlayer := BLACK;
      gameOver := false;
      winner := None;
      InitBoard();
      InitialConsistent();
    }
  }
}
