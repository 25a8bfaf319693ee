/**
 * The board of a free-style Gomoku game: a fixed square grid whose cells hold
 * 0 (empty), 1 (a black stone) or 2 (a white stone), with the stone tallies
 * that the game's turn and draw rules are stated in.
 */
module Board {

  /** Side length of the grid. */
  const BOARD_SIZE: int := 15

  /** Cell values. */
  const EMPTY: int := 0
  const BLACK: int := 1
  const WHITE: int := 2

  /** The board as rows of cell values: `g[row][col]`. */
  type Grid = seq<seq<int>>

  predicate InBounds(row: int, col: int) {
    0 <= row < BOARD_SIZE && 0 <= col < BOARD_SIZE
  }

  predicate IsPlayer(v: int) {
    v == BLACK || v == WHITE
  }

  /** BOARD_SIZE rows of BOARD_SIZE cells each. */
  predicate WellFormed(g: Grid) {
    |g| == BOARD_SIZE && forall r | 0 <= r < |g| :: |g[r]| == BOARD_SIZE
  }

  /** Every cell is empty or holds a stone. */
  predicate CellsValid(g: Grid) {
    WellFormed(g) &&
    forall r, c | 0 <= r < BOARD_SIZE && 0 <= c < BOARD_SIZE :: g[r][c] == EMPTY || IsPlayer(g[r][c])
  }

  /** The board `initBoard` creates: BOARD_SIZE by BOARD_SIZE, every cell empty. */
  function EmptyGrid(): (g: Grid)
    ensures CellsValid(g)
    ensures forall r, c | InBounds(r, c) :: g[r][c] == EMPTY
  {
    seq(BOARD_SIZE, _ => seq(BOARD_SIZE, _ => EMPTY))
  }

  /** The board with cell (row, col) set to v. */
  function Place(g: Grid, row: int, col: int, v: int): (h: Grid)
    requires WellFormed(g) && InBounds(row, col)
    ensures WellFormed(h) && h[row][col] == v
    ensures forall r, c | InBounds(r, c) && (r != row || c != col) :: h[r][c] == g[r][c]
  {
    g[row := g[row][col := v]]
  }

  /** No cell is empty. */
  predicate IsFull(g: Grid)
    requires WellFormed(g)
  {
    forall r, c | 0 <= r < BOARD_SIZE && 0 <= c < BOARD_SIZE :: g[r][c] != EMPTY
  }

  /** The other player: WHITE after BLACK, BLACK after anything else. */
  function Opponent(p: int): (q: int)
    ensures IsPlayer(q)
    ensures q == WHITE <==> p == BLACK
  {
    if p == BLACK then WHITE else BLACK
  }

  /** Number of cells of `row` equal to v. */
  function RowTally(row: seq<int>, v: int): (n: nat)
    ensures n <= |row|
  {
    if row == [] then 0 else (if row[0] == v then 1 else 0) + RowTally(row[1..], v)
  }

  /** Number of cells of `g` equal to v. */
  function Tally(g: Grid, v: int): (n: nat)
    ensures (forall r | 0 <= r < |g| :: |g[r]| == BOARD_SIZE) ==> n <= |g| * BOARD_SIZE
  {
    if g == [] then 0 else RowTally(g[0], v) + Tally(g[1..], v)
  }

  /** Number of stones on the board. */
  function Stones(g: Grid): nat {
    Tally(g, BLACK) + Tally(g, WHITE)
  }

  lemma {:induction false} RowTallyUpdate(row: seq<int>, i: int, x: int, v: int)
    requires 0 <= i < |row|
    ensures RowTally(row[i := x], v)
            == RowTally(row, v) - (if row[i] == v then 1 else 0) + (if x == v then 1 else 0)
  {
    if i == 0 {
      assert row[i := x][1..] == row[1..];
    } else {
      RowTallyUpdate(row[1..], i - 1, x, v);
      assert row[i := x][1..] == row[1..][i - 1 := x];
    }
  }

  lemma {:induction false} TallyUpdate(g: Grid, i: int, row: seq<int>, v: int)
    requires 0 <= i < |g|
    ensures Tally(g[i := row], v) == Tally(g, v) - RowTally(g[i], v) + RowTally(row, v)
  {
    if i == 0 {
      assert g[i := row][1..] == g[1..];
    } else {
      TallyUpdate(g[1..], i - 1, row, v);
      assert g[i := row][1..] == g[1..][i - 1 := row];
    }
  }

  /** Placing x on a cell moves one count from the old value's tally to x's tally. */
  lemma PlaceTally(g: Grid, row: int, col: int, x: int, v: int)
    requires WellFormed(g) && InBounds(row, col)
    ensures Tally(Place(g, row, col, x), v)
            == Tally(g, v) - (if g[row][col] == v then 1 else 0) + (if x == v then 1 else 0)
  {
    RowTallyUpdate(g[row], col, x, v);
    TallyUpdate(g, row, g[row][col := x], v);
  }

  /** Putting a stone on an empty cell adds exactly one stone to the board. */
  lemma PlaceAddsOneStone(g: Grid, row: int, col: int, p: int)
    requires WellFormed(g) && InBounds(row, col) && g[row][col] == EMPTY && IsPlayer(p)
    ensures Stones(Place(g, row, col, p)) == Stones(g) + 1
  {
    PlaceTally(g, row, col, p, BLACK);
    PlaceTally(g, row, col, p, WHITE);
  }

  lemma {:induction false} RowTallyZero(row: seq<int>, v: int)
    ensures RowTally(row, v) == 0 <==> forall i | 0 <= i < |row| :: row[i] != v
  {
    if row != [] {
      RowTallyZero(row[1..], v);
      assert forall i | 1 <= i < |row| :: row[i] == row[1..][i - 1];
    }
  }

  /** A value has tally zero exactly when no cell holds it. */
  lemma {:induction false} TallyZero(g: Grid, v: int)
    ensures Tally(g, v) == 0 <==> forall r, c | 0 <= r < |g| && 0 <= c < |g[r]| :: g[r][c] != v
  {
    if g != [] {
      RowTallyZero(g[0], v);
      TallyZero(g[1..], v);
      assert forall r | 1 <= r < |g| :: g[r] == g[1..][r - 1];
    }
  }

  lemma {:induction false} RowTallyPartition(row: seq<int>)
    requires forall i | 0 <= i < |row| :: row[i] == EMPTY || IsPlayer(row[i])
    ensures RowTally(row, EMPTY) + RowTally(row, BLACK) + RowTally(row, WHITE) == |row|
  {
    if row != [] {
      RowTallyPartition(row[1..]);
    }
  }

  lemma {:induction false} TallyPartition(g: Grid)
    requires forall r | 0 <= r < |g| :: |g[r]| == BOARD_SIZE
    requires forall r, c | 0 <= r < |g| && 0 <= c < BOARD_SIZE :: g[r][c] == EMPTY || IsPlayer(g[r][c])
    ensures Tally(g, EMPTY) + Tally(g, BLACK) + Tally(g, WHITE) == |g| * BOARD_SIZE
  {
    if g != [] {
      RowTallyPartition(g[0]);
      TallyPartition(g[1..]);
    }
  }

  /** The board is full exactly when it holds BOARD_SIZE * BOARD_SIZE stones. */
  lemma FullIffAllStones(g: Grid)
    requires CellsValid(g)
    ensures IsFull(g) <==> Stones(g) == BOARD_SIZE * BOARD_SIZE
  {
    TallyPartition(g);
    TallyZero(g, EMPTY);
  }

  /** The initial board holds no stone of either colour. */
  lemma EmptyGridHasNoStones()
    ensures Tally(EmptyGrid(), BLACK) == 0 && Tally(EmptyGrid(), WHITE) == 0
  {
    var g := EmptyGrid();
    assert forall r, c | 0 <= r < |g| && 0 <= c < |g[r]| :: g[r][c] == EMPTY;
    TallyZero(g, BLACK);
    TallyZero(g, WHITE);
  }
}
