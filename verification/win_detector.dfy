/**
 * Win detection after a move: from the cell just played, walk outward along
 * each of the four line orientations, counting the consecutive cells that hold
 * the same value. A count of five or more wins (longer lines win too).
 *
 * The walk-based count is related here to an independent description of a
 * win, "some window of five consecutive cells through the played cell, along
 * one orientation, all hold the played stone", and to a whole-board one,
 * "some five consecutive cells anywhere hold the same stone".
 */
module WinDetector {
  import opened Board

  /** A unit step: rows change by `dr`, columns by `dc`. */
  datatype Dir = Dir(dr: int, dc: int)

  /** The four orientations (horizontal, vertical, main diagonal,
      anti-diagonal), each given as its two opposite unit steps. */
  const ORIENTATIONS: seq<seq<Dir>> := [
    [Dir(0, -1), Dir(0, 1)],
    [Dir(-1, 0), Dir(1, 0)],
    [Dir(-1, -1), Dir(1, 1)],
    [Dir(-1, 1), Dir(1, -1)]
  ]

  predicate IsStep(d: Dir) {
    -1 <= d.dr <= 1 && -1 <= d.dc <= 1 && (d.dr != 0 || d.dc != 0)
  }

  /** Two opposite unit steps, the second one pointing "forward". */
  predicate IsOrientation(o: seq<Dir>) {
    |o| == 2 && IsStep(o[1]) && o[0] == Dir(-o[1].dr, -o[1].dc)
  }

  lemma OrientationsAreOrientations()
    ensures forall i | 0 <= i < |ORIENTATIONS| :: IsOrientation(ORIENTATIONS[i])
  {
  }

  /** How many lines, counting the one through x, a walk meets before it
      leaves the board when its coordinate x moves by the unit step dx
      (dx is -1 or 1). */
  function LinesLeft(x: int, dx: int): int {
    if dx > 0 then BOARD_SIZE - x else x + 1
  }

  /** How many cells, starting at (r, c), a walk along d can visit before it
      leaves the board: it stops at whichever edge it reaches first. */
  function Remaining(r: int, c: int, d: Dir): int {
    if d.dr == 0 then LinesLeft(c, d.dc)
    else if d.dc == 0 then LinesLeft(r, d.dr)
    else if LinesLeft(r, d.dr) <= LinesLeft(c, d.dc) then LinesLeft(r, d.dr)
    else LinesLeft(c, d.dc)
  }

  /** From a cell on the board, the first Remaining(r, c, d) cells along d
      are on the board and the next one is not. */
  lemma RemainingReachesEdge(r: int, c: int, d: Dir)
    requires InBounds(r, c) && IsStep(d)
    ensures Remaining(r, c, d) >= 1
    ensures forall k | 0 <= k < Remaining(r, c, d) :: InBounds(Shift(r, d.dr, k), Shift(c, d.dc, k))
    ensures !InBounds(Shift(r, d.dr, Remaining(r, c, d)), Shift(c, d.dc, Remaining(r, c, d)))
  {
  }

  /** (r, c) is on the board and holds p. */
  predicate Holds(g: Grid, p: int, r: int, c: int)
    requires WellFormed(g)
  {
    InBounds(r, c) && g[r][c] == p
  }

  /** The coordinate x moved k unit steps of sign dx (dx is -1, 0 or 1). */
  function Shift(x: int, dx: int, k: int): int {
    if dx > 0 then x + k else if dx < 0 then x - k else x
  }

  /** The cell k steps along d from (r, c) is on the board and holds p. */
  predicate HoldsAt(g: Grid, p: int, r: int, c: int, d: Dir, k: int)
    requires WellFormed(g)
  {
    Holds(g, p, Shift(r, d.dr, k), Shift(c, d.dc, k))
  }

  /** Number of consecutive cells holding p met by walking from (r, c) along d
      (the cell (r, c) included), stopping at the edge of the board or at the
      first cell that does not hold p. */
  function Walk(g: Grid, p: int, r: int, c: int, d: Dir): (n: nat)
    requires WellFormed(g) && IsStep(d)
    ensures n > 0 ==> Holds(g, p, r, c)
    decreases Remaining(r, c, d)
  {
    if Holds(g, p, r, c) then 1 + Walk(g, p, r + d.dr, c + d.dc, d) else 0
  }

  /** A walk that counts anything starts on the board, and it cannot count
      more cells than there are before the first edge it reaches. */
  lemma {:induction false} WalkStaysOnBoard(g: Grid, p: int, r: int, c: int, d: Dir)
    requires WellFormed(g) && IsStep(d)
    ensures Walk(g, p, r, c, d) > 0 ==> InBounds(r, c) && Walk(g, p, r, c, d) <= Remaining(r, c, d)
    decreases Remaining(r, c, d)
  {
    if Holds(g, p, r, c) {
      WalkStaysOnBoard(g, p, r + d.dr, c + d.dc, d);
    }
  }

  /** The walk outward from (row, col) along d, over cells equal to the
      value of (row, col) itself: never longer than BOARD_SIZE - 1. */
  function WalkFrom(g: Grid, row: int, col: int, d: Dir): (n: nat)
    requires WellFormed(g) && InBounds(row, col) && IsStep(d)
    ensures n <= BOARD_SIZE - 1
  {
    WalkStaysOnBoard(g, g[row][col], row + d.dr, col + d.dc, d);
    Walk(g, g[row][col], row + d.dr, col + d.dc, d)
  }

  /** The count of one orientation: the cell itself and both outward walks. */
  function LineCount(g: Grid, row: int, col: int, o: seq<Dir>): (n: nat)
    requires WellFormed(g) && InBounds(row, col) && |o| == 2 && IsStep(o[0]) && IsStep(o[1])
    ensures 1 <= n <= 2 * BOARD_SIZE - 1
  {
    1 + WalkFrom(g, row, col, o[0]) + WalkFrom(g, row, col, o[1])
  }

  /** A walk covers exactly a run: every cell it counts holds p, and the cell
      just after the run is off the board or does not hold p. */
  lemma {:induction false} WalkIsRun(g: Grid, p: int, r: int, c: int, d: Dir)
    requires WellFormed(g) && IsStep(d)
    ensures forall k | 0 <= k < Walk(g, p, r, c, d) :: HoldsAt(g, p, r, c, d, k)
    ensures !HoldsAt(g, p, r, c, d, Walk(g, p, r, c, d))
    decreases Remaining(r, c, d)
  {
    var n := Walk(g, p, r, c, d);
    if Holds(g, p, r, c) {
      WalkIsRun(g, p, r + d.dr, c + d.dc, d);
      forall k | 1 <= k < n
        ensures HoldsAt(g, p, r, c, d, k)
      {
        assert HoldsAt(g, p, r + d.dr, c + d.dc, d, k - 1);
        assert Shift(r + d.dr, d.dr, k - 1) == Shift(r, d.dr, k);
        assert Shift(c + d.dc, d.dc, k - 1) == Shift(c, d.dc, k);
      }
      assert HoldsAt(g, p, r, c, d, 0);
      assert !HoldsAt(g, p, r + d.dr, c + d.dc, d, n - 1);
      assert Shift(r + d.dr, d.dr, n - 1) == Shift(r, d.dr, n);
      assert Shift(c + d.dc, d.dc, n - 1) == Shift(c, d.dc, n);
    }
  }

  /** The five cells from (r, c) stepping along d all hold p. */
  predicate FiveFrom(g: Grid, p: int, r: int, c: int, d: Dir)
    requires WellFormed(g)
  {
    forall k | 0 <= k < 5 :: HoldsAt(g, p, r, c, d, k)
  }

  /** The window of five cells along d that has (r, c) at position s is all p. */
  predicate WindowAt(g: Grid, p: int, r: int, c: int, d: Dir, s: int)
    requires WellFormed(g)
  {
    FiveFrom(g, p, Shift(r, d.dr, -s), Shift(c, d.dc, -s), d)
  }

  /** Some five consecutive cells along d that include (r, c) all hold p. */
  predicate FiveThrough(g: Grid, p: int, r: int, c: int, d: Dir)
    requires WellFormed(g)
  {
    exists s | 0 <= s < 5 :: WindowAt(g, p, r, c, d, s)
  }

  /** Reference meaning of a win at (row, col): along some orientation there
      are five or more consecutive cells through (row, col) holding its value. */
  predicate Wins(g: Grid, row: int, col: int)
    requires WellFormed(g) && InBounds(row, col)
  {
    exists i | 0 <= i < |ORIENTATIONS| :: FiveThrough(g, g[row][col], row, col, ORIENTATIONS[i][1])
  }

  /** Somewhere on the board five consecutive cells along one orientation hold p. */
  ghost predicate HasFive(g: Grid, p: int)
    requires WellFormed(g)
  {
    exists r, c, i | 0 <= i < |ORIENTATIONS| :: FiveFrom(g, p, r, c, ORIENTATIONS[i][1])
  }

  /** A run of m cells holding p from (r, c) along d is walked in full. */
  lemma {:induction false} WalkCoversRun(g: Grid, p: int, r: int, c: int, d: Dir, m: nat)
    requires WellFormed(g) && IsStep(d)
    requires forall k | 0 <= k < m :: HoldsAt(g, p, r, c, d, k)
    ensures Walk(g, p, r, c, d) >= m
    decreases m
  {
    if m > 0 {
      assert HoldsAt(g, p, r, c, d, 0);
      var r1, c1 := r + d.dr, c + d.dc;
      forall k | 0 <= k < m - 1
        ensures HoldsAt(g, p, r1, c1, d, k)
      {
        assert HoldsAt(g, p, r, c, d, k + 1);
        assert Shift(r1, d.dr, k) == Shift(r, d.dr, k + 1);
        assert Shift(c1, d.dc, k) == Shift(c, d.dc, k + 1);
      }
      WalkCoversRun(g, p, r1, c1, d, m - 1);
    }
  }

  /** The forward walk of an orientation, restated as the cells j steps
      along the forward step, for 1 <= j <= the walk. */
  lemma RunForward(g: Grid, row: int, col: int, d: Dir)
    requires WellFormed(g) && InBounds(row, col) && IsStep(d)
    ensures forall j | 1 <= j <= WalkFrom(g, row, col, d) :: HoldsAt(g, g[row][col], row, col, d, j)
  {
    var p := g[row][col];
    var rf, cf := row + d.dr, col + d.dc;
    WalkIsRun(g, p, rf, cf, d);
    forall j | 1 <= j <= WalkFrom(g, row, col, d)
      ensures HoldsAt(g, p, row, col, d, j)
    {
      assert HoldsAt(g, p, rf, cf, d, j - 1);
      assert Shift(rf, d.dr, j - 1) == Shift(row, d.dr, j);
      assert Shift(cf, d.dc, j - 1) == Shift(col, d.dc, j);
    }
  }

  /** The backward walk of an orientation, restated as the cells j steps
      along the forward step, for -(the walk) <= j <= -1. */
  lemma RunBackward(g: Grid, row: int, col: int, o: seq<Dir>)
    requires WellFormed(g) && InBounds(row, col) && IsOrientation(o)
    ensures forall j | -(WalkFrom(g, row, col, o[0]) as int) <= j <= -1
              :: HoldsAt(g, g[row][col], row, col, o[1], j)
  {
    var p := g[row][col];
    var d, e := o[1], o[0];
    var rb, cb := row + e.dr, col + e.dc;
    WalkIsRun(g, p, rb, cb, e);
    forall j | -(WalkFrom(g, row, col, e) as int) <= j <= -1
      ensures HoldsAt(g, p, row, col, d, j)
    {
      assert HoldsAt(g, p, rb, cb, e, -j - 1);
      assert Shift(rb, e.dr, -j - 1) == Shift(row, d.dr, j);
      assert Shift(cb, e.dc, -j - 1) == Shift(col, d.dc, j);
    }
  }

  /** A count of five or more along an orientation yields a window of five
      equal cells through the cell. */
  lemma CountFiveGivesWindow(g: Grid, row: int, col: int, o: seq<Dir>)
    requires WellFormed(g) && InBounds(row, col) && IsOrientation(o)
    requires LineCount(g, row, col, o) >= 5
    ensures FiveThrough(g, g[row][col], row, col, o[1])
  {
    var p, d := g[row][col], o[1];
    var a: int := WalkFrom(g, row, col, o[0]);
    RunBackward(g, row, col, o);
    RunForward(g, row, col, d);
    assert HoldsAt(g, p, row, col, d, 0);
    var s := if a >= 4 then 4 else a;
    var r0, c0 := Shift(row, d.dr, -s), Shift(col, d.dc, -s);
    forall k | 0 <= k < 5
      ensures HoldsAt(g, p, r0, c0, d, k)
    {
      assert HoldsAt(g, p, row, col, d, k - s);
      assert Shift(r0, d.dr, k) == Shift(row, d.dr, k - s);
      assert Shift(c0, d.dc, k) == Shift(col, d.dc, k - s);
    }
    assert WindowAt(g, p, row, col, d, s);
  }

  /** The cells of a window before position s are walked backward from the cell. */
  lemma WindowCoversBackward(g: Grid, row: int, col: int, o: seq<Dir>, s: int)
    requires WellFormed(g) && InBounds(row, col) && IsOrientation(o) && 0 <= s < 5
    requires WindowAt(g, g[row][col], row, col, o[1], s)
    ensures WalkFrom(g, row, col, o[0]) >= s
  {
    var p, d, e := g[row][col], o[1], o[0];
    var r0, c0 := Shift(row, d.dr, -s), Shift(col, d.dc, -s);
    var rb, cb := row + e.dr, col + e.dc;
    forall k | 0 <= k < s
      ensures HoldsAt(g, p, rb, cb, e, k)
    {
      assert HoldsAt(g, p, r0, c0, d, s - k - 1);
      assert Shift(r0, d.dr, s - k - 1) == Shift(rb, e.dr, k);
      assert Shift(c0, d.dc, s - k - 1) == Shift(cb, e.dc, k);
    }
    WalkCoversRun(g, p, rb, cb, e, s);
  }

  /** The cells of a window after position s are walked forward from the cell. */
  lemma WindowCoversForward(g: Grid, row: int, col: int, d: Dir, s: int)
    requires WellFormed(g) && InBounds(row, col) && IsStep(d) && 0 <= s < 5
    requires WindowAt(g, g[row][col], row, col, d, s)
    ensures WalkFrom(g, row, col, d) >= 4 - s
  {
    var p := g[row][col];
    var r0, c0 := Shift(row, d.dr, -s), Shift(col, d.dc, -s);
    var rf, cf := row + d.dr, col + d.dc;
    forall k | 0 <= k < 4 - s
      ensures HoldsAt(g, p, rf, cf, d, k)
    {
      assert HoldsAt(g, p, r0, c0, d, s + k + 1);
      assert Shift(r0, d.dr, s + k + 1) == Shift(rf, d.dr, k);
      assert Shift(c0, d.dc, s + k + 1) == Shift(cf, d.dc, k);
    }
    WalkCoversRun(g, p, rf, cf, d, 4 - s);
  }

  /** A window of five equal cells through the cell makes the count along
      that orientation reach five. */
  lemma WindowGivesCountFive(g: Grid, row: int, col: int, o: seq<Dir>)
    requires WellFormed(g) && InBounds(row, col) && IsOrientation(o)
    requires FiveThrough(g, g[row][col], row, col, o[1])
    ensures LineCount(g, row, col, o) >= 5
  {
    var s :| 0 <= s < 5 && WindowAt(g, g[row][col], row, col, o[1], s);
    WindowCoversBackward(g, row, col, o, s);
    WindowCoversForward(g, row, col, o[1], s);
  }

  /** The walk count along an orientation reaches five exactly when a window
      of five equal cells passes through the cell. */
  lemma LineCountReachesFive(g: Grid, row: int, col: int, o: seq<Dir>)
    requires WellFormed(g) && InBounds(row, col) && IsOrientation(o)
    ensures LineCount(g, row, col, o) >= 5 <==> FiveThrough(g, g[row][col], row, col, o[1])
  {
    if LineCount(g, row, col, o) >= 5 {
      CountFiveGivesWindow(g, row, col, o);
    }
    if FiveThrough(g, g[row][col], row, col, o[1]) {
      WindowGivesCountFive(g, row, col, o);
    }
  }

  /** A win at (row, col) exhibits five in a row of that cell's value. */
  lemma WinsHasFive(g: Grid, row: int, col: int)
    requires WellFormed(g) && InBounds(row, col) && Wins(g, row, col)
    ensures HasFive(g, g[row][col])
  {
    var i :| 0 <= i < |ORIENTATIONS| && FiveThrough(g, g[row][col], row, col, ORIENTATIONS[i][1]);
    var d := ORIENTATIONS[i][1];
    var s :| 0 <= s < 5 && WindowAt(g, g[row][col], row, col, d, s);
    assert FiveFrom(g, g[row][col], Shift(row, d.dr, -s), Shift(col, d.dc, -s), ORIENTATIONS[i][1]);
  }

  /** Checking only the cell just played is enough: a five in a row that
      appears when a stone p is put on (row, col) of a board with no five of
      q must be of colour p and pass through (row, col). */
  lemma NewFivePassesThroughMove(g: Grid, row: int, col: int, p: int, q: int)
    requires WellFormed(g) && InBounds(row, col) && !HasFive(g, q)
    ensures HasFive(Place(g, row, col, p), q) ==> q == p && Wins(Place(g, row, col, p), row, col)
  {
    var h := Place(g, row, col, p);
    if HasFive(h, q) {
      var r, c, i :| 0 <= i < |ORIENTATIONS| && FiveFrom(h, q, r, c, ORIENTATIONS[i][1]);
      var d := ORIENTATIONS[i][1];
      if s :| 0 <= s < 5 && Shift(r, d.dr, s) == row && Shift(c, d.dc, s) == col {
        assert HoldsAt(h, q, r, c, d, s);
        assert r == Shift(row, d.dr, -s) && c == Shift(col, d.dc, -s);
        assert WindowAt(h, p, row, col, d, s);
      } else {
        forall k | 0 <= k < 5
          ensures HoldsAt(g, q, r, c, d, k)
        {
          assert HoldsAt(h, q, r, c, d, k);
        }
        assert FiveFrom(g, q, r, c, ORIENTATIONS[i][1]);
        assert false;
      }
    }
  }

  /** On a board without stones of colour p there is no five of p. */
  lemma NoStonesNoFive(g: Grid, p: int)
    requires WellFormed(g)
    requires forall r, c | InBounds(r, c) :: g[r][c] != p
    ensures !HasFive(g, p)
  {
    forall r, c, i | 0 <= i < |ORIENTATIONS|
      ensures !FiveFrom(g, p, r, c, ORIENTATIONS[i][1])
    {
      assert !HoldsAt(g, p, r, c, ORIENTATIONS[i][1], 0);
    }
  }
}
