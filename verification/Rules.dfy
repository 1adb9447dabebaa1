/**
 * The rules of Connect Four on a board value: cells, gravity, the landing row
 * of a column and the four-in-a-row test.  The live board and the automated
 * player's copy are arrays (module Boards); `Rows` turns either into a `Grid`.
 */
module Rules {
  import opened Wrappers

  /** Number of columns and rows of the board. */
  const WIDTH := 7
  const HEIGHT := 6

  /** A player number; the source only ever uses 1 and 2. */
  type Player = p: int | p == 1 || p == 2 witness 1

  /** A cell is empty (the source's `[]`) or holds a player's number. */
  datatype Cell = Empty | P(who: Player)

  /** `board[y][x]`: row y counted from the top, column x from the left. */
  type Grid = seq<seq<Cell>>

  function Other(p: Player): (q: Player)
    ensures q != p
  {
    if p == 1 then 2 else 1
  }

  predicate InBounds(y: int, x: int) {
    0 <= y < HEIGHT && 0 <= x < WIDTH
  }

  predicate WellFormed(g: Grid) {
    |g| == HEIGHT && forall y :: 0 <= y < HEIGHT ==> |g[y]| == WIDTH
  }

  /** The grid with cell (y, x) replaced by v. */
  function Set(g: Grid, y: int, x: int, v: Cell): (h: Grid)
    requires WellFormed(g) && InBounds(y, x)
    ensures WellFormed(h) && h[y][x] == v
    ensures forall y', x' :: InBounds(y', x') && (y' != y || x' != x) ==> h[y'][x'] == g[y'][x']
  {
    g[y := g[y][x := v]]
  }

  /** Two well-formed grids with the same cells are the same grid. */
  lemma GridExt(g: Grid, h: Grid)
    requires WellFormed(g) && WellFormed(h)
    requires forall y, x :: InBounds(y, x) ==> g[y][x] == h[y][x]
    ensures g == h
  {
    forall y | 0 <= y < HEIGHT
      ensures g[y] == h[y]
    {
      assert forall x :: 0 <= x < WIDTH ==> g[y][x] == h[y][x] by {
        forall x | 0 <= x < WIDTH ensures g[y][x] == h[y][x] {
          assert InBounds(y, x);
        }
      }
    }
  }

  /** Every cell is filled: the source's tie test (`board.every(row => row.every(...))`). */
  predicate Full(g: Grid)
    requires WellFormed(g)
  {
    forall y, x :: 0 <= y < HEIGHT && 0 <= x < WIDTH ==> g[y][x] != Empty
  }

  /** The tie test holds exactly when no column has room for another piece. */
  lemma FullMeansNoRoom(g: Grid)
    requires WellFormed(g)
    ensures Full(g) <==> forall x :: 0 <= x < WIDTH ==> FindSpotForCol(g, x).None?
  {
    if forall x :: 0 <= x < WIDTH ==> FindSpotForCol(g, x).None? {
      forall y, x | 0 <= y < HEIGHT && 0 <= x < WIDTH
        ensures g[y][x] != Empty
      {
        assert FindSpotForCol(g, x).None?;
      }
    }
  }

  /**
   * Pieces settle by gravity: in every column the filled cells form one run
   * that reaches down to the bottom row.
   */
  ghost predicate Gravity(g: Grid)
    requires WellFormed(g)
  {
    forall y, y', x :: 0 <= y <= y' < HEIGHT && 0 <= x < WIDTH && g[y][x] != Empty ==> g[y'][x] != Empty
  }

  /**
   * `findSpotForCol(x)`: the lowest empty row of column x, scanning from the
   * bottom row upwards, or None when the column is full.
   */
  function FindSpotForCol(g: Grid, x: int): (r: Option<int>)
    requires WellFormed(g) && 0 <= x < WIDTH
    ensures r.Some? ==> 0 <= r.value < HEIGHT && g[r.value][x] == Empty
    ensures r.Some? ==> forall y :: r.value < y < HEIGHT ==> g[y][x] != Empty
    ensures r.None? <==> forall y :: 0 <= y < HEIGHT ==> g[y][x] != Empty
  {
    SpotFrom(g, x, HEIGHT - 1)
  }

  /** One step of the scan: rows y, y - 1, ..., 0 of column x. */
  function SpotFrom(g: Grid, x: int, y: int): (r: Option<int>)
    requires WellFormed(g) && 0 <= x < WIDTH && -1 <= y < HEIGHT
    ensures r.Some? ==> 0 <= r.value <= y && g[r.value][x] == Empty
    ensures r.Some? ==> forall y' :: r.value < y' <= y ==> g[y'][x] != Empty
    ensures r.None? <==> forall y' :: 0 <= y' <= y ==> g[y'][x] != Empty
    decreases y + 1
  {
    if y < 0 then None
    else if g[y][x] == Empty then Some(y)
    else SpotFrom(g, x, y - 1)
  }

  /** On a board obeying gravity, a column is full exactly when its top cell is filled. */
  lemma FullColumnIsTopFilled(g: Grid, x: int)
    requires WellFormed(g) && Gravity(g) && 0 <= x < WIDTH
    ensures FindSpotForCol(g, x).None? <==> g[0][x] != Empty
  {
    if g[0][x] != Empty {
      assert forall y :: 0 <= y < HEIGHT ==> g[y][x] != Empty;
    }
  }

  /**
   * Dropping a piece on the landing row of a column keeps gravity: the column's
   * run of filled cells grows by one at its top.
   */
  lemma DropKeepsGravity(g: Grid, x: int, v: Cell)
    requires WellFormed(g) && Gravity(g) && 0 <= x < WIDTH
    requires FindSpotForCol(g, x).Some? && v != Empty
    ensures Gravity(Set(g, FindSpotForCol(g, x).value, x, v))
  {
    var s := FindSpotForCol(g, x).value;
    var h := Set(g, s, x, v);
    forall y, y', x' | 0 <= y <= y' < HEIGHT && 0 <= x' < WIDTH && h[y][x'] != Empty
      ensures h[y'][x'] != Empty
    {
      if x' == x && y != s {
        // an old piece of column x: it lies below the landing row
        assert g[y][x] != Empty;
      }
    }
  }

  // ----- The four-in-a-row test (`checkForWin`) -----

  /** Cell (y, x) is on the board and holds player p: one test of `_win`. */
  predicate Holds(g: Grid, p: Player, y: int, x: int)
    requires WellFormed(g)
  {
    InBounds(y, x) && g[y][x] == P(p)
  }

  /**
   * `_win` on the four cells from (y, x) along (dy, dx): all of them are on
   * the board and hold player p.
   */
  predicate Four(g: Grid, p: Player, y: int, x: int, dy: int, dx: int)
    requires WellFormed(g)
  {
    Holds(g, p, y, x) && Holds(g, p, y + dy, x + dx) &&
    Holds(g, p, y + 2 * dy, x + 2 * dx) && Holds(g, p, y + 3 * dy, x + 3 * dx)
  }

  /** `horiz`, `vert`, `diagDR` and `diagDL` from (y, x), tried in that order. */
  predicate WinStartsAt(g: Grid, p: Player, y: int, x: int)
    requires WellFormed(g)
  {
    Four(g, p, y, x, 0, 1) || Four(g, p, y, x, 1, 0) || Four(g, p, y, x, 1, 1) || Four(g, p, y, x, 1, -1)
  }

  /** The inner loop of the scan: columns x, x + 1, ... of row y. */
  predicate WinInRow(g: Grid, p: Player, y: int, x: int)
    requires WellFormed(g) && 0 <= y < HEIGHT && 0 <= x <= WIDTH
    ensures WinInRow(g, p, y, x) ==> exists x' :: x <= x' < WIDTH && WinStartsAt(g, p, y, x')
    ensures (exists x' :: x <= x' < WIDTH && WinStartsAt(g, p, y, x')) ==> WinInRow(g, p, y, x)
    decreases WIDTH - x
  {
    x < WIDTH && (WinStartsAt(g, p, y, x) || WinInRow(g, p, y, x + 1))
  }

  /** The outer loop of the scan: rows y, y + 1, ... */
  predicate WinFromRow(g: Grid, p: Player, y: int)
    requires WellFormed(g) && 0 <= y <= HEIGHT
    ensures WinFromRow(g, p, y) ==> exists y', x' :: y <= y' < HEIGHT && 0 <= x' < WIDTH && WinStartsAt(g, p, y', x')
    ensures (exists y', x' :: y <= y' < HEIGHT && 0 <= x' < WIDTH && WinStartsAt(g, p, y', x')) ==> WinFromRow(g, p, y)
    decreases HEIGHT - y
  {
    y < HEIGHT && (WinInRow(g, p, y, 0) || WinFromRow(g, p, y + 1))
  }

  /**
   * `checkForWin(gameBoard, player)`: scans the cells top to bottom, left to
   * right, and reports whether one of them starts a winning line.  It reads
   * only its arguments.
   */
  predicate CheckForWin(g: Grid, p: Player)
    requires WellFormed(g)
  {
    WinFromRow(g, p, 0)
  }

  // ----- An independent statement of "four in a row" -----

  /** All eight compass directions. */
  const COMPASS: seq<(int, int)> := [(0, 1), (1, 0), (1, 1), (1, -1), (0, -1), (-1, 0), (-1, -1), (-1, 1)]

  /** Somewhere on the board player p holds four cells in a straight line, in any direction. */
  ghost predicate LineOfFour(g: Grid, p: Player)
    requires WellFormed(g)
  {
    exists y, x, dy, dx :: (dy, dx) in COMPASS && Four(g, p, y, x, dy, dx)
  }

  /** A line of four read from its far end is the same four cells. */
  lemma FourReversed(g: Grid, p: Player, y: int, x: int, dy: int, dx: int)
    requires WellFormed(g) && Four(g, p, y, x, dy, dx)
    ensures Four(g, p, y + 3 * dy, x + 3 * dx, -dy, -dx)
  {
  }

  /** A cell the scan visits that starts a win makes the scan succeed. */
  lemma ScanVisits(g: Grid, p: Player, y: int, x: int)
    requires WellFormed(g) && InBounds(y, x) && WinStartsAt(g, p, y, x)
    ensures CheckForWin(g, p)
  {
  }

  /** More pieces of p never undo a win of p. */
  lemma WinMonotone(g: Grid, h: Grid, p: Player)
    requires WellFormed(g) && WellFormed(h)
    requires forall y, x :: InBounds(y, x) && g[y][x] == P(p) ==> h[y][x] == P(p)
    ensures CheckForWin(g, p) ==> CheckForWin(h, p)
  {
    if CheckForWin(g, p) {
      var y, x :| 0 <= y < HEIGHT && 0 <= x < WIDTH && WinStartsAt(g, p, y, x);
      ScanVisits(h, p, y, x);
    }
  }

  /** A winning line the scan finds is a line of four in one of the first four directions. */
  lemma ScanWinIsLine(g: Grid, p: Player)
    requires WellFormed(g) && CheckForWin(g, p)
    ensures LineOfFour(g, p)
  {
    var y, x :| 0 <= y < HEIGHT && 0 <= x < WIDTH && WinStartsAt(g, p, y, x);
    if Four(g, p, y, x, 0, 1) {
      assert COMPASS[0] == (0, 1);
    } else if Four(g, p, y, x, 1, 0) {
      assert COMPASS[1] == (1, 0);
    } else if Four(g, p, y, x, 1, 1) {
      assert COMPASS[2] == (1, 1);
    } else {
      assert COMPASS[3] == (1, -1);
    }
  }

  /**
   * A line of four in any direction is found by the scan: from its first
   * cell when it runs in one of the four scanned directions, and otherwise
   * from its far end.
   */
  lemma LineIsScanned(g: Grid, p: Player, y: int, x: int, dy: int, dx: int)
    requires WellFormed(g) && (dy, dx) in COMPASS && Four(g, p, y, x, dy, dx)
    ensures CheckForWin(g, p)
  {
    if (dy, dx) in {(0, 1), (1, 0), (1, 1), (1, -1)} {
      ScanVisits(g, p, y, x);
    } else {
      FourReversed(g, p, y, x, dy, dx);
      ScanVisits(g, p, y + 3 * dy, x + 3 * dx);
    }
  }

  /**
   * The scan finds a win exactly when the board holds a line of four: looking
   * from every cell in four directions misses no line, because a line in one
   * of the other four directions is the same line read from its other end.
   */
  lemma CheckForWinMeansLineOfFour(g: Grid, p: Player)
    requires WellFormed(g)
    ensures CheckForWin(g, p) <==> LineOfFour(g, p)
  {
    if CheckForWin(g, p) {
      ScanWinIsLine(g, p);
    }
    if LineOfFour(g, p) {
      var y, x, dy, dx :| (dy, dx) in COMPASS && Four(g, p, y, x, dy, dx);
      LineIsScanned(g, p, y, x, dy, dx);
    }
  }
}
