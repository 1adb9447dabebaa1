/**
 * The automated player (`aiPlayer`): a fixed cascade of six tiers over a
 * private copy of the board.  Player 2 is the automated player and player 1
 * its opponent.  Every tier scans the copy row by row from the top, and left to
 * right within a row; the first cell that qualifies decides the column.
 *
 * The helpers put probe pieces on the copy and take some of them off again;
 * `_allowsAccidentalWin` removes its probe only when the probe wins, so later
 * checks and tiers see the probes it leaves behind.  The live board is never
 * written: `AiPlayer` has no `modifies` clause.
 */
module Policy {
  import opened Wrappers
  import opened Rules
  import opened Boards

  const AI: Player := 2
  const OPPONENT: Player := 1

  /** The column tier 4 prefers: the literal 3 of the source. */
  const CENTRE := 3

  // ----- Cells the tiers consider -----

  /**
   * `_isPlayable`: the cell is on the bottom row or rests on a filled cell.  It
   * looks at one cell only, but on a board obeying gravity that means the whole
   * column below is filled.
   */
  predicate Playable(g: Grid, y: int, x: int)
    requires WellFormed(g) && InBounds(y, x)
    ensures Gravity(g) ==> (Playable(g, y, x) <==> forall y' :: y < y' < HEIGHT ==> g[y'][x] != Empty)
  {
    y == HEIGHT - 1 || g[y + 1][x] != Empty
  }

  /**
   * A playable cell that `_isFilled` does not reject.  On a board obeying
   * gravity these are exactly the landing rows that `findSpotForCol` gives a
   * human move.
   */
  predicate Open(g: Grid, y: int, x: int)
    requires WellFormed(g) && InBounds(y, x)
    ensures Gravity(g) ==> (Open(g, y, x) <==> FindSpotForCol(g, x) == Some(y))
  {
    Playable(g, y, x) && g[y][x] == Empty
  }

  /**
   * Tier 4's downward scan of column x from row y: the first row that
   * `_isPlayable` accepts.  The bottom row always is, so there is one.
   */
  function FirstPlayableFrom(g: Grid, x: int, y: int): (r: int)
    requires WellFormed(g) && 0 <= x < WIDTH && 0 <= y < HEIGHT
    ensures y <= r < HEIGHT && Playable(g, r, x)
    ensures forall y' :: y <= y' < r ==> !Playable(g, y', x)
    decreases HEIGHT - y
  {
    if Playable(g, y, x) then y else FirstPlayableFrom(g, x, y + 1)
  }

  /** A board with an empty cell has a cell to play. */
  lemma NotFullHasOpen(g: Grid)
    requires WellFormed(g) && !Full(g)
    ensures exists y, x :: InBounds(y, x) && Open(g, y, x)
  {
    var y, x :| 0 <= y < HEIGHT && 0 <= x < WIDTH && g[y][x] == Empty;
    var s := FindSpotForCol(g, x).value;
    assert Open(g, s, x);
  }

  /** Row-major order: (y', x') is scanned before (y, x). */
  predicate Before(y': int, x': int, y: int, x: int) {
    y' < y || (y' == y && x' < x)
  }

  /** Player p wins at once by dropping a piece on cell (y, x). */
  ghost predicate WinningDrop(g: Grid, p: Player, y: int, x: int)
    requires WellFormed(g)
  {
    InBounds(y, x) && Open(g, y, x) && CheckForWin(Set(g, y, x, P(p)), p)
  }

  /** (y, x) is the first winning drop for p in row-major order. */
  ghost predicate FirstWinningDrop(g: Grid, p: Player, y: int, x: int)
    requires WellFormed(g)
  {
    WinningDrop(g, p, y, x) && forall y', x' :: Before(y', x', y, x) ==> !WinningDrop(g, p, y', x')
  }

  /** No cell before (y, x) in row-major order is one to play. */
  ghost predicate NoOpenBefore(g: Grid, y: int, x: int)
    requires WellFormed(g)
  {
    forall y', x' :: InBounds(y', x') && Before(y', x', y, x) ==> !Open(g, y', x')
  }

  /** (y, x) is the first cell to play in row-major order. */
  ghost predicate FirstOpen(g: Grid, y: int, x: int)
    requires WellFormed(g)
  {
    InBounds(y, x) && Open(g, y, x) && NoOpenBefore(g, y, x)
  }

  /** There is at most one first cell to play. */
  lemma FirstOpenUnique(g: Grid, y: int, x: int, y': int, x': int)
    requires WellFormed(g) && FirstOpen(g, y, x) && FirstOpen(g, y', x')
    ensures y == y' && x == x'
  {
  }

  /** The scan for a cell to play moves past (y, x) once it is not one. */
  lemma NoOpenNext(g: Grid, y: int, x: int)
    requires WellFormed(g) && InBounds(y, x)
    requires NoOpenBefore(g, y, x) && !Open(g, y, x)
    ensures NoOpenBefore(g, y, x + 1)
  {
  }

  /** A row with no cell to play hands the scan on to the next row. */
  lemma NoOpenRow(g: Grid, y: int)
    requires WellFormed(g) && 0 <= y < HEIGHT && NoOpenBefore(g, y, WIDTH)
    ensures NoOpenBefore(g, y + 1, 0)
  {
  }

  // ----- The copy and the live board -----

  /**
   * h is a working copy of board g: it keeps every piece of g, and every cell
   * of g that could be played is still playable and empty in h.  Probes only
   * ever land above an empty cell, so they never break this.
   */
  ghost predicate Shadow(g: Grid, h: Grid)
    requires WellFormed(g) && WellFormed(h)
  {
    (forall y, x :: InBounds(y, x) && g[y][x] != Empty ==> h[y][x] == g[y][x]) &&
    (forall y, x :: InBounds(y, x) && Open(g, y, x) ==> Open(h, y, x))
  }

  /** Writing the cell above an empty cell of the copy keeps it a working copy. */
  lemma ShadowAfterProbe(g: Grid, h: Grid, y: int, x: int, v: Cell)
    requires WellFormed(g) && WellFormed(h) && Gravity(g) && Shadow(g, h)
    requires InBounds(y, x) && 0 < y && h[y][x] == Empty
    ensures Shadow(g, Set(h, y - 1, x, v))
  {
    assert g[y][x] == Empty;
    assert g[y - 1][x] == Empty;
  }

  /** An empty cell of the copy is an empty cell of the board, so its column has room. */
  lemma RoomFromShadow(g: Grid, h: Grid, y: int, x: int)
    requires WellFormed(g) && WellFormed(h) && Shadow(g, h)
    requires InBounds(y, x) && h[y][x] == Empty
    ensures FindSpotForCol(g, x).Some?
  {
    assert g[y][x] == Empty;
  }

  // ----- Helpers over the copy -----

  /**
   * `_checkForWinOrBlock`: put p's piece on (y, x); keep it when it wins,
   * otherwise clear the cell again.
   */
  method CheckForWinOrBlock(c: array2<Cell>, y: int, x: int, p: Player) returns (wins: bool)
    requires c.Length0 == HEIGHT && c.Length1 == WIDTH && InBounds(y, x)
    modifies c
    ensures wins == CheckForWin(Set(old(Rows(c)), y, x, P(p)), p)
    ensures Rows(c) == Set(old(Rows(c)), y, x, if wins then P(p) else Empty)
  {
    ghost var h := Rows(c);
    Put(c, y, x, P(p));
    wins := CheckForWin(Rows(c), p);
    if !wins {
      Put(c, y, x, Empty);
      GridExt(Rows(c), Set(h, y, x, Empty));
    }
  }

  /**
   * `_allowsAccidentalWin`: would p win by playing on top of (y, x)?  The
   * probe on (y - 1, x) is cleared when it wins and left in place when it
   * does not; on the top row nothing is probed.
   */
  method AllowsAccidentalWin(c: array2<Cell>, y: int, x: int, p: Player) returns (allows: bool)
    requires c.Length0 == HEIGHT && c.Length1 == WIDTH && InBounds(y, x)
    modifies c
    ensures allows <==> y > 0 && CheckForWin(Set(old(Rows(c)), y - 1, x, P(p)), p)
    ensures y == 0 ==> Rows(c) == old(Rows(c))
    ensures y > 0 ==> Rows(c) == Set(old(Rows(c)), y - 1, x, if allows then Empty else P(p))
  {
    if y == 0 {
      return false;
    }
    ghost var h := Rows(c);
    Put(c, y - 1, x, P(p));
    if CheckForWin(Rows(c), p) {
      Put(c, y - 1, x, Empty);
      GridExt(Rows(c), Set(h, y - 1, x, Empty));
      return true;
    }
    return false;
  }

  /**
   * `_checkforTrap`: two of p's pieces in row y that could grow into an open
   * three.  Tried in order: the pair on x + 1, x + 2 with x - 1, x, x + 3 empty
   * (play x); the pair on x + 1, x + 2 with x, x + 3, x + 4 empty (play x); the
   * pieces on x + 1, x + 3 with x, x + 2, x + 4 empty (play x + 2).  The second
   * and third patterns need x + 4 on the board, the first needs x - 1 and x + 3.
   */
  function TrapColumn(g: Grid, y: int, x: int, p: Player): (r: Option<int>)
    requires WellFormed(g) && InBounds(y, x)
    ensures r.Some? ==> (r.value == x || r.value == x + 2) && r.value + 1 < WIDTH
    ensures r.Some? ==> g[y][r.value] == Empty && g[y][r.value + 1] == P(p)
  {
    if 1 <= x && x + 3 < WIDTH && g[y][x + 1] == P(p) && g[y][x + 2] == P(p) &&
       g[y][x - 1] == Empty && g[y][x] == Empty && g[y][x + 3] == Empty
    then Some(x)
    else if x + 4 < WIDTH then
      if g[y][x + 1] == P(p) && g[y][x + 2] == P(p) then
        if g[y][x] == Empty && g[y][x + 3] == Empty && g[y][x + 4] == Empty then Some(x) else None
      else if g[y][x + 1] == P(p) && g[y][x + 3] == P(p) then
        if g[y][x] == Empty && g[y][x + 2] == Empty && g[y][x + 4] == Empty then Some(x + 2) else None
      else None
    else None
  }

  /** `_checkforTrap` reads row y only. */
  lemma TrapColumnReadsRow(g: Grid, h: Grid, y: int, x: int, p: Player)
    requires WellFormed(g) && WellFormed(h) && InBounds(y, x)
    requires forall x' :: 0 <= x' < WIDTH ==> g[y][x'] == h[y][x']
    ensures TrapColumn(g, y, x, p) == TrapColumn(h, y, x, p)
  {
  }

  /**
   * Five consecutive cells of row y from column lo: columns i and j hold p's
   * pieces and the other three are empty.
   */
  ghost predicate TwoInFive(g: Grid, p: Player, y: int, lo: int, i: int, j: int)
    requires WellFormed(g) && 0 <= y < HEIGHT
  {
    0 <= lo && lo + 5 <= WIDTH && lo <= i < j < lo + 5 && g[y][i] == P(p) && g[y][j] == P(p) &&
    forall k :: lo <= k < lo + 5 && k != i && k != j ==> g[y][k] == Empty
  }

  /**
   * What a trap is: `_checkforTrap` answers only when the five cells of row y
   * starting at x - 1 or at x hold two of p's pieces and three empty cells.
   */
  lemma TrapIsTwoInFive(g: Grid, y: int, x: int, p: Player)
    requires WellFormed(g) && InBounds(y, x) && TrapColumn(g, y, x, p).Some?
    ensures exists lo, i, j :: (lo == x - 1 || lo == x) && TwoInFive(g, p, y, lo, i, j)
  {
    var row := g[y];
    if 1 <= x && x + 3 < WIDTH && row[x + 1] == P(p) && row[x + 2] == P(p) &&
       row[x - 1] == Empty && row[x] == Empty && row[x + 3] == Empty {
      assert TwoInFive(g, p, y, x - 1, x + 1, x + 2);
    } else if row[x + 1] == P(p) && row[x + 2] == P(p) {
      assert TwoInFive(g, p, y, x, x + 1, x + 2);
    } else {
      assert TwoInFive(g, p, y, x, x + 1, x + 3);
    }
  }

  /** When p has a winning drop, one of them comes first in row-major order. */
  lemma FirstWinningDropExists(g: Grid, p: Player, y: int, x: int)
    requires WellFormed(g) && WinningDrop(g, p, y, x)
    ensures exists y', x' :: FirstWinningDrop(g, p, y', x')
    decreases y * WIDTH + x
  {
    if !FirstWinningDrop(g, p, y, x) {
      var y', x' :| Before(y', x', y, x) && WinningDrop(g, p, y', x');
      FirstWinningDropExists(g, p, y', x');
    }
  }

  /** At most one cell is the first winning drop. */
  lemma FirstWinningDropIsUnique(g: Grid, p: Player, y: int, x: int, y': int, x': int)
    requires WellFormed(g) && FirstWinningDrop(g, p, y, x) && FirstWinningDrop(g, p, y', x')
    ensures y == y' && x == x'
  {
  }

  // ----- The tiers -----

  /**
   * On copy h, the opponent's piece on top of cell (y, x) would give the
   * opponent a line of four, so `_allowsAccidentalWin` rejects the cell.
   */
  ghost predicate Unsafe(h: Grid, y: int, x: int)
    requires WellFormed(h) && InBounds(y, x)
  {
    y > 0 && CheckForWin(Set(h, y - 1, x, P(OPPONENT)), OPPONENT)
  }

  /**
   * Copy h is copy h0 with some cells of the rows above row y cleared: the
   * only changes the probes of a scan that has reached row y leave when
   * every probe is taken off again.
   */
  ghost predicate ClearedAbove(h0: Grid, h: Grid, y: int)
    requires WellFormed(h0) && WellFormed(h)
  {
    forall y', x' :: InBounds(y', x') && h[y'][x'] != h0[y'][x'] ==> y' < y && h[y'][x'] == Empty
  }

  /**
   * Cell (y, x) passed `_allowsAccidentalWin` and its probe is still on the
   * copy h: on the top row nothing was probed; otherwise the opponent's piece
   * sits on the cell above, and the opponent has no line of four with it.
   */
  ghost predicate SafeProbe(h: Grid, y: int, x: int)
    requires WellFormed(h) && InBounds(y, x)
  {
    y > 0 ==> h[y - 1][x] == P(OPPONENT) && !CheckForWin(h, OPPONENT)
  }

  /**
   * Copy h once tiers 3 and 5 have looked at cell (y, x): a cell to play below
   * the top row gets the opponent's probe on the cell above it, taken off
   * again when it wins (`_allowsAccidentalWin`); any other cell leaves the
   * copy as it was.
   */
  ghost function Probed(h: Grid, y: int, x: int): (h': Grid)
    requires WellFormed(h) && InBounds(y, x)
    ensures WellFormed(h')
  {
    if !Open(h, y, x) || y == 0 then h
    else Set(h, y - 1, x, if Unsafe(h, y, x) then Empty else P(OPPONENT))
  }

  /**
   * Tiers 1 and 2: the first playable empty cell, in row-major order, where a
   * piece of p wins.  Every probe is cleared before the next one, so the scan
   * sees the board g throughout.
   */
  method WinOrBlockTier(c: array2<Cell>, p: Player, ghost g: Grid) returns (r: Option<int>)
    requires c.Length0 == HEIGHT && c.Length1 == WIDTH && Rows(c) == g
    modifies c
    ensures r.None? ==> Rows(c) == g
    ensures r.None? <==> forall y, x :: !WinningDrop(g, p, y, x)
    ensures forall y, x :: FirstWinningDrop(g, p, y, x) ==> r == Some(x)
    ensures r.Some? ==> exists y :: FirstWinningDrop(g, p, y, r.value)
  {
    for y := 0 to HEIGHT
      invariant Rows(c) == g
      invariant forall y', x' :: y' < y ==> !WinningDrop(g, p, y', x')
    {
      for x := 0 to WIDTH
        invariant Rows(c) == g
        invariant forall y', x' :: Before(y', x', y, x) ==> !WinningDrop(g, p, y', x')
      {
        if y < HEIGHT - 1 && c[y + 1, x] == Empty {
          continue;
        }
        if c[y, x] != Empty {
          continue;
        }
        var wins := CheckForWinOrBlock(c, y, x, p);
        if wins {
          assert FirstWinningDrop(g, p, y, x);
          forall y', x' | FirstWinningDrop(g, p, y', x') ensures x' == x {
            FirstWinningDropIsUnique(g, p, y, x, y', x');
          }
          return Some(x);
        }
        GridExt(Rows(c), g);
      }
    }
    return None;
  }

  /**
   * After tier 3 has scanned cell (y, x) of copy h0, copy h records how that
   * cell fared: on the top row nothing was probed; below it, the cell above
   * holds the opponent's probe when the probe was harmless, and is empty when
   * the probe won and was taken off, in which case the probe still wins on h.
   * A cell whose harmless probe stayed had no trap to block.
   */
  ghost predicate NoTrapAt(h0: Grid, h: Grid, y: int, x: int)
    requires WellFormed(h0) && WellFormed(h) && InBounds(y, x)
  {
    (y > 0 ==> h[y - 1][x] == Empty || h[y - 1][x] == P(OPPONENT)) &&
    (y > 0 && h[y - 1][x] == Empty ==> Unsafe(h, y, x)) &&
    ((y == 0 || h[y - 1][x] == P(OPPONENT)) ==> TrapColumn(h0, y, x, OPPONENT).None?)
  }

  /** Every cell to play that tier 3 scanned before (y, x) passed with no trap to block. */
  ghost predicate NoTrapBefore(h0: Grid, h: Grid, y: int, x: int)
    requires WellFormed(h0) && WellFormed(h)
  {
    forall y', x' :: InBounds(y', x') && Before(y', x', y, x) && Open(h0, y', x') ==> NoTrapAt(h0, h, y', x')
  }

  /** Copies h0 and h agree on row y and every row below it. */
  ghost predicate SameFromRow(h0: Grid, h: Grid, y: int)
    requires WellFormed(h0) && WellFormed(h)
  {
    forall y', x' :: InBounds(y', x') && y' >= y ==> h[y'][x'] == h0[y'][x']
  }

  /** Copies h0 and h agree on row r from column x on (trivially when r is off the board). */
  ghost predicate SameRowFrom(h0: Grid, h: Grid, r: int, x: int)
    requires WellFormed(h0) && WellFormed(h)
  {
    forall x' :: 0 <= r < HEIGHT && 0 <= x' < WIDTH && x <= x' ==> h[r][x'] == h0[r][x']
  }

  /** The record extends past cell (y, x) once that cell has passed or cannot be played. */
  lemma NoTrapNext(h0: Grid, h: Grid, y: int, x: int)
    requires WellFormed(h0) && WellFormed(h) && InBounds(y, x)
    requires NoTrapBefore(h0, h, y, x) && (Open(h0, y, x) ==> NoTrapAt(h0, h, y, x))
    ensures NoTrapBefore(h0, h, y, x + 1)
  {
  }

  /**
   * A probe above cell (y, x) leaves row y and the rows below it as they
   * were, so `_checkforTrap` at (y, x) reads the same row as on h0.
   */
  lemma ProbeKeepsRows(h0: Grid, h: Grid, y: int, x: int, v: Cell)
    requires WellFormed(h0) && WellFormed(h) && InBounds(y, x) && 0 < y
    requires SameFromRow(h0, h, y)
    ensures SameFromRow(h0, Set(h, y - 1, x, v), y)
    ensures TrapColumn(Set(h, y - 1, x, v), y, x, OPPONENT) == TrapColumn(h0, y, x, OPPONENT)
  {
    TrapColumnReadsRow(Set(h, y - 1, x, v), h0, y, x, OPPONENT);
  }

  /**
   * A probe on an empty cell above (y, x), kept or taken off again, leaves
   * the record of every earlier cell standing: it changes no cell the record
   * reads, and an extra piece of the opponent never undoes a winning probe.
   */
  lemma NoTrapKept(h0: Grid, h: Grid, y: int, x: int, v: Cell)
    requires WellFormed(h0) && WellFormed(h) && InBounds(y, x) && 0 < y
    requires h[y - 1][x] == Empty && (v == Empty || v == P(OPPONENT))
    requires NoTrapBefore(h0, h, y, x)
    ensures NoTrapBefore(h0, Set(h, y - 1, x, v), y, x)
  {
    var h' := Set(h, y - 1, x, v);
    forall y', x' | InBounds(y', x') && Before(y', x', y, x) && Open(h0, y', x')
      ensures NoTrapAt(h0, h', y', x')
    {
      assert NoTrapAt(h0, h, y', x');
      if y' > 0 {
        assert h'[y' - 1][x'] == h[y' - 1][x'];
        if h[y' - 1][x'] == Empty {
          WinMonotone(Set(h, y' - 1, x', P(OPPONENT)), Set(h', y' - 1, x', P(OPPONENT)), OPPONENT);
        }
      }
    }
  }

  /**
   * One step of tier 3's scan, from copy h to `Probed(h, y, x)`: the cell is
   * one to play exactly when it was one on h0, `_checkforTrap` sees the row
   * of h0, the rows the rest of the scan reads stay those of h0, and the
   * record grows by the cell unless it answers.
   */
  lemma TrapStep(h0: Grid, h: Grid, y: int, x: int)
    requires WellFormed(h0) && WellFormed(h) && Gravity(h0) && InBounds(y, x)
    requires SameFromRow(h0, h, y) && SameRowFrom(h0, h, y - 1, x) && NoTrapBefore(h0, h, y, x)
    ensures Open(h, y, x) == Open(h0, y, x)
    ensures TrapColumn(h, y, x, OPPONENT) == TrapColumn(h0, y, x, OPPONENT)
    ensures SameFromRow(h0, Probed(h, y, x), y) && SameRowFrom(h0, Probed(h, y, x), y - 1, x + 1)
    ensures NoTrapBefore(h0, Probed(h, y, x), y, x)
    ensures Open(h0, y, x) && !Unsafe(h, y, x) ==> SafeProbe(Probed(h, y, x), y, x)
    ensures !Open(h0, y, x) || Unsafe(h, y, x) || TrapColumn(h0, y, x, OPPONENT).None? ==>
      NoTrapBefore(h0, Probed(h, y, x), y, x + 1)
  {
    TrapColumnReadsRow(h, h0, y, x, OPPONENT);
    if !Open(h, y, x) || y == 0 {
      if !Open(h0, y, x) || TrapColumn(h0, y, x, OPPONENT).None? {
        NoTrapNext(h0, h, y, x);
      }
    } else {
      assert h[y - 1][x] == Empty by {
        assert h0[y][x] == Empty;
      }
      var v := if Unsafe(h, y, x) then Empty else P(OPPONENT);
      var h' := Set(h, y - 1, x, v);
      NoTrapKept(h0, h, y, x, v);
      ProbeKeepsRows(h0, h, y, x, v);
      if Unsafe(h, y, x) {
        GridExt(Set(h', y - 1, x, P(OPPONENT)), Set(h, y - 1, x, P(OPPONENT)));
        NoTrapNext(h0, h', y, x);
      } else if TrapColumn(h0, y, x, OPPONENT).None? {
        NoTrapNext(h0, h', y, x);
      }
    }
  }

  /**
   * One cell of tier 3's scan: skip it unless it can be played, probe on top
   * of it, skip it when the probe wins, and otherwise ask `_checkforTrap`.
   */
  method TrapCell(c: array2<Cell>, y: int, x: int, ghost g: Grid) returns (t: Option<int>)
    requires c.Length0 == HEIGHT && c.Length1 == WIDTH && InBounds(y, x)
    requires WellFormed(g) && Gravity(g) && Shadow(g, Rows(c))
    modifies c
    ensures Shadow(g, Rows(c))
    ensures Rows(c) == Probed(old(Rows(c)), y, x)
    ensures t == if Open(old(Rows(c)), y, x) && !Unsafe(old(Rows(c)), y, x)
                 then TrapColumn(old(Rows(c)), y, x, OPPONENT) else None
    ensures t.Some? ==> 0 <= t.value < WIDTH && FindSpotForCol(g, t.value).Some?
  {
    ghost var h := Rows(c);
    if y < HEIGHT - 1 && c[y + 1, x] == Empty {
      return None;
    }
    if c[y, x] != Empty {
      return None;
    }
    var allows := AllowsAccidentalWin(c, y, x, OPPONENT);
    if y > 0 {
      ShadowAfterProbe(g, h, y, x, if allows then Empty else P(OPPONENT));
    }
    if allows {
      return None;
    }
    t := TrapColumn(Rows(c), y, x, OPPONENT);
    TrapColumnReadsRow(Rows(c), h, y, x, OPPONENT);
    if t.Some? {
      RoomFromShadow(g, Rows(c), y, t.value);
    }
  }

  /**
   * Tier 3: skip every cell on which the opponent could answer with a win one
   * row up (leaving the probe of a harmless answer on the copy), and play the
   * first trap block found at the others.  Probes only land above the row
   * being scanned, so the cells of that row and the one below are still
   * those of the copy h0 the tier started from.
   */
  method TrapTier(c: array2<Cell>, ghost g: Grid) returns (r: Option<int>)
    requires c.Length0 == HEIGHT && c.Length1 == WIDTH
    requires WellFormed(g) && Gravity(g) && Shadow(g, Rows(c)) && Gravity(Rows(c))
    modifies c
    ensures Shadow(g, Rows(c))
    ensures r.Some? ==> 0 <= r.value < WIDTH && FindSpotForCol(g, r.value).Some?
    ensures r.Some? ==>
      exists y, x :: InBounds(y, x) && Open(old(Rows(c)), y, x) && SafeProbe(Rows(c), y, x) &&
        TrapColumn(old(Rows(c)), y, x, OPPONENT) == r && NoTrapBefore(old(Rows(c)), Rows(c), y, x)
    ensures r.None? ==> NoTrapBefore(old(Rows(c)), Rows(c), HEIGHT, 0)
  {
    ghost var h0 := Rows(c);
    for y := 0 to HEIGHT
      invariant Shadow(g, Rows(c)) && SameFromRow(h0, Rows(c), y - 1) && NoTrapBefore(h0, Rows(c), y, 0)
    {
      for x := 0 to WIDTH
        invariant Shadow(g, Rows(c)) && SameFromRow(h0, Rows(c), y) && SameRowFrom(h0, Rows(c), y - 1, x)
        invariant NoTrapBefore(h0, Rows(c), y, x)
      {
        TrapStep(h0, Rows(c), y, x);
        var t := TrapCell(c, y, x, g);
        if t.Some? {
          return t;
        }
      }
    }
    return None;
  }

  /**
   * Tier 4: the centre column, scanning its cells from the top.  Cells that
   * `_isPlayable` rejects are skipped, and the first one it accepts decides:
   * the tier gives up when that cell is filled or when the opponent could
   * answer on top of it with a win (the winning probe's cell is cleared, even
   * when an earlier probe stood there), and otherwise plays the centre,
   * leaving the harmless probe on the copy.
   */
  method CentreTier(c: array2<Cell>, ghost g: Grid) returns (r: Option<int>)
    requires c.Length0 == HEIGHT && c.Length1 == WIDTH
    requires WellFormed(g) && Gravity(g) && Shadow(g, Rows(c))
    modifies c
    ensures Shadow(g, Rows(c))
    ensures r.Some? ==> r.value == CENTRE && FindSpotForCol(g, CENTRE).Some?
    ensures var h, y := old(Rows(c)), FirstPlayableFrom(old(Rows(c)), CENTRE, 0);
      r.Some? <==> h[y][CENTRE] == Empty && (y == 0 || !CheckForWin(Set(h, y - 1, CENTRE, P(OPPONENT)), OPPONENT))
    ensures var h, y := old(Rows(c)), FirstPlayableFrom(old(Rows(c)), CENTRE, 0);
      Rows(c) == if y == 0 || h[y][CENTRE] != Empty then h else Set(h, y - 1, CENTRE, if r.Some? then P(OPPONENT) else Empty)
  {
    ghost var h := Rows(c);
    var y := 0;
    while y < HEIGHT - 1 && c[y + 1, CENTRE] == Empty
      invariant 0 <= y < HEIGHT && Rows(c) == h
      invariant forall y' :: 0 <= y' < y ==> !Playable(h, y', CENTRE)
      decreases HEIGHT - y
    {
      y := y + 1;
    }
    assert y == FirstPlayableFrom(h, CENTRE, 0);
    if c[y, CENTRE] != Empty {
      return None;
    }
    var allows := AllowsAccidentalWin(c, y, CENTRE, OPPONENT);
    if y > 0 {
      ShadowAfterProbe(g, h, y, CENTRE, if allows then Empty else P(OPPONENT));
    }
    if allows {
      return None;
    }
    RoomFromShadow(g, h, y, CENTRE);
    return Some(CENTRE);
  }

  /** Every cell to play that comes before (y, x) is unsafe on copy h0. */
  ghost predicate UnsafeBefore(h0: Grid, y: int, x: int)
    requires WellFormed(h0)
  {
    forall y', x' :: InBounds(y', x') && Before(y', x', y, x) && Open(h0, y', x') ==> Unsafe(h0, y', x')
  }

  /** The record extends past cell (y, x) once that cell is unsafe or cannot be played. */
  lemma UnsafeNext(h0: Grid, y: int, x: int)
    requires WellFormed(h0) && InBounds(y, x)
    requires UnsafeBefore(h0, y, x) && (Open(h0, y, x) ==> Unsafe(h0, y, x))
    ensures UnsafeBefore(h0, y, x + 1)
  {
  }

  /**
   * A probe above cell (y, x) that wins on a copy that only lost cells of
   * h0 also wins on h0, and clearing it again keeps the copy one that only
   * lost cells of h0.
   */
  lemma ClearedProbe(h0: Grid, h: Grid, y: int, x: int)
    requires WellFormed(h0) && WellFormed(h) && InBounds(y, x) && 0 < y
    requires ClearedAbove(h0, h, y)
    ensures CheckForWin(Set(h, y - 1, x, P(OPPONENT)), OPPONENT) ==> Unsafe(h0, y, x)
    ensures ClearedAbove(h0, Set(h, y - 1, x, Empty), y)
  {
    WinMonotone(Set(h, y - 1, x, P(OPPONENT)), Set(h0, y - 1, x, P(OPPONENT)), OPPONENT);
  }

  /**
   * One step of tier 5's scan, from copy h to `Probed(h, y, x)`: the cell is
   * one to play exactly when it was one on h0, and unless it is played, the
   * copy has still only lost pieces of h0 and the cell was unsafe on h0.
   */
  lemma SafeStep(h0: Grid, h: Grid, y: int, x: int)
    requires WellFormed(h0) && WellFormed(h) && InBounds(y, x)
    requires ClearedAbove(h0, h, y) && UnsafeBefore(h0, y, x)
    ensures Open(h, y, x) == Open(h0, y, x)
    ensures Open(h0, y, x) && !Unsafe(h, y, x) ==> SafeProbe(Probed(h, y, x), y, x)
    ensures !(Open(h0, y, x) && !Unsafe(h, y, x)) ==>
      ClearedAbove(h0, Probed(h, y, x), y) && UnsafeBefore(h0, y, x + 1)
  {
    if !Open(h, y, x) {
      assert Probed(h, y, x) == h;
      UnsafeNext(h0, y, x);
    } else if y > 0 {
      ClearedProbe(h0, h, y, x);
      if Unsafe(h, y, x) {
        assert Probed(h, y, x) == Set(h, y - 1, x, Empty);
        UnsafeNext(h0, y, x);
      }
    }
  }

  /**
   * One cell of tier 5's scan: skip it unless it can be played, probe on top
   * of it, skip it when the probe wins, and otherwise play it.
   */
  method SafeCell(c: array2<Cell>, y: int, x: int, ghost g: Grid) returns (t: Option<int>)
    requires c.Length0 == HEIGHT && c.Length1 == WIDTH && InBounds(y, x)
    requires WellFormed(g) && Gravity(g) && Shadow(g, Rows(c))
    modifies c
    ensures Shadow(g, Rows(c))
    ensures Rows(c) == Probed(old(Rows(c)), y, x)
    ensures t == if Open(old(Rows(c)), y, x) && !Unsafe(old(Rows(c)), y, x) then Some(x) else None
    ensures t.Some? ==> FindSpotForCol(g, x).Some?
  {
    ghost var h := Rows(c);
    if y < HEIGHT - 1 && c[y + 1, x] == Empty {
      return None;
    }
    if c[y, x] != Empty {
      return None;
    }
    var allows := AllowsAccidentalWin(c, y, x, OPPONENT);
    if y > 0 {
      ShadowAfterProbe(g, h, y, x, if allows then Empty else P(OPPONENT));
    }
    if allows {
      return None;
    }
    RoomFromShadow(g, h, y, x);
    return Some(x);
  }

  /**
   * Tier 5: the first playable empty cell the opponent could not answer with
   * a win, leaving that cell's harmless probe on the copy.  Every probe of a
   * skipped cell won and was taken off again, so when the tier answers, the
   * copy h0 it started from showed every earlier cell to play as unsafe, and
   * when it gives up, it showed every cell to play as unsafe.
   */
  method SafeTier(c: array2<Cell>, ghost g: Grid) returns (r: Option<int>)
    requires c.Length0 == HEIGHT && c.Length1 == WIDTH
    requires WellFormed(g) && Gravity(g) && Shadow(g, Rows(c))
    modifies c
    ensures Shadow(g, Rows(c))
    ensures r.Some? ==> 0 <= r.value < WIDTH && FindSpotForCol(g, r.value).Some?
    ensures r.Some? ==>
      exists y :: InBounds(y, r.value) && Open(old(Rows(c)), y, r.value) && SafeProbe(Rows(c), y, r.value) &&
        UnsafeBefore(old(Rows(c)), y, r.value)
    ensures r.None? ==> forall y, x :: InBounds(y, x) && Open(old(Rows(c)), y, x) ==> Unsafe(old(Rows(c)), y, x)
  {
    ghost var h0 := Rows(c);
    for y := 0 to HEIGHT
      invariant Shadow(g, Rows(c)) && ClearedAbove(h0, Rows(c), y) && UnsafeBefore(h0, y, 0)
    {
      for x := 0 to WIDTH
        invariant Shadow(g, Rows(c)) && ClearedAbove(h0, Rows(c), y) && UnsafeBefore(h0, y, x)
      {
        SafeStep(h0, Rows(c), y, x);
        var t := SafeCell(c, y, x, g);
        if t.Some? {
          return t;
        }
      }
    }
    return None;
  }

  /** Tier 6: the first playable empty cell of the copy, whatever the risk. */
  method AnyTier(c: array2<Cell>) returns (r: Option<int>)
    requires c.Length0 == HEIGHT && c.Length1 == WIDTH
    ensures r.None? <==> forall y, x :: InBounds(y, x) ==> !Open(Rows(c), y, x)
    ensures forall y, x :: FirstOpen(Rows(c), y, x) ==> r == Some(x)
    ensures r.Some? ==> exists y :: FirstOpen(Rows(c), y, r.value)
  {
    ghost var h := Rows(c);
    for y := 0 to HEIGHT
      invariant NoOpenBefore(h, y, 0)
    {
      for x := 0 to WIDTH
        invariant NoOpenBefore(h, y, x)
      {
        if (y < HEIGHT - 1 && c[y + 1, x] == Empty) || c[y, x] != Empty {
          NoOpenNext(h, y, x);
          continue;
        }
        assert FirstOpen(h, y, x);
        forall y', x' | FirstOpen(h, y', x')
          ensures x' == x
        {
          FirstOpenUnique(h, y, x, y', x');
        }
        return Some(x);
      }
      NoOpenRow(h, y);
    }
    return None;
  }

  /**
   * `aiPlayer`: the column the automated player plays, or None when it finds
   * no cell to play.  The column always has room on the live board; None comes
   * back exactly when the board is full; an immediate win for player 2 beats
   * everything, and blocking player 1's immediate win beats everything else,
   * in both cases at the first such cell in row-major order.
   */
  method AiPlayer(board: array2<Cell>) returns (r: Option<int>)
    requires board.Length0 == HEIGHT && board.Length1 == WIDTH && Gravity(Rows(board))
    ensures r.Some? ==> 0 <= r.value < WIDTH && FindSpotForCol(Rows(board), r.value).Some?
    ensures r.None? <==> Full(Rows(board))
    ensures forall y, x :: FirstWinningDrop(Rows(board), AI, y, x) ==> r == Some(x)
    ensures (forall y, x :: !WinningDrop(Rows(board), AI, y, x)) ==>
              forall y, x :: FirstWinningDrop(Rows(board), OPPONENT, y, x) ==> r == Some(x)
  {
    ghost var g := Rows(board);
    var copy := CopyBoard(board);
    r := WinOrBlockTier(copy, AI, g);
    if r.Some? {
      return;
    }
    r := WinOrBlockTier(copy, OPPONENT, g);
    if r.Some? {
      return;
    }
    r := TrapTier(copy, g);
    if r.Some? {
      return;
    }
    r := CentreTier(copy, g);
    if r.Some? {
      return;
    }
    r := SafeTier(copy, g);
    if r.Some? {
      return;
    }
    r := AnyTier(copy);
    if r.Some? {
      ghost var y :| FirstOpen(Rows(copy), y, r.value);
      RoomFromShadow(g, Rows(copy), y, r.value);
    } else if !Full(g) {
      NotFullHasOpen(g);
    }
  }
}
