/**
 * The board as the program stores it: a HEIGHT x WIDTH array of cells that
 * moves write in place.  `Rows` reads an array as a `Grid` value, so that the
 * rules of module Rules apply to the live board and to the automated player's
 * copy alike.
 */
module Boards {
  import opened Rules

  /** The cells of the array, row by row. */
  function Rows(a: array2<Cell>): (g: Grid)
    reads a
    requires a.Length0 == HEIGHT && a.Length1 == WIDTH
    ensures WellFormed(g)
    ensures forall y, x :: InBounds(y, x) ==> g[y][x] == a[y, x]
  {
    seq(HEIGHT, (y: int) requires 0 <= y < HEIGHT reads a =>
      seq(WIDTH, (x: int) requires 0 <= x < WIDTH reads a => a[y, x]))
  }

  /** Writes one cell: the array's grid changes at (y, x) and nowhere else. */
  method Put(a: array2<Cell>, y: int, x: int, v: Cell)
    requires a.Length0 == HEIGHT && a.Length1 == WIDTH && InBounds(y, x)
    modifies a
    ensures Rows(a) == Set(old(Rows(a)), y, x, v)
  {
    a[y, x] := v;
    GridExt(Rows(a), Set(old(Rows(a)), y, x, v));
  }

  /** `makeBoard`: a fresh board of HEIGHT rows of WIDTH empty cells. */
  method MakeBoard() returns (b: array2<Cell>)
    ensures fresh(b) && b.Length0 == HEIGHT && b.Length1 == WIDTH
    ensures forall y, x :: InBounds(y, x) ==> b[y, x] == Empty
  {
    b := new Cell[HEIGHT, WIDTH];
    for y := 0 to HEIGHT
      invariant forall y', x' :: 0 <= y' < y && 0 <= x' < WIDTH ==> b[y', x'] == Empty
    {
      for x := 0 to WIDTH
        invariant forall y', x' :: 0 <= y' < y && 0 <= x' < WIDTH ==> b[y', x'] == Empty
        invariant forall x' :: 0 <= x' < x ==> b[y, x'] == Empty
      {
        b[y, x] := Empty;
      }
    }
  }

  /**
   * `copyBoard`: a fresh array holding the same cells; writing to it cannot
   * change the original.
   */
  method CopyBoard(b: array2<Cell>) returns (c: array2<Cell>)
    requires b.Length0 == HEIGHT && b.Length1 == WIDTH
    ensures fresh(c) && c.Length0 == HEIGHT && c.Length1 == WIDTH
    ensures Rows(c) == Rows(b)
  {
    c := new Cell[HEIGHT, WIDTH];
    for y := 0 to HEIGHT
      invariant forall y', x' :: 0 <= y' < y && 0 <= x' < WIDTH ==> c[y', x'] == b[y', x']
    {
      for x := 0 to WIDTH
        invariant forall y', x' :: 0 <= y' < y && 0 <= x' < WIDTH ==> c[y', x'] == b[y', x']
        invariant forall x' :: 0 <= x' < x ==> c[y, x'] == b[y, x']
      {
        c[y, x] := b[y, x];
      }
    }
    GridExt(Rows(c), Rows(b));
  }
}
