/**
 * The game engine: the live board and the player to move, updated in place by
 * each accepted move, with the automated player answering player 1 when AI
 * mode is on.
 */
module Engine {
  import opened Wrappers
  import opened Rules
  import opened Boards
  import Policy

  /** What a click on a column does: nothing (full column), a win, a tie, or play goes on. */
  datatype MoveResult = Ignored | Won(winner: Player) | Tied | Continued

  /** What a move leaves behind: its result, the board and the player to move. */
  datatype Move = Move(result: MoveResult, grid: Grid, next: Player)

  /**
   * The rules part of `handleClick` on board values: player p drops a piece
   * in column x of board g.  A full column changes nothing.  Otherwise the
   * piece lands on the column's landing row; a line of four wins and keeps the
   * turn, and in every other case, a full board (a tie) included, the turn
   * passes to the other player.
   */
  function Play(g: Grid, p: Player, x: int): (m: Move)
    requires WellFormed(g) && 0 <= x < WIDTH
    ensures WellFormed(m.grid)
    ensures m.result.Ignored? <==> FindSpotForCol(g, x).None?
    ensures m.result.Ignored? ==> m.grid == g && m.next == p
    ensures !m.result.Ignored? ==> m.grid == Set(g, FindSpotForCol(g, x).value, x, P(p))
    ensures !m.result.Ignored? ==> (m.result.Won? <==> LineOfFour(m.grid, p))
    ensures m.result.Won? ==> m.result.winner == p && m.next == p
    ensures m.result.Tied? <==> !m.result.Ignored? && !LineOfFour(m.grid, p) && Full(m.grid)
    ensures !m.result.Ignored? && !m.result.Won? ==> m.next == Other(p)
  {
    match FindSpotForCol(g, x)
    case None => Move(Ignored, g, p)
    case Some(y) =>
      var h := Set(g, y, x, P(p));
      CheckForWinMeansLineOfFour(h, p);
      if CheckForWin(h, p) then Move(Won(p), h, p)
      else Move(if Full(h) then Tied else Continued, h, Other(p))
  }

  /** A move keeps the pieces of every column stacked from the bottom. */
  lemma PlayKeepsGravity(g: Grid, p: Player, x: int)
    requires WellFormed(g) && Gravity(g) && 0 <= x < WIDTH
    ensures Gravity(Play(g, p, x).grid)
  {
    if FindSpotForCol(g, x).Some? {
      DropKeepsGravity(g, x, P(p));
    }
  }

  class Game {
    var board: array2<Cell>
    var currPlayer: Player

    /** The board has the fixed size and its pieces obey gravity. */
    ghost predicate Valid()
      reads this, board
    {
      board.Length0 == HEIGHT && board.Length1 == WIDTH && Gravity(Rows(board))
    }

    /** Start of play: an empty board and player 1 to move. */
    constructor ()
      ensures Valid() && fresh(board) && currPlayer == 1
      ensures forall y, x :: InBounds(y, x) ==> board[y, x] == Empty
    {
      var b := MakeBoard();
      board := b;
      currPlayer := 1;
    }

    /** The reset after a game ends: a new empty board and player 1 to move. */
    method Reset()
      modifies this
      ensures Valid() && fresh(board) && currPlayer == 1
      ensures forall y, x :: InBounds(y, x) ==> board[y, x] == Empty
    {
      board := MakeBoard();
      currPlayer := 1;
    }

    /** The rules part of `handleClick` for column x, played on the live board. */
    method Drop(x: int) returns (res: MoveResult)
      requires Valid() && 0 <= x < WIDTH
      modifies this, board
      ensures Valid() && board == old(board)
      ensures var m := Play(old(Rows(board)), old(currPlayer), x);
        res == m.result && Rows(board) == m.grid && currPlayer == m.next
    {
      ghost var m := Play(Rows(board), currPlayer, x);
      var spot := FindSpotForCol(Rows(board), x);
      if spot.None? {
        return Ignored;
      }
      var y := spot.value;
      PlayKeepsGravity(Rows(board), currPlayer, x);
      Put(board, y, x, P(currPlayer));
      assert Rows(board) == m.grid;
      if CheckForWin(Rows(board), currPlayer) {
        return Won(currPlayer);
      }
      res := if Full(Rows(board)) then Tied else Continued;
      currPlayer := Other(currPlayer);
    }

    /**
     * The automated player's turn: `aiPlayer` picks a column on a copy of the
     * board and clicks it, which plays that column like any click; column is
     * the column clicked, if any.  Nothing
     * is played exactly when the board is full; otherwise the move always
     * lands, takes an immediate win when there is one, and else blocks the
     * first cell where player 1 would win at once.
     */
    method AiTurn() returns (column: Option<int>, reply: Option<MoveResult>)
      requires Valid() && currPlayer == Policy.AI
      modifies this, board
      ensures Valid() && board == old(board)
      ensures reply.Some? <==> column.Some?
      ensures reply.None? <==> Full(old(Rows(board)))
      ensures reply.None? ==> Rows(board) == old(Rows(board)) && currPlayer == Policy.AI
      ensures column.Some? ==> 0 <= column.value < WIDTH && FindSpotForCol(old(Rows(board)), column.value).Some?
      ensures column.Some? ==>
        Play(old(Rows(board)), Policy.AI, column.value) == Move(reply.value, Rows(board), currPlayer)
      ensures reply.Some? ==> WinsOrBlocks(old(Rows(board)), reply.value, Rows(board))
    {
      ghost var g := Rows(board);
      column := Policy.AiPlayer(board);
      if column.None? {
        return None, None;
      }
      var c := column.value;
      AnswerTakesWinOrBlocks(g, c);
      var answer := Drop(c);
      reply := Some(answer);
    }

    /**
     * `handleClick` on column x: the current player's move, then, when AI
     * mode is on and the move passed the turn to player 2, the automated
     * player's turn.  The answer comes exactly when player 1's move neither
     * won, tied nor hit a full column (after a tie the automated player finds
     * nothing to play).
     */
    method HandleClick(x: int, aiMode: bool) returns (human: MoveResult, reply: Option<MoveResult>)
      requires Valid() && 0 <= x < WIDTH
      modifies this, board
      ensures Valid() && board == old(board)
      ensures var m := Play(old(Rows(board)), old(currPlayer), x);
        human == m.result && (reply.None? ==> Rows(board) == m.grid && currPlayer == m.next)
      ensures reply.Some? <==> aiMode && old(currPlayer) == Policy.OPPONENT && human.Continued?
      ensures var m := Play(old(Rows(board)), old(currPlayer), x);
        reply.Some? ==>
          exists c :: 0 <= c < WIDTH && FindSpotForCol(m.grid, c).Some? && Play(m.grid, m.next, c) == Move(reply.value, Rows(board), currPlayer)
      ensures reply.Some? ==> WinsOrBlocks(Play(old(Rows(board)), old(currPlayer), x).grid, reply.value, Rows(board))
    {
      human := Drop(x);
      reply := None;
      if human.Ignored? || human.Won? {
        return;
      }
      if aiMode && currPlayer == Policy.AI {
        var column;
        column, reply := AiTurn();
      }
    }
  }

  /**
   * Player 2's move from board g to board h with result res takes an immediate
   * win when there is one, and otherwise lands on the first cell, in row-major
   * order, where player 1 would win at once, if there is such a cell.
   */
  ghost predicate WinsOrBlocks(g: Grid, res: MoveResult, h: Grid)
    requires WellFormed(g)
  {
    ((exists y, x :: Policy.WinningDrop(g, Policy.AI, y, x)) ==> res == Won(Policy.AI)) &&
    (((forall y, x :: !Policy.WinningDrop(g, Policy.AI, y, x)) &&
      (exists y, x :: Policy.WinningDrop(g, Policy.OPPONENT, y, x))) ==>
       exists y, x :: Policy.FirstWinningDrop(g, Policy.OPPONENT, y, x) && h == Set(g, y, x, P(Policy.AI)))
  }

  /**
   * Column c, played by player 2 on board g, where c is the column of the
   * first winning drop for player 2 when there is one, and else of the first
   * one for player 1 when there is one: the move wins in the first case and
   * lands on player 1's winning cell in the second.
   */
  lemma AnswerTakesWinOrBlocks(g: Grid, c: int)
    requires WellFormed(g) && Gravity(g) && 0 <= c < WIDTH
    requires forall y, x :: Policy.FirstWinningDrop(g, Policy.AI, y, x) ==> c == x
    requires (forall y, x :: !Policy.WinningDrop(g, Policy.AI, y, x)) ==>
               forall y, x :: Policy.FirstWinningDrop(g, Policy.OPPONENT, y, x) ==> c == x
    ensures WinsOrBlocks(g, Play(g, Policy.AI, c).result, Play(g, Policy.AI, c).grid)
  {
    if exists y, x :: Policy.WinningDrop(g, Policy.AI, y, x) {
      var y, x :| Policy.WinningDrop(g, Policy.AI, y, x);
      Policy.FirstWinningDropExists(g, Policy.AI, y, x);
      var y', x' :| Policy.FirstWinningDrop(g, Policy.AI, y', x');
      assert FindSpotForCol(g, c) == Some(y');
    } else if exists y, x :: Policy.WinningDrop(g, Policy.OPPONENT, y, x) {
      var y, x :| Policy.WinningDrop(g, Policy.OPPONENT, y, x);
      Policy.FirstWinningDropExists(g, Policy.OPPONENT, y, x);
      var y', x' :| Policy.FirstWinningDrop(g, Policy.OPPONENT, y', x');
      assert FindSpotForCol(g, c) == Some(y');
    }
  }
}
