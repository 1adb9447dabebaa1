# Connect Four rules engine and automated player

A Dafny model of the game core of a browser Connect Four game (`connect4.js`).
The model covers:

- the 6 x 7 board;
- the gravity lookup of a column's landing row;
- the move step: place the piece, test for a win, then a tie, then pass the turn;
- the four-direction win test;
- the board copy;
- the reset;
- the automated opponent.

The opponent is a fixed cascade of six tiers that plays as player 2 against player 1.

- `Rules` (Rules.dfy) works on board values (`Grid`, rows of cells, `board[y][x]` with row 0 at the top). A cell is `Empty` or `P(1)`/`P(2)`. The module holds `findSpotForCol`, `checkForWin` (a scan proved equal to "some line of four in any compass direction"), the tie test and the gravity invariant.
- `Boards` (Boards.dfy) is the board as stored: an `array2<Cell>` written in place. It holds `makeBoard`, `copyBoard` (a fresh array) and `Rows`, which reads an array as a `Grid`.
- `Policy` (Policy.dfy) holds `aiPlayer` and its helpers, as methods over an array copy of the board. Clicking `indicatorRow.childNodes[k]` plays column `k - 2`, so the model returns that column as `Some(k - 2)`, or `None` when nothing is clicked. `AiPlayer` has no `modifies` clause, so it cannot write the live board.
- `Engine` (Engine.dfy) holds the class `Game` with the fields `board` and `currPlayer`. `Drop` is the rules part of `handleClick`. `HandleClick` adds the automated answer when AI mode (a plain boolean parameter) is on. `Reset` is the end-of-game reset.

Behaviour of the code that the model keeps:

- `_allowsAccidentalWin` takes its probe piece off the copy only when the probe wins. A probe that does not win stays on the copy, and all later checks and tiers see it. As a consequence, an empty board is not answered with the centre column. In tier 3, the probes above the bottom row fill row 4 except for column 3, because the probe at column 3 wins and is removed. In tier 4, the centre probe then completes row 4 and the tier stops. Tier 5 then finds the cell resting on the probe in column 0, so the code plays column 0.
- The tie test does not end the move: after a tie the turn still passes to the other player. After a win it does not pass.
- There is no game-over guard. Until the reset, the board accepts moves after a win or a tie. The board size is fixed and is never validated.
- Tier 4 uses the literal column 3. It skips cells that cannot be played, and it stops at the first cell it can play if that cell is filled or the opponent could answer it with a win. A winning probe is cleared even when an earlier probe of tier 3 stood in that cell, so a tier 4 that gives up can still have changed the copy.
- Tier 5 can only skip a cell whose probe won, and such a probe is always cleared. The copy therefore only loses pieces while tier 5 scans, and a cell it skips would also have been unsafe on the copy the tier started from.
- `_checkforTrap` tries three patterns in order. The second and third patterns share one bounds test. If the adjacent pair is present but its empty cells are not, the gap pattern is not tried.

## Model

| member | source | states |
|---|---|---|
| `Rules.FindSpotForCol` | connect4.js:120-127 | Returns the lowest empty row of the column: that cell is empty and every cell below it is filled. Returns None exactly when every cell of the column is filled. |
| `Rules.FullColumnIsTopFilled` | connect4.js:120-127 | On a board that obeys gravity, a column is full exactly when its top cell is filled. |
| `Rules.DropKeepsGravity` | connect4.js:231-237 | Putting a piece on the landing row keeps every column's filled cells one run from the bottom. |
| `Rules.FullMeansNoRoom` | connect4.js:246 | The tie test (every cell of every row filled) holds exactly when `findSpotForCol` finds no room in any column. |
| `Rules.WinFromRow` | connect4.js:307-322 | The row-by-row scan from row y succeeds exactly when some cell in rows y and below starts a horizontal, vertical or diagonal win. |
| `Rules.WinInRow` | connect4.js:310-320 | The scan along row y from column x succeeds exactly when some cell of the row from x on starts a win. |
| `Rules.ScanWinIsLine` | connect4.js:297-323 | A win the scan reports is a real line of four of the player's pieces. |
| `Rules.LineIsScanned` | connect4.js:297-323 | Every line of four, in any of the eight compass directions, is reported by the scan. |
| `Rules.CheckForWinMeansLineOfFour` | connect4.js:297-323 | `checkForWin(b, p)` is true exactly when p holds four in-bounds cells in a straight line in any of the eight compass directions. The four directions looked at from every cell therefore miss no line. |
| `Rules.WinMonotone` | connect4.js:297-323 | Adding pieces of p to a board never turns a win of p into a non-win. |
| `Rules.Other` | connect4.js:251 | Toggling the turn always gives the other player. |
| `Boards.Put` | connect4.js:237 | Writing one cell of the board changes that cell to the new value and leaves every other cell as it was. |
| `Boards.MakeBoard` | connect4.js:41-48 | A fresh HEIGHT x WIDTH board whose cells are all empty. |
| `Boards.CopyBoard` | connect4.js:475-477 | A fresh array with the same cells as the board. Because it is fresh, writes to it never reach the original. |
| `Policy.Playable` | connect4.js:330-337 | `_isPlayable` looks at one cell. On a board that obeys gravity, it accepts a cell exactly when every cell below it in its column is filled. |
| `Policy.Open` | connect4.js:330-344 | On a board that obeys gravity, a cell that `_isPlayable` accepts and `_isFilled` rejects is exactly the landing row `findSpotForCol` gives for that column. |
| `Policy.FirstPlayableFrom` | connect4.js:444-451 | Tier 4's downward scan of a column stops at a row `_isPlayable` accepts, and `_isPlayable` rejects every row above it. |
| `Policy.NotFullHasOpen` | connect4.js:464-471 | A board with an empty cell has a playable empty cell. |
| `Policy.FirstOpenUnique` | connect4.js:464-471 | Only one cell is the first playable empty cell in row-major order. |
| `Policy.FirstWinningDropExists` | connect4.js:418-432 | When p can win at once somewhere, there is a first such cell in row-major order. |
| `Policy.FirstWinningDropIsUnique` | connect4.js:418-432 | Only one cell is the first winning drop in row-major order. |
| `Policy.CheckForWinOrBlock` | connect4.js:359-367 | Reports whether p's piece on (y, x) wins. On a win the piece stays on the copy. Otherwise the cell is set back to empty and nothing else changes. |
| `Policy.AllowsAccidentalWin` | connect4.js:347-356 | Reports whether p wins with a piece on the cell above (y, x). That probe is cleared when it wins and stays on the copy when it does not. Nothing is probed on the top row. |
| `Policy.ShadowAfterProbe` | connect4.js:347-356 | A probe on the cell above an empty cell of the copy keeps every piece of the live board, and it keeps every cell the live board could play playable and empty in the copy. |
| `Policy.ClearedProbe` | connect4.js:347-356 | A probe that wins on a copy that has only lost pieces would also have won on the earlier copy, and clearing it keeps the copy one that has only lost pieces. |
| `Policy.TrapColumn` | connect4.js:370-414 | The answered column is x or x + 2. It is an empty cell of row y, and the cell to its right holds the opponent's piece. |
| `Policy.TrapIsTwoInFive` | connect4.js:370-414 | A trap is answered only when the five cells of the row starting at x - 1 or at x hold two opponent pieces and three empty cells. |
| `Policy.WinOrBlockTier` | connect4.js:418-432 | Answers the column of the first winning drop for p in row-major order. Answers None exactly when no playable empty cell wins for p, and then leaves the copy unchanged. |
| `Policy.TrapCell` | connect4.js:436-440 | One cell of tier 3, decided on the copy it receives. A cell that `_isPlayable` rejects or `_isFilled` accepts is skipped and the copy is unchanged. Otherwise, below the top row, the opponent's probe goes on the cell above. It is cleared when it wins and the cell is skipped, and it is left in place when it is harmless. The answer is then `_checkforTrap` at the cell. |
| `Policy.TrapStep` | connect4.js:434-441 | Over tier 3's scan, a cell is one to play exactly when it was one on the starting copy, and `_checkforTrap` sees that copy's row. Every cell to play that is skipped leaves the cell above it either holding the opponent's harmless probe, when it had no trap to block, or empty, when the opponent's piece there wins. Later harmless probes only add opponent pieces, so that win stays a win. |
| `Policy.TrapTier` | connect4.js:434-441 | The answer is `_checkforTrap` at some playable empty cell of the starting copy whose probe was harmless. Every earlier cell to play was either skipped because the opponent's piece above it wins on the final copy (that cell is empty), or holds the opponent's probe and had no trap to block. With no answer, this holds for every cell to play. The column has room on the live board. |
| `Policy.CentreTier` | connect4.js:444-451 | Looks only at the first cell of column 3 that `_isPlayable` accepts. Plays column 3 exactly when that cell is empty and the opponent's piece above it does not win. States the copy afterwards: unchanged when the cell is filled or on the top row, and otherwise with the cell above holding the harmless probe, or cleared after a winning one. |
| `Policy.SafeCell` | connect4.js:456-460 | One cell of tier 5, decided on the copy it receives. It is played exactly when `_isPlayable` accepts it, `_isFilled` rejects it, and the opponent's piece above it does not win on that copy. The copy afterwards is stated exactly: unchanged for a cell not to play or on the top row, and otherwise with the probe kept when harmless or cleared when it wins. |
| `Policy.SafeStep` | connect4.js:454-462 | Over tier 5's scan, a cell is one to play exactly when it was one on the starting copy. A cell skipped because its probe won was also unsafe on the starting copy, and clearing that probe leaves a copy that has only lost pieces. |
| `Policy.SafeTier` | connect4.js:454-462 | The answer is a playable empty cell whose probe is harmless and stays on the copy. Every earlier cell to play was unsafe on the starting copy. With no answer, every cell to play was unsafe on the starting copy. The column has room on the live board. |
| `Policy.AnyTier` | connect4.js:464-471 | Answers the column of the first playable empty cell of the copy in row-major order. Answers None exactly when the copy has no such cell. |
| `Policy.AiPlayer` | connect4.js:325-472 | Any column it answers has room on the live board, and it answers None exactly when the board is full. If player 2 can win at once, it plays the first such cell in row-major order. Otherwise, if player 1 can win at once, it blocks the first such cell. |
| `Engine.Play` | connect4.js:231-251 | A full column changes nothing. Otherwise the mover's piece lands on the column's landing row and no other cell changes. The move wins exactly when the new board holds a line of four for the mover, and a win keeps the turn. A tie is an accepted move with no line of four that fills the board. Every accepted move that does not win passes the turn, a tie included. |
| `Engine.PlayKeepsGravity` | connect4.js:231-237 | A move keeps the pieces of every column stacked from the bottom. |
| `Engine.AnswerTakesWinOrBlocks` | connect4.js:418-432 | Player 2's move in the column of its first winning drop wins. Without such a drop, a move in the column of player 1's first winning drop lands on exactly that cell. |
| `Engine.Game.constructor` | connect4.js:23-24 | The game starts with player 1 to move and an empty board that obeys gravity. The board is the one the start-up call of `makeBoard` (connect4.js line 480) builds. |
| `Engine.Game.Reset` | connect4.js:197-199 | A new empty board and player 1 to move. |
| `Engine.Game.Drop` | connect4.js:231-251 | The live board, the turn and the result after the move are exactly those `Play` gives for the old board, the player to move and the column. Gravity is preserved. |
| `Engine.Game.AiTurn` | connect4.js:325-472 | Player 2's turn: nothing is played exactly when the board is full. Otherwise the clicked column has room, and the board, turn and result are those of `Play` for player 2 in that column. The move wins when player 2 can win at once, and otherwise it blocks player 1's first immediate win. |
| `Engine.Game.HandleClick` | connect4.js:225-268 | The human result is that of `Play` for the player to move. The automated answer comes exactly when AI mode is on and player 1's move was accepted and neither won nor tied. Without an answer, board and turn are those after the human move. With one, they are those of `Play` for player 2 in a column with room on the board after the human move, and that answer takes a win or blocks player 1's first immediate win. |

## Left out

- Building the HTML table (`makeHtmlBoard`, `placeInTable`), hover handling, styling, `resizeBoard`, `scalePieces` and `dropPiece`: these are presentation and pixel geometry.
- The `setTimeout` delays, the AI overlay and the end-of-game splash: these are animation sequencing. The automated player is called synchronously after the human move, and `Reset` is a separate call instead of a timed one.
- `updateSessionScore`, `updateDisplayScore` and the end-of-game messages: these are session storage and display I/O.
- The AI toggle button: AI mode is a parameter of `HandleClick`.
- Clicks whose target is not a column cell: the overlay check at line 227 and non-numeric ids. `HandleClick` requires a column index 0..6.
- Row arrays: the board is one `array2`, so the separate row arrays of the source, and any aliasing between them, are not modelled.
- Policy.AiPlayer: for answers from tiers 3 to 6, the contract states only that the column has room on the live board. Each tier's own contract says what it answers, in terms of the copy it receives, but these are not chained through the probes that earlier tiers leave behind. So the empty-board answer of column 0 described above is not proved.
- Policy.TrapTier: for a skipped cell, states that the opponent's piece above it wins on the final copy, not on the copy as it stood when the cell was scanned (the first follows from the second). For a cell whose probe stayed, it does not state that the probe was harmless when placed. The exact per-cell outcome is stated by `Policy.TrapCell`.
- Policy.SafeTier: for the cells it skips, states only that they were unsafe on the starting copy, not that their probes won on the copy as it stood when each was scanned (the second implies the first). The exact per-cell outcome is stated by `Policy.SafeCell`.
