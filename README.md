# Tic-tac-toe engine: verified model

This project models the game core of a small tic-tac-toe program. A human
plays crosses and moves first. The computer plays circles and picks its
moves with an exhaustive minimax search. The model is written in Dafny and
has four modules:

- `Board` (`board.dfy`) holds the constants of the engine: a 3 x 3 board,
  three in a row to win, crosses for the player and circles for the
  computer. It also defines the flat board layout, where the cell at
  column `x` and row `y` sits at index `x * 3 + y`, and the count of empty
  cells that `Search` and `Game` rely on.
- `Lines` (`lines.dfy`) holds the line scan `CheckLine` and the win check
  `CheckWin`. Both are pure functions, proved against a reference meaning
  of a win: a window of three equal pieces that covers the placed cell.
  The source writes the win check as four copied blocks (horizontal,
  vertical, diagonal, anti-diagonal). Here it is one recursion over the
  table `Order` of those four orientations, taken in the same order. Each
  orientation has a backward and a forward direction, and they are the
  source's.
- `Search` (`search.dfy`) holds `MiniMax` and `FindBestMove`, as methods
  that work in place on an array. They place a piece, recurse and write
  `Empty` back. They are proved to compute the specification function
  `Score` and to leave the array as they found it. `FindBestMove` is
  proved to return the first empty cell with the largest score, or -1
  exactly when the board is full.
- `Game` (`game.dfy`) is the application state as a class `App`. Its
  fields are the board array, the piece count, the side to move, the last
  win found and the end-of-game flag. Its methods are the player's
  placement, the computer's apply step, the reset between games and the
  end-of-game classification. Each one preserves the invariant `Valid()`:
  - the piece count matches the board;
  - crosses move on even counts;
  - a recorded win belongs to the side that moved last.

Behaviour of the code worth knowing:

- **Position of a reported win.** A reported win carries the placed
  cell, not one end of the run (`Lines.CheckWinReports`).
- **Win check on an empty cell.** The win check does not look at what
  the placed cell holds. On an all-empty board it reports a horizontal
  "win" for `Empty` (`Lines.EmptyBoardReportsWin`), not "no win". The
  program only asks about cells it has just filled.
- **Player's placement.** It puts whatever side is to move on the
  clicked cell. It does not check that the side to move is the player's.
- **Scoring.** Scores always count a circle win as +1 and any other win
  as -1, whatever piece `FindBestMove` is asked to place. The `depth`
  argument of the search is passed along and never read.

## Model

| member | source | states |
|---|---|---|
| Board.CellPos | main.cpp:342 | the position of a cell index is on the board, and `x * 3 + y` gives the index back |
| Board.EmptyBeforeMeans | main.cpp:393-401 | the scan for an empty cell finds one exactly when some cell before the bound is empty |
| Board.FullMeansNoEmpty | main.cpp:393-406 | a whole-board scan finds no empty cell exactly when the board is full, which is the case that scores 0 |
| Board.EmptyCountBounds | main.cpp:131 | the empty count is 0 exactly when the board is full and equals the size exactly when every cell is empty, which links the piece count to a full board |
| Board.EmptyCountUpdate | main.cpp:193-196 | writing one cell changes the empty count by exactly what the cell was and what it becomes |
| Board.PlaceDecreases | main.cpp:414-415 | putting a piece on an empty cell leaves one empty cell fewer, the measure on which the search terminates |
| Lines.CheckLine | main.cpp:330-337 | the run length is never negative and never exceeds the room left on the board along the direction, so the scan terminates |
| Lines.CheckLineRun | main.cpp:330-337 | every cell before the returned length is on the board and holds the expected piece, and the cell at that length is off the board or differs |
| Lines.ScanTotal | main.cpp:344-345 | the backward scan from the placed cell plus the forward scan from the next cell reach three exactly when a window of three equal pieces along that line covers the cell |
| Lines.RunThrough | main.cpp:344-345 | the two-scan run total for one orientation lies between 0 and the board width, because the backward and forward scans cover different cells of one line |
| Lines.TotalMeansLine | main.cpp:344-349 | an orientation's run total reaches three exactly when the placed piece lies on a winning window along it |
| Lines.CheckWin | main.cpp:339-377 | a reported win names the piece on the placed cell |
| Lines.CheckWinFromNone | main.cpp:339-377 | from any point of the orientation order on, the check reports nothing exactly when every remaining run total is short of three |
| Lines.CheckWinFromFirst | main.cpp:339-377 | from any point of the order on, a reported win is the first orientation whose total reaches three, with the placed cell and that orientation's backward direction |
| Lines.CheckWinReports | main.cpp:339-377 | no win exactly when all four run totals are short; otherwise the first reaching orientation in the order horizontal, vertical, diagonal, anti-diagonal is reported, with the placed cell and its backward direction |
| Lines.CheckWinFromFindsLine | main.cpp:339-377 | from any point of the order on, the check agrees with the first orientation that has a winning window through the cell |
| Lines.CheckWinFindsLine | main.cpp:339-377 | the check reports a win exactly when the placed piece lies on some winning window, and its direction is that of the first such orientation |
| Lines.EmptyBoardReportsWin | main.cpp:341-350 | on an all-empty board every cell reports a horizontal win for `Empty` at that cell |
| Search.Score | main.cpp:379-436 | the value of a position lies in -1..1 |
| Search.Reply | main.cpp:414-418 | the score of a piece played on an empty cell, with either side to move next, lies in -1..1 |
| Search.MaxChild | main.cpp:414-416 | the score of the computer playing an empty cell lies in -1..1 |
| Search.MinChild | main.cpp:428-430 | the score of the player playing an empty cell lies in -1..1 |
| Search.BestMax | main.cpp:408-422 | the running maximum is the sentinel -1000 exactly when no cell scanned is empty, and otherwise a score in -1..1 |
| Search.BestMaxBoundsCell | main.cpp:412-419 | once the loop has passed an empty cell, the running maximum is at least that cell's score |
| Search.BestMaxIsUpperBound | main.cpp:408-422 | the running maximum is at least the score of every empty cell scanned |
| Search.BestMaxIsAttained | main.cpp:408-422 | once off the sentinel, the running maximum equals the score of some empty cell scanned |
| Search.BestMin | main.cpp:424-435 | the running minimum is the sentinel 1000 exactly when no cell scanned is empty, and otherwise a score in -1..1 |
| Search.BestMinBoundsCell | main.cpp:426-433 | once the loop has passed an empty cell, the running minimum is at most that cell's score |
| Search.BestMinIsLowerBound | main.cpp:424-435 | the running minimum is at most the score of every empty cell scanned |
| Search.BestMinIsAttained | main.cpp:424-435 | once off the sentinel, the running minimum equals the score of some empty cell scanned |
| Search.HasEmpty | main.cpp:393-401 | the loop reports an empty cell exactly when the board has one |
| Search.MiniMax | main.cpp:379-436 | the array comes back unchanged and the result is the minimax value `Score` of the position |
| Search.TryMove | main.cpp:414-418 | one trial move restores the array and yields the score `Reply` of the piece played on that cell |
| Search.MaxOverMoves | main.cpp:408-422 | the maximising loop restores the array and yields the maximum over all empty cells |
| Search.MinOverMoves | main.cpp:424-435 | the minimising loop restores the array and yields the minimum over all empty cells |
| Search.FirstBest | main.cpp:438-459 | the chosen cell is -1 or an empty cell among those scanned |
| Search.FirstBestIsFirstMax | main.cpp:438-459 | the choice is -1 exactly when no scanned cell is empty; otherwise no empty cell scores more and every empty cell before it scores strictly less |
| Search.MoveScore | main.cpp:445-448 | the score the move search gives a piece on an empty cell lies in -1..1 |
| Search.ScoresUpToAt | main.cpp:443-456 | among the scores of the first cells, each empty cell's entry is the minimax score of the piece played there |
| Search.MoveScoresAt | main.cpp:445-448 | every empty cell's entry in the search's score table is the minimax score of the piece played there |
| Search.FirstBestMove | main.cpp:438-459 | over the search's own scores the choice is -1 exactly when the board is full, and otherwise the first empty cell with the largest score |
| Search.FindBestMove | main.cpp:438-459 | the loop returns -1 exactly when the board is full, and otherwise an empty cell that no empty cell beats and that every earlier empty cell scores strictly less than |
| Search.ImmediateWinMeansWinningChoice | main.cpp:438-459 | when the computer has a cell that wins at once, the move search chooses an empty cell whose score is 1 (a forced win), though not necessarily that cell |
| Search.WinningReplyScoresOne | main.cpp:408-422 | with the computer to move, a cell that wins on the spot makes the position worth 1 |
| Search.LosingReplyScoresMinusOne | main.cpp:424-435 | with the player to move, a cell that wins for the player on the spot makes the position worth -1 |
| Game.Toggle | main.cpp:214 | the next side is a real piece and differs from a real piece that just moved |
| Game.StartIsConsistent | main.cpp:312-319 | an empty board with no pieces counted, crosses to move and no win satisfies the invariant |
| Game.PlaceKeepsCounted | main.cpp:210-214 | putting the side to move on an empty cell and passing the turn keeps the count in step with the board |
| Game.App.constructor | main.cpp:67-75 | start-up leaves an empty board, no pieces, crosses to move, no win and a running game |
| Game.App.Reset | main.cpp:312-325 | reset empties every cell, zeroes the count, hands the move to crosses, clears the win and the end flag, and restores the invariant |
| Game.App.PutPiece | main.cpp:210-214 | the side to move takes the empty cell, the count goes up by one and the turn passes, nothing else changes |
| Game.App.RecordWin | main.cpp:215 | the recorded win is the win check on the cell just taken, and the invariant holds again |
| Game.App.PlacePlayer | main.cpp:210-215 | a placement happens exactly when the clicked cell is empty; it writes the side to move, counts it, passes the turn and records the win check on that cell; otherwise nothing changes; the invariant is kept |
| Game.App.ApplyComputerMove | main.cpp:190-199 | the move is applied exactly when it is not -1 and its cell is empty; it writes a circle, counts it, passes the turn and records the win check; otherwise nothing changes; the invariant is kept |
| Game.App.ComputerTurn | main.cpp:174-199 | the computer moves exactly when the board is not full, on the cell the move search chose, and the win check runs on that cell |
| Game.App.Classify | main.cpp:116-136 | a win is reported exactly when one is recorded; a draw exactly when none is and the count has reached the number of cells |
| Game.App.CheckGameEnd | main.cpp:116-136 | the outcome is the classification, and the game is marked ended exactly when it was already ended or the outcome is a win or a draw |
| Game.App.ClassifyMeans | main.cpp:116-136 | on a consistent state, a win names the side that moved last (a real piece), a draw is a full board with no win, and the game goes on exactly while no win is recorded and a cell is empty |

## Left out

- Rendering is not modelled: `DrawBoard`, `DrawBoardLines`, `HighlightSelected`, `DrawWinningLine`, sprites and colours. Only the data that `DrawWinningLine` receives is modelled.
- Mouse input and the pixel-to-cell mapping `WindowPosToBoardIdx` are left out. `Game.App.PlacePlayer` takes the cell index as a parameter and requires it to be on the board, because an out-of-range index makes the bounds-checked cell access throw.
- Timing is left out: the restart timer, the think-time accumulator and the asynchronous future.
- `Game.App.ComputerTurn` runs the search and applies its result in one step. In the program the search starts right after the player's placement, and its result is applied once the think time has passed and the future is ready. The board does not change in between, because only the computer's branch runs while circles are to move.
- Console output and the end-of-game message strings are left out. The classification keeps only the outcome: the winning piece, a draw, or a game still going.
- The start-of-game computer move in `Reset` is not modelled. It is unreachable, because the player moves first.
- The two-human mode (AI switched off) is not modelled as a separate mode. `Game.App.PlacePlayer` already places whichever side is to move.
- `Search.MiniMax`, `Search.TryMove`, `Search.MaxOverMoves`, `Search.MinOverMoves`: the `depth` parameter is carried along and never read, as in the source.
- Search results over a whole game are not proved. In particular, the claim that optimal play by both sides ends in a draw is not proved: it needs a proof over the full game tree.
- The computer does not always take an immediate win. Scores carry no depth discount, so every cell worth 1 ties, and the strict comparison at main.cpp:451 keeps the first of them. A cell that only sets up a double threat can come before the winning cell and be chosen instead. For example, with circles on 0 and 4 and crosses on 1, 5 and 7, cell 8 wins at once but cell 2 also scores 1, so cell 2 is chosen. What is proved instead is `Search.ImmediateWinMeansWinningChoice`: when some cell wins at once, the chosen cell scores 1.
- The claim that the computer blocks an immediate player win is not proved. It does not hold in general: when the player has two winning replies and the computer has no immediate win of its own, every move scores -1, and the first empty cell is chosen whether or not it blocks.
- `Lines.CheckLine` requires a non-zero direction. With a zero direction the source's recursion (main.cpp:336) never ends on a matching on-board cell. Every call site passes one of the four fixed non-zero directions.
- Integer width is not modelled. Scores stay in -1..1, the sentinels are ±1000 and counts never exceed 9, so no C++ `int` can overflow.
