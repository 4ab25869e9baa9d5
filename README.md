# Four in a row: board, rules, line heuristic and alpha-beta game tree

This project models the engine of a four-in-a-row (connect-four) game in Dafny and proves properties of that model. The engine has two parts.

- **The board and the game rules** (`four_in_a_row.py`).
  - The board is a 6 x 7 grid of cells. A cell is `'.'` (empty), `'#'` (player 0) or `'+'` (player 1), and row 0 is the top row.
  - A piece dropped into a column falls until it reaches the bottom row or rests on another piece.
  - The game keeps the index of the player to move. A move passes the turn only when the piece was placed.
  - `check_win` looks for four equal pieces in a row. It scans rows, then columns, then up-diagonals, then down-diagonals, and reports the kind of line and the cell where the first four begins.
- **The minimax tree** (`min_max_tree.py`).
  - `_analyze_line` is the line heuristic. It splits a line at the opponent's pieces, then scans windows of four cells from each chain start, and values the line by the longest chain of the player's pieces in such a window.
  - `_score` and `_static_eval` turn the line values into a static evaluation. A decided game is worth +5 or -5 and a tie 0. Otherwise the position is worth the difference of the two players' best line values.
  - `generate_tree` expands the tree to a given depth. It keeps existing children and adds one child per playable column that has none.
  - `minimax` runs alpha-beta search with a damping factor of 0.9 and records the value of every child it searches as that child's score.
  - `get_score` caches the root's value.

Modules, one file each:

| file | module | what it holds |
|---|---|---|
| `wrappers.dfy` | `Wrappers` | `Option` |
| `grid.dfy` | `Grids` | the grid, the players, the four line families, playable columns |
| `board.dfy` | `Boards` | gravity and dropping as functions, and the `Board` class with its in-place `InsertPiece` |
| `game.dfy` | `Games` | `check_win`, the game state and the `Game` class |
| `line_analysis.dfy` | `LineAnalysis` | `_analyze_line`: the corrected analysis, the analysis as written, the loop as a method |
| `line_windows.dfy` | `LineWindows` | what a line value means: the best window of four cells free of opponent pieces |
| `evaluation.dfy` | `Evaluation` | `_score` and `_static_eval` |
| `tree.dfy` | `GameTrees` | nodes, trees, `generate_tree` as a function `Expand` and as a method |
| `minimax.dfy` | `AlphaBeta` | `minimax` as a function `Search` and as a method with its loop; `get_score` |

Modelling choices:
- Scores are exact reals and the damping factor is exactly `0.9`. The infinite `alpha`/`beta` bounds are the datatype `Ext` (`NegInf | Fin(v) | PosInf`).
- The board and the game are classes whose fields the methods update, as in the source.
- Game trees are values: the datatype `Tree(node, children)`. `generate_tree`, `minimax` and `get_score` are methods that return the updated tree. Each is proved equal to a specification function (`Expand`, `Search`, `ScoreOf`), and the properties are proved about those functions.
- Five helpers are called by `min_max_tree.py` but their definitions are not part of this model. They are defined here from the pieces that are:
  - `Game.GameState` and `Game.get_state_static` become `Games.GameState` and `Games.StateOf`. Player 0 has won if `check_win(0)` finds four in a row; else player 1 has won if `check_win(1)` does. Otherwise the game is a tie when no column is playable, and in progress when one is.
  - `Board.get_valid_columns` is `Grids.ValidColumns`, which reads the top row as `Game.get_valid_columns` does.
  - `Board.gen_all_lines` is `Grids.AllLines`: the 6 rows, then the 7 columns, then the 12 up-diagonals, then the 12 down-diagonals.
  - `Board.__copy__` is `Boards.Board.Copy`: a new board holding the same cells.
- `_analyze_line` is modelled twice.
  - `AnalyzeLineAsWritten` follows the code as written, and the method `AnalyzeLineScan` runs the source's `while` loop and is proved equal to it.
  - `AnalyzeLine` is the corrected analysis (see "## Findings"). `LineWindows` gives it a meaning of its own: the number of the player's pieces in the best window of four cells that holds no opponent piece, that is, 4 minus the fewest pieces to add for four in a row, 0 when there is no room.
  - The score and the static evaluation take the analysis as a parameter (`Evaluation.Analysis`). The search passes `AsWritten`, as the program does. The facts about scores are proved for both analyses where they hold for both, and `Evaluation.ThreeMovesEval` shows a board where the two differ.
- Two behaviours of the code worth noting:
  - The line scan counts pieces in a window of four cells from each chain start and restarts two cells after that start. It does not track runs of empty cells before and after a chain.
  - A move into a finished game is not refused: `play` refuses only invalid or full columns.

## Model

| member | source | states |
|---|---|---|
| Grids.EmptyGrid | four_in_a_row.py:7-11 | a new board has every cell empty |
| Grids.UpFromLength | four_in_a_row.py:51-55 | the walk north-east from a cell stops at the top row or the right edge: min(row + 1, WIDTH - col) cells |
| Grids.UpFromAt | four_in_a_row.py:51-55 | the k-th cell of that walk is on the grid at (row - k, col + k) |
| Grids.DnFromLength | four_in_a_row.py:68-72 | the walk south-east from a cell stops at the bottom row or the right edge: min(HEIGHT - row, WIDTH - col) cells |
| Grids.DnFromAt | four_in_a_row.py:68-72 | the k-th cell of that walk is on the grid at (row + k, col + k) |
| Grids.UpDiagCell | four_in_a_row.py:41-55 | up-diagonal d starts at (d, 0) when d < HEIGHT, else at (HEIGHT-1, d-HEIGHT+1), steps (-1, +1), and has the stated length |
| Grids.DnDiagCell | four_in_a_row.py:58-72 | down-diagonal d starts at (HEIGHT-1-d, 0) when d < HEIGHT, else at (0, d-HEIGHT+1), steps (+1, +1), and has the stated length |
| Grids.DiagonalIndexRange | four_in_a_row.py:41-72 | a diagonal index yields cells exactly when it is below HEIGHT + WIDTH - 1 = 12, for both families |
| Grids.LineCell | four_in_a_row.py:33-72 | every line of every family is non-empty, and its k-th entry is the grid cell at its (row, column) |
| Grids.CellOnLine | four_in_a_row.py:33-72 | every grid cell lies on a line of each family, at a position that maps back to that cell |
| Grids.LineCellIndex | four_in_a_row.py:33-72 | conversely, each position on a line maps to a cell whose line and position are that line and position |
| Grids.RowLine | four_in_a_row.py:33-34 | `row_gen`: the cells of a row, left to right (definition; read through `Grids.LineCell`) |
| Grids.ColLine | four_in_a_row.py:37-38 | `col_gen`: the cells of a column, top to bottom (definition; read through `Grids.LineCell`) |
| Grids.UpDiagLine | four_in_a_row.py:41-55 | `up_diag_gen`: the walk north-east from the diagonal's start (definition; see `Grids.UpDiagCell`) |
| Grids.DnDiagLine | four_in_a_row.py:58-72 | `dn_diag_gen`: the walk south-east from the diagonal's start (definition; see `Grids.DnDiagCell`) |
| Grids.Line | four_in_a_row.py:33-72 | line i of a family, by the family's generator (definition; see `Grids.LineCell`) |
| Grids.AllLines | min_max_tree.py:174 | the lines scanned for a score number 6 + 7 + 12 + 12 = 38 |
| Grids.ValidFrom | four_in_a_row.py:174-177 | the playable columns from column c on: a column is listed exactly when it is at least c, on the board and its top cell is empty |
| Grids.ValidColumns | four_in_a_row.py:174-177 | a column is listed exactly when it is on the board and its top cell is empty |
| Grids.ValidColumnsAscending | four_in_a_row.py:174-177 | the playable columns come in strictly ascending order |
| Boards.StopRow | four_in_a_row.py:24-30 | a falling piece stops on the first row at or below its start that is the bottom row or has a piece below; every cell it passes is empty |
| Boards.DroppedChangesOneCell | four_in_a_row.py:24-30 | a drop writes the piece into exactly one cell of the column; that cell was empty and is on the bottom row or above a piece; all other cells keep their value |
| Boards.Dropped | four_in_a_row.py:16-30 | the grid after a drop into a column with room (definition; `Boards.DroppedChangesOneCell` states what it changes) |
| Boards.LandsInLowestEmptyCell | four_in_a_row.py:24-30 | on a board obeying gravity, the piece lands in the lowest empty cell of the column |
| Boards.DroppedKeepsGravity | four_in_a_row.py:16-30 | a drop keeps gravity, adds one piece to its column and leaves the piece count of every other column unchanged |
| Boards.Board.constructor | four_in_a_row.py:7-11 | the board holds the given rows, or an empty grid when none are given |
| Boards.Board.Reset | four_in_a_row.py:13-14 | resetting puts the board in the same state as a new board built from the same argument |
| Boards.Board.Copy | min_max_tree.py:56 | the copy is a new board with the same cells, so later drops into it do not touch the original |
| Boards.Board.InsertPiece | four_in_a_row.py:16-30 | a column off the board is refused as invalid and a column with a full top cell as full, both leaving the board unchanged; otherwise the piece is dropped and there is no error |
| Boards.FillBottomRow | tests/test_board.py:4-6 | on an empty board, one insertion into each column 0..6 succeeds every time; the bottom row is then full and every other row empty |
| Games.Find | four_in_a_row.py:144 | `str.find`: -1 when the pattern does not occur, else the first index where it occurs |
| Games.OccursFour | four_in_a_row.py:137-139 | the four-symbol pattern occurs at k exactly when the four cells from k hold the symbol |
| Games.MatchIsCell | four_in_a_row.py:141-169 | the coordinates returned for a match at position i of line d of a family are the grid cell of that position |
| Games.LineFour | four_in_a_row.py:137-169 | the pattern occurs on a grid line at k exactly when the four grid cells at positions k..k+3 hold the symbol |
| Games.OccurrenceIsFour | four_in_a_row.py:137-169 | an occurrence on a line is a four in a row on the grid, starting at the cell of its first position and stepping in the family's direction |
| Games.FourIsOccurrence | four_in_a_row.py:137-169 | conversely, every four in a row on the grid is an occurrence on the line of its family through its first cell |
| Games.ScanLinesNone | four_in_a_row.py:141-151 | a scan over lines finds nothing exactly when no line from its start holds four in a row |
| Games.ScanLinesWon | four_in_a_row.py:141-151 | a scan that finds a win reports the first line holding four and the first position on it, mapped to grid coordinates |
| Games.ScanFamilyWon | four_in_a_row.py:141-169 | a win reported for a family names a four in a row of that family, at the first occurrence on the first line that has one |
| Games.ScanFamilyNone | four_in_a_row.py:141-171 | a family reports no win exactly when none of its lines holds four in a row |
| Games.CheckWin | four_in_a_row.py:120-171 | `check_win`: rows, then columns, then up-diagonals, then down-diagonals, the first family with a win deciding (definition; its meaning is `Games.CheckWinSound`, `Games.CheckWinComplete` and `Games.CheckWinFirst`) |
| Games.CheckWinFamily | four_in_a_row.py:141-169 | the reported win is that of its family's scan, and every family scanned before it found nothing |
| Games.FamilyWonIsWon | four_in_a_row.py:141-169 | if any family has a win, `check_win` reports a win |
| Games.CheckWinSound | four_in_a_row.py:120-169 | a reported win names a kind and a cell from which four of the player's pieces run in that kind's direction |
| Games.CheckWinComplete | four_in_a_row.py:120-171 | `check_win` reports no win exactly when the player has no four in a row anywhere on the board |
| Games.CheckWinFirst | four_in_a_row.py:120-169 | the reported win is the first in scan order: no earlier family, no earlier line of its family and no earlier position on its line holds four |
| Games.StateOf | min_max_tree.py:27 | the state of a board: won by player 0, else by player 1, else a tie with no playable column, else in progress (definition; its meaning is `Games.StateOfMeaning`) |
| Games.StateOfMeaning | min_max_tree.py:27 | player 0 has won iff they have four in a row; player 1 has won iff they do and player 0 does not; a tie iff neither has four and every column is full; in progress iff neither has four and a column is playable |
| Games.Game.constructor | four_in_a_row.py:96-99 | player 0 moves first, on the given board or on a new empty board |
| Games.Game.Playing | four_in_a_row.py:101-103 | the piece of the player to move is a player's piece, not empty, and differs from the other player's |
| Games.Game.NotPlaying | four_in_a_row.py:105-107 | the other player's piece is a player's piece, not empty, and differs from the mover's |
| Games.Game.SwitchPlayer | four_in_a_row.py:109-110 | the player index flips between 0 and 1 and always changes; the board is the same object |
| Games.Game.Play | four_in_a_row.py:112-118 | the move succeeds exactly when the column is playable; then the mover's piece is dropped there and the turn passes; otherwise the board and the turn are unchanged |
| LineAnalysis.CountZero | min_max_tree.py:127 | `line.count(x)` is 0 exactly when x does not occur in the line |
| LineAnalysis.CountAll | min_max_tree.py:122 | the count of x equals the length exactly when every cell is x |
| LineAnalysis.CountAppend | min_max_tree.py:122 | counts add over concatenation |
| LineAnalysis.Split | min_max_tree.py:128 | `str.split(x)` gives one more segment than there are x's, no segment contains x, and no segment is longer than the line minus the x's |
| LineAnalysis.JoinSplit | min_max_tree.py:128 | joining the segments with x gives back the line |
| LineAnalysis.SplitJoin | min_max_tree.py:128 | splitting a join of x-free segments gives back those segments |
| LineAnalysis.SplitSegment | min_max_tree.py:128 | an x-free prefix followed by x is split off as the first segment |
| LineAnalysis.SplitNone | min_max_tree.py:128 | an x-free line splits into itself alone |
| LineAnalysis.RunAround | min_max_tree.py:125-130 | a piece of another kind breaks runs: a line glued around it holds four y's in a row iff one of the two sides does |
| LineAnalysis.RunInJoin | min_max_tree.py:125-130 | a join of segments holds four y's in a row iff one of the segments does |
| LineAnalysis.ChainsRange | min_max_tree.py:133-166 | every chain count recorded by the scan is between 1 and 4 |
| LineAnalysis.Chains | min_max_tree.py:133-166 | the chain values the scan records on an opponent-free line: from each of the player's pieces a window of up to four cells, resuming two cells later (definition; see `LineAnalysis.ChainsRange`, `ChainsSound`, `ChainsComplete`) |
| LineAnalysis.CountAtMostOne | min_max_tree.py:122 | a piece that never occurs after another of its kind occurs at most once |
| LineAnalysis.ChainsSound | min_max_tree.py:133-166 | a recorded chain of 4 means the line holds four of the player's pieces in a row |
| LineAnalysis.ChainsComplete | min_max_tree.py:133-166 | four of the player's pieces in a row anywhere after the scan's start make it record a chain of 4 |
| LineAnalysis.MaxOf | min_max_tree.py:130 | `max` of a non-empty sequence is one of its elements and at least every element |
| LineAnalysis.MaxOr0 | min_max_tree.py:166 | `max(counts) if counts else 0`: 0 for no chains, else the largest chain |
| LineAnalysis.AnalyzeLine | min_max_tree.py:115-166 | the corrected value of a line lies in 0..4; its meaning, 4 minus the fewest pieces to add, is `LineWindows.AnalyzeLineBestWindow` |
| LineAnalysis.AnalyzeLineAsWritten | min_max_tree.py:115-166 | the value of a line as the code is written lies in 0..4 |
| LineAnalysis.OutOfReach | min_max_tree.py:121-123 | a line shorter than 4, or with fewer than 4 empty-or-own cells, is worth 0 |
| LineAnalysis.SplitValue | min_max_tree.py:125-130 | a line holding an opponent piece is worth the best of its segments between opponent pieces, also when four is out of reach on it |
| LineAnalysis.AnalyzeOneOpponent | min_max_tree.py:125-130 | a line with a single opponent piece is worth the larger of the values of the two sides |
| LineAnalysis.NotHopelessGlued | min_max_tree.py:121-123 | two opponent-free sides of 4 or more cells in all, glued around one opponent piece, pass the early-exit test |
| LineAnalysis.AnalyzeOpenLine | min_max_tree.py:132-166 | an opponent-free line of 4 or more cells is worth its longest chain |
| LineAnalysis.AnalyzeLineFour | min_max_tree.py:115-166 | a line is worth 4 exactly when it holds four of the player's pieces in a row |
| LineAnalysis.SplitLineFour | min_max_tree.py:125-130 | a line split at opponent pieces is worth 4 exactly when it holds four of the player's pieces in a row |
| LineAnalysis.AnalyzeLineAtMostPieces | min_max_tree.py:133-166 | a line is never worth more than the number of the player's pieces on it, both as written and corrected |
| LineAnalysis.AsWrittenNoMore | min_max_tree.py:143-147 | the analysis as written never values a line above the corrected analysis |
| LineAnalysis.AsWrittenMissesLeadingFour | min_max_tree.py:143-147 | an opponent-free line starting with four of the player's pieces is worth 0 as written and 4 corrected |
| LineAnalysis.AsWrittenMissesFour | min_max_tree.py:147 | the line `####...` holds four of player 0's pieces in a row, yet is worth 0 to them as written (4 corrected) |
| LineAnalysis.AnalyzeLineScan | min_max_tree.py:115-166 | the source's recursion and `while` loop compute the analysis as written |
| LineAnalysis.ScanSegments | min_max_tree.py:127-130 | the recursion over the segments returns the largest of their values as written |
| LineAnalysis.ScanChains | min_max_tree.py:133-166 | the `while` loop records the chains of the scan when the first cell is not the player's, and none when it is |
| LineAnalysis.LineExample1 | tests/test_static_analysis.py:6 | `'.......'` is worth 0 to player 0, both as written and corrected |
| LineAnalysis.LineExample2 | tests/test_static_analysis.py:7 | `'....#..'` is worth 1 to player 0, both as written and corrected |
| LineAnalysis.LineExample3 | tests/test_static_analysis.py:8 | `'..##...'` is worth 2 to player 0, both as written and corrected |
| LineAnalysis.LineExample4 | tests/test_static_analysis.py:9 | `'..#+...'` is worth 0 to player 0, both as written and corrected |
| LineAnalysis.LineExample5 | tests/test_static_analysis.py:10 | `'.##.#..'` is worth 3 to player 0, both as written and corrected |
| LineAnalysis.LineExample6 | tests/test_static_analysis.py:11 | `'.##..#.'` is worth 2 to player 0, both as written and corrected |
| LineAnalysis.LineExample7 | tests/test_static_analysis.py:12 | `'.#.#.+.'` is worth 2 to player 0, both as written and corrected |
| LineAnalysis.LineExample8 | tests/test_static_analysis.py:13 | `'.#.#.#+'` is worth 2 to player 0, both as written and corrected |
| LineWindows.OnBoard | min_max_tree.py:115-119 | every cell of the line is empty or a piece of one of the players (definition) |
| LineWindows.OpenWindow | min_max_tree.py:117-119 | four consecutive cells of the line with no opponent piece among them (definition) |
| LineWindows.WindowCount | min_max_tree.py:117-119 | the player's pieces in a window of four cells (definition) |
| LineWindows.BestWindow | min_max_tree.py:117-119 | the best count of an open window, 0 if there is none (definition; see `BestWindowMeaning`) |
| LineWindows.BestWindowFromMeaning | min_max_tree.py:117-119 | the best window from a position on is at least every open window from there, and is 0 or the count of one of them |
| LineWindows.BestWindowMeaning | min_max_tree.py:117-119 | the best window is at least every open window of the line, and is 0 or the count of one of them |
| LineWindows.WindowNeeds | min_max_tree.py:117-119 | on a line of the board, the empty cells of an open window number 4 minus the player's pieces in it: the pieces still to add |
| LineWindows.WindowAtMost | min_max_tree.py:121-123 | a window holds no more of a symbol than the whole line |
| LineWindows.HopelessNoWindow | min_max_tree.py:121-123 | when the early-exit test finds four out of reach, no window is open |
| LineWindows.WindowsAround | min_max_tree.py:125-130 | an opponent piece between two sides closes every window over it: the best window is the better of the two sides |
| LineWindows.AroundBelowSides | min_max_tree.py:125-130 | the best window around an opponent piece is at most that of one of the sides |
| LineWindows.LeftSideBelow | min_max_tree.py:125-130 | every open window of the left side is one around the opponent piece |
| LineWindows.RightSideBelow | min_max_tree.py:125-130 | every open window of the right side is one around the opponent piece |
| LineWindows.GlueClosesWindows | min_max_tree.py:125-130 | an open window lies wholly before or wholly after the opponent piece |
| LineWindows.WindowsInJoin | min_max_tree.py:125-130 | segments joined by opponent pieces have as best window the largest best window of a segment |
| LineWindows.MaxOfCons | min_max_tree.py:130 | the largest element of `[v] + t` is the larger of `v` and the largest of `t` |
| LineWindows.CountRangeSlice | min_max_tree.py:143-147 | counting the cells from `lo` to `hi - 1` of the scan is counting the slice |
| LineWindows.CountRangeSplit | min_max_tree.py:143-147 | the count over a stretch of cells splits at any point inside it |
| LineWindows.ChainsBelow | min_max_tree.py:133-166 | every chain the scan records is bounded by any bound on the stretches of up to four cells |
| LineWindows.ChainsCover | min_max_tree.py:133-166 | the player's pieces in any stretch of up to four cells are matched by a recorded chain at least as large, unless there are none |
| LineWindows.StretchesBelowBest | min_max_tree.py:133-166 | on an opponent-free line of 4 or more cells, no stretch a chain covers beats the best window |
| LineWindows.OpenLineWindows | min_max_tree.py:132-166 | on an opponent-free line of 4 or more cells, the longest chain is the best window |
| LineWindows.SegmentsOnBoard | min_max_tree.py:125-127 | the segments of a line of the board between opponent pieces are lines of the board |
| LineWindows.AnalyzeLineBestWindow | min_max_tree.py:115-166 | on a line of the board, the corrected value is the best window, 4 minus the fewest pieces to add for four in a row and 0 when there is no room; the value as written never exceeds it |
| Evaluation.AllLinesAt | min_max_tree.py:174 | line d of each family is entry d after the families listed before it |
| Evaluation.AllLinesCover | min_max_tree.py:174 | every scanned line is a line of some family |
| Evaluation.LineValue | min_max_tree.py:174 | the value `_score` takes of each line, by the analysis as written or the corrected one, lies in 0..4 |
| Evaluation.LineScores | min_max_tree.py:174 | the generator of line values: one value per line, in the order of the lines (definition) |
| Evaluation.Score | min_max_tree.py:168-175 | `_score(player)`: the `max` of the line values over all 38 lines (definition; its properties are the lemmas below) |
| Evaluation.ScoreIsBestLine | min_max_tree.py:168-175 | under either analysis, a player's score lies in 0..4, is at least the value of every line and is the value of one of them |
| Evaluation.LineFourIsFour | min_max_tree.py:168-175 | a line worth 4 under either analysis means four of the player's pieces in a row on the board |
| Evaluation.ScoreFour | min_max_tree.py:168-175 | corrected, a player scores 4 exactly when they have four in a row on the board; as written, a score of 4 still means four in a row |
| Evaluation.ScoreAsWrittenNoMore | min_max_tree.py:168-175 | the score as written never exceeds the corrected score |
| Evaluation.ScoreFacts | min_max_tree.py:168-175 | under either analysis, both players' scores lie in 0..4 |
| Evaluation.StaticEval | min_max_tree.py:102-113 | under either analysis, the static evaluation lies in -5..5 |
| Evaluation.StaticEvalMeaning | min_max_tree.py:102-113 | under either analysis, on the grid's own state the evaluation is 5 iff player 0 has four in a row and -5 iff only player 1 has; a tie is 0; a game in progress is the score difference and lies in -3..3 |
| Evaluation.ThreeMovesPlayed | four_in_a_row.py:16-30 | the board after the moves 1, 1, 0 from the empty board has `#` in the two left cells of the bottom row and `+` above column 1 |
| Evaluation.FirstMove | four_in_a_row.py:16-30 | player 0's piece dropped into column 1 of the empty board lands on the bottom row |
| Evaluation.SecondMove | four_in_a_row.py:16-30 | player 1's piece dropped into column 1 then lands on top of it |
| Evaluation.ThirdMove | four_in_a_row.py:16-30 | player 0's piece dropped into column 0 then lands on the bottom row |
| Evaluation.FirstPiecesOnLine | min_max_tree.py:174 | on that board, every line but the bottom row holds at most one `#` |
| Evaluation.SecondPiecesOnLine | min_max_tree.py:174 | on that board, every line holds at most one `+` |
| Evaluation.ThreeMovesLines | four_in_a_row.py:33-38 | on that board, the bottom row reads `##.....`, the row above `.+.....` and column 0 `.....#` |
| Evaluation.BottomRowValue | min_max_tree.py:143-147 | `##.....` is worth 0 to player 0 as written and 2 corrected |
| Evaluation.FirstColumnValue | min_max_tree.py:115-166 | `.....#` is worth 1 to player 0 as written |
| Evaluation.SecondRowValue | min_max_tree.py:115-166 | `.+.....` is worth 1 to player 1 under either analysis |
| Evaluation.FirstLineAtMost | min_max_tree.py:168-175 | on that board, no line is worth more than 1 to player 0 as written, or more than 2 corrected |
| Evaluation.SecondLineAtMost | min_max_tree.py:168-175 | on that board, no line is worth more than 1 to player 1 |
| Evaluation.FirstScores | min_max_tree.py:168-175 | on that board player 0 scores 1 as written and 2 corrected |
| Evaluation.SecondScores | min_max_tree.py:168-175 | on that board player 1 scores 1 under either analysis |
| Evaluation.ThreeMovesEval | min_max_tree.py:102-113 | after the moves 1, 1, 0 the game is in progress and the static evaluation is 0 as written, though player 0's two adjacent bottom pieces make it 1 corrected |
| GameTrees.NewTree | min_max_tree.py:26-36 | a new tree is well formed: its game state is that of its board, and it has no children yet |
| GameTrees.Maximizing | min_max_tree.py:16-19 | the first player maximizes, the second minimizes (definition) |
| GameTrees.ChildExists | min_max_tree.py:38-39 | `child_already_exists`: some child was reached by the given column (definition; see `GameTrees.ChildExistsGrows`) |
| GameTrees.ChildFor | min_max_tree.py:56-59 | the new child for a column: a copy of the board with the mover's piece dropped there and the other player to move (definition; see `GameTrees.ChildForFacts`) |
| GameTrees.AddMissing | min_max_tree.py:53-60 | the first loop of `generate_tree`: one child appended per listed column that has none (definition; see the `AddMissing` lemmas) |
| GameTrees.Expand | min_max_tree.py:41-64 | expansion keeps the node's board, state, move and player, and never drops a child |
| GameTrees.ExpandStops | min_max_tree.py:45-47 | at depth 0 or below, or on a decided game, expansion changes nothing, so finished games never gain children |
| GameTrees.ExpandStep | min_max_tree.py:49-64 | otherwise the score is cleared and each child, old or added, is expanded one level less |
| GameTrees.ExpandChildren | min_max_tree.py:49-64 | existing children are kept first and in order; each added child is the child for a playable column that had none; the children's moves are exactly the playable columns |
| GameTrees.ChildForFacts | min_max_tree.py:56-59 | a new child carries its column as its move, follows from its parent by that drop with the turn passed, and has no children and no score |
| GameTrees.ChildExistsGrows | min_max_tree.py:38-39 | a column represented among the children stays represented when children are appended |
| GameTrees.AddMissingKeeps | min_max_tree.py:53-60 | adding children keeps the existing ones as a prefix |
| GameTrees.AddMissingCovers | min_max_tree.py:53-60 | after adding, every listed column has a child |
| GameTrees.AddMissingNew | min_max_tree.py:53-60 | every added child is the child for a listed column that had none |
| GameTrees.AddMissingStep | min_max_tree.py:53-60 | a column that has a child is skipped; one that has none gets a new child appended |
| GameTrees.AddMissingNone | min_max_tree.py:53-55 | when every column already has a child, nothing is added |
| GameTrees.AddMissingWellFormed | min_max_tree.py:53-60 | adding children keeps every child a successor of the node and keeps the children's moves distinct |
| GameTrees.ExpandWellFormed | min_max_tree.py:41-64 | expansion keeps the tree well formed: every child follows from its parent by one drop and no two siblings share a move |
| GameTrees.ExpandAllWellFormed | min_max_tree.py:62-64 | expanding each of a list of well-formed trees keeps each well formed |
| GameTrees.ExpandedWellFormed | min_max_tree.py:49-64 | expanding a game in progress by at least one level gives a well-formed tree |
| GameTrees.ExpandedChildOf | min_max_tree.py:56-59 | every child of an expanded node follows from that node by one drop |
| GameTrees.ExpandComplete | min_max_tree.py:41-64 | after expansion, every node in progress less than `depth` levels down has one child per playable column |
| GameTrees.ExpandAllComplete | min_max_tree.py:62-64 | expanding each of a list of trees makes each complete to that depth |
| GameTrees.ExpandedComplete | min_max_tree.py:49-64 | expanding a game in progress by at least one level makes it complete to that depth |
| GameTrees.ExpandIdempotent | min_max_tree.py:41-64 | expanding twice to the same depth is the same as expanding once |
| GameTrees.ExpandAllIdempotent | min_max_tree.py:62-64 | the same for each of a list of trees |
| GameTrees.ExpandedIdempotent | min_max_tree.py:49-64 | the same for a game in progress expanded by at least one level |
| GameTrees.GenerateTree | min_max_tree.py:41-64 | the method with the source's two loops builds the expanded tree |
| GameTrees.AddChildren | min_max_tree.py:53-60 | the loop over playable columns appends exactly the missing children |
| GameTrees.GenerateChildren | min_max_tree.py:62-64 | the loop over children expands each one level less |
| AlphaBeta.Max | min_max_tree.py:82-95 | `max` over extended reals is one of its arguments and at least both |
| AlphaBeta.Min | min_max_tree.py:82-95 | `min` over extended reals is one of its arguments and at most both |
| AlphaBeta.Static | min_max_tree.py:76-77 | a leaf's static value lies in -5..5 |
| AlphaBeta.Scored | min_max_tree.py:87 | a child with the value of its search recorded as its score (definition; see `AlphaBeta.SearchedIntro`) |
| AlphaBeta.Search | min_max_tree.py:72-100 | every `minimax` value lies in -5..5, and the returned tree has the same node and number of children |
| AlphaBeta.Loop | min_max_tree.py:85-98 | the loop over children finishes with a finite best value in -5..5 once a child is searched, and stops after at least one child and at most all of them |
| AlphaBeta.LoopStep | min_max_tree.py:85-98 | one turn of the loop records the child's value, updates the best value and the mover's bound, and stops exactly when beta <= alpha |
| AlphaBeta.SearchedIntro | min_max_tree.py:86-87 | a child's recorded score is the value its own search returned |
| AlphaBeta.LoopKeeps | min_max_tree.py:85-98 | children before the loop's start and from its stopping point on are left unchanged |
| AlphaBeta.LoopRecords | min_max_tree.py:86-87 | every child the loop searched has its search's value recorded as its score |
| AlphaBeta.LoopBest | min_max_tree.py:82-98 | the best value is at least as good for the mover as every recorded child score, and is the starting value or one of them |
| AlphaBeta.LoopCuts | min_max_tree.py:91-98 | the loop stops early only when beta <= alpha holds for the best value, and no earlier child's value met that condition |
| AlphaBeta.Visited | min_max_tree.py:85-98 | the number of children searched is at least 1 and at most all of them |
| AlphaBeta.SearchVisits | min_max_tree.py:85-98 | the children searched have their search value as score; the children after the cut-off keep their old state |
| AlphaBeta.SearchBest | min_max_tree.py:82-100 | an inner node's value is 0.9 times a value at least as good for the mover as every searched child's score |
| AlphaBeta.SearchAttained | min_max_tree.py:82-100 | an inner node's value is 0.9 times one searched child's score, and so lies in -4.5..4.5 |
| AlphaBeta.SearchStops | min_max_tree.py:96-98 | the search stops before the last child only when beta <= alpha holds for the best value, and not at any earlier child |
| AlphaBeta.FullWindow | min_max_tree.py:66-98 | in the window from minus to plus infinity, the root's loop searches every child |
| AlphaBeta.LeafValue | min_max_tree.py:75-113 | a leaf is worth its static evaluation and is left unchanged; its value is 5 iff player 0 has four in a row and -5 iff only player 1 has |
| AlphaBeta.TwoPly | min_max_tree.py:66-100 | on a node whose children are all leaves, searched in the full window, every child gets its static evaluation as score, and the value is 0.9 times the best of them for the mover |
| AlphaBeta.Minimax | min_max_tree.py:72-100 | the method with the source's loop and early exit computes the search's value and tree |
| AlphaBeta.MinimaxLoop | min_max_tree.py:82-98 | the loop, started from the worst value for the mover, leaves a finite best value and the children as the loop function does |
| AlphaBeta.SearchChild | min_max_tree.py:86-98 | one turn of the loop in the method matches one step of the loop function, and reports the cut-off when beta <= alpha |
| AlphaBeta.ScoreOf | min_max_tree.py:66-70 | `get_score` records its result as the node's score; a cached score is returned with the tree unchanged; otherwise the node's other fields are kept, its score becomes the value of the search in the full window, in -5..5, and its children are the children that search leaves |
| AlphaBeta.ScoreOfRecords | min_max_tree.py:66-87 | a `get_score` that searches keeps the number of children and leaves every child with a score: the value of a search of that same child |
| AlphaBeta.GetScore | min_max_tree.py:66-70 | the method returns the cached score or runs the search in the full window and caches the result |
| AlphaBeta.GetScoreCached | min_max_tree.py:66-70 | a second `get_score` returns the same value and changes nothing |

## Left out

- The user interfaces (`main.py`, `gui.py`), `Board.__str__` and `Game.__str__`, and both `__main__` blocks are input, output and drawing. They are not modelled.
- The move selector in `fiar_min_max.py` is a placeholder that returns the first valid column. It is not modelled, and neither is its test, which expects a move the placeholder cannot produce. The random tie-break between equally good moves and the parallel evaluation of children are not part of this model.
- The timing test `tests/test_time_gen_tree.py` measures wall-clock time. It is not modelled.
- The `_score` fixtures of `tests/test_static_analysis.py:16-51` are not stated. Each would need the value of all 38 lines of a crowded literal board for both players. The line fixtures (lines 6-13) are stated instead, and one small board, the one after the moves 1, 1, 0, is evaluated in full by `Evaluation.ThreeMovesEval`.
- Evaluation.ScoreFour: for the analysis as written only one direction is stated (a score of 4 means four in a row). The other direction fails, because a line starting with four of the player's pieces is worth 0 as written (`LineAnalysis.AsWrittenMissesFour`).
- Games.Game.Play: the error message printed on a refused move (`four_in_a_row.py:115-116`) is left out; the error is returned as a value and the state is unchanged.
- Boards.Board.InsertPiece: a column is an integer, so non-integer arguments such as `0.5` (`tests/test_board.py:13`) cannot be passed; errors are returned as values instead of raised.
- Boards.Board.constructor: requires the rows to be empty or a 6 x 7 grid. The source stores any list and fails only later when the list is malformed.
- Boards.Board.Reset: requires the same of its argument as the constructor.
- Floating point is replaced by exact reals. The factor 0.9 is exact, and `-inf`/`inf` are the `NegInf`/`PosInf` cases of `Ext`.
- Game trees are values, not objects shared by reference. `GenerateTree`, `Minimax` and `GetScore` return the new tree instead of updating nodes in place, so aliasing between nodes is not captured. The score written into a child by `minimax` and the one written by `generate_tree` appear as fields of the returned tree.
- `Node.alpha` and `Node.beta` (`min_max_tree.py:14`) are never read or written by the core. They are not modelled.
- AlphaBeta.Search: no lemma says that the pruned search equals the unpruned damped minimax. The bounds passed to a child are compared with its undamped best value, while the parent compares damped values, so that equality does not hold in general.
- LineAnalysis.ScanSegments: takes a ghost bound on the segment lengths. It serves only as the termination measure of the recursion.

## Findings

| source | as written | input that shows it | evidently intended | confidence | as-written member | corrected member |
|---|---|---|---|---|---|---|
| min_max_tree.py:147 | `if started:` tests the start index for truth, so a chain starting at index 0 of a segment is treated as not started. `started` is then never reset, so that segment records no chain at all. | the line `####...` for player 0 is worth 0, though it holds four of the player's pieces in a row | `if started is not None:`, so that the line is worth 4 | high, not executed | LineAnalysis.AsWrittenMissesFour | LineAnalysis.AnalyzeLineFour |
