# Competitive Sudoku agent: legal moves and alpha-beta search

A Dafny model of the move-proposal engine of the team10_A1 Sudoku agent. Two
players take turns filling an N x N board whose blocks have m rows and n
columns (N = m * n). The agent lists every legal placement and runs a
depth-5 minimax search with alpha-beta cutoffs to choose the move it proposes.

- `sudoku.dfy`, module `Sudoku`: the board (`m`, `n`, cells as a sequence of
  rows with 0 for an empty cell), `Move`, cell update `Put`, block geometry.
- `legal_moves.dfy`, module `LegalMoves`: the declarative rule `IsLegal`
  (empty cell, value 1..N, not taboo, value absent from block, column and
  row). `Enumerate` lists the legal moves as a function. `FindAllLegalMoves`
  is the enumerator as written: three nested loops, and per candidate the
  checks in the source's order (occupied cell, taboo, block scan, column scan
  outside the block, row scan outside the block). Module `LegalMovesExample`
  holds a 4 x 4 example.
- `search.dfy`, module `Search`: `AlphaBeta` (one node), `Explore` (a node's
  loop over its children), `Step` (one loop iteration) and `BestMove` (the
  root call made for each turn). Window ends are `Bound = NegInf | Fin | PosInf`.
  The evaluation function is a parameter `eval: Board -> int`.
- `search_properties.dfy`, module `SearchProperties`: what the search
  guarantees. Leaves, node scores with their tie-break, child boards, window
  movement and cutoffs.

The source's comments swap the words "row" and "column". The loop at
team10_A1/sudokuai.py:69-70 walks column j, and the loop at :78-79 walks
row i. The model names them by what they read.

Termination of the search holds by construction. `AlphaBeta` and `Explore`
decrease lexicographically on (depth, node/loop, remaining moves), and every
child is searched with `depth - 1`.

## Model

| member | source | states |
|---|---|---|
| LegalMoves.ValuesListing | team10_A1/sudokuai.py:36-45 | the candidates of cell (i, j) from value v up to N that pass the test are exactly the legal moves of that cell with value >= v, in strictly ascending value order |
| LegalMoves.CellsListing | team10_A1/sudokuai.py:34-84 | the moves gathered for row i from column j on are exactly the legal moves of that row in columns >= j, in row-major order |
| LegalMoves.RowsListing | team10_A1/sudokuai.py:33-84 | the moves gathered from row i on are exactly the legal moves in rows >= i, in row-major order |
| LegalMoves.Enumerate | team10_A1/sudokuai.py:33-86 | a move is listed if and only if it is legal (on the board, empty cell, value in 1..N, not taboo, value absent from block, column and row), and the list is strictly sorted by row, column, value, so no move appears twice |
| LegalMoves.EnumerateIsTheSortedListing | team10_A1/sudokuai.py:33-86 | any strictly row-major sequence holding exactly the legal moves equals the enumerator's list: it is the unique ordered listing, with each legal move once |
| LegalMoves.SortedListingUnique | team10_A1/sudokuai.py:33-84 | two strictly sorted move sequences with the same members are equal; a general fact about the row-major order of the loops, used by `EnumerateIsTheSortedListing` |
| LegalMoves.FullBoardHasNoMoves | team10_A1/sudokuai.py:39-40 | a board with no empty cell yields the empty list |
| LegalMoves.FindAllLegalMoves | team10_A1/sudokuai.py:21-86 | the triple loop over rows, columns and values 1..N returns exactly the legal moves, strictly sorted, equal to `Enumerate` |
| LegalMoves.LegalMovesOfRow | team10_A1/sudokuai.py:34-84 | the loop over the columns of row i appends, cell by cell, exactly the per-cell lists that `CellsListing` characterises |
| LegalMoves.LegalMovesOfCell | team10_A1/sudokuai.py:36-84 | the loop over values 1..N of cell (i, j) keeps exactly the candidates the source's checks accept, the list `ValuesListing` characterises |
| LegalMoves.CheckCandidate | team10_A1/sudokuai.py:39-84 | the source's chain of tests on one candidate (occupied, taboo, block, column outside block, row outside block) accepts it if and only if it is legal |
| LegalMoves.ScanBlock | team10_A1/sudokuai.py:49-66 | the scan over rows BlockTop(i)..+m and columns BlockLeft(j)..+n finds v if and only if v occurs in the block of (i, j) |
| LegalMoves.ScanColumnOutsideBlock | team10_A1/sudokuai.py:68-75 | the scan of column j over the rows outside the block, stopping at the first hit, finds v if and only if it occurs there |
| LegalMoves.ScanRowOutsideBlock | team10_A1/sudokuai.py:77-84 | the scan of row i over the columns outside the block, stopping at the first hit, finds v if and only if it occurs there |
| LegalMoves.ScansCoverLines | team10_A1/sudokuai.py:58-84 | block scan, column-outside-block scan and row-outside-block scan together detect v exactly when it occurs in the block, the column or the row |
| LegalMoves.BlockRectangle | team10_A1/sudokuai.py:49-63 | the ranges built from `i % m` and `j % n` lie on the board and cover exactly the cells of the block of (i, j) |
| Sudoku.BlockSpan | team10_A1/sudokuai.py:51-52 | a row lies in the range from `i - i % m` of length m if and only if it has the same block index `r / m` as i |
| Sudoku.BlockFits | team10_A1/sudokuai.py:51-61 | for i < m * n the block range ending at `i - i % m + m` stays inside the board |
| LegalMovesExample.ExampleCellFits | team10_A1/sudokuai.py:58-84 | on the 4 x 4 board with first row 1, _, _, 4, value v passes the block, column and row checks at cell (0, 1) exactly for v = 2 and 3 |
| LegalMovesExample.ExampleCellListed | team10_A1/sudokuai.py:39-84 | on the 4 x 4 board with first row 1, _, _, 4 the enumerator lists (0, 1, v) exactly for v = 2 or 3 not in the taboo set |
| LegalMovesExample.ExampleCellCandidates | team10_A1/sudokuai.py:33-86 | with no taboo moves the enumerator offers cell (0, 1) exactly the values 2 and 3; 1 and 4 are excluded by the row |
| LegalMovesExample.ExampleTabooCandidates | team10_A1/sudokuai.py:42-45 | once (0, 1, 2) is taboo the enumerator offers cell (0, 1) only the value 3 |
| Search.MaxBound | team10_A1/sudokuai.py:129-130 | the new alpha of a max node is one of the old alpha and the child's score and is at least both, i.e. their maximum |
| Search.Step | team10_A1/sudokuai.py:108-172 | one loop iteration records the child with the window it was searched with and always leaves a best child; at a max node beta is unchanged and alpha becomes exactly the larger of the old alpha and the child's score; at a min node alpha is unchanged |
| Search.Explore | team10_A1/sudokuai.py:116-133 | after the children loop a node with at least one move has a best child, and a best child taken during the loop reports one of the moves looped over |
| Search.AlphaBeta | team10_A1/sudokuai.py:95-185 | a non-root node reports the move that led to it; the root reports a move exactly when depth > 0 and a legal move exists, and that move is one the enumerator listed |
| Search.BestMove | team10_A1/sudokuai.py:188-197 | the proposed move is absent exactly when there is no legal move, and otherwise it is legal and not taboo |
| SearchProperties.TerminalNode | team10_A1/sudokuai.py:98-106 | at depth 0 or without legal moves a node reports its incoming move and the evaluation of its board |
| SearchProperties.StepKeepsBest | team10_A1/sudokuai.py:124-127 | one iteration keeps the running best equal to the last child with the best score (non-strict comparison: a later equal child wins) |
| SearchProperties.StepKeepsWindows | team10_A1/sudokuai.py:108-172 | one iteration keeps the window trace: open windows for later siblings, a max node's alpha equals the larger of its given alpha and the best score so far, min nodes set beta to the running minimum |
| SearchProperties.ExploreKeepsBest | team10_A1/sudokuai.py:116-133 | over the whole loop the running best stays the last best-scoring child visited |
| SearchProperties.ExploreStops | team10_A1/sudokuai.py:116-133 | the loop visits at most one child per move and at least one, starts with the node's window, and leaves moves unvisited only when beta <= alpha |
| SearchProperties.ExploreWindows | team10_A1/sudokuai.py:108-172 | over the whole loop the window trace is kept: every later sibling starts with an open window, a max node's alpha only rises and is the larger of its given alpha and the best score, a min node keeps beta at the running minimum |
| SearchProperties.ExploreVisitsChildren | team10_A1/sudokuai.py:116-123 | each visited child is the search of the parent board with only its own move written in, one level shallower, for the other side, with its recorded window, and reports its own move |
| SearchProperties.ExploreKeepsPrefix | team10_A1/sudokuai.py:155-162 | the children loop only appends visits |
| SearchProperties.NodeScore | team10_A1/sudokuai.py:108-185 | an inner node's score is the maximum (max side) or minimum (min side) of its visited children's scores, taken from the last child reaching it; the root returns that child's whole outcome |
| SearchProperties.NodeWindows | team10_A1/sudokuai.py:108-172 | an inner node's first child gets the node's window, every later child an open window; a max node ends with alpha equal to the larger of its given alpha and its best score; unvisited moves remain only after a cutoff |
| SearchProperties.NodeChildren | team10_A1/sudokuai.py:116-162 | the children are visited in enumeration order on copies of the parent board holding only their own legal move |
| SearchProperties.ExploreWithoutCutoff | team10_A1/sudokuai.py:116-133 | a max node whose beta is +inf and whose alpha is below +inf visits every remaining move: its loop never breaks |
| SearchProperties.RootVisitsEveryMove | team10_A1/sudokuai.py:188-197 | the root search of a turn, a max node with window (-inf, +inf), visits every legal move, and the proposed move is the one of the last child with the best score among all legal moves |
| SearchProperties.MinNodeBetaCanRise | team10_A1/sudokuai.py:167-169 | a min node given beta = 0 whose first child scores 5 continues with beta = 5: the min branch can raise beta |

## Left out

- The keep-alive loop of `compute_best_move` (team10_A1/sudokuai.py:199-201) re-proposes the same move every 0.2 s until the arbiter stops the process. It is timing and inter-process communication, and it never ends. `BestMove` models only the search and the first proposal.
- The body of `evaluation_function` (:90-92) returns a random integer in -5..5 and is a placeholder. The model takes an arbitrary `eval: Board -> int` as a parameter, so every property holds for any evaluation.
- `math.inf` floats (:110, :154, :195) become the `Bound` datatype for window ends. The running-best sentinel is `None`. Scores are integers, as `evaluation_function` returns `int`.
- The framework base class and the `competitive_sudoku` types `GameState`, `SudokuBoard`, `Move` and `TabooMove` (:8-18) are not part of this model. The board becomes a plain datatype with 0 for an empty cell. The game state is reduced to the board and a taboo set, since the move history is not read by the core. The source passes `N` separately, but `compute_best_move` always passes `board.N`, so the model uses the board's own `N`.
- Shared board without undo. The source writes each child's move into the single shared board (`put` at :119 and :158) and never clears it. Later siblings and deeper nodes therefore see the moves of earlier siblings, and the caller's board stays changed after the search. The model deliberately gives each child its own copy, `b.Put(i, j, v)`. The properties in `ExploreVisitsChildren` and `NodeChildren` describe this corrected behaviour, not the source's.
- Equivalence with plain minimax is not stated. The min branch (:168-169) sets `beta` to the child's score whenever the child becomes the running minimum, even above the beta the node was given. The max branch (:129-130) only raises alpha. The model keeps this literally (`WindowTrace`, `MinNodeBetaCanRise`) and proves no pruning-equivalence result.
- Tie-breaking: both the best-child test and the alpha test are non-strict (`>=` / `<=`), so among equally scored children the LAST visited one wins. The model follows the code.
- `if played_move:` (:139, :178) treats any `Move` object as true, which is what Python does for objects without `__bool__` or `__len__`. The model reads it as "a move was given".
- Cell values are not constrained to 0..N. The enumerator only compares them with the candidate value, so an out-of-range value never matches a candidate.
