# Checkers rules engine and alpha-beta search, in Dafny

This project models the core of a two-player checkers engine.

The first part is the game board, `GameBoard` in `src/game/board.py`. It holds:
- an 8×8 grid of cells, each empty, a player man `B` or a computer man `C`;
- whose turn it is;
- a piece counter and a capture score for each side;
- the selected piece.

Its methods set up the starting position and check move legality. They carry out moves with captures, generate all legal moves of one side, and evaluate a position statically. They also count men, read and replace the grid, write the debugging text and copy the board.

The second part is the computer's search, `SearchToolBox.minimax` in `examples/original_checker_code.py`. It is a depth-limited, fail-soft minimax search with alpha-beta pruning. It expands the boards `get_valid_moves` builds and records in a statistics dictionary how many children it expanded and how many cutoffs it made.

The model has three layers:

- **Values.** `BoardRules` models the board's fields as one `Board` datatype and each rule as a function on it. `MoveGeneration` models `get_valid_moves` as the function `ValidMoves`. `BoardText` models `__str__` as `Render`, together with a reader `Parse` for that text.
- **Objects.** `GameBoards.GameBoard` is a class with the same fields, updated in place. It has the same methods, with the same loops. `Value()` reads all fields as one `Board`, and every method is proved against the value layer: `MovePiece` performs `ApplyMove`, `GetValidMoves` returns fresh boards in the order `ValidMoves` lists, and `ToString` returns `Render`.
- **Search.** `SearchSpec` unfolds the positions the recursion can reach into a game tree (`GameTree`). On that tree it defines plain minimax (`Minimax`, the reference) and the pruning search exactly as the program runs it (`AlphaBeta`), including the move it picks and both statistics counters. `SearchToolBox.Minimax` is the recursive method over `GameBoard` objects and a `Stats` object. Its loop and `break` are proved to return what `AlphaBeta` gives and to increase the counters by what `AlphaBeta` counts. `SearchProperties`, `SearchRoot` and `SearchCounts` prove what the search promises:
  - a fail-soft bound against plain minimax, for every window;
  - the exact value and the first best move at the top-level call;
  - bounds on the counters.

Integers are unbounded in the model, as they are in Python. The values `-math.inf` and `math.inf` are modelled by `ExtInts.ExtInt`.

Three behaviours of the code are easy to misread:

- The starting position evaluates to 20. The computer's men score 52 and the player's men score 32, so the heuristic is not symmetric (`BoardProperties.InitialBoardEvaluation`).
- At an inner node with no legal moves, the search returns `-inf` (maximizing) or `+inf` (minimizing) with no move. It does not fall back to the static evaluation (`SearchCounts.SearchBaseCases`).
- The top-level call returns no move exactly when every child is worth `-inf`, which includes the case of no children (`SearchRoot.RootSearch`).

## Model

| member | source | states |
|---|---|---|
| GameBoards.GameBoard.constructor | src/game/board.py:20-30 | The new board is the starting position: every field of `InitialBoard`, that is an empty grid with the computer's men placed and then the player's, the player to move, twelve men a side and no points. |
| BoardProperties.PlaceMenGivesInitialGrid | src/game/board.py:29-44 | Placing the computer's men on rows 0-2 and then the player's men on rows 5-7 of an empty grid gives the grid with a man exactly on each dark square of those rows. |
| BoardProperties.InitialBoardCounts | src/game/board.py:20-30 | The starting board has twelve men of each colour on the grid, matching its counters. It is the player's turn, nobody has points, and the game is not over. |
| BoardProperties.InitialCountPieces | src/game/board.py:207-216 | `count_pieces` on the starting grid is `(12, 12)`. |
| BoardProperties.InitialPlayerRows | src/game/board.py:39-44 | Rows 0 to n-1 of the starting grid hold no player man up to row 4, then four men per row of rows 5-7. |
| BoardProperties.InitialComputerRows | src/game/board.py:32-37 | Rows 0 to n-1 of the starting grid hold four computer men per row of rows 0-2 and none after. |
| BoardProperties.InitialBoardEvaluation | src/game/board.py:176-187 | On the starting grid the computer's positional score is 52, the player's is 32, so `evaluate_board` gives 20. |
| GameBoards.GameBoard.PositionComputer | src/game/board.py:32-37 | Only the grid changes: a `C` man is placed on every square of rows 0-2 whose coordinates add up to an odd number. Every other square and field is unchanged. |
| GameBoards.GameBoard.PositionPlayer | src/game/board.py:39-44 | Only the grid changes: a `B` man is placed on every odd square of rows 5-7. Every other square and field is unchanged. |
| GameBoards.GameBoard.PlaceRows | src/game/board.py:34-37 | The nested loop over rows `lo..hi-1` and all columns places `piece` exactly on the odd squares of those rows and changes nothing else. |
| BoardProperties.IsValidMoveIff | src/game/board.py:46-81 | `is_valid_move` holds exactly when all of these hold: the destination is on the board; a `B` man moves to a lower row and a `C` man to a higher one; the destination is empty; the move is one diagonal step, or a two-square diagonal jump over a man of the other colour. |
| BoardRules.IsValidMove | src/game/board.py:46-81 | The cascade of `is_valid_move` in the same order. The destination must be on the board; a `B` man may not move to a row that is not lower, nor a `C` man to a row that is not higher; a step onto an empty square is valid; a jump needs an empty destination and a man of the other colour on the midpoint. |
| BoardProperties.LegalMoveShape | src/game/board.py:59-79 | A legal move lands on the board and is a step or a jump. A jump's midpoint is on the board and differs from both its ends. |
| GameBoards.GameBoard.MovePiece | src/game/board.py:83-123 | It returns `true` exactly when `is_valid_move` accepts the move, and then the board becomes `ApplyMove` of the old board. Otherwise it returns `false` and the board is unchanged. |
| BoardRules.ApplyMove | src/game/board.py:96-121 | What `move_piece` does to the board after a move passes `is_valid_move`. The man moves, the source is cleared and a jumped man is removed. The capture is credited to the side whose turn it was, and the turn passes. |
| BoardProperties.ApplyMoveEffect | src/game/board.py:96-119 | After a legal move the destination holds the moved man, the source is empty and, for a jump, the jumped square is empty. All other squares and the selected piece keep their values, and the turn passes. |
| BoardProperties.ApplyMoveCounters | src/game/board.py:103-113 | A jump on the player's turn takes one from the computer's counter and gives the player a point; on the computer's turn it does the reverse. A step changes no counter or score. |
| BoardProperties.ApplyMoveMen | src/game/board.py:100-106 | A legal move keeps the number of men of each colour on the grid, except that a jump over a man of that colour removes exactly one. |
| BoardProperties.ApplyMoveKeepsCounters | src/game/board.py:96-123 | When the moving man belongs to the side whose turn it is, a legal move keeps both piece counters equal to what `count_pieces` finds on the grid. |
| BoardProperties.GridSumSetCell | src/game/board.py:183-186 | Overwriting one square changes a grid sum (a positional score or a man count) by that square's old and new terms only. |
| BoardRules.Evaluate | src/game/board.py:176-187 | The computer's positional subtotal minus the player's. A `B` man on `(x, y)` adds `7 - x` on an even column and `x` on an odd one; a `C` man adds `x` on an even column and `7 - x` on an odd one. |
| GameBoards.GameBoard.EvaluateBoard | src/game/board.py:176-187 | `evaluate_board` on the board's own grid. |
| BoardProperties.EvaluateBounds | src/game/board.py:176-187 | Each man adds between 0 and 7 to its side's positional score. So `evaluate_board` lies between −7 times the player's men and 7 times the computer's men. |
| GameBoards.GameBoard.GetValidMoves | src/game/board.py:125-159 | The moves of the returned list are exactly `MoveList`, jumps first. Each entry pairs a legal move with a fresh board holding the position that move produces. The board itself is unchanged. |
| GameBoards.GameBoard.MovesInRow | src/game/board.py:140-157 | The loop over the columns of one row appends the jumps and the steps of the men of `piece` in that row to the two lists, in order, with fresh boards. |
| GameBoards.GameBoard.MovesFrom | src/game/board.py:143-157 | The loop over the eight offsets for one man appends each valid jump and each valid step to its own list, in the order of the offsets, with fresh boards. |
| GameBoards.GameBoard.TryOffset | src/game/board.py:144-157 | One offset adds a valid jump to the jump list or a valid step to the step list, with a fresh board on which it has been made. Otherwise it adds nothing. |
| GameBoards.GameBoard.CopyAndMove | src/game/board.py:149-150 | `deepcopy(self)` followed by `move_piece` gives a fresh board holding `ApplyMove` of this one. |
| MoveGeneration.ValidMoves | src/game/board.py:125-159 | One entry per move of `MoveList`, in order. Each move is legal and paired with the position it produces. |
| MoveGeneration.ValidMovesSound | src/game/board.py:137-157 | Every listed move is legal, starts at a man of the side to move, is a step or a jump, and is paired with the board it produces. |
| MoveGeneration.ValidMovesComplete | src/game/board.py:139-157 | Every legal move of a man of the side to move is listed, paired with the board it produces. |
| MoveGeneration.ValidMovesOrdered | src/game/board.py:135-159 | Jumps come before steps. Within each group, entries follow the row-major order of their source squares and then the order of the offset list. |
| MoveGeneration.MoveListSound | src/game/board.py:139-159 | Entry `t` of the move list is legal, starts at a man of the side, and is a jump exactly when it lies in the jump part. |
| MoveGeneration.LegalDirection | src/game/board.py:143 | The offset of every legal move is one of the eight offsets tried, in the group of its kind. |
| MoveGeneration.ValidMovesKeepCounters | src/game/board.py:148-157 | When the side to search is the side whose turn it is, every generated board keeps its counters equal to its men. The turn passes to the other side. |
| BoardRules.CountPieces | src/game/board.py:207-216 | The numbers of `B` squares and of `C` squares on the grid, in that order. |
| GameBoards.GameBoard.CountPiecesHere | src/game/board.py:207-216 | `count_pieces` on the board's own grid. |
| BoardRules.CheckGameOver | src/game/board.py:161-174 | The game is over when the player's counter or the computer's counter is 0. |
| GameBoards.GameBoard.CheckGameOverHere | src/game/board.py:161-174 | `check_game_over` on the board's own counters. |
| BoardProperties.GameOverIffNoMen | src/game/board.py:161-174 | When the counters agree with the grid, the game is over exactly when `count_pieces` finds no man of one colour, that is exactly when no square holds a man of that colour. |
| BoardProperties.NoMenIff | src/game/board.py:214-215 | The count of one colour over the first `n` rows is never negative, and it is 0 exactly when none of those squares holds a man of that colour. |
| GameBoards.GameBoard.GetBoardState | src/game/board.py:189-196 | The grid, as a value that shares no row with the board. |
| GameBoards.GameBoard.SaveAndRestoreState | src/game/board.py:189-205 | Reading the grid with `get_board_state` and writing it back with `set_board_state` leaves every field of the board as it was. |
| GameBoards.GameBoard.SetBoardState | src/game/board.py:198-205 | The grid becomes `state` and no other field changes. |
| GameBoards.GameBoard.Copy | src/game/board.py:228-250 | `__copy__` and `__deepcopy__` give a new board equal to the original in every field, sharing no row with it. |
| GameBoards.GameBoard.ToString | src/game/board.py:218-226 | The loop builds exactly the text `Render` gives: the column header, then for each row its number and its cells, each followed by a space, and a newline. |
| GameBoards.GameBoard.AppendRow | src/game/board.py:221-225 | One pass of the outer loop appends exactly row `i`'s line. |
| BoardText.ParseRender | src/game/board.py:218-226 | The debugging text shows the whole grid: reading it back gives the grid. |
| BoardText.ParseCellsText | src/game/board.py:223-225 | The written cells of a row followed by a newline read back as that row. |
| SearchSpec.GameTree | examples/original_checker_code.py:128-139 | The tree below one call is a leaf exactly at the base case (depth 0 or either counter 0), holding `evaluate_board`. Otherwise it is an inner node with one child per generated move, in order. |
| SearchSpec.Minimax | examples/original_checker_code.py:124-160 | Plain minimax on that tree, the reference for the search: a leaf's score, otherwise the maximum or minimum of the children's values, or `-inf`/`+inf` without children. |
| SearchSpec.AlphaBeta | examples/original_checker_code.py:124-160 | The search as the program runs it, on the tree: the base case gives no move and the score. An inner node counts its children and runs the maximizing or the minimizing loop from the first child. |
| SearchSpec.SearchMax | examples/original_checker_code.py:135-147 | The maximizing loop from child `k` on. It keeps the first strictly better value with its move and raises `alpha`. It stops with one more prune once `beta <= alpha`, and it adds each child's counts. |
| SearchSpec.SearchMin | examples/original_checker_code.py:148-160 | The minimizing loop from child `k` on: the same with `<`, `min` and `beta`. |
| SearchSpec.GameTreeKids | examples/original_checker_code.py:131-139 | The children of an inner node of the game tree are the entries of `get_valid_moves`, in order. Each child holds its move and the tree below the board that move produces, one level shallower, for the other side. |
| SearchSpec.FirstWith | examples/original_checker_code.py:140-142 | It returns the first of the first `n` children whose minimax value is `v`, or `n` when there is none. |
| SearchToolBox.Minimax | examples/original_checker_code.py:124-160 | The returned move and value are those `AlphaBeta` gives on the game tree below the board. `nodes_expanded` and `prunes` rise by exactly the counts it gives. |
| SearchToolBox.MaxChildren | examples/original_checker_code.py:135-147 | The maximizing loop (keep the first strictly better child, raise `alpha`, stop with one more prune once `beta <= alpha`) returns what `SearchMax` gives over the children. |
| SearchToolBox.MinChildren | examples/original_checker_code.py:148-160 | The minimizing loop returns what `SearchMin` gives over the children, with the roles of the bounds exchanged. |
| SearchToolBox.SearchChild | examples/original_checker_code.py:139 | The recursive call on entry `k` returns the value `AlphaBeta` gives on child `k` and raises both counters by its counts. |
| SearchToolBox.Expand | examples/original_checker_code.py:132 | At an inner node, entry `k` of the list `get_valid_moves` returns has child `k`'s move and a board whose game tree is child `k`'s subtree. |
| SearchToolBox.Child | examples/original_checker_code.py:132-139 | The list `get_valid_moves` returns matches the children of the game tree one for one, move and subtree alike. |
| SearchToolBox.Stats.constructor | examples/original_checker_code.py:168 | The statistics record the game builds, and builds again on restart at line 253, starts with both counters at 0. |
| SearchProperties.AlphaBetaFailSoft | examples/original_checker_code.py:124-160 | For any window `alpha < beta` the search result is fail-soft with respect to plain minimax. It equals the minimax value when that lies strictly inside the window. When the value is `<= alpha` the result lies between the value and `alpha`; when it is `>= beta`, between `beta` and the value. |
| SearchProperties.StepFailSoftMax | examples/original_checker_code.py:138-146 | One child of the maximizing loop: a cutoff already meets the fail-soft bound, any other outcome restores the loop invariant. |
| SearchProperties.StepFailSoftMin | examples/original_checker_code.py:151-159 | One child of the minimizing loop, symmetric to the maximizing one. |
| SearchProperties.MaxUpToBound | examples/original_checker_code.py:140-143 | The best of the first `n` children's values is at least each of them. |
| SearchRoot.RootSearch | examples/original_checker_code.py:233 | The full-window maximizing search of an inner node returns the exact minimax value, with the move to the first child attaining it. It returns no move exactly when that value is `-inf`. |
| SearchRoot.ComputerMove | examples/original_checker_code.py:230-238 | At a base case the computer's call returns no move and the static evaluation. Otherwise it returns the minimax value of the game tree, and any move it returns is a legal move of a computer man listed by `get_valid_moves(True)`. |
| SearchRoot.RootStep | examples/original_checker_code.py:138-146 | One child of the root loop: a `+inf` child is taken and ends the loop; any other child keeps `alpha` equal to the best value so far and the first best move remembered. |
| SearchRoot.FirstWithIs | examples/original_checker_code.py:140-142 | The first child worth `v` is the one `FirstWith` finds. |
| SearchCounts.SearchCountBounds | examples/original_checker_code.py:133-146 | The search counts at most as many prunes as expanded children, and at most as many children as the tree has edges. At an inner node it counts at least that node's children. |
| SearchCounts.SearchBaseCases | examples/original_checker_code.py:128-160 | A leaf returns its score with no move and counts nothing. An inner node with no children returns `-inf` (maximizing) or `+inf` (minimizing) with no move. |

## Left out

- The `print` calls in `move_piece`, `check_game_over` and the search driver are output only, so they are not modelled.
- `move_piece` calls `check_game_over` and ignores its result. The copy of `GameBoard` in `examples/original_checker_code.py` calls `exit()` there instead. That would end the program inside the search when a generated move captures the last man. The model treats the call as having no effect.
- `examples/original_checker_code.py` has its own copy of `GameBoard` (lines 13-122), without `__copy__`, `__deepcopy__`, `get_board_state`, `set_board_state`, `count_pieces` or `__str__`. It is modelled by the `src/game/board.py` version, whose rules coincide with it, so `deepcopy` is modelled as a field-by-field copy.
- `GameBoards.GameBoard.Copy`: the source's `__copy__` and `__deepcopy__` first build a fresh `GameBoard()` and then overwrite every field. That intermediate starting position is not observable, so the model copies the fields directly.
- `BoardRules.IsValidMove` and `GameBoards.GameBoard.MovePiece` require the source square to be on the board. In Python an off-board source would index from the end of a list or raise `IndexError`; every caller passes an on-board source.
- `GameBoards.GameBoard.SetBoardState` takes an 8×8 grid of the three cell values. Python accepts any list of lists.
- Kings: the source has no promotion and no backward moves, so neither does the model.
- The `time.time()` measurement and the `time_spent` and `pruning_gains` entries of the statistics are not modelled. The model keeps only `nodes_expanded` and `prunes`.
- `SearchToolBox.Minimax`: the model states the final counter values. It does not state the order of the intermediate updates, which nothing else observes.
- `SearchRoot.RootSearch` and `SearchRoot.ComputerMove` cover the top-level call the program makes: maximizing, full window. Other windows are covered by `SearchProperties.AlphaBetaFailSoft`, whose bound is weaker than exact equality.
- The UI layer (`PlayingTheGame`, `main.py`) is not part of this model: drawing, clicks, `highlight_valid_moves`, the scoreboard and the turn flow around `computer_move`.
