# Othello engine: board rules, evaluation and search

This project models the Othello engine of `OthelloAI/main.go` and proves
properties of it. The engine has three layers, and each is a module here:

- **Board rules** (modules `Grid`, `Bracket`, `Moves`, `BoardState`).
  - The engine's `Board` is a class: an 8x8 array of squares, written in place, plus the `black_pos`/`white_pos` piece lists.
  - The class has a ghost field `cells` that holds the grid as a value.
  - Its methods follow `update_board_data`, `placePieces`, `check_bracket`, `already_checked`, `find_legal_moves`, `check_game_over`, `check_game_state` and the default branch of `initBoard`.
  - Each method is proved against a function on grid values (`Pieces`, `Paint`, `FlipSet`, `LegalMoves`, `GameResult`, `GamePhase`).
  - Lemmas prove what those functions mean:
    - a flip set is the move square followed by exactly the bracketed opponent pieces;
    - the move list holds exactly the legal squares;
    - a move with k captures raises the mover's count by k + 1 and lowers the opponent's by k;
    - the game is over exactly when nobody can move, and the winner follows the piece counts.
- **Evaluation** (module `Evaluation`).
  - Covers `eval_score` and its feature scores: corners, squares beside empty corners, mobility, piece difference, and the static weight table.
  - Go's truncating integer division is modelled by `Quot`.
  - Proved: the score bounds, the dynamic score is zero-sum between the two players, and the phase thresholds.
- **Search** (module `Search`).
  - `alpha_beta_minimax` is specified by the unpruned fixed-perspective minimax value `Minimax`, including the pass rule and the finished-game values. The method is proved to agree with `Minimax` in the fail-soft sense for every window, and exactly for the full window used at the root.
  - The deepening loop of `iterative_search` is proved to return, for the deepest completed depth, exactly the ascending indices of the maximal root values.
  - `choose_move` applies the chosen flip set.

The direction map of `initBoard` is a Go map, so `range` visits it in an
unspecified order. The model fixes the declaration order. The flip set's
contents are also stated order-free (`Bracket.FlipSetCells`).

Search scores are `float64` in the engine. Every value they take is an integer
of magnitude at most 2^52 or one of the sentinels `float64(math.MinInt64)` =
-2^63 and `float64(math.MaxInt64)`, which rounds to 2^63. float64 holds all of
these exactly, so they are `int` here.

The time checks of `iterative_search` are parameters:
- `stopBefore(d)` is the estimate made before depth `d` starts;
- `stopAfter(d, i)` is the check after root move `i` of depth `d`.

The random draw and the human's typed move number in `choose_move` are the
parameter `pick`.

## Model

| member | source | states |
|---|---|---|
| `Grid.ValidSquareIsSquare` | OthelloAI/main.go:196-201 | `valid_square` accepts exactly the 64 squares of the board |
| `Grid.PaintAt` | OthelloAI/main.go:159-162 | after placing, each listed square holds the colour and every other square keeps its old colour |
| `Grid.RowPiecesSpec` | OthelloAI/main.go:148-154 | the scan of one row collects exactly that row's squares of the colour, left to right, at most one per column |
| `Grid.RowsBeforeSpec` | OthelloAI/main.go:147-155 | the scan of the first i rows collects exactly the squares of the colour above row i, in row-major order |
| `Grid.PiecesSpec` | OthelloAI/main.go:144-156 | `black_pos`/`white_pos` list exactly the squares of their colour, strictly row-major (so without repeats), and their lengths sum to at most 64 |
| `Grid.TotalBound` | OthelloAI/main.go:422 | the piece count is at most 64, so the depth cap `64 - pieces` is a natural number |
| `Grid.TotalBelow` | OthelloAI/main.go:422 | a board with an empty square holds fewer than 64 pieces, so the depth cap is positive whenever a move exists |
| `Grid.CountIsCard` | OthelloAI/main.go:144-156 | the length of a piece list is the number of squares of that colour |
| `Grid.StartFrom` | OthelloAI/main.go:107-110 | placing white on (3,3),(4,4) and black on (4,3),(3,4) over a board empty off the centre gives the start position |
| `Grid.ResetSquare` | OthelloAI/main.go:102-114 | one pass of the default set-up loop (empty square (i,j), then place the four centre pieces), applied to an all-"E" board or to the start position, gives the start position; so the loop ends in the start position |
| `Bracket.WalkIsBracket` | OthelloAI/main.go:215-226 | one direction returns the run `caps` exactly when `caps` are consecutive on-board opponent pieces closed by an own piece within the 8-step cap |
| `Bracket.WalkDirection` | OthelloAI/main.go:215-226 | every piece one direction collects lies on that ray from the move square and is an on-board opponent piece |
| `Bracket.WalkDistinct` | OthelloAI/main.go:215-226 | one direction never collects a square twice |
| `Bracket.DirectionsDistinct` | OthelloAI/main.go:76-83 | the eight directions are distinct unit steps |
| `Bracket.CapturesUpToCells` | OthelloAI/main.go:210-227 | the pieces gathered from the first n directions are without repeats, are exactly the union of those directions' brackets, and are on-board opponent pieces on those rays |
| `Bracket.FlipSetCells` | OthelloAI/main.go:204-229 | `check_bracket` returns the move square first, then exactly the bracketed pieces of all eight directions, each an on-board opponent piece, without repeats |
| `Bracket.CapturesAreBrackets` | OthelloAI/main.go:215-226 | what a direction contributes is a non-empty run exactly when that run is a bracket shorter than the step cap |
| `Bracket.CapturesUpToEmpty` | OthelloAI/main.go:210-227 | nothing is gathered exactly when no direction contributes |
| `Bracket.FlipSetLegal` | OthelloAI/main.go:204-229 | the flip set is longer than one exactly when some direction brackets a non-empty run |
| `Moves.ScanStepOk` | OthelloAI/main.go:263-272 | examining one candidate keeps the lists parallel, the moves distinct, empty, on the board and capturing, and marks the candidate checked |
| `Moves.ScanBeforeOk` | OthelloAI/main.go:259-275 | at every point of the nested loops the scan invariant holds, and every empty on-board neighbour examined so far is in `checked` |
| `Moves.LegalMovesSound` | OthelloAI/main.go:242-277 | the two returned lists have equal length; each move is on the board, empty and not repeated, and its flip set is `check_bracket`'s result, longer than one |
| `Moves.LegalNextToOpponent` | OthelloAI/main.go:259-263 | a legal square lies next to an opponent piece, so scanning the opponent's neighbours reaches it |
| `Moves.ScanFinds` | OthelloAI/main.go:263-270 | a capturing empty neighbour met anywhere in the scan is in the final move list |
| `Moves.PiecesMember` | OthelloAI/main.go:149-152 | every square of a colour appears in that colour's piece list |
| `Moves.LegalMovesComplete` | OthelloAI/main.go:241-277 | every empty on-board square whose flip set is longer than one is returned ("all legal moves") |
| `Moves.LegalMovesExact` | OthelloAI/main.go:241-277 | a square is in the move list if and only if it is legal |
| `Moves.PaintCells` | OthelloAI/main.go:159-162 | placing squares with a colour adds them to that colour's squares and removes them from the other colour's |
| `Moves.FlipSquares` | OthelloAI/main.go:205 | a flip set's squares are distinct, none is the mover's, and all but the first are the opponent's |
| `Moves.PaintFlipCounts` | OthelloAI/main.go:159-164 | placing such a flip set raises the mover's count by its length, lowers the opponent's by its length minus one, and raises the total by one |
| `Moves.PlayMoveCounts` | OthelloAI/main.go:307 | playing a legal move with k captures: mover +(k+1), opponent -k, total +1 |
| `Moves.NoOpponentNoMoves` | OthelloAI/main.go:251-259 | a colour whose opponent has no pieces has no legal moves |
| `Moves.GameOverSpec` | OthelloAI/main.go:167-170 | the game is over exactly when no square is legal for either colour |
| `Moves.NoMovesNoLegal` | OthelloAI/main.go:241-277 | an empty move list means no square is legal for that colour |
| `Moves.FirstMoveLegal` | OthelloAI/main.go:267-269 | the first listed move is legal |
| `Moves.GameResultSpec` | OthelloAI/main.go:167-180 | over iff nobody can move; then B wins iff black has more pieces, W iff white has more, Draw iff equal; otherwise "None" |
| `Moves.EmptyBoardDraw` | OthelloAI/main.go:167-180 | a board without pieces is a finished game and a draw |
| `Moves.PhaseMonotone` | OthelloAI/main.go:184-193 | the phase (early below 20 pieces, mid below 50, late otherwise) never goes back as pieces are added |
| `Moves.PhaseAfterMove` | OthelloAI/main.go:184-193 | playing a legal move never moves the phase back |
| `Evaluation.RatioSpec` | OthelloAI/main.go:367 | `100*(a-b)/(a+b+1)` with truncating division lies strictly between -100 and 100, is 0 on equal counts, is non-negative when a leads, and is odd under swapping a and b |
| `Evaluation.Tally` | OthelloAI/main.go:358-366 | the own and opponent tallies over a list of squares add up to at most its length |
| `Evaluation.TallySwap` | OthelloAI/main.go:358-366 | tallying for the opponent exchanges the two counts |
| `Evaluation.CornerScore` | OthelloAI/main.go:357-368 | the corner score lies strictly between -100 and 100 |
| `Evaluation.AroundEmpty` | OthelloAI/main.go:375-385 | the squares beside empty corners are on the board, at most three per corner |
| `Evaluation.AroundEmptyCornerScore` | OthelloAI/main.go:371-388 | the score of pieces beside empty corners lies strictly between -100 and 100 |
| `Evaluation.AroundIsRatio` | OthelloAI/main.go:387 | `-100*(a-b)/(a+b+1)` is the ratio score with the sides exchanged, hence strictly between -100 and 100 |
| `Evaluation.MobilityScore` | OthelloAI/main.go:391-395 | the mobility score lies strictly between -100 and 100 |
| `Evaluation.PieceDiffScore` | OthelloAI/main.go:398-406 | on a non-empty board the piece-difference score lies within [-100, 100] |
| `Evaluation.DiffRange` | OthelloAI/main.go:405 | `100*(a-b)/(a+b)` lies within [-100, 100] and changes sign when the sides are exchanged |
| `Evaluation.HeurSum` | OthelloAI/main.go:350-352 | the sum of the weights of n squares is within n times the weight bound |
| `Evaluation.HeurSumUniform` | OthelloAI/main.go:350-352 | with one weight w everywhere the sum is w times the number of squares |
| `Evaluation.HeurScore` | OthelloAI/main.go:344-354 | the static score lies within the score bound 2^52 |
| `Evaluation.EvalScore` | OthelloAI/main.go:319-341 | every evaluation lies within 2^52, strictly inside the search sentinels |
| `Evaluation.CornerSwap` | OthelloAI/main.go:357-368 | scoring the corners for the opponent negates the score |
| `Evaluation.AroundSwap` | OthelloAI/main.go:371-388 | scoring the squares beside empty corners for the opponent negates the score |
| `Evaluation.MobilitySwap` | OthelloAI/main.go:391-395 | scoring mobility for the opponent negates the score |
| `Evaluation.PieceDiffSwap` | OthelloAI/main.go:398-406 | scoring the piece difference for the opponent negates the score |
| `Evaluation.DynamicZeroSum` | OthelloAI/main.go:323-336 | the dynamic evaluation of a board for the opponent is the negation of the player's, in every phase |
| `Evaluation.StaticUniform` | OthelloAI/main.go:321-322 | a static table with weight w on every square scores w times the player's piece count |
| `BoardState.AppendCaptures` | OthelloAI/main.go:222-223 | appending a closed direction's run extends the result by exactly that direction's bracket |
| `BoardState.RowPiecesNext` | OthelloAI/main.go:149-153 | one step of the rebuild scan appends the square exactly when it holds the colour |
| `BoardState.AlreadyChecked` | OthelloAI/main.go:232-239 | the linear search reports true exactly when the square is in the list |
| `BoardState.Board.Init` | OthelloAI/main.go:74-116 | the default `initBoard` yields the start position with consistent piece lists |
| `BoardState.Board.SetUpSquare` | OthelloAI/main.go:107-109 | one pass of the set-up loop, from an all-"E" board or the start position, yields the start position with rebuilt piece lists |
| `BoardState.Board.SetSquare` | OthelloAI/main.go:108 | writing one square changes exactly that square of the grid and leaves both piece lists as they were |
| `BoardState.Board.Copy` | OthelloAI/main.go:437 | `new_board = *board` gives an independent array with the same squares and piece lists |
| `BoardState.Board.UpdateBoardData` | OthelloAI/main.go:144-156 | the rebuilt piece lists are those of the squares, which are unchanged |
| `BoardState.Board.PlacePieces` | OthelloAI/main.go:159-164 | the squares become the old grid with the listed squares set to the colour, and the piece lists are rebuilt to match |
| `BoardState.Board.WalkFrom` | OthelloAI/main.go:211-226 | the inner loop of one direction computes the bracket of that direction, or reports that it is not closed |
| `BoardState.Board.CheckBracket` | OthelloAI/main.go:204-229 | `check_bracket` returns the flip set of the move |
| `BoardState.Board.FindLegalMoves` | OthelloAI/main.go:242-277 | `find_legal_moves` returns exactly the move list and flip sets of `LegalMoves` |
| `BoardState.Board.VisitNeighbours` | OthelloAI/main.go:260-274 | the eight neighbours of one opponent piece advance the scan by nine steps |
| `BoardState.Board.VisitRow` | OthelloAI/main.go:261-273 | the three neighbours in one row offset advance the scan by three steps |
| `BoardState.Board.VisitSquare` | OthelloAI/main.go:263-272 | one candidate is examined once, and recorded as a move when its flip set is longer than one |
| `BoardState.Board.CheckGameOver` | OthelloAI/main.go:167-181 | `check_game_over` returns the verdict of `GameResult` |
| `BoardState.Board.CheckGameState` | OthelloAI/main.go:184-193 | `check_game_state` returns the phase of the piece count |
| `BoardState.Board.Evaluate` | OthelloAI/main.go:319-341 | on a board whose piece lists are up to date, the evaluation read off the board is `eval_score` of the grid |
| `Search.LegalFlipsOk` | OthelloAI/main.go:265-269 | each flip set of a legal move is non-empty and on the board |
| `Search.PaintedNotEmpty` | OthelloAI/main.go:438 | after a flip set is placed the board is not empty, so the child's evaluation is defined |
| `Search.Child` | OthelloAI/main.go:507-508 | the board after a child move has at least one piece |
| `Search.BestBound` | OthelloAI/main.go:506-531 | a max node is worth at least each child examined, a min node at most |
| `Search.BestAttained` | OthelloAI/main.go:506-531 | a node's value is its starting sentinel or the value of one of its children |
| `Search.BestNext` | OthelloAI/main.go:510-511 | one more child combines the node value with the child value by max (min) |
| `Search.BestMonotone` | OthelloAI/main.go:510-525 | examining more children never lowers a max node nor raises a min node |
| `Search.MinimaxInRange` | OthelloAI/main.go:486-505 | every minimax value lies between the two sentinels |
| `Search.BestInRange` | OthelloAI/main.go:505-532 | every partial node value lies between the two sentinels |
| `Search.MinimaxFinished` | OthelloAI/main.go:484-494 | in a finished game the value is +inf if the player has more pieces, -inf if fewer, 0 on equal counts |
| `Search.MinimaxPass` | OthelloAI/main.go:495-500 | a side without moves in an unfinished game passes: the other colour has a move, the other colour moves, the node flips between max and min, and the depth stays |
| `Search.FailSoftFull` | OthelloAI/main.go:439 | with the full window (-inf, +inf) the fail-soft result equals the minimax value |
| `Search.AlphaBeta` | OthelloAI/main.go:467-534 | past the depth limit it returns the passed score; with no moves in a finished game it returns exactly the terminal minimax value (+inf, -inf or 0, see `MinimaxFinished`); otherwise its value agrees with `Minimax` in the fail-soft sense for the window (alpha, beta) |
| `Search.SearchChild` | OthelloAI/main.go:507-509 | one child (copy, place, recurse) agrees with the child's minimax value in the fail-soft sense |
| `Search.MaxStep` | OthelloAI/main.go:510-515 | one child of a max loop keeps its invariant, or the cutoff it takes returns a fail-high bound |
| `Search.MinStep` | OthelloAI/main.go:524-529 | the mirror image for a min loop |
| `Search.MaxNodeStep` | OthelloAI/main.go:506-517 | the max loop's invariant after child i, stated on the node value |
| `Search.MinNodeStep` | OthelloAI/main.go:520-531 | the min loop's invariant after child i, stated on the node value |
| `Search.MaxNode` | OthelloAI/main.go:503-517 | the max loop with alpha raised and the break on `beta <= alpha` returns the max node value in the fail-soft sense, and -inf when there is no move |
| `Search.MinNode` | OthelloAI/main.go:518-532 | the min loop with beta lowered returns the min node value in the fail-soft sense, and +inf when there is no move |
| `Search.RootValuesSpec` | OthelloAI/main.go:433-439 | root value i is the minimax value of move i with the opponent to move at depth 0 |
| `Search.TopAbove` | OthelloAI/main.go:440-442 | no root score exceeds the running maximum |
| `Search.TopAttained` | OthelloAI/main.go:440-442 | the running maximum is one of the scores |
| `Search.TiesSpec` | OthelloAI/main.go:440-445 | the tie list holds exactly the indices whose score equals the given value, in increasing order |
| `Search.TiesNone` | OthelloAI/main.go:440-442 | when every earlier score is lower the tie list is empty |
| `Search.TiesAppend` | OthelloAI/main.go:443-444 | the tie list of the earlier indices is unaffected by later scores |
| `Search.TieStep` | OthelloAI/main.go:440-445 | a higher score restarts the list, an equal one joins it, a lower one is dropped, and the result is the ties of the new maximum |
| `Search.BestRootsSpec` | OthelloAI/main.go:440-445 | a move is in the best list exactly when no root move is worth more; the list is non-empty when there is a move |
| `Search.RootValuesInRange` | OthelloAI/main.go:439 | every root value lies between the sentinels |
| `Search.SearchDepth` | OthelloAI/main.go:433-454 | a depth completes exactly when no time check after a move fires, and then it returns the best-move list of that depth |
| `Search.UnstoppedSpec` | OthelloAI/main.go:450-453 | the pass runs to the end exactly when the check after every move lets it continue |
| `Search.TieRoot` | OthelloAI/main.go:436-445 | searching one root move extends the running maximum and tie list to that move |
| `Search.SearchRoot` | OthelloAI/main.go:437-439 | the full-window search of a root move returns its exact root value |
| `Search.IterativeSearch` | OthelloAI/main.go:409-465 | the returned depth is at most the number of empty squares; every depth up to it completed, the next one did not (or the cap was reached); the returned list is the best-move list of that depth, empty when none completed |
| `Search.Deepen` | OthelloAI/main.go:426-454 | a round completes exactly when neither the estimate before it nor any check during it stops it, and then yields that depth's best-move list |
| `Search.ChooseMove` | OthelloAI/main.go:280-316 | passes exactly when there is no legal move; otherwise plays one legal move (board = old board with its flip set placed, one more piece). For a searching computer with several moves, the returned depth is the one `iterative_search` completed (every depth up to it completed, the next did not unless the cap was reached) and the move is a best root move at that depth; the empty best-list case is flagged and leaves the board alone; otherwise the depth is 0 |
| `Search.SelectMove` | OthelloAI/main.go:292-311 | the chosen index is a legal move; for a searching computer with several moves the returned depth is the completed depth of `iterative_search` (at most the empty-square count, every depth up to it completed, the next did not) and the move has maximal root value there, with none found exactly when depth 1 did not complete; otherwise the depth is 0 |

## Left out

- Terminal I/O is left out: `printBoard`, `get_user_input`, the prompts and messages of `choose_move` and `iterative_search`, `main` and `Game.play` (the turn loop).
- The preset-file branch of `initBoard` is left out: file reading, `log.Fatal` and number parsing. Only the default start position is modelled.
- The wall-clock arithmetic of `iterative_search` is not modelled. The two time checks (the 1.4 and 0.8 factors, `time.Since`) are the oracles `stopBefore` and `stopAfter`, and the elapsed time it returns is dropped.
- BoardState.Board.Init: the model starts the array at "E", where Go's zero-valued board holds "" on each square until the loop reaches it. The boards between passes differ, and the loop ends in the same start position.
- Search.ChooseMove: the time-seeded `rand.Intn(n)` is the parameter `pick` reduced modulo n, and the human's move number (which `get_user_input` keeps in range) is the same parameter. Both stand for "some index below n".
- Search.ChooseMove: when `iterative_search` completes no depth, its best list is empty and the engine panics in `rand.Intn(0)`. The model returns `NoBestMove` and leaves the board unchanged.
- The order of the direction map is fixed to its declaration order. The flip set's membership is also proved order-free.
- Evaluation.PieceDiffScore: requires a non-empty board, because `piece_diff_score` divides by zero on an empty board. No board reached in play is empty.
- Evaluation.HeurScore: requires every weight of the static table to lie within ±2^46, so that scores stay strictly inside the float64 sentinels. The engine's weights are small integers.
- Search.AlphaBeta: requires the passed `score` to be `eval_score` of the board, as every call site passes. `Minimax` evaluates the board at the leaf itself.
- `eval_type` strings other than "static", "dynamic" and "random" are not modelled; the engine builds no such player (in Go such a player would search with all-zero scores).
- Search.Minimax: players of the random strategy evaluate to 0 everywhere, as `eval_score` does. The engine never searches for them.
- The `float64` score type is left out: every value stays an exactly representable integer.
- `NeuralNet/main.py` and `NeuralNet/load_data.py` are left out: floating-point training and file I/O, outside the engine.
