# Hex: the board and the minimax player

A model of the engine of a Hex-playing program: the N-by-N board of `board.py` and the alpha-beta player of
`player.py`. Cells hold 0 (empty) or a player's id. Player 1 connects column 0 to column N - 1, and player 2
connects row 0 to row N - 1. Both files use the same six hexagonal neighbour offsets.

The code is modelled in the form it has in the source:

- `HexBoard` is a class over an `array2<int>`. Its methods place a stone, list the empty cells and run the
  breadth-first connection search with a FIFO queue and a visited set.
- `PlayerMinimax` is a class whose methods run the loops of `player.py` on a `HexBoard`:
  - the root move loop;
  - the alpha-beta max and min loops with their early exit;
  - the breadth-first `shortest_path`;
  - the stack flood-fill of `get_connected_components`;
  - the centre-square counters.
- Each method is proved to compute a specification function on the grid, `seq<seq<int>>`. The properties of the
  source are then proved about those functions.

Modules:

- `Hex`: cells, the direction list and grids.
- `Graphs`: reachability on a finite graph, given as a map from a cell to its successors. It covers breadth-first
  layers, the closure of a set of seeds and walks.
- `HexGraph`: the grid seen as such a graph. A step goes to a hexagonal neighbour on the board that either holds a
  given id or does not hold a given id.
- `Board`: possible moves, the connection test and the `HexBoard` class.
- `Groups`: same-owner groups and the row-major scan that lists them.
- `Scores`: scores are the extended reals `NegInf | Fin(real) | PosInf`. They come with their order, maximum,
  minimum and the clamp to a window.
- `Evaluation`: the opponent's id, shortest paths, the cost estimate, centre control and the static evaluation.
- `Search`: the plain minimax value `Value`, the fail-soft alpha-beta search `AlphaBeta` the player runs, and the
  root loop.
- `Player`: the `PlayerMinimax` class.

Where the code is more particular than its description, the model follows the code:

- The target test of `check_connection` names players 1 and 2 only (board.py:46). For any other id the search
  never succeeds, and `Wins` is false.
- `shortest_path` blocks cells holding the player's own `opponent_id`, whatever its `player_id` argument
  (player.py:130). So when `estimate_cost` runs for the opponent, the opponent's own stones are walls and the
  player's stones are open.
- `evaluate_position` adds the player's own distance with weight 1 and subtracts the opponent's with weight 0.8
  (player.py:90). The maximiser therefore prefers positions where its own estimated cost is larger. This is
  modelled as written.
- The fallback at player.py:41 tests the move tuple for truth. A Python tuple is truthy whenever it is non-empty,
  and `(0, 0)` is non-empty. The fallback therefore fires exactly when no move beat minus infinity, never when the
  best move is the cell `(0, 0)`.
- `estimate_cost` returns the board size when the player has stones but no group touches the start side
  (player.py:95, 107-113). It does not fall back to a whole-edge search.

## Model

| member | source | states |
|---|---|---|
| Board.HexBoard.constructor | board.py:5-7 | A new board has the given size and every cell empty. |
| Board.EmptyBoardMoves | board.py:18-26 | On an empty N-by-N board the possible moves are all N * N cells. |
| Board.EmptyBoardNoWin | board.py:28-57 | On an empty board no id is connected. |
| Board.HexBoard.Copy | board.py:8-9 | The copy has a fresh array of the same size holding the same grid. |
| Board.HexBoard.Clone | board.py:8-9 | The clone is a fresh board with a fresh array and an equal grid. Writes to it cannot reach the original. |
| Board.HexBoard.PlacePiece | board.py:11-16 | Returns true exactly when the cell was empty. Then that cell holds the id and no other cell changes; otherwise the grid is unchanged. |
| Board.HexBoard.GetPossibleMoves | board.py:18-26 | Returns exactly `PossibleMoves` of the grid, built by the nested row and column loops. It changes nothing. |
| Board.PossibleMovesIn | board.py:18-26 | A cell is a possible move exactly when it is on the board and empty. |
| Board.PossibleMovesOrder | board.py:18-26 | The possible moves are in row-major order and contain no cell twice. |
| Board.MovesPartition | board.py:18-26 | The possible moves are the empty cells, and there are as many of them as empty cells. The empty and occupied cells partition the N * N cells. |
| Board.PlaceShrinksMoves | board.py:11-26 | Placing a non-zero id on an empty cell removes exactly that cell from the possible moves and keeps the order of the rest. |
| Board.HexBoard.StartNodes | board.py:33-37 | The start nodes are the cells of the start edge that hold the id, in edge order: row 0 for player 2, column 0 for any other id. |
| Board.SeedsIn | board.py:33-37 | A cell is a start node exactly when it lies on the start edge, on the board, and holds the id. |
| Board.HexBoard.Expand | board.py:49-55 | Appends to the queue exactly `FreshNbrs`: the neighbours holding the id that are not yet visited, in direction order. Each comes once and none was visited before. Afterwards every neighbour holding the id is visited. |
| HexGraph.FreshNbrsAre | board.py:49-55 | One expansion lists every allowed, unvisited neighbour exactly once, and nothing else. |
| Board.HexBoard.Visit | board.py:43-55 | Meeting a target cell proves the id connected. Otherwise the search invariant is kept, and the queue still holds no cell twice and none already expanded. The queue is then at most N * N long, and the visited set grows or the queue shrinks. |
| Board.QueueFresh | board.py:49-55 | One round of the search keeps the queue free of repetitions and of cells already taken off it, so the queue is no longer than the visited set. |
| Board.HexBoard.CheckConnection | board.py:28-57 | Returns exactly `Wins` of the grid: some target-edge cell is reachable from the start nodes through the id's stones. |
| Board.WinsIffChain | board.py:33-57 | An id is connected exactly when it is 1 or 2 and a chain of its stones, each a hexagonal neighbour of the one before, runs from its start edge to its target edge. |
| Board.WinsMonotone | board.py:28-57 | Placing any stone on an empty cell keeps a connected id connected. |
| Player.PlayerMinimax.constructor | player.py:16-21 | The opponent is 1 for player 2 and 2 otherwise. The rewards are plus and minus infinity. The directions are the six offsets the board uses. |
| Evaluation.Opponent | player.py:18 | The opponent differs from the player and is 1 or 2. |
| Evaluation.OpponentInvolutive | player.py:18 | Players 1 and 2 are each other's opponents. |
| Player.PlayerMinimax.Play | player.py:23-24 | The move is the depth-3 best move, and it is a possible move whose minimax value is greatest. |
| Player.PlayerMinimax.GetBestMove | player.py:26-41 | Returns `BestMove`: the root loop's recorded move, or the first possible move when none was recorded. |
| Player.PlayerMinimax.RootRound | player.py:32-39 | One round of the root loop: scores the move on a fresh child board and updates alpha and the best move as the root loop does. |
| Player.PlayerMinimax.Child | player.py:32-33 | The child board is a fresh copy with the id's stone on the chosen empty cell. |
| Search.RootScore | player.py:35-39 | For a root move, the search with window (alpha, +infinity) beats alpha exactly when the move's minimax value does, and then equals it. That value is never plus infinity. |
| Search.RootLoopIsFirstBest | player.py:31-39 | The root loop run on alpha-beta scores picks what the same loop picks on the plain minimax values of the moves. |
| Search.FirstBestIsFirstBest | player.py:37-39 | The strict-improvement loop ends with alpha as the maximum of the values, or minus infinity. Its move is the first position that reaches that maximum, or none when nothing beat minus infinity. |
| Search.FirstBestNone | player.py:37-41 | The root loop records no move, so the fallback at line 41 fires, exactly when every move's value is minus infinity. |
| Search.BestMoveIsFirstArgmax | player.py:26-41 | The chosen move is a possible move whose minimax value is greatest, and no earlier move reaches that value. When every move is worth minus infinity, it is the first possible move. |
| Player.PlayerMinimax.Minimax | player.py:43-78 | Returns `AlphaBeta`: win 0, loss minus infinity, the evaluation at depth 0, 0 on a full board, else the max or min loop. It has no modifies clause, so the board passed in is never changed. |
| Player.PlayerMinimax.MaxNode | player.py:55-66 | The max loop over the possible moves, with the player moving, returns the best value until beta <= alpha. |
| Player.PlayerMinimax.MinNode | player.py:67-78 | The min loop over the possible moves, with the opponent moving, returns the least value until beta <= alpha. |
| Player.PlayerMinimax.MaxRound | player.py:57-65 | One round of the max loop: the child's score on a fresh board, then max_eval and alpha updated, then the exit test beta <= alpha. |
| Player.PlayerMinimax.MinRound | player.py:69-77 | One round of the min loop: the child's score on a fresh board, then min_eval and beta updated, then the exit test beta <= alpha. |
| Player.PlayerMinimax.ChildValue | player.py:58-60 | The value is the search of the board with the id's stone on the move one ply deeper. |
| Search.AlphaBetaClamp | player.py:43-78 | For any window alpha < beta, the alpha-beta result and the plain minimax value agree once both are clamped to the window. |
| Search.MaxLoopClamp | player.py:55-66 | The max loop with its cut-off agrees, clamped to the window, with the full maximum over the moves. |
| Search.MinLoopClamp | player.py:67-78 | The min loop with its cut-off agrees, clamped to the window, with the full minimum over the moves. |
| Search.AlphaBetaFullWindow | player.py:43-78 | With window (-infinity, +infinity) the alpha-beta search equals plain minimax. |
| Search.AlphaBetaBounds | player.py:43-78 | A minimax value strictly inside the window is returned exactly. One at or below alpha gives a result at or below alpha, and one at or above beta a result at or above beta. |
| Search.AlphaBetaFinite | player.py:43-78 | The alpha-beta search never returns plus infinity, for any window. |
| Search.ValueFinite | player.py:43-78 | No position has plain minimax value plus infinity. |
| Scores.Max | player.py:62-63 | The maximum is an upper bound of both arguments and is one of them. |
| Scores.Min | player.py:74-75 | The minimum is a lower bound of both arguments and is one of them. |
| Scores.LeOrder | player.py:37 | The order of scores is reflexive, total, antisymmetric and transitive. |
| Scores.ClampWindow | player.py:64-65 | A clamped value lies in the window. A value inside is kept, and one outside becomes the nearer end. |
| Player.PlayerMinimax.EvaluatePosition | player.py:80-90 | Returns `Evaluate`: 0 when the player is connected, else minus infinity when the opponent is, else d_player - 0.8 * d_opponent + 0.01 * center. |
| Evaluation.EvaluateRange | player.py:80-90 | The evaluation is never plus infinity. It is minus infinity exactly when the opponent is connected and the player is not. |
| Player.PlayerMinimax.EstimateCost | player.py:92-113 | Returns `EstimateCost`: with no stones of the id, the whole-side shortest path; otherwise the minimum of the size and the distances of start-touching groups. |
| Evaluation.EstimateCostIsLeast | player.py:92-113 | With stones on the board the estimate is at most the size and at most the distance of every group touching the start side. It equals the size or one of those distances. |
| Evaluation.CapMinIsLeast | player.py:107-113 | The running minimum is at most the size and every distance, and equals one of them. |
| Player.PlayerMinimax.ShortestPath | player.py:115-134 | Returns `ShortestPath` from the start set to the end side, stepping only onto board cells not holding the player's opponent. |
| Evaluation.ShortestPathIsShortest | player.py:115-134 | No free walk from the start set to the end side is shorter than the result, one has exactly that length, and when none exists the result is the board size. |
| Evaluation.ShortestPathZero | player.py:121-125 | A start cell that lies on the end side gives distance 0. |
| Graphs.HitIsShortestWalk | player.py:121-132 | The first breadth-first layer meeting the end set is the length of a shortest walk to it. |
| Player.PlayerMinimax.StartQueue | player.py:117-118 | The initial queue holds exactly the start cells, each at distance 0. |
| Player.PlayerMinimax.ExpandFree | player.py:127-132 | Lists exactly `FreshNbrs` at distance d + 1: the neighbours on the board that do not hold the opponent and are not yet visited, in direction order. None was visited before. It marks them visited, so afterwards every such neighbour is visited. |
| Player.PlayerMinimax.EvaluateCenterControl | player.py:136-149 | Returns `CenterControl`: the player's minus the opponent's stones in the clipped centre square, divided by its cell count, or 0 when it is empty. |
| Player.PlayerMinimax.CountCenterRow | player.py:143-148 | Counts one row of the square: the player's stones, the opponent's stones and the cells. |
| Evaluation.CenterInside | player.py:137-143 | The centre square lies on the board and is non-empty on every non-empty board. Its side is at most 2 * (N / 3) + 1. |
| Evaluation.CenterControlRange | player.py:136-149 | The centre term lies between -1 and 1. |
| Evaluation.CenterControlSwap | player.py:136-149 | Swapping the two players negates the centre term. |
| Player.PlayerMinimax.GetConnectedComponents | player.py:151-174 | Returns `Components`, the groups in the order the row-major scan first meets them. |
| Player.PlayerMinimax.ScanBoardRow | player.py:156-173 | Scanning one row appends the groups first met in that row and keeps the visited set equal to their union. |
| Player.PlayerMinimax.ScanCellAt | player.py:157-173 | An unvisited stone of the id starts a new group. Any other cell leaves the list as it is. |
| Player.PlayerMinimax.ExploreGroup | player.py:158-173 | The stack flood-fill from a stone returns exactly its group, the set of the id's stones reachable through the id's stones, and marks it visited. |
| Player.PlayerMinimax.PushNeighbours | player.py:167-172 | Pushes exactly `OpenNbrs`, the neighbours of the cell that hold the id, in direction order, and keeps the rest of the stack. |
| HexGraph.OpenNbrsAre | player.py:167-172 | Over the six directions, the cells listed are exactly the neighbours the rule allows. |
| Groups.ComponentsAreGroups | player.py:151-174 | The components are pairwise disjoint, and each is a whole group, so connected and maximal. Their union is exactly the cells holding the id. |
| Groups.GroupListed | player.py:151-174 | The group of every stone of the id is one of the components. |
| Groups.NoComponents | player.py:104-105 | There are no components exactly when no cell holds the id. |
| Groups.GroupIsGroup | player.py:160-172 | The group of a stone holds that stone and is the group of each of its members. |
| HexGraph.GridClosureIffPath | board.py:43-55 | A cell is reached by the search exactly when a path of hexagonal steps through allowed cells leads to it from the seeds. |

## Left out

- `print_board` (board.py:59-70), `main.py` and `human_player.py` are console input and output. `human_player.py`
  is not part of this model.
- `Player.play` raising `NotImplementedError` (player.py:11-12) is the shell of the class hierarchy.
  `PlayerMinimax` is modelled as a class of its own, whose constructor sets the fields `Player.__init__` sets.
- `copy.deepcopy` becomes an explicit copy of the array into a fresh array (`HexBoard.Copy`).
- Floating point: scores are exact reals plus the two infinities. Rounding and IEEE arithmetic on infinities are
  not modelled.
- Board.HexBoard.PlacePiece: requires the cell to be on the board. The source raises `IndexError` or wraps
  negative indices otherwise, and it is only ever called with possible moves.
- Player.PlayerMinimax.GetBestMove: requires depth >= 1 and at least one empty cell. At depth 0 the source would
  search at negative depth until the board fills, and on a full board it raises `IndexError` at player.py:41.
- Player.PlayerMinimax.Play: requires at least one empty cell, for the same reason as GetBestMove. On a full board the
  source raises `IndexError` at player.py:41.
- Player.PlayerMinimax.Minimax: depth is a natural number. The source is only called with depth - 1 >= 0 from a
  valid root.
- Player.PlayerMinimax.ShortestPath: requires the start cells to lie on the board. Every caller passes a side of
  the board or a group.
- Player.PlayerMinimax.StartQueue: Python's iteration order over a set is not modelled. The queue holds the start
  cells in an order the model leaves open, and the result does not depend on that order.
- Running time and the amount of pruning are not modelled. Only the values are.
