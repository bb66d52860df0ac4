# Isolation search engine — a Dafny model

This project models the move-selection engine of an Isolation-playing agent,
`game_agent.py`. There are two players and one time guard:

- `MinimaxPlayer` runs a depth-limited minimax search at a fixed depth.
- `AlphaBetaPlayer` runs a fail-soft alpha-beta search at depths 1, 2, 3, …
  (iterative deepening). It keeps the move of the last iteration that finished.
- The time guard: every search call first compares the time left with
  `TIMER_THRESHOLD` and raises `SearchTimeout` when it is too low. Only the
  two `get_move` methods catch that exception.

Files:

- `scores.dfy` (`Scores`): scores as the engine compares them. A score is
  `-inf`, a finite value or `+inf`. The file also has Python's `max`/`min`,
  which keep the first argument on ties, the running maximum and minimum, and
  the first-maximal-key rule of `max(d, key=d.get)`.
- `board.dfy` (`Board`): the game state as the engine sees it. This is a
  finite game tree whose children, in order, are the legal moves and the
  states `forecast_move` gives for them. Each state has an evaluation that
  keeps the heuristics' precedence: a lost state is `-inf`, tested before a
  won state is `+inf`, and both are tested before any finite formula.
- `time_guard.dfy` (`TimeGuard`): a search call either raised
  `SearchTimeout` or returned a value.
- `minimax_player.dfy` (`MinimaxPlayer`) and `alpha_beta_player.dfy`
  (`AlphaBetaPlayer`): the two players. Each player has pure reference
  functions and imperative methods:
  - The reference functions give the value a completed search returns and
    the number of timer checks it makes.
  - The methods follow the source's loops and early returns statement by
    statement.
  - Each method is proved to return exactly the reference result when the
    budget covers the search's checks, and to time out otherwise.

The clock is modelled as a budget of timer checks. A check made with budget 0
fails, which stands for `time_left() < TIMER_THRESHOLD`. Any other check
passes and uses up one unit. The budget left over is passed on to the next
call, so a deeper search finishes exactly when the checks it makes fit in
what is left.

Main results:

- Alpha-beta keeps the fail-soft window around the exact minimax value.
- With the full window it returns that exact value.
- It never makes more timer checks than minimax.
- Its root move is the minimax root move.
- Iterative deepening returns the move of the deepest iteration whose total
  cost fits in the budget, or `(-1, -1)` when none does.

## Model

| member | source | states |
|---|---|---|
| Board.Evaluate | game_agent.py:51-55 | a lost state scores -inf whatever else holds; a won state that is not lost scores +inf; every other state scores its finite heuristic value |
| Scores.MaxOfIsMaximum | game_agent.py:289-294 | the running `best = max(best, v)` from -inf bounds every element from above and, for a non-empty list, is one of the elements |
| Scores.MinOfIsMinimum | game_agent.py:296-301 | the running `best = min(best, v)` from +inf bounds every element from below and, for a non-empty list, is one of the elements |
| Scores.FirstArgMax | game_agent.py:265 | `max(map, key=map.get)` picks a position holding the maximum score, and every earlier position scores strictly less |
| Scores.FirstArgMaxByPrefixMaxima | game_agent.py:407 | two score lists whose prefixes have equal running maxima lead to the same chosen position |
| MinimaxPlayer.BestMonotone | game_agent.py:289-301 | each further child can only raise the maximizer's running best and lower the minimizer's |
| MinimaxPlayer.ChildCallsMonotone | game_agent.py:291-292 | the timer checks made by the first i children never exceed those made by the first n >= i |
| MinimaxPlayer.BestIsMaxOf | game_agent.py:289-294 | the maximizer's running best after n children is the running maximum of their minimizing values |
| MinimaxPlayer.BestIsMinOf | game_agent.py:296-301 | the minimizer's running best after n children is the running minimum of their maximizing values |
| MinimaxPlayer.ValueIsMinimax | game_agent.py:281-301 | an inner maximizing node is worth one of its children's values and at least all of them; an inner minimizing node is worth one of its children's values and at most all of them |
| MinimaxPlayer.BestMoveIsFirstMaximal | game_agent.py:259-266 | with no legal moves the root returns (-1, -1); otherwise it returns a legal move whose child scores the root's maximizing value, and every earlier legal move scores strictly less |
| MinimaxPlayer.DepthOneIsGreedy | game_agent.py:262-265 | at depth 1 the root picks the first legal move whose successor has the highest evaluation |
| MinimaxPlayer.MinimaxHelper | game_agent.py:278-301 | if the budget covers the node's timer checks, the helper returns the depth-limited minimax value and the budget minus those checks; otherwise it raises SearchTimeout |
| MinimaxPlayer.Minimax | game_agent.py:254-266 | if the budget covers the root search, the call returns the first maximal move and the leftover budget; otherwise SearchTimeout; with no legal moves and a passing check it returns (-1, -1) |
| MinimaxPlayer.GetMove | game_agent.py:198-213 | a search that finishes in time yields its move; a timed-out search yields (-1, -1) |
| AlphaBetaPlayer.MaxStep | game_agent.py:436-439 | one non-pruning maximizer step keeps the loop's fail-soft relation between its best and the exact running maximum |
| AlphaBetaPlayer.MinStep | game_agent.py:445-448 | one non-pruning minimizer step keeps the loop's fail-soft relation between its best and the exact running minimum |
| AlphaBetaPlayer.AlphaBetaFailSoft | game_agent.py:422-449 | for alpha < beta, the helper's result equals the minimax value strictly inside (alpha, beta); it lies between that value and alpha at or below alpha, and between beta and that value at or above beta |
| AlphaBetaPlayer.MaxLoopFailSoft | game_agent.py:433-440 | the maximizing loop, pruning when best >= beta and raising alpha, returns a fail-soft bound of the maximum of its children's minimax values |
| AlphaBetaPlayer.MinLoopFailSoft | game_agent.py:442-449 | the minimizing loop, pruning when best <= alpha and lowering beta, returns a fail-soft bound of the minimum of its children's minimax values |
| AlphaBetaPlayer.FullWindowIsExact | game_agent.py:350 | with the default window (-inf, +inf) the helper returns the exact minimax value |
| AlphaBetaPlayer.PruningSavesChecks | game_agent.py:422-449 | a completed helper call never makes more timer checks than minimax's helper at the same node and depth |
| AlphaBetaPlayer.MaxLoopSavesChecks | game_agent.py:435-438 | the maximizing loop's checks from child i on, with those of minimax's first i children, fit within minimax's checks for all children |
| AlphaBetaPlayer.MinLoopSavesChecks | game_agent.py:444-447 | the minimizing loop's checks from child i on, with those of minimax's first i children, fit within minimax's checks for all children |
| AlphaBetaPlayer.RootScan | game_agent.py:403-406 | the root fills one score per legal move and keeps the scores already recorded |
| AlphaBetaPlayer.RootStep | game_agent.py:406 | with beta at +inf, raising alpha by a child's fail-soft score gives the same alpha as raising it by the child's exact value |
| AlphaBetaPlayer.RootScanAgrees | game_agent.py:403-406 | starting from alpha = the maximum of the scores so far, every prefix of the root's scores has the same maximum as the minimax scores of the same children |
| AlphaBetaPlayer.RootScanSavesChecks | game_agent.py:404-406 | the root loop's checks from child i on, with those of minimax's first i children, fit within minimax's checks for all children |
| AlphaBetaPlayer.AlphaBetaNoCostlier | game_agent.py:395-408 | an alphabeta root call makes no more timer checks than a minimax root call at the same depth, so it finishes in time whenever minimax does |
| AlphaBetaPlayer.RootChoiceAgrees | game_agent.py:403-407 | with alpha starting at -inf, the root's score map and minimax's pick the same first-maximal position |
| AlphaBetaPlayer.AlphaBetaAgreesWithMinimax | game_agent.py:350-408 | alphabeta(game, depth) with the default window returns the move minimax(game, depth) returns |
| AlphaBetaPlayer.AlphaBetaHelper | game_agent.py:422-449 | if the budget covers the pruned search's checks, the helper returns that search's value and the leftover budget; otherwise it raises SearchTimeout |
| AlphaBetaPlayer.MaximizerLoop | game_agent.py:433-440 | the maximizing loop completes with the pruned search's value and leftover budget when the budget covers its checks, and raises SearchTimeout otherwise |
| AlphaBetaPlayer.MinimizerLoop | game_agent.py:442-449 | the minimizing loop completes with the pruned search's value and leftover budget when the budget covers its checks, and raises SearchTimeout otherwise |
| AlphaBetaPlayer.AlphaBeta | game_agent.py:395-408 | if the budget covers the root search, the call returns the first maximal move of its score map and the leftover budget; otherwise SearchTimeout; with no legal moves and a passing check it returns (-1, -1) |
| AlphaBetaPlayer.LastCompletedIsLargest | game_agent.py:343-346 | the last depth the deepening loop completes is the largest whose iterations fit in the budget; the next depth does not fit |
| AlphaBetaPlayer.DeepeningStopsAtLargest | game_agent.py:342-348 | from depth 1, the completed depths 1..k cost at most the budget, and depths 1..k+1 cost more |
| AlphaBetaPlayer.DeepeningStopsHere | game_agent.py:347-348 | when an iteration times out, the kept move is (-1, -1) if no depth completed, and otherwise the alphabeta move, equal to the minimax move, of the last completed depth |
| AlphaBetaPlayer.GetMove | game_agent.py:340-348 | get_move returns (-1, -1) when even depth 1 cannot finish; otherwise it returns the move of the deepest completed depth k, which equals both the alphabeta and the minimax move at depth k |

## Left out

- The heuristic formulas of custom_score, custom_score_2 and custom_score_3 are left out. These are the distance helper with `sqrt`, the moves-to-spaces ratio and the weighted move counts. A state carries an arbitrary finite `estimate` in their place. Only the -inf/+inf precedence is modelled, because floating point and the board's geometry are not part of this model.
- The `isolation.Board` collaborator is not part of this model. `get_legal_moves`, `forecast_move`, `is_loser`, `is_winner` and the player locations are replaced by a finite game tree whose children list the legal moves in order.
- The wall clock is modelled as a count of timer checks. `time_left` and `TIMER_THRESHOLD` are not modelled as milliseconds, and the time spent between checks is not modelled. The `self.time_left` field is replaced by the budget passed from call to call.
- The `IsolationPlayer` constructor and its defaults (`search_depth=3`, `score_fn`, `timeout=10.`) are left out. `MinimaxPlayer.GetMove` takes the search depth as an argument. It requires a depth of at least 1, as the constructor's documentation demands of `search_depth`.
- Python floats are modelled as exact reals extended with -inf and +inf. NaN and rounding are left out.
- The move-to-score dictionary is modelled as a list of scores parallel to the legal moves. This relies on `get_legal_moves` listing each move once, so insertion order is legal-move order.
- AlphaBetaPlayer.GetMove: the `while True` loop ends in the model because every iteration uses at least one timer check. With a real clock the loop ends only by timeout as well, but the model does not capture the time spent between checks.
- AlphaBetaPlayer.AlphaBetaHelper: the two loops of the source's helper are proved as the separate methods MaximizerLoop and MinimizerLoop. The helper calls them after its timer check and leaf tests. The statements are the same as in the source.
