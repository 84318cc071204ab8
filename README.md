# chess-ai decision engine, modelled in Dafny

This project models the decision engine of a small chess program, `logic.py`. It also models the end-of-game credit assignment of its game loop in `gui.py`. The engine has four parts:

- **QTable.** A learned table maps a position key (a FEN string) and a move key (a UCI string) to a value. Values are updated with a fixed learning rate of 0.1.
- **Static evaluator.** It scores a position from White's side:
  - ±10000 for checkmate, against the side to move;
  - 0 for stalemate or insufficient material;
  - otherwise material (100/300/350/500/900/0) plus ±20 for each occupied centre square.
- **Search.** A fail-soft alpha-beta search over a shared board runs on the legal moves, sorted by their learned value (highest first, stable).
- **Move decision.** Iterative deepening (depths 1 to 4) picks the move. The learned table is then nudged by a shaping reward: the evaluator's change across the chosen move, in pawns. The game loop classifies the final position (Win/Loss/Draw/Ongoing from White's side) and replays ±1/0 over the recorded history into each engine's table.

## How the model is built

- **`Game` record.** The rules engine (python-chess) is an abstract `Game` record of total functions over move paths:
  - the legal moves in enumeration order;
  - the position the evaluator sees;
  - the FEN key;
  - the UCI key.

  A position is named by the path of moves from the root.
- **`Board` class.** The board the engine mutates is `GameTree.Board`, a class holding a move stack. `Push` and `Pop` are its only mutators.
- **Class methods.**
  - `ChessAI` is a class. Alpha-beta, iterative deepening and the move decision are methods with loops. They are proved against reference functions:
    - `Search.Minimax` / `ChildrenValue` is plain depth-limited minimax over the legal moves in enumeration order;
    - `Search.RootValues` / `FirstArgMax` gives the root choice.
  - Alpha-beta's loop over the children is split into `MaxNode` and `MinNode`, and its push/recurse/pop step into `SearchAfter`.
  - The root loop of iterative deepening is `SearchRoot`, whose push/search/pop step is `SearchRootMove`.
  - The reward write-back of the move decision is `Reinforce`.
- **Learned table.** `QLearning.QTable` is a class whose field is a `map<string, map<string, real>>`. It is specified by the functions `Lookup`, `Updated` and `ReplayAll`.
- **Numbers.**
  - Python floats are modelled as `real`, so there is no rounding.
  - Python's ±infinity in the search window is the `Ext` type (`NegInf | Fin(n) | PosInf`) of module `Scores`.
- **Clock.** The wall clock of iterative deepening is a parameter `depthsAllowed`: depth d starts only when d <= depthsAllowed. A depth that starts always completes, as in the source, where the clock is checked only between depths.
- **Alpha-beta contract.** Alpha-beta is specified by the fail-soft property `FailSoft(v, m, alpha, beta)`:
  - inside the window the returned value equals the minimax value m;
  - at or below alpha it is an upper bound on m;
  - at or above beta it is a lower bound on m.

  This is what makes the search sound. With the full window, which the root uses for its first move, it gives m exactly (`Scores.FullWindowExact`).

Behaviours of the code worth knowing; the model follows the code:

- **Root search window.** The root search passes the running alpha into each move's search (logic.py:143, 149, 155). A score-table entry is therefore an upper bound on that move's minimax value, not the value itself. Only the best move's entry is exact. The chosen move is still the first move with the largest minimax value, as `Engine.DecisionIsMinimax` states.
- **The root always maximises White's score.** The root search maximises the evaluator's White-side score, whoever is to move: every root move is searched by the minimiser (logic.py:149), and the largest value wins (logic.py:152). When the engine moves for Black (gui.py:168: against a human playing White, or the second engine in self-play), it therefore picks the move that is best for White. The model keeps this: `Engine.DecisionIsMinimax` gives White's maximum, `Minimax(g, root, k, true)`.
- **Terminal outcome.** The terminal outcome is classified from White's side, whichever engine asks (gui.py:178). A game that ends in another way (repetition, the 75-move rule) is "Ongoing" and gives reward 0. Both tables replay the whole history, with +reward and -reward (gui.py:179-183).

## Model

| member | source | states |
|---|---|---|
| Scores.Max | logic.py:111-113 | Python's `max` on ±inf-extended scores: an upper bound of both arguments and equal to one of them |
| Scores.Min | logic.py:121-123 | Python's `min` on extended scores: a lower bound of both arguments and equal to one of them |
| Scores.MaxStep | logic.py:109-115 | one maximiser step keeps the running value a fail-soft bound on the maximum over the children searched so far, when the window (alpha raised to the running value, beta) is still open |
| Scores.MinStep | logic.py:119-125 | the minimiser's counterpart: the running value stays a fail-soft bound on the minimum, with beta lowered to the running value |
| Scores.MaxNodeBounds | logic.py:107-116 | when the maximiser's loop ends, having searched every child or cut off at beta, its value is fail-soft for the node's minimax value |
| Scores.MinNodeBounds | logic.py:117-126 | when the minimiser's loop ends, having searched every child or cut off at alpha, its value is fail-soft for the node's minimax value |
| Scores.FullWindowExact | logic.py:143 | with the window (-inf, +inf) a fail-soft result is the exact minimax value |
| Scores.OpenAboveIsUpperBound | logic.py:149-155 | with window (alpha, +inf) the result bounds the minimax value from above, and is exact once it exceeds alpha |
| Evaluator.StaticScore | logic.py:60-89 | a decided position scores -10000, 0 or 10000; any other position scores exactly the evaluator's running sum, piece kinds first and then the four centre squares |
| Evaluator.MaterialClosedForm | logic.py:78-81 | summing count times weight over the six piece kinds, White minus Black, gives the weighted material difference |
| Evaluator.CentreClosedForm | logic.py:84-88 | summing ±20 over d4, d5, e4, e5 gives 20 times (White-held minus Black-held centre squares) |
| Evaluator.RunningSumClosedForm | logic.py:78-89 | the evaluator's running total is material difference plus centre bonus in closed form |
| Evaluator.CheckmateScore | logic.py:64-65 | a checkmated side to move scores -10000 when it is White and +10000 when it is Black |
| Evaluator.MirrorNegates | logic.py:60-89 | swapping colours (pieces, centre occupants, side to move) negates the score: the evaluator is symmetric |
| Evaluator.StartPositionBalanced | logic.py:69-89 | the initial position scores 0 |
| Evaluator.GoalTest | logic.py:177-183 | Win exactly when the side to move is checkmated and is not White, Loss exactly when White is checkmated, Ongoing exactly when the position is neither mate, stalemate nor insufficient material (Draw otherwise) |
| Evaluator.TerminalReward | gui.py:179 | the reward lies in -1..1; it is 1 exactly for a Win and -1 exactly for a Loss (0 for Draw and Ongoing) |
| Evaluator.GoalTestMatchesScore | logic.py:177-183 | the outcome is Ongoing exactly when the position is neither mate, stalemate nor insufficient material; a decided position scores 10000 times its terminal reward (+1 Win, -1 Loss, 0 Draw) |
| Ordering.Insert | logic.py:96 | inserting one move into the sorted list yields one more element, headed by the new move or the old head |
| Ordering.InsertPermutes | logic.py:96 | insertion adds exactly the new move to the multiset of moves |
| Ordering.InsertSorted | logic.py:96 | insertion into a list sorted by descending key keeps it sorted |
| Ordering.InsertStable | logic.py:96 | insertion keeps the relative order of equal-key moves, with the new move first among its key |
| Ordering.SortDesc | logic.py:96 | the stable reverse sort: a permutation of its input, non-increasing in the key, and for every key value the moves with that key in their input order |
| QLearning.Updated | logic.py:36-40 | the table after an update: key sets grow by exactly fen and move, and every other position and every other move of fen keep their values |
| QLearning.UpdatedEntry | logic.py:37-40 | the updated entry is stored and equals old + alpha*(reward - old), i.e. (1-alpha)*old + alpha*reward, with old = 0 for a fresh entry (so alpha*reward) |
| QLearning.UpdateIsLocal | logic.py:36-40 | an update changes no other (position, move) entry, neither its value nor whether it is stored |
| QLearning.InEntries | logic.py:46-51 | an entry is counted by the average exactly when it is stored |
| QLearning.EntriesAfterUpdate | logic.py:36-40 | an update adds exactly its own entry to the set of entries; the count grows by one for a fresh entry and not at all otherwise |
| QLearning.SumOverBounds | logic.py:49 | the sum over a set of entries whose values lie in [lo, hi] lies between |s|*lo and |s|*hi |
| QLearning.AverageBounds | logic.py:46-51 | the average of a non-empty table whose values lie in [lo, hi] lies in [lo, hi] |
| QLearning.StepBetween | logic.py:40 | with 0 < alpha < 1 one update moves the value strictly toward the reward without reaching it, and leaves a value equal to the reward unchanged |
| QLearning.RepeatBetween | logic.py:40 | n repeated updates toward a fixed reward stay between the start value and the reward |
| QLearning.RepeatConverges | logic.py:40 | each further update brings the value strictly closer to the reward and never past it, from either side |
| QLearning.StepGap | logic.py:40 | one update multiplies the gap to the reward by 1 - alpha |
| QLearning.RepeatClosedForm | logic.py:40 | after n updates with the same reward the gap to the reward is (1 - alpha)^n times the starting gap |
| QLearning.PowShrinks | logic.py:12 | for the rate strictly between 0 and 1 the factor (1 - alpha)^n is positive, at most 1 and strictly decreasing in n, so the gap to the reward shrinks geometrically |
| QLearning.PowBernoulli | logic.py:12 | for the rate strictly between 0 and 1, (1 - alpha)^n * (1 + n*alpha) is at most 1 (Bernoulli's inequality), so the factor falls below any positive bound |
| QLearning.WithinAfter | logic.py:40 | once n*alpha*eps exceeds the starting gap, n updates with the same reward leave the value within eps of the reward |
| QLearning.GapVanishes | logic.py:40 | repeated updates with the same reward converge to it: for every eps > 0 some number of updates brings the value within eps of the reward |
| QLearning.UpdateOneEntry | logic.py:36-40 | an update with key e moves entry (fen, move) by one step when e is that key and leaves it alone otherwise |
| QLearning.ReplaySnoc | gui.py:180-183 | replaying a history one entry longer is one more update after the shorter replay |
| QLearning.ReplayEntry | gui.py:180-183 | replaying a history updates each entry as many times as its key occurs in the history, each time one step toward the reward |
| QLearning.ReplayUntouched | gui.py:180-183 | an entry whose key does not occur in the history keeps its value and its stored status |
| QLearning.QTable.constructor | logic.py:16-20 | a new table holds what was loaded (empty when nothing could be loaded) |
| QLearning.QTable.GetQ | logic.py:33-34 | the stored value of a stored entry, and the default 0 for a missing position or a missing move |
| QLearning.QTable.Update | logic.py:36-40 | the table becomes `Updated(old table, fen, move, reward, alpha)`, alpha defaulting to 0.1 |
| QLearning.QTable.AverageQ | logic.py:46-51 | 0 for a table without entries, otherwise the value times the entry count equals the sum over all entries |
| QLearning.AssignTerminalCredit | gui.py:178-183 | after the loop the first table is the history replayed with the terminal reward, the second (when present) with its negation |
| GameTree.Board.constructor | gui.py:109 | a board over a game, holding the given moves already played (none for a new game) |
| GameTree.Board.Push | logic.py:110 | the move is appended to the stack |
| GameTree.Board.Pop | logic.py:112 | the last move is removed from the stack and returned |
| Search.MinimaxBestReply | logic.py:98-126 | the unpruned reference search `Search.Minimax`: a leaf (depth 0, game over, no legal move) is scored by the evaluator; any other position is worth a value that some legal move attains and no legal move beats, for the player to move |
| Search.ChildrenValue | logic.py:107-126 | the best child value is finite when there are moves, and -inf / +inf (the loop's start values) when there are none |
| Search.ChildrenValueSnoc | logic.py:111 | taking one more child folds its value into the running max (maximiser) or min (minimiser) |
| Search.ChildrenValueIsExtremum | logic.py:107-126 | the best child value bounds every child's value and is attained by some child |
| Search.ChildrenValueSameMoves | logic.py:103 | reordering the moves (as the Q-ordering does) does not change the best child value |
| Search.ChildrenValuePrefix | logic.py:109-115 | the best value over a prefix of the moves is no better than over all of them |
| Search.RootValues | logic.py:147-151 | one root value per root move: the opponent's minimax value after the move |
| Search.FirstArgMax | logic.py:152-154 | the index of the first largest value: it is a maximum and every earlier value is strictly smaller |
| Search.FirstArgMaxUnique | logic.py:152-154 | the first largest position is unique |
| Search.FirstBestStep | logic.py:152-154 | the strict `>` comparison keeps the first maximum over a prefix as one more value is scanned |
| Search.RootBestIsMinimax | logic.py:147-159 | when the root is not game over, the first best root move's value is the minimax value of the root for the maximiser |
| Engine.UciSet | logic.py:151 | every root move's key is a key of the score-table row |
| Engine.UciSetSnoc | logic.py:151 | one more root move adds its key to the row's key set |
| Engine.RowStep | logic.py:151 | writing a move's value into the row keeps the row an upper bound on each move searched so far, and leaves earlier keys alone when keys are distinct |
| Engine.ScanStep | logic.py:152-154 | the strict-improvement scan keeps the first best move of the prefix and its exact value |
| Engine.RootScanStep | logic.py:147-155 | one root move keeps the loop's state: alpha equals the current value, the row, the first best and its exact entry |
| Engine.RootScanDone | logic.py:147-158 | after all root moves the row has one key per move, each entry bounds that move's minimax value from above, and the best is the first move with the largest value, with its exact entry |
| Engine.CompletedDepths | logic.py:139-142 | the number of completed depths is the smaller of the maximum depth and the number of depths the clock lets start |
| Engine.ShapingReward | logic.py:169 | the reward is the evaluator's change across the move divided by 100: positive exactly when the score rose, negative exactly when it fell |
| Engine.DepthsMember | logic.py:139 | the depths searched are exactly 1 to k |
| Engine.RowsUpToExtend | logic.py:146 | adding a deeper row leaves the shallower rows as they were |
| Engine.RowsUpToMember | logic.py:146 | every completed depth has its row in the score table |
| Engine.TreeStep | logic.py:139-151 | completing one more depth extends the score table by exactly that depth's row |
| Engine.DecisionIsMinimax | logic.py:128-159 | the decision is a legal move, exists whenever there are legal moves and a depth completed, and when the root is not game over, its value at the last completed depth is White's maximum at the root (the maximiser's minimax value), whichever side is to move |
| Engine.ChessAI.constructor | logic.py:55-58 | the engine holds its table and maximum depth (4 by default) |
| Engine.ChessAI.EvaluateBoard | logic.py:60-89 | the evaluator's loops compute the static score of the current position |
| Engine.ChessAI.OrderedMoves | logic.py:92-96 | the legal moves as a permutation, non-increasing in learned value at the current position, ties kept in the rules engine's order |
| Engine.ChessAI.AlphaBeta | logic.py:98-126 | the board is restored, and for an open window the result is fail-soft for the minimax value of the position searched |
| Engine.ChessAI.SearchAfter | logic.py:110-112 | push, search, pop: the board is restored and the result is fail-soft for the child's minimax value |
| Engine.ChessAI.MaxNode | logic.py:107-116 | the maximiser's loop with beta cut-off is fail-soft for the best child value |
| Engine.ChessAI.MinNode | logic.py:117-126 | the minimiser's loop with alpha cut-off is fail-soft for the best child value |
| Engine.ChessAI.SearchRootMove | logic.py:148-150 | a root move's search bounds its minimax value from above, and is exact when it beats the running alpha |
| Engine.ChessAI.SearchRoot | logic.py:143-158 | one depth of the root loop: the row's keys, its upper-bound entries, and the first best move with its exact value (or the previous best when there are no moves) |
| Engine.ChessAI.IterativeDeepening | logic.py:128-159 | no result without legal moves; otherwise the table of rows for the completed depths and the first best move of the last one |
| Engine.ChessAI.Reinforce | logic.py:166-171 | the board is restored and the table gets one update of the chosen move at the pre-move position with the evaluator's change across the move, in pawns |
| Engine.ChessAI.ComputeBestMove | logic.py:161-175 | the deepening result, the table unchanged when there is no move, and otherwise exactly the shaping update of the chosen move |
| GameLoop.RecordedHistory | gui.py:155-172 | the history as written: one entry per move, the i-th keyed by the position after move i (as-written, see Findings) |
| GameLoop.DecisionHistory | logic.py:163-170 | the corrected history (see Findings): one entry per move, the i-th keyed by the position move i was chosen in |
| GameLoop.TerminalCreditReachesDecisions | gui.py:180-183 | replaying the decision history moves every consulted entry at least once toward the terminal reward |
| GameLoop.RecordedHistoryMissesDecision | gui.py:155 | the history as recorded (keyed after the move) leaves the entry the engine consulted for the move untouched |
| GameLoop.FinishGame | gui.py:177-183 | corrected history (see Findings): end of game, both tables become the pre-move-keyed decision history replayed with the outcome's reward, negated for the second table |

## Left out

- Loading and saving the table with pickle, and the file name: the table's initial contents are a constructor parameter.
- `QTABLE_MAX_SIZE`: it is stored but never enforced, so it has no effect to model.
- `visualize_tree`, the `print` calls and the timestamps: output only.
- The wall clock of iterative deepening: replaced by the number of depths the clock lets start (`depthsAllowed`).
- python-chess: abstracted as the `Game` record; its rules (move generation, checkmate detection, FEN) are not modelled.
- Floating-point rounding of the table values and of the shaping reward: values are real numbers.
- Python truthiness of a move (`if best_move`, `if current_best`): only the null move is falsy, and it is never a legal move, so these tests become `Some?`.
- `best_value` in `iterative_deepening`: assigned but never read.
- The pygame loop apart from the end-of-game credit assignment: input handling, drawing, hints and the choice of engine per side.
- Engine.ChessAI.AlphaBeta: the fail-soft result is stated only for calls with alpha < beta, which is every call the engine makes; a call with a closed window returns after searching one child and no bound is claimed for it.
- Engine.ChessAI.SearchRoot: the per-move upper bounds and the exact entry of the best move are stated under distinct move keys (`UciDistinct`), which the rules engine guarantees but the abstract `Game` does not.
- QLearning.QTable.AverageQ: a ghost function, because summing over the finite set of entries picks them in an unspecified order; its value and bounds are stated, not an executable loop.

## Findings

| source | as written | input that shows it | evidently intended | confidence | as-written member | corrected member |
|---|---|---|---|---|---|---|
| gui.py:155, gui.py:172 | each move is pushed first and then recorded under `board.fen()`, the position after the move | a one-move game: the move is recorded under the position after it, a key the engine never consults for that move, so the terminal reward never reaches the entry the engine read (logic.py:95-96) and wrote (logic.py:163, 170) | record each move under the position before it, so the terminal reward updates the entry that ordered and chose the move | not executed | GameLoop.RecordedHistoryMissesDecision | GameLoop.TerminalCreditReachesDecisions, GameLoop.FinishGame |
