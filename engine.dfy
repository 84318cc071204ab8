/**
 * The decision engine: static evaluation of the board, Q-ordered moves,
 * fail-soft alpha-beta over the shared board, iterative deepening under a
 * clock, and the move decision that writes a shaping reward back into the
 * learned table.
 */
module Engine {
  import opened Options
  import opened Scores
  import opened Evaluator
  import opened Ordering
  import opened QLearning
  import opened GameTree
  import opened Search

  const MaxDepth: nat := 4

  /** Search depth -> move key -> value the root search returned for that move. */
  type ScoreTable = map<nat, map<string, int>>

  /** The ordering key of a move at the position with key fen: its learned value. */
  function QKey(q: Table, g: Game, fen: string): Move -> real {
    m => Lookup(q, fen, g.uci(m))
  }

  /** The move keys of the moves. */
  function UciSet(g: Game, ms: seq<Move>): (r: set<string>)
    ensures forall j :: 0 <= j < |ms| ==> g.uci(ms[j]) in r
  {
    set m | m in ms :: g.uci(m)
  }

  /** No two of the moves share a move key (the rules engine's keys are canonical). */
  predicate UciDistinct(g: Game, ms: seq<Move>) {
    forall i, j :: 0 <= i < j < |ms| ==> g.uci(ms[i]) != g.uci(ms[j])
  }

  lemma UciSetSnoc(g: Game, ms: seq<Move>, i: nat)
    requires i < |ms|
    ensures UciSet(g, ms[..i + 1]) == UciSet(g, ms[..i]) + {g.uci(ms[i])}
  {
    assert ms[..i + 1] == ms[..i] + [ms[i]];
  }

  /**
   * The score table row after the first n moves: one entry per move key
   * seen, and, with distinct move keys, each move's entry at least its
   * value in vs.
   */
  ghost predicate RowState(g: Game, moves: seq<Move>, vs: seq<int>, row: map<string, int>, n: nat) {
    && n <= |moves| == |vs|
    && row.Keys == UciSet(g, moves[..n])
    && (UciDistinct(g, moves) ==>
          forall j :: 0 <= j < n ==> g.uci(moves[j]) in row && vs[j] <= row[g.uci(moves[j])])
  }

  /** Recording move n's result, no smaller than its value, keeps the row's state and no earlier entry changes. */
  lemma RowStep(g: Game, moves: seq<Move>, vs: seq<int>, row: map<string, int>, n: nat, value: int)
    requires RowState(g, moves, vs, row, n) && n < |moves|
    requires vs[n] <= value
    ensures RowState(g, moves, vs, row[g.uci(moves[n]) := value], n + 1)
    ensures UciDistinct(g, moves) ==>
              forall j :: 0 <= j < n ==> row[g.uci(moves[n]) := value][g.uci(moves[j])] == row[g.uci(moves[j])]
  {
    UciSetSnoc(g, moves, n);
  }

  /**
   * The root scan after its first i moves, with vs the moves' values:
   * cur is the running best (minus infinity before any move) and bi the
   * first index holding it.
   */
  ghost predicate Scanned(vs: seq<int>, i: nat, bi: nat, cur: Ext) {
    && i <= |vs|
    && (i == 0 ==> cur == NegInf)
    && (i > 0 ==> FirstBest(vs, i, bi) && cur == Fin(vs[bi]))
  }

  /**
   * Scanning move i, whose search result bounds its value from above and
   * is exact when it beats the running best: the move takes over exactly
   * when its result beats the running best.
   */
  lemma ScanStep(vs: seq<int>, i: nat, bi: nat, cur: Ext, value: int)
    requires Scanned(vs, i, bi, cur) && i < |vs|
    requires vs[i] <= value
    requires Lt(cur, Fin(value)) ==> value == vs[i]
    ensures Lt(cur, Fin(value)) ==> Scanned(vs, i + 1, i, Fin(value))
    ensures !Lt(cur, Fin(value)) ==> Scanned(vs, i + 1, bi, cur)
  {
    if i > 0 {
      FirstBestStep(vs, i, bi);
    }
  }

  /**
   * The state of the root scan after its first i moves, vs being the
   * moves' values: the row so far, the running best value (which is also
   * the window's lower end) and the move holding it, first among equals.
   */
  ghost predicate RootScan(g: Game, moves: seq<Move>, vs: seq<int>, previous: Option<Move>, i: nat,
                           row: map<string, int>, currentBest: Option<Move>, currentValue: Ext, alpha: Ext, bi: nat) {
    && alpha == currentValue
    && RowState(g, moves, vs, row, i)
    && Scanned(vs, i, bi, currentValue)
    && (i == 0 ==> currentBest == previous)
    && (i > 0 ==> currentBest == Some(moves[bi]))
    && (UciDistinct(g, moves) && i > 0 ==> row[g.uci(moves[bi])] == vs[bi])
  }

  /**
   * Scanning move i with a result that bounds its value from above, exactly
   * when it beats the running best: the result is recorded, the move takes
   * over when it is strictly better, and the window's lower end rises.
   */
  lemma RootScanStep(g: Game, moves: seq<Move>, vs: seq<int>, previous: Option<Move>, i: nat,
                     row: map<string, int>, currentBest: Option<Move>, currentValue: Ext, alpha: Ext, bi: nat, value: int)
    requires RootScan(g, moves, vs, previous, i, row, currentBest, currentValue, alpha, bi)
    requires i < |moves|
    requires vs[i] <= value
    requires Lt(alpha, Fin(value)) ==> value == vs[i]
    ensures var better := Lt(currentValue, Fin(value));
            RootScan(g, moves, vs, previous, i + 1, row[g.uci(moves[i]) := value],
                     if better then Some(moves[i]) else currentBest,
                     if better then Fin(value) else currentValue,
                     Max(alpha, Fin(value)),
                     if better then i else bi)
  {
    RowStep(g, moves, vs, row, i, value);
    ScanStep(vs, i, bi, currentValue, value);
  }

  /**
   * A finished root scan with the exact root values: the row covers every
   * move with an upper bound on its value, and the best move is the first
   * with the largest value, recorded exactly.
   */
  lemma RootScanDone(g: Game, root: seq<Move>, moves: seq<Move>, depth: nat, previous: Option<Move>,
                     row: map<string, int>, currentBest: Option<Move>, currentValue: Ext, alpha: Ext, bi: nat)
    requires depth >= 1
    requires RootScan(g, moves, RootValues(g, root, moves, depth), previous, |moves|, row, currentBest, currentValue, alpha, bi)
    ensures row.Keys == UciSet(g, moves)
    ensures UciDistinct(g, moves) ==>
              forall j :: 0 <= j < |moves| ==> RootValue(g, root, moves[j], depth) <= row[g.uci(moves[j])]
    ensures moves == [] ==> currentBest == previous && currentValue == NegInf
    ensures moves != [] ==>
              var b := FirstArgMax(RootValues(g, root, moves, depth));
              && currentBest == Some(moves[b])
              && currentValue == Fin(RootValue(g, root, moves[b], depth))
              && (UciDistinct(g, moves) ==> row[g.uci(moves[b])] == currentValue.n)
  {
    var vs := RootValues(g, root, moves, depth);
    assert moves[..|moves|] == moves;
    if moves != [] {
      FirstArgMaxUnique(vs, bi);
    }
  }

  /**
   * The number of depths iterative deepening completes when the clock lets
   * the first depthsAllowed depths start: a depth is never interrupted, so
   * every depth that starts also completes.
   */
  function CompletedDepths(maxDepth: nat, depthsAllowed: nat): (r: nat)
    ensures r <= maxDepth && r <= depthsAllowed
    ensures r == maxDepth || r == depthsAllowed
  {
    if depthsAllowed < maxDepth then depthsAllowed else maxDepth
  }

  /** The evaluator's change across move m, in pawns. */
  function ShapingReward(g: Game, root: seq<Move>, m: Move): (r: real)
    ensures r > 0.0 <==> StaticScore(g.position(root + [m])) > StaticScore(g.position(root))
    ensures r < 0.0 <==> StaticScore(g.position(root + [m])) < StaticScore(g.position(root))
    ensures r * 100.0 == (StaticScore(g.position(root + [m])) - StaticScore(g.position(root))) as real
  {
    (StaticScore(g.position(root + [m])) - StaticScore(g.position(root))) as real / 100.0
  }

  /** The depths 1 to k. */
  function Depths(k: nat): set<nat> {
    if k == 0 then {} else Depths(k - 1) + {k}
  }

  lemma {:induction false} DepthsMember(k: nat, d: nat)
    ensures d in Depths(k) <==> 1 <= d <= k
  {
    if k > 0 {
      DepthsMember(k - 1, d);
    }
  }

  /**
   * The score table row of depth d: one entry per root move key and, with
   * distinct keys, each move's entry an upper bound on its minimax value.
   */
  ghost predicate RowOf(g: Game, root: seq<Move>, moves: seq<Move>, d: nat, row: map<string, int>) {
    && d >= 1
    && row.Keys == UciSet(g, moves)
    && (UciDistinct(g, moves) ==>
          forall j :: 0 <= j < |moves| ==> RootValue(g, root, moves[j], d) <= row[g.uci(moves[j])])
  }

  /** Depths 1 to k of the score table each hold their row. */
  ghost predicate RowsUpTo(g: Game, root: seq<Move>, moves: seq<Move>, k: nat, tree: ScoreTable)
    decreases k
  {
    k == 0 || (k in tree && RowOf(g, root, moves, k, tree[k]) && RowsUpTo(g, root, moves, k - 1, tree))
  }

  /** Adding a row above depth k leaves the rows up to k as they were. */
  lemma {:induction false} RowsUpToExtend(g: Game, root: seq<Move>, moves: seq<Move>, k: nat, tree: ScoreTable, n: nat, row: map<string, int>)
    requires k < n
    requires RowsUpTo(g, root, moves, k, tree)
    ensures RowsUpTo(g, root, moves, k, tree[n := row])
  {
    if k > 0 {
      RowsUpToExtend(g, root, moves, k - 1, tree, n, row);
      assert tree[n := row][k] == tree[k];
    }
  }

  /** Every depth from 1 to k has its row. */
  lemma {:induction false} RowsUpToMember(g: Game, root: seq<Move>, moves: seq<Move>, k: nat, tree: ScoreTable, d: nat)
    requires RowsUpTo(g, root, moves, k, tree)
    requires 1 <= d <= k
    ensures d in tree && RowOf(g, root, moves, d, tree[d])
  {
    if d < k {
      RowsUpToMember(g, root, moves, k - 1, tree, d);
    }
  }

  /** The score table once depths 1 to k have completed: exactly those depths, each with its row. */
  ghost predicate TreeState(g: Game, root: seq<Move>, moves: seq<Move>, k: nat, tree: ScoreTable) {
    tree.Keys == Depths(k) && RowsUpTo(g, root, moves, k, tree)
  }

  /**
   * The best move once depths 1 to k have completed: none before any
   * depth, then the first move with the largest value at depth k, its
   * entry in the last row being exact.
   */
  ghost predicate BestState(g: Game, root: seq<Move>, moves: seq<Move>, k: nat, best: Option<Move>, tree: ScoreTable) {
    && moves != []
    && (best.None? <==> k == 0)
    && (k > 0 ==> best == Some(moves[FirstArgMax(RootValues(g, root, moves, k))]))
    && (UciDistinct(g, moves) && k > 0 ==>
          k in tree && g.uci(best.value) in tree[k] && tree[k][g.uci(best.value)] == RootValue(g, root, best.value, k))
  }

  /** The state of iterative deepening over the ordered root moves once depths 1 to k have completed. */
  ghost predicate Deepened(g: Game, root: seq<Move>, moves: seq<Move>, k: nat, best: Option<Move>, tree: ScoreTable) {
    TreeState(g, root, moves, k, tree) && BestState(g, root, moves, k, best, tree)
  }

  /** What iterative deepening returns when k depths complete: nothing at all without moves. */
  ghost predicate DeepeningResult(g: Game, root: seq<Move>, moves: seq<Move>, k: nat, best: Option<Move>, tree: Option<ScoreTable>) {
    if moves == [] then best == None && tree == None
    else tree.Some? && Deepened(g, root, moves, k, best, tree.value)
  }

  /** Completing depth k + 1 with its row. */
  lemma TreeStep(g: Game, root: seq<Move>, moves: seq<Move>, k: nat, tree: ScoreTable, row: map<string, int>)
    requires TreeState(g, root, moves, k, tree)
    requires RowOf(g, root, moves, k + 1, row)
    ensures TreeState(g, root, moves, k + 1, tree[k + 1 := row])
  {
    RowsUpToExtend(g, root, moves, k, tree, k + 1, row);
  }

  /**
   * The decision is sound: once at least one depth has completed, a move is
   * chosen, it is a legal move, and, when the root position is not over,
   * its value at the deepest completed depth is the root's minimax value,
   * whatever order the moves were searched in.
   */
  lemma DecisionIsMinimax(g: Game, root: seq<Move>, moves: seq<Move>, k: nat, best: Option<Move>, tree: Option<ScoreTable>)
    requires multiset(moves) == multiset(g.legal(root))
    requires DeepeningResult(g, root, moves, k, best, tree)
    ensures best.Some? ==> best.value in g.legal(root)
    ensures g.legal(root) != [] && k > 0 ==> best.Some?
    ensures best.Some? && !g.position(root).isGameOver ==>
              RootValue(g, root, best.value, k) == Minimax(g, root, k, true)
  {
    if g.legal(root) != [] {
      assert g.legal(root)[0] in multiset(moves);
    }
    if best.Some? {
      assert best.value in multiset(moves);
      if !g.position(root).isGameOver {
        RootBestIsMinimax(g, root, moves, k);
      }
    }
  }

  class ChessAI {
    const qtable: QTable
    const maxDepth: nat

    constructor (qtable: QTable, maxDepth: nat := MaxDepth)
      ensures this.qtable == qtable && this.maxDepth == maxDepth
    {
      this.qtable := qtable;
      this.maxDepth := maxDepth;
    }

    /** The static score of the board's current position. */
    method EvaluateBoard(board: Board) returns (score: int)
      ensures score == StaticScore(board.Current())
    {
      var p := board.Current();
      if p.isCheckmate {
        return if p.turn == White then -MateScore else MateScore;
      }
      if p.isStalemate || p.isInsufficientMaterial {
        return 0;
      }
      score := 0;
      for i := 0 to |PieceOrder|
        invariant score == MaterialOver(p, PieceOrder[..i])
      {
        var kind := PieceOrder[i];
        assert PieceOrder[..i + 1][..i] == PieceOrder[..i];
        score := score + p.Pieces(kind, White) * PieceValue(kind);
        score := score - p.Pieces(kind, Black) * PieceValue(kind);
      }
      assert PieceOrder[..|PieceOrder|] == PieceOrder;
      var centre := CentreSquares(p);
      for j := 0 to |centre|
        invariant score == MaterialOver(p, PieceOrder) + CentreOver(centre[..j])
      {
        assert centre[..j + 1][..j] == centre[..j];
        match centre[j] {
          case Some(c) =>
            score := score + (if c == White then CentreBonus else -CentreBonus);
          case None =>
        }
      }
      assert centre[..|centre|] == centre;
      RunningSumClosedForm(p);
    }

    /**
     * The legal moves sorted by their learned value at the current position,
     * highest first; moves of equal value keep the rules engine's order.
     */
    function OrderedMoves(board: Board): (r: seq<Move>)
      reads qtable, board
      ensures multiset(r) == multiset(board.LegalMoves())
      ensures forall i, j :: 0 <= i < j < |r| ==>
                qtable.GetQ(board.Fen(), board.game.uci(r[i])) >= qtable.GetQ(board.Fen(), board.game.uci(r[j]))
      ensures forall v :: WithKey(r, QKey(qtable.q, board.game, board.Fen()), v)
                       == WithKey(board.LegalMoves(), QKey(qtable.q, board.game, board.Fen()), v)
    {
      var key := QKey(qtable.q, board.game, board.Fen());
      var r := SortDesc(board.LegalMoves(), key);
      assert forall i, j :: 0 <= i < j < |r| ==> key(r[i]) >= key(r[j]);
      r
    }

    /**
     * Fail-soft alpha-beta from the board's current position. The board's
     * move stack is the same on return, and whenever the window is
     * non-empty the result obeys the fail-soft bounds against plain
     * minimax; with the full window it is the minimax value itself.
     */
    method AlphaBeta(board: Board, depth: nat, alpha: Ext, beta: Ext, maximizing: bool) returns (v: int)
      modifies board
      ensures board.stack == old(board.stack)
      ensures Lt(alpha, beta) ==> FailSoft(v, Minimax(board.game, old(board.stack), depth, maximizing), alpha, beta)
      decreases depth, 1
    {
      ghost var g := board.game;
      ghost var path := board.stack;
      if depth == 0 || board.IsGameOver() {
        v := EvaluateBoard(board);
        return;
      }
      var moves := OrderedMoves(board);
      if |moves| == 0 {
        assert |multiset(g.legal(path))| == 0;
        v := EvaluateBoard(board);
        return;
      }
      forall m ensures m in moves <==> m in g.legal(path) {
        assert m in moves <==> m in multiset(moves);
      }
      ChildrenValueSameMoves(g, path, moves, g.legal(path), depth, maximizing);
      if maximizing {
        v := MaxNode(board, moves, depth, alpha, beta);
      } else {
        v := MinNode(board, moves, depth, alpha, beta);
      }
    }

    /** Play m, search the resulting position with alpha-beta, and take m back. */
    method SearchAfter(board: Board, m: Move, depth: nat, alpha: Ext, beta: Ext, maximizing: bool) returns (v: int)
      modifies board
      ensures board.stack == old(board.stack)
      ensures Lt(alpha, beta) ==> FailSoft(v, Minimax(board.game, old(board.stack) + [m], depth, maximizing), alpha, beta)
      decreases depth, 2
    {
      board.Push(m);
      v := AlphaBeta(board, depth, alpha, beta, maximizing);
      var _ := board.Pop();
    }

    /**
     * The maximising player's loop over the ordered moves: each child is
     * searched with alpha raised to the best value so far, and the loop
     * stops once alpha reaches beta.
     */
    method MaxNode(board: Board, moves: seq<Move>, depth: nat, alpha: Ext, beta: Ext) returns (v: int)
      requires depth > 0 && moves != []
      modifies board
      ensures board.stack == old(board.stack)
      ensures Lt(alpha, beta) ==> FailSoft(v, ChildrenValue(board.game, old(board.stack), moves, depth, true).n, alpha, beta)
      decreases depth, 0
    {
      ghost var g := board.game;
      ghost var path := board.stack;
      ghost var ok := Lt(alpha, beta);
      var value := NegInf;
      var a := alpha;
      var i := 0;
      while i < |moves|
        invariant 0 <= i <= |moves|
        invariant board.stack == path
        invariant a == Max(alpha, value)
        invariant i == 0 ==> value == NegInf
        invariant i > 0 ==> value.Fin?
        invariant ok ==> Lt(a, beta)
        invariant ok ==> Bounds(value, ChildrenValue(g, path, moves[..i], depth, true), alpha, beta)
      {
        var child := SearchAfter(board, moves[i], depth - 1, a, beta, false);
        ChildrenValueSnoc(g, path, moves, i, depth, true);
        if ok {
          MaxStep(alpha, beta, value, ChildrenValue(g, path, moves[..i], depth, true), child, ChildValue(g, path, moves[i], depth, true));
        }
        value := Max(value, Fin(child));
        a := Max(a, value);
        i := i + 1;
        if Le(beta, a) {
          break;
        }
      }
      v := value.n;
      if ok {
        ChildrenValuePrefix(g, path, moves, i, depth, true);
        assert moves[..|moves|] == moves;
        MaxNodeBounds(alpha, beta, v, ChildrenValue(g, path, moves[..i], depth, true), ChildrenValue(g, path, moves, depth, true).n);
      }
    }

    /**
     * The minimising player's loop: each child is searched with beta
     * lowered to the best value so far, and the loop stops once beta
     * reaches alpha.
     */
    method MinNode(board: Board, moves: seq<Move>, depth: nat, alpha: Ext, beta: Ext) returns (v: int)
      requires depth > 0 && moves != []
      modifies board
      ensures board.stack == old(board.stack)
      ensures Lt(alpha, beta) ==> FailSoft(v, ChildrenValue(board.game, old(board.stack), moves, depth, false).n, alpha, beta)
      decreases depth, 0
    {
      ghost var g := board.game;
      ghost var path := board.stack;
      ghost var ok := Lt(alpha, beta);
      var value := PosInf;
      var b := beta;
      var i := 0;
      while i < |moves|
        invariant 0 <= i <= |moves|
        invariant board.stack == path
        invariant b == Min(beta, value)
        invariant i == 0 ==> value == PosInf
        invariant i > 0 ==> value.Fin?
        invariant ok ==> Lt(alpha, b)
        invariant ok ==> Bounds(value, ChildrenValue(g, path, moves[..i], depth, false), alpha, beta)
      {
        var child := SearchAfter(board, moves[i], depth - 1, alpha, b, true);
        ChildrenValueSnoc(g, path, moves, i, depth, false);
        if ok {
          MinStep(alpha, beta, value, ChildrenValue(g, path, moves[..i], depth, false), child, ChildValue(g, path, moves[i], depth, false));
        }
        value := Min(value, Fin(child));
        b := Min(b, value);
        i := i + 1;
        if Le(b, alpha) {
          break;
        }
      }
      v := value.n;
      if ok {
        ChildrenValuePrefix(g, path, moves, i, depth, false);
        assert moves[..|moves|] == moves;
        MinNodeBounds(alpha, beta, v, ChildrenValue(g, path, moves[..i], depth, false), ChildrenValue(g, path, moves, depth, false).n);
      }
    }

    /**
     * Play root move m, search the reply position to depth - 1 for the
     * minimising side with the window (alpha, +infinity), and take m back.
     * The result bounds the move's minimax value from above, exactly when
     * it beats alpha.
     */
    method SearchRootMove(board: Board, m: Move, depth: nat, alpha: Ext) returns (value: int)
      requires depth >= 1 && alpha != PosInf
      modifies board
      ensures board.stack == old(board.stack)
      ensures RootValue(board.game, old(board.stack), m, depth) <= value
      ensures Lt(alpha, Fin(value)) ==> value == RootValue(board.game, old(board.stack), m, depth)
    {
      ghost var root := board.stack;
      value := SearchAfter(board, m, depth - 1, alpha, PosInf, false);
      OpenAboveIsUpperBound(value, RootValue(board.game, root, m, depth), alpha);
    }

    /**
     * One depth of iterative deepening: every ordered root move is searched
     * to depth - 1 with the window (best so far, +infinity), its result is
     * recorded under its move key, and the first move with the strictly
     * largest result becomes the depth's best move (previous when there are
     * no moves).
     */
    method SearchRoot(board: Board, moves: seq<Move>, depth: nat, previous: Option<Move>)
      returns (row: map<string, int>, currentBest: Option<Move>, currentValue: Ext)
      requires depth >= 1
      modifies board
      ensures board.stack == old(board.stack)
      ensures row.Keys == UciSet(board.game, moves)
      ensures UciDistinct(board.game, moves) ==>
                forall j :: 0 <= j < |moves| ==>
                  RootValue(board.game, old(board.stack), moves[j], depth) <= row[board.game.uci(moves[j])]
      ensures moves == [] ==> currentBest == previous && currentValue == NegInf
      ensures moves != [] ==>
                var b := FirstArgMax(RootValues(board.game, old(board.stack), moves, depth));
                && currentBest == Some(moves[b])
                && currentValue == Fin(RootValue(board.game, old(board.stack), moves[b], depth))
                && (UciDistinct(board.game, moves) ==> row[board.game.uci(moves[b])] == currentValue.n)
    {
      ghost var root := board.stack;
      ghost var vs := RootValues(board.game, root, moves, depth);
      ghost var bi: nat := 0;
      var g := board.game;
      var alpha := NegInf;
      currentBest := previous;
      currentValue := NegInf;
      row := map[];
      for i := 0 to |moves|
        invariant board.stack == root
        invariant RootScan(g, moves, vs, previous, i, row, currentBest, currentValue, alpha, bi)
      {
        var value := SearchRootMove(board, moves[i], depth, alpha);
        RootScanStep(g, moves, vs, previous, i, row, currentBest, currentValue, alpha, bi, value);
        row := row[g.uci(moves[i]) := value];
        if Lt(currentValue, Fin(value)) {
          currentValue := Fin(value);
          currentBest := Some(moves[i]);
          bi := i;
        }
        alpha := Max(alpha, Fin(value));
      }
      RootScanDone(g, root, moves, depth, previous, row, currentBest, currentValue, alpha, bi);
    }

    /**
     * Iterative deepening over the ordered moves, depth 1 up to maxDepth.
     * The wall clock is replaced by depthsAllowed, the number of depths the
     * clock lets start; a started depth always completes.
     */
    method IterativeDeepening(board: Board, depthsAllowed: nat) returns (best: Option<Move>, tree: Option<ScoreTable>)
      modifies board
      ensures board.stack == old(board.stack)
      ensures DeepeningResult(board.game, old(board.stack), old(OrderedMoves(board)), CompletedDepths(maxDepth, depthsAllowed), best, tree)
    {
      best := None;
      var searchTree: ScoreTable := map[];
      var moves := OrderedMoves(board);
      if moves == [] {
        return None, None;
      }
      ghost var g := board.game;
      ghost var root := board.stack;
      var depth := 1;
      while depth <= maxDepth
        invariant 1 <= depth <= maxDepth + 1
        invariant depth - 1 <= depthsAllowed
        invariant board.stack == root
        invariant Deepened(g, root, moves, depth - 1, best, searchTree)
      {
        if depth > depthsAllowed {
          break;
        }
        var row, currentBest, _ := SearchRoot(board, moves, depth, best);
        TreeStep(g, root, moves, depth - 1, searchTree, row);
        searchTree := searchTree[depth := row];
        if currentBest.Some? {
          best := currentBest;
        }
        depth := depth + 1;
      }
      tree := Some(searchTree);
    }

    /**
     * Play the chosen move, score the position it leads to, update the
     * move's learned value at the position before it toward the change in
     * score, in pawns, and take the move back.
     */
    method Reinforce(board: Board, m: Move, fen: string, prevScore: int)
      requires fen == board.Fen() && prevScore == StaticScore(board.Current())
      modifies board, qtable
      ensures board.stack == old(board.stack)
      ensures qtable.q == Updated(old(qtable.q), board.game.fen(old(board.stack)), board.game.uci(m),
                                  ShapingReward(board.game, old(board.stack), m), LearningRate)
    {
      ghost var root := board.stack;
      board.Push(m);
      var newScore := EvaluateBoard(board);
      var reward := (newScore - prevScore) as real / 100.0;
      assert reward == ShapingReward(board.game, root, m);
      qtable.Update(fen, board.game.uci(m), reward);
      var _ := board.Pop();
    }

    /**
     * Decide a move: run iterative deepening and, when it returns a move,
     * update that move's learned value at the current position toward the
     * evaluator's change across the move, in pawns. The board is left as
     * it was.
     */
    method ComputeBestMove(board: Board, depthsAllowed: nat) returns (best: Option<Move>, tree: Option<ScoreTable>)
      modifies board, qtable
      ensures board.stack == old(board.stack)
      ensures DeepeningResult(board.game, old(board.stack), old(OrderedMoves(board)), CompletedDepths(maxDepth, depthsAllowed), best, tree)
      ensures best.None? ==> qtable.q == old(qtable.q)
      ensures best.Some? ==>
                qtable.q == Updated(old(qtable.q), board.game.fen(old(board.stack)), board.game.uci(best.value),
                                    ShapingReward(board.game, old(board.stack), best.value), LearningRate)
    {
      var fen := board.Fen();
      var prevScore := EvaluateBoard(board);
      ghost var q0 := qtable.q;
      best, tree := IterativeDeepening(board, depthsAllowed);
      assert qtable.q == q0;
      if best.Some? {
        Reinforce(board, best.value, fen, prevScore);
      }
    }
  }
}
