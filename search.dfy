/**
 * The reference definitions the search is proved against: plain
 * depth-limited minimax over the legal moves in enumeration order, with
 * the maximiser and minimiser alternating through an explicit flag, and
 * the root choice of iterative deepening.
 */
module Search {
  import opened Scores
  import opened Evaluator
  import opened GameTree

  /**
   * The minimax value of the position reached by path, searched depth
   * plies deep. Depth 0, a game-over position and a position without legal
   * moves are leaves, scored by the evaluator.
   */
  function Minimax(g: Game, path: seq<Move>, depth: nat, maximizing: bool): int
    decreases depth, 2, 0
  {
    var pos := g.position(path);
    if depth == 0 || pos.isGameOver then StaticScore(pos)
    else if |g.legal(path)| == 0 then StaticScore(pos)
    else ChildrenValue(g, path, g.legal(path), depth, maximizing).n
  }

  /** The value of the child reached by move m, searched by the other player. */
  function ChildValue(g: Game, path: seq<Move>, m: Move, depth: nat, maximizing: bool): int
    requires depth > 0
    decreases depth, 0, 0
  {
    Minimax(g, path + [m], depth - 1, !maximizing)
  }

  /**
   * The best child value over the moves ms for the player to move: the
   * maximum for the maximiser, starting from NegInf, the minimum for the
   * minimiser, starting from PosInf.
   */
  function ChildrenValue(g: Game, path: seq<Move>, ms: seq<Move>, depth: nat, maximizing: bool): (r: Ext)
    requires depth > 0
    ensures ms != [] ==> r.Fin?
    ensures ms == [] ==> r == (if maximizing then NegInf else PosInf)
    decreases depth, 1, |ms|
  {
    if ms == [] then (if maximizing then NegInf else PosInf)
    else
      var rest := ChildrenValue(g, path, ms[..|ms| - 1], depth, maximizing);
      var c := Fin(ChildValue(g, path, ms[|ms| - 1], depth, maximizing));
      if maximizing then Max(rest, c) else Min(rest, c)
  }

  /** Adding one more move to the list combines its child value into the best so far. */
  lemma ChildrenValueSnoc(g: Game, path: seq<Move>, ms: seq<Move>, i: nat, depth: nat, maximizing: bool)
    requires depth > 0 && i < |ms|
    ensures ChildrenValue(g, path, ms[..i + 1], depth, maximizing)
            == (if maximizing then Max else Min)(ChildrenValue(g, path, ms[..i], depth, maximizing),
                                                 Fin(ChildValue(g, path, ms[i], depth, maximizing)))
  {
    assert ms[..i + 1][..i] == ms[..i];
  }

  /**
   * The best child value is an extremum: at least (for the maximiser) or at
   * most (for the minimiser) every child value, and equal to one of them.
   */
  lemma {:induction false} ChildrenValueIsExtremum(g: Game, path: seq<Move>, ms: seq<Move>, depth: nat, maximizing: bool)
    requires depth > 0
    ensures forall j :: 0 <= j < |ms| ==>
              if maximizing then Le(Fin(ChildValue(g, path, ms[j], depth, maximizing)), ChildrenValue(g, path, ms, depth, maximizing))
              else Le(ChildrenValue(g, path, ms, depth, maximizing), Fin(ChildValue(g, path, ms[j], depth, maximizing)))
    ensures ms != [] ==> exists j :: 0 <= j < |ms| && ChildrenValue(g, path, ms, depth, maximizing) == Fin(ChildValue(g, path, ms[j], depth, maximizing))
    decreases |ms|
  {
    if ms != [] {
      var n := |ms| - 1;
      var init := ms[..n];
      ChildrenValueIsExtremum(g, path, init, depth, maximizing);
      var rest := ChildrenValue(g, path, init, depth, maximizing);
      var last := Fin(ChildValue(g, path, ms[n], depth, maximizing));
      var r := ChildrenValue(g, path, ms, depth, maximizing);
      assert r == if maximizing then Max(rest, last) else Min(rest, last);
      forall j | 0 <= j < |ms|
        ensures if maximizing then Le(Fin(ChildValue(g, path, ms[j], depth, maximizing)), r)
                else Le(r, Fin(ChildValue(g, path, ms[j], depth, maximizing)))
      {
        if j < n {
          assert init[j] == ms[j];
        }
      }
      if r == last {
        assert 0 <= n < |ms| && r == Fin(ChildValue(g, path, ms[n], depth, maximizing));
      } else {
        var k :| 0 <= k < |init| && rest == Fin(ChildValue(g, path, init[k], depth, maximizing));
        assert init[k] == ms[k];
        assert 0 <= k < |ms| && r == Fin(ChildValue(g, path, ms[k], depth, maximizing));
      }
    }
  }

  /** The best child value depends only on which moves are available, not on their order. */
  lemma ChildrenValueSameMoves(g: Game, path: seq<Move>, ms1: seq<Move>, ms2: seq<Move>, depth: nat, maximizing: bool)
    requires depth > 0
    requires forall m :: m in ms1 <==> m in ms2
    ensures ChildrenValue(g, path, ms1, depth, maximizing) == ChildrenValue(g, path, ms2, depth, maximizing)
  {
    var v1 := ChildrenValue(g, path, ms1, depth, maximizing);
    var v2 := ChildrenValue(g, path, ms2, depth, maximizing);
    ChildrenValueIsExtremum(g, path, ms1, depth, maximizing);
    ChildrenValueIsExtremum(g, path, ms2, depth, maximizing);
    assert ms1 == [] <==> ms2 == [] by {
      if ms1 != [] {
        assert ms1[0] in ms2;
      }
      if ms2 != [] {
        assert ms2[0] in ms1;
      }
    }
    if ms1 != [] {
      var j1 :| 0 <= j1 < |ms1| && v1 == Fin(ChildValue(g, path, ms1[j1], depth, maximizing));
      var j2 :| 0 <= j2 < |ms2| && v2 == Fin(ChildValue(g, path, ms2[j2], depth, maximizing));
      assert ms1[j1] in ms2;
      assert ms2[j2] in ms1;
      var k1 :| 0 <= k1 < |ms2| && ms2[k1] == ms1[j1];
      var k2 :| 0 <= k2 < |ms1| && ms1[k2] == ms2[j2];
    }
  }

  /** The best child value over a prefix is no better than over the whole list. */
  lemma ChildrenValuePrefix(g: Game, path: seq<Move>, ms: seq<Move>, i: nat, depth: nat, maximizing: bool)
    requires depth > 0 && i <= |ms|
    ensures maximizing ==> Le(ChildrenValue(g, path, ms[..i], depth, maximizing), ChildrenValue(g, path, ms, depth, maximizing))
    ensures !maximizing ==> Le(ChildrenValue(g, path, ms, depth, maximizing), ChildrenValue(g, path, ms[..i], depth, maximizing))
  {
    ChildrenValueIsExtremum(g, path, ms, depth, maximizing);
    ChildrenValueIsExtremum(g, path, ms[..i], depth, maximizing);
    if i > 0 {
      var k :| 0 <= k < i && ChildrenValue(g, path, ms[..i], depth, maximizing) == Fin(ChildValue(g, path, ms[..i][k], depth, maximizing));
      assert ms[..i][k] == ms[k];
    }
  }

  /**
   * What the unpruned search computes: a leaf (depth 0, game over, or no
   * legal move) is scored by the evaluator; any other position is worth
   * the best child value for the player to move, which some legal move
   * attains and no legal move beats.
   */
  lemma MinimaxBestReply(g: Game, path: seq<Move>, depth: nat, maximizing: bool)
    ensures depth == 0 || g.position(path).isGameOver || g.legal(path) == [] ==>
              Minimax(g, path, depth, maximizing) == StaticScore(g.position(path))
    ensures depth > 0 && !g.position(path).isGameOver && g.legal(path) != [] ==>
              && (forall m :: m in g.legal(path) ==>
                    if maximizing then ChildValue(g, path, m, depth, maximizing) <= Minimax(g, path, depth, maximizing)
                    else Minimax(g, path, depth, maximizing) <= ChildValue(g, path, m, depth, maximizing))
              && (exists m :: m in g.legal(path) && Minimax(g, path, depth, maximizing) == ChildValue(g, path, m, depth, maximizing))
  {
    if depth > 0 && !g.position(path).isGameOver && g.legal(path) != [] {
      var ms := g.legal(path);
      ChildrenValueIsExtremum(g, path, ms, depth, maximizing);
      forall m | m in ms
        ensures if maximizing then ChildValue(g, path, m, depth, maximizing) <= Minimax(g, path, depth, maximizing)
                else Minimax(g, path, depth, maximizing) <= ChildValue(g, path, m, depth, maximizing)
      {
        var j :| 0 <= j < |ms| && ms[j] == m;
      }
      var k :| 0 <= k < |ms| && ChildrenValue(g, path, ms, depth, maximizing) == Fin(ChildValue(g, path, ms[k], depth, maximizing));
      assert ms[k] in ms;
    }
  }

  /** The value of the root move m at depth d: the reply is searched by the minimiser. */
  function RootValue(g: Game, path: seq<Move>, m: Move, depth: nat): int
    requires depth >= 1
  {
    Minimax(g, path + [m], depth - 1, false)
  }

  function RootValues(g: Game, path: seq<Move>, ms: seq<Move>, depth: nat): (r: seq<int>)
    requires depth >= 1
    ensures |r| == |ms|
    ensures forall j {:trigger r[j]} :: 0 <= j < |ms| ==> r[j] == RootValue(g, path, ms[j], depth)
  {
    seq(|ms|, j requires 0 <= j < |ms| => RootValue(g, path, ms[j], depth))
  }

  /** The first index holding the largest value (a later equal value does not replace it). */
  function FirstArgMax(s: seq<int>): (r: nat)
    requires s != []
    ensures r < |s|
    ensures forall j :: 0 <= j < |s| ==> s[j] <= s[r]
    ensures forall j :: 0 <= j < r ==> s[j] < s[r]
  {
    if |s| == 1 then 0
    else
      var i := FirstArgMax(s[..|s| - 1]);
      if s[|s| - 1] > s[i] then |s| - 1 else i
  }

  /** The two properties of FirstArgMax single it out. */
  lemma FirstArgMaxUnique(s: seq<int>, k: nat)
    requires k < |s|
    requires forall j :: 0 <= j < |s| ==> s[j] <= s[k]
    requires forall j :: 0 <= j < k ==> s[j] < s[k]
    ensures FirstArgMax(s) == k
  {
  }

  /** k is the first index of the largest value among s[..n]. */
  ghost predicate FirstBest(s: seq<int>, n: nat, k: nat) {
    && k < n <= |s|
    && (forall j :: 0 <= j < n ==> s[j] <= s[k])
    && (forall j :: 0 <= j < k ==> s[j] < s[k])
  }

  /** Scanning one more value: a strictly larger one takes over, an equal or smaller one does not. */
  lemma FirstBestStep(s: seq<int>, n: nat, k: nat)
    requires FirstBest(s, n, k) && n < |s|
    ensures s[n] > s[k] ==> FirstBest(s, n + 1, n)
    ensures s[n] <= s[k] ==> FirstBest(s, n + 1, k)
  {
  }

  /**
   * When the root is searchable (not game over, some legal move), the best
   * root move's value is the root's maximising minimax value, whatever
   * order the root moves are visited in.
   */
  lemma RootBestIsMinimax(g: Game, path: seq<Move>, ms: seq<Move>, depth: nat)
    requires depth >= 1
    requires !g.position(path).isGameOver && g.legal(path) != []
    requires multiset(ms) == multiset(g.legal(path))
    ensures ms != []
    ensures RootValues(g, path, ms, depth)[FirstArgMax(RootValues(g, path, ms, depth))] == Minimax(g, path, depth, true)
  {
    var legal := g.legal(path);
    assert legal[0] in multiset(ms);
    forall m ensures m in ms <==> m in legal {
      assert m in ms <==> m in multiset(ms);
    }
    ChildrenValueSameMoves(g, path, ms, legal, depth, true);
    ChildrenValueIsExtremum(g, path, ms, depth, true);
    var vals := RootValues(g, path, ms, depth);
    var b := FirstArgMax(vals);
    var cv := ChildrenValue(g, path, ms, depth, true);
    var j :| 0 <= j < |ms| && cv == Fin(ChildValue(g, path, ms[j], depth, true));
    assert Le(Fin(vals[b]), cv);
    assert vals[j] <= vals[b];
  }
}
