/**
 * The end of a game as the game loop handles it: the (position key, move
 * key) history it records while the game is played, and the terminal
 * credit it replays over that history into the learned tables.
 */
module GameLoop {
  import opened Evaluator
  import opened QLearning
  import opened GameTree

  /**
   * The history as the game loop records it: each move is pushed first,
   * so it is keyed by the position AFTER it.
   */
  function RecordedHistory(g: Game, root: seq<Move>, moves: seq<Move>): (r: seq<(string, string)>)
    ensures |r| == |moves|
    ensures forall i :: 0 <= i < |moves| ==> r[i] == (g.fen(root + moves[..i + 1]), g.uci(moves[i]))
  {
    if moves == [] then []
    else
      var n := |moves| - 1;
      assert forall j :: 0 < j <= n ==> moves[..n][..j] == moves[..j];
      assert moves[..n + 1] == moves;
      RecordedHistory(g, root, moves[..n]) + [(g.fen(root + moves), g.uci(moves[n]))]
  }

  /**
   * The history keyed the way the engine reads and writes the learned
   * table: each move under the position it was chosen in.
   */
  function DecisionHistory(g: Game, root: seq<Move>, moves: seq<Move>): (r: seq<(string, string)>)
    ensures |r| == |moves|
    ensures forall i :: 0 <= i < |moves| ==> r[i] == (g.fen(root + moves[..i]), g.uci(moves[i]))
  {
    if moves == [] then []
    else
      var n := |moves| - 1;
      assert forall i :: 0 <= i < n ==> moves[..n][..i] == moves[..i];
      DecisionHistory(g, root, moves[..n]) + [(g.fen(root + moves[..n]), g.uci(moves[n]))]
  }

  /**
   * With the decision history, the terminal credit reaches the very entry
   * the engine consulted for each move it played: that entry receives at
   * least one single-step update toward the terminal reward.
   */
  lemma TerminalCreditReachesDecisions(q: Table, g: Game, root: seq<Move>, moves: seq<Move>, reward: real, i: nat)
    requires i < |moves|
    ensures var key := (g.fen(root + moves[..i]), g.uci(moves[i]));
            var h := DecisionHistory(g, root, moves);
            && multiset(h)[key] >= 1
            && Lookup(ReplayAll(q, h, reward), key.0, key.1)
               == Repeat(Lookup(q, key.0, key.1), reward, LearningRate, multiset(h)[key])
  {
    var key := (g.fen(root + moves[..i]), g.uci(moves[i]));
    var h := DecisionHistory(g, root, moves);
    assert h[i] == key;
    assert key in multiset(h);
    ReplayEntry(q, h, reward, key.0, key.1);
  }

  /**
   * The recorded history misses the decision: after a one-move game whose
   * move changes the position key (every move does, as the key includes
   * the side to move), the replay leaves the entry the engine consulted
   * for that move exactly as it was.
   */
  lemma RecordedHistoryMissesDecision(q: Table, g: Game, root: seq<Move>, m: Move, reward: real)
    requires g.fen(root + [m]) != g.fen(root)
    ensures Lookup(ReplayAll(q, RecordedHistory(g, root, [m]), reward), g.fen(root), g.uci(m))
            == Lookup(q, g.fen(root), g.uci(m))
    ensures Stored(ReplayAll(q, RecordedHistory(g, root, [m]), reward), g.fen(root), g.uci(m))
            == Stored(q, g.fen(root), g.uci(m))
  {
    assert [m][..0] == [];
    assert RecordedHistory(g, root, [m]) == [(g.fen(root + [m]), g.uci(m))];
    ReplayUntouched(q, RecordedHistory(g, root, [m]), reward, g.fen(root), g.uci(m));
  }

  /**
   * The end of a game played from root with the given moves: classify the
   * final position from White's side and replay the terminal reward over
   * the decision history, negated for the second table when there is one.
   */
  method FinishGame(table1: QTable, table2: QTable?, g: Game, root: seq<Move>, moves: seq<Move>)
    requires table1 != table2
    modifies table1, table2
    ensures table1.q == ReplayAll(old(table1.q), DecisionHistory(g, root, moves),
                                  TerminalReward(GoalTest(g.position(root + moves))) as real)
    ensures table2 != null ==>
              table2.q == ReplayAll(old(table2.q), DecisionHistory(g, root, moves),
                                    -TerminalReward(GoalTest(g.position(root + moves))) as real)
  {
    var outcome := GoalTest(g.position(root + moves));
    var history := DecisionHistory(g, root, moves);
    assert -TerminalReward(outcome) as real == -TerminalReward(GoalTest(g.position(root + moves))) as real;
    AssignTerminalCredit(table1, table2, history, outcome);
  }
}
