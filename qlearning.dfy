/**
 * The learned preference table: position key -> move key -> value, updated
 * by a single-step exponential rule, plus the end-of-game credit
 * assignment that replays the terminal reward over a game's move history.
 */
module QLearning {
  import opened Evaluator

  type Table = map<string, map<string, real>>

  const LearningRate: real := 0.1

  predicate Stored(q: Table, fen: string, move: string) {
    fen in q && move in q[fen]
  }

  /** The value of (fen, move), 0 for a position or move never stored. */
  function Lookup(q: Table, fen: string, move: string): real {
    if Stored(q, fen, move) then q[fen][move] else 0.0
  }

  /** The fraction alpha of a gap. */
  function Scale(alpha: real, gap: real): real {
    alpha * gap
  }

  /** The single-step rule: move the current value a fraction alpha of the way to the reward. */
  function Step(current: real, reward: real, alpha: real): real {
    current + Scale(alpha, reward - current)
  }

  /**
   * The table after one update of (fen, move) toward reward at rate alpha.
   * The inner map of fen is created when missing; nothing else changes.
   */
  function Updated(q: Table, fen: string, move: string, reward: real, alpha: real): (r: Table)
    ensures r.Keys == q.Keys + {fen}
    ensures r[fen].Keys == (if fen in q then q[fen].Keys else {}) + {move}
    ensures forall f :: f in q && f != fen ==> r[f] == q[f]
    ensures forall m :: m != move && fen in q && m in q[fen] ==> r[fen][m] == q[fen][m]
  {
    var inner := if fen in q then q[fen] else map[];
    var oldQ := if move in inner then inner[move] else 0.0;
    q[fen := inner[move := Step(oldQ, reward, alpha)]]
  }

  /**
   * The updated entry is the weighted mean of its old value (0 for a new
   * entry) and the reward, with weight alpha on the reward.
   */
  lemma UpdatedEntry(q: Table, fen: string, move: string, reward: real, alpha: real)
    ensures Stored(Updated(q, fen, move, reward, alpha), fen, move)
    ensures Lookup(Updated(q, fen, move, reward, alpha), fen, move) == Step(Lookup(q, fen, move), reward, alpha)
    ensures Lookup(Updated(q, fen, move, reward, alpha), fen, move) == (1.0 - alpha) * Lookup(q, fen, move) + alpha * reward
    ensures !Stored(q, fen, move) ==> Lookup(Updated(q, fen, move, reward, alpha), fen, move) == alpha * reward
  {
    var d := reward - Lookup(q, fen, move);
    assert alpha * d == alpha * reward - alpha * Lookup(q, fen, move);
  }

  /** An update touches exactly one (fen, move) entry. */
  lemma UpdateIsLocal(q: Table, fen: string, move: string, reward: real, alpha: real, f: string, m: string)
    requires f != fen || m != move
    ensures Stored(Updated(q, fen, move, reward, alpha), f, m) == Stored(q, f, m)
    ensures Lookup(Updated(q, fen, move, reward, alpha), f, m) == Lookup(q, f, m)
  {
  }

  /** Every stored (fen, move) pair. */
  function Entries(q: Table): set<(string, string)> {
    set f, m | f in q && m in q[f] :: (f, m)
  }

  lemma InEntries(q: Table, fen: string, move: string)
    ensures (fen, move) in Entries(q) <==> Stored(q, fen, move)
  {
    if Stored(q, fen, move) {
      assert (fen, move) in Entries(q);
    }
  }

  /** An update adds its entry to the stored ones (when new) and removes none. */
  lemma EntriesAfterUpdate(q: Table, fen: string, move: string, reward: real, alpha: real)
    ensures Entries(Updated(q, fen, move, reward, alpha)) == Entries(q) + {(fen, move)}
    ensures |Entries(Updated(q, fen, move, reward, alpha))| == |Entries(q)| + (if Stored(q, fen, move) then 0 else 1)
  {
    var r := Updated(q, fen, move, reward, alpha);
    var after, added := Entries(r), Entries(q) + {(fen, move)};
    forall e | e in after ensures e in added {
      InEntries(r, e.0, e.1);
      if e != (fen, move) {
        UpdateIsLocal(q, fen, move, reward, alpha, e.0, e.1);
        InEntries(q, e.0, e.1);
      }
    }
    forall e | e in added ensures e in after {
      InEntries(r, e.0, e.1);
      if e != (fen, move) {
        UpdateIsLocal(q, fen, move, reward, alpha, e.0, e.1);
        InEntries(q, e.0, e.1);
      } else {
        UpdatedEntry(q, fen, move, reward, alpha);
      }
    }
    assert after == added;
    InEntries(q, fen, move);
  }

  /** The sum of the stored values over a set of entries. */
  ghost function SumOver(q: Table, s: set<(string, string)>): real
    requires s <= Entries(q)
    decreases |s|
  {
    if s == {} then 0.0
    else
      var e :| e in s;
      q[e.0][e.1] + SumOver(q, s - {e})
  }

  /** The mean of all stored values; 0 for an empty table or one with no entries. */
  ghost function Average(q: Table): real {
    if q == map[] then 0.0
    else
      var count := |Entries(q)|;
      if count > 0 then SumOver(q, Entries(q)) / count as real else 0.0
  }

  /** n copies of x added up. */
  function Times(n: nat, x: real): real {
    if n == 0 then 0.0 else Times(n - 1, x) + x
  }

  lemma {:induction false} TimesIsProduct(n: nat, x: real)
    ensures Times(n, x) == n as real * x
  {
    if n > 0 {
      TimesIsProduct(n - 1, x);
      assert (n - 1) as real * x + x == n as real * x;
    }
  }

  lemma MulLess(a: real, b: real, k: real)
    requires a < b && k > 0.0
    ensures a * k < b * k
  {
    assert b * k - a * k == (b - a) * k;
  }

  lemma {:induction false} SumOverBounds(q: Table, s: set<(string, string)>, lo: real, hi: real)
    requires s <= Entries(q)
    requires forall e :: e in s ==> lo <= q[e.0][e.1] <= hi
    ensures Times(|s|, lo) <= SumOver(q, s) <= Times(|s|, hi)
    decreases |s|
  {
    if s != {} {
      var e :| e in s && SumOver(q, s) == q[e.0][e.1] + SumOver(q, s - {e});
      SumOverBounds(q, s - {e}, lo, hi);
    }
  }

  lemma DivBounds(total: real, n: nat, lo: real, hi: real)
    requires n > 0
    requires Times(n, lo) <= total <= Times(n, hi)
    ensures lo <= total / n as real <= hi
  {
    TimesIsProduct(n, lo);
    TimesIsProduct(n, hi);
    var k := n as real;
    var avg := total / k;
    assert avg * k == total;
    if avg < lo {
      MulLess(avg, lo, k);
    }
    if avg > hi {
      MulLess(hi, avg, k);
    }
  }

  /** The average lies between the smallest and the largest stored value. */
  lemma AverageBounds(q: Table, lo: real, hi: real)
    requires Entries(q) != {}
    requires forall f, m :: f in q && m in q[f] ==> lo <= q[f][m] <= hi
    ensures lo <= Average(q) <= hi
  {
    var s := Entries(q);
    forall e | e in s ensures lo <= q[e.0][e.1] <= hi {
      InEntries(q, e.0, e.1);
    }
    SumOverBounds(q, s, lo, hi);
    assert q != map[] by {
      var e :| e in s;
      InEntries(q, e.0, e.1);
    }
    DivBounds(SumOver(q, s), |s|, lo, hi);
  }

  /** The value after n updates of one entry with the same reward at rate alpha. */
  function Repeat(v: real, reward: real, alpha: real, n: nat): real {
    if n == 0 then v
    else
      Step(Repeat(v, reward, alpha, n - 1), reward, alpha)
  }

  /** A positive rate keeps the sign of the gap. */
  lemma ScaleSign(alpha: real, gap: real)
    requires alpha > 0.0
    ensures gap > 0.0 ==> Scale(alpha, gap) > 0.0
    ensures gap < 0.0 ==> Scale(alpha, gap) < 0.0
  {
  }

  /** A rate below 1 covers less than the whole gap. */
  lemma ScaleShort(alpha: real, gap: real)
    requires alpha < 1.0
    ensures gap > 0.0 ==> Scale(alpha, gap) < gap
    ensures gap < 0.0 ==> gap < Scale(alpha, gap)
  {
    ScaleSign(1.0 - alpha, gap);
    assert gap - alpha * gap == (1.0 - alpha) * gap;
  }

  /** One update at a rate strictly between 0 and 1 moves strictly toward the reward without reaching it. */
  lemma StepBetween(current: real, reward: real, alpha: real)
    requires 0.0 < alpha < 1.0
    ensures current < reward ==> current < Step(current, reward, alpha) < reward
    ensures reward < current ==> reward < Step(current, reward, alpha) < current
    ensures current == reward ==> Step(current, reward, alpha) == reward
  {
    ScaleSign(alpha, reward - current);
    ScaleShort(alpha, reward - current);
  }

  lemma {:induction false} RepeatBetween(v: real, reward: real, alpha: real, n: nat)
    requires 0.0 < alpha < 1.0
    ensures v < reward ==> v <= Repeat(v, reward, alpha, n) < reward
    ensures reward < v ==> reward < Repeat(v, reward, alpha, n) <= v
    ensures v == reward ==> Repeat(v, reward, alpha, n) == reward
  {
    if n > 0 {
      RepeatBetween(v, reward, alpha, n - 1);
      StepBetween(Repeat(v, reward, alpha, n - 1), reward, alpha);
    }
  }

  /**
   * With a constant reward and a rate strictly between 0 and 1, repeated
   * updates move the value monotonically toward the reward, strictly while
   * it differs, and never past it.
   */
  lemma RepeatConverges(v: real, reward: real, alpha: real, n: nat)
    requires 0.0 < alpha < 1.0
    ensures v < reward ==> Repeat(v, reward, alpha, n) < Repeat(v, reward, alpha, n + 1) < reward
    ensures reward < v ==> reward < Repeat(v, reward, alpha, n + 1) < Repeat(v, reward, alpha, n)
    ensures v == reward ==> Repeat(v, reward, alpha, n + 1) == reward
  {
    RepeatBetween(v, reward, alpha, n);
    StepBetween(Repeat(v, reward, alpha, n), reward, alpha);
  }

  /** x to the power n. */
  function Pow(x: real, n: nat): real {
    if n == 0 then 1.0 else x * Pow(x, n - 1)
  }

  /** One update shrinks the gap to the reward by the factor 1 - alpha. */
  lemma StepGap(current: real, reward: real, alpha: real)
    ensures Step(current, reward, alpha) - reward == (1.0 - alpha) * (current - reward)
  {
    assert Scale(alpha, reward - current) == alpha * (reward - current);
  }

  /**
   * After n updates with the same reward the gap to the reward is the
   * starting gap times (1 - alpha)^n: for 0 < alpha < 1 it shrinks
   * geometrically to 0, so the value converges to the reward.
   */
  lemma {:induction false} RepeatClosedForm(v: real, reward: real, alpha: real, n: nat)
    ensures Repeat(v, reward, alpha, n) - reward == Pow(1.0 - alpha, n) * (v - reward)
  {
    if n > 0 {
      var before := Repeat(v, reward, alpha, n - 1);
      RepeatClosedForm(v, reward, alpha, n - 1);
      StepGap(before, reward, alpha);
      assert Repeat(v, reward, alpha, n) - reward == (1.0 - alpha) * (before - reward);
      assert (1.0 - alpha) * (Pow(1.0 - alpha, n - 1) * (v - reward))
          == ((1.0 - alpha) * Pow(1.0 - alpha, n - 1)) * (v - reward);
    }
  }

  /** For 0 < alpha < 1 the factor (1 - alpha)^n lies in (0, 1] and strictly decreases with n. */
  lemma {:induction false} PowShrinks(alpha: real, n: nat)
    requires 0.0 < alpha < 1.0
    ensures 0.0 < Pow(1.0 - alpha, n + 1) < Pow(1.0 - alpha, n) <= 1.0
  {
    if n > 0 {
      PowShrinks(alpha, n - 1);
    }
    MulLess(1.0 - alpha, 1.0, Pow(1.0 - alpha, n));
  }

  /** Bernoulli's inequality in the form (1 - alpha)^n * (1 + n*alpha) <= 1. */
  lemma {:induction false} PowBernoulli(alpha: real, n: nat)
    requires 0.0 < alpha < 1.0
    ensures Pow(1.0 - alpha, n) * (1.0 + n as real * alpha) <= 1.0
  {
    if n > 0 {
      var k := (n - 1) as real;
      var p := Pow(1.0 - alpha, n - 1);
      PowBernoulli(alpha, n - 1);
      PowShrinks(alpha, n - 1);
      assert (1.0 - alpha) * (1.0 + k * alpha + alpha) == (1.0 + k * alpha) - (k + 1.0) * alpha * alpha;
      assert (k + 1.0) * alpha * alpha >= 0.0;
      MulLess((1.0 - alpha) * (1.0 + k * alpha + alpha) - 1.0, (1.0 + k * alpha), p);
      assert Pow(1.0 - alpha, n) * (1.0 + n as real * alpha) == p * ((1.0 - alpha) * (1.0 + k * alpha + alpha));
    }
  }

  /** One more than the floor of x / c, times c, exceeds x. */
  lemma FloorBound(x: real, c: real)
    requires x >= 0.0 && c > 0.0
    ensures (x / c).Floor >= 0
    ensures ((x / c).Floor + 1) as real * c > x
  {
    var q := x / c;
    assert q * c == x;
    MulLess(q, ((q.Floor + 1) as real), c);
  }

  /** A gap g with g < eps * d, shrunk by a factor p with p * d <= 1, is below eps. */
  lemma ShrunkBelow(p: real, g: real, d: real, eps: real)
    requires p > 0.0 && g >= 0.0 && d > 0.0
    requires p * d <= 1.0 && g < eps * d
    ensures p * g < eps
  {
    MulLess(g, eps * d, p);
    assert p * (eps * d) == (p * d) * eps;
    assert eps - (p * d) * eps == (1.0 - p * d) * eps;
  }

  /**
   * The arithmetic of convergence: a gap g below m * alpha * eps, shrunk by
   * a factor p with p * (1 + m * alpha) <= 1, is below eps.
   */
  lemma GapBound(p: real, g: real, m: real, alpha: real, eps: real)
    requires p > 0.0 && g >= 0.0 && m >= 0.0 && alpha > 0.0 && eps > 0.0
    requires m * (alpha * eps) > g
    requires p * (1.0 + m * alpha) <= 1.0
    ensures 0.0 <= p * g < eps
  {
    var d := 1.0 + m * alpha;
    assert m * alpha >= 0.0;
    assert eps * d == eps + m * (alpha * eps);
    ShrunkBelow(p, g, d, eps);
    assert p * g >= 0.0;
  }

  /** A bound on p * |x| bounds p * x on both sides. */
  lemma SignedBound(p: real, g: real, x: real, eps: real)
    requires 0.0 <= p * g < eps
    requires x == g || x == -g
    ensures -eps < p * x < eps
  {
    if x == -g {
      assert p * x == -(p * g);
    }
  }

  /** A bound on the shrunk starting gap bounds the gap after n updates. */
  lemma RepeatWithin(v: real, reward: real, alpha: real, eps: real, n: nat)
    requires -eps < Pow(1.0 - alpha, n) * (v - reward) < eps
    ensures -eps < Repeat(v, reward, alpha, n) - reward < eps
  {
    RepeatClosedForm(v, reward, alpha, n);
  }

  /** Once n * alpha * eps exceeds the starting gap, n updates bring the value within eps of the reward. */
  lemma WithinAfter(v: real, reward: real, alpha: real, eps: real, n: nat)
    requires 0.0 < alpha < 1.0 && eps > 0.0
    requires n as real * (alpha * eps) > (if v < reward then reward - v else v - reward)
    ensures -eps < Repeat(v, reward, alpha, n) - reward < eps
  {
    var g0 := if v < reward then reward - v else v - reward;
    var p := Pow(1.0 - alpha, n);
    assert -eps < p * (v - reward) < eps by {
      assert 0.0 <= p * g0 < eps by {
        PowBernoulli(alpha, n);
        PowShrinks(alpha, n);
        GapBound(p, g0, n as real, alpha, eps);
      }
      SignedBound(p, g0, v - reward, eps);
    }
    RepeatWithin(v, reward, alpha, eps, n);
  }

  /**
   * Repeated updates with the same reward converge to it: for every
   * tolerance eps there is a number of updates after which the value lies
   * within eps of the reward.
   */
  lemma GapVanishes(v: real, reward: real, alpha: real, eps: real)
    requires 0.0 < alpha < 1.0 && eps > 0.0
    ensures exists n: nat :: -eps < Repeat(v, reward, alpha, n) - reward < eps
  {
    var g0 := if v < reward then reward - v else v - reward;
    FloorBound(g0, alpha * eps);
    var n: nat := (g0 / (alpha * eps)).Floor + 1;
    WithinAfter(v, reward, alpha, eps, n);
  }

  /** The table after updating every (fen, move) of a history, in order, with one reward. */
  function ReplayAll(q: Table, history: seq<(string, string)>, reward: real): Table {
    if history == [] then q
    else
      var e := history[|history| - 1];
      Updated(ReplayAll(q, history[..|history| - 1], reward), e.0, e.1, reward, LearningRate)
  }

  /** How one update of entry e looks from the entry (fen, move). */
  lemma UpdateOneEntry(q: Table, e: (string, string), reward: real, alpha: real, fen: string, move: string)
    ensures Lookup(Updated(q, e.0, e.1, reward, alpha), fen, move)
            == if e == (fen, move) then Step(Lookup(q, fen, move), reward, alpha) else Lookup(q, fen, move)
    ensures e != (fen, move) ==> Stored(Updated(q, e.0, e.1, reward, alpha), fen, move) == Stored(q, fen, move)
  {
    if e == (fen, move) {
      UpdatedEntry(q, fen, move, reward, alpha);
    } else {
      UpdateIsLocal(q, e.0, e.1, reward, alpha, fen, move);
    }
  }

  /** Replaying one more history entry applies one more update. */
  lemma ReplaySnoc(q: Table, history: seq<(string, string)>, i: nat, reward: real)
    requires i < |history|
    ensures ReplayAll(q, history[..i + 1], reward)
            == Updated(ReplayAll(q, history[..i], reward), history[i].0, history[i].1, reward, LearningRate)
  {
    assert history[..i + 1][..i] == history[..i];
  }

  /**
   * After the replay every entry has received one single-step update per
   * occurrence in the history.
   */
  lemma {:induction false} ReplayEntry(q: Table, history: seq<(string, string)>, reward: real, fen: string, move: string)
    ensures Lookup(ReplayAll(q, history, reward), fen, move)
            == Repeat(Lookup(q, fen, move), reward, LearningRate, multiset(history)[(fen, move)])
  {
    if history != [] {
      var n := |history| - 1;
      var init, e := history[..n], history[n];
      assert history == init + [e];
      assert history[..n + 1] == history;
      ReplaySnoc(q, history, n, reward);
      ReplayEntry(q, init, reward, fen, move);
      UpdateOneEntry(ReplayAll(q, init, reward), e, reward, LearningRate, fen, move);
    }
  }

  /** An entry that does not occur in the history is stored after the replay exactly when it was before. */
  lemma {:induction false} ReplayUntouched(q: Table, history: seq<(string, string)>, reward: real, fen: string, move: string)
    requires (fen, move) !in history
    ensures Stored(ReplayAll(q, history, reward), fen, move) == Stored(q, fen, move)
    ensures Lookup(ReplayAll(q, history, reward), fen, move) == Lookup(q, fen, move)
  {
    if history != [] {
      var n := |history| - 1;
      var init, e := history[..n], history[n];
      assert history[..n + 1] == history;
      assert (fen, move) !in init;
      ReplaySnoc(q, history, n, reward);
      ReplayUntouched(q, init, reward, fen, move);
      UpdateOneEntry(ReplayAll(q, init, reward), e, reward, LearningRate, fen, move);
    }
  }

  class QTable {
    var q: Table

    /** A table holding what was loaded from storage (empty when nothing could be loaded). */
    constructor (loaded: Table)
      ensures q == loaded
    {
      q := loaded;
    }

    /** The stored value of (fen, move), or 0 when it was never updated. */
    function GetQ(fen: string, move: string): (r: real)
      reads this
      ensures Stored(q, fen, move) ==> r == q[fen][move]
      ensures !Stored(q, fen, move) ==> r == 0.0
    {
      Lookup(q, fen, move)
    }

    method Update(fen: string, move: string, reward: real, alpha: real := LearningRate)
      modifies this
      ensures q == Updated(old(q), fen, move, reward, alpha)
    {
      if fen !in q {
        q := q[fen := map[]];
      }
      var oldQ := if move in q[fen] then q[fen][move] else 0.0;
      q := q[fen := q[fen][move := Step(oldQ, reward, alpha)]];
    }

    ghost function AverageQ(): (r: real)
      reads this
      ensures Entries(q) == {} ==> r == 0.0
      ensures Entries(q) != {} ==> r * |Entries(q)| as real == SumOver(q, Entries(q))
    {
      Average(q)
    }
  }

  /**
   * End-of-game credit assignment: every (position, move) of the game's
   * history gets the terminal reward in the first table and its negation
   * in the second table, when there is one.
   */
  method AssignTerminalCredit(table1: QTable, table2: QTable?, history: seq<(string, string)>, outcome: Outcome)
    requires table1 != table2
    modifies table1, table2
    ensures table1.q == ReplayAll(old(table1.q), history, TerminalReward(outcome) as real)
    ensures table2 != null ==> table2.q == ReplayAll(old(table2.q), history, -TerminalReward(outcome) as real)
  {
    var reward := TerminalReward(outcome);
    var gain, loss := reward as real, -reward as real;
    for i := 0 to |history|
      invariant table1.q == ReplayAll(old(table1.q), history[..i], gain)
      invariant table2 != null ==> table2.q == ReplayAll(old(table2.q), history[..i], loss)
    {
      var (fen, move) := history[i];
      ReplaySnoc(old(table1.q), history, i, gain);
      table1.Update(fen, move, gain);
      if table2 != null {
        ReplaySnoc(old(table2.q), history, i, loss);
        table2.Update(fen, move, loss);
      }
    }
    assert history[..|history|] == history;
    assert gain == TerminalReward(outcome) as real && loss == -TerminalReward(outcome) as real;
    assert table2 != null ==> table2.q == ReplayAll(old(table2.q), history, loss);
  }
}
