/**
 * Search values. The search starts its running maximum and minimum at
 * negative and positive infinity, so a value is an integer extended with
 * both infinities, ordered NegInf < Fin(n) < PosInf.
 */
module Scores {

  datatype Ext = NegInf | Fin(n: int) | PosInf

  predicate Le(a: Ext, b: Ext) {
    a.NegInf? || b.PosInf? || (a.Fin? && b.Fin? && a.n <= b.n)
  }

  predicate Lt(a: Ext, b: Ext) {
    !Le(b, a)
  }

  /** The larger of two values (Python's max). */
  function Max(a: Ext, b: Ext): (r: Ext)
    ensures Le(a, r) && Le(b, r)
    ensures r == a || r == b
  {
    if Le(a, b) then b else a
  }

  /** The smaller of two values (Python's min). */
  function Min(a: Ext, b: Ext): (r: Ext)
    ensures Le(r, a) && Le(r, b)
    ensures r == a || r == b
  {
    if Le(a, b) then a else b
  }

  /**
   * The fail-soft guarantee of a search with window (alpha, beta) that
   * returned v where the true minimax value is m: a result at or below
   * alpha is an upper bound, one at or above beta is a lower bound, and
   * one strictly inside the window is exact.
   */
  predicate FailSoft(v: int, m: int, alpha: Ext, beta: Ext) {
    && (Le(Fin(v), alpha) ==> m <= v)
    && (Le(beta, Fin(v)) ==> v <= m)
    && (Lt(alpha, Fin(v)) && Lt(Fin(v), beta) ==> v == m)
  }

  /** The fail-soft guarantee between extended values. */
  predicate Bounds(v: Ext, m: Ext, alpha: Ext, beta: Ext) {
    && (Le(v, alpha) ==> Le(m, v))
    && (Le(beta, v) ==> Le(v, m))
    && (Lt(alpha, v) && Lt(v, beta) ==> v == m)
  }

  /**
   * One child of a maximising node: if the running maximum obeys the
   * fail-soft bounds against the true maximum of the children searched so
   * far, and the next child was searched with the narrowed window
   * (max(alpha, value), beta), then the bounds still hold once that child
   * is taken into both maxima.
   */
  lemma MaxStep(alpha: Ext, beta: Ext, value: Ext, exact: Ext, c: int, mc: int)
    requires Lt(Max(alpha, value), beta)
    requires Bounds(value, exact, alpha, beta)
    requires FailSoft(c, mc, Max(alpha, value), beta)
    ensures Bounds(Max(value, Fin(c)), Max(exact, Fin(mc)), alpha, beta)
  {
  }

  /** One child of a minimising node, with the window (alpha, min(beta, value)). */
  lemma MinStep(alpha: Ext, beta: Ext, value: Ext, exact: Ext, c: int, mc: int)
    requires Lt(alpha, Min(beta, value))
    requires Bounds(value, exact, alpha, beta)
    requires FailSoft(c, mc, alpha, Min(beta, value))
    ensures Bounds(Min(value, Fin(c)), Min(exact, Fin(mc)), alpha, beta)
  {
  }

  /**
   * After a maximising node's loop: either every child was searched, or
   * the loop stopped at a cut-off (value at or above beta) with the true
   * maximum of the searched prefix no larger than that of all children.
   */
  lemma MaxNodeBounds(alpha: Ext, beta: Ext, value: int, prefix: Ext, all: int)
    requires Lt(alpha, beta)
    requires Bounds(Fin(value), prefix, alpha, beta)
    requires Le(prefix, Fin(all))
    requires prefix == Fin(all) || Le(beta, Fin(value))
    ensures FailSoft(value, all, alpha, beta)
  {
  }

  /** After a minimising node's loop, with the cut-off at or below alpha. */
  lemma MinNodeBounds(alpha: Ext, beta: Ext, value: int, prefix: Ext, all: int)
    requires Lt(alpha, beta)
    requires Bounds(Fin(value), prefix, alpha, beta)
    requires Le(Fin(all), prefix)
    requires prefix == Fin(all) || Le(Fin(value), alpha)
    ensures FailSoft(value, all, alpha, beta)
  {
  }

  /** With the full window the fail-soft guarantee pins the value down. */
  lemma FullWindowExact(v: int, m: int)
    requires FailSoft(v, m, NegInf, PosInf)
    ensures v == m
  {
  }

  /** With an open upper end every result is an upper bound on the true value. */
  lemma OpenAboveIsUpperBound(v: int, m: int, alpha: Ext)
    requires alpha != PosInf
    requires FailSoft(v, m, alpha, PosInf)
    ensures m <= v
    ensures Lt(alpha, Fin(v)) ==> v == m
  {
  }
}
