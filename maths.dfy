/**
 * The numeric primitives of utils/maths.hpp, which is not part of this model.
 * They are passed around as a record of functions, so that nothing is assumed
 * about them beyond what a lemma states as a hypothesis.
 */
module Maths {

  /**
   * std::log, maths::log_sum_exp (ln of a sum of exponentials) and
   * Maths::log_multinomial_coefficient (ln(n! / (m1! ... mk!))).
   */
  datatype LogOps = LogOps(
    log: real -> real,
    logSumExp: seq<real> -> real,
    logMultinomial: seq<nat> -> real)

  /** std::accumulate(first, last, 0.0) with +, read left to right. */
  function Sum(s: seq<real>): real
  {
    if |s| == 0 then 0.0 else Sum(s[..|s| - 1]) + s[|s| - 1]
  }

  /** Hypothesis: the log-sum-exp of one term is that term. */
  predicate LseOfOne(ops: LogOps, x: real)
  {
    ops.logSumExp([x]) == x
  }

  lemma {:induction false} SumAppend(s: seq<real>, t: seq<real>)
    ensures Sum(s + t) == Sum(s) + Sum(t)
  {
    if |t| > 0 {
      assert (s + t)[..|s + t| - 1] == s + t[..|t| - 1];
      SumAppend(s, t[..|t| - 1]);
    } else {
      assert s + t == s;
    }
  }
}
