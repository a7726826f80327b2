/** Facts about products and quotients that the solver does not find by itself. */
module Arithmetic {

  lemma MulLeInt(a: int, b: int, c: int)
    requires a <= b && c >= 0
    ensures a * c <= b * c
  {}

  /** Whole periods that fit within a limit. */
  lemma FewPeriods(period: nat, k: nat, limit: nat)
    requires period > 0 && period * k <= limit
    ensures k <= limit / period
  {
    var q := limit / period;
    assert limit < period * (q + 1);
    if k >= q + 1 {
      MulLeInt(q + 1, k, period);
    }
  }
}
