/**
 * The exact two-sided binomial test of `experiments/27-value-gate.py`, in exact reals: the
 * likelihoods it adds up, and what their sum can be.
 */
module Binomial {
  import opened Reals

  /** Pascal's triangle. */
  function Choose(n: nat, i: nat): nat {
    if i == 0 then 1 else if n == 0 then 0 else Choose(n - 1, i - 1) + Choose(n - 1, i)
  }

  function Pow(x: real, n: nat): real { if n == 0 then 1.0 else x * Pow(x, n - 1) }

  lemma {:induction false} ChooseBeyond(n: nat, i: nat)
    requires i > n
    ensures Choose(n, i) == 0
  {
    if n > 0 {
      ChooseBeyond(n - 1, i - 1);
      ChooseBeyond(n - 1, i);
    }
  }

  lemma {:induction false} PowNotNegative(x: real, n: nat)
    requires x >= 0.0
    ensures Pow(x, n) >= 0.0
  {
    if n > 0 {
      PowNotNegative(x, n - 1);
      ProductNotNegative(x, Pow(x, n - 1));
    }
  }

  /** The likelihood of `i` successes in `n` trials: nothing beyond `n`. */
  function Pmf(i: nat, n: nat, p: real): real {
    if i > n then 0.0 else Choose(n, i) as real * Pow(p, i) * Pow(1.0 - p, n - i)
  }

  lemma {:induction false} PmfNotNegative(i: nat, n: nat, p: real)
    requires 0.0 <= p <= 1.0
    ensures Pmf(i, n, p) >= 0.0
  {
    if i <= n {
      PowNotNegative(p, i);
      PowNotNegative(1.0 - p, n - i);
      ProductNotNegative(Choose(n, i) as real, Pow(p, i));
      ProductNotNegative(Choose(n, i) as real * Pow(p, i), Pow(1.0 - p, n - i));
    }
  }

  /** One more trial either succeeds or fails. */
  lemma {:induction false} OneMoreTrial(i: nat, n: nat, p: real)
    ensures Pmf(i, n + 1, p) == (if i > 0 then p * Pmf(i - 1, n, p) else 0.0) + (1.0 - p) * Pmf(i, n, p)
  {
    hide Choose, Pow;
    if i == 0 {
      NoSuccess(n, p);
    } else if i <= n {
      SomeSuccesses(i, n, p);
    } else if i == n + 1 {
      AllSuccesses(n, p);
    }
  }

  lemma {:induction false} NoSuccess(n: nat, p: real)
    ensures Pmf(0, n + 1, p) == (1.0 - p) * Pmf(0, n, p)
  {
    var q := 1.0 - p;
    assert Pow(q, n + 1) == q * Pow(q, n);
    assert Choose(n + 1, 0) == 1 == Choose(n, 0) && Pow(p, 0) == 1.0;
    hide Choose, Pow;
  }

  lemma {:induction false} SomeSuccesses(i: nat, n: nat, p: real)
    requires 0 < i <= n
    ensures Pmf(i, n + 1, p) == p * Pmf(i - 1, n, p) + (1.0 - p) * Pmf(i, n, p)
  {
    var q := 1.0 - p;
    var a, b := Choose(n, i - 1) as real, Choose(n, i) as real;
    assert Choose(n + 1, i) as real == a + b;
    var u, v := Pow(p, i - 1), Pow(q, n - i);
    assert Pow(p, i) == p * u && Pow(q, n + 1 - i) == q * v;
    hide Choose, Pow;
    assert Pmf(i, n + 1, p) == (a + b) * (p * u) * (q * v);
    assert Pmf(i - 1, n, p) == a * u * (q * v) by { assert n - (i - 1) == n + 1 - i; }
    assert Pmf(i, n, p) == b * (p * u) * v;
    hide Pmf;
    Recombine(a, b, p, u, q, v);
  }

  lemma {:induction false} AllSuccesses(n: nat, p: real)
    ensures Pmf(n + 1, n + 1, p) == p * Pmf(n, n, p) + (1.0 - p) * Pmf(n + 1, n, p)
  {
    ChooseBeyond(n, n + 1);
    assert Choose(n + 1, n + 1) == Choose(n, n);
    assert Pow(p, n + 1) == p * Pow(p, n) && Pow(1.0 - p, 0) == 1.0;
    hide Choose, Pow;
    Recombine(Choose(n, n) as real, 0.0, p, Pow(p, n), 1.0 - p, 1.0);
  }

  lemma {:induction false} Recombine(a: real, b: real, p: real, u: real, q: real, v: real)
    ensures (a + b) * (p * u) * (q * v) == p * (a * u * (q * v)) + q * (b * (p * u) * v)
    ensures (a + b) * (p * u) * v == p * (a * u * v) + b * (p * u) * v
  {
    var w := p * u * (q * v);
    assert (a + b) * (p * u) * (q * v) == a * w + b * w;
    assert p * (a * u * (q * v)) == a * w;
    assert q * (b * (p * u) * v) == b * w;
  }

  // ---- sums ---------------------------------------------------------------------------------------

  /** The likelihoods of 0 to m - 1 successes together. */
  function Sum(m: nat, n: nat, p: real): real {
    if m == 0 then 0.0 else Sum(m - 1, n, p) + Pmf(m - 1, n, p)
  }

  lemma {:induction false} SumOneMoreTrial(m: nat, n: nat, p: real)
    ensures Sum(m + 1, n + 1, p) == p * Sum(m, n, p) + (1.0 - p) * Sum(m + 1, n, p)
  {
    hide Pmf;
    OneMoreTrial(m, n, p);
    if m > 0 {
      SumOneMoreTrial(m - 1, n, p);
      Distribute(p, Sum(m - 1, n, p), Pmf(m - 1, n, p));
      Distribute(1.0 - p, Sum(m, n, p), Pmf(m, n, p));
    } else {
      assert Sum(1, n + 1, p) == Pmf(0, n + 1, p) && Sum(1, n, p) == Pmf(0, n, p);
    }
  }

  /** The binomial theorem: all the likelihoods together are 1. */
  lemma {:induction false} LikelihoodsTotalOne(n: nat, p: real)
    ensures Sum(n + 1, n, p) == 1.0
  {
    if n == 0 {
      assert Pmf(0, 0, p) == 1.0;
      assert Sum(0, 0, p) == 0.0;
    } else {
      LikelihoodsTotalOne(n - 1, p);
      SumOneMoreTrial(n, n - 1, p);
      assert Sum(n + 1, n - 1, p) == Sum(n, n - 1, p) + Pmf(n, n - 1, p);
      assert Pmf(n, n - 1, p) == 0.0;
    }
  }

  /** The likelihoods among 0 to m - 1 successes that are at most `bound`. */
  function SmallSum(m: nat, n: nat, p: real, bound: real): real {
    if m == 0 then 0.0
    else SmallSum(m - 1, n, p, bound) + (if Pmf(m - 1, n, p) <= bound then Pmf(m - 1, n, p) else 0.0)
  }

  /** `observed + tol`. */
  function Bound(k: nat, n: nat, p: real): real { Pmf(k, n, p) + Pmf(k, n, p) * 0.000000001 }

  /** The sum that `binom_two_sided_p` clamps. */
  function Unclamped(k: nat, n: nat, p: real): real { SmallSum(n + 1, n, p, Bound(k, n, p)) }

  /** `binom_two_sided_p`. */
  function TwoSided(k: nat, n: nat, p: real): real {
    if n == 0 then 1.0 else if Unclamped(k, n, p) < 1.0 then Unclamped(k, n, p) else 1.0
  }

  /**
   * Which outcomes are counted, and for how much: each with its likelihood, when that is at most the
   * observed one and a billionth of it. Nothing tried is no evidence.
   */
  lemma {:induction false} CountedOutcomes(k: nat, n: nat, p: real, i: nat)
    ensures var (bound, each) := (Bound(k, n, p), Pmf(i, n, p));
            SmallSum(i + 1, n, p, bound) - SmallSum(i, n, p, bound)
              == if each <= 1.000000001 * Pmf(k, n, p) then each else 0.0
    ensures SmallSum(0, n, p, Bound(k, n, p)) == 0.0
    ensures TwoSided(k, 0, p) == 1.0
    ensures n > 0 ==>
              var all := SmallSum(n + 1, n, p, Bound(k, n, p)); TwoSided(k, n, p) == if all >= 1.0 then 1.0 else all
  {
    hide Pmf;
  }

  lemma {:induction false} SmallSumWithin(m: nat, n: nat, p: real, bound: real)
    requires 0.0 <= p <= 1.0
    ensures 0.0 <= SmallSum(m, n, p, bound) <= Sum(m, n, p)
    ensures forall i: nat :: i < m && Pmf(i, n, p) <= bound ==> Pmf(i, n, p) <= SmallSum(m, n, p, bound)
    ensures forall i: nat :: i < m && Pmf(i, n, p) > bound ==>
              SmallSum(m, n, p, bound) <= Sum(m, n, p) - Pmf(i, n, p)
    ensures (forall i: nat :: i < m ==> Pmf(i, n, p) <= bound) ==> SmallSum(m, n, p, bound) == Sum(m, n, p)
  {
    hide Pmf;
    if m > 0 {
      SmallSumWithin(m - 1, n, p, bound);
      PmfNotNegative(m - 1, n, p);
    }
  }

  /**
   * For every probability and count: the clamp never bites, the result is at least the likelihood
   * observed, and it is 1 exactly when no outcome is likelier than that by more than the tolerance.
   */
  lemma {:induction false} TwoSidedIsAProbability(k: nat, n: nat, p: real)
    requires 0.0 <= p <= 1.0 && 0 < n && k <= n
    ensures TwoSided(k, n, p) == Unclamped(k, n, p)
    ensures Pmf(k, n, p) <= TwoSided(k, n, p) <= 1.0
    ensures TwoSided(k, n, p) == 1.0 <==> forall i: nat :: i <= n ==> Pmf(i, n, p) <= Bound(k, n, p)
  {
    hide Pmf, Sum, SmallSum;
    var bound := Bound(k, n, p);
    PmfNotNegative(k, n, p);
    LikelihoodsTotalOne(n, p);
    SmallSumWithin(n + 1, n, p, bound);
    assert Pmf(k, n, p) <= bound;
  }

  /** In particular it is 1 at a mode. */
  lemma {:induction false} OneAtAMode(k: nat, n: nat, p: real)
    requires 0.0 <= p <= 1.0 && k <= n && forall i: nat :: i <= n ==> Pmf(i, n, p) <= Pmf(k, n, p)
    ensures TwoSided(k, n, p) == 1.0
  {
    hide Pmf, Unclamped;
    if n > 0 {
      PmfNotNegative(k, n, p);
      TwoSidedIsAProbability(k, n, p);
    }
  }
}
