/**
 * The value gate of `experiments/27-value-gate.py` in exact reals: the Wilson score interval,
 * scaling a measured arm to its population, and the verdict read off two such intervals.
 */
module ValueGate {
  import opened Text
  import opened Reals

  // ---- the Wilson interval ---------------------------------------------------------------------

  datatype Interval = Interval(lo: real, hi: real)

  function Share(k: nat, n: nat): real
    requires n > 0
  {
    k as real / n as real
  }

  /** What stands under the square root. */
  function Radicand(k: nat, n: nat, z: real): real
    requires n > 0
  {
    var p, m := Share(k, n), n as real;
    p * (1.0 - p) / m + z * z / (4.0 * m * m)
  }

  /** `root` is `math.sqrt` of the radicand. */
  ghost predicate IsRoot(root: real, k: nat, n: nat, z: real)
    requires n > 0
  {
    root >= 0.0 && root * root == Radicand(k, n, z)
  }

  function Denominator(n: nat, z: real): real
    requires n > 0
  {
    1.0 + z * z / n as real
  }

  lemma {:induction false} DenominatorAboveOne(n: nat, z: real)
    requires n > 0
    ensures Denominator(n, z) >= 1.0
  {
    assert z * z >= 0.0;
  }

  function Centre(k: nat, n: nat, z: real): real
    requires n > 0
  {
    DenominatorAboveOne(n, z);
    (Share(k, n) + z * z / (2.0 * n as real)) / Denominator(n, z)
  }

  function Half(n: nat, z: real, root: real): real
    requires n > 0
  {
    DenominatorAboveOne(n, z);
    z / Denominator(n, z) * root
  }

  function Max(a: real, b: real): real { if a >= b then a else b }

  function Min(a: real, b: real): real { if a <= b then a else b }

  /** `wilson`. */
  function Wilson(k: nat, n: nat, z: real, root: real): Interval {
    if n == 0 then Interval(0.0, 1.0)
    else Interval(Max(0.0, Centre(k, n, z) - Half(n, z, root)), Min(1.0, Centre(k, n, z) + Half(n, z, root)))
  }

  /** How far a true proportion `x` lies from the observed one, against `z` standard errors: the score test. */
  function Score(x: real, k: nat, n: nat, z: real): real
    requires n > 0
  {
    var p := Share(k, n);
    (x - p) * (x - p) - z * z / n as real * x * (1.0 - x)
  }

  lemma {:induction false} CentreTimesDenominator(k: nat, n: nat, z: real)
    requires n > 0
    ensures Centre(k, n, z) * Denominator(n, z) == Share(k, n) + z * z / n as real / 2.0
  {
    hide Share;
    DenominatorAboveOne(n, z);
    var m := n as real;
    assert z * z / (2.0 * m) == z * z / m / 2.0;
  }

  lemma {:induction false} HalfTimesDenominator(k: nat, n: nat, z: real, root: real)
    requires n > 0 && IsRoot(root, k, n, z)
    ensures var t := z * z / n as real;
            var hd := Half(n, z, root) * Denominator(n, z);
            && hd == z * root
            && hd * hd == t * Share(k, n) * (1.0 - Share(k, n)) + t * t / 4.0
  {
    DenominatorAboveOne(n, z);
    var m, p, d := n as real, Share(k, n), Denominator(n, z);
    var t := z * z / m;
    assert Half(n, z, root) * d == z * root by { Cancel(z, d, root); }
    var hd := z * root;
    assert hd * hd == z * z * (root * root) by { Squares(z, root); }
    Spread(z, m, p);
  }

  lemma {:induction false} Cancel(z: real, d: real, root: real)
    requires d != 0.0
    ensures z / d * root * d == z * root
  {
    assert z / d * d == z;
    var q := z / d;
    assert q * root * d == q * d * root;
  }

  lemma {:induction false} Spread(z: real, m: real, p: real)
    requires m > 0.0
    ensures z * z * (p * (1.0 - p) / m + z * z / (4.0 * m * m))
         == z * z / m * p * (1.0 - p) + z * z / m * (z * z / m) / 4.0
  {
    var zz, q := z * z, p * (1.0 - p);
    var t := zz / m;
    ByParts(t, q, m);
    assert zz == t * m && zz / (4.0 * m * m) == t / (4.0 * m) by { Shrink(zz, m); }
    assert t * p * (1.0 - p) == t * q;
  }

  lemma {:induction false} Shrink(zz: real, m: real)
    requires m > 0.0
    ensures zz / (4.0 * m * m) == zz / m / (4.0 * m)
  {
    var b := 4.0 * m;
    var u := zz / m / b;
    assert u * b == zz / m;
    Associate(u, b, m);
    assert m * m > 0.0;
    assert b * m == 4.0 * m * m;
    Quotient(zz, b * m, u);
  }

  lemma {:induction false} ByParts(t: real, q: real, m: real)
    requires m > 0.0
    ensures t * m * (q / m + t / (4.0 * m)) == t * q + t * t / 4.0
  {
    var a, b := q / m, t / (4.0 * m);
    assert m * a == q;
    assert m * b == t / 4.0 by { assert b * (4.0 * m) == t; assert b * (4.0 * m) == 4.0 * (m * b); }
    assert t * m * (a + b) == t * (m * a) + t * (m * b);
  }

  // ---- what the interval means -------------------------------------------------------------------

  lemma {:induction false} ShareInUnit(k: nat, n: nat)
    requires 0 < n && k <= n
    ensures 0.0 <= Share(k, n) <= 1.0
    ensures Share(k, n) == 0.0 <==> k == 0
    ensures Share(k, n) == 1.0 <==> k == n
  {
    var p, m := Share(k, n), n as real;
    assert p * m == k as real;
    PartOfWhole(k as real, m, p);
  }

  /** A square minus a square, scaled twice by `d`. */
  lemma {:induction false} TwoRoots(x: real, c: real, h: real, d: real, p: real, t: real)
    requires d == 1.0 + t && d > 0.0
    requires c * d == p + t / 2.0
    requires h * d * (h * d) == t * p * (1.0 - p) + t * t / 4.0
    ensures (x - p) * (x - p) - t * x * (1.0 - x) == d * (x - (c - h)) * (x - (c + h))
  {
    var lhs := (x - p) * (x - p) - t * x * (1.0 - x);
    var cd, hd := c * d, h * d;
    assert cd * cd - hd * hd == p * p * d by {
      assert cd * cd == p * p + p * t + t * t / 4.0;
      assert t * p * (1.0 - p) == t * p - t * p * p;
      assert p * p * d == p * p + t * p * p;
    }
    assert d * lhs == (d * x) * (d * x) - 2.0 * cd * (d * x) + p * p * d by {
      assert lhs == d * x * x - 2.0 * cd * x + p * p by {
        assert 2.0 * cd * x == 2.0 * p * x + t * x;
        assert d * x * x == x * x + t * x * x;
        assert t * x * (1.0 - x) == t * x - t * x * x;
      }
      ScaleQuadratic(d, x, cd, p * p);
    }
    var y := d * x;
    assert (y - (cd - hd)) * (y - (cd + hd)) == y * y - 2.0 * cd * y + (cd * cd - hd * hd);
    assert y - (cd - hd) == d * (x - (c - h)) && y - (cd + hd) == d * (x - (c + h)) by {
      assert d * (x - (c - h)) == d * x - d * c + d * h;
      assert d * (x - (c + h)) == d * x - d * c - d * h;
    }
    var rhs := d * (x - (c - h)) * (x - (c + h));
    assert d * rhs == d * (x - (c - h)) * (d * (x - (c + h))) by { Reassociate(d, x - (c - h), x - (c + h)); }
    assert d * lhs == d * rhs;
    CancelLeft(d, lhs, rhs);
  }

  lemma {:induction false} ScaleQuadratic(d: real, x: real, b: real, c: real)
    ensures d * (d * x * x - 2.0 * b * x + c) == d * x * (d * x) - 2.0 * b * (d * x) + c * d
  {
  }

  lemma {:induction false} Reassociate(d: real, a: real, b: real)
    ensures d * (d * a * b) == d * a * (d * b)
  {
  }

  /** The unclamped endpoints are the two roots of the score equation, and it has no others. */
  lemma {:induction false} ScoreFactors(x: real, k: nat, n: nat, z: real, root: real)
    requires n > 0 && IsRoot(root, k, n, z)
    ensures var lo := Centre(k, n, z) - Half(n, z, root);
            var hi := Centre(k, n, z) + Half(n, z, root);
            Score(x, k, n, z) == Denominator(n, z) * (x - lo) * (x - hi)
  {
    CentreTimesDenominator(k, n, z);
    HalfTimesDenominator(k, n, z, root);
    DenominatorAboveOne(n, z);
    hide Centre, Half, IsRoot, Share;
    TwoRoots(x, Centre(k, n, z), Half(n, z, root), Denominator(n, z), Share(k, n), z * z / n as real);
  }

  /** The interval holds exactly the proportions the score test does not reject. */
  lemma {:induction false} ScoreTest(x: real, k: nat, n: nat, z: real, root: real)
    requires n > 0 && z > 0.0 && IsRoot(root, k, n, z)
    ensures var lo := Centre(k, n, z) - Half(n, z, root);
            var hi := Centre(k, n, z) + Half(n, z, root);
            && lo <= hi
            && (Score(x, k, n, z) <= 0.0 <==> lo <= x <= hi)
            && (Score(x, k, n, z) == 0.0 <==> x == lo || x == hi)
  {
    ScoreFactors(x, k, n, z, root);
    DenominatorAboveOne(n, z);
    HalfNotNegative(n, z, root);
    hide Centre, Half, Score, IsRoot, Denominator;
    SignOfProduct(Denominator(n, z), x - (Centre(k, n, z) - Half(n, z, root)),
                  x - (Centre(k, n, z) + Half(n, z, root)));
  }

  /** 0 <= lo <= k/n <= hi <= 1 before any clamp, and the ends touch 0 and 1 only at k = 0 and k = n. */
  lemma {:induction false} EndpointsInUnit(k: nat, n: nat, z: real, root: real)
    requires 0 < n && k <= n && z > 0.0 && IsRoot(root, k, n, z)
    ensures var lo := Centre(k, n, z) - Half(n, z, root);
            var hi := Centre(k, n, z) + Half(n, z, root);
            && 0.0 <= lo <= Share(k, n) <= hi <= 1.0
            && (lo > 0.0 <==> k > 0) && (hi < 1.0 <==> k < n) && hi > 0.0 && lo < 1.0
  {
    hide Centre, Half, Score, Share, IsRoot;
    ShareInUnit(k, n);
    ScoreAtEnds(k, n, z);
    CentreInside(k, n, z);
    ScoreTest(0.0, k, n, z, root);
    ScoreTest(1.0, k, n, z, root);
    ScoreTest(Share(k, n), k, n, z, root);
  }

  lemma {:induction false} ScoreAtEnds(k: nat, n: nat, z: real)
    requires 0 < n && k <= n
    ensures Score(0.0, k, n, z) == Share(k, n) * Share(k, n) >= 0.0
    ensures Score(1.0, k, n, z) == (1.0 - Share(k, n)) * (1.0 - Share(k, n)) >= 0.0
    ensures Score(0.0, k, n, z) == 0.0 <==> k == 0
    ensures Score(1.0, k, n, z) == 0.0 <==> k == n
    ensures Score(Share(k, n), k, n, z) <= 0.0
  {
    ShareInUnit(k, n);
    hide Share;
    var p, t := Share(k, n), z * z / n as real;
    assert z * z >= 0.0;
    assert t >= 0.0;
    var q := p * (1.0 - p);
    assert q >= 0.0;
    assert t * p * (1.0 - p) == t * q;
    assert t * q >= 0.0;
    SquareSign(p);
    SquareSign(1.0 - p);
  }

  lemma {:induction false} CentreInside(k: nat, n: nat, z: real)
    requires 0 < n && k <= n && z > 0.0
    ensures 0.0 < Centre(k, n, z) < 1.0
  {
    ShareInUnit(k, n);
    CentreTimesDenominator(k, n, z);
    DenominatorAboveOne(n, z);
    hide Share, Centre;
    var t, d, c := z * z / n as real, Denominator(n, z), Centre(k, n, z);
    TermPositive(z, z, n as real);
    assert (1.0 - c) * d == d - c * d;
    if c <= 0.0 {
      NotPositive(c, d);
    }
    if 1.0 - c <= 0.0 {
      NotPositive(1.0 - c, d);
    }
  }

  lemma {:induction false} HalfNotNegative(n: nat, z: real, root: real)
    requires n > 0 && z > 0.0 && root >= 0.0
    ensures Half(n, z, root) >= 0.0
  {
    DenominatorAboveOne(n, z);
    assert z / Denominator(n, z) > 0.0;
  }

  /** Neither clamp ever bites. */
  lemma {:induction false} ClampsNeverBite(k: nat, n: nat, z: real, root: real)
    requires 0 < n && k <= n && z > 0.0 && IsRoot(root, k, n, z)
    ensures var w := Wilson(k, n, z, root);
            && w == Interval(Centre(k, n, z) - Half(n, z, root), Centre(k, n, z) + Half(n, z, root))
            && 0.0 <= w.lo <= Share(k, n) <= w.hi <= 1.0
            && (w.lo > 0.0 <==> k > 0) && w.hi > 0.0
            && forall x :: w.lo <= x <= w.hi <==> Score(x, k, n, z) <= 0.0
  {
    hide Centre, Half, Score, Share, IsRoot;
    EndpointsInUnit(k, n, z, root);
    var w := Wilson(k, n, z, root);
    forall x ensures w.lo <= x <= w.hi <==> Score(x, k, n, z) <= 0.0 {
      ScoreTest(x, k, n, z, root);
    }
  }

  // ---- one arm of the comparison ---------------------------------------------------------------

  datatype Arm = Arm(population: nat, measured: nat, live: nat, interval: Interval)

  ghost predicate IsArm(a: Arm, z: real, root: real) {
    && a.live <= a.measured <= a.population && z > 0.0
    && (a.measured > 0 ==> IsRoot(root, a.live, a.measured, z))
    && a.interval == Wilson(a.live, a.measured, z, root)
  }

  function Recorded(records: map<string, string>, urls: set<string>): set<string> {
    set u | u in urls && u in records
  }

  function Alive(records: map<string, string>, urls: set<string>): set<string> {
    set u | u in urls && u in records && records[u] == "live"
  }

  lemma {:induction false} NoneYet(records: map<string, string>)
    ensures Recorded(records, {}) == {} && Alive(records, {}) == {}
  {
  }

  lemma {:induction false} OneMore(records: map<string, string>, urls: set<string>, u: string)
    requires u !in urls
    ensures |Recorded(records, urls + {u})| == |Recorded(records, urls)| + (if u in records then 1 else 0)
    ensures |Alive(records, urls + {u})|
         == |Alive(records, urls)| + (if u in records && records[u] == "live" then 1 else 0)
  {
    assert Recorded(records, urls + {u}) == Recorded(records, urls) + (if u in records then {u} else {});
    assert Alive(records, urls + {u})
        == Alive(records, urls) + (if u in records && records[u] == "live" then {u} else {});
  }

  /** The tally in `arm`: how many of the URLs have a record, and how many of those are live. */
  method Tally(records: map<string, string>, urls: set<string>) returns (measured: nat, live: nat)
    ensures measured == |Recorded(records, urls)| && live == |Alive(records, urls)|
    ensures live <= measured <= |urls|
  {
    hide Recorded, Alive;
    NoneYet(records);
    var left := urls;
    measured, live := 0, 0;
    ghost var done: set<string> := {};
    while left != {}
      invariant done + left == urls && done !! left
      invariant measured == |Recorded(records, done)| && live == |Alive(records, done)|
      invariant live <= measured <= |done|
      decreases |left|
    {
      var u :| u in left;
      OneMore(records, done, u);
      left, done := left - {u}, done + {u};
      if u in records {
        measured := measured + 1;
        if records[u] == "live" {
          live := live + 1;
        }
      }
    }
    assert done == urls;
  }

  datatype Estimate = Estimate(point: real, lo: real, hi: real, isCensus: bool)

  /** `extrapolate`: nothing, a census as it is, or a rate scaled to its population. */
  function Extrapolate(a: Arm): Option<Estimate> {
    if a.measured == 0 then None
    else if a.measured >= a.population then Some(Estimate(a.live as real, a.live as real, a.live as real, true))
    else
      Some(Estimate(Scaled(Share(a.live, a.measured), a.population), Scaled(a.interval.lo, a.population),
                    Scaled(a.interval.hi, a.population), false))
  }

  function Scaled(rate: real, population: nat): real { rate * population as real }

  lemma {:induction false} ScaleUp(a: real, b: real, n: nat)
    requires 0.0 <= a <= b && n > 0
    ensures 0.0 <= Scaled(a, n) <= Scaled(b, n)
    ensures Scaled(a, n) > 0.0 <==> a > 0.0
  {
    var p := n as real;
    ProductNotNegative(a, p);
    ProductNotNegative(b - a, p);
    assert (b - a) * p == b * p - a * p;
    if a > 0.0 {
      Positive(a, p);
    }
  }

  /** An estimate's ends enclose its point, and every part of it is positive exactly when something is live. */
  lemma {:induction false} EstimateOrdered(a: Arm, z: real, root: real)
    requires IsArm(a, z, root) && a.measured > 0
    ensures var e := Extrapolate(a);
            && e.Some? && 0.0 <= e.value.lo <= e.value.point <= e.value.hi
            && (e.value.lo > 0.0 <==> a.live > 0) && (e.value.point > 0.0 <==> a.live > 0)
            && (e.value.hi > 0.0 <==> a.live > 0 || !e.value.isCensus)
  {
    hide Wilson, Share, IsRoot, Scaled;
    if a.measured < a.population {
      ScaledOrdered(a, z, root);
    }
  }

  lemma {:induction false} ScaledOrdered(a: Arm, z: real, root: real)
    requires IsArm(a, z, root) && 0 < a.measured < a.population
    ensures var (lo, point, hi) := (Scaled(a.interval.lo, a.population),
                                    Scaled(Share(a.live, a.measured), a.population),
                                    Scaled(a.interval.hi, a.population));
            && 0.0 <= lo <= point <= hi
            && (lo > 0.0 <==> a.live > 0) && (point > 0.0 <==> a.live > 0) && hi > 0.0
  {
    hide Wilson, Share, IsRoot, Score, Centre, Half;
    ClampsNeverBite(a.live, a.measured, z, root);
    ShareInUnit(a.live, a.measured);
    hide Scaled;
    ScaleUp(a.interval.lo, Share(a.live, a.measured), a.population);
    ScaleUp(Share(a.live, a.measured), a.interval.hi, a.population);
    ScaleUp(a.interval.hi, a.interval.hi, a.population);
  }

  // ---- the verdict ---------------------------------------------------------------------------------

  datatype Conclusion = NotJustified | JustifiedAsList | JustifiedAsLabelled

  datatype Verdict =
    | Unanswerable
    | Judged(worst: Option<real>, point: Option<real>, best: Option<real>, clearsCount: bool, clearsDensity: bool,
             conclusion: Conclusion)

  /** One plus a ratio, or nothing when the divisor is zero. */
  function Ratio(over: real, under: real): Option<real> {
    if under == 0.0 then None else Some(1.0 + over / under)
  }

  /** `judge`: our figures at their least flattering end. */
  function Judge(add: Option<Estimate>, base: Option<Estimate>, ours: nat, baseline: nat): Verdict {
    if add.None? || base.None? then Unanswerable
    else
      var a, b := add.value, base.value;
      var worst := Ratio(a.lo, b.hi);
      var clearsCount := worst.Some? && worst.value > 1.0;
      var clearsDensity :=
        ours != 0 && baseline != 0 && (a.point + b.point) / ours as real >= b.point / baseline as real;
      Judged(worst, Ratio(a.point, b.point), Ratio(a.hi, b.lo), clearsCount, clearsDensity,
             if !clearsCount then NotJustified else if clearsDensity then JustifiedAsList else JustifiedAsLabelled)
  }

  /** The three yield ratios are defined and in order as soon as the baseline has one live tracker. */
  lemma {:induction false} RatiosOrdered(add: Arm, base: Arm, z: real, rootA: real, rootB: real, ours: nat,
                                         baseline: nat)
    requires IsArm(add, z, rootA) && IsArm(base, z, rootB) && add.measured > 0 && base.live > 0
    ensures var v := Judge(Extrapolate(add), Extrapolate(base), ours, baseline);
            && v.Judged? && v.worst.Some? && v.point.Some? && v.best.Some?
            && 1.0 <= v.worst.value <= v.point.value <= v.best.value
  {
    EstimateOrdered(add, z, rootA);
    EstimateOrdered(base, z, rootB);
    hide Extrapolate, Wilson;
    var a, b := Extrapolate(add).value, Extrapolate(base).value;
    DivideOrdered(a.lo, a.point, b.hi, b.point);
    DivideOrdered(a.point, a.hi, b.point, b.lo);
  }

  /**
   * When both arms were measured, the count bar is cleared exactly when one tracker of our own is
   * live -- unless the baseline is a census that found none, which nothing can be better than.
   */
  lemma {:induction false} CountBar(add: Arm, base: Arm, z: real, rootA: real, rootB: real, ours: nat, baseline: nat)
    requires IsArm(add, z, rootA) && IsArm(base, z, rootB) && add.measured > 0 && base.measured > 0
    ensures var v := Judge(Extrapolate(add), Extrapolate(base), ours, baseline);
            && v.Judged?
            && (v.clearsCount <==> add.live > 0 && (base.live > 0 || base.measured < base.population))
            && (v.conclusion == NotJustified <==> !v.clearsCount)
  {
    EstimateOrdered(add, z, rootA);
    EstimateOrdered(base, z, rootB);
    var a, b := Extrapolate(add).value, Extrapolate(base).value;
    assert b.isCensus <==> base.measured >= base.population;
    hide Extrapolate, Wilson;
    if b.hi > 0.0 {
      DivideOrdered(a.lo, a.lo, b.hi, b.hi);
      if a.lo > 0.0 {
        QuotientSign(a.lo, b.hi);
      } else {
        assert a.lo / b.hi == 0.0;
      }
    }
  }

  /** Rate times population: what was live, scaled by how much of the population was measured. */
  lemma {:induction false} ScaledShare(live: nat, measured: nat, population: nat)
    requires measured > 0
    ensures Scaled(Share(live, measured), population) * measured as real == live as real * population as real
  {
    var p, m, n := Share(live, measured), measured as real, population as real;
    assert p * m == live as real;
    assert p * n * m == p * m * n;
  }

  /**
   * An estimate in the counts of its arm: a census is the count itself; otherwise the point is the
   * live share of the population, and the ends are the population's shares of the two roots.
   */
  lemma {:induction false} EstimateExact(a: Arm, z: real, root: real)
    requires IsArm(a, z, root)
    ensures Extrapolate(a).None? <==> a.measured == 0
    ensures a.measured > 0 ==>
              var e := Extrapolate(a).value;
              && e.point * a.measured as real == a.live as real * a.population as real
              && (e.isCensus <==> a.measured == a.population)
              && (a.measured == a.population ==> e.lo == e.point == e.hi == a.live as real)
              && (a.measured < a.population ==>
                    var (c, h) := (Centre(a.live, a.measured, z), Half(a.measured, z, root));
                    e.lo == a.population as real * (c - h) && e.hi == a.population as real * (c + h))
  {
    hide IsRoot, Score, Centre, Half, Share;
    if 0 < a.measured < a.population {
      ClampsNeverBite(a.live, a.measured, z, root);
      ScaledShare(a.live, a.measured, a.population);
    }
  }

  lemma {:induction false} NothingMeasured(z: real, root: real)
    ensures Wilson(0, 0, z, root) == Interval(0.0, 1.0)
  {
  }

  lemma {:induction false} ScaleSides(x: real, y: real, f: real)
    requires f > 0.0
    ensures x >= y <==> x * f >= y * f
  {
    SignOfFactor(x - y, f);
    assert (x - y) * f == x * f - y * f;
  }

  /** Both points over one denominator. */
  lemma {:induction false} DensityCounts(p: real, q: real, m: real, k: real, x: real, y: real, o: real, n: real)
    requires m > 0.0 && k > 0.0 && p * m == x && q * k == y
    ensures p * n >= q * (o - n) <==> x * k * n >= y * m * (o - n)
  {
    var f := m * k;
    Positive(m, k);
    ScaleSides(p * n, q * (o - n), f);
    assert p * n * f == p * m * k * n;
    assert q * (o - n) * f == q * k * m * (o - n);
  }

  /** What an arm has live, times the population it stands for. */
  function Weight(a: Arm): real { a.live as real * a.population as real }

  /** Dense enough: our live share, on top of the baseline's, makes up for the length of the list. */
  predicate DenseEnough(add: Arm, base: Arm, ours: nat, baseline: nat) {
    && ours > 0 && baseline > 0
    && Weight(add) * base.measured as real * baseline as real
         >= Weight(base) * add.measured as real * (ours as real - baseline as real)
  }

  lemma {:induction false} DensityInCounts(add: Arm, base: Arm, a: Estimate, b: Estimate, ours: nat, baseline: nat)
    requires add.measured > 0 && a.point * add.measured as real == Weight(add)
    requires base.measured > 0 && b.point * base.measured as real == Weight(base)
    ensures Judge(Some(a), Some(b), ours, baseline).clearsDensity <==> DenseEnough(add, base, ours, baseline)
  {
    if ours > 0 && baseline > 0 {
      hide Judge, Weight;
      DensityBar(a, b, ours, baseline);
      DensityCounts(a.point, b.point, add.measured as real, base.measured as real, Weight(add), Weight(base),
                    ours as real, baseline as real);
    }
  }

  /**
   * The verdict in the counts of the two arms. Neither arm may be unmeasured; the first bar asks
   * for one live tracker of our own, and that the baseline is no census of none; the second asks
   * for density, and decides only how the list is justified.
   */
  lemma {:induction false} JudgedByCounts(add: Arm, base: Arm, z: real, rootA: real, rootB: real, ours: nat,
                                          baseline: nat)
    requires IsArm(add, z, rootA) && IsArm(base, z, rootB)
    ensures var v := Judge(Extrapolate(add), Extrapolate(base), ours, baseline);
            && (v.Unanswerable? <==> add.measured == 0 || base.measured == 0)
            && (v.Judged? ==>
                  var counted := add.live > 0 && (base.live > 0 || base.measured < base.population);
                  && v.clearsCount == counted
                  && v.clearsDensity == DenseEnough(add, base, ours, baseline)
                  && v.conclusion == (if !counted then NotJustified
                                      else if DenseEnough(add, base, ours, baseline) then JustifiedAsList
                                      else JustifiedAsLabelled))
  {
    hide IsArm, Extrapolate, DenseEnough, Centre, Half;
    EstimateExact(add, z, rootA);
    EstimateExact(base, z, rootB);
    if add.measured > 0 && base.measured > 0 {
      CountBar(add, base, z, rootA, rootB, ours, baseline);
      DensityInCounts(add, base, Extrapolate(add).value, Extrapolate(base).value, ours, baseline);
    }
  }

  /** The three ratios, from the estimates: each one more than added over baseline, at its end. */
  lemma {:induction false} RatiosExact(a: Estimate, b: Estimate, ours: nat, baseline: nat)
    ensures var v := Judge(Some(a), Some(b), ours, baseline);
            && (v.worst.Some? <==> b.hi != 0.0) && (v.worst.Some? ==> (v.worst.value - 1.0) * b.hi == a.lo)
            && (v.point.Some? <==> b.point != 0.0) && (v.point.Some? ==> (v.point.value - 1.0) * b.point == a.point)
            && (v.best.Some? <==> b.lo != 0.0) && (v.best.Some? ==> (v.best.value - 1.0) * b.lo == a.hi)
  {
  }

  /** One live tracker of our own against a census of one dead one: refused, with ratios left undefined. */
  lemma {:induction false} NothingBeatsAnEmptyCensus()
    ensures var add := Arm(1, 1, 1, Wilson(1, 1, 1.96, 0.98));
            var base := Arm(1, 1, 0, Wilson(0, 1, 1.96, 0.98));
            && IsArm(add, 1.96, 0.98) && IsArm(base, 1.96, 0.98)
            && Judge(Extrapolate(add), Extrapolate(base), 2, 1) == Judged(None, None, None, false, true, NotJustified)
  {
    hide Wilson;
    assert Radicand(1, 1, 1.96) == 0.9604 && Radicand(0, 1, 1.96) == 0.9604;
  }

  /** The density bar compares what we add with what the baseline would have at the same length. */
  lemma {:induction false} DensityBar(add: Estimate, base: Estimate, ours: nat, baseline: nat)
    requires ours > 0 && baseline > 0
    ensures Judge(Some(add), Some(base), ours, baseline).clearsDensity
       <==> add.point * baseline as real >= base.point * (ours as real - baseline as real)
  {
    var o, n := ours as real, baseline as real;
    CrossMultiply(add.point + base.point, o, base.point, n);
    assert (add.point + base.point) * n == add.point * n + base.point * n;
    assert base.point * (o - n) == base.point * o - base.point * n;
  }
}
