/** The exact one-sided binomial bound: the distribution function as the program
    sums it, its monotonicity in every argument, and the sixty-step bisection. */
module Binomial {

  /** Pascal's triangle; zero above the diagonal, as `math.comb`. */
  function Comb(n: nat, k: nat): nat {
    if k == 0 then 1
    else if n == 0 then 0
    else Comb(n - 1, k - 1) + Comb(n - 1, k)
  }

  lemma {:induction false} CombAboveIsZero(n: nat, k: nat)
    requires k > n
    ensures Comb(n, k) == 0
  {
    if n > 0 {
      CombAboveIsZero(n - 1, k - 1);
      CombAboveIsZero(n - 1, k);
    }
  }

  function Pow(x: real, k: nat): real {
    if k == 0 then 1.0 else x * Pow(x, k - 1)
  }

  lemma {:induction false} PowNonNegative(x: real, k: nat)
    requires x >= 0.0
    ensures Pow(x, k) >= 0.0
  {
    if k > 0 {
      PowNonNegative(x, k - 1);
    }
  }

  function Times(x: real, y: real): real {
    x * y
  }

  function Weight(c: real, a: real, b: real): real {
    c * a * b
  }

  /** The next trial misses with probability p: average the two cases. */
  function Mix(p: real, hit: real, miss: real): real {
    Times(1.0 - p, hit) + Times(p, miss)
  }

  /** One summand: the probability of exactly k misses among n. */
  function Term(n: nat, k: nat, p: real): real {
    if k > n then 0.0 else Weight(Comb(n, k) as real, Pow(p, k), Pow(1.0 - p, n - k))
  }

  /** P(X < m) for X binomial: the first m summands. `Below(misses + 1, n, p)` is
      the sum over range(misses + 1). */
  function Below(m: nat, n: nat, p: real): real {
    if m == 0 then 0.0 else Below(m - 1, n, p) + Term(n, m - 1, p)
  }

  function Cdf(misses: nat, n: nat, p: real): real {
    Below(misses + 1, n, p)
  }

  lemma TermNonNegative(n: nat, k: nat, p: real)
    requires 0.0 <= p <= 1.0
    ensures Term(n, k, p) >= 0.0
  {
    if k <= n {
      PowNonNegative(p, k);
      PowNonNegative(1.0 - p, n - k);
      WeightNonNegative(Comb(n, k) as real, Pow(p, k), Pow(1.0 - p, n - k));
    }
  }

  lemma WeightNonNegative(c: real, a: real, b: real)
    requires c >= 0.0 && a >= 0.0 && b >= 0.0
    ensures Weight(c, a, b) >= 0.0
  {
    assert c * a >= 0.0;
  }

  /** One more trial turns weights (c, a, b) and (d, a, b) into their mix. */
  lemma SplitWeight(c: real, d: real, a: real, b: real, p: real, x: real, y: real)
    requires x == p * a && y == (1.0 - p) * b
    ensures Weight(d + c, x, y) == Mix(p, Weight(c, x, b), Weight(d, a, y))
  {
    var q := 1.0 - p;
    assert (d + c) * x * y == d * x * y + c * x * y;
    assert d * x * y == p * (d * a * y);
    assert c * x * y == q * (c * x * b);
  }

  lemma PowStep(x: real, k: nat)
    ensures Pow(x, k + 1) == x * Pow(x, k)
    ensures Pow(x, 0) == 1.0
  {
  }

  lemma TermIs(n: nat, k: nat, p: real)
    ensures Term(n, k, p) == if k > n then 0.0 else Weight(Comb(n, k) as real, Pow(p, k), Pow(1.0 - p, n - k))
  {
  }

  lemma CombStep(n: nat, k: nat)
    ensures Comb(n, 0) == 1
    ensures Comb(n + 1, k + 1) == Comb(n, k) + Comb(n, k + 1)
  {
  }

  /** One more trial: the k-th term splits over the outcome of that trial. */
  lemma TermPascal(n: nat, k: nat, p: real)
    ensures Term(n + 1, k, p) == Mix(p, Term(n, k, p), if k == 0 then 0.0 else Term(n, k - 1, p))
  {
    hide Comb, Pow, Term, Weight, Mix;
    TermIs(n + 1, k, p);
    TermIs(n, k, p);
    if k == 0 {
      CombStep(n, 0);
      CombStep(n + 1, 0);
      PowStep(p, 0);
      PowStep(1.0 - p, n);
      FirstWeight(Pow(1.0 - p, n), p, Pow(1.0 - p, n + 1));
    } else if k > n + 1 {
      TermIs(n, k - 1, p);
      MixOfNothing(p);
    } else {
      TermIs(n, k - 1, p);
      CombStep(n, k - 1);
      PowStep(p, k - 1);
      if k == n + 1 {
        CombAboveIsZero(n, k);
        PowStep(1.0 - p, 0);
        LastWeight(Comb(n, k - 1) as real, Pow(p, k - 1), p, Pow(p, k), Pow(1.0 - p, 0));
      } else {
        PowStep(1.0 - p, n - k);
        SplitWeight(Comb(n, k) as real, Comb(n, k - 1) as real, Pow(p, k - 1), Pow(1.0 - p, n - k), p,
                    Pow(p, k), Pow(1.0 - p, n + 1 - k));
      }
    }
  }

  lemma FirstWeight(b: real, p: real, y: real)
    requires y == (1.0 - p) * b
    ensures Weight(1.0, 1.0, y) == Mix(p, Weight(1.0, 1.0, b), 0.0)
  {
  }

  lemma LastWeight(d: real, a: real, p: real, x: real, b: real)
    requires x == p * a
    ensures Weight(d, x, b) == Mix(p, 0.0, Weight(d, a, b))
  {
    assert d * (p * a) == p * (d * a);
  }

  lemma MixOfNothing(p: real)
    ensures Mix(p, 0.0, 0.0) == 0.0
  {
  }

  lemma BelowStep(m: nat, n: nat, p: real)
    requires m > 0
    ensures Below(m, n, p) == Below(m - 1, n, p) + Term(n, m - 1, p)
  {
  }

  lemma BelowNothing(n: nat, p: real)
    ensures Below(0, n, p) == 0.0
  {
  }

  lemma MixAdds(p: real, b: real, t: real, b': real, t': real)
    ensures Mix(p, b, b') + Mix(p, t, t') == Mix(p, b + t, b' + t')
  {
  }

  lemma {:induction false} BelowPascal(m: nat, n: nat, p: real)
    ensures Below(m, n + 1, p) == Mix(p, Below(m, n, p), if m == 0 then 0.0 else Below(m - 1, n, p))
  {
    hide Below, Term, Mix;
    if m == 0 {
      BelowNothing(n, p);
      BelowNothing(n + 1, p);
      MixOfNothing(p);
    } else {
      BelowPascal(m - 1, n, p);
      TermPascal(n, m - 1, p);
      BelowStep(m, n + 1, p);
      BelowStep(m, n, p);
      if m > 1 {
        BelowStep(m - 1, n, p);
        MixAdds(p, Below(m - 1, n, p), Term(n, m - 1, p), Below(m - 2, n, p), Term(n, m - 2, p));
      } else {
        BelowNothing(n, p);
        MixAdds(p, Below(m - 1, n, p), Term(n, m - 1, p), 0.0, 0.0);
      }
    }
  }

  /** The distribution function satisfies Pascal's recursion. */
  lemma CdfPascal(misses: nat, n: nat, p: real)
    ensures Cdf(misses, n + 1, p) == Mix(p, Cdf(misses, n, p), if misses == 0 then 0.0 else Cdf(misses - 1, n, p))
  {
    hide Below, Mix;
    BelowPascal(misses + 1, n, p);
    BelowNothing(n, p);
  }

  // ----- monotonicity -----

  lemma {:induction false} BelowGrows(m: nat, m': nat, n: nat, p: real)
    requires 0.0 <= p <= 1.0 && m <= m'
    ensures 0.0 <= Below(m, n, p) <= Below(m', n, p)
    decreases m'
  {
    if m' > 0 {
      TermNonNegative(n, m' - 1, p);
      if m < m' {
        BelowGrows(m, m' - 1, n, p);
      } else {
        BelowGrows(m - 1, m - 1, n, p);
      }
    }
  }

  lemma ScaleKeepsOrder(x: real, u: real, v: real)
    requires x >= 0.0 && u <= v
    ensures Times(x, u) <= Times(x, v)
  {
    assert x * (v - u) >= 0.0;
    assert x * (v - u) == x * v - x * u;
  }

  lemma MixGrows(p: real, a: real, b: real, a': real, b': real)
    requires 0.0 <= p <= 1.0 && a' <= a && b' <= b
    ensures Mix(p, a', b') <= Mix(p, a, b)
  {
    hide Times;
    ScaleKeepsOrder(1.0 - p, a', a);
    ScaleKeepsOrder(p, b', b);
  }

  lemma MixSlides(a: real, b: real, p: real, q: real)
    requires 0.0 <= p <= q && b <= a
    ensures Mix(q, a, b) <= Mix(p, a, b) <= a
  {
    var d := a - b;
    assert Mix(q, a, b) == a - Times(d, q) && Mix(p, a, b) == a - Times(d, p) && Times(d, 0.0) == 0.0;
    hide Mix, Times;
    ScaleKeepsOrder(d, 0.0, p);
    ScaleKeepsOrder(d, p, q);
  }

  lemma Blend(a: real, b: real, a': real, b': real, p: real, q: real)
    requires 0.0 <= p <= q <= 1.0
    requires a' <= a && b' <= b && b <= a
    ensures Mix(q, a', b') <= Mix(p, a, b) <= a
  {
    hide Mix;
    MixGrows(q, a, b, a', b');
    MixSlides(a, b, p, q);
  }

  /** More trials leave less mass below a fixed count. */
  lemma {:induction false} BelowShrinksInN(m: nat, n: nat, n': nat, p: real)
    requires 0.0 <= p <= 1.0 && n <= n'
    ensures Below(m, n', p) <= Below(m, n, p)
    decreases n'
  {
    hide Below, Mix;
    if m == 0 {
      BelowNothing(n, p);
      BelowNothing(n', p);
    } else if n < n' {
      BelowShrinksInN(m, n, n' - 1, p);
      BelowPascal(m, n' - 1, p);
      BelowGrows(m - 1, m, n' - 1, p);
      Blend(Below(m, n' - 1, p), Below(m - 1, n' - 1, p), Below(m, n' - 1, p), Below(m - 1, n' - 1, p), p, p);
    }
  }

  lemma {:induction false} BelowAtZero(m: nat, p: real)
    ensures Below(m, 0, p) == if m == 0 then 0.0 else 1.0
  {
    if m > 0 {
      BelowAtZero(m - 1, p);
    }
  }

  /** A larger miss probability leaves less mass below a fixed count. */
  lemma {:induction false} BelowShrinksInP(m: nat, n: nat, p: real, q: real)
    requires 0.0 <= p <= q <= 1.0
    ensures Below(m, n, q) <= Below(m, n, p)
    decreases n
  {
    hide Below, Mix;
    if m == 0 {
      BelowNothing(n, p);
      BelowNothing(n, q);
    } else if n == 0 {
      BelowAtZero(m, p);
      BelowAtZero(m, q);
    } else {
      BelowShrinksInP(m, n - 1, p, q);
      BelowShrinksInP(m - 1, n - 1, p, q);
      BelowPascal(m, n - 1, p);
      BelowPascal(m, n - 1, q);
      BelowGrows(m - 1, m, n - 1, p);
      Blend(Below(m, n - 1, p), Below(m - 1, n - 1, p), Below(m, n - 1, q), Below(m - 1, n - 1, q), p, q);
    }
  }

  /** The distribution function grows with the count and shrinks with the number of
      trials and with the probability. */
  lemma CdfMonotone(misses: nat, misses': nat, n: nat, n': nat, p: real, q: real)
    requires misses <= misses' && n' <= n && 0.0 <= p <= q <= 1.0
    ensures Cdf(misses, n, q) <= Cdf(misses', n', p)
  {
    BelowShrinksInP(misses + 1, n, p, q);
    BelowShrinksInN(misses + 1, n', n, p);
    BelowGrows(misses + 1, misses' + 1, n', p);
  }

  lemma {:induction false} CdfAtEnds(misses: nat, n: nat)
    ensures Cdf(misses, n, 0.0) == 1.0
    ensures misses < n ==> Cdf(misses, n, 1.0) == 0.0
    decreases n
  {
    CdfAtZero(misses, n);
    if misses < n {
      BelowAtOne(misses + 1, n);
    }
  }

  lemma {:induction false} CdfAtZero(misses: nat, n: nat)
    ensures Cdf(misses, n, 0.0) == 1.0
    decreases n
  {
    if n == 0 {
      BelowAtZero(misses + 1, 0.0);
    } else {
      hide Cdf;
      CdfAtZero(misses, n - 1);
      CdfPascal(misses, n - 1, 0.0);
    }
  }

  lemma {:induction false} BelowAtOne(m: nat, n: nat)
    requires m <= n
    ensures Below(m, n, 1.0) == 0.0
    decreases n
  {
    hide Below;
    if m == 0 {
      BelowNothing(n, 1.0);
    } else {
      BelowAtOne(m - 1, n - 1);
      BelowPascal(m, n - 1, 1.0);
      assert Mix(1.0, Below(m, n - 1, 1.0), 0.0) == 0.0;
    }
  }

  // ----- the bisection -----

  datatype Bracket = Bracket(low: real, high: real)

  function Mid(b: Bracket): real {
    (b.low + b.high) / 2.0
  }

  /** The bracket after `steps` halvings. */
  function Bisect(misses: nat, n: nat, alpha: real, steps: nat): Bracket {
    if steps == 0 then Bracket(0.0, 1.0)
    else
      var b := Bisect(misses, n, alpha, steps - 1);
      if Cdf(misses, n, Mid(b)) > alpha then b.(low := Mid(b)) else b.(high := Mid(b))
  }

  function Half(steps: nat): real {
    if steps == 0 then 1.0 else Half(steps - 1) / 2.0
  }

  /** Width halves each step; an end that moved is on its own side of alpha. */
  lemma {:induction false} BisectBrackets(misses: nat, n: nat, alpha: real, steps: nat)
    ensures var b := Bisect(misses, n, alpha, steps);
      && 0.0 <= b.low < b.high <= 1.0
      && b.high - b.low == Half(steps)
      && Half(steps) > 0.0
      && (b.low == 0.0 || Cdf(misses, n, b.low) > alpha)
      && (b.high == 1.0 || Cdf(misses, n, b.high) <= alpha)
  {
    hide Cdf;
    if steps > 0 {
      BisectBrackets(misses, n, alpha, steps - 1);
    }
  }

  const STEPS: nat := 60

  /** The bound before rounding. */
  function UpperBound(misses: nat, n: nat, confidence: real): real
    requires misses <= n && n > 0
  {
    if misses == n then 1.0 else Bisect(misses, n, 1.0 - confidence, STEPS).high
  }

  /** Every rate whose distribution function still exceeds alpha lies at or below the
      bound, and every rate that has fallen to alpha lies less than 2^-60 below it at most. */
  lemma BoundIsTight(misses: nat, n: nat, confidence: real, p: real)
    requires misses < n && 0.0 <= p <= 1.0
    ensures var alpha, bound := 1.0 - confidence, UpperBound(misses, n, confidence);
      && 0.0 < bound <= 1.0
      && (Cdf(misses, n, p) > alpha ==> p <= bound)
      && (Cdf(misses, n, p) <= alpha ==> bound <= p + Half(STEPS))
  {
    hide Cdf, Bisect, Half;
    var alpha := 1.0 - confidence;
    var b := Bisect(misses, n, alpha, STEPS);
    BisectBrackets(misses, n, alpha, STEPS);
    if Cdf(misses, n, p) > alpha && p > b.high {
      CdfMonotone(misses, misses, n, n, b.high, p);
      assert false;
    }
    if Cdf(misses, n, p) <= alpha && p < b.low {
      CdfMonotone(misses, misses, n, n, p, b.low);
      assert false;
    }
  }

  /** For a confidence in (0, 1] the final bracket straddles alpha. */
  lemma BoundStraddles(misses: nat, n: nat, confidence: real)
    requires misses < n && 0.0 < confidence <= 1.0
    ensures var alpha, b := 1.0 - confidence, Bisect(misses, n, 1.0 - confidence, STEPS);
      Cdf(misses, n, b.low) > alpha >= Cdf(misses, n, b.high)
  {
    CdfAtEnds(misses, n);
    BisectBrackets(misses, n, 1.0 - confidence, STEPS);
    hide Cdf, Bisect;
  }

  /** Two bisections of which the second always has the larger distribution function
      stay in step or come apart in order. */
  lemma {:induction false} BisectOrdered(m: nat, n: nat, m': nat, n': nat, alpha: real, steps: nat)
    requires m <= m' && n' <= n
    ensures var b, c := Bisect(m, n, alpha, steps), Bisect(m', n', alpha, steps);
      b == c || b.high <= c.low
  {
    hide Cdf;
    if steps > 0 {
      BisectOrdered(m, n, m', n', alpha, steps - 1);
      BisectBrackets(m, n, alpha, steps - 1);
      BisectBrackets(m', n', alpha, steps - 1);
      var b := Bisect(m, n, alpha, steps - 1);
      CdfMonotone(m, m', n, n', Mid(b), Mid(b));
    }
  }

  /** More misses never lower the bound and more trials never raise it, whichever
      branch computes it. */
  lemma BoundMonotone(m: nat, n: nat, m': nat, n': nat, confidence: real)
    requires m <= m' <= n' <= n && n' > 0
    ensures UpperBound(m, n, confidence) <= UpperBound(m', n', confidence)
  {
    BisectOrdered(m, n, m', n', 1.0 - confidence, STEPS);
    BisectBrackets(m, n, 1.0 - confidence, STEPS);
    BisectBrackets(m', n', 1.0 - confidence, STEPS);
    hide Bisect;
  }

  // ----- the routine -----

  /** The inner sum, term by term over range(misses + 1). */
  method SumTerms(misses: nat, n: nat, p: real) returns (cdf: real)
    requires misses <= n
    ensures cdf == Cdf(misses, n, p)
  {
    cdf := 0.0;
    for k := 0 to misses + 1
      invariant cdf == Below(k, n, p)
    {
      cdf := cdf + Weight(Comb(n, k) as real, Pow(p, k), Pow(1.0 - p, n - k));
    }
  }

  datatype Bound = Bound(value: real) | Refused

  /** The bisection loop; counts that cannot be counts are refused. */
  method OneSidedUpperBound(misses: int, n: int, confidence: real) returns (r: Bound)
    ensures r.Refused? <==> n <= 0 || misses < 0 || misses > n
    ensures r.Bound? ==> r.value == UpperBound(misses, n, confidence)
  {
    hide Cdf;
    if n <= 0 || misses < 0 || misses > n {
      return Refused;
    }
    if misses == n {
      return Bound(1.0);
    }
    var alpha := 1.0 - confidence;
    var low, high := 0.0, 1.0;
    for step := 0 to STEPS
      invariant Bracket(low, high) == Bisect(misses, n, alpha, step)
    {
      var mid := (low + high) / 2.0;
      var cdf := SumTerms(misses, n, mid);
      if cdf > alpha {
        low := mid;
      } else {
        high := mid;
      }
    }
    r := Bound(high);
  }

  // ----- the documented anchor: no misses among thirty -----

  lemma {:induction false} CdfNoMisses(n: nat, p: real)
    ensures Cdf(0, n, p) == Pow(1.0 - p, n)
  {
    if n == 0 {
      BelowAtZero(1, p);
    } else {
      CdfNoMisses(n - 1, p);
      CdfPascal(0, n - 1, p);
    }
  }

  lemma HalfFour(k: nat)
    ensures Half(k + 4) == Half(k) / 16.0
  {
    assert Half(k + 4) == Half(k + 3) / 2.0 && Half(k + 2) == Half(k + 1) / 2.0;
  }

  lemma {:induction false} HalfShrinks(a: nat, b: nat)
    requires a <= b
    ensures 0.0 < Half(b) <= Half(a)
    decreases b
  {
    if a < b {
      HalfShrinks(a, b - 1);
    } else if a > 0 {
      HalfShrinks(a - 1, a - 1);
    }
  }

  lemma TimesLaws(x: real, y: real, z: real)
    ensures Times(x, Times(y, z)) == Times(Times(x, y), z)
    ensures Times(1.0, x) == x
  {
    assert x * (y * z) == (x * y) * z;
  }

  lemma TimesKeepsOrder(a: real, b: real, lowA: real, highA: real, lowB: real, highB: real)
    requires 0.0 <= lowA <= a <= highA && 0.0 <= lowB <= b <= highB
    ensures 0.0 <= Times(lowA, lowB) <= Times(a, b) <= Times(highA, highB)
  {
    assert Times(lowA, 0.0) == 0.0;
    assert Times(b, lowA) == Times(lowA, b) && Times(b, a) == Times(a, b);
    assert Times(highB, a) == Times(a, highB) && Times(highB, highA) == Times(highA, highB);
    hide Times;
    ScaleKeepsOrder(lowA, 0.0, lowB);
    ScaleKeepsOrder(lowA, lowB, b);
    ScaleKeepsOrder(b, lowA, a);
    ScaleKeepsOrder(a, b, highB);
    ScaleKeepsOrder(highB, a, highA);
  }

  lemma {:induction false} PowAdds(x: real, a: nat, b: nat)
    ensures Pow(x, a + b) == Times(Pow(x, a), Pow(x, b))
  {
    PowTimes(x, 0);
    TimesLaws(Pow(x, b), 1.0, 1.0);
    if a > 0 {
      PowAdds(x, a - 1, b);
      PowTimes(x, a + b - 1);
      PowTimes(x, a - 1);
      hide Pow, Times;
      TimesLaws(x, Pow(x, a - 1), Pow(x, b));
    }
  }

  lemma PowTimes(x: real, k: nat)
    ensures Pow(x, 0) == 1.0 && Pow(x, k + 1) == Times(x, Pow(x, k))
  {
  }

  lemma PowProduct(x: real, a: nat, b: nat, lowA: real, highA: real, lowB: real, highB: real)
    requires 0.0 <= lowA <= Pow(x, a) <= highA && 0.0 <= lowB <= Pow(x, b) <= highB
    ensures 0.0 <= Times(lowA, lowB) <= Pow(x, a + b) <= Times(highA, highB)
  {
    hide Pow, Times;
    PowAdds(x, a, b);
    TimesKeepsOrder(Pow(x, a), Pow(x, b), lowA, highA, lowB, highB);
  }

  /** Enclosing a thirtieth power by rounded squares: 30 == 16 + 8 + 4 + 2. */
  lemma ThirtiethPower(x: real, l2: real, h2: real, l4: real, h4: real, l8: real, h8: real, l16: real, h16: real)
    requires 0.0 <= l2 <= Times(x, x) <= h2
    requires 0.0 <= l4 <= Times(l2, l2) && Times(h2, h2) <= h4
    requires 0.0 <= l8 <= Times(l4, l4) && Times(h4, h4) <= h8
    requires 0.0 <= l16 <= Times(l8, l8) && Times(h8, h8) <= h16
    ensures Times(Times(Times(l16, l8), l4), l2) <= Pow(x, 30) <= Times(Times(Times(h16, h8), h4), h2)
  {
    PowTimes(x, 0);
    PowTimes(x, 1);
    TimesLaws(x, 1.0, 1.0);
    assert Pow(x, 2) == Times(x, x);
    hide Pow, Times;
    PowProduct(x, 2, 2, l2, h2, l2, h2);
    PowProduct(x, 4, 4, l4, h4, l4, h4);
    PowProduct(x, 8, 8, l8, h8, l8, h8);
    PowProduct(x, 16, 8, l16, h16, l8, h8);
    PowProduct(x, 24, 4, Times(l16, l8), Times(h16, h8), l4, h4);
    PowProduct(x, 28, 2, Times(Times(l16, l8), l4), Times(Times(h16, h8), h4), l2, h2);
  }

  /** No misses in thirty clusters bound the rate by 0.0950 at 95 percent. */
  lemma AnchorBound()
    ensures 0.09503 <= UpperBound(0, 30, 0.95) < 0.09505
  {
    CdfNoMisses(30, 0.09503);
    CdfNoMisses(30, 0.09504);
    ThirtiethPower(0.90497, 0.8189707, 0.8190, 0.6707130, 0.6708, 0.4498559, 0.4500, 0.2023703, 0.2025);
    ThirtiethPower(0.90496, 0.8189, 0.8189527, 0.6705, 0.6706836, 0.4495, 0.4498165, 0.2020, 0.2023349);
    HalfShrinks(20, 60);
    assert Half(20) == 1.0 / 1048576.0 by {
      HalfFour(0);
      HalfFour(4);
      HalfFour(8);
      HalfFour(12);
      HalfFour(16);
    }
    hide Cdf, Pow, Half, UpperBound;
    BoundIsTight(0, 30, 0.95, 0.09503);
    BoundIsTight(0, 30, 0.95, 0.09504);
  }
}
