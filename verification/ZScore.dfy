/**
 How far the new amount lies from the mean of a user's recent amounts, in population standard
 deviations. Exact reals; the standard deviation is given as the root that it is.
 */
module ZScore {

  function Sum(xs: seq<real>): real {
    if xs == [] then 0.0 else xs[0] + Sum(xs[1..])
  }

  function SumSq(xs: seq<real>): real {
    if xs == [] then 0.0 else xs[0] * xs[0] + SumSq(xs[1..])
  }

  /** `statistics.mean(xs)` */
  function Mean(xs: seq<real>): real
    requires xs != []
  {
    Sum(xs) / |xs| as real
  }

  /** The deviations from `m`. */
  function Devs(xs: seq<real>, m: real): (r: seq<real>)
    ensures |r| == |xs|
  {
    if xs == [] then [] else [xs[0] - m] + Devs(xs[1..], m)
  }

  /** `sd` is `statistics.pstdev(xs)`: its square is the mean of the squared deviations. */
  ghost predicate IsStdev(xs: seq<real>, sd: real)
    requires xs != []
  {
    sd >= 0.0 && sd * sd * |xs| as real == SumSq(Devs(xs, Mean(xs)))
  }

  const SAMPLE_MIN := 5
  const SAMPLE_MAX := 101

  /** The score of the newest amount, which is the head of the sample. */
  function Score(xs: seq<real>, sd: real): real {
    if |xs| < SAMPLE_MIN then 0.0
    else (xs[0] - Mean(xs)) / (if sd == 0.0 then 1.0 else sd)
  }

  /** `m` is the mean. */
  predicate IsMean(xs: seq<real>, m: real) { m * |xs| as real == Sum(xs) }

  /** With fewer than five amounts the score is nothing; otherwise it is the number of deviations
      that lie between the newest amount and the mean. */
  lemma ScoreExactly(xs: seq<real>, sd: real, m: real)
    requires xs != [] && IsMean(xs, m) && sd > 0.0
    ensures if |xs| < 5 then Score(xs, sd) == 0.0 else Score(xs, sd) * sd == xs[0] - m
  {
    MeanIsOne(xs, m);
    Quotient(xs[0] - m, sd);
  }

  ghost predicate AllEqual(xs: seq<real>) { forall i :: 0 <= i < |xs| ==> xs[i] == xs[0] }

  /** Amounts that all agree have no deviation, and then the score is nothing too. */
  lemma ScoreOfEqual(xs: seq<real>)
    requires xs != [] && AllEqual(xs)
    ensures IsStdev(xs, 0.0) && Score(xs, 0.0) == 0.0
  {
    SumOfEqual(xs, xs[0]);
    MeanIsOne(xs, xs[0]);
    DevsOfEqual(xs, xs[0]);
    AllAgree(xs);
  }

  lemma {:induction false} SumOfEqual(xs: seq<real>, a: real)
    requires forall i :: 0 <= i < |xs| ==> xs[i] == a
    ensures Sum(xs) == a * |xs| as real
  {
    if xs != [] { SumOfEqual(xs[1..], a); }
  }

  lemma {:induction false} DevsOfEqual(xs: seq<real>, a: real)
    requires forall i :: 0 <= i < |xs| ==> xs[i] == a
    ensures SumSq(Devs(xs, a)) == 0.0
  {
    if xs != [] { DevsOfEqual(xs[1..], a); }
  }

  lemma MeanIsOne(xs: seq<real>, m: real)
    requires xs != [] && IsMean(xs, m)
    ensures Mean(xs) == m
  {
    Divided(m, |xs| as real);
  }

  lemma Divided(m: real, n: real)
    requires n != 0.0
    ensures m * n / n == m
  {
  }

  lemma Quotient(d: real, sd: real)
    requires sd != 0.0
    ensures d / sd * sd == d
  {
  }

  /** With no deviation the head is the mean. */
  lemma AllAgree(xs: seq<real>)
    requires xs != [] && IsStdev(xs, 0.0)
    ensures xs[0] - Mean(xs) == 0.0
  {
    DevsBalance(xs);
    HeadDeviation(xs, Mean(xs));
    NoDeviation(|xs| as real, xs[0] - Mean(xs), SumSq(Devs(xs, Mean(xs))));
  }

  lemma NoDeviation(n: real, d: real, q: real)
    requires n > 0.0 && q == 0.0 && n * (d * d) <= (n - 1.0) * q
    ensures d == 0.0
  {
    ZeroDeviation(n, d);
  }

  // ---------- the bound ----------

  lemma SignOfProduct(n: real, g: real)
    requires n > 0.0
    ensures n * g < 0.0 <==> g < 0.0
    ensures n * g == 0.0 <==> g == 0.0
  {
  }

  lemma SquareOfDifference(a: real, b: real)
    ensures a * a + b * b - 2.0 * (a * b) == (a - b) * (a - b) >= 0.0
  {
  }

  lemma SquareStep(s: real, q: real, x: real, n: real)
    requires n >= 1.0 && s * s <= n * q
    ensures (s + x) * (s + x) <= (n + 1.0) * (q + x * x)
  {
    var gap := q + n * (x * x) - 2.0 * (s * x);
    SquareOfDifference(s, n * x);
    assert n * gap == n * q + (n * x) * (n * x) - 2.0 * (s * (n * x));
    SignOfProduct(n, gap);
    assert (n + 1.0) * (q + x * x) - (s + x) * (s + x) == (n * q - s * s) + gap;
  }

  /** The Cauchy-Schwarz inequality against a list of ones. */
  lemma {:induction false} SumSquared(xs: seq<real>)
    ensures Sum(xs) * Sum(xs) <= |xs| as real * SumSq(xs)
    ensures SumSq(xs) >= 0.0
  {
    if |xs| == 1 {
      assert xs[1..] == [];
    } else if |xs| > 1 {
      SumSquared(xs[1..]);
      SquareStep(Sum(xs[1..]), SumSq(xs[1..]), xs[0], |xs[1..]| as real);
    }
  }

  lemma {:induction false} SumDevs(xs: seq<real>, m: real)
    ensures Sum(Devs(xs, m)) == Sum(xs) - |xs| as real * m
  {
    if xs != [] {
      SumDevs(xs[1..], m);
      assert Devs(xs, m)[1..] == Devs(xs[1..], m);
    }
  }

  lemma MeanTimes(xs: seq<real>)
    requires xs != []
    ensures |xs| as real * Mean(xs) == Sum(xs)
  {
  }

  lemma DevsBalance(xs: seq<real>)
    requires xs != []
    ensures Sum(Devs(xs, Mean(xs))) == 0.0
  {
    SumDevs(xs, Mean(xs));
    MeanTimes(xs);
  }

  lemma Isolate(d: real, r: real, n: real)
    requires d * d <= (n - 1.0) * r
    ensures n * (d * d) <= (n - 1.0) * (d * d + r)
  {
  }

  lemma BalancedHead(ds: seq<real>)
    requires ds != [] && Sum(ds) == 0.0
    ensures |ds| as real * (ds[0] * ds[0]) <= (|ds| as real - 1.0) * SumSq(ds)
  {
    SumSquared(ds[1..]);
    var s := Sum(ds[1..]);
    assert s == -ds[0] && s * s == ds[0] * ds[0];
    Isolate(ds[0], SumSq(ds[1..]), |ds| as real);
  }

  /** No amount is further from the mean `m` than the other deviations can balance. */
  lemma HeadDeviation(xs: seq<real>, m: real)
    requires xs != [] && Sum(Devs(xs, m)) == 0.0
    ensures |xs| as real * ((xs[0] - m) * (xs[0] - m)) <= (|xs| as real - 1.0) * SumSq(Devs(xs, m))
  {
    BalancedHead(Devs(xs, m));
  }

  lemma Regroup(n: real, z: real, sd: real)
    ensures n * ((z * sd) * (z * sd)) == (sd * sd * n) * (z * z)
  {
  }

  lemma DivideOut(n: real, d: real, q: real, sd: real)
    requires n > 0.0 && sd > 0.0 && sd * sd * n == q && n * (d * d) <= (n - 1.0) * q
    ensures (d / sd) * (d / sd) <= n - 1.0
  {
    var z := d / sd;
    assert d == z * sd;
    Regroup(n, z, sd);
    SignOfProduct(sd, sd);
    SignOfProduct(n, sd * sd);
    assert q > 0.0;
    assert q * (n - 1.0 - z * z) >= 0.0;
    SignOfProduct(q, n - 1.0 - z * z);
  }

  lemma SquareZero(d: real)
    ensures d * d == 0.0 <==> d == 0.0
    ensures d * d >= 0.0
  {
    if d > 0.0 {
      SignOfProduct(d, d);
    } else if d < 0.0 {
      SignOfProduct(-d, -d);
    }
  }

  lemma ZeroDeviation(n: real, d: real)
    requires n > 0.0 && n * (d * d) <= 0.0
    ensures d == 0.0
  {
    SquareZero(d);
    SignOfProduct(n, d * d);
  }

  /** Samuelson's inequality for the score: its square is at most the sample size less one. */
  lemma ScoreSquared(xs: seq<real>, sd: real)
    requires xs != [] && IsStdev(xs, sd)
    ensures Score(xs, sd) * Score(xs, sd) <= |xs| as real - 1.0
  {
    if |xs| >= SAMPLE_MIN {
      var d := xs[0] - Mean(xs);
      DevsBalance(xs);
      HeadDeviation(xs, Mean(xs));
      if sd == 0.0 {
        assert SumSq(Devs(xs, Mean(xs))) == 0.0;
        ZeroDeviation(|xs| as real, d);
      } else {
        DivideOut(|xs| as real, d, SumSq(Devs(xs, Mean(xs))), sd);
      }
    }
  }

  lemma SquareGrows(z: real)
    requires z > 10.0
    ensures z * z > 100.0
  {
    SignOfProduct(z, 10.0 - z);
  }

  lemma RootBound(z: real)
    requires z * z <= 100.0
    ensures -10.0 <= z <= 10.0
  {
    if z > 10.0 {
      SquareGrows(z);
    } else if z < -10.0 {
      SquareGrows(-z);
    }
  }

  /** With the list trimmed to 101 amounts the score never leaves -10..10. */
  lemma ScoreBounded(xs: seq<real>, sd: real)
    requires 0 < |xs| <= 101 && IsStdev(xs, sd)
    ensures -10.0 <= Score(xs, sd) <= 10.0
  {
    ScoreSquared(xs, sd);
    RootBound(Score(xs, sd));
  }

  // ---------- the bound is reached ----------

  function Zeros(n: nat): (r: seq<real>)
    ensures |r| == n
  {
    if n == 0 then [] else [0.0] + Zeros(n - 1)
  }

  lemma {:induction false} ZerosSums(n: nat, m: real)
    ensures Sum(Zeros(n)) == 0.0
    ensures SumSq(Devs(Zeros(n), m)) == n as real * (m * m)
  {
    if n > 0 {
      ZerosSums(n - 1, m);
      assert Zeros(n)[1..] == Zeros(n - 1);
      assert Devs(Zeros(n), m)[1..] == Devs(Zeros(n - 1), m);
    }
  }

  /** One amount of 101 after a hundred amounts of nothing scores exactly 10. */
  lemma TenIsReached()
    ensures var xs := [101.0] + Zeros(100);
      |xs| == 101 && IsStdev(xs, 10.0) && Score(xs, 10.0) == 10.0
  {
    var xs := [101.0] + Zeros(100);
    ZerosSums(100, 1.0);
    assert xs[1..] == Zeros(100);
    assert Mean(xs) == 1.0;
    assert Devs(xs, 1.0)[1..] == Devs(Zeros(100), 1.0);
    assert SumSq(Devs(xs, 1.0)) == 100.0 * 100.0 + 100.0;
  }
}
