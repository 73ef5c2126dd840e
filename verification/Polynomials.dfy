/** Polynomials over the scalar field (crates/dkg/src/polynomial.rs), lowest coefficient first, with the
    theory of roots and interpolation behind secret sharing. */
module Polynomials {
  import opened Core
  import opened Scalars
  import opened Sums

  /** The value of the polynomial over the integers. */
  function Eval(f: seq<int>, x: int): int {
    if f == [] then 0 else f[0] + x * Eval(f[1..], x)
  }

  function Power(x: int, k: nat): int {
    if k == 0 then 1 else x * Power(x, k - 1)
  }

  /** The terms f[k] * x^k. */
  function PowerTerms(f: seq<int>, x: int): (t: seq<int>)
    ensures |t| == |f|
  {
    seq(|f|, k requires 0 <= k < |f| => f[k] * Power(x, k))
  }

  /** The value is the sum of coefficients times powers. */
  lemma {:induction false} EvalIsPowerSum(f: seq<int>, x: int)
    ensures Eval(f, x) == Sum(PowerTerms(f, x))
  {
    if f == [] {
    } else {
      var t, tail := PowerTerms(f, x), PowerTerms(f[1..], x);
      EvalIsPowerSum(f[1..], x);
      forall k | 0 <= k < |tail|
        ensures t[1..][k] == x * tail[k]
      {
        assert f[k + 1] * (x * Power(x, k)) == x * (f[k + 1] * Power(x, k));
      }
      SumScale(t[1..], x, tail);
    }
  }

  datatype Polynomial = Polynomial(coefficients: seq<Scalar>) {

    static method Random(degree: nat, constant: Scalar, rng: Rng) returns (p: Polynomial)
      modifies rng
      ensures p == Polynomial([constant] + Draws(rng.tape, old(rng.drawn), degree))
      ensures forall k :: 1 <= k <= degree ==> p.coefficients[k] == rng.tape(old(rng.drawn) + k - 1)
      ensures rng.drawn == old(rng.drawn) + degree
    {
      var coefficients := [constant];
      for k := 0 to degree
        invariant rng.drawn == old(rng.drawn) + k
        invariant coefficients == [constant] + Draws(rng.tape, old(rng.drawn), k)
      {
        var c := rng.RandomScalar();
        coefficients := coefficients + [c];
      }
      p := Polynomial(coefficients);
    }

    static method RandomFull(degree: nat, rng: Rng) returns (p: Polynomial)
      modifies rng
      ensures p == Polynomial(Draws(rng.tape, old(rng.drawn), degree + 1))
      ensures forall k :: 0 <= k <= degree ==> p.coefficients[k] == rng.tape(old(rng.drawn) + k)
      ensures rng.drawn == old(rng.drawn) + degree + 1
    {
      var constant := rng.RandomScalar();
      p := Random(degree, constant, rng);
      assert p.coefficients == Draws(rng.tape, old(rng.drawn), degree + 1);
    }

    /** The value in the field; `Evaluate` computes it. */
    function At(x: Scalar): Scalar {
      Reduce(Eval(coefficients, x))
    }

    method Evaluate(x: Scalar) returns (result: Scalar)
      ensures result == At(x)
    {
      hide Reduce;
      result := 0;
      var xPower: Scalar := 1;
      for k := 0 to |coefficients|
        invariant Cong(result + xPower * Eval(coefficients[k..], x), Eval(coefficients, x))
      {
        assert coefficients[k..][1..] == coefficients[k + 1..];
        HornerAccumulate(result, xPower, coefficients[k], x, Eval(coefficients[k + 1..], x));
        result := Add(result, Mul(coefficients[k], xPower));
        xPower := Mul(xPower, x);
      }
      assert coefficients[|coefficients|..] == [];
    }
  }

  /** One step of the running-power loop: a term moves from the rest of the polynomial into the result. */
  lemma {:induction false} HornerAccumulate(result: Scalar, power: Scalar, c: Scalar, x: Scalar, rest: int)
    ensures Cong(Add(result, Mul(c, power)) + Mul(power, x) * rest, result + power * (c + x * rest))
  {
    hide Reduce;
    CongAdd(result, result, Mul(c, power), c * power);
    CongScale(Mul(power, x), power * x, rest);
    CongAdd(Add(result, Mul(c, power)), result + c * power, Mul(power, x) * rest, power * x * rest);
    AccumulateStep(power, c, x, rest);
  }

  lemma {:induction false} AccumulateStep(power: int, c: int, x: int, rest: int)
    ensures power * (c + x * rest) == c * power + power * x * rest
  {
    Regroup(power, x, rest);
  }

  lemma {:induction false} EvalCong(f: seq<int>, g: seq<int>, x: int, y: int)
    requires |f| == |g| && Cong(x, y)
    requires forall k :: 0 <= k < |f| ==> Cong(f[k], g[k])
    ensures Cong(Eval(f, x), Eval(g, y))
  {
    hide Reduce;
    if f == [] {
    } else {
      EvalCong(f[1..], g[1..], x, y);
      CongMul(x, y, Eval(f[1..], x), Eval(g[1..], y));
      CongAdd(f[0], g[0], x * Eval(f[1..], x), y * Eval(g[1..], y));
    }
  }

  /** Coefficientwise sum; the shorter list is read as padded with zeros. */
  function AddPoly(f: seq<int>, g: seq<int>): (h: seq<int>)
    ensures |h| == if |f| < |g| then |g| else |f|
  {
    if f == [] then g
    else if g == [] then f
    else [f[0] + g[0]] + AddPoly(f[1..], g[1..])
  }

  lemma {:induction false} EvalAddPoly(f: seq<int>, g: seq<int>, x: int)
    ensures Eval(AddPoly(f, g), x) == Eval(f, x) + Eval(g, x)
  {
    if f == [] || g == [] {
    } else {
      EvalAddPoly(f[1..], g[1..], x);
      assert AddPoly(f, g)[1..] == AddPoly(f[1..], g[1..]);
      assert x * (Eval(f[1..], x) + Eval(g[1..], x)) == x * Eval(f[1..], x) + x * Eval(g[1..], x);
    }
  }

  lemma {:induction false} AddPolyAssociative(f: seq<int>, g: seq<int>, h: seq<int>)
    ensures AddPoly(AddPoly(f, g), h) == AddPoly(f, AddPoly(g, h))
  {
    if f == [] || g == [] || h == [] {
    } else {
      AddPolyAssociative(f[1..], g[1..], h[1..]);
      assert AddPoly(f, g)[1..] == AddPoly(f[1..], g[1..]) && AddPoly(g, h)[1..] == AddPoly(g[1..], h[1..]);
    }
  }

  /** The coefficient of x to the power j, zero beyond the end. */
  function CoefficientAt(f: seq<int>, j: nat): int {
    if j < |f| then f[j] else 0
  }

  lemma {:induction false} CoefficientOfSum(f: seq<int>, g: seq<int>, j: nat)
    ensures CoefficientAt(AddPoly(f, g), j) == CoefficientAt(f, j) + CoefficientAt(g, j)
  {
    if f == [] || g == [] || j == 0 {
    } else {
      CoefficientOfSum(f[1..], g[1..], j - 1);
      assert AddPoly(f, g)[1..] == AddPoly(f[1..], g[1..]);
    }
  }

  // Division by a linear factor.

  /** The quotient of f(x) - f(a) by x - a. */
  function Quotient(f: seq<int>, a: int): (g: seq<int>)
    ensures |g| == if f == [] then 0 else |f| - 1
  {
    if |f| <= 1 then [] else [Eval(f[1..], a)] + Quotient(f[1..], a)
  }

  lemma {:induction false} QuotientIsExact(f: seq<int>, a: int, x: int)
    ensures Eval(f, x) == Eval(f, a) + (x - a) * Eval(Quotient(f, a), x)
  {
    if |f| > 1 {
      QuotientIsExact(f[1..], a, x);
      assert Quotient(f, a)[1..] == Quotient(f[1..], a);
      HornerStep(x, a, Eval(f[1..], a), Eval(Quotient(f[1..], a), x));
    } else if |f| == 1 {
      assert Eval(f[1..], x) == 0 && Eval(f[1..], a) == 0;
    }
  }

  lemma {:induction false} HornerStep(x: int, a: int, h: int, q: int)
    ensures x * (h + (x - a) * q) == a * h + (x - a) * (h + x * q)
  {
    assert (x - a) * (h + x * q) == (x - a) * h + x * ((x - a) * q);
  }

  lemma {:induction false} QuotientAt(f: seq<int>, a: int, k: nat)
    requires k + 1 < |f|
    ensures Quotient(f, a)[k] == Eval(f[k + 1..], a)
  {
    if k == 0 {
    } else {
      QuotientAt(f[1..], a, k - 1);
      assert f[1..][k..] == f[k + 1..];
    }
  }

  ghost predicate DistinctModOrder(xs: seq<int>) {
    forall i, j :: 0 <= i < j < |xs| ==> !Cong(xs[i], xs[j])
  }

  /** A polynomial with as many roots as coefficients is the zero polynomial. */
  lemma {:induction false} RootsForceZero(f: seq<int>, xs: seq<int>)
    requires |f| <= |xs| && DistinctModOrder(xs)
    requires forall i :: 0 <= i < |xs| ==> Cong(Eval(f, xs[i]), 0)
    ensures forall k :: 0 <= k < |f| ==> Cong(f[k], 0)
    decreases |f|
  {
    hide Reduce;
    if f == [] {
    } else {
      var a, g := xs[0], Quotient(f, xs[0]);
      forall i | 0 <= i < |xs[1..]|
        ensures Cong(Eval(g, xs[1..][i]), 0)
      {
        RootOfQuotient(f, a, xs[i + 1]);
      }
      RootsForceZero(g, xs[1..]);
      forall k | 0 <= k < |f|
        ensures Cong(f[k], 0)
      {
        CoefficientVanishes(f, a, k);
      }
    }
  }

  lemma {:induction false} RootOfQuotient(f: seq<int>, a: int, x: int)
    requires Cong(Eval(f, a), 0) && Cong(Eval(f, x), 0) && !Cong(a, x)
    ensures Cong(Eval(Quotient(f, a), x), 0)
  {
    hide Reduce, Eval, Quotient;
    QuotientIsExact(f, a, x);
    CongAdd(Eval(f, x), 0, Eval(f, a), 0);
    NoZeroDivisors(x - a, Eval(Quotient(f, a), x));
    if Cong(x - a, 0) {
      CongAdd(x - a, 0, a, a);
    }
  }

  lemma {:induction false} CoefficientVanishes(f: seq<int>, a: int, k: nat)
    requires k < |f| && Cong(Eval(f, a), 0)
    requires forall j :: 0 <= j < |f| - 1 ==> Cong(Quotient(f, a)[j], 0)
    ensures Cong(f[k], 0)
  {
    hide Reduce, Quotient;
    assert f[k..][1..] == f[k + 1..] && f[0..] == f;
    if k > 0 {
      QuotientAt(f, a, k - 1);
    }
    assert Cong(Eval(f[k..], a), 0);
    if k + 1 < |f| {
      QuotientAt(f, a, k);
      CongScale(Eval(f[k + 1..], a), 0, a);
    }
    CongAdd(Eval(f[k..], a), 0, a * Eval(f[k + 1..], a), 0);
  }

  // Interpolation: values at distinct points, as many as coefficients, are met by exactly one polynomial.

  /** c + (x - a) * g(x), the inverse of division by x - a. */
  function TimesLinear(g: seq<int>, a: int, c: int): (f: seq<int>)
    ensures |f| == |g| + 1
  {
    if g == [] then [c] else [c - a * g[0]] + TimesLinear(g[1..], a, g[0])
  }

  lemma {:induction false} EvalTimesLinear(g: seq<int>, a: int, c: int, x: int)
    ensures Eval(TimesLinear(g, a, c), x) == c + (x - a) * Eval(g, x)
  {
    if g == [] {
      assert Eval([], x) == 0;
    } else {
      EvalTimesLinear(g[1..], a, g[0], x);
      HornerStep(x, a, g[0], Eval(g[1..], x));
    }
  }

  function ReduceAll(f: seq<int>): (g: seq<Scalar>)
    ensures |g| == |f| && forall k :: 0 <= k < |f| ==> Cong(g[k], f[k])
  {
    seq(|f|, k requires 0 <= k < |f| => Reduce(f[k]))
  }

  /** The slopes (y - ys[0]) / (x - xs[0]) at the points after the first. */
  function Slopes(xs: seq<int>, ys: seq<int>): (s: seq<int>)
    requires |xs| == |ys| && xs != []
    ensures |s| == |xs| - 1
  {
    seq(|xs| - 1, k requires 0 <= k < |xs| - 1 => (ys[k + 1] - ys[0]) * Invert(Reduce(xs[k + 1] - xs[0])))
  }

  /** Newton's scheme: subtract the first value, divide by x - a, interpolate the rest. */
  function Interpolant(xs: seq<int>, ys: seq<int>): (f: seq<Scalar>)
    requires |xs| == |ys|
    ensures |f| == |xs|
  {
    if xs == [] then [] else ReduceAll(TimesLinear(Interpolant(xs[1..], Slopes(xs, ys)), xs[0], ys[0]))
  }

  lemma {:induction false} InterpolantMeets(xs: seq<int>, ys: seq<int>)
    requires |xs| == |ys| && DistinctModOrder(xs)
    ensures forall k :: 0 <= k < |xs| ==> Cong(Eval(Interpolant(xs, ys), xs[k]), ys[k])
    decreases |xs|
  {
    hide Reduce, Eval, TimesLinear, Slopes;
    if xs == [] {
    } else {
      var g := Interpolant(xs[1..], Slopes(xs, ys));
      InterpolantMeets(xs[1..], Slopes(xs, ys));
      forall k | 0 <= k < |xs|
        ensures Cong(Eval(Interpolant(xs, ys), xs[k]), ys[k])
      {
        assert k > 0 ==> xs[1..][k - 1] == xs[k];
        NewtonStep(g, xs, ys, k);
        EvalCong(Interpolant(xs, ys), TimesLinear(g, xs[0], ys[0]), xs[k], xs[k]);
      }
    }
  }

  lemma {:induction false} NewtonStep(g: seq<int>, xs: seq<int>, ys: seq<int>, k: nat)
    requires |xs| == |ys| && k < |xs| && DistinctModOrder(xs)
    requires k > 0 ==> Cong(Eval(g, xs[k]), Slopes(xs, ys)[k - 1])
    ensures Cong(Eval(TimesLinear(g, xs[0], ys[0]), xs[k]), ys[k])
  {
    hide Reduce, Eval, TimesLinear;
    EvalTimesLinear(g, xs[0], ys[0], xs[k]);
    if k > 0 {
      assert !Cong(xs[0], xs[k]);
      SlopeRecovers(xs[0], xs[k], ys[0], ys[k], Eval(g, xs[k]));
    }
  }

  lemma {:induction false} SlopeRecovers(a: int, x: int, c: int, y: int, v: int)
    requires !Cong(a, x) && Cong(v, (y - c) * Invert(Reduce(x - a)))
    ensures Cong(c + (x - a) * v, y)
  {
    hide Reduce;
    if Cong(x - a, 0) {
      CongAdd(x - a, 0, a, a);
    }
    QuotientRecovers(x - a, y - c, v);
    CongAdd(c, c, (x - a) * v, y - c);
  }

  lemma {:induction false} QuotientRecovers(dx: int, dy: int, v: int)
    requires !Cong(dx, 0) && Cong(v, dy * Invert(Reduce(dx)))
    ensures Cong(dx * v, dy)
  {
    hide Reduce;
    var r := Invert(Reduce(dx));
    CongScale(Reduce(dx), dx, r);
    CongScale(dx * r, 1, dy);
    CongScale(v, dy * r, dx);
    Regroup(dx, r, dy);
    Regroup(dy, r, dx);
  }

  lemma {:induction false} AgreementForcesEquality(f: seq<Scalar>, g: seq<Scalar>, xs: seq<int>)
    requires |f| == |g| <= |xs| && DistinctModOrder(xs)
    requires forall k :: 0 <= k < |xs| ==> Cong(Eval(f, xs[k]), Eval(g, xs[k]))
    ensures f == g
  {
    hide Reduce, Eval;
    var d := Difference(f, g);
    forall k | 0 <= k < |xs|
      ensures Cong(Eval(d, xs[k]), 0)
    {
      EvalDifference(f, g, xs[k]);
      CongAdd(Eval(f, xs[k]), Eval(g, xs[k]), Eval(g, xs[k]), Eval(g, xs[k]));
    }
    RootsForceZero(d, xs);
    forall k | 0 <= k < |f|
      ensures f[k] == g[k]
    {
      CongAdd(d[k], 0, g[k], g[k]);
    }
  }

  function Difference(f: seq<int>, g: seq<int>): (d: seq<int>)
    requires |f| == |g|
    ensures |d| == |f|
  {
    seq(|f|, k requires 0 <= k < |f| => f[k] - g[k])
  }

  lemma {:induction false} EvalDifference(f: seq<int>, g: seq<int>, x: int)
    requires |f| == |g|
    ensures Eval(Difference(f, g), x) == Eval(f, x) - Eval(g, x)
  {
    if f == [] {
    } else {
      EvalDifference(f[1..], g[1..], x);
      assert Difference(f, g)[1..] == Difference(f[1..], g[1..]);
      assert x * (Eval(f[1..], x) - Eval(g[1..], x)) == x * Eval(f[1..], x) - x * Eval(g[1..], x);
    }
  }

  ghost predicate FitsShares(f: seq<Scalar>, secret: Scalar, xs: seq<int>, ys: seq<Scalar>)
    requires |xs| == |ys|
  {
    f != [] && f[0] == secret && forall k :: 0 <= k < |xs| ==> Cong(Eval(f, xs[k]), ys[k])
  }

  /** t - 1 shares say nothing about the secret: whatever they are, each candidate secret is the constant term
      of exactly one polynomial of t coefficients that has those shares. */
  lemma {:induction false} BelowThresholdFitsEverySecret(secret: Scalar, xs: seq<int>, ys: seq<Scalar>)
    requires |xs| == |ys| && DistinctModOrder([0] + xs)
    ensures forall f: seq<Scalar> | |f| == |xs| + 1 ::
      FitsShares(f, secret, xs, ys) <==> f == Interpolant([0] + xs, [secret] + ys)
  {
    hide Reduce;
    var zs, vs := [0] + xs, [secret] + ys;
    var fit := Interpolant(zs, vs);
    InterpolantMeets(zs, vs);
    assert zs[0] == 0 && vs[0] == secret;
    EvalAtZero(fit);
    CongSmall(fit[0], secret);
    forall k | 0 <= k < |xs|
      ensures Cong(Eval(fit, xs[k]), ys[k])
    {
      assert zs[k + 1] == xs[k] && vs[k + 1] == ys[k];
    }
    forall f: seq<Scalar> | |f| == |xs| + 1 && FitsShares(f, secret, xs, ys)
      ensures f == fit
    {
      EvalAtZero(f);
      forall k | 0 <= k < |zs|
        ensures Cong(Eval(f, zs[k]), Eval(fit, zs[k]))
      {
        assert k > 0 ==> zs[k] == xs[k - 1];
      }
      AgreementForcesEquality(f, fit, zs);
    }
  }

  lemma {:induction false} EvalEmpty(x: int)
    ensures Eval([], x) == 0
  {
  }

  lemma {:induction false} EvalAtZero(f: seq<int>)
    requires f != []
    ensures Eval(f, 0) == f[0]
  {
  }
}
