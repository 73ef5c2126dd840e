/** Lagrange coefficients at zero (crates/signing/src/lagrange.rs) and the interpolation theorem. */
module Lagrange {
  import opened Scalars
  import opened Sums
  import opened Polynomials

  ghost predicate Distinct(indices: seq<u32>) {
    forall j, k :: 0 <= j < k < |indices| ==> indices[j] != indices[k]
  }

  function Numerator(i: u32, indices: seq<u32>): int {
    if indices == [] then 1
    else (if indices[0] == i then 1 else indices[0]) * Numerator(i, indices[1..])
  }

  function Denominator(i: u32, indices: seq<u32>): int {
    if indices == [] then 1
    else (if indices[0] == i then 1 else indices[0] - i) * Denominator(i, indices[1..])
  }

  function Lambda(i: u32, indices: seq<u32>): Scalar {
    Mul(Reduce(Numerator(i, indices)), Invert(Reduce(Denominator(i, indices))))
  }

  method LagrangeCoefficient(i: u32, signerIndices: seq<u32>) returns (lambda: Scalar)
    ensures lambda == Lambda(i, signerIndices)
  {
    hide Reduce;
    var numerator: Scalar, denominator: Scalar := 1, 1;
    for k := 0 to |signerIndices|
      invariant Cong(numerator * Numerator(i, signerIndices[k..]), Numerator(i, signerIndices))
      invariant Cong(denominator * Denominator(i, signerIndices[k..]), Denominator(i, signerIndices))
    {
      var j := signerIndices[k];
      assert signerIndices[k..][1..] == signerIndices[k + 1..];
      if j == i {
        continue;
      }
      FoldFactor(numerator, j, Numerator(i, signerIndices[k + 1..]));
      FoldFactor(denominator, j - i, Denominator(i, signerIndices[k + 1..]));
      numerator := Mul(numerator, j);
      denominator := Mul(denominator, Sub(j, i));
    }
    assert signerIndices[|signerIndices|..] == [];
    lambda := Mul(numerator, Invert(denominator));
  }

  /** One loop step: a factor moves from the product still to come into the accumulator. */
  lemma {:induction false} FoldFactor(acc: Scalar, factor: int, rest: int)
    ensures Cong(Mul(acc, Reduce(factor)) * rest, acc * (factor * rest))
  {
    hide Reduce;
    CongScale(Reduce(factor), factor, acc);
    CongScale(Mul(acc, Reduce(factor)), acc * factor, rest);
    assert acc * factor * rest == acc * (factor * rest);
  }

  /** Every denominator is invertible, whatever the indices. */
  lemma {:induction false} DenominatorInvertible(i: u32, indices: seq<u32>)
    ensures !Cong(Denominator(i, indices), 0)
  {
    hide Reduce;
    if indices == [] {
      CongSmallNonZero(1);
    } else {
      DenominatorInvertible(i, indices[1..]);
      var factor := if indices[0] == i then 1 else indices[0] - i;
      CongSmallNonZero(factor);
      if Cong(factor * Denominator(i, indices[1..]), 0) {
        NoZeroDivisors(factor, Denominator(i, indices[1..]));
      }
    }
  }

  lemma {:induction false} CongSmallNonZero(x: int)
    requires 0 - U32_LIMIT < x < U32_LIMIT && x != 0
    ensures !Cong(x, 0)
  {
    if Cong(x, 0) {
      CongSmall(x, 0);
    }
  }

  /** The coefficient is the fraction Numerator / Denominator of the field. */
  lemma {:induction false} LambdaIsQuotient(i: u32, indices: seq<u32>)
    ensures Cong(Lambda(i, indices) * Denominator(i, indices), Numerator(i, indices))
  {
    DenominatorInvertible(i, indices);
    DivideThenMultiply(Numerator(i, indices), Denominator(i, indices));
  }

  lemma {:induction false} DivideThenMultiply(n: int, d: int)
    requires !Cong(d, 0)
    ensures Cong(Mul(Reduce(n), Invert(Reduce(d))) * d, n)
  {
    hide Reduce;
    var r := Invert(Reduce(d));
    CongScale(Reduce(d), d, r);
    CongScale(d * r, 1, n);
    CongScale(Reduce(n), n, r);
    CongScale(Mul(Reduce(n), r), n * r, d);
    Regroup(n, r, d);
  }

  /** Removing the first index a: the coefficient of another index i, times i - a, scales by -a. */
  lemma {:induction false} LambdaPeel(i: u32, a: u32, rest: seq<u32>)
    requires i != a
    ensures Cong(Lambda(i, [a] + rest) * (i - a), (0 - a) * Lambda(i, rest))
  {
    hide Reduce, Lambda;
    assert ([a] + rest)[1..] == rest;
    LambdaIsQuotient(i, [a] + rest);
    LambdaIsQuotient(i, rest);
    DenominatorInvertible(i, rest);
    FractionPeel(Lambda(i, [a] + rest), Lambda(i, rest), Numerator(i, rest), Denominator(i, rest), i, a);
  }

  lemma {:induction false} FractionPeel(m: int, l: int, n: int, d: int, i: int, a: int)
    requires Cong(l * d, n) && Cong(m * ((a - i) * d), a * n) && !Cong(d, 0)
    ensures Cong(m * (i - a), (0 - a) * l)
  {
    hide Reduce;
    CongScale(l * d, n, a);
    CongScale(m * ((a - i) * d), a * (l * d), -1);
    FractionPeelIdentity(m, l, d, i, a);
    Cancel(d, m * (i - a), (0 - a) * l);
  }

  lemma {:induction false} FractionPeelIdentity(m: int, l: int, d: int, i: int, a: int)
    ensures m * ((a - i) * d) * -1 == d * (m * (i - a))
    ensures a * (l * d) * -1 == d * ((0 - a) * l)
  {
    Regroup(m, i - a, d);
    Regroup(a, l, d);
    assert m * ((a - i) * d) * -1 == m * ((i - a) * d);
    assert a * (l * d) * -1 == (0 - a) * (l * d);
    Regroup(0 - a, l, d);
  }

  // Weighted sums: the interpolation at zero of values given at the indices.

  function Terms(indices: seq<u32>, values: seq<int>): (t: seq<int>)
    requires |indices| == |values|
    ensures |t| == |values|
  {
    seq(|values|, k requires 0 <= k < |values| => Lambda(indices[k], indices) * values[k])
  }

  function AtZero(indices: seq<u32>, values: seq<int>): int
    requires |indices| == |values|
  {
    Sum(Terms(indices, values))
  }

  lemma {:induction false} AtZeroLinear(indices: seq<u32>, a: seq<int>, b: seq<int>, k: int, c: seq<int>)
    requires |indices| == |a| == |b| == |c|
    requires forall i :: 0 <= i < |c| ==> c[i] == a[i] + k * b[i]
    ensures AtZero(indices, c) == AtZero(indices, a) + k * AtZero(indices, b)
  {
    hide Lambda;
    forall i | 0 <= i < |c|
      ensures Terms(indices, c)[i] == Terms(indices, a)[i] + k * Terms(indices, b)[i]
    {
      var l := Lambda(indices[i], indices);
      assert l * (a[i] + k * b[i]) == l * a[i] + k * (l * b[i]);
    }
    SumLinear(Terms(indices, a), Terms(indices, b), k, Terms(indices, c));
  }

  lemma {:induction false} AtZeroCong(indices: seq<u32>, a: seq<int>, b: seq<int>)
    requires |indices| == |a| == |b|
    requires forall i :: 0 <= i < |a| ==> Cong(a[i], b[i])
    ensures Cong(AtZero(indices, a), AtZero(indices, b))
  {
    hide Lambda, Reduce;
    forall i | 0 <= i < |a|
      ensures Cong(Terms(indices, a)[i], Terms(indices, b)[i])
    {
      CongScale(a[i], b[i], Lambda(indices[i], indices));
    }
    SumCong(Terms(indices, a), Terms(indices, b));
  }

  lemma {:induction false} TermPeel(i: u32, a: u32, rest: seq<u32>, v: int)
    requires i != a
    ensures Cong(Lambda(i, [a] + rest) * ((i - a) * v), (0 - a) * (Lambda(i, rest) * v))
  {
    hide Lambda, Reduce;
    LambdaPeel(i, a, rest);
    CongScale(Lambda(i, [a] + rest) * (i - a), (0 - a) * Lambda(i, rest), v);
    Regroup(Lambda(i, [a] + rest), i - a, v);
    Regroup(0 - a, Lambda(i, rest), v);
  }

  /** The values at [a] + rest with a factor (index - a); v holds the cofactors at rest. */
  function Sloped(a: int, rest: seq<u32>, v: seq<int>): (values: seq<int>)
    requires |v| == |rest|
    ensures |values| == |rest| + 1
  {
    [0] + seq(|rest|, k requires 0 <= k < |rest| => (rest[k] - a) * v[k])
  }

  /** Interpolating values with a factor (index - a) drops the index a and gains the factor -a. */
  lemma {:induction false} AtZeroPeel(a: u32, rest: seq<u32>, v: seq<int>)
    requires Distinct([a] + rest) && |v| == |rest|
    ensures Cong(AtZero([a] + rest, Sloped(a, rest, v)), (0 - a) * AtZero(rest, v))
  {
    hide Lambda, Reduce, Terms, Sloped;
    var t := Terms([a] + rest, Sloped(a, rest, v));
    forall k | 0 <= k < |rest|
      ensures Cong(t[1..][k], (0 - a) * Terms(rest, v)[k])
    {
      SlopedTerm(a, rest, v, k);
    }
    FirstSlopedTerm(a, rest, v);
    SumScaleCong(t[1..], 0 - a, Terms(rest, v));
  }

  lemma {:induction false} SlopedTerm(a: u32, rest: seq<u32>, v: seq<int>, k: nat)
    requires Distinct([a] + rest) && |v| == |rest| && k < |rest|
    ensures Cong(Terms([a] + rest, Sloped(a, rest, v))[k + 1], (0 - a) * Terms(rest, v)[k])
  {
    hide Lambda, Reduce, Terms, Sloped;
    var s := [a] + rest;
    assert s[0] == a && s[k + 1] == rest[k];
    SlopedAt(a, rest, v, k);
    TermAt(s, Sloped(a, rest, v), k + 1);
    TermAt(rest, v, k);
    TermPeel(rest[k], a, rest, v[k]);
  }

  lemma {:induction false} SlopedAt(a: int, rest: seq<u32>, v: seq<int>, k: nat)
    requires |v| == |rest| && k < |rest|
    ensures Sloped(a, rest, v)[k + 1] == (rest[k] - a) * v[k]
  {
  }

  lemma {:induction false} TermAt(indices: seq<u32>, values: seq<int>, k: nat)
    requires |indices| == |values| && k < |values|
    ensures Terms(indices, values)[k] == Lambda(indices[k], indices) * values[k]
  {
    hide Lambda;
  }

  lemma {:induction false} FirstSlopedTerm(a: u32, rest: seq<u32>, v: seq<int>)
    requires |v| == |rest|
    ensures Terms([a] + rest, Sloped(a, rest, v))[0] == 0
  {
    hide Lambda;
  }

  // The interpolation theorem.

  function Constants(n: nat, c: int): (v: seq<int>)
    ensures |v| == n && forall k :: 0 <= k < n ==> v[k] == c
  {
    seq(n, _ => c)
  }

  function Shifts(indices: seq<u32>, a: int): (v: seq<int>)
    ensures |v| == |indices|
  {
    seq(|indices|, k requires 0 <= k < |indices| => indices[k] - a)
  }

  function Values(f: seq<int>, indices: seq<u32>): (v: seq<int>)
    ensures |v| == |indices|
  {
    seq(|indices|, k requires 0 <= k < |indices| => Eval(f, indices[k]))
  }

  lemma {:induction false} DistinctTail(indices: seq<u32>)
    requires indices != [] && Distinct(indices)
    ensures Distinct(indices[1..])
  {
    forall j, k | 0 <= j < k < |indices[1..]|
      ensures indices[1..][j] != indices[1..][k]
    {
      assert indices[1..][j] == indices[j + 1] && indices[1..][k] == indices[k + 1];
    }
  }

  /** The coefficients of a nonempty signer set add up to one. */
  lemma {:induction false} LambdasSumToOne(indices: seq<u32>)
    requires indices != [] && Distinct(indices)
    ensures Cong(AtZero(indices, Constants(|indices|, 1)), 1)
    decreases |indices|
  {
    if |indices| == 1 {
      SingleSigner(indices[0]);
      assert indices == [indices[0]];
    } else {
      hide *;
      var a: int, b: int, rest := indices[0], indices[1], indices[2..];
      assert indices == [a] + ([b] + rest);
      var other := [b] + ([a] + rest);
      SwapDistinct(a, b, rest);
      ShiftedSum(a, [b] + rest);
      ShiftedSum(b, [a] + rest);
      SwapFirstTwo(a, b, rest);
      CompareShifts(indices, a, b);
    }
  }

  lemma {:induction false} CompareShifts(indices: seq<u32>, a: u32, b: u32)
    requires a != b
    requires Cong(AtZero(indices, Shifts(indices, a)), 0 - a) && Cong(AtZero(indices, Shifts(indices, b)), 0 - b)
    ensures Cong(AtZero(indices, Constants(|indices|, 1)), 1)
  {
    hide Reduce, AtZero;
    var one := AtZero(indices, Constants(|indices|, 1));
    var d: int := a as int - b;
    AtZeroLinear(indices, Shifts(indices, a), Constants(|indices|, 1), d, Shifts(indices, b));
    CongAdd(AtZero(indices, Shifts(indices, b)), 0 - b, AtZero(indices, Shifts(indices, a)), 0 - a);
    CongSmallNonZero(d);
    Cancel(d, one, 1);
  }

  lemma {:induction false} SingleSigner(i: u32)
    ensures Cong(AtZero([i], Constants(1, 1)), 1)
  {
    hide Reduce, Lambda;
    var t := Terms([i], Constants(1, 1));
    assert t == [Lambda(i, [i])] && t[1..] == [];
    LambdaIsQuotient(i, [i]);
    assert [i][1..] == [];
    assert Numerator(i, [i]) == 1 && Denominator(i, [i]) == 1;
    assert Sum(t) == Lambda(i, [i]) + Sum([]);
  }

  lemma {:induction false} SwapDistinct(a: u32, b: u32, rest: seq<u32>)
    requires Distinct([a] + ([b] + rest))
    ensures Distinct([b] + ([a] + rest))
  {
    var s, o := [a] + ([b] + rest), [b] + ([a] + rest);
    forall j, k | 0 <= j < k < |o|
      ensures o[j] != o[k]
    {
      var j', k' := if j < 2 then 1 - j else j, if k < 2 then 1 - k else k;
      assert s[j'] == o[j] && s[k'] == o[k];
      assert s[if j' < k' then j' else k'] != s[if j' < k' then k' else j'];
    }
  }

  /** Induction step of `LambdasSumToOne`: interpolating x - a from indices that start with a. */
  lemma {:induction false} ShiftedSum(a: u32, rest: seq<u32>)
    requires rest != [] && Distinct([a] + rest)
    ensures Cong(AtZero([a] + rest, Shifts([a] + rest, a)), 0 - a)
    decreases |rest| + 1, 0
  {
    hide Reduce, AtZero, Shifts, Constants, Sloped;
    var ones := Constants(|rest|, 1);
    assert ([a] + rest)[1..] == rest;
    DistinctTail([a] + rest);
    LambdasSumToOne(rest);
    ShiftsAreSloped(a, rest);
    AtZeroPeel(a, rest, ones);
    CongScale(AtZero(rest, ones), 1, 0 - a);
  }

  lemma {:induction false} ShiftsAreSloped(a: u32, rest: seq<u32>)
    ensures Shifts([a] + rest, a) == Sloped(a, rest, Constants(|rest|, 1))
  {
    var s, sloped := [a] + rest, Sloped(a, rest, Constants(|rest|, 1));
    forall k | 0 <= k < |s|
      ensures Shifts(s, a)[k] == sloped[k]
    {
      assert s[k] == if k == 0 then a else rest[k - 1];
    }
  }

  lemma {:induction false} SwapFirstTwo(a: u32, b: u32, rest: seq<u32>)
    ensures var s, o := [a] + ([b] + rest), [b] + ([a] + rest);
            AtZero(o, Shifts(o, b)) == AtZero(s, Shifts(s, b))
  {
    hide Reduce;
    var s, o := [a] + ([b] + rest), [b] + ([a] + rest);
    var t, u := Terms(s, Shifts(s, b)), Terms(o, Shifts(o, b));
    forall i: u32
      ensures Lambda(i, s) == Lambda(i, o)
    {
      SwapLambda(i, a, b, rest);
    }
    forall k | 0 <= k < |t| - 2
      ensures t[2..][k] == u[2..][k]
    {
      assert s[k + 2] == rest[k] == o[k + 2];
    }
    assert t[2..] == u[2..];
    assert t[0] == u[1] && t[1] == u[0];
    assert Sum(t) == t[0] + (t[1] + Sum(t[2..])) by { assert t[1..][1..] == t[2..]; }
    assert Sum(u) == u[0] + (u[1] + Sum(u[2..])) by { assert u[1..][1..] == u[2..]; }
  }

  lemma {:induction false} SwapLambda(i: u32, a: u32, b: u32, rest: seq<u32>)
    ensures Lambda(i, [a] + ([b] + rest)) == Lambda(i, [b] + ([a] + rest))
  {
    hide Reduce;
    var s, o := [a] + ([b] + rest), [b] + ([a] + rest);
    assert s[1..] == [b] + rest && s[1..][1..] == rest && o[1..] == [a] + rest && o[1..][1..] == rest;
    var x, y := if a == i then 1 else a, if b == i then 1 else b;
    var z, w := if a == i then 1 else a - i, if b == i then 1 else b - i;
    assert Numerator(i, s) == x * (y * Numerator(i, rest));
    assert Numerator(i, o) == y * (x * Numerator(i, rest));
    assert Denominator(i, s) == z * (w * Denominator(i, rest));
    assert Denominator(i, o) == w * (z * Denominator(i, rest));
    Exchange(x, y, Numerator(i, rest));
    Exchange(z, w, Denominator(i, rest));
  }

  lemma {:induction false} Exchange(x: int, y: int, z: int)
    ensures x * (y * z) == y * (x * z)
  {
  }

  /** How far the interpolated value is off the constant term. */
  function Deviation(f: seq<int>, indices: seq<u32>): int {
    AtZero(indices, Values(f, indices)) - Eval(f, 0)
  }

  /** Dividing the polynomial by x - a and dropping the index a multiplies the deviation by -a. */
  lemma {:induction false} DeviationStep(f: seq<int>, a: u32, rest: seq<u32>)
    requires Distinct([a] + rest)
    ensures Cong(Deviation(f, [a] + rest), (0 - a) * Deviation(Quotient(f, a), rest))
  {
    hide Reduce, AtZero, Eval, Quotient;
    var s, g := [a] + rest, Quotient(f, a);
    var level, ones, w := Eval(f, a), Constants(|s|, 1), AtZero(rest, Values(g, rest));
    var sloped := Sloped(a, rest, Values(g, rest));
    ValuesDivide(f, a, rest);
    AtZeroLinear(s, sloped, ones, level, Values(f, s));
    AtZeroPeel(a, rest, Values(g, rest));
    LambdasSumToOne(s);
    QuotientIsExact(f, a, 0);
    CombineDeviation(AtZero(s, sloped), AtZero(s, ones), level, w, Eval(g, 0), 0 - a);
  }

  lemma {:induction false} CombineDeviation(sloped: int, ones: int, level: int, w: int, g: int, a: int)
    requires Cong(sloped, a * w) && Cong(ones, 1)
    ensures Cong((sloped + level * ones) - (level + a * g), a * (w - g))
  {
    hide Reduce;
    CongScale(ones, 1, level);
    CongAdd(sloped, a * w, level * ones, level);
    CongAdd(sloped + level * ones, a * w + level, level + a * g, level + a * g);
    assert a * (w - g) == a * w - a * g;
  }

  lemma {:induction false} ValuesDivide(f: seq<int>, a: u32, rest: seq<u32>)
    ensures var s := [a] + rest; var sloped := Sloped(a, rest, Values(Quotient(f, a), rest));
            forall k :: 0 <= k < |s| ==>
              Values(f, s)[k] == sloped[k] + Eval(f, a) * Constants(|s|, 1)[k]
  {
    hide Eval, Quotient;
    var s := [a] + rest;
    forall k | 0 <= k < |s|
      ensures Values(f, s)[k] ==
        Sloped(a, rest, Values(Quotient(f, a), rest))[k] + Eval(f, a) * Constants(|s|, 1)[k]
    {
      QuotientIsExact(f, a, s[k]);
      assert s[k] == if k == 0 then a else rest[k - 1];
    }
  }

  /** The polynomial divided by x - a for every index a in turn: what the values at the indices do not determine. */
  function QuotientAll(f: seq<int>, indices: seq<u32>): (g: seq<int>)
    ensures |g| == if |f| <= |indices| then 0 else |f| - |indices|
    decreases |indices|
  {
    if indices == [] then f else QuotientAll(Quotient(f, indices[0]), indices[1..])
  }

  /** The product of the negated indices. */
  function NegatedProduct(indices: seq<u32>): int {
    if indices == [] then 1 else (0 - indices[0]) * NegatedProduct(indices[1..])
  }

  /** What interpolation at zero misses; nothing when there are as many indices as coefficients. */
  function Miss(f: seq<int>, indices: seq<u32>): (m: int)
    ensures |f| <= |indices| ==> m == 0
  {
    EvalEmpty(0);
    Eval(QuotientAll(f, indices), 0) * NegatedProduct(indices)
  }

  /** With one index too few the quotient is the top coefficient. */
  lemma {:induction false} QuotientOneShort(f: seq<int>, indices: seq<u32>)
    requires |f| == |indices| + 1
    ensures QuotientAll(f, indices) == [f[|f| - 1]]
    decreases |indices|
  {
    if indices == [] {
    } else {
      var g := Quotient(f, indices[0]);
      QuotientAt(f, indices[0], |f| - 2);
      assert f[|f| - 1..] == [f[|f| - 1]] && f[|f| - 1..][1..] == [];
      assert g[|g| - 1] == f[|f| - 1];
      QuotientOneShort(g, indices[1..]);
    }
  }

  /** For any number of distinct indices, few or many: the interpolated value is off by exactly the miss. */
  lemma {:induction false} DeviationIsExact(f: seq<int>, indices: seq<u32>)
    requires Distinct(indices)
    ensures Cong(Deviation(f, indices), 0 - Miss(f, indices))
    decreases |indices|
  {
    hide Reduce, Lambda, Eval;
    if indices == [] {
      assert Terms(indices, Values(f, indices)) == [];
    } else {
      var a: int, rest := indices[0], indices[1..];
      assert indices == [a] + rest;
      DistinctTail(indices);
      var g := Quotient(f, a);
      DeviationIsExact(g, rest);
      DeviationStep(f, a, rest);
      var q := Eval(QuotientAll(g, rest), 0);
      CongScale(Deviation(g, rest), 0 - q * NegatedProduct(rest), 0 - a);
      ShiftSign(q, NegatedProduct(rest), 0 - a);
    }
  }

  lemma {:induction false} ShiftSign(x: int, y: int, z: int)
    ensures z * (0 - x * y) == 0 - x * (z * y)
  {
    assert z * (x * y) == x * (z * y);
  }

  /** Interpolation at zero: at least as many distinct indices as coefficients recover the constant term. */
  lemma {:induction false} InterpolationIsExact(f: seq<int>, indices: seq<u32>)
    requires |f| <= |indices| && Distinct(indices)
    ensures Cong(AtZero(indices, Values(f, indices)), Eval(f, 0))
  {
    hide Reduce, AtZero;
    DeviationIsExact(f, indices);
    CongAdd(Deviation(f, indices), 0, Eval(f, 0), Eval(f, 0));
  }

  /** Fewer indices recover it too iff the quotient's constant term is zero. */
  lemma {:induction false} RecoversExactly(f: seq<int>, indices: seq<u32>)
    requires Distinct(indices) && 0 !in indices
    ensures Cong(AtZero(indices, Values(f, indices)), Eval(f, 0)) <==> Cong(Eval(QuotientAll(f, indices), 0), 0)
  {
    hide Reduce, AtZero, Eval;
    var a, b, q := AtZero(indices, Values(f, indices)), Eval(f, 0), Eval(QuotientAll(f, indices), 0);
    DeviationIsExact(f, indices);
    NegatedProductNonZero(indices);
    NegatedMultiple(q, NegatedProduct(indices));
    CongDifference(a, b);
  }

  lemma {:induction false} CongDifference(a: int, b: int)
    ensures Cong(a, b) <==> Cong(a - b, 0)
  {
    hide Reduce;
    if Cong(a, b) {
      CongAdd(a, b, b, b);
    }
    if Cong(a - b, 0) {
      CongAdd(a - b, 0, b, b);
    }
  }

  lemma {:induction false} NegatedMultiple(x: int, p: int)
    requires !Cong(p, 0)
    ensures Cong(0 - x * p, 0) <==> Cong(x, 0)
  {
    hide Reduce;
    if Cong(0 - x * p, 0) {
      CongAdd(0, 0, 0 - x * p, 0);
      NoZeroDivisors(x, p);
    }
    if Cong(x, 0) {
      CongScale(x, 0, p);
      CongAdd(0, 0, x * p, 0);
    }
  }

  lemma {:induction false} NegatedProductNonZero(indices: seq<u32>)
    requires 0 !in indices
    ensures !Cong(NegatedProduct(indices), 0)
  {
    hide Reduce;
    if indices == [] {
      CongSmallNonZero(1);
    } else {
      NegatedProductNonZero(indices[1..]);
      var first: int := indices[0];
      CongSmallNonZero(0 - first);
      if Cong((0 - first) * NegatedProduct(indices[1..]), 0) {
        NoZeroDivisors(0 - first, NegatedProduct(indices[1..]));
      }
    }
  }

  /** No signer's coefficient is zero. */
  lemma {:induction false} LambdaNonZero(i: u32, indices: seq<u32>)
    requires 0 !in indices
    ensures !Cong(Lambda(i, indices), 0)
  {
    hide Reduce, Lambda;
    LambdaIsQuotient(i, indices);
    NumeratorNonZero(i, indices);
    if Cong(Lambda(i, indices), 0) {
      CongScale(Lambda(i, indices), 0, Denominator(i, indices));
    }
  }

  lemma {:induction false} NumeratorNonZero(i: u32, indices: seq<u32>)
    requires 0 !in indices
    ensures !Cong(Numerator(i, indices), 0)
  {
    hide Reduce;
    if indices == [] {
      CongSmallNonZero(1);
    } else {
      NumeratorNonZero(i, indices[1..]);
      var factor: int := if indices[0] == i then 1 else indices[0];
      CongSmallNonZero(factor);
      if Cong(factor * Numerator(i, indices[1..]), 0) {
        NoZeroDivisors(factor, Numerator(i, indices[1..]));
      }
    }
  }
}
