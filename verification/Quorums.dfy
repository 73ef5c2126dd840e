/** How many shares a group needs: every k of them reconstruct the secret exactly when the sharing polynomial has no
    coefficient from k on, which the public commitments show (crates/dkg/src/feldman.rs, crates/dkg/src/rotation.rs). */
module Quorums {
  import opened Core
  import opened Scalars
  import opened Sums
  import opened Polynomials
  import opened Lagrange
  import opened Feldman
  import opened Rotation

  /** k distinct participants of n. */
  ghost predicate IsQuorum(indices: seq<u32>, n: nat, k: nat) {
    |indices| == k && Distinct(indices) && forall j :: 0 <= j < k ==> 1 <= indices[j] <= n
  }

  function SecretsOf(keys: seq<KeyShare>, indices: seq<u32>): (secrets: seq<Scalar>)
    requires forall j :: 0 <= j < |indices| ==> 1 <= indices[j] <= |keys|
    ensures |secrets| == |indices|
  {
    seq(|indices|, j requires 0 <= j < |indices| => keys[indices[j] - 1].secret)
  }

  /** Every k shares interpolate to the logarithm of the given key. */
  ghost predicate EveryQuorumReconstructs(keys: seq<KeyShare>, k: nat, key: Point) {
    forall indices: seq<u32> :: IsQuorum(indices, |keys|, k) ==>
      Cong(AtZero(indices, SecretsOf(keys, indices)), key.log)
  }

  /** The same on the sharing polynomial. */
  ghost predicate EveryQuorumInterpolates(f: seq<int>, n: nat, k: nat) {
    forall indices: seq<u32> :: IsQuorum(indices, n, k) ==> Cong(AtZero(indices, Values(f, indices)), Eval(f, 0))
  }

  ghost predicate VanishesFrom(f: seq<int>, k: nat) {
    forall j: nat :: j >= k ==> Cong(CoefficientAt(f, j), 0)
  }

  lemma {:induction false} QuorumOfShares(f: seq<int>, n: u32, indices: seq<u32>, k: nat)
    requires IsQuorum(indices, n, k)
    ensures Cong(AtZero(indices, SecretsOf(KeysOn(f, n), indices)), AtZero(indices, Values(f, indices)))
  {
    hide Reduce, Eval, Lambda;
    AtZeroCong(indices, SecretsOf(KeysOn(f, n), indices), Values(f, indices));
  }

  lemma {:induction false} ReconstructsIsInterpolates(f: seq<int>, n: u32, k: nat)
    ensures EveryQuorumReconstructs(KeysOn(f, n), k, Point(Reduce(Eval(f, 0)))) <==> EveryQuorumInterpolates(f, n, k)
  {
    hide Reduce, Eval, AtZero;
    forall indices: seq<u32> | IsQuorum(indices, n, k)
      ensures Cong(AtZero(indices, SecretsOf(KeysOn(f, n), indices)), AtZero(indices, Values(f, indices)))
    {
      QuorumOfShares(f, n, indices, k);
    }
  }

  // If the coefficients from k on vanish, k indices are enough.

  lemma {:induction false} EvalTruncated(f: seq<int>, k: nat, x: int)
    requires k <= |f| && VanishesFrom(f, k)
    ensures Cong(Eval(f, x), Eval(f[..k], x))
  {
    hide Reduce, Eval;
    var padded := f[..k] + Constants(|f| - k, 0);
    forall j | 0 <= j < |f|
      ensures Cong(f[j], padded[j])
    {
      assert Cong(CoefficientAt(f, j), 0) || j < k;
    }
    EvalCong(f, padded, x, x);
    EvalPadded(f[..k], |f| - k, x);
  }

  lemma {:induction false} EvalPadded(f: seq<int>, zeros: nat, x: int)
    ensures Eval(f + Constants(zeros, 0), x) == Eval(f, x)
    decreases |f|, zeros
  {
    if f != [] {
      assert (f + Constants(zeros, 0))[1..] == f[1..] + Constants(zeros, 0);
      EvalPadded(f[1..], zeros, x);
    } else if zeros == 0 {
      assert [] + Constants(0, 0) == [];
    } else {
      assert f + Constants(zeros, 0) == [0] + Constants(zeros - 1, 0);
      assert ([0] + Constants(zeros - 1, 0))[1..] == [] + Constants(zeros - 1, 0);
      EvalPadded([], zeros - 1, x);
    }
  }

  lemma {:induction false} EnoughWhenVanishing(f: seq<int>, indices: seq<u32>)
    requires Distinct(indices) && VanishesFrom(f, |indices|)
    ensures Cong(AtZero(indices, Values(f, indices)), Eval(f, 0))
  {
    hide Reduce, Eval, AtZero, VanishesFrom;
    if |f| <= |indices| {
      InterpolationIsExact(f, indices);
    } else {
      var g := f[..|indices|];
      forall j | 0 <= j < |indices|
        ensures Cong(Values(f, indices)[j], Values(g, indices)[j])
      {
        EvalTruncated(f, |indices|, indices[j]);
      }
      AtZeroCong(indices, Values(f, indices), Values(g, indices));
      InterpolationIsExact(g, indices);
      EvalTruncated(f, |indices|, 0);
    }
  }

  // If every k indices are enough, the coefficients from k on vanish.

  function Negated(f: seq<int>): (g: seq<int>)
    ensures |g| == |f|
  {
    seq(|f|, k requires 0 <= k < |f| => 0 - f[k])
  }

  lemma {:induction false} EvalNegated(f: seq<int>, x: int)
    ensures Eval(Negated(f), x) == 0 - Eval(f, x)
  {
    if f == [] {
      EvalEmpty(x);
    } else {
      EvalNegated(f[1..], x);
      assert Negated(f)[1..] == Negated(f[1..]);
      assert x * (0 - Eval(f[1..], x)) == 0 - x * Eval(f[1..], x);
    }
  }

  /** The indices 1 to m. */
  function FirstIndices(m: u32): (indices: seq<u32>)
    ensures |indices| == m
  {
    seq(m, k requires 0 <= k < m => k + 1)
  }

  /** f minus the polynomial of k coefficients that agrees with it at zero and at the indices 1 to k - 1. */
  function Remainder(f: seq<int>, k: u32): (d: seq<int>)
    requires k >= 1
    ensures |d| == if |f| < k then k else |f|
  {
    AddPoly(f, Negated(Interpolant([0] + FirstIndices(k - 1), [Eval(f, 0)] + Values(f, FirstIndices(k - 1)))))
  }

  lemma {:induction false} RemainderVanishes(f: seq<int>, k: u32, x: u32)
    requires x < k
    ensures Cong(Eval(Remainder(f, k), x), 0)
  {
    hide Reduce, Eval, AddPoly, Negated, Interpolant;
    var base := FirstIndices(k - 1);
    var xs, ys := [0] + base, [Eval(f, 0)] + Values(f, base);
    var h := Interpolant(xs, ys);
    IndicesDistinct(xs);
    InterpolantMeets(xs, ys);
    assert xs[x] == x && ys[x] == Eval(f, x);
    EvalAddPoly(f, Negated(h), x);
    EvalNegated(h, x);
    CongAdd(Eval(f, x), Eval(f, x), Eval(h, x), Eval(f, x));
  }

  lemma {:induction false} RemainderInterpolates(f: seq<int>, k: u32, indices: seq<u32>)
    requires k >= 1 && |indices| == k && Distinct(indices)
    requires Cong(AtZero(indices, Values(f, indices)), Eval(f, 0))
    ensures Cong(AtZero(indices, Values(Remainder(f, k), indices)), 0)
  {
    hide Reduce, Eval, AddPoly, Negated, Interpolant, AtZero;
    var base := FirstIndices(k - 1);
    var h := Interpolant([0] + base, [Eval(f, 0)] + Values(f, base));
    var g := Negated(h);
    forall j | 0 <= j < |indices|
      ensures Values(Remainder(f, k), indices)[j] == Values(f, indices)[j] + 1 * Values(g, indices)[j]
    {
      EvalAddPoly(f, g, indices[j]);
    }
    AtZeroLinear(indices, Values(f, indices), Values(g, indices), 1, Values(Remainder(f, k), indices));
    InterpolationIsExact(g, indices);
    EvalAddPoly(f, g, 0);
    RemainderVanishes(f, k, 0);
    CongAdd(AtZero(indices, Values(f, indices)), Eval(f, 0), AtZero(indices, Values(g, indices)), Eval(g, 0));
  }

  /** A weighted sum with all values zero but the first. */
  lemma {:induction false} FirstValueVanishes(i: u32, rest: seq<u32>, values: seq<int>)
    requires 0 !in [i] + rest && |values| == |rest| + 1
    requires forall j :: 1 <= j < |values| ==> Cong(values[j], 0)
    requires Cong(AtZero([i] + rest, values), 0)
    ensures Cong(values[0], 0)
  {
    hide Reduce, Lambda;
    var indices := [i] + rest;
    var t := Terms(indices, values);
    forall j | 0 <= j < |t[1..]|
      ensures Cong(t[1..][j], 0 * t[1..][j])
    {
      CongScale(values[j + 1], 0, Lambda(indices[j + 1], indices));
    }
    SumScaleCong(t[1..], 0, t[1..]);
    CongAdd(Sum(t), 0, Sum(t[1..]), 0);
    LambdaNonZero(i, indices);
    NoZeroDivisors(Lambda(i, indices), values[0]);
  }

  lemma {:induction false} RemainderVanishesBeyond(f: seq<int>, n: u32, k: u32, x: u32)
    requires 1 <= k <= x <= n && EveryQuorumInterpolates(f, n, k)
    ensures Cong(Eval(Remainder(f, k), x), 0)
  {
    hide Reduce, Eval, AtZero, Remainder, EveryQuorumInterpolates;
    var base := FirstIndices(k - 1);
    var indices := [x] + base;
    assert IsQuorum(indices, n, k);
    QuorumInterpolates(f, n, k, indices);
    RemainderInterpolates(f, k, indices);
    var values := Values(Remainder(f, k), indices);
    forall j | 1 <= j < |values|
      ensures Cong(values[j], 0)
    {
      RemainderVanishes(f, k, j);
    }
    FirstValueVanishes(x, base, values);
  }

  lemma {:induction false} QuorumInterpolates(f: seq<int>, n: u32, k: nat, indices: seq<u32>)
    requires EveryQuorumInterpolates(f, n, k) && IsQuorum(indices, n, k)
    ensures Cong(AtZero(indices, Values(f, indices)), Eval(f, 0))
  {
  }

  lemma {:induction false} VanishesWhenEnough(f: seq<int>, n: u32, k: u32)
    requires 1 <= k <= n && |f| <= n + 1 && EveryQuorumInterpolates(f, n, k)
    ensures VanishesFrom(f, k)
  {
    hide Reduce, Eval, EveryQuorumInterpolates, AddPoly, Negated, Interpolant;
    var xs, d := [0] + FirstIndices(n), Remainder(f, k);
    forall x | 0 <= x < |xs|
      ensures Cong(Eval(d, xs[x]), 0)
    {
      assert xs[x] == x;
      if x < k {
        RemainderVanishes(f, k, x);
      } else {
        RemainderVanishesBeyond(f, n, k, x);
      }
    }
    IndicesDistinct(xs);
    RootsForceZero(d, xs);
    var base := FirstIndices(k - 1);
    var h := Interpolant([0] + base, [Eval(f, 0)] + Values(f, base));
    forall j: nat | j >= k
      ensures Cong(CoefficientAt(f, j), 0)
    {
      CoefficientOfSum(f, Negated(h), j);
    }
  }

  /** How many shares a group needs, exactly: every k of them reconstruct the secret iff all coefficients of the
      sharing polynomial from k on are zero. */
  lemma {:induction false} QuorumsAreExact(f: seq<int>, n: u32, k: u32)
    requires 1 <= k <= n && |f| <= n + 1
    ensures EveryQuorumReconstructs(KeysOn(f, n), k, Point(Reduce(Eval(f, 0)))) <==> VanishesFrom(f, k)
  {
    hide Reduce, Eval, AtZero, EveryQuorumReconstructs, VanishesFrom;
    ReconstructsIsInterpolates(f, n, k);
    if EveryQuorumInterpolates(f, n, k) {
      VanishesWhenEnough(f, n, k);
    }
    if VanishesFrom(f, k) {
      forall indices: seq<u32> | IsQuorum(indices, n, k)
        ensures Cong(AtZero(indices, Values(f, indices)), Eval(f, 0))
      {
        EnoughWhenVanishing(f, indices);
      }
    }
  }

  // What the public commitments show.

  /** The dealers' commitments to their coefficients of x to the power j. */
  function CommitmentsToPower(contributions: seq<DkgContribution>, j: nat): (points: seq<Point>)
    ensures |points| == |contributions|
  {
    seq(|contributions|, i requires 0 <= i < |contributions| =>
      if j < |contributions[i].commitments| then contributions[i].commitments[j] else IDENTITY)
  }

  /** The commitments to one power add up to a commitment to the sharing polynomial's coefficient. */
  lemma {:induction false} CommitmentsShowCoefficient(contributions: seq<DkgContribution>, j: nat)
    ensures SumPoints(CommitmentsToPower(contributions, j))
         == Point(Reduce(CoefficientAt(SumPolys(CommittedPolys(contributions)), j)))
  {
    hide Reduce, AddPoly;
    if contributions == [] {
    } else {
      var rest, f := contributions[1..], Logs(contributions[0].commitments);
      CommitmentsShowCoefficient(rest, j);
      assert CommitmentsToPower(contributions, j)[1..] == CommitmentsToPower(rest, j);
      assert CommittedPolys(contributions)[1..] == CommittedPolys(rest);
      CoefficientOfSum(f, SumPolys(CommittedPolys(rest)), j);
      CongAdd(CoefficientAt(f, j), CoefficientAt(f, j), Reduce(CoefficientAt(SumPolys(CommittedPolys(rest)), j)),
              CoefficientAt(SumPolys(CommittedPolys(rest)), j));
    }
  }

  /** After a ceremony anyone can tell how many shares are needed: every k reconstruct the group secret iff the
      commitments to each power from k on add up to the identity. */
  lemma {:induction false} QuorumIsPublic(contributions: seq<DkgContribution>, n: u32, k: u32)
    requires 1 <= k <= n && WellFormed(contributions, n) && AllSharesMatch(contributions, n)
    requires forall d :: 0 <= d < |contributions| ==> |contributions[d].commitments| <= n + 1
    ensures EveryQuorumReconstructs(CombinedKeys(contributions, n), k, SumPoints(ConstantCommitments(contributions, n)))
            <==> forall j: nat :: j >= k ==> SumPoints(CommitmentsToPower(contributions, j)) == IDENTITY
  {
    hide Reduce, Eval, EveryQuorumReconstructs, SumPolys, CombinedKeys, ConstantCommitments, SumPoints, AllSharesMatch,
         CoefficientAt, CommitmentsToPower;
    var f := SumPolys(CommittedPolys(contributions));
    AcceptedCeremony(contributions, n);
    GroupKeyCommitsToSecret(contributions, n);
    SumPolysBounded(CommittedPolys(contributions), n + 1);
    QuorumsAreExact(f, n, k);
    forall j: nat
      ensures SumPoints(CommitmentsToPower(contributions, j)) == Point(Reduce(CoefficientAt(f, j)))
    {
      CommitmentsShowCoefficient(contributions, j);
    }
  }

  /** After any run of rotations every k shares reconstruct the secret iff, from k on, what the run added cancels the
      original coefficient. Where the run added nothing, the original coefficient alone decides: a rotation with fewer
      coefficients does not lower the number of shares needed. */
  lemma {:induction false} RunQuorumsAreExact(f: seq<int>, n: u32, epochs: seq<seq<Polynomial>>, keys: seq<KeyShare>,
                                              k: u32)
    requires 1 <= k <= n && Rotations(epochs, n) && |f| <= n + 1
    requires forall e, i :: 0 <= e < |epochs| && 0 <= i < n ==> |epochs[e][i].coefficients| <= n + 1
    requires RotateRun(KeysOn(f, n), epochs) == Ok(keys)
    ensures EveryQuorumReconstructs(keys, k, Point(Reduce(Eval(f, 0)))) <==>
            forall j: nat :: j >= k ==> Cong(CoefficientAt(f, j) + CoefficientAt(AddedBy(epochs), j), 0)
    ensures (forall e, i :: 0 <= e < |epochs| && 0 <= i < n ==> |epochs[e][i].coefficients| <= k) ==>
            (EveryQuorumReconstructs(keys, k, Point(Reduce(Eval(f, 0)))) <==>
             EveryQuorumReconstructs(KeysOn(f, n), k, Point(Reduce(Eval(f, 0)))))
  {
    hide Reduce, Eval, EveryQuorumReconstructs, RotateRun, AddedBy, AddPoly;
    var g := PolynomialAfter(f, epochs);
    RunKeepsSharing(f, n, epochs, n + 1);
    QuorumsAreExact(g, n, k);
    forall j: nat
      ensures CoefficientAt(g, j) == CoefficientAt(f, j) + CoefficientAt(AddedBy(epochs), j)
    {
      CoefficientOfSum(f, AddedBy(epochs), j);
    }
    if forall e, i :: 0 <= e < |epochs| && 0 <= i < n ==> |epochs[e][i].coefficients| <= k {
      AddedByBounded(epochs, n, k);
      QuorumsAreExact(f, n, k);
    }
  }
}
