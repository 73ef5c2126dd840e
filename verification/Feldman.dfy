/** Feldman verifiable secret sharing and the key-generation ceremony (crates/dkg/src/feldman.rs). */
module Feldman {
  import opened Core
  import opened Scalars
  import opened Sums
  import opened Polynomials
  import opened Lagrange

  datatype DkgContribution = DkgContribution(
    index: u32,
    commitments: seq<Point>,
    shares: seq<(u32, Scalar)>)

  /** One dealer's published message: committed coefficients and the polynomial's value for each of n receivers. */
  function Contribution(index: u32, poly: Polynomial, n: u32): DkgContribution {
    DkgContribution(index, Commit(poly.coefficients), DealtShares(poly, n))
  }

  function Commit(coefficients: seq<Scalar>): (ps: seq<Point>)
    ensures |ps| == |coefficients|
  {
    seq(|coefficients|, k requires 0 <= k < |coefficients| => Times(G, coefficients[k]))
  }

  function DealtShares(poly: Polynomial, n: u32): (shares: seq<(u32, Scalar)>)
    ensures |shares| == n
  {
    seq(n, j requires 0 <= j < n => (j + 1, poly.At(j + 1)))
  }

  /** The committed polynomial, evaluated at x in the exponent. */
  function CommitmentAt(commitments: seq<Point>, x: Scalar): Point {
    Point(Reduce(Eval(Logs(commitments), x)))
  }

  method EvaluateCommitments(commitments: seq<Point>, x: Scalar) returns (result: Point)
    ensures result == CommitmentAt(commitments, x)
  {
    hide Reduce;
    var logs := Logs(commitments);
    result := IDENTITY;
    var xPower: Scalar := 1;
    for k := 0 to |commitments|
      invariant Cong(result.log + xPower * Eval(logs[k..], x), Eval(logs, x))
    {
      assert logs[k..][1..] == logs[k + 1..];
      HornerAccumulate(result.log, xPower, logs[k], x, Eval(logs[k + 1..], x));
      result := AddPoints(result, Times(commitments[k], xPower));
      xPower := Mul(xPower, x);
    }
    assert logs[|commitments|..] == [];
  }

  predicate ShareMatches(index: u32, share: Scalar, commitments: seq<Point>) {
    Times(G, share) == CommitmentAt(commitments, index)
  }

  method VerifyShare(index: u32, share: Scalar, commitments: seq<Point>) returns (r: Result<()>)
    ensures r == if ShareMatches(index, share, commitments) then Ok(()) else Err(InvalidShare(index))
  {
    var lhs := Times(G, share);
    var rhs := EvaluateCommitments(commitments, index);
    if lhs == rhs {
      r := Ok(());
    } else {
      r := Err(InvalidShare(index));
    }
  }

  lemma {:induction false} LogsOfCommit(f: seq<Scalar>)
    ensures Logs(Commit(f)) == f
  {
    forall k | 0 <= k < |f|
      ensures Logs(Commit(f))[k] == f[k]
    {
      TimesG(f[k]);
    }
  }

  /** The check accepts exactly the committed polynomial's value at the receiver's index. */
  lemma {:induction false} ShareCheckIsExact(index: u32, share: Scalar, poly: Polynomial)
    ensures ShareMatches(index, share, Commit(poly.coefficients)) <==> share == poly.At(index)
  {
    LogsOfCommit(poly.coefficients);
    TimesG(share);
  }

  ghost predicate AcceptsAll(commitments: seq<Point>, indices: seq<u32>, shares: seq<Scalar>)
    requires |indices| == |shares|
  {
    forall k :: 0 <= k < |indices| ==> ShareMatches(indices[k], shares[k], commitments)
  }

  /** The check binds the dealer: t commitments that accept the same shares at t distinct indices are the same. */
  lemma {:induction false} CommitmentsAreBinding(a: seq<Point>, b: seq<Point>, indices: seq<u32>, shares: seq<Scalar>)
    requires |a| == |b| <= |indices| == |shares| && Distinct(indices)
    requires AcceptsAll(a, indices, shares) && AcceptsAll(b, indices, shares)
    ensures a == b
  {
    hide Reduce, Eval;
    IndicesDistinct(indices);
    forall k | 0 <= k < |indices|
      ensures Cong(Eval(Logs(a), indices[k]), Eval(Logs(b), indices[k]))
    {
      assert ShareMatches(indices[k], shares[k], a) && ShareMatches(indices[k], shares[k], b);
    }
    AgreementForcesEquality(Logs(a), Logs(b), indices);
    forall k | 0 <= k < |a|
      ensures a[k] == b[k]
    {
      assert Logs(a)[k] == a[k].log && Logs(b)[k] == b[k].log;
    }
  }

  lemma {:induction false} IndicesDistinct(indices: seq<u32>)
    requires Distinct(indices)
    ensures DistinctModOrder(indices)
  {
    forall i, j | 0 <= i < j < |indices|
      ensures !Cong(indices[i], indices[j])
    {
      if Cong(indices[i], indices[j]) {
        CongSmall(indices[i], indices[j]);
      }
    }
  }

  // Sums over dealers.

  function SumPolys(polys: seq<Polynomial>): seq<int> {
    if polys == [] then [] else AddPoly(polys[0].coefficients, SumPolys(polys[1..]))
  }

  function Evaluations(polys: seq<Polynomial>, x: Scalar): (v: seq<Scalar>)
    ensures |v| == |polys|
  {
    seq(|polys|, i requires 0 <= i < |polys| => polys[i].At(x))
  }

  /** Exchanging the two sums, over dealers and over coefficients. */
  lemma {:induction false} SumOfEvaluations(polys: seq<Polynomial>, x: Scalar)
    ensures SumScalars(Evaluations(polys, x)) == Reduce(Eval(SumPolys(polys), x))
  {
    hide Reduce, Eval, AddPoly;
    if polys == [] {
      EvalEmpty(x);
    } else {
      SumOfEvaluations(polys[1..], x);
      assert Evaluations(polys, x)[1..] == Evaluations(polys[1..], x);
      EvalAddPoly(polys[0].coefficients, SumPolys(polys[1..]), x);
      CongAdd(polys[0].At(x), Eval(polys[0].coefficients, x),
              SumScalars(Evaluations(polys[1..], x)), Eval(SumPolys(polys[1..]), x));
    }
  }

  // The key shares that lie on one polynomial.

  /** The share of participant i when the sharing polynomial is f and there are n participants. */
  function KeyOn(f: seq<int>, n: u32, i: u32): KeyShare {
    KeyShare(i, Reduce(Eval(f, i)), Point(Reduce(Eval(f, 0))), VerificationSharesOn(f, n))
  }

  function VerificationSharesOn(f: seq<int>, n: u32): (v: seq<(u32, Point)>)
    ensures |v| == n
  {
    seq(n, j requires 0 <= j < n => (j + 1, Point(Reduce(Eval(f, j + 1)))))
  }

  /** The whole group's shares: the invariant every ceremony establishes and every rotation keeps. */
  function KeysOn(f: seq<int>, n: u32): (keys: seq<KeyShare>)
    ensures |keys| == n
  {
    seq(n, j requires 0 <= j < n => KeyOn(f, n, j + 1))
  }

  // The ceremony.

  ghost predicate WellFormed(contributions: seq<DkgContribution>, n: u32) {
    forall i :: 0 <= i < |contributions| ==>
      |contributions[i].shares| == n && contributions[i].commitments != []
  }

  /** The values that receiver j + 1 got from the dealers. */
  function Received(contributions: seq<DkgContribution>, n: u32, j: nat): (v: seq<Scalar>)
    requires WellFormed(contributions, n) && j < n
    ensures |v| == |contributions|
  {
    seq(|contributions|, i requires 0 <= i < |contributions| => contributions[i].shares[j].1)
  }

  function ConstantCommitments(contributions: seq<DkgContribution>, n: u32): (v: seq<Point>)
    requires WellFormed(contributions, n)
    ensures |v| == |contributions|
  {
    seq(|contributions|, i requires 0 <= i < |contributions| => contributions[i].commitments[0])
  }

  function CommitmentsAt(contributions: seq<DkgContribution>, x: Scalar): (v: seq<Point>)
    ensures |v| == |contributions|
  {
    seq(|contributions|, i requires 0 <= i < |contributions| => CommitmentAt(contributions[i].commitments, x))
  }

  function VerificationShares(contributions: seq<DkgContribution>, n: u32): (v: seq<(u32, Point)>)
    ensures |v| == n
  {
    seq(n, j requires 0 <= j < n => (j + 1, SumPoints(CommitmentsAt(contributions, j + 1))))
  }

  function Contributions(polys: seq<Polynomial>, n: u32): (cs: seq<DkgContribution>)
    requires |polys| < U32_LIMIT
    ensures |cs| == |polys|
  {
    seq(|polys|, i requires 0 <= i < |polys| => Contribution(i + 1, polys[i], n))
  }

  lemma {:induction false} ContributionsWellFormed(polys: seq<Polynomial>, n: u32)
    requires |polys| < U32_LIMIT
    requires forall k :: 0 <= k < |polys| ==> polys[k].coefficients != []
    ensures WellFormed(Contributions(polys, n), n)
  {
  }

  /** The polynomials the dealers draw, t coefficients each, one dealer after the other. */
  function DealerPolys(tape: nat -> Scalar, start: nat, t: nat, n: nat): (polys: seq<Polynomial>)
    ensures |polys| == n && forall i :: 0 <= i < n ==> |polys[i].coefficients| == t
  {
    seq(n, i requires 0 <= i < n => Polynomial(Draws(tape, start + i * t, t)))
  }

  /** Step 1: every participant draws a polynomial and publishes its contribution. */
  method Deal(t: u32, n: u32, rng: Rng) returns (contributions: seq<DkgContribution>)
    requires t >= 1
    modifies rng
    ensures contributions == Contributions(DealerPolys(rng.tape, old(rng.drawn), t, n), n)
    ensures rng.drawn == old(rng.drawn) + n * t
  {
    hide Contribution;
    ghost var start := rng.drawn;
    ghost var polys := DealerPolys(rng.tape, start, t, n);
    contributions := [];
    for i := 0 to n
      invariant rng.drawn == start + i * t
      invariant |contributions| == i
      invariant forall k :: 0 <= k < i ==> contributions[k] == Contribution(k + 1, polys[k], n)
    {
      var poly := Polynomial.RandomFull(t - 1, rng);
      assert poly == polys[i];
      contributions := contributions + [Contribution(i + 1, poly, n)];
    }
  }

  ghost predicate AllSharesMatch(contributions: seq<DkgContribution>, n: u32)
    requires WellFormed(contributions, n)
  {
    forall i, d :: 0 <= i < n && 0 <= d < |contributions| ==>
      ShareMatches(i + 1, contributions[d].shares[i].1, contributions[d].commitments)
  }

  /** The first receiver that got a share which fails its check. */
  ghost predicate FirstRejecting(contributions: seq<DkgContribution>, n: u32, index: u32)
    requires WellFormed(contributions, n)
  {
    1 <= index <= n &&
    (exists d :: 0 <= d < |contributions| &&
      !ShareMatches(index, contributions[d].shares[index - 1].1, contributions[d].commitments)) &&
    forall k, d :: 0 <= k < index - 1 && 0 <= d < |contributions| ==>
      ShareMatches(k + 1, contributions[d].shares[k].1, contributions[d].commitments)
  }

  function CombinedKeys(contributions: seq<DkgContribution>, n: u32): (keys: seq<KeyShare>)
    requires WellFormed(contributions, n)
    ensures |keys| == n
  {
    seq(n, i requires 0 <= i < n => CombinedKey(contributions, n, i))
  }

  function CombinedKey(contributions: seq<DkgContribution>, n: u32, i: nat): KeyShare
    requires WellFormed(contributions, n) && i < n
  {
    KeyShare(i + 1, SumScalars(Received(contributions, n, i)), SumPoints(ConstantCommitments(contributions, n)),
             VerificationShares(contributions, n))
  }

  /** Steps 2 and 3, for whatever the dealers sent: a share that fails its check aborts the ceremony, otherwise
      the shares are summed up. */
  method Conclude(n: u32, contributions: seq<DkgContribution>) returns (r: Result<seq<KeyShare>>)
    requires WellFormed(contributions, n)
    ensures AllSharesMatch(contributions, n) ==> r == Ok(KeysOn(SumPolys(CommittedPolys(contributions)), n))
    ensures !AllSharesMatch(contributions, n) ==>
      r.Err? && r.error.InvalidShare? && FirstRejecting(contributions, n, r.error.index)
  {
    hide ShareMatches;
    for i := 0 to n
      invariant forall k, d :: 0 <= k < i && 0 <= d < |contributions| ==>
        ShareMatches(k + 1, contributions[d].shares[k].1, contributions[d].commitments)
    {
      for d := 0 to |contributions|
        invariant forall e :: 0 <= e < d ==>
          ShareMatches(i + 1, contributions[e].shares[i].1, contributions[e].commitments)
      {
        var checked := VerifyShare(i + 1, contributions[d].shares[i].1, contributions[d].commitments);
        if checked.Err? {
          return Err(checked.error);
        }
      }
    }

    var groupPublicKey := SumPoints(ConstantCommitments(contributions, n));
    var keyShares := [];
    for i := 0 to n
      invariant |keyShares| == i
      invariant forall k :: 0 <= k < i ==> keyShares[k] == CombinedKey(contributions, n, k)
    {
      var secret := SumScalars(Received(contributions, n, i));
      var verificationShares := VerificationShares(contributions, n);
      keyShares := keyShares + [KeyShare(i + 1, secret, groupPublicKey, verificationShares)];
    }
    assert keyShares == CombinedKeys(contributions, n);
    AcceptedCeremony(contributions, n);
    r := Ok(keyShares);
  }

  /** The ceremony of honest dealers never fails, and the shares lie on the sum of the dealers' polynomials. */
  method RunDkg(config: ThresholdConfig, rng: Rng) returns (r: Result<seq<KeyShare>>)
    requires config.threshold >= 1
    modifies rng
    ensures rng.drawn == old(rng.drawn) + config.total * config.threshold
    ensures var polys := DealerPolys(rng.tape, old(rng.drawn), config.threshold, config.total);
            r == Ok(KeysOn(SumPolys(polys), config.total))
  {
    ghost var polys := DealerPolys(rng.tape, rng.drawn, config.threshold, config.total);
    var contributions := Deal(config.threshold, config.total, rng);
    HonestCeremony(polys, config.total);
    r := Conclude(config.total, contributions);
  }

  /** The polynomials behind the published commitments. */
  function CommittedPolys(contributions: seq<DkgContribution>): (polys: seq<Polynomial>)
    ensures |polys| == |contributions|
  {
    seq(|contributions|, i requires 0 <= i < |contributions| => Polynomial(Logs(contributions[i].commitments)))
  }

  /** Whoever dealt: once every share passed its check, the combined keys lie on the sum of the committed
      polynomials, so all participants agree on the group key and on all verification shares. */
  lemma {:induction false} AcceptedCeremony(contributions: seq<DkgContribution>, n: u32)
    requires WellFormed(contributions, n) && AllSharesMatch(contributions, n)
    ensures CombinedKeys(contributions, n) == KeysOn(SumPolys(CommittedPolys(contributions)), n)
  {
    hide ShareMatches, SumPolys, CombinedKey, KeyOn;
    forall i | 0 <= i < n
      ensures CombinedKeys(contributions, n)[i] == KeysOn(SumPolys(CommittedPolys(contributions)), n)[i]
    {
      AcceptedShare(contributions, n, i);
    }
  }

  /** What a receiver got is what the dealers committed to. */
  lemma {:induction false} ReceivedAreEvaluations(contributions: seq<DkgContribution>, n: u32, i: nat)
    requires WellFormed(contributions, n) && AllSharesMatch(contributions, n) && i < n
    ensures Received(contributions, n, i) == Evaluations(CommittedPolys(contributions), i + 1)
  {
    hide Reduce, Eval;
    forall d | 0 <= d < |contributions|
      ensures Received(contributions, n, i)[d] == Evaluations(CommittedPolys(contributions), i + 1)[d]
    {
      assert ShareMatches(i + 1, contributions[d].shares[i].1, contributions[d].commitments);
      TimesG(contributions[d].shares[i].1);
    }
  }

  lemma {:induction false} AcceptedShare(contributions: seq<DkgContribution>, n: u32, i: nat)
    requires WellFormed(contributions, n) && AllSharesMatch(contributions, n) && i < n
    ensures CombinedKey(contributions, n, i) == KeyOn(SumPolys(CommittedPolys(contributions)), n, i + 1)
  {
    hide Reduce, Eval, SumPolys, SumScalars, SumPoints;
    var polys := CommittedPolys(contributions);
    ReceivedAreEvaluations(contributions, n, i);
    SumOfEvaluations(polys, i + 1);
    GroupKeyCommitsToSecret(contributions, n);
    forall j | 0 <= j < n
      ensures VerificationShares(contributions, n)[j] == VerificationSharesOn(SumPolys(polys), n)[j]
    {
      VerificationShareIsExact(contributions, j + 1);
    }
  }

  lemma {:induction false} GroupKeyCommitsToSecret(contributions: seq<DkgContribution>, n: u32)
    requires WellFormed(contributions, n)
    ensures SumPoints(ConstantCommitments(contributions, n))
         == Point(Reduce(Eval(SumPolys(CommittedPolys(contributions)), 0)))
  {
    hide Reduce, Eval;
    var polys, firsts := CommittedPolys(contributions), ConstantCommitments(contributions, n);
    forall k | 0 <= k < |polys|
      ensures Logs(firsts)[k] == Evaluations(polys, 0)[k]
    {
      EvalAtZero(polys[k].coefficients);
    }
    assert Logs(firsts) == Evaluations(polys, 0);
    SumPointsLog(firsts);
    SumOfEvaluations(polys, 0);
  }

  lemma {:induction false} VerificationShareIsExact(contributions: seq<DkgContribution>, x: Scalar)
    ensures SumPoints(CommitmentsAt(contributions, x))
         == Point(Reduce(Eval(SumPolys(CommittedPolys(contributions)), x)))
  {
    hide Reduce, Eval;
    var polys, points := CommittedPolys(contributions), CommitmentsAt(contributions, x);
    assert Logs(points) == Evaluations(polys, x);
    SumPointsLog(points);
    SumOfEvaluations(polys, x);
  }

  /** Honest dealers pass every check, and what they committed to are their polynomials. */
  lemma {:induction false} HonestCeremony(polys: seq<Polynomial>, n: u32)
    requires |polys| < U32_LIMIT
    requires forall k :: 0 <= k < |polys| ==> polys[k].coefficients != []
    ensures WellFormed(Contributions(polys, n), n) && AllSharesMatch(Contributions(polys, n), n)
    ensures CommittedPolys(Contributions(polys, n)) == polys
    ensures forall d :: 0 <= d < |polys| ==> Contributions(polys, n)[d].index == d + 1
    ensures forall d, j :: 0 <= d < |polys| && 0 <= j < n ==> Contributions(polys, n)[d].shares[j].0 == j + 1
  {
    hide ShareMatches, Logs;
    var cs := Contributions(polys, n);
    forall i, d | 0 <= i < n && 0 <= d < |cs|
      ensures ShareMatches(i + 1, cs[d].shares[i].1, cs[d].commitments)
    {
      ShareCheckIsExact(i + 1, polys[d].At(i + 1), polys[d]);
    }
    forall d | 0 <= d < |cs|
      ensures CommittedPolys(cs)[d] == polys[d]
    {
      LogsOfCommit(polys[d].coefficients);
    }
  }
}
