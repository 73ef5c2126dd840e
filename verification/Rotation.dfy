/** Proactive rotation of key shares (crates/dkg/src/rotation.rs), over any number of epochs. */
module Rotation {
  import opened Core
  import opened Scalars
  import opened Sums
  import opened Polynomials
  import opened Lagrange
  import opened Feldman

  /** The first verification share filed under an index. */
  function FindVerificationShare(shares: seq<(u32, Point)>, index: u32): Option<Point> {
    if shares == [] then None
    else if shares[0].0 == index then Some(shares[0].1)
    else FindVerificationShare(shares[1..], index)
  }

  /** The code indexes and unwraps its way through the old shares: there must be one at least, and each must
      hold its own verification share. */
  predicate Rotatable(oldShares: seq<KeyShare>) {
    0 < |oldShares| < U32_LIMIT &&
    forall j :: 0 <= j < |oldShares| ==> FindVerificationShare(oldShares[j].verificationShares, j + 1).Some?
  }

  function RotatedVerificationShares(oldShares: seq<KeyShare>, contributions: seq<DkgContribution>)
      : (v: seq<(u32, Point)>)
    requires Rotatable(oldShares) && WellFormed(contributions, |oldShares|)
    ensures |v| == |oldShares|
  {
    seq(|oldShares|, j requires 0 <= j < |oldShares| =>
      (j + 1, AddPoints(FindVerificationShare(oldShares[j].verificationShares, j + 1).value,
                        Times(G, SumScalars(Received(contributions, |oldShares|, j))))))
  }

  function RotatedKey(oldShares: seq<KeyShare>, contributions: seq<DkgContribution>, i: nat): KeyShare
    requires Rotatable(oldShares) && WellFormed(contributions, |oldShares|) && i < |oldShares|
  {
    KeyShare(i + 1, Add(oldShares[i].secret, SumScalars(Received(contributions, |oldShares|, i))),
             oldShares[0].groupPublicKey, RotatedVerificationShares(oldShares, contributions))
  }

  function RotatedKeys(oldShares: seq<KeyShare>, contributions: seq<DkgContribution>): (keys: seq<KeyShare>)
    requires Rotatable(oldShares) && WellFormed(contributions, |oldShares|)
    ensures |keys| == |oldShares|
  {
    seq(|oldShares|, i requires 0 <= i < |oldShares| => RotatedKey(oldShares, contributions, i))
  }

  /** The polynomials of one rotation: t coefficients each, the constant term zero, the others drawn. */
  function ZeroPolys(tape: nat -> Scalar, start: nat, t: nat, n: nat): (polys: seq<Polynomial>)
    requires t >= 1
    ensures |polys| == n && forall i :: 0 <= i < n ==> |polys[i].coefficients| == t
    ensures ZeroConstants(polys)
  {
    seq(n, i requires 0 <= i < n => Polynomial([0] + Draws(tape, start + i * (t - 1), t - 1)))
  }

  ghost predicate ZeroConstants(polys: seq<Polynomial>) {
    forall i :: 0 <= i < |polys| ==> polys[i].coefficients != [] && polys[i].coefficients[0] == 0
  }

  method DealZeroShares(t: u32, n: u32, rng: Rng) returns (contributions: seq<DkgContribution>)
    requires t >= 1
    modifies rng
    ensures contributions == Contributions(ZeroPolys(rng.tape, old(rng.drawn), t, n), n)
    ensures rng.drawn == old(rng.drawn) + n * (t - 1)
  {
    hide Contribution;
    ghost var start := rng.drawn;
    ghost var polys := ZeroPolys(rng.tape, start, t, n);
    contributions := [];
    for i := 0 to n
      invariant rng.drawn == start + i * (t - 1)
      invariant |contributions| == i
      invariant forall k :: 0 <= k < i ==> contributions[k] == Contribution(k + 1, polys[k], n)
    {
      var poly := Polynomial.Random(t - 1, 0, rng);
      assert poly == polys[i];
      contributions := contributions + [Contribution(i + 1, poly, n)];
    }
  }

  /** Checking the zero-shares and adding them up, for whatever was sent. */
  method ApplyRotation(oldShares: seq<KeyShare>, contributions: seq<DkgContribution>)
      returns (r: Result<seq<KeyShare>>)
    requires 0 < |oldShares| < U32_LIMIT && WellFormed(contributions, |oldShares|)
    ensures !AllSharesMatch(contributions, |oldShares|) ==>
      r.Err? && r.error.InvalidShare? && FirstRejecting(contributions, |oldShares|, r.error.index)
    ensures AllSharesMatch(contributions, |oldShares|) ==>
      r == if Rotatable(oldShares) then Ok(RotatedKeys(oldShares, contributions)) else Err(Panic)
  {
    hide ShareMatches;
    var n := |oldShares|;
    for i := 0 to n
      invariant forall k, d :: 0 <= k < i && 0 <= d < |contributions| ==>
        ShareMatches(k + 1, contributions[d].shares[k].1, contributions[d].commitments)
    {
      for d := 0 to |contributions|
        invariant forall e :: 0 <= e < d ==>
          ShareMatches(i + 1, contributions[e].shares[i].1, contributions[e].commitments)
      {
        var checked := VerifyShare(i + 1, contributions[d].shares[i].1, contributions[d].commitments);
        if checked.Err? {
          return Err(checked.error);
        }
      }
    }

    if !Rotatable(oldShares) {
      return Err(Panic);
    }
    var newShares := [];
    for i := 0 to n
      invariant |newShares| == i
      invariant forall k :: 0 <= k < i ==> newShares[k] == RotatedKey(oldShares, contributions, k)
    {
      var delta := SumScalars(Received(contributions, n, i));
      var newSecret := Add(oldShares[i].secret, delta);
      newShares := newShares + [KeyShare(i + 1, newSecret, oldShares[0].groupPublicKey,
                                         RotatedVerificationShares(oldShares, contributions))];
    }
    assert newShares == RotatedKeys(oldShares, contributions);
    r := Ok(newShares);
  }

  /** One rotation with the given zero-polynomials. */
  function RotateStep(oldShares: seq<KeyShare>, polys: seq<Polynomial>): Result<seq<KeyShare>>
    requires |polys| == |oldShares| && ZeroConstants(polys)
  {
    if !Rotatable(oldShares) then Err(Panic)
    else
      ContributionsWellFormed(polys, |oldShares|);
      Ok(RotatedKeys(oldShares, Contributions(polys, |oldShares|)))
  }

  method RotateShares(oldShares: seq<KeyShare>, newConfig: ThresholdConfig, rng: Rng)
      returns (r: Result<seq<KeyShare>>)
    requires newConfig.threshold >= 1 && |oldShares| < U32_LIMIT
    modifies rng
    ensures r == RotateStep(oldShares, ZeroPolys(rng.tape, old(rng.drawn), newConfig.threshold, |oldShares|))
    ensures rng.drawn == old(rng.drawn) + |oldShares| * (newConfig.threshold - 1)
  {
    if |oldShares| == 0 {
      return Err(Panic);
    }
    ghost var polys := ZeroPolys(rng.tape, rng.drawn, newConfig.threshold, |oldShares|);
    var contributions := DealZeroShares(newConfig.threshold, |oldShares|, rng);
    HonestCeremony(polys, |oldShares|);
    r := ApplyRotation(oldShares, contributions);
  }

  // What a rotation does to shares that lie on a polynomial.

  lemma {:induction false} FindAt(shares: seq<(u32, Point)>, index: u32, j: nat)
    requires j < |shares| && shares[j].0 == index
    requires forall k :: 0 <= k < j ==> shares[k].0 != index
    ensures FindVerificationShare(shares, index) == Some(shares[j].1)
  {
    if j == 0 {
    } else {
      FindAt(shares[1..], index, j - 1);
    }
  }

  /** The verification share found is the first one filed under the index, and none is found iff there is none. */
  lemma {:induction false} FindsFirst(shares: seq<(u32, Point)>, index: u32)
    ensures FindVerificationShare(shares, index) == None <==> forall k :: 0 <= k < |shares| ==> shares[k].0 != index
    ensures FindVerificationShare(shares, index).Some? ==>
      exists j :: 0 <= j < |shares| && shares[j] == (index, FindVerificationShare(shares, index).value)
                  && forall k :: 0 <= k < j ==> shares[k].0 != index
  {
    if i :| 0 <= i < |shares| && shares[i].0 == index {
      var j := FirstIndex(shares, index, i);
    } else {
      NoIndex(shares, index);
    }
  }

  /** Old shares can be rotated iff there are some and each participant's share lists a verification share for it. */
  lemma {:induction false} RotatableExactly(oldShares: seq<KeyShare>)
    ensures Rotatable(oldShares) <==>
      0 < |oldShares| < U32_LIMIT && forall j :: 0 <= j < |oldShares| ==> ListsIndex(oldShares[j], j + 1)
  {
    hide FindVerificationShare;
    forall j | 0 <= j < |oldShares| < U32_LIMIT
      ensures FindVerificationShare(oldShares[j].verificationShares, j + 1).Some? <==> ListsIndex(oldShares[j], j + 1)
    {
      FindsFirst(oldShares[j].verificationShares, j + 1);
    }
  }

  ghost predicate ListsIndex(key: KeyShare, index: int) {
    exists k :: 0 <= k < |key.verificationShares| && key.verificationShares[k].0 == index
  }

  lemma {:induction false} FirstIndex(shares: seq<(u32, Point)>, index: u32, i: nat) returns (j: nat)
    requires i < |shares| && shares[i].0 == index
    ensures j < |shares| && shares[j].0 == index && forall k :: 0 <= k < j ==> shares[k].0 != index
    ensures FindVerificationShare(shares, index) == Some(shares[j].1)
  {
    j := 0;
    while shares[j].0 != index
      invariant j <= i && forall k :: 0 <= k < j ==> shares[k].0 != index
      decreases i - j
    {
      j := j + 1;
    }
    FindAt(shares, index, j);
  }

  lemma {:induction false} NoIndex(shares: seq<(u32, Point)>, index: u32)
    requires forall k :: 0 <= k < |shares| ==> shares[k].0 != index
    ensures FindVerificationShare(shares, index) == None
  {
    if shares == [] {
    } else {
      NoIndex(shares[1..], index);
    }
  }

  /** For old shares that lie on no common polynomial too: if each participant's own verification share is its secret
      times G, so is every verification share afterwards; the group key is the first share's. */
  lemma {:induction false} RotationKeepsVerificationShares(oldShares: seq<KeyShare>,
                                                           contributions: seq<DkgContribution>)
    requires Rotatable(oldShares) && WellFormed(contributions, |oldShares|)
    requires forall j :: 0 <= j < |oldShares| ==>
      FindVerificationShare(oldShares[j].verificationShares, j + 1) == Some(Times(G, oldShares[j].secret))
    ensures var keys := RotatedKeys(oldShares, contributions);
            forall i, j :: 0 <= i < |keys| && 0 <= j < |keys| ==>
              |keys[i].verificationShares| == |keys| && keys[i].index == i + 1
              && keys[i].groupPublicKey == oldShares[0].groupPublicKey
              && keys[i].verificationShares[j] == (j + 1, Times(G, keys[j].secret))
  {
    hide Reduce, SumScalars, FindVerificationShare;
    var keys := RotatedKeys(oldShares, contributions);
    forall j | 0 <= j < |keys|
      ensures RotatedVerificationShares(oldShares, contributions)[j] == (j + 1, Times(G, keys[j].secret))
    {
      TimesG(oldShares[j].secret);
      TimesG(SumScalars(Received(contributions, |oldShares|, j)));
      TimesG(keys[j].secret);
    }
  }

  lemma {:induction false} KeysOnRotatable(f: seq<int>, n: u32)
    requires n >= 1
    ensures Rotatable(KeysOn(f, n))
    ensures forall j :: 0 <= j < n ==>
      FindVerificationShare(KeysOn(f, n)[j].verificationShares, j + 1) == Some(Point(Reduce(Eval(f, j + 1))))
  {
    hide Reduce, Eval;
    forall j | 0 <= j < n
      ensures FindVerificationShare(KeysOn(f, n)[j].verificationShares, j + 1)
           == Some(Point(Reduce(Eval(f, j + 1))))
    {
      FindAt(VerificationSharesOn(f, n), j + 1, j);
    }
  }

  lemma {:induction false} ZeroPolysVanishAtZero(polys: seq<Polynomial>)
    requires ZeroConstants(polys)
    ensures Eval(SumPolys(polys), 0) == 0
  {
    if polys == [] {
      assert Eval([], 0) == 0;
    } else {
      ZeroPolysVanishAtZero(polys[1..]);
      EvalAddPoly(polys[0].coefficients, SumPolys(polys[1..]), 0);
      EvalAtZero(polys[0].coefficients);
    }
  }

  lemma {:induction false} ReducedSum(f: seq<int>, g: seq<int>, x: int)
    ensures Add(Reduce(Eval(f, x)), Reduce(Eval(g, x))) == Reduce(Eval(AddPoly(f, g), x))
  {
    hide Reduce, Eval;
    EvalAddPoly(f, g, x);
    CongAdd(Reduce(Eval(f, x)), Eval(f, x), Reduce(Eval(g, x)), Eval(g, x));
  }

  /** Participant i's share when the secrets lie on g and the group key is still that of f. */
  function ShiftedKey(f: seq<int>, g: seq<int>, n: u32, i: u32): KeyShare {
    KeyShare(i, Reduce(Eval(g, i)), Point(Reduce(Eval(f, 0))), VerificationSharesOn(g, n))
  }

  /** Whoever dealt: once the zero-shares passed their checks, shares on f have become shares on f plus the sum of
      the committed polynomials. */
  lemma {:induction false} AcceptedRotation(f: seq<int>, n: u32, contributions: seq<DkgContribution>, i: nat)
    requires WellFormed(contributions, n) && AllSharesMatch(contributions, n) && i < n
    requires Rotatable(KeysOn(f, n))
    ensures RotatedKey(KeysOn(f, n), contributions, i)
         == ShiftedKey(f, AddPoly(f, SumPolys(CommittedPolys(contributions))), n, i + 1)
  {
    hide Reduce, Eval, SumPolys, SumScalars, AddPoly, FindVerificationShare, Rotatable, AllSharesMatch;
    var keys, z := KeysOn(f, n), SumPolys(CommittedPolys(contributions));
    KeysOnRotatable(f, n);
    forall j | 0 <= j < n
      ensures SumScalars(Received(contributions, n, j)) == Reduce(Eval(z, j + 1))
    {
      ReceivedAreEvaluations(contributions, n, j);
      SumOfEvaluations(CommittedPolys(contributions), j + 1);
    }
    ReducedSum(f, z, i + 1);
    var moved := RotatedVerificationShares(keys, contributions);
    forall j | 0 <= j < n
      ensures moved[j] == VerificationSharesOn(AddPoly(f, z), n)[j]
    {
      ReducedSum(f, z, j + 1);
      TimesG(Reduce(Eval(z, j + 1)));
    }
    assert moved == VerificationSharesOn(AddPoly(f, z), n);
  }

  /** Shares on f, rotated, are shares on f plus the sum of the zero-polynomials; the group key stays. */
  lemma {:induction false} RotationMovesPolynomial(f: seq<int>, n: u32, polys: seq<Polynomial>)
    requires n >= 1 && |polys| == n && ZeroConstants(polys)
    ensures RotateStep(KeysOn(f, n), polys) == Ok(KeysOn(AddPoly(f, SumPolys(polys)), n))
    ensures Eval(AddPoly(f, SumPolys(polys)), 0) == Eval(f, 0)
  {
    hide Reduce, Eval, SumPolys, RotatedKey;
    var keys, g, cs := KeysOn(f, n), AddPoly(f, SumPolys(polys)), Contributions(polys, n);
    ZeroPolysVanishAtZero(polys);
    EvalAddPoly(f, SumPolys(polys), 0);
    KeysOnRotatable(f, n);
    HonestCeremony(polys, n);
    forall i | 0 <= i < n
      ensures RotatedKey(keys, cs, i) == KeyOn(g, n, i + 1)
    {
      AcceptedRotation(f, n, cs, i);
    }
    assert RotatedKeys(keys, cs) == KeysOn(g, n);
  }

  // Whole runs.

  /** The zero-polynomials of a run of rotations in a group of n: one list for each epoch. */
  ghost predicate Rotations(epochs: seq<seq<Polynomial>>, n: nat) {
    forall e :: 0 <= e < |epochs| ==> |epochs[e]| == n && ZeroConstants(epochs[e])
  }

  /** Any number of rotations, one after the other; a panic ends the run. */
  function RotateRun(keys: seq<KeyShare>, epochs: seq<seq<Polynomial>>): Result<seq<KeyShare>>
    requires Rotations(epochs, |keys|)
    decreases |epochs|
  {
    if epochs == [] then Ok(keys)
    else
      match RotateStep(keys, epochs[0])
      case Ok(rotated) => RotateRun(rotated, epochs[1..])
      case Err(e) => Err(e)
  }

  /** Everything that a run adds to the sharing polynomial. */
  function AddedBy(epochs: seq<seq<Polynomial>>): seq<int>
    decreases |epochs|
  {
    if epochs == [] then [] else AddPoly(SumPolys(epochs[0]), AddedBy(epochs[1..]))
  }

  /** The sharing polynomial after a run. */
  function PolynomialAfter(f: seq<int>, epochs: seq<seq<Polynomial>>): seq<int> {
    AddPoly(f, AddedBy(epochs))
  }

  /** A run of rotations never fails; the shares stay on one polynomial, whose constant term, the group secret,
      never changes. */
  lemma {:induction false} RunMovesPolynomial(f: seq<int>, n: u32, epochs: seq<seq<Polynomial>>)
    requires n >= 1 && Rotations(epochs, n)
    ensures RotateRun(KeysOn(f, n), epochs) == Ok(KeysOn(PolynomialAfter(f, epochs), n))
    ensures Eval(PolynomialAfter(f, epochs), 0) == Eval(f, 0)
    decreases |epochs|
  {
    hide Eval, SumPolys, RotateStep;
    if epochs == [] {
      assert PolynomialAfter(f, epochs) == f;
    } else {
      var g := AddPoly(f, SumPolys(epochs[0]));
      RotationMovesPolynomial(f, n, epochs[0]);
      RunMovesPolynomial(g, n, epochs[1..]);
      AddPolyAssociative(f, SumPolys(epochs[0]), AddedBy(epochs[1..]));
    }
  }

  /** With any thresholds, the length of the sharing polynomial is bounded by the largest one seen. */
  lemma {:induction false} RunKeepsSharing(f: seq<int>, n: u32, epochs: seq<seq<Polynomial>>, t: nat)
    requires n >= 1 && |f| <= t && Rotations(epochs, n)
    requires forall e, i :: 0 <= e < |epochs| && 0 <= i < n ==> |epochs[e][i].coefficients| <= t
    ensures RotateRun(KeysOn(f, n), epochs) == Ok(KeysOn(PolynomialAfter(f, epochs), n))
    ensures Eval(PolynomialAfter(f, epochs), 0) == Eval(f, 0)
    ensures |PolynomialAfter(f, epochs)| <= t
  {
    RunMovesPolynomial(f, n, epochs);
    AddedByBounded(epochs, n, t);
  }

  lemma {:induction false} AddedByBounded(epochs: seq<seq<Polynomial>>, n: nat, t: nat)
    requires Rotations(epochs, n)
    requires forall e, i :: 0 <= e < |epochs| && 0 <= i < n ==> |epochs[e][i].coefficients| <= t
    ensures |AddedBy(epochs)| <= t
    decreases |epochs|
  {
    if epochs == [] {
    } else {
      SumPolysBounded(epochs[0], t);
      AddedByBounded(epochs[1..], n, t);
    }
  }

  lemma {:induction false} AddedVanishesAtZero(epochs: seq<seq<Polynomial>>, n: nat)
    requires Rotations(epochs, n)
    ensures Eval(AddedBy(epochs), 0) == 0
    decreases |epochs|
  {
    if epochs == [] {
      EvalEmpty(0);
    } else {
      ZeroPolysVanishAtZero(epochs[0]);
      AddedVanishesAtZero(epochs[1..], n);
      EvalAddPoly(SumPolys(epochs[0]), AddedBy(epochs[1..]), 0);
    }
  }

  lemma {:induction false} SumPolysBounded(polys: seq<Polynomial>, t: nat)
    requires forall i :: 0 <= i < |polys| ==> |polys[i].coefficients| <= t
    ensures |SumPolys(polys)| <= t
  {
    if polys == [] {
    } else {
      SumPolysBounded(polys[1..], t);
    }
  }
}
