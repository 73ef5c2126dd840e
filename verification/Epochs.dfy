/** Signing across ceremonies and epochs: keys from a DKG, keys after any run of rotations, shares of different
    epochs mixed, thresholds raised and lowered (crates/dkg/src/feldman.rs, crates/dkg/src/rotation.rs). */
module Epochs {
  import opened Core
  import opened Scalars
  import opened Sums
  import opened Polynomials
  import opened Lagrange
  import opened Feldman
  import opened Rotation
  import opened Frost
  import opened FrostCorrectness

  /** The signers are distinct members of a group, each with a nonce for its own index. */
  ghost predicate SignersFrom(s: Session, keys: seq<KeyShare>) {
    |s.keys| == |s.nonces| && Distinct(s.Indices()) &&
    forall k :: 0 <= k < |s.keys| ==>
      s.nonces[k].index == s.keys[k].index && IsMember(s.keys[k], keys)
  }

  ghost predicate IsMember(key: KeyShare, keys: seq<KeyShare>) {
    1 <= key.index <= |keys| && key == keys[key.index - 1]
  }

  lemma {:induction false} MemberIsOn(key: KeyShare, f: seq<int>, n: u32)
    requires IsMember(key, KeysOn(f, n))
    ensures key == KeyOn(f, n, key.index)
  {
  }

  lemma {:induction false} MembersShareOn(s: Session, f: seq<int>, n: u32)
    requires SignersFrom(s, KeysOn(f, n))
    ensures SharesOn(s, f, n) && 0 !in s.Indices()
  {
    hide Reduce, Eval;
    forall k | 0 <= k < |s.keys|
      ensures s.keys[k] == KeyOn(f, n, s.keys[k].index) && s.Indices()[k] != 0
    {
      assert IsMember(s.keys[k], KeysOn(f, n));
    }
  }

  /** Any t members of a group with a t-coefficient sharing polynomial sign validly under the group key. */
  lemma {:induction false} MembersSign(s: Session, f: seq<int>, n: u32)
    requires SignersFrom(s, KeysOn(f, n)) && |f| <= |s.keys|
    ensures Verify(s.crypto, s.Signature(), Point(Reduce(Eval(f, 0))), s.message).Ok?
  {
    hide Reduce, Eval;
    MembersShareOn(s, f, n);
    SigningIsCorrect(s, f, n);
  }

  /** Any number of members, exactly. */
  lemma {:induction false} MembersSignExactly(s: Session, f: seq<int>, n: u32)
    requires SignersFrom(s, KeysOn(f, n))
    ensures var key := Point(Reduce(Eval(f, 0)));
            Verify(s.crypto, s.Signature(), key, s.message).Ok? <==>
            s.ChallengeFor(key) == 0 || Cong(Eval(QuotientAll(f, s.Indices()), 0), 0)
  {
    hide Reduce, Eval, Verify, Challenge;
    MembersShareOn(s, f, n);
    SignersAreExact(s, f, n);
  }

  /** From a ceremony, with whatever dealers, through any run of rotations: the ceremony's group key is in every
      share, every verification share is the secret share times G, and any signers numbering at least the largest
      threshold so far sign validly under the group key. */
  lemma {:induction false} GroupSignsInEveryEpoch(contributions: seq<DkgContribution>, epochs: seq<seq<Polynomial>>,
                                                  n: u32, t: nat, keys: seq<KeyShare>, s: Session)
    requires n >= 1 && WellFormed(contributions, n) && AllSharesMatch(contributions, n)
    requires forall d :: 0 <= d < |contributions| ==> |contributions[d].commitments| <= t
    requires Rotations(epochs, n)
    requires forall e, i :: 0 <= e < |epochs| && 0 <= i < n ==> |epochs[e][i].coefficients| <= t
    requires RotateRun(CombinedKeys(contributions, n), epochs) == Ok(keys)
    requires SignersFrom(s, keys) && t <= |s.keys|
    ensures var groupKey := SumPoints(ConstantCommitments(contributions, n));
            |keys| == n && (forall j :: 0 <= j < n ==> keys[j].groupPublicKey == groupKey)
            && (forall i, j :: 0 <= i < n && 0 <= j < n ==>
                  |keys[i].verificationShares| == n
                  && keys[i].verificationShares[j] == (j + 1, Times(G, keys[j].secret)))
            && Verify(s.crypto, s.Signature(), groupKey, s.message).Ok?
  {
    hide Reduce, Eval, SumPolys, Verify, RotateRun, CombinedKeys, ConstantCommitments, SumPoints, AllSharesMatch,
         PolynomialAfter, SignersFrom, Session.Signature;
    var f := SumPolys(CommittedPolys(contributions));
    AcceptedCeremony(contributions, n);
    GroupKeyCommitsToSecret(contributions, n);
    SumPolysBounded(CommittedPolys(contributions), t);
    RunKeepsSharing(f, n, epochs, t);
    MembersSign(s, PolynomialAfter(f, epochs), n);
    VerificationSharesAreExact(PolynomialAfter(f, epochs), n);
  }

  lemma {:induction false} VerificationSharesAreExact(f: seq<int>, n: u32)
    ensures var keys := KeysOn(f, n);
            forall i, j :: 0 <= i < n && 0 <= j < n ==>
              |keys[i].verificationShares| == n
              && keys[i].verificationShares[j] == (j + 1, Times(G, keys[j].secret))
  {
    hide Reduce, Eval;
    forall j | 0 <= j < n
      ensures VerificationSharesOn(f, n)[j] == (j + 1, Times(G, KeysOn(f, n)[j].secret))
    {
      TimesG(Reduce(Eval(f, j + 1)));
    }
  }

  /** After any run of rotations, with thresholds raised or lowered in any order, any number of members: what
      decides is the sharing polynomial after the run. */
  lemma {:induction false} RunSignsExactly(f: seq<int>, n: u32, epochs: seq<seq<Polynomial>>, keys: seq<KeyShare>,
                                           s: Session)
    requires n >= 1 && Rotations(epochs, n)
    requires RotateRun(KeysOn(f, n), epochs) == Ok(keys) && SignersFrom(s, keys)
    ensures var key := Point(Reduce(Eval(f, 0)));
            Verify(s.crypto, s.Signature(), key, s.message).Ok? <==>
            s.ChallengeFor(key) == 0 || Cong(Eval(QuotientAll(PolynomialAfter(f, epochs), s.Indices()), 0), 0)
  {
    hide Reduce, Eval, Verify, Challenge, RotateRun, PolynomialAfter;
    RunMovesPolynomial(f, n, epochs);
    MembersSignExactly(s, PolynomialAfter(f, epochs), n);
  }

  // Mixed epochs.

  /** What the rotations up to its own epoch have added to each signer's secret. */
  function Deltas(indices: seq<u32>, epochs: seq<seq<Polynomial>>, at: seq<nat>): (d: seq<int>)
    requires |indices| == |at| && forall k :: 0 <= k < |at| ==> at[k] <= |epochs|
    ensures |d| == |indices|
  {
    seq(|indices|, k requires 0 <= k < |indices| => Eval(AddedBy(epochs[..at[k]]), indices[k]))
  }

  /** Signer k holds a share as it was after the first at[k] rotations of the run. */
  ghost predicate MixedSigners(s: Session, f: seq<int>, n: u32, epochs: seq<seq<Polynomial>>, at: seq<nat>)
    requires Rotations(epochs, n)
  {
    |s.keys| == |s.nonces| == |at| && Distinct(s.Indices()) &&
    forall k :: 0 <= k < |s.keys| ==>
      s.nonces[k].index == s.keys[k].index && at[k] <= |epochs| && HoldsEpoch(s.keys[k], f, n, epochs[..at[k]])
  }

  ghost predicate HoldsEpoch(key: KeyShare, f: seq<int>, n: u32, epochs: seq<seq<Polynomial>>)
    requires Rotations(epochs, n)
  {
    var r := RotateRun(KeysOn(f, n), epochs);
    r.Ok? && IsMember(key, r.value)
  }

  lemma {:induction false} EpochSecret(key: KeyShare, f: seq<int>, n: u32, epochs: seq<seq<Polynomial>>)
    requires n >= 1 && Rotations(epochs, n) && HoldsEpoch(key, f, n, epochs)
    ensures Cong(key.secret, Eval(f, key.index) + Eval(AddedBy(epochs), key.index))
    ensures key.groupPublicKey == Point(Reduce(Eval(f, 0)))
  {
    hide Reduce, Eval, AddPoly, RotateRun;
    RunMovesPolynomial(f, n, epochs);
    MemberIsOn(key, PolynomialAfter(f, epochs), n);
    EvalAddPoly(f, AddedBy(epochs), key.index);
  }

  /** When each signer uses a share of its own epoch, the aggregate verifies iff the challenge is zero or the signers'
      deltas interpolate at zero to what the indices miss of the original polynomial: to zero, if there are enough
      signers. */
  lemma {:induction false} MixedEpochsExact(s: Session, f: seq<int>, n: u32, epochs: seq<seq<Polynomial>>,
                                            at: seq<nat>)
    requires n >= 1 && Rotations(epochs, n) && MixedSigners(s, f, n, epochs, at)
    ensures var key := Point(Reduce(Eval(f, 0)));
            Verify(s.crypto, s.Signature(), key, s.message).Ok? <==>
            s.ChallengeFor(key) == 0
            || Cong(AtZero(s.Indices(), Deltas(s.Indices(), epochs, at)), Miss(f, s.Indices()))
    ensures |f| <= |s.keys| ==> Miss(f, s.Indices()) == 0
  {
    hide Reduce, Eval, Verify, Challenge, AtZero, Rho, SignPartial, HoldsEpoch, AddedBy, Miss;
    var key, ids := Point(Reduce(Eval(f, 0))), s.Indices();
    var deltas := Deltas(ids, epochs, at);
    var sums := seq(|ids|, k requires 0 <= k < |ids| => Values(f, ids)[k] + 1 * deltas[k]);
    forall k | 0 <= k < |ids|
      ensures Cong(s.Secrets()[k], sums[k]) && s.keys[k].groupPublicKey == key
    {
      EpochSecret(s.keys[k], f, n, epochs[..at[k]]);
      assert ids[k] == s.keys[k].index && Values(f, ids)[k] == Eval(f, ids[k]);
      assert sums[k] == Values(f, ids)[k] + deltas[k];
    }
    AtZeroCong(ids, s.Secrets(), sums);
    AtZeroLinear(ids, Values(f, ids), deltas, 1, sums);
    DeviationIsExact(f, ids);
    AlignedSessionIsExact(s, key, key);
    DeltasDecide(s.ChallengeFor(key), AtZero(ids, s.Secrets()), AtZero(ids, Values(f, ids)), AtZero(ids, deltas),
                 Eval(f, 0), Miss(f, ids));
  }

  lemma {:induction false} DeltasDecide(c: Scalar, a: int, v: int, d: int, secret: int, miss: int)
    requires Cong(a, v + d) && Cong(v - secret, 0 - miss)
    ensures Cong(c * a, c * Reduce(secret)) <==> c == 0 || Cong(d, miss)
  {
    hide Reduce;
    CongAdd(a, v + d, Reduce(secret), secret);
    CongAdd(v - secret, 0 - miss, d, d);
    ProductsDiffer(c, a, Reduce(secret), d - miss);
    CongDifference(d, miss);
  }

  /** All signers in one epoch, whichever it is: the deltas interpolate to zero up to what the indices miss of the
      polynomials added so far. */
  lemma {:induction false} UniformEpochsCancel(indices: seq<u32>, n: nat, epochs: seq<seq<Polynomial>>, e: nat)
    requires Distinct(indices) && Rotations(epochs, n) && e <= |epochs|
    ensures Cong(AtZero(indices, Deltas(indices, epochs, seq(|indices|, _ => e))),
                 0 - Miss(AddedBy(epochs[..e]), indices))
    ensures |AddedBy(epochs[..e])| <= |indices| ==> Miss(AddedBy(epochs[..e]), indices) == 0
  {
    hide Reduce, Eval, Lambda, AddedBy, Miss;
    var z := AddedBy(epochs[..e]);
    assert Deltas(indices, epochs, seq(|indices|, _ => e)) == Values(z, indices);
    AddedVanishesAtZero(epochs[..e], n);
    DeviationIsExact(z, indices);
  }

  /** What rotated members hold: secrets on f plus the committed polynomials, the group key of f. */
  lemma {:induction false} RotatedMembers(s: Session, f: seq<int>, n: u32, contributions: seq<DkgContribution>)
    requires n >= 1 && WellFormed(contributions, n) && AllSharesMatch(contributions, n)
    requires Rotatable(KeysOn(f, n)) && SignersFrom(s, RotatedKeys(KeysOn(f, n), contributions))
    ensures s.Aligned(Point(Reduce(Eval(f, 0))))
    ensures Cong(AtZero(s.Indices(), s.Secrets()),
                 AtZero(s.Indices(), Values(AddPoly(f, SumPolys(CommittedPolys(contributions))), s.Indices())))
  {
    hide Reduce, Eval, SumPolys, AtZero, AllSharesMatch, RotatedKey, Rotatable, AddPoly;
    var ids, g := s.Indices(), AddPoly(f, SumPolys(CommittedPolys(contributions)));
    forall k | 0 <= k < |ids|
      ensures Cong(s.Secrets()[k], Values(g, ids)[k]) && s.keys[k].groupPublicKey == Point(Reduce(Eval(f, 0)))
    {
      assert IsMember(s.keys[k], RotatedKeys(KeysOn(f, n), contributions));
      AcceptedRotation(f, n, contributions, ids[k] - 1);
    }
    AtZeroCong(ids, s.Secrets(), Values(g, ids));
  }

  /** The group key survives a rotation exactly when the constant terms cancel: with any accepted zero-shares, the
      rotated members sign validly under the group key iff the challenge is zero or the committed constants add up
      to the identity. */
  lemma {:induction false} RotationKeepsKeyExactly(s: Session, f: seq<int>, n: u32, contributions: seq<DkgContribution>)
    requires n >= 1 && WellFormed(contributions, n) && AllSharesMatch(contributions, n)
    requires Rotatable(KeysOn(f, n)) && SignersFrom(s, RotatedKeys(KeysOn(f, n), contributions))
    requires |f| <= |s.keys|
    requires forall d :: 0 <= d < |contributions| ==> |contributions[d].commitments| <= |s.keys|
    ensures var key := Point(Reduce(Eval(f, 0)));
            Verify(s.crypto, s.Signature(), key, s.message).Ok? <==>
            s.ChallengeFor(key) == 0 || SumPoints(ConstantCommitments(contributions, n)) == IDENTITY
  {
    hide Reduce, Eval, SumPolys, Verify, Challenge, AtZero, AllSharesMatch, RotatedKeys, Rotatable, AddPoly,
         Session.Signature, ConstantCommitments, SumPoints;
    var key, z, ids := Point(Reduce(Eval(f, 0))), SumPolys(CommittedPolys(contributions)), s.Indices();
    var g, a := AddPoly(f, z), AtZero(ids, s.Secrets());
    RotatedMembers(s, f, n, contributions);
    SumPolysBounded(CommittedPolys(contributions), |s.keys|);
    InterpolationIsExact(g, ids);
    EvalAddPoly(f, z, 0);
    AlignedSessionIsExact(s, key, key);
    CongAdd(a, Eval(f, 0) + Eval(z, 0), key.log, Eval(f, 0));
    ProductsDiffer(s.ChallengeFor(key), a, key.log, Eval(z, 0));
    GroupKeyCommitsToSecret(contributions, n);
  }

  // Thresholds.

  /** The threshold of a rotation cannot lower the number of signers needed: after any run of rotations with at most
      as many coefficients as there are signers, they succeed under exactly the condition on the original sharing
      polynomial under which they would have succeeded before it. */
  lemma {:induction false} RotationCannotLowerThreshold(f: seq<int>, n: u32, epochs: seq<seq<Polynomial>>,
                                                        keys: seq<KeyShare>, s: Session)
    requires n >= 1 && Rotations(epochs, n)
    requires RotateRun(KeysOn(f, n), epochs) == Ok(keys) && SignersFrom(s, keys)
    requires forall e, i :: 0 <= e < |epochs| && 0 <= i < n ==> |epochs[e][i].coefficients| <= |s.keys|
    ensures var key := Point(Reduce(Eval(f, 0)));
            Verify(s.crypto, s.Signature(), key, s.message).Ok? <==>
            s.ChallengeFor(key) == 0 || Cong(Eval(QuotientAll(f, s.Indices()), 0), 0)
  {
    hide Reduce, Eval, Verify, Challenge, RotateRun, AddedBy, AtZero;
    var z, ids := AddedBy(epochs), s.Indices();
    RunMovesPolynomial(f, n, epochs);
    MembersShareOn(s, PolynomialAfter(f, epochs), n);
    RunSignsExactly(f, n, epochs, keys, s);
    AddedByBounded(epochs, n, |s.keys|);
    ShorterAddition(f, z, ids);
  }

  /** Adding a polynomial that the indices interpolate exactly changes nothing about what they recover. */
  lemma {:induction false} ShorterAddition(f: seq<int>, z: seq<int>, indices: seq<u32>)
    requires |z| <= |indices| && Distinct(indices) && 0 !in indices
    ensures Cong(Eval(QuotientAll(AddPoly(f, z), indices), 0), 0) <==> Cong(Eval(QuotientAll(f, indices), 0), 0)
  {
    hide Reduce, Eval, AddPoly, AtZero;
    var g := AddPoly(f, z);
    forall k | 0 <= k < |indices|
      ensures Values(g, indices)[k] == Values(f, indices)[k] + 1 * Values(z, indices)[k]
    {
      EvalAddPoly(f, z, indices[k]);
    }
    AtZeroLinear(indices, Values(f, indices), Values(z, indices), 1, Values(g, indices));
    EvalAddPoly(f, z, 0);
    InterpolationIsExact(z, indices);
    RecoversExactly(f, indices);
    RecoversExactly(g, indices);
    CancelCongruent(AtZero(indices, Values(f, indices)), Eval(f, 0), AtZero(indices, Values(z, indices)), Eval(z, 0));
  }

  lemma {:induction false} CancelCongruent(a: int, b: int, x: int, y: int)
    requires Cong(x, y)
    ensures Cong(a + x, b + y) <==> Cong(a, b)
  {
    hide Reduce;
    if Cong(a + x, b + y) {
      CongAdd(a + x, b + y, x, y);
    }
    if Cong(a, b) {
      CongAdd(a, b, x, y);
    }
  }

  /** One input: two participants, sharing polynomial 5 + x, one rotation with threshold 1. Where challenges are 1,
      the first participant alone cannot sign afterwards. */
  lemma {:induction false} LoweredThresholdExample()
    ensures var crypto := Crypto(_ => 1, _ => []);
            var r := RotateRun(KeysOn([5, 1], 2), [[Polynomial([0]), Polynomial([0])]]);
            r.Ok? && |r.value| == 2
            && Verify(crypto, Session(crypto, [], [r.value[0]], [SigningNonce(1, 0, 0)]).Signature(),
                      r.value[0].groupPublicKey, []).Err?
  {
    hide Reduce, Eval, Verify, RotateRun, Rho;
    var crypto := Crypto(_ => 1, _ => []);
    var f, epochs := [5, 1], [[Polynomial([0]), Polynomial([0])]];
    RunMovesPolynomial(f, 2, epochs);
    var keys := RotateRun(KeysOn(f, 2), epochs).value;
    var s := Session(crypto, [], [keys[0]], [SigningNonce(1, 0, 0)]);
    RotationCannotLowerThreshold(f, 2, epochs, keys, s);
    QuotientOneShort(f, s.Indices());
    EvalAtZero([1]);
    CongSmallNonZero(1);
  }

  /** Below the threshold: t - 1 members' shares, whatever their values, leave every candidate group secret with
      exactly one sharing polynomial. */
  lemma {:induction false} SharesBelowThresholdFitEverySecret(secret: Scalar, indices: seq<u32>, shares: seq<Scalar>)
    requires |indices| == |shares| && Distinct(indices) && 0 !in indices
    ensures exists fit: seq<Scalar> ::
              (|fit| == |indices| + 1 &&
               forall f: seq<Scalar> | |f| == |indices| + 1 :: FitsShares(f, secret, indices, shares) <==> f == fit)
  {
    IndicesDistinct([0] + indices);
    BelowThresholdFitsEverySecret(secret, indices, shares);
    assert |Interpolant([0] + indices, [secret] + shares)| == |indices| + 1;
  }
}
