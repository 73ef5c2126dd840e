/** What threshold signatures guarantee: the exact conditions under which `verify` and `verify_partial` accept,
    and what follows for honest, faulty, mixed and too few signers (crates/signing/src/frost.rs). */
module FrostCorrectness {
  import opened Core
  import opened Scalars
  import opened Sums
  import opened Polynomials
  import opened Lagrange
  import opened Feldman
  import opened Rotation
  import opened Frost

  /** One signing session: signer k answers with keys[k] and nonces[k], and all of them see the same commitments.
      Nothing ties a nonce to its key: a node may have drawn it for a share with another participant index. */
  datatype Session = Session(crypto: Crypto, message: Bytes, keys: seq<KeyShare>, nonces: seq<SigningNonce>) {

    /** The session as one group lays it out: each nonce drawn for its key's index, one group key. */
    ghost predicate Aligned(publicKey: Point) {
      |keys| == |nonces| &&
      forall k :: 0 <= k < |keys| ==> nonces[k].index == keys[k].index && keys[k].groupPublicKey == publicKey
    }

    function Commitments(): (cs: seq<SigningCommitment>)
      ensures |cs| == |nonces|
    {
      seq(|nonces|, k requires 0 <= k < |nonces| => CommitmentTo(nonces[k]))
    }

    function Partials(): (ps: seq<PartialSignature>)
      requires |keys| == |nonces|
      ensures |ps| == |keys|
    {
      seq(|keys|, k requires 0 <= k < |keys| => SignPartial(crypto, keys[k], nonces[k], message, Commitments()))
    }

    function Signature(): ThresholdSignature
      requires |keys| == |nonces|
    {
      Aggregate(crypto, message, Commitments(), Partials())
    }

    function Indices(): (indices: seq<u32>)
      ensures |indices| == |keys|
    {
      seq(|keys|, k requires 0 <= k < |keys| => keys[k].index)
    }

    function Secrets(): (secrets: seq<Scalar>)
      ensures |secrets| == |keys|
    {
      seq(|keys|, k requires 0 <= k < |keys| => keys[k].secret)
    }

    /** The challenge that the signers answer when their group key is `publicKey`. */
    function ChallengeFor(publicKey: Point): Scalar {
      Challenge(crypto, GroupCommitment(crypto, message, Commitments()), publicKey, message)
    }

    /** The sum of d + rho * e over the signers. */
    function NonceSum(): int {
      Sum(Blindings(crypto, message, Commitments()))
    }

    /** How far each signer's bound nonce is off its published commitment. */
    function Slips(): (slips: seq<int>)
      requires |keys| == |nonces|
      ensures |slips| == |keys|
    {
      seq(|keys|, k requires 0 <= k < |keys| => Slip(crypto, keys[k], nonces[k], message, Commitments()))
    }

    /** What each signer adds for its secret: challenge times coefficient times secret. */
    function Answers(): (answers: seq<int>)
      ensures |answers| == |keys|
    {
      seq(|keys|, k requires 0 <= k < |keys| =>
        ChallengeFor(keys[k].groupPublicKey)
        * (Lambda(keys[k].index, SignerIndices(Commitments())) * keys[k].secret))
    }
  }

  /** A nonce is bound with the factor of the key's index, but its commitment with the factor of its own. */
  function Slip(crypto: Crypto, key: KeyShare, nonce: SigningNonce, message: Bytes,
                commitments: seq<SigningCommitment>): int {
    nonce.e * (Rho(crypto, key.index, message, commitments) - Rho(crypto, nonce.index, message, commitments))
  }

  /** A single signer's Schnorr signature with the given secret and nonce. */
  function Schnorr(crypto: Crypto, secret: Scalar, nonce: Scalar, message: Bytes): ThresholdSignature {
    var r := Times(G, nonce);
    ThresholdSignature(r, Add(nonce, Mul(Challenge(crypto, r, Times(G, secret), message), secret)))
  }

  // Sums of responses.

  /** Responses of the form blinding + c * (lambda * y) add up to (sum of blindings) + c * (y interpolated at 0). */
  lemma {:induction false} ResponsesInterpolate(indices: seq<u32>, zs: seq<Scalar>, b: seq<int>, c: int, ys: seq<int>)
    requires |indices| == |zs| == |b| == |ys|
    requires forall k :: 0 <= k < |zs| ==> Cong(zs[k], b[k] + c * Terms(indices, ys)[k])
    ensures Cong(Sum(zs), Sum(b) + c * AtZero(indices, ys))
  {
    hide Reduce, Lambda;
    var t := Terms(indices, ys);
    var sums := seq(|b|, k requires 0 <= k < |b| => b[k] + c * t[k]);
    SumCong(zs, sums);
    SumLinear(b, t, c, sums);
  }

  /** A response is the nonce, bound for the key's index, plus challenge times lambda times secret. */
  lemma {:induction false} ResponseLog(crypto: Crypto, key: KeyShare, nonce: SigningNonce, message: Bytes,
                                       commitments: seq<SigningCommitment>)
    ensures var c := Challenge(crypto, GroupCommitment(crypto, message, commitments), key.groupPublicKey, message);
            Cong(SignPartial(crypto, key, nonce, message, commitments).z,
                 nonce.d + nonce.e * Rho(crypto, key.index, message, commitments)
                 + c * (Lambda(key.index, SignerIndices(commitments)) * key.secret))
  {
    hide Reduce, Lambda, Rho, Challenge, GroupCommitment;
    var c := Challenge(crypto, GroupCommitment(crypto, message, commitments), key.groupPublicKey, message);
    var rho, l := Rho(crypto, key.index, message, commitments), Lambda(key.index, SignerIndices(commitments));
    CongScale(Mul(l, key.secret), l * key.secret, c);
    CongAdd(nonce.d, nonce.d, Mul(nonce.e, rho), nonce.e * rho);
    CongAdd(Add(nonce.d, Mul(nonce.e, rho)), nonce.d + nonce.e * rho,
            Mul(Mul(l, key.secret), c), c * (l * key.secret));
  }

  /** A response is the blinding of the nonce's commitment, plus the slip, plus challenge times lambda times secret. */
  lemma {:induction false} HonestResponse(crypto: Crypto, key: KeyShare, nonce: SigningNonce, message: Bytes,
                                          commitments: seq<SigningCommitment>)
    ensures var c := Challenge(crypto, GroupCommitment(crypto, message, commitments), key.groupPublicKey, message);
            Cong(SignPartial(crypto, key, nonce, message, commitments).z,
                 Blinding(crypto, CommitmentTo(nonce), message, commitments)
                 + Slip(crypto, key, nonce, message, commitments)
                 + c * (Lambda(key.index, SignerIndices(commitments)) * key.secret))
  {
    hide Reduce, Lambda, Rho, Challenge, GroupCommitment, SignPartial;
    ResponseLog(crypto, key, nonce, message, commitments);
    TimesG(nonce.d);
    TimesG(nonce.e);
    SlipSplits(nonce.e, Rho(crypto, key.index, message, commitments), Rho(crypto, nonce.index, message, commitments));
  }

  lemma {:induction false} SlipSplits(e: int, rho: int, own: int)
    ensures e * rho == e * own + e * (rho - own)
  {
  }

  /** Whatever the signers hold and whatever their nonces were drawn for, the aggregate verifies under a key P iff
      (sum of slips) + (sum of answers) = challenge(P) * (log of P). */
  lemma {:induction false} SessionIsExact(s: Session, publicKey: Point)
    requires |s.keys| == |s.nonces|
    ensures Cong(Sum(Responses(s.Partials())), s.NonceSum() + (Sum(s.Slips()) + Sum(s.Answers())))
    ensures Verify(s.crypto, s.Signature(), publicKey, s.message).Ok? <==>
      Cong(Sum(s.Slips()) + Sum(s.Answers()), s.ChallengeFor(publicKey) * publicKey.log)
  {
    hide Reduce, Lambda, Rho, Challenge, GroupCommitment, Verify, Aggregate, Sum, SignPartial, Blinding, Slip;
    var cs, zs := s.Commitments(), Responses(s.Partials());
    var b, slips, answers := Blindings(s.crypto, s.message, cs), s.Slips(), s.Answers();
    forall k | 0 <= k < |zs|
      ensures Cong(zs[k], b[k] + slips[k] + answers[k])
    {
      HonestResponse(s.crypto, s.keys[k], s.nonces[k], s.message, cs);
    }
    SumThreeCong(zs, b, slips, answers);
    VerifyIsExact(s.crypto, s.message, cs, s.Partials(), publicKey);
    CancelSummand(Sum(b), Sum(slips) + Sum(answers), s.ChallengeFor(publicKey) * publicKey.log);
  }

  /** In an aligned session nothing slips: the aggregate verifies under a key P iff
      challenge(the group's key) * (the secrets interpolated at 0) = challenge(P) * (log of P). */
  lemma {:induction false} AlignedSessionIsExact(s: Session, signersKey: Point, publicKey: Point)
    requires s.Aligned(signersKey)
    ensures Cong(Sum(Responses(s.Partials())),
                 s.NonceSum() + s.ChallengeFor(signersKey) * AtZero(s.Indices(), s.Secrets()))
    ensures Verify(s.crypto, s.Signature(), publicKey, s.message).Ok? <==>
      Cong(s.ChallengeFor(signersKey) * AtZero(s.Indices(), s.Secrets()), s.ChallengeFor(publicKey) * publicKey.log)
  {
    hide Reduce, Lambda, Rho, Challenge, GroupCommitment, Verify, Sum, Responses;
    var c, t := s.ChallengeFor(signersKey), Terms(s.Indices(), s.Secrets());
    SessionIsExact(s, publicKey);
    assert SignerIndices(s.Commitments()) == s.Indices();
    SumZero(s.Slips());
    forall k | 0 <= k < |t|
      ensures s.Answers()[k] == c * t[k]
    {
    }
    SumScale(s.Answers(), c, t);
  }

  lemma {:induction false} CancelSummand(b: int, x: int, y: int)
    ensures Cong(b + x, b + y) <==> Cong(x, y)
  {
    hide Reduce;
    if Cong(b + x, b + y) {
      CongAdd(b + x, b + y, b, b);
    }
    if Cong(x, y) {
      CongAdd(b, b, x, y);
    }
  }

  // Honest signers.

  /** The signers hold the shares of n participants whose sharing polynomial is f. */
  ghost predicate SharesOn(s: Session, f: seq<int>, n: u32) {
    s.Aligned(Point(Reduce(Eval(f, 0)))) && Distinct(s.Indices()) &&
    forall k :: 0 <= k < |s.keys| ==> s.keys[k] == KeyOn(f, n, s.keys[k].index)
  }

  lemma {:induction false} SecretsAreValues(s: Session, f: seq<int>, n: u32)
    requires SharesOn(s, f, n)
    ensures Cong(AtZero(s.Indices(), s.Secrets()), AtZero(s.Indices(), Values(f, s.Indices())))
  {
    hide Reduce, Lambda, Eval;
    forall k | 0 <= k < |s.keys|
      ensures Cong(s.Secrets()[k], Values(f, s.Indices())[k])
    {
      assert s.keys[k] == KeyOn(f, n, s.keys[k].index);
    }
    AtZeroCong(s.Indices(), s.Secrets(), Values(f, s.Indices()));
  }

  /** Any t shares of a t-coefficient sharing reconstruct the discrete logarithm of the group key. */
  lemma {:induction false} SharesReconstruct(s: Session, f: seq<int>, n: u32)
    requires SharesOn(s, f, n) && |f| <= |s.keys|
    ensures Cong(AtZero(s.Indices(), s.Secrets()), Eval(f, 0))
  {
    hide Reduce, Lambda, Eval;
    SecretsAreValues(s, f, n);
    InterpolationIsExact(f, s.Indices());
  }

  /** End-to-end correctness: with at least as many distinct signers as coefficients the aggregate verifies under
      the group key, and it is the signature a single holder of the secret makes with the summed nonce. */
  lemma {:induction false} SigningIsCorrect(s: Session, f: seq<int>, n: u32)
    requires SharesOn(s, f, n) && |f| <= |s.keys|
    ensures Verify(s.crypto, s.Signature(), Point(Reduce(Eval(f, 0))), s.message).Ok?
    ensures s.Signature() == Schnorr(s.crypto, Reduce(Eval(f, 0)), Reduce(s.NonceSum()), s.message)
  {
    hide Reduce, Lambda, Eval, AtZero, Verify, Challenge, Rho, SignPartial;
    var key := Point(Reduce(Eval(f, 0)));
    var c := s.ChallengeFor(key);
    var a := AtZero(s.Indices(), s.Secrets());
    SharesReconstruct(s, f, n);
    AlignedSessionIsExact(s, key, key);
    CongScale(a, Reduce(Eval(f, 0)), c);
    GroupCommitmentLog(s.crypto, s.message, s.Commitments());
    TimesG(Reduce(s.NonceSum()));
    TimesG(Reduce(Eval(f, 0)));
    CongAdd(s.NonceSum(), s.NonceSum(), c * a, c * Reduce(Eval(f, 0)));
    CongAdd(Reduce(s.NonceSum()), s.NonceSum(), Mul(c, Reduce(Eval(f, 0))), c * Reduce(Eval(f, 0)));
  }

  /** Any number of signers, exactly: the aggregate verifies iff the challenge is zero or the part of the sharing
      polynomial that the signers' indices leave open vanishes at zero. With one signer too few that part is the
      top coefficient; with enough signers nothing is left open. */
  lemma {:induction false} SignersAreExact(s: Session, f: seq<int>, n: u32)
    requires SharesOn(s, f, n) && 0 !in s.Indices()
    ensures var key := Point(Reduce(Eval(f, 0)));
            Verify(s.crypto, s.Signature(), key, s.message).Ok? <==>
            s.ChallengeFor(key) == 0 || Cong(Eval(QuotientAll(f, s.Indices()), 0), 0)
    ensures |f| == |s.keys| + 1 ==> QuotientAll(f, s.Indices()) == [f[|f| - 1]]
    ensures |f| <= |s.keys| ==> QuotientAll(f, s.Indices()) == []
  {
    hide Reduce, Lambda, Eval, AtZero, Verify, Challenge, Rho, SignPartial;
    var key, ids := Point(Reduce(Eval(f, 0))), s.Indices();
    var a, v := AtZero(ids, s.Secrets()), AtZero(ids, Values(f, ids));
    SecretsAreValues(s, f, n);
    RecoversExactly(f, ids);
    AlignedSessionIsExact(s, key, key);
    CongDifference(a, key.log);
    ProductsDiffer(s.ChallengeFor(key), a, key.log, a - key.log);
    if |f| == |s.keys| + 1 {
      QuotientOneShort(f, ids);
    }
  }

  /** c * a and c * b agree iff c is zero or a - b is. */
  lemma {:induction false} ProductsDiffer(c: Scalar, a: int, b: int, d: int)
    requires Cong(a - b, d)
    ensures Cong(c * a, c * b) <==> c == 0 || Cong(d, 0)
  {
    hide Reduce;
    assert c * (a - b) == c * a - c * b;
    if Cong(c * a, c * b) {
      CongAdd(c * a, c * b, c * b, c * b);
      NoZeroDivisors(c, a - b);
    }
    if Cong(d, 0) {
      CongAdd(a - b, 0, b, b);
      CongScale(a, b, c);
    }
  }

  // Faulty signers.

  /** `verify_partial` accepts exactly the partial signature that `sign_partial` computes, whatever index the nonce
      was drawn for. */
  lemma {:induction false} PartialCheckIsExact(crypto: Crypto, key: KeyShare, nonce: SigningNonce,
                                               response: PartialSignature, message: Bytes,
                                               commitments: seq<SigningCommitment>)
    requires response.index == key.index
    ensures VerifyPartial(crypto, response, CommitmentTo(nonce), Times(G, key.secret), message, commitments,
                          key.groupPublicKey).Ok?
            <==> response == SignPartial(crypto, key, nonce, message, commitments)
  {
    hide Reduce, Lambda, Rho, Challenge, GroupCommitment, VerifyPartial;
    var honest := SignPartial(crypto, key, nonce, message, commitments);
    ResponseLog(crypto, key, nonce, message, commitments);
    PartialCheckLog(crypto, response, CommitmentTo(nonce), Times(G, key.secret), message, commitments,
                    key.groupPublicKey);
    TimesG(key.secret);
    TimesG(nonce.d);
    TimesG(nonce.e);
    assert response == honest <==> response.z == honest.z;
  }

  /** The check compares the response with (commitment bound for the response's index) + challenge * lambda * (log of
      the verification share); it never looks at the commitment's index. */
  lemma {:induction false} PartialCheckLog(crypto: Crypto, response: PartialSignature, commitment: SigningCommitment,
                                           verificationShare: Point, message: Bytes,
                                           commitments: seq<SigningCommitment>, groupPublicKey: Point)
    ensures var c := Challenge(crypto, GroupCommitment(crypto, message, commitments), groupPublicKey, message);
            VerifyPartial(crypto, response, commitment, verificationShare, message, commitments, groupPublicKey).Ok?
            <==> Cong(response.z,
                      commitment.hiding.log + commitment.binding.log * Rho(crypto, response.index, message, commitments)
                      + c * (Lambda(response.index, SignerIndices(commitments)) * verificationShare.log))
    ensures VerifyPartial(crypto, response, commitment, verificationShare, message, commitments, groupPublicKey)
         in {Ok(()), Err(InvalidSignature)}
  {
    hide Reduce, Lambda, Rho, Challenge, GroupCommitment;
    var c := Challenge(crypto, GroupCommitment(crypto, message, commitments), groupPublicKey, message);
    TimesG(response.z);
    ExpectedResponse(commitment.hiding.log, commitment.binding.log, Rho(crypto, response.index, message, commitments),
                     verificationShare.log, Lambda(response.index, SignerIndices(commitments)), c);
  }

  lemma {:induction false} PassingResponse(crypto: Crypto, response: PartialSignature, commitment: SigningCommitment,
                                           verificationShare: Point, message: Bytes,
                                           commitments: seq<SigningCommitment>, groupPublicKey: Point)
    requires response.index == commitment.index
    requires VerifyPartial(crypto, response, commitment, verificationShare, message, commitments, groupPublicKey).Ok?
    ensures var c := Challenge(crypto, GroupCommitment(crypto, message, commitments), groupPublicKey, message);
            Cong(response.z, Blinding(crypto, commitment, message, commitments)
                             + c * (Lambda(response.index, SignerIndices(commitments)) * verificationShare.log))
  {
    hide Reduce, Lambda, Rho, Challenge, GroupCommitment, VerifyPartial;
    PartialCheckLog(crypto, response, commitment, verificationShare, message, commitments, groupPublicKey);
  }

  lemma {:induction false} ExpectedResponse(h: Scalar, b: Scalar, rho: Scalar, y: Scalar, l: Scalar, c: Scalar)
    ensures Cong(Add(Add(h, Mul(b, rho)), Mul(y, Mul(l, c))), (h + b * rho) + c * (l * y))
  {
    hide Reduce;
    CongAdd(h, h, Mul(b, rho), b * rho);
    CongScale(Mul(l, c), l * c, y);
    Regroup(y, l, c);
    Regroup(c, l, y);
    CongAdd(Add(h, Mul(b, rho)), h + b * rho, Mul(y, Mul(l, c)), c * (l * y));
  }

  ghost predicate EveryPartialPasses(crypto: Crypto, partials: seq<PartialSignature>, f: seq<int>, message: Bytes,
                                     commitments: seq<SigningCommitment>)
    requires |partials| == |commitments|
  {
    forall k :: 0 <= k < |partials| ==>
      VerifyPartial(crypto, partials[k], commitments[k], Point(Reduce(Eval(f, partials[k].index))), message,
                    commitments, Point(Reduce(Eval(f, 0)))).Ok?
  }

  /** Identifiable abort (section 5.4 of RFC 9591): however commitments and partials were made, if the partials of
      at least t distinct signers pass `verify_partial` against their verification shares, the aggregate verifies.
      So when it does not verify, some signer is caught. */
  lemma {:induction false} AbortIsIdentifiable(crypto: Crypto, partials: seq<PartialSignature>, f: seq<int>,
                                               message: Bytes, commitments: seq<SigningCommitment>)
    requires |partials| == |commitments| >= |f| && Distinct(SignerIndices(commitments))
    requires forall k :: 0 <= k < |partials| ==> partials[k].index == commitments[k].index
    requires EveryPartialPasses(crypto, partials, f, message, commitments)
    ensures Verify(crypto, Aggregate(crypto, message, commitments, partials), Point(Reduce(Eval(f, 0))), message).Ok?
  {
    hide Reduce, Lambda, Rho, Challenge, GroupCommitment, AtZero, Verify, Aggregate, Sum, VerifyPartial, Eval, Blinding;
    var key := Point(Reduce(Eval(f, 0)));
    var c := Challenge(crypto, GroupCommitment(crypto, message, commitments), key, message);
    var indices, zs, b := SignerIndices(commitments), Responses(partials), Blindings(crypto, message, commitments);
    var ys := ReduceAll(Values(f, indices));
    forall k | 0 <= k < |zs|
      ensures Cong(zs[k], b[k] + c * Terms(indices, ys)[k])
    {
      PassingResponse(crypto, partials[k], commitments[k], Point(Reduce(Eval(f, partials[k].index))), message,
                      commitments, key);
    }
    ResponsesInterpolate(indices, zs, b, c, ys);
    AtZeroCong(indices, ys, Values(f, indices));
    InterpolationIsExact(f, indices);
    CongScale(AtZero(indices, ys), key.log, c);
    CongAdd(Sum(b), Sum(b), c * AtZero(indices, ys), c * key.log);
    VerifyIsExact(crypto, message, commitments, partials, key);
  }

  /** Honest responses perturbed by errors. */
  function Perturbed(partials: seq<PartialSignature>, errors: seq<Scalar>): (ps: seq<PartialSignature>)
    requires |partials| == |errors|
    ensures |ps| == |partials|
  {
    seq(|partials|, k requires 0 <= k < |partials| =>
      PartialSignature(partials[k].index, Add(partials[k].z, errors[k])))
  }

  /** The aggregate of perturbed responses verifies iff the errors add up to zero. */
  lemma {:induction false} ErrorsMustCancel(s: Session, f: seq<int>, n: u32, errors: seq<Scalar>)
    requires SharesOn(s, f, n) && |f| <= |s.keys| == |errors|
    ensures var faulty := Aggregate(s.crypto, s.message, s.Commitments(), Perturbed(s.Partials(), errors));
            Verify(s.crypto, faulty, Point(Reduce(Eval(f, 0))), s.message).Ok? <==> Cong(Sum(errors), 0)
  {
    hide Reduce, Lambda, Rho, Challenge, GroupCommitment, AtZero, Verify, Aggregate, SignPartial, Eval;
    var key := Point(Reduce(Eval(f, 0)));
    var honest, faulty := Responses(s.Partials()), Responses(Perturbed(s.Partials(), errors));
    var sums := seq(|errors|, k requires 0 <= k < |errors| => honest[k] as int + 1 * errors[k]);
    forall k | 0 <= k < |errors|
      ensures Cong(faulty[k], sums[k])
    {
    }
    SumCong(faulty, sums);
    SumLinear(honest, errors, 1, sums);
    SigningIsCorrect(s, f, n);
    VerifyIsExact(s.crypto, s.message, s.Commitments(), s.Partials(), key);
    VerifyIsExact(s.crypto, s.message, s.Commitments(), Perturbed(s.Partials(), errors), key);
    CongAdd(Sum(honest), s.NonceSum() + s.ChallengeFor(key) * key.log, Sum(errors), Sum(errors));
    CancelSummand(s.NonceSum() + s.ChallengeFor(key) * key.log, Sum(errors), 0);
  }
}
