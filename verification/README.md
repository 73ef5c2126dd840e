# CraftSEC threshold attestation, verified in Dafny

CraftSEC makes one deep promise: whatever the threshold t of n, whoever the signers, however often the shares are
rotated and the programs migrated, at least t distinct nodes that validate a request produce a Schnorr signature that
verifies under one unchanging group key. This project models the code behind that promise, from field arithmetic to
the client, and proves it for all inputs, all runs and all reachable states. For fewer signers it proves exactly when
they succeed: a condition on the sharing polynomial and the signers' indices, for any number of signers, and for the
group as a whole one that the public commitments show.

| file | what it models |
|---|---|
| `Primes.dfy`, `Scalars.dfy`, `Sums.dfy` | the scalar field: integers modulo a prime, inverses by extended Euclid, finite sums |
| `Core.dfy` | bytes, points, key shares, errors, the random number generator |
| `Polynomials.dfy`, `Lagrange.dfy` | evaluation, roots, interpolation, Lagrange coefficients at zero |
| `Feldman.dfy`, `Pdk.dfy`, `Rotation.dfy` | key generation, program-derived keys, proactive rotation |
| `Randomness.dfy` | which ceremonies and rotations the drawn randomness can bring about: all of them |
| `Quorums.dfy` | how many shares a group needs, exactly, and what the public commitments show of it |
| `Frost.dfy`, `FrostCorrectness.dfy`, `Transcripts.dfy`, `Epochs.dfy` | signing, what signatures guarantee, hash inputs, signing across epochs |
| `Encodings.dfy` | receipts and execution attestations as signed bytes |
| `Nodes.dfy`, `Transports.dfy`, `Clients.dfy`, `Progress.dfy` | nodes, the in-memory transport, the client, and when a client run succeeds |

How the model reads:

- A scalar is an integer below `ORDER`, an arbitrary constant of the type "prime above 2^32". That such primes exist
  is proved (Euclid); nothing else is known of `ORDER`, so every theorem holds for each such prime. The group order in
  section 5.1 of RFC 8032 is one. Being above 2^32 is what keeps participant indices distinct in the field.
- A point is its discrete logarithm to the base point, which is the prime-order subgroup the protocol lives in.
- SHA-512 reduced to a scalar and point compression are arbitrary total functions in a `Crypto` value. Programs,
  transaction serialisation and SHA-256 are arbitrary functions as well. Randomness is an arbitrary tape of scalars.
- Polynomials are evaluated over the integers and reduced once (`Reduce(Eval(f, x))`), which makes the exchange of sums
  over dealers and coefficients exact; `Cong` is congruence modulo `ORDER`.
- `KeysOn(f, n)` is the list of n key shares on the polynomial f. Ceremonies establish it, rotations keep it, and every
  signing theorem starts from it. `Session` is one signing session; `AtZero` interpolates values at zero.
- `QuotientAll(f, S)` is f divided by x - i for every index i in S: the part of f that values at S leave open. It is
  empty when S has as many indices as f has coefficients, and the top coefficient when S has one fewer. Interpolating
  from S recovers f(0) exactly when its value at zero is zero.
- Loops and objects of the code are methods and classes proved equal to functions of their inputs or old state; the
  theorems are about those functions. A panic (an `unwrap` on nothing, an index out of range) is the error `Panic`.
- A client sees a transport as a state and two arbitrary calls on it (`TransportFns`), which covers every
  implementation of the transport trait; `LocalFns` is the in-memory one.
- Lemmas carry `{:induction false}`: each proof is its body.

Where code and documentation differ, the model follows the code:

- `crates/dkg/src/rotation.rs:31` says a rotation's threshold may differ. Raising works; lowering does not: signers at
  least as many as the rotations' coefficients succeed exactly when they would have before the run
  (`RotationCannotLowerThreshold`; `LoweredThresholdExample` is an input), and the number of shares the group needs
  after any run, raised or lowered, is read off the sum of all coefficients (`RunQuorumsAreExact`).
- `crates/node/src/node.rs:126` signs with the node's default share, while round 1 resolves the share by program CID.
  `AttestIsExact` says when a run succeeds whatever the two shares are. `AttestUnderOtherKey` and `OtherKeyExample`
  are about a client that expects the program's own key, `OtherIndexExample` about a program whose share has another
  participant index.
- `crates/client/src/lib.rs:86` keeps the first valid transaction and does not compare later ones. "Validated by
  threshold nodes" holds exactly when the programs of the first threshold validating nodes answer the request alike
  (`ValidatedByAllExactly`); `DisagreementExample` is an input where they do not.
- `crates/dkg/src/pdk.rs:12` calls the derivation HKDF-like; it is one SHA-512 call.

## Model

| member | source | states |
|---|---|---|
| Scalars.Invert | crates/signing/src/lagrange.rs:22 | the inverse that the coefficient needs: a nonzero scalar times its inverse is one, zero goes to zero |
| Core.ThresholdConfig.New | crates/core/src/types.rs:16-24 | a configuration exists iff 1 <= t <= n, and otherwise the error names t and n |
| Core.Rng.RandomScalar | crates/core/src/scalar_ext.rs:7-11 | one scalar is drawn and the tape advances by one |
| Core.LittleEndianRoundTrip | crates/core/src/receipt.rs:45 | an integer that fits its width is recovered from its little-endian bytes |
| Polynomials.Polynomial.Random | crates/dkg/src/polynomial.rs:15-22 | the constant first, then the drawn coefficients in drawing order |
| Polynomials.Polynomial.RandomFull | crates/dkg/src/polynomial.rs:25-28 | all coefficients drawn, constant term first |
| Polynomials.Polynomial.Evaluate | crates/dkg/src/polynomial.rs:31-39 | the running-power loop computes the polynomial's value in the field |
| Polynomials.EvalIsPowerSum | crates/dkg/src/polynomial.rs:30-39 | that value is the sum of coefficients times powers |
| Polynomials.RootsForceZero | crates/dkg/src/polynomial.rs:6-11 | as many distinct roots as coefficients force every coefficient to zero |
| Polynomials.BelowThresholdFitsEverySecret | crates/dkg/src/polynomial.rs:15-39 | t - 1 points and any constant term are met by exactly one coefficient list of length t |
| Epochs.SharesBelowThresholdFitEverySecret | crates/dkg/src/polynomial.rs:15-39 | the same for distinct nonzero participant indices: t - 1 shares fit every candidate secret exactly once |
| Lagrange.LagrangeCoefficient | crates/signing/src/lagrange.rs:8-23 | the loop that skips i computes the coefficient the theorems below are about |
| Lagrange.DenominatorInvertible | crates/signing/src/lagrange.rs:16-22 | no list of u32 indices makes the denominator zero |
| Lagrange.LambdaIsQuotient | crates/signing/src/lagrange.rs:22 | the coefficient times the denominator is the numerator |
| Lagrange.LambdasSumToOne | crates/signing/src/lagrange.rs:8-23 | the coefficients of a nonempty distinct signer set add up to one |
| Lagrange.InterpolationIsExact | crates/signing/src/lagrange.rs:8-23 | any distinct indices, at least as many as coefficients, interpolate the constant term |
| Lagrange.DeviationIsExact | crates/signing/src/lagrange.rs:8-23 | for any number of distinct indices the interpolated value is off by exactly the quotient's value at zero times the negated indices |
| Lagrange.RecoversExactly | crates/signing/src/lagrange.rs:8-23 | so few indices recover the constant term iff what they leave open vanishes at zero |
| Lagrange.LambdaNonZero | crates/signing/src/lagrange.rs:8-23 | no coefficient of nonzero indices is zero: every signer's share matters |
| Feldman.EvaluateCommitments | crates/dkg/src/feldman.rs:96-106 | the running-power loop over points evaluates the committed polynomial in the exponent |
| Feldman.VerifyShare | crates/dkg/src/feldman.rs:125-151 | accepts iff share times G is the committed polynomial at the index, otherwise names the index |
| Feldman.ShareCheckIsExact | crates/dkg/src/feldman.rs:125-151 | against honest commitments only the polynomial's value at the index is accepted |
| Feldman.CommitmentsAreBinding | crates/dkg/src/feldman.rs:125-151 | two commitment lists of length t that accept the same shares at t distinct indices are equal |
| Feldman.SumOfEvaluations | crates/dkg/src/feldman.rs:85-88 | summing the dealers' values at x is evaluating the coefficientwise sum of their polynomials at x |
| Feldman.Deal | crates/dkg/src/feldman.rs:37-62 | n dealers draw t coefficients each, commit to them and evaluate them for every receiver |
| Feldman.Conclude | crates/dkg/src/feldman.rs:64-120 | for whatever was dealt: a failing share aborts and names the first receiver that got one, otherwise all keys lie on the sum of the committed polynomials |
| Feldman.RunDkg | crates/dkg/src/feldman.rs:29-121 | the honest ceremony never fails; its keys lie on the sum of the drawn polynomials |
| Feldman.AcceptedCeremony | crates/dkg/src/feldman.rs:64-120 | whoever dealt, accepted shares combine to one group key and consistent verification shares |
| Feldman.HonestCeremony | crates/dkg/src/feldman.rs:37-74 | honest dealers pass every check, are committed to their own polynomials, and number dealers and receivers from one |
| Randomness.EveryDealIsDrawn | crates/dkg/src/feldman.rs:39-40 | any polynomials of t coefficients, constant terms included, are dealt for some tape |
| Randomness.EverySharingIsDrawn | crates/dkg/src/feldman.rs:29-121 | every sharing, so every group secret and key, is the outcome of some ceremony |
| Pdk.DeriveScalar | crates/dkg/src/pdk.rs:13-23 | the hash is taken over domain, key material, info and index |
| Pdk.DeriveKey | crates/dkg/src/pdk.rs:29-84 | derived shares are the shares on the derived polynomial, under its constant term's key |
| Pdk.DerivedKeySigns | crates/dkg/src/pdk.rs:29-84 | any t holders of derived shares sign validly under the derived key |
| Pdk.HashInputIsInjective | crates/dkg/src/pdk.rs:13-47 | distinct (CID, seed, coefficient index) are hashed as distinct bytes |
| Pdk.KeyMaterialIsInjective | crates/dkg/src/pdk.rs:38-42 | the separator splits the key material in one way only |
| Pdk.CoefficientsAreHashes | crates/dkg/src/pdk.rs:13-47 | each coefficient is the hash of domain, CID, separator, seed, label and its own index |
| Pdk.DerivationsAreIndependent | crates/dkg/src/pdk.rs:29-50 | for different (CID, seed) some hash derives any two coefficient lists one asks for |
| Rotation.DealZeroShares | crates/dkg/src/rotation.rs:44-71 | every participant deals a polynomial with constant term zero and t - 1 drawn coefficients |
| Rotation.ApplyRotation | crates/dkg/src/rotation.rs:73-123 | for whatever was dealt: a failing share aborts and names its receiver, missing verification shares panic, otherwise the deltas are added |
| Rotation.FindsFirst | crates/dkg/src/rotation.rs:99-105 | the verification share used is the first one filed under the participant's index |
| Rotation.RotatableExactly | crates/dkg/src/rotation.rs:39-105 | the rotation panics iff there is no old share or some share lists no verification share for its participant |
| Rotation.RotationKeepsVerificationShares | crates/dkg/src/rotation.rs:85-121 | for any old shares whose verification shares fit, also those on no common polynomial: they fit afterwards, under the first share's group key |
| Rotation.RotateShares | crates/dkg/src/rotation.rs:34-124 | one rotation is the step with the drawn zero-polynomials |
| Rotation.AcceptedRotation | crates/dkg/src/rotation.rs:85-121 | whoever dealt, shares on f move to f plus the committed polynomials and keep the group key |
| Rotation.RotationMovesPolynomial | crates/dkg/src/rotation.rs:34-124 | with zero constants the step succeeds, the invariant holds for the sum and the secret is unchanged |
| Rotation.RunMovesPolynomial | crates/dkg/src/rotation.rs:34-124 | any run of rotations succeeds, keeps the secret, and leaves the shares on one polynomial |
| Rotation.RunKeepsSharing | crates/dkg/src/rotation.rs:34-124 | with any thresholds that polynomial needs at most the largest threshold seen |
| Randomness.EveryZeroDealIsDrawn | crates/dkg/src/rotation.rs:44-47 | any polynomials of t coefficients with constant term zero are dealt for some tape |
| Randomness.EveryMoveIsDrawn | crates/dkg/src/rotation.rs:34-124 | a rotation moves the sharing by any polynomial with constant term zero, for some tape |
| Randomness.EveryRefreshIsDrawn | crates/dkg/src/rotation.rs:34-124 | fewer than t participants can come out with any secrets at all, whatever they held: no share is sure to stay |
| Frost.GenerateNonces | crates/signing/src/frost.rs:48-63 | d is drawn before e, and the commitment opens to them |
| Frost.BindingFactor | crates/signing/src/frost.rs:66-81 | the buffer loop hashes index, message and all commitments in order |
| Frost.ComputeChallenge | crates/signing/src/frost.rs:98-111 | the challenge hashes group commitment, public key and message |
| Frost.GroupCommitmentLog | crates/signing/src/frost.rs:84-95 | the group commitment opens to the sum of d + rho * e |
| Frost.VerifyIsExact | crates/signing/src/frost.rs:168-198 | an aggregate verifies under a key iff its responses add up to the blindings plus challenge times the key's logarithm |
| Transcripts.BindingInputExact | crates/signing/src/frost.rs:66-81 | equal binding inputs have the same index, and the same message and commitments iff equally many commitments |
| Transcripts.BindingInputsCollide | crates/signing/src/frost.rs:66-81 | two different messages and commitment lists with the same binding input |
| Transcripts.EncodingConcatenates | crates/signing/src/frost.rs:75-79 | commitments are hashed one after the other, each as index, hiding and binding point |
| Transcripts.BindingFactorsSeparate | crates/signing/src/frost.rs:66-81 | two binding factors are equal iff the hash agrees on index, message and commitments; some hash tells any two apart |
| Transcripts.GroupCommitmentHashes | crates/signing/src/frost.rs:84-95 | the group commitment weighs each binding point with the hash of its index, the message and all commitments |
| Transcripts.ChallengeInputIsInjective | crates/signing/src/frost.rs:98-111 | the challenge input determines commitment, key and message |
| Transcripts.VerifyEquation | crates/signing/src/frost.rs:177-198 | `verify` accepts iff s G = R + H(R, key, message) key, for any signature |
| Transcripts.OtherMessageExactly | crates/signing/src/frost.rs:177-198 | a signature is accepted for a second message iff the hash agrees on both |
| Transcripts.SignatureBindsEverything | crates/signing/src/frost.rs:177-198 | commitment, key and message are all signed: some hash accepts one and rejects the other of any two that differ |
| FrostCorrectness.HonestResponse | crates/signing/src/frost.rs:114-134 | for any nonce, also one drawn for another index, the response is blinding plus slip plus challenge times coefficient times secret |
| FrostCorrectness.SessionIsExact | crates/signing/src/frost.rs:114-198 | whatever shares and nonces the signers use, the exact condition for the aggregate to verify under any key |
| FrostCorrectness.AlignedSessionIsExact | crates/signing/src/frost.rs:114-198 | with nonces for the keys' own indices: iff challenge times interpolated secrets equals the verifier's challenge times its key's logarithm |
| FrostCorrectness.SharesReconstruct | crates/dkg/src/feldman.rs:76-118 | any t shares interpolate the logarithm of the group key |
| FrostCorrectness.SigningIsCorrect | crates/signing/src/frost.rs:114-198 | at least t distinct signers produce a valid signature, equal to one holder's Schnorr signature with the summed nonce |
| FrostCorrectness.SignersAreExact | crates/signing/src/frost.rs:114-198 | any number of signers succeeds iff the challenge is zero or what their indices leave open of the sharing polynomial vanishes at zero |
| FrostCorrectness.PartialCheckIsExact | crates/signing/src/frost.rs:137-165 | `verify_partial` accepts exactly what `sign_partial` computes, whatever index the nonce was drawn for |
| FrostCorrectness.PartialCheckLog | crates/signing/src/frost.rs:137-165 | the equation that `verify_partial` checks, for arbitrary responses, commitments and verification shares; otherwise the signature is invalid |
| FrostCorrectness.AbortIsIdentifiable | crates/signing/src/frost.rs:137-198 | if all partials of t distinct signers pass, the aggregate verifies; so a failing aggregate convicts some signer |
| FrostCorrectness.ErrorsMustCancel | crates/signing/src/frost.rs:168-198 | honest responses plus errors verify iff the errors add up to zero |
| Epochs.MembersSign | crates/signing/src/frost.rs:114-198 | any t members of a group sign validly under its key |
| Epochs.MembersSignExactly | crates/signing/src/frost.rs:114-198 | any number of members of a group, exactly |
| Epochs.GroupSignsInEveryEpoch | crates/dkg/src/rotation.rs:34-124 | after any accepted ceremony and any run of rotations: same group key in every share, exact verification shares, valid signatures |
| Epochs.RunSignsExactly | crates/dkg/src/rotation.rs:34-124 | any number of signers after any run of rotations, thresholds raised or lowered: the sharing polynomial after the run decides |
| Epochs.MixedEpochsExact | crates/dkg/src/rotation.rs:86-96 | each signer with the share of its own epoch of a run: success iff the challenge is zero or the deltas interpolate to what the indices miss, zero for enough signers |
| Epochs.UniformEpochsCancel | crates/dkg/src/rotation.rs:86-96 | all signers in one epoch, whichever: the deltas interpolate to zero, up to what too few indices miss |
| Epochs.RotationKeepsKeyExactly | crates/dkg/src/rotation.rs:56-121 | rotated members sign under the group key iff the challenge is zero or the constant commitments add up to the identity |
| Epochs.RotationCannotLowerThreshold | crates/dkg/src/rotation.rs:31-124 | signers at least as many as the coefficients of each rotation succeed under exactly the condition they had before the run |
| Epochs.LoweredThresholdExample | crates/dkg/src/rotation.rs:31-124 | an input where a rotation to threshold one leaves a single signer unable to sign |
| Quorums.QuorumsAreExact | crates/dkg/src/feldman.rs:76-118 | every k shares reconstruct the secret iff all coefficients of the sharing polynomial from k on are zero |
| Quorums.CommitmentsShowCoefficient | crates/dkg/src/feldman.rs:39-46 | the dealers' commitments to one power add up to a commitment to the sharing polynomial's coefficient |
| Quorums.QuorumIsPublic | crates/dkg/src/feldman.rs:39-118 | every k shares reconstruct the group secret iff the commitments to each power from k on add up to the identity |
| Quorums.RunQuorumsAreExact | crates/dkg/src/rotation.rs:31-124 | the same after any run of rotations: the coefficients added must cancel the original ones; shorter rotations change nothing |
| Encodings.DecodeInvertsEncode | crates/core/src/attestation.rs:30-38 | the fields are read back from the bytes, hashes and timestamp from the fixed-length tail |
| Encodings.EncodeIsInjective | crates/core/src/receipt.rs:39-47 | equal bytes mean equal fields iff the hashes are equally long |
| Encodings.UnhexInvertsHex | crates/core/src/receipt.rs:31-32 | two digits to a byte, the high one first |
| Encodings.HexIsInjective | crates/core/src/receipt.rs:31-32 | hex encoding determines the digest |
| Encodings.AttestationReceipt.constructor | crates/core/src/receipt.rs:23-36 | a new receipt holds the hex digests and no signature |
| Encodings.AttestationReceipt.SigningBytes | crates/core/src/receipt.rs:39-47 | tag, CID, both hashes and timestamp in order |
| Encodings.AttestationReceipt.AddSignature | crates/core/src/receipt.rs:50-52 | the signature is appended and nothing that is signed changes |
| Encodings.ReceiptBytesDetermineReceipt | crates/core/src/receipt.rs:23-47 | the signed bytes of built receipts determine CID, digests and timestamp |
| Encodings.ReceiptBytesCollideForOtherLengths | crates/core/src/receipt.rs:8-47 | hashes of other lengths: two different receipts with the same signed bytes |
| Encodings.AttestationSigningBytes | crates/core/src/attestation.rs:30-38 | tag, CID, both hashes and timestamp in order |
| Encodings.AttestationBytesDetermineFields | crates/core/src/attestation.rs:30-38 | the signed bytes determine all four fields |
| Encodings.ReceiptsAreNotAttestations | crates/core/src/receipt.rs:39-47 | a receipt's signed bytes are never an execution attestation's |
| Encodings.TagsAreReadable | crates/core/src/attestation.rs:30-38 | both start with the tag that the code writes |
| Nodes.CraftSecNode.constructor | crates/node/src/node.rs:60-67 | no program keys, nothing frozen |
| Nodes.CraftSecNode.RegisterKey | crates/node/src/node.rs:70-72 | the CID's share is set, everything else stays |
| Nodes.CraftSecNode.FreezeProgram | crates/node/src/node.rs:75-77 | the CID joins the frozen set, everything else stays |
| Nodes.CraftSecNode.MigrateProgram | crates/node/src/node.rs:147-155 | the new CID gets the old one's resolved share and the old one is frozen |
| Nodes.CraftSecNode.ProcessRequest | crates/node/src/node.rs:90-118 | frozen, failing, invalid and valid requests; nonces are drawn only for valid ones |
| Nodes.CraftSecNode.Sign | crates/node/src/node.rs:121-129 | the response carries the default share's index and passes `verify_partial` for that share, whatever share answered in round 1 |
| Nodes.CraftSecNode.SignForProgram | crates/node/src/node.rs:132-142 | the same for the share registered for the CID, or the default share if there is none |
| Nodes.FrozenExactly | crates/node/src/node.rs:70-82 | over any run a CID is frozen iff it was before or some operation froze it |
| Nodes.FreezingIsPermanent | crates/node/src/node.rs:75-98 | after any operations a request is refused without commitment or nonce iff its CID was frozen before, or frozen or migrated away by them |
| Nodes.AnswersAreExact | crates/node/src/node.rs:90-118 | the four answers told apart: refused, failed with the message, rejected with the reason and neither commitment nor nonce, validated with fresh nonces |
| Nodes.KeyFollowsProvenance | crates/node/src/node.rs:70-87 | after any run of operations a CID resolves to the share its provenance names, in the end to the default share |
| Nodes.UnregisteredUsesDefault | crates/node/src/node.rs:60-87 | on a new node a CID that no registration reaches signs with the default share |
| Nodes.MigrationKeepsKey | crates/node/src/node.rs:147-155 | along a chain the last CID holds the first one's share and exactly the earlier ones are frozen |
| Nodes.MigratedGroupSigns | crates/node/src/node.rs:132-155 | nodes that each carried v1's share to a CID in their own way: any t sign for it under v1's group key, and any number as if nothing had been migrated |
| Nodes.ChainMigratedGroupSigns | crates/node/src/node.rs:132-155 | the same for any t nodes migrated along one chain |
| Transports.LocalTransport.constructor | crates/client/src/transport.rs:19-25 | one empty nonce slot per node |
| Transports.LocalTransport.Round1 | crates/client/src/transport.rs:29-36 | an answer overwrites the node's slot, with nothing if it was a rejection; an error leaves it alone |
| Transports.LocalTransport.Round2 | crates/client/src/transport.rs:38-50 | signs with the stored nonce, or reports that there is none; no slot changes |
| Transports.ReachableRound2IsExact | crates/client/src/transport.rs:13-50 | in every reachable state, operations on the nodes included, round 2 succeeds iff the node's latest answer was Valid, and uses the nonce behind the commitment in it |
| Transports.PerformAllKeepsSlots | crates/client/src/transport.rs:13-50 | every interleaving of rounds with registrations, freezes and migrations keeps each slot what its node's latest answer left |
| Transports.RejectionClearsNonce | crates/client/src/transport.rs:29-50 | after a rejection a node no longer signs for what it validated before |
| Clients.Attest | crates/client/src/lib.rs:77-134 | the two loops with their skips and early exit compute the run that the theorems below are about |
| Clients.CollectsContributors | crates/client/src/lib.rs:82-95 | what the collection loop gathers are the first valid answers, as many as the threshold asks for |
| Clients.PartialsAreTheAnswers | crates/client/src/lib.rs:116-120 | round 2 returns every contributor's answer in order, or the first error |
| Clients.CheckIsExact | crates/client/src/lib.rs:35-41 | an attested transaction passes its check iff the verification equation holds for its bytes |
| Clients.AttestIsSafe | crates/client/src/lib.rs:77-134 | for every transport: a returned transaction passes its check, is the lowest node's, and is backed by the first threshold valid answers, none skipped, and their round-2 answers |
| Clients.AttestFailsForAReason | crates/client/src/lib.rs:82-120 | for every transport: what each error means, with the counts and the first round-2 error |
| Clients.AgreementIsExact | crates/client/src/lib.rs:82-91 | for every transport: all contributors validated the returned transaction iff their answers agree |
| Progress.LocalRunIsSession | crates/client/src/lib.rs:77-134 | over the in-memory transport a run returns what one signing session decides: the first validating nodes, their default shares, the nonces they drew |
| Progress.NoncesAreIndependent | crates/signing/src/frost.rs:48-63 | every contributor draws its own nonces: any list of pairs comes out for some tape |
| Progress.AttestIsExact | crates/client/src/lib.rs:95-127 | whatever shares the nodes hold and the program resolves to, the exact condition for a run to succeed |
| Progress.AttestSucceedsExactly | crates/client/src/lib.rs:77-134 | any members of a group in any order, enough threshold, the group's key: success iff at least threshold reached nodes validate |
| Progress.AttestAtAnyThreshold | crates/client/src/lib.rs:77-134 | the same for every client threshold, with the exact condition when it is below the sharing's |
| Progress.AttestUnderOtherKey | crates/client/src/lib.rs:117-127 | what a client sees that expects another key than that of the default shares |
| Progress.ValidatedByAllExactly | crates/client/src/lib.rs:82-91 | all contributors validated the returned transaction iff the first threshold validating nodes' programs answer alike |
| Progress.DisagreementExample | crates/client/src/lib.rs:82-91 | an input where a contributor validated something else |
| Progress.OtherKeyExample | crates/node/src/node.rs:121-129 | an input where the program's own key is expected and `attest` fails |
| Progress.OtherIndexExample | crates/node/src/node.rs:121-129 | an input where the program's share has another participant index and `attest` fails |

## Left out

- Curve arithmetic, point compression, cofactors, SHA-512 and SHA-256 internals: library code that is not part of this model.
- Unforgeability, discrete-logarithm hardness, quality of randomness and reuse of nonces: not statements about single runs.
- The primality of the order in section 5.1 of RFC 8032: the model takes an arbitrary prime above 2^32 instead.
- Frost.SignPartial, Frost.VerifyPartial, Frost.Aggregate, Frost.Verify: expressions in the code, functions here; `sign_partial` returns its value without the always-successful `Result` around it.
- Rotation.RotateShares: at most 2^32 - 1 old shares, since more would not fit participant indices; the wrap-around of indices is not modelled.
- Rotation.ApplyRotation: the debug-only assertion that constant commitments are the identity is not part of it; `RotationKeepsKeyExactly` says what depends on it.
- Feldman.RunDkg, Rotation.RotateShares: a threshold of zero, which no constructed configuration has, underflows in the code and is excluded; `derive_key` panics on it, which the model has.
- Progress.LocalRunIsSession: a client threshold of zero is excluded; `AttestIsSafe` covers it.
- Quorums.QuorumsAreExact: at least one share; no shares at all interpolate to zero.
- Nodes.CraftSecNode.ProcessRequest: every failure of a program is a program error with a message; serialisation failures of the WASM backend are not told apart. A program's answer is a function of the request.
- Error messages are reduced to what identifies them; a share error carries the index only.
- The transaction amount is the bit pattern of the floating-point number, and transaction serialisation is an arbitrary function.
- WASM execution, the transfer validator, the program registry, the command line, the delayed transport, the mock provider and JSON: input and output, delays, mocks or library behaviour.
- `verify_signatures` and `verify_structure` (single non-emptiness checks), `secret`, `is_frozen`, `to_individual_requests`: one-line members.
- Features of the design document that have no code: SQL schema, trusted program lists, economics, resharing to other node sets.
