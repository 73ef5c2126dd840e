/** The FROST signing protocol (crates/signing/src/frost.rs). */
module Frost {
  import opened Core
  import opened Scalars
  import opened Sums
  import opened Polynomials
  import opened Lagrange
  import opened Feldman

  /** The library functions the protocol is built on: SHA-512 reduced to a scalar, and point compression.
      They are arbitrary total functions, so the theorems hold whatever they are. */
  datatype Crypto = Crypto(hashToScalar: Bytes -> Scalar, compress: Point -> Bytes)

  datatype SigningNonce = SigningNonce(index: u32, d: Scalar, e: Scalar)

  datatype SigningCommitment = SigningCommitment(index: u32, hiding: Point, binding: Point)

  datatype PartialSignature = PartialSignature(index: u32, z: Scalar)

  datatype ThresholdSignature = ThresholdSignature(r: Point, s: Scalar)

  function CommitmentTo(nonce: SigningNonce): SigningCommitment {
    SigningCommitment(nonce.index, Times(G, nonce.d), Times(G, nonce.e))
  }

  method GenerateNonces(index: u32, rng: Rng) returns (nonce: SigningNonce, commitment: SigningCommitment)
    modifies rng
    ensures nonce == SigningNonce(index, rng.tape(old(rng.drawn)), rng.tape(old(rng.drawn) + 1))
    ensures commitment == CommitmentTo(nonce)
    ensures rng.drawn == old(rng.drawn) + 2
  {
    var d := rng.RandomScalar();
    var e := rng.RandomScalar();
    nonce := SigningNonce(index, d, e);
    commitment := SigningCommitment(index, Times(G, d), Times(G, e));
  }

  // Binding factors, group commitment and challenge.

  function EncodeCommitments(crypto: Crypto, commitments: seq<SigningCommitment>): Bytes {
    if commitments == [] then []
    else
      LittleEndian(commitments[0].index, 4) + crypto.compress(commitments[0].hiding)
      + crypto.compress(commitments[0].binding) + EncodeCommitments(crypto, commitments[1..])
  }

  /** Everything that is hashed into a binding factor. */
  function BindingInput(crypto: Crypto, index: u32, message: Bytes, commitments: seq<SigningCommitment>): Bytes {
    LittleEndian(index, 4) + message + EncodeCommitments(crypto, commitments)
  }

  function Rho(crypto: Crypto, index: u32, message: Bytes, commitments: seq<SigningCommitment>): Scalar {
    crypto.hashToScalar(BindingInput(crypto, index, message, commitments))
  }

  method BindingFactor(crypto: Crypto, index: u32, message: Bytes, commitments: seq<SigningCommitment>)
      returns (rho: Scalar)
    ensures rho == Rho(crypto, index, message, commitments)
  {
    var data := LittleEndian(index, 4);
    data := data + message;
    for k := 0 to |commitments|
      invariant data + EncodeCommitments(crypto, commitments[k..]) == BindingInput(crypto, index, message, commitments)
    {
      var c := commitments[k];
      assert commitments[k..][1..] == commitments[k + 1..];
      data := data + LittleEndian(c.index, 4);
      data := data + crypto.compress(c.hiding);
      data := data + crypto.compress(c.binding);
    }
    assert commitments[|commitments|..] == [] && data + [] == data;
    rho := crypto.hashToScalar(data);
  }

  function GroupCommitment(crypto: Crypto, message: Bytes, commitments: seq<SigningCommitment>): Point {
    SumPoints(BoundCommitments(crypto, message, commitments))
  }

  function BoundCommitments(crypto: Crypto, message: Bytes, commitments: seq<SigningCommitment>): (ps: seq<Point>)
    ensures |ps| == |commitments|
  {
    seq(|commitments|, k requires 0 <= k < |commitments| =>
      AddPoints(commitments[k].hiding,
                Times(commitments[k].binding, Rho(crypto, commitments[k].index, message, commitments))))
  }

  method ComputeChallenge(crypto: Crypto, r: Point, publicKey: Point, message: Bytes) returns (c: Scalar)
    ensures c == Challenge(crypto, r, publicKey, message)
  {
    var hashed := crypto.compress(r);
    hashed := hashed + crypto.compress(publicKey);
    hashed := hashed + message;
    c := crypto.hashToScalar(hashed);
  }

  /** Everything that is hashed into a challenge. */
  function ChallengeInput(crypto: Crypto, r: Point, publicKey: Point, message: Bytes): Bytes {
    crypto.compress(r) + crypto.compress(publicKey) + message
  }

  function Challenge(crypto: Crypto, r: Point, publicKey: Point, message: Bytes): Scalar {
    crypto.hashToScalar(ChallengeInput(crypto, r, publicKey, message))
  }

  function SignerIndices(commitments: seq<SigningCommitment>): (indices: seq<u32>)
    ensures |indices| == |commitments|
  {
    seq(|commitments|, k requires 0 <= k < |commitments| => commitments[k].index)
  }

  // Round 2, verification and aggregation.

  function SignPartial(crypto: Crypto, keyShare: KeyShare, nonce: SigningNonce, message: Bytes,
                       commitments: seq<SigningCommitment>): PartialSignature {
    var r := GroupCommitment(crypto, message, commitments);
    var challenge := Challenge(crypto, r, keyShare.groupPublicKey, message);
    var rho := Rho(crypto, keyShare.index, message, commitments);
    var lambda := Lambda(keyShare.index, SignerIndices(commitments));
    PartialSignature(keyShare.index,
                     Add(Add(nonce.d, Mul(nonce.e, rho)), Mul(Mul(lambda, keyShare.secret), challenge)))
  }

  function VerifyPartial(crypto: Crypto, response: PartialSignature, commitment: SigningCommitment,
                         verificationShare: Point, message: Bytes, commitments: seq<SigningCommitment>,
                         groupPublicKey: Point): Result<()> {
    var r := GroupCommitment(crypto, message, commitments);
    var challenge := Challenge(crypto, r, groupPublicKey, message);
    var rho := Rho(crypto, response.index, message, commitments);
    var lambda := Lambda(response.index, SignerIndices(commitments));
    var lhs := Times(G, response.z);
    var rhs := AddPoints(AddPoints(commitment.hiding, Times(commitment.binding, rho)),
                         Times(verificationShare, Mul(lambda, challenge)));
    if lhs == rhs then Ok(()) else Err(InvalidSignature)
  }

  function Responses(partials: seq<PartialSignature>): (zs: seq<Scalar>)
    ensures |zs| == |partials|
  {
    seq(|partials|, k requires 0 <= k < |partials| => partials[k].z)
  }

  function Aggregate(crypto: Crypto, message: Bytes, commitments: seq<SigningCommitment>,
                     partials: seq<PartialSignature>): ThresholdSignature {
    ThresholdSignature(GroupCommitment(crypto, message, commitments), SumScalars(Responses(partials)))
  }

  function Verify(crypto: Crypto, signature: ThresholdSignature, publicKey: Point, message: Bytes): Result<()> {
    var challenge := Challenge(crypto, signature.r, publicKey, message);
    var lhs := Times(G, signature.s);
    var rhs := AddPoints(signature.r, Times(publicKey, challenge));
    if lhs == rhs then Ok(()) else Err(InvalidSignature)
  }

  // What the points and scalars above amount to in the exponent.

  /** The discrete logarithm of one signer's bound commitment. */
  function Blinding(crypto: Crypto, commitment: SigningCommitment, message: Bytes,
                    commitments: seq<SigningCommitment>): int {
    commitment.hiding.log + commitment.binding.log * Rho(crypto, commitment.index, message, commitments)
  }

  function Blindings(crypto: Crypto, message: Bytes, commitments: seq<SigningCommitment>): (b: seq<int>)
    ensures |b| == |commitments|
  {
    seq(|commitments|, k requires 0 <= k < |commitments| => Blinding(crypto, commitments[k], message, commitments))
  }

  lemma {:induction false} GroupCommitmentLog(crypto: Crypto, message: Bytes, commitments: seq<SigningCommitment>)
    ensures Cong(GroupCommitment(crypto, message, commitments).log, Sum(Blindings(crypto, message, commitments)))
  {
    hide Reduce, Rho;
    var bound, b := BoundCommitments(crypto, message, commitments), Blindings(crypto, message, commitments);
    forall k | 0 <= k < |commitments|
      ensures Cong(Logs(bound)[k], b[k])
    {
      var c, rho := commitments[k], Rho(crypto, commitments[k].index, message, commitments);
      CongAdd(c.hiding.log, c.hiding.log, Times(c.binding, rho).log, c.binding.log * rho);
    }
    SumCong(Logs(bound), b);
    SumPointsLog(bound);
  }

  /** `verify` accepts s under a public key iff s = (sum of blindings) + challenge * (log of the key). */
  lemma {:induction false} VerifyIsExact(crypto: Crypto, message: Bytes, commitments: seq<SigningCommitment>,
                                         partials: seq<PartialSignature>, publicKey: Point)
    ensures var r := GroupCommitment(crypto, message, commitments);
            Verify(crypto, Aggregate(crypto, message, commitments, partials), publicKey, message).Ok?
            <==> Cong(Sum(Responses(partials)),
                      Sum(Blindings(crypto, message, commitments))
                      + Challenge(crypto, r, publicKey, message) * publicKey.log)
  {
    hide Reduce, GroupCommitment, Challenge;
    var r := GroupCommitment(crypto, message, commitments);
    var c := Challenge(crypto, r, publicKey, message);
    GroupCommitmentLog(crypto, message, commitments);
    TimesG(SumScalars(Responses(partials)));
    var b := Sum(Blindings(crypto, message, commitments));
    CongAdd(r.log, b, Times(publicKey, c).log, publicKey.log * c);
    assert c * publicKey.log == publicKey.log * c;
  }
}
