/** What the two hashes of the signing protocol are computed over (crates/signing/src/frost.rs): whether the hashed
    bytes determine their parts. */
module Transcripts {
  import opened Core
  import opened Scalars
  import opened Sums
  import opened Encodings
  import opened Frost

  /** Point compression as the curve library has it: 32 bytes that determine the point. */
  ghost predicate CompressesTo32(crypto: Crypto) {
    (forall p: Point :: |crypto.compress(p)| == 32) &&
    forall p: Point, q: Point :: crypto.compress(p) == crypto.compress(q) ==> p == q
  }

  lemma {:induction false} EncodedLength(crypto: Crypto, commitments: seq<SigningCommitment>)
    requires CompressesTo32(crypto)
    ensures |EncodeCommitments(crypto, commitments)| == 68 * |commitments|
  {
    if commitments == [] {
    } else {
      EncodedLength(crypto, commitments[1..]);
    }
  }

  /** Commitments are encoded one after the other, each as its index, its hiding and its binding point. */
  lemma {:induction false} EncodingConcatenates(crypto: Crypto, a: seq<SigningCommitment>, c: SigningCommitment,
                                                b: seq<SigningCommitment>)
    ensures EncodeCommitments(crypto, a + [c] + b)
         == EncodeCommitments(crypto, a)
            + (LittleEndian(c.index, 4) + crypto.compress(c.hiding) + crypto.compress(c.binding))
            + EncodeCommitments(crypto, b)
    decreases |a|
  {
    if a == [] {
      assert ([] + [c] + b)[1..] == b;
    } else {
      assert (a + [c] + b)[1..] == a[1..] + [c] + b;
      EncodingConcatenates(crypto, a[1..], c, b);
    }
  }

  lemma {:induction false} CommitmentsDecode(crypto: Crypto, a: seq<SigningCommitment>, b: seq<SigningCommitment>)
    requires CompressesTo32(crypto) && |a| == |b|
    requires EncodeCommitments(crypto, a) == EncodeCommitments(crypto, b)
    ensures a == b
  {
    if a == [] {
    } else {
      var x, y := a[0], b[0];
      var ix, iy := LittleEndian(x.index, 4), LittleEndian(y.index, 4);
      EncodedLength(crypto, a[1..]);
      EncodedLength(crypto, b[1..]);
      SplitEqual(ix + crypto.compress(x.hiding) + crypto.compress(x.binding), EncodeCommitments(crypto, a[1..]),
                 iy + crypto.compress(y.hiding) + crypto.compress(y.binding), EncodeCommitments(crypto, b[1..]));
      SplitEqual(ix + crypto.compress(x.hiding), crypto.compress(x.binding),
                 iy + crypto.compress(y.hiding), crypto.compress(y.binding));
      SplitEqual(ix, crypto.compress(x.hiding), iy, crypto.compress(y.hiding));
      IndexDecodes(x.index, y.index);
      CommitmentsDecode(crypto, a[1..], b[1..]);
      assert a == [x] + a[1..] && b == [y] + b[1..];
    }
  }

  lemma {:induction false} IndexDecodes(i: u32, j: u32)
    requires LittleEndian(i, 4) == LittleEndian(j, 4)
    ensures i == j
  {
    assert Power256(4) == U32_LIMIT;
    LittleEndianRoundTrip(i, 4);
    LittleEndianRoundTrip(j, 4);
  }

  /** The binding factor's input has no length for the message: two inputs with the same bytes have the same index,
      message and commitments iff they have equally many commitments. */
  lemma {:induction false} BindingInputExact(crypto: Crypto, i: u32, m: Bytes, a: seq<SigningCommitment>,
                                             j: u32, n: Bytes, b: seq<SigningCommitment>)
    requires CompressesTo32(crypto) && BindingInput(crypto, i, m, a) == BindingInput(crypto, j, n, b)
    ensures i == j
    ensures (m == n && a == b) <==> |a| == |b|
  {
    var x, y := EncodeCommitments(crypto, a), EncodeCommitments(crypto, b);
    var di, dj := LittleEndian(i, 4), LittleEndian(j, 4);
    assert di == BindingInput(crypto, i, m, a)[..4] && dj == BindingInput(crypto, j, n, b)[..4];
    IndexDecodes(i, j);
    if |a| == |b| {
      EncodedLength(crypto, a);
      EncodedLength(crypto, b);
      SplitEqual(di + m, x, dj + n, y);
      SplitEqual(di, m, dj, n);
      CommitmentsDecode(crypto, a, b);
    }
  }

  /** Inputs that differ and are hashed alike: a commitment listed, or its encoding sent as the message. */
  lemma {:induction false} BindingInputsCollide(crypto: Crypto, i: u32, c: SigningCommitment)
    ensures BindingInput(crypto, i, EncodeCommitments(crypto, [c]), []) == BindingInput(crypto, i, [], [c])
  {
    var encoded := EncodeCommitments(crypto, [c]);
    assert BindingInput(crypto, i, encoded, []) == LittleEndian(i, 4) + encoded + [];
    assert BindingInput(crypto, i, [], [c]) == LittleEndian(i, 4) + [] + encoded;
  }

  /** The challenge's input determines the commitment, the key and the message. */
  lemma {:induction false} ChallengeInputIsInjective(crypto: Crypto, r: Point, key: Point, m: Bytes,
                                                     r': Point, key': Point, m': Bytes)
    requires CompressesTo32(crypto) && ChallengeInput(crypto, r, key, m) == ChallengeInput(crypto, r', key', m')
    ensures r == r' && key == key' && m == m'
  {
    var input := ChallengeInput(crypto, r, key, m);
    assert crypto.compress(r) == input[..32] == crypto.compress(r');
    assert crypto.compress(key) == input[32..64] == crypto.compress(key');
    assert m == input[64..] == m';
  }

  // What the verifier and the signers read.

  /** `verify`, for any signature and key: s G = R + H(R, key, message) key, the hash taken over all three. */
  lemma {:induction false} VerifyEquation(crypto: Crypto, signature: ThresholdSignature, key: Point, m: Bytes)
    ensures Verify(crypto, signature, key, m).Ok? <==>
            Cong(signature.s, signature.r.log
                 + crypto.hashToScalar(crypto.compress(signature.r) + crypto.compress(key) + m) * key.log)
  {
    hide Reduce;
    var c := crypto.hashToScalar(crypto.compress(signature.r) + crypto.compress(key) + m);
    TimesG(signature.s);
    CongAdd(signature.r.log, signature.r.log, Times(key, c).log, key.log * c);
    assert key.log * c == c * key.log;
  }

  /** A signature on m is accepted for m' too iff the hash agrees on the two strings. */
  lemma {:induction false} OtherMessageExactly(crypto: Crypto, signature: ThresholdSignature, key: Point, m: Bytes,
                                               m': Bytes)
    requires key != IDENTITY && Verify(crypto, signature, key, m).Ok?
    ensures var prefix := crypto.compress(signature.r) + crypto.compress(key);
            Verify(crypto, signature, key, m').Ok? <==>
            crypto.hashToScalar(prefix + m) == crypto.hashToScalar(prefix + m')
  {
    hide Reduce, Verify;
    var prefix := crypto.compress(signature.r) + crypto.compress(key);
    VerifyEquation(crypto, signature, key, m);
    VerifyEquation(crypto, signature, key, m');
    SameMultiple(signature.s, signature.r.log, crypto.hashToScalar(prefix + m), crypto.hashToScalar(prefix + m'),
                 key.log);
  }

  lemma {:induction false} SameMultiple(s: int, r: int, c: Scalar, c': Scalar, k: Scalar)
    requires k != 0 && Cong(s, r + c * k)
    ensures Cong(s, r + c' * k) <==> c == c'
  {
    hide Reduce;
    if Cong(s, r + c' * k) {
      CongAdd(r + c * k, r + c' * k, r, r);
      assert c * k == k * c && c' * k == k * c';
      if Cong(k, 0) {
        CongSmall(k, 0);
      }
      Cancel(k, c, c');
      CongSmall(c, c');
    }
  }

  /** So the message, the key and the commitment are all signed: for any two different triples there is a hash under
      which the signature of challenge one is accepted for the first and rejected for the second. */
  lemma {:induction false} SignatureBindsEverything(compress: Point -> Bytes, r: Point, key: Point, m: Bytes,
                                                    r': Point, key': Point, m': Bytes)
      returns (crypto: Crypto)
    requires CompressesTo32(Crypto(_ => 0, compress))
    requires (r, key, m) != (r', key', m') && key' != IDENTITY
    ensures crypto.compress == compress
    ensures Verify(crypto, ThresholdSignature(r, Add(r.log, key.log)), key, m).Ok?
    ensures Verify(crypto, ThresholdSignature(r', Add(r'.log, key'.log)), key', m').Err?
  {
    hide Reduce, Verify;
    var input, input' := compress(r) + compress(key) + m, compress(r') + compress(key') + m';
    crypto := Crypto((x: Bytes) => if x == input then 1 else 0, compress);
    if input == input' {
      ChallengeInputIsInjective(Crypto(_ => 0, compress), r, key, m, r', key', m');
    }
    VerifyEquation(crypto, ThresholdSignature(r, Add(r.log, key.log)), key, m);
    VerifyEquation(crypto, ThresholdSignature(r', Add(r'.log, key'.log)), key', m');
    if Cong(Add(r'.log, key'.log), r'.log) {
      CongAdd(r'.log + key'.log, r'.log, r'.log, r'.log);
      CongSmall(key'.log, 0);
    }
  }

  /** The group commitment weighs each signer's binding point with the hash of its index, the message and all
      commitments. */
  lemma {:induction false} GroupCommitmentHashes(crypto: Crypto, m: Bytes, cs: seq<SigningCommitment>)
    ensures Cong(GroupCommitment(crypto, m, cs).log,
                 Sum(seq(|cs|, k requires 0 <= k < |cs| => cs[k].hiding.log + cs[k].binding.log
                       * crypto.hashToScalar(LittleEndian(cs[k].index, 4) + m + EncodeCommitments(crypto, cs)))))
  {
    hide Reduce, EncodeCommitments;
    GroupCommitmentLog(crypto, m, cs);
    assert Blindings(crypto, m, cs)
        == seq(|cs|, k requires 0 <= k < |cs| => cs[k].hiding.log + cs[k].binding.log
               * crypto.hashToScalar(LittleEndian(cs[k].index, 4) + m + EncodeCommitments(crypto, cs)));
  }

  /** Two signers, messages or commitment lists have the same binding factor iff the hash agrees on the two strings;
      and for equally many commitments that is up to the hash: some hash tells any two of them apart. */
  lemma {:induction false} BindingFactorsSeparate(compress: Point -> Bytes, i: u32, m: Bytes, a: seq<SigningCommitment>,
                                                  j: u32, n: Bytes, b: seq<SigningCommitment>)
      returns (crypto: Crypto)
    requires CompressesTo32(Crypto(_ => 0, compress))
    requires |a| == |b| && (i, m, a) != (j, n, b)
    ensures crypto.compress == compress && Rho(crypto, i, m, a) != Rho(crypto, j, n, b)
    ensures forall other: Crypto ::
              Rho(other, i, m, a) == Rho(other, j, n, b) <==>
              other.hashToScalar(LittleEndian(i, 4) + m + EncodeCommitments(other, a))
              == other.hashToScalar(LittleEndian(j, 4) + n + EncodeCommitments(other, b))
  {
    var dummy := Crypto(_ => 0, compress);
    var input := BindingInput(dummy, i, m, a);
    crypto := Crypto((x: Bytes) => if x == input then 1 else 0, compress);
    EncodingNeedsNoHash(dummy, crypto, a);
    EncodingNeedsNoHash(dummy, crypto, b);
    if BindingInput(dummy, i, m, a) == BindingInput(dummy, j, n, b) {
      BindingInputExact(dummy, i, m, a, j, n, b);
    }
  }

  lemma {:induction false} EncodingNeedsNoHash(x: Crypto, y: Crypto, cs: seq<SigningCommitment>)
    requires x.compress == y.compress
    ensures EncodeCommitments(x, cs) == EncodeCommitments(y, cs)
  {
    if cs == [] {
    } else {
      EncodingNeedsNoHash(x, y, cs[1..]);
    }
  }
}
