/** Program-derived keys (crates/dkg/src/pdk.rs): one deterministic dealer whose coefficients are hashes. */
module Pdk {
  import opened Core
  import opened Scalars
  import opened Polynomials
  import opened Lagrange
  import opened Feldman
  import opened Encodings
  import opened Frost
  import opened FrostCorrectness
  import opened Epochs

  const DOMAIN := "CraftSEC-PDK-v1"

  const INFO := "coefficient"

  const SEPARATOR: byte := 0xFF

  function KeyMaterial(programCid: Str, seed: Str): Bytes {
    programCid + [SEPARATOR] + seed
  }

  /** Everything that is hashed for one coefficient. */
  function HashInput(programCid: Str, seed: Str, index: u32): Bytes {
    Ascii(DOMAIN) + KeyMaterial(programCid, seed) + Ascii(INFO) + LittleEndian(index, 4)
  }

  method DeriveScalar(crypto: Crypto, ikm: Bytes, info: Bytes, index: u32) returns (s: Scalar)
    ensures s == crypto.hashToScalar(Ascii(DOMAIN) + ikm + info + LittleEndian(index, 4))
  {
    var hashed := Ascii(DOMAIN);
    hashed := hashed + ikm;
    hashed := hashed + info;
    hashed := hashed + LittleEndian(index, 4);
    s := crypto.hashToScalar(hashed);
  }

  function Coefficient(crypto: Crypto, programCid: Str, seed: Str, index: u32): Scalar {
    crypto.hashToScalar(HashInput(programCid, seed, index))
  }

  function DerivedCoefficients(crypto: Crypto, programCid: Str, seed: Str, t: u32): (f: seq<Scalar>)
    ensures |f| == t
  {
    seq(t, i requires 0 <= i < t => Coefficient(crypto, programCid, seed, i))
  }

  /** The derived shares lie on the derived polynomial, so they meet the contract of a ceremony. Without coefficients
      there is no commitment to take the group key from. */
  method DeriveKey(crypto: Crypto, programCid: Str, seed: Str, config: ThresholdConfig)
      returns (r: Result<(Point, seq<KeyShare>)>)
    ensures config.threshold == 0 ==> r == Err(Panic)
    ensures var f := DerivedCoefficients(crypto, programCid, seed, config.threshold);
            config.threshold >= 1 ==> r == Ok((Point(Reduce(Eval(f, 0))), KeysOn(f, config.total)))
  {
    hide Reduce, Eval, HashInput;
    ghost var f := DerivedCoefficients(crypto, programCid, seed, config.threshold);
    var ikm := programCid;
    ikm := ikm + [SEPARATOR];
    ikm := ikm + seed;

    var coefficients := [];
    for i := 0 to config.threshold
      invariant |coefficients| == i
      invariant forall k :: 0 <= k < i ==> coefficients[k] == f[k]
    {
      var c := DeriveScalar(crypto, ikm, Ascii(INFO), i);
      CoefficientInput(programCid, seed, i);
      coefficients := coefficients + [c];
    }
    assert coefficients == f;
    var poly := Polynomial(coefficients);
    var commitments := Commit(poly.coefficients);
    if |commitments| == 0 {
      return Err(Panic);
    }
    var groupPublicKey := commitments[0];
    TimesG(coefficients[0]);
    ConstantTerm(coefficients);

    var keyShares := [];
    for i := 0 to config.total
      invariant |keyShares| == i
      invariant forall k :: 0 <= k < i ==> keyShares[k] == KeyOn(f, config.total, k + 1)
    {
      var secret := poly.Evaluate(i + 1);
      var verificationShares := DerivedVerificationShares(poly, config.total);
      keyShares := keyShares + [KeyShare(i + 1, secret, groupPublicKey, verificationShares)];
    }
    assert keyShares == KeysOn(f, config.total);
    r := Ok((groupPublicKey, keyShares));
  }

  lemma {:induction false} CoefficientInput(programCid: Str, seed: Str, i: u32)
    ensures HashInput(programCid, seed, i)
         == Ascii(DOMAIN) + (programCid + [SEPARATOR] + seed) + Ascii(INFO) + LittleEndian(i, 4)
  {
  }

  lemma {:induction false} ConstantTerm(f: seq<Scalar>)
    requires f != []
    ensures Reduce(Eval(f, 0)) == f[0]
  {
    EvalAtZero(f);
  }

  function DerivedVerificationShares(poly: Polynomial, n: u32): (v: seq<(u32, Point)>)
    ensures v == VerificationSharesOn(poly.coefficients, n)
  {
    var v := seq(n, j requires 0 <= j < n => (j + 1, Times(G, poly.At(j + 1))));
    assert forall j :: 0 <= j < n ==> v[j] == VerificationSharesOn(poly.coefficients, n)[j] by {
      forall j | 0 <= j < n
        ensures v[j] == VerificationSharesOn(poly.coefficients, n)[j]
      {
        TimesG(poly.At(j + 1));
      }
    }
    v
  }

  /** Any t holders of derived shares sign validly under the derived key. */
  lemma {:induction false} DerivedKeySigns(crypto: Crypto, programCid: Str, seed: Str, config: ThresholdConfig,
                                           s: Session)
    requires config.threshold >= 1
    requires var f := DerivedCoefficients(crypto, programCid, seed, config.threshold);
             SignersFrom(s, KeysOn(f, config.total))
    requires config.threshold <= |s.keys|
    ensures var f := DerivedCoefficients(crypto, programCid, seed, config.threshold);
            Verify(s.crypto, s.Signature(), Point(Reduce(Eval(f, 0))), s.message).Ok?
  {
    MembersSign(s, DerivedCoefficients(crypto, programCid, seed, config.threshold), config.total);
  }

  /** The separator: since a string never contains it, key material splits in one way only. */
  lemma {:induction false} KeyMaterialIsInjective(cid: Str, seed: Str, cid': Str, seed': Str)
    requires KeyMaterial(cid, seed) == KeyMaterial(cid', seed')
    ensures cid == cid' && seed == seed'
  {
    var m := KeyMaterial(cid, seed);
    assert m[|cid|] == SEPARATOR && m[|cid'|] == SEPARATOR;
    assert forall k :: 0 <= k < |cid| ==> m[k] == cid[k] && cid[k] in cid;
    assert forall k :: 0 <= k < |cid'| ==> m[k] == cid'[k] && cid'[k] in cid';
    SplitEqual(cid + [SEPARATOR], seed, cid' + [SEPARATOR], seed');
    SplitEqual(cid, [SEPARATOR], cid', [SEPARATOR]);
  }

  /** Distinct (CID, seed, coefficient index) are hashed as distinct byte strings. */
  lemma {:induction false} HashInputIsInjective(cid: Str, seed: Str, index: u32, cid': Str, seed': Str, index': u32)
    requires HashInput(cid, seed, index) == HashInput(cid', seed', index')
    ensures cid == cid' && seed == seed' && index == index'
  {
    var domain, info := Ascii(DOMAIN), Ascii(INFO);
    var m, m' := KeyMaterial(cid, seed), KeyMaterial(cid', seed');
    SplitEqual(domain + m + info, LittleEndian(index, 4), domain + m' + info, LittleEndian(index', 4));
    SplitEqual(domain + m, info, domain + m', info);
    SplitEqual(domain, m, domain, m');
    KeyMaterialIsInjective(cid, seed, cid', seed');
    assert Power256(4) == U32_LIMIT;
    LittleEndianRoundTrip(index, 4);
    LittleEndianRoundTrip(index', 4);
  }

  // What the derived coefficients depend on.

  /** Each coefficient is the hash of domain, CID, separator, seed, label and its own index. */
  lemma {:induction false} CoefficientsAreHashes(crypto: Crypto, cid: Str, seed: Str, t: u32, i: u32)
    requires i < t
    ensures DerivedCoefficients(crypto, cid, seed, t)[i]
         == crypto.hashToScalar(Ascii("CraftSEC-PDK-v1") + cid + [0xFF] + seed + Ascii("coefficient")
                                + LittleEndian(i, 4))
  {
    hide Ascii, LittleEndian;
    var whole := Ascii("CraftSEC-PDK-v1") + cid + [0xFF] + seed + Ascii("coefficient") + LittleEndian(i, 4);
    assert HashInput(cid, seed, i) == whole;
  }

  /** The two programs' coefficients, filed under what is hashed for them. */
  ghost function Table(cid: Str, seed: Str, g: seq<Scalar>, cid': Str, seed': Str, g': seq<Scalar>, x: Bytes): Scalar
    requires |g| < U32_LIMIT && |g'| < U32_LIMIT
  {
    if i: u32 :| i < |g| && HashInput(cid, seed, i) == x then g[i]
    else if j: u32 :| j < |g'| && HashInput(cid', seed', j) == x then g'[j]
    else 0
  }

  /** Programs are separated completely: for different (CID, seed), whatever two coefficient lists one asks for, some
      hash derives the one for the first and the other for the second. */
  lemma {:induction false} DerivationsAreIndependent(compress: Point -> Bytes, cid: Str, seed: Str, g: seq<Scalar>,
                                                     cid': Str, seed': Str, g': seq<Scalar>)
      returns (crypto: Crypto)
    requires (cid, seed) != (cid', seed') && |g| < U32_LIMIT && |g'| < U32_LIMIT
    ensures crypto.compress == compress
    ensures DerivedCoefficients(crypto, cid, seed, |g|) == g && DerivedCoefficients(crypto, cid', seed', |g'|) == g'
  {
    hide HashInput;
    crypto := Crypto((x: Bytes) => Table(cid, seed, g, cid', seed', g', x), compress);
    forall i | 0 <= i < |g|
      ensures DerivedCoefficients(crypto, cid, seed, |g|)[i] == g[i]
    {
      TableHolds(cid, seed, g, cid', seed', g', i);
    }
    forall j | 0 <= j < |g'|
      ensures DerivedCoefficients(crypto, cid', seed', |g'|)[j] == g'[j]
    {
      TableHoldsOther(cid, seed, g, cid', seed', g', j);
    }
  }

  lemma {:induction false} TableHolds(cid: Str, seed: Str, g: seq<Scalar>, cid': Str, seed': Str, g': seq<Scalar>,
                                      i: u32)
    requires i < |g| < U32_LIMIT && |g'| < U32_LIMIT
    ensures Table(cid, seed, g, cid', seed', g', HashInput(cid, seed, i)) == g[i]
  {
    hide HashInput;
    forall j: u32 | HashInput(cid, seed, j) == HashInput(cid, seed, i)
      ensures j == i
    {
      HashInputIsInjective(cid, seed, j, cid, seed, i);
    }
  }

  lemma {:induction false} TableHoldsOther(cid: Str, seed: Str, g: seq<Scalar>, cid': Str, seed': Str, g': seq<Scalar>,
                                           i: u32)
    requires (cid, seed) != (cid', seed') && |g| < U32_LIMIT && i < |g'| < U32_LIMIT
    ensures Table(cid, seed, g, cid', seed', g', HashInput(cid', seed', i)) == g'[i]
  {
    hide HashInput;
    forall j: u32 | HashInput(cid, seed, j) == HashInput(cid', seed', i)
      ensures false
    {
      HashInputIsInjective(cid, seed, j, cid', seed', i);
    }
    forall j: u32 | HashInput(cid', seed', j) == HashInput(cid', seed', i)
      ensures j == i
    {
      HashInputIsInjective(cid', seed', j, cid', seed', i);
    }
  }
}
