/** The client (crates/client/src/lib.rs): collecting answers, two signing rounds, verification before return. */
module Clients {
  import opened Core
  import opened Scalars
  import opened Transcripts
  import opened Frost
  import opened Nodes
  import opened Transports

  /** A transport as the client sees it: an arbitrary state and two arbitrary, possibly state-changing, calls. */
  datatype TransportFns<!S> = TransportFns(
    round1: (S, nat, AttestationRequest) -> (S, Result<Round1Response>),
    round2: (S, nat, Bytes, seq<SigningCommitment>) -> (S, Result<PartialSignature>))

  class Transport<!S> {
    const fns: TransportFns<S>
    var state: S

    constructor (fns: TransportFns<S>, state: S)
      ensures this.fns == fns && this.state == state
    {
      this.fns := fns;
      this.state := state;
    }

    method Round1(i: nat, request: AttestationRequest) returns (r: Result<Round1Response>)
      modifies this
      ensures (state, r) == fns.round1(old(state), i, request)
    {
      var (next, answer) := fns.round1(state, i, request);
      state := next;
      r := answer;
    }

    method Round2(i: nat, message: Bytes, commitments: seq<SigningCommitment>) returns (r: Result<PartialSignature>)
      modifies this
      ensures (state, r) == fns.round2(old(state), i, message, commitments)
    {
      var (next, answer) := fns.round2(state, i, message, commitments);
      state := next;
      r := answer;
    }
  }

  datatype AttestedTransaction = AttestedTransaction(
    transaction: Transaction,
    signature: ThresholdSignature,
    groupPublicKey: Point) {

    /** What anyone who holds an attested transaction can check. */
    function Check(crypto: Crypto, signingBytes: Transaction -> Bytes): Result<()> {
      Verify(crypto, signature, groupPublicKey, signingBytes(transaction))
    }
  }

  /** The check holds iff the signature satisfies the verification equation for the transaction's bytes. */
  lemma {:induction false} CheckIsExact(a: AttestedTransaction, crypto: Crypto, signingBytes: Transaction -> Bytes)
    ensures var r, key := a.signature.r, a.groupPublicKey;
            a.Check(crypto, signingBytes).Ok? <==>
            Cong(a.signature.s, r.log + crypto.hashToScalar(crypto.compress(r) + crypto.compress(key)
                                                            + signingBytes(a.transaction)) * key.log)
  {
    VerifyEquation(crypto, a.signature, a.groupPublicKey, signingBytes(a.transaction));
  }

  type Response = (nat, Round1Response)

  /** What the client is configured with, and the library functions it relies on. */
  datatype Client = Client(
    crypto: Crypto,
    signingBytes: Transaction -> Bytes,
    groupPublicKey: Point,
    threshold: u32,
    nodeCount: nat)

  // The specification of a run.

  /** The collection loop from node i on, with the responses collected so far. A panic of the transport ends it. */
  function Collect<S>(t: TransportFns<S>, st: S, request: AttestationRequest, c: Client, i: nat, acc: seq<Response>)
      : (S, Result<seq<Response>>)
    decreases c.nodeCount - i
  {
    if i >= c.nodeCount then (st, Ok(acc))
    else
      var (next, r) := t.round1(st, i, request);
      match r
      case Err(Panic) => (next, Err(Panic))
      case Err(_) => Collect(t, next, request, c, i + 1, acc)
      case Ok(resp) =>
        var acc' := if resp.result.Valid? then acc + [(i, resp)] else acc;
        if |acc'| >= c.threshold then (next, Ok(acc'))
        else Collect(t, next, request, c, i + 1, acc')
  }

  /** Round 2 over the responses from position k on. */
  function CollectPartials<S>(t: TransportFns<S>, st: S, message: Bytes, commitments: seq<SigningCommitment>,
                              valid: seq<Response>, k: nat, acc: seq<PartialSignature>)
      : (S, Result<seq<PartialSignature>>)
    decreases |valid| - k
  {
    if k >= |valid| then (st, Ok(acc))
    else
      var (next, r) := t.round2(st, valid[k].0, message, commitments);
      match r
      case Err(e) => (next, Err(e))
      case Ok(response) => CollectPartials(t, next, message, commitments, valid, k + 1, acc + [response])
  }

  predicate AllCommitted(valid: seq<Response>) {
    forall k :: 0 <= k < |valid| ==> valid[k].1.commitment.Some?
  }

  function CommitmentsOf(valid: seq<Response>): (cs: seq<SigningCommitment>)
    requires AllCommitted(valid)
    ensures |cs| == |valid|
  {
    seq(|valid|, k requires 0 <= k < |valid| => valid[k].1.commitment.value)
  }

  /** Everything after the collection loop, for the responses it collected. */
  function SignCollected<S>(t: TransportFns<S>, st: S, c: Client, valid: seq<Response>)
      : (S, Result<AttestedTransaction>)
  {
    if |valid| < c.threshold then (st, Err(InsufficientShares(|valid|, c.threshold)))
    else if valid == [] || !valid[0].1.result.Valid? || !AllCommitted(valid) then (st, Err(Panic))
    else
      var transaction := valid[0].1.result.transaction;
      var message := c.signingBytes(transaction);
      var commitments := CommitmentsOf(valid);
      var (next, r) := CollectPartials(t, st, message, commitments, valid, 0, []);
      match r
      case Err(e) => (next, Err(e))
      case Ok(partials) =>
        var signature := Aggregate(c.crypto, message, commitments, partials);
        match Verify(c.crypto, signature, c.groupPublicKey, message)
        case Err(e) => (next, Err(e))
        case Ok(_) => (next, Ok(AttestedTransaction(transaction, signature, c.groupPublicKey)))
  }

  function Attested<S>(t: TransportFns<S>, st: S, c: Client, request: AttestationRequest)
      : (S, Result<AttestedTransaction>)
  {
    var (collected, r) := Collect(t, st, request, c, 0, []);
    match r
    case Err(e) => (collected, Err(e))
    case Ok(valid) => SignCollected(t, collected, c, valid)
  }

  method Attest<S>(c: Client, transport: Transport<S>, request: AttestationRequest)
      returns (r: Result<AttestedTransaction>)
    modifies transport
    ensures (transport.state, r) == Attested(transport.fns, old(transport.state), c, request)
  {
    var validResponses: seq<Response> := [];
    var transaction: Option<Transaction> := None;
    ghost var start := transport.state;
    ghost var outcome := Collect(transport.fns, start, request, c, 0, []);
    for i := 0 to c.nodeCount
      invariant Collect(transport.fns, transport.state, request, c, i, validResponses) == outcome
      invariant forall k :: 0 <= k < |validResponses| ==> validResponses[k].1.result.Valid?
      invariant transaction
             == if validResponses == [] then None else Some(validResponses[0].1.result.transaction)
    {
      var answer := transport.Round1(i, request);
      match answer {
        case Ok(resp) =>
          if resp.result.Valid? {
            if transaction.None? {
              transaction := Some(resp.result.transaction);
            }
            validResponses := validResponses + [(i, resp)];
          }
        case Err(Panic) =>
          return Err(Panic);
        case Err(_) =>
          continue;
      }
      if |validResponses| >= c.threshold {
        break;
      }
    }
    assert outcome == (transport.state, Ok(validResponses));

    if |validResponses| < c.threshold {
      return Err(InsufficientShares(|validResponses|, c.threshold));
    }
    if transaction.None? || !AllCommitted(validResponses) {
      return Err(Panic);
    }
    var message := c.signingBytes(transaction.value);
    var commitments := CommitmentsOf(validResponses);

    ghost var second := transport.state;
    var partials: seq<PartialSignature> := [];
    for k := 0 to |validResponses|
      invariant CollectPartials(transport.fns, transport.state, message, commitments, validResponses, k, partials)
             == CollectPartials(transport.fns, second, message, commitments, validResponses, 0, [])
    {
      var answer := transport.Round2(validResponses[k].0, message, commitments);
      match answer {
        case Err(e) =>
          return Err(e);
        case Ok(response) =>
          partials := partials + [response];
      }
    }

    var signature := Aggregate(c.crypto, message, commitments, partials);
    var verified := Verify(c.crypto, signature, c.groupPublicKey, message);
    if verified.Err? {
      return Err(verified.error);
    }
    r := Ok(AttestedTransaction(transaction.value, signature, c.groupPublicKey));
  }

  // Safety, for every transport.

  /** The transport's state after the first i nodes were polled. */
  function PolledState<S>(t: TransportFns<S>, st: S, request: AttestationRequest, i: nat): S {
    if i == 0 then st else t.round1(PolledState(t, st, request, i - 1), i - 1, request).0
  }

  /** Node i's answer in a run of the client. */
  function AnswerOf<S>(t: TransportFns<S>, st: S, request: AttestationRequest, i: nat): Result<Round1Response> {
    t.round1(PolledState(t, st, request, i), i, request).1
  }

  predicate AnswersValid<S>(t: TransportFns<S>, st: S, request: AttestationRequest, i: nat) {
    AnswerOf(t, st, request, i).Ok? && AnswerOf(t, st, request, i).value.result.Valid?
  }

  /** The valid answers of the nodes below i. */
  function ValidAnswers<S>(t: TransportFns<S>, st: S, request: AttestationRequest, i: nat): seq<Response> {
    if i == 0 then []
    else
      var earlier := ValidAnswers(t, st, request, i - 1);
      if AnswersValid(t, st, request, i - 1) then earlier + [(i - 1, AnswerOf(t, st, request, i - 1).value)]
      else earlier
  }

  /** The responses are valid answers of nodes below i: only those, all of those, in order. */
  ghost predicate AreValidAnswers<S>(t: TransportFns<S>, st: S, request: AttestationRequest, valid: seq<Response>,
                                     i: nat) {
    (forall k :: 0 <= k < |valid| ==> valid[k].0 < i && GivenBy(t, st, request, valid[k])) &&
    (forall j, k :: 0 <= j < k < |valid| ==> valid[j].0 < valid[k].0) &&
    (forall j: nat :: j < i && AnswersValid(t, st, request, j) ==> exists k :: 0 <= k < |valid| && valid[k].0 == j)
  }

  /** The response is its node's valid answer in the run. */
  ghost predicate GivenBy<S>(t: TransportFns<S>, st: S, request: AttestationRequest, r: Response) {
    AnswersValid(t, st, request, r.0) && AnswerOf(t, st, request, r.0) == Ok(r.1)
  }

  lemma {:induction false} AppendAnswer<S>(t: TransportFns<S>, st: S, request: AttestationRequest,
                                           acc: seq<Response>, r: Response)
    requires AreValidAnswers(t, st, request, acc, r.0) && GivenBy(t, st, request, r)
    ensures AreValidAnswers(t, st, request, acc + [r], r.0 + 1)
  {
    hide AnswersValid, GivenBy;
    var acc' := acc + [r];
    forall j: nat | j < r.0 + 1 && AnswersValid(t, st, request, j)
      ensures exists k :: 0 <= k < |acc'| && acc'[k].0 == j
    {
      if j < r.0 {
        var k :| 0 <= k < |acc| && acc[k].0 == j;
        assert acc'[k].0 == j;
      } else {
        assert acc'[|acc|].0 == j;
      }
    }
  }

  lemma {:induction false} AnswerIsGiven<S>(t: TransportFns<S>, st: S, request: AttestationRequest, i: nat)
    requires AnswersValid(t, st, request, i)
    ensures GivenBy(t, st, request, (i, AnswerOf(t, st, request, i).value))
  {
  }

  lemma {:induction false} ValidAnswersAreThose<S>(t: TransportFns<S>, st: S, request: AttestationRequest, i: nat)
    ensures AreValidAnswers(t, st, request, ValidAnswers(t, st, request, i), i)
  {
    hide AnswersValid, AnswerOf, GivenBy;
    if i == 0 {
    } else {
      ValidAnswersAreThose(t, st, request, i - 1);
      if AnswersValid(t, st, request, i - 1) {
        AnswerIsGiven(t, st, request, i - 1);
        AppendAnswer(t, st, request, ValidAnswers(t, st, request, i - 1),
                     (i - 1, AnswerOf(t, st, request, i - 1).value));
      }
    }
  }

  /** The answers that a client gathers: the first valid ones, as many as the threshold asks for, one at least. */
  function Contributors<S>(t: TransportFns<S>, st: S, c: Client, request: AttestationRequest): seq<Response> {
    var all, needed := ValidAnswers(t, st, request, c.nodeCount), if c.threshold == 0 then 1 else c.threshold;
    if |all| <= needed then all else all[..needed]
  }

  lemma {:induction false} ValidAnswersGrow<S>(t: TransportFns<S>, st: S, request: AttestationRequest, i: nat, j: nat)
    requires i <= j
    ensures ValidAnswers(t, st, request, i) <= ValidAnswers(t, st, request, j)
    decreases j
  {
    hide AnswersValid, AnswerOf;
    if i == j {
    } else {
      ValidAnswersGrow(t, st, request, i, j - 1);
    }
  }

  lemma {:induction false} ContributorsAreThose<S>(t: TransportFns<S>, st: S, c: Client, request: AttestationRequest)
    requires Contributors(t, st, c, request) != []
    ensures var valid := Contributors(t, st, c, request); var last := valid[|valid| - 1].0;
            last < c.nodeCount && AreValidAnswers(t, st, request, valid, last + 1)
            && |valid| <= (if c.threshold == 0 then 1 else c.threshold)
            && forall j: nat :: j < valid[0].0 ==> !AnswersValid(t, st, request, j)
  {
    hide ValidAnswers, AnswersValid, GivenBy;
    var valid, all := Contributors(t, st, c, request), ValidAnswers(t, st, request, c.nodeCount);
    ValidAnswersAreThose(t, st, request, c.nodeCount);
    assert forall k :: 0 <= k < |valid| ==> valid[k] == all[k];
    forall j: nat | j <= valid[|valid| - 1].0 && AnswersValid(t, st, request, j)
      ensures exists k :: 0 <= k < |valid| && valid[k].0 == j
    {
      var k :| 0 <= k < |all| && all[k].0 == j;
      if k >= |valid| {
        assert false;
      }
      assert valid[k].0 == j;
    }
    forall j: nat | j < valid[0].0
      ensures !AnswersValid(t, st, request, j)
    {
      if AnswersValid(t, st, request, j) {
        assert false;
      }
    }
  }

  lemma {:induction false} EnoughAnswers<S>(t: TransportFns<S>, st: S, c: Client, request: AttestationRequest, i: nat)
    requires i <= c.nodeCount
    requires var count := |ValidAnswers(t, st, request, i)|;
             count == (if c.threshold == 0 then 1 else c.threshold)
             || (i == c.nodeCount && count <= (if c.threshold == 0 then 1 else c.threshold))
    ensures ValidAnswers(t, st, request, i) == Contributors(t, st, c, request)
  {
    hide ValidAnswers;
    ValidAnswersGrow(t, st, request, i, c.nodeCount);
  }

  /** What the collection loop returns, if anything, are the contributors; it stops right after the last of them, or,
      when there are too few, after the last node. */
  lemma {:induction false} CollectsContributors<S>(t: TransportFns<S>, st: S, c: Client, request: AttestationRequest,
                                                   i: nat)
    requires i <= c.nodeCount
    requires |ValidAnswers(t, st, request, i)| < c.threshold || ValidAnswers(t, st, request, i) == []
    ensures var acc := ValidAnswers(t, st, request, i);
            var (after, r) := Collect(t, PolledState(t, st, request, i), request, c, i, acc);
            (r.Ok? && (r.value != [] || c.threshold >= 1) ==> r.value == Contributors(t, st, c, request))
            && (r.Ok? && r.value != [] && |r.value| >= c.threshold ==>
                  after == PolledState(t, st, request, r.value[|r.value| - 1].0 + 1))
            && (r.Err? ==>
                  r.error == Panic && exists j: nat :: j < c.nodeCount && AnswerOf(t, st, request, j) == Err(Panic))
    decreases c.nodeCount - i
  {
    hide Contributors;
    var acc := ValidAnswers(t, st, request, i);
    if i == c.nodeCount {
      EnoughAnswers(t, st, c, request, i);
    } else {
      assert PolledState(t, st, request, i + 1) == t.round1(PolledState(t, st, request, i), i, request).0;
      var answer, acc' := AnswerOf(t, st, request, i), ValidAnswers(t, st, request, i + 1);
      assert acc' == if AnswersValid(t, st, request, i) then acc + [(i, answer.value)] else acc;
      if answer.Ok? && |acc'| >= c.threshold {
        if acc' != [] {
          EnoughAnswers(t, st, c, request, i + 1);
        }
      } else if answer != Err(Panic) {
        CollectsContributors(t, st, c, request, i + 1);
      }
    }
  }

  // The second round.

  /** The transport's state after the first k contributors answered round 2, which started in the state `second`. */
  function SignedState<S>(t: TransportFns<S>, second: S, message: Bytes, commitments: seq<SigningCommitment>,
                          valid: seq<Response>, k: nat): S
    requires k <= |valid|
  {
    if k == 0 then second
    else t.round2(SignedState(t, second, message, commitments, valid, k - 1), valid[k - 1].0, message, commitments).0
  }

  /** Contributor k's answer in round 2. */
  function PartialOf<S>(t: TransportFns<S>, second: S, message: Bytes, commitments: seq<SigningCommitment>,
                        valid: seq<Response>, k: nat): Result<PartialSignature>
    requires k < |valid|
  {
    t.round2(SignedState(t, second, message, commitments, valid, k), valid[k].0, message, commitments).1
  }

  /** Round 2 returns every contributor's answer in order, or the first error. */
  lemma {:induction false} PartialsAreTheAnswers<S>(t: TransportFns<S>, second: S, message: Bytes,
                                                    commitments: seq<SigningCommitment>, valid: seq<Response>, k: nat,
                                                    acc: seq<PartialSignature>)
    requires k == |acc| <= |valid|
    requires forall j :: 0 <= j < k ==> PartialOf(t, second, message, commitments, valid, j) == Ok(acc[j])
    ensures var r := CollectPartials(t, SignedState(t, second, message, commitments, valid, k), message, commitments,
                                     valid, k, acc).1;
            match r
            case Ok(partials) =>
              |partials| == |valid|
              && forall j :: 0 <= j < |valid| ==>
                   PartialOf(t, second, message, commitments, valid, j) == Ok(partials[j])
            case Err(e) =>
              exists j :: 0 <= j < |valid| && PartialOf(t, second, message, commitments, valid, j) == Err(e)
                          && forall i :: 0 <= i < j ==> PartialOf(t, second, message, commitments, valid, i).Ok?
    decreases |valid| - k
  {
    if k == |valid| {
    } else {
      var answer := PartialOf(t, second, message, commitments, valid, k);
      if answer.Ok? {
        PartialsAreTheAnswers(t, second, message, commitments, valid, k + 1, acc + [answer.value]);
      }
    }
  }

  /** What an attested transaction is backed by. */
  ghost predicate Backed<S>(t: TransportFns<S>, st: S, c: Client, request: AttestationRequest, a: AttestedTransaction) {
    var valid, message := Contributors(t, st, c, request), c.signingBytes(a.transaction);
    // it passes the check under the client's key
    && a.groupPublicKey == c.groupPublicKey
    && a.Check(c.crypto, c.signingBytes).Ok?
    // exactly as many distinct nodes as the threshold asks for contributed, each answered Valid, none was skipped
    && |valid| == (if c.threshold == 0 then 1 else c.threshold)
    && valid[|valid| - 1].0 < c.nodeCount
    && AreValidAnswers(t, st, request, valid, valid[|valid| - 1].0 + 1)
    // the transaction is the valid answer of the lowest-numbered node
    && valid[0].1.result.transaction == a.transaction
    && (forall j: nat :: j < valid[0].0 ==> !AnswersValid(t, st, request, j))
    // the signature aggregates what the contributors answered in round 2 to their own commitments
    && AllCommitted(valid)
    && exists partials: seq<PartialSignature> ::
         Answered(t, PolledState(t, st, request, valid[|valid| - 1].0 + 1), message, valid, partials)
         && a.signature == Aggregate(c.crypto, message, CommitmentsOf(valid), partials)
  }

  /** The contributors' answers to the transaction's bytes and all commitments. */
  ghost predicate Answered<S>(t: TransportFns<S>, second: S, message: Bytes, valid: seq<Response>,
                              partials: seq<PartialSignature>)
    requires AllCommitted(valid)
  {
    |partials| == |valid| &&
    forall k :: 0 <= k < |valid| ==> PartialOf(t, second, message, CommitmentsOf(valid), valid, k) == Ok(partials[k])
  }

  /** Client safety: whatever the transport does, a transaction that `attest` returns is backed. */
  lemma {:induction false} AttestIsSafe<S>(t: TransportFns<S>, st: S, c: Client, request: AttestationRequest)
    ensures var r := Attested(t, st, c, request).1;
            r.Ok? ==> Backed(t, st, c, request, r.value)
  {
    hide Verify, Aggregate, AreValidAnswers, AnswerOf, Contributors, PartialOf;
    var (second, r) := Collect(t, st, request, c, 0, []);
    var attested := Attested(t, st, c, request).1;
    if attested.Ok? {
      var valid := r.value;
      CollectsContributors(t, st, c, request, 0);
      ContributorsAreThose(t, st, c, request);
      var message := c.signingBytes(valid[0].1.result.transaction);
      PartialsAreTheAnswers(t, second, message, CommitmentsOf(valid), valid, 0, []);
      var partials := CollectPartials(t, second, message, CommitmentsOf(valid), valid, 0, []).1.value;
      assert Answered(t, second, message, valid, partials);
      assert attested.value.signature == Aggregate(c.crypto, message, CommitmentsOf(valid), partials);
    }
  }

  /** Client failure: an error says that the transport panicked, or how many valid answers there were, or that a valid
      answer lacked its commitment, or it is the first contributor's own round-2 error, or the signature failed. */
  lemma {:induction false} AttestFailsForAReason<S>(t: TransportFns<S>, st: S, c: Client, request: AttestationRequest)
    requires c.threshold >= 1
    ensures var r, valid := Attested(t, st, c, request).1, Contributors(t, st, c, request);
            r.Err? ==>
              || (r.error == Panic && exists j: nat :: j < c.nodeCount && AnswerOf(t, st, request, j) == Err(Panic))
              || (r.error == InsufficientShares(|valid|, c.threshold) && |valid| < c.threshold)
              || (r.error == Panic && |valid| == c.threshold && !AllCommitted(valid))
              || (|valid| == c.threshold && AllCommitted(valid) && FailsInRound2(t, st, c, request, valid, r.error))
              || (|valid| == c.threshold && r.error == InvalidSignature)
  {
    hide Verify, Aggregate, AreValidAnswers, AnswerOf, Contributors, PartialOf;
    var (second, r) := Collect(t, st, request, c, 0, []);
    CollectsContributors(t, st, c, request, 0);
    if r.Ok? && |r.value| >= c.threshold {
      var valid := r.value;
      ContributorsAreThose(t, st, c, request);
      FirstIsValid(t, st, c, request);
      if AllCommitted(valid) {
        var message := c.signingBytes(valid[0].1.result.transaction);
        PartialsAreTheAnswers(t, second, message, CommitmentsOf(valid), valid, 0, []);
        var partials := CollectPartials(t, second, message, CommitmentsOf(valid), valid, 0, []).1;
        if partials.Ok? {
          VerifyResult(c.crypto, Aggregate(c.crypto, message, CommitmentsOf(valid), partials.value), c.groupPublicKey,
                       message);
        }
      }
    }
  }

  /** The error is the first that a contributor answered in round 2. */
  ghost predicate FailsInRound2<S>(t: TransportFns<S>, st: S, c: Client, request: AttestationRequest,
                                   valid: seq<Response>, e: Error)
    requires valid != [] && AllCommitted(valid)
  {
    valid[0].1.result.Valid? &&
    var message := c.signingBytes(valid[0].1.result.transaction);
    var second := PolledState(t, st, request, valid[|valid| - 1].0 + 1);
    exists k :: 0 <= k < |valid| && PartialOf(t, second, message, CommitmentsOf(valid), valid, k) == Err(e)
                && forall i :: 0 <= i < k ==> PartialOf(t, second, message, CommitmentsOf(valid), valid, i).Ok?
  }

  lemma {:induction false} FirstIsValid<S>(t: TransportFns<S>, st: S, c: Client, request: AttestationRequest)
    requires Contributors(t, st, c, request) != []
    ensures Contributors(t, st, c, request)[0].1.result.Valid?
  {
    hide Contributors;
    ContributorsAreThose(t, st, c, request);
  }

  lemma {:induction false} VerifyResult(crypto: Crypto, signature: ThresholdSignature, key: Point, message: Bytes)
    ensures Verify(crypto, signature, key, message) in {Ok(()), Err(InvalidSignature)}
  {
  }

  /** Every contributor validated the given transaction. */
  ghost predicate ContributorsValidated(valid: seq<Response>, a: AttestedTransaction) {
    forall k :: 0 <= k < |valid| ==> valid[k].1.result == Valid(a.transaction)
  }

  /** The contributors' answers are all the same. */
  ghost predicate ContributorsAgree(valid: seq<Response>) {
    forall j, k :: 0 <= j < k < |valid| ==> valid[j].1.result == valid[k].1.result
  }

  /** The transaction returned is the lowest contributor's; all of them validated it iff their answers agree. Answers
      of nodes that were not needed do not matter. */
  lemma {:induction false} AgreementIsExact<S>(t: TransportFns<S>, st: S, c: Client, request: AttestationRequest)
    ensures var r := Attested(t, st, c, request).1; var valid := Contributors(t, st, c, request);
            r.Ok? ==> (ContributorsValidated(valid, r.value) <==> ContributorsAgree(valid))
  {
    hide Attested, Verify, GroupCommitment, Contributors, AnswerOf;
    AttestIsSafe(t, st, c, request);
    var r, valid := Attested(t, st, c, request).1, Contributors(t, st, c, request);
    if r.Ok? {
      assert valid[0].1.result == Valid(r.value.transaction);
      if ContributorsAgree(valid) {
        assert forall k :: 1 <= k < |valid| ==> valid[0].1.result == valid[k].1.result;
      }
    }
  }
}
