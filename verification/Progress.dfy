/** The client over the in-memory transport: what a run of `attest` returns, exactly (crates/client/src/lib.rs,
    crates/client/src/transport.rs). */
module Progress {
  import opened Core
  import opened Scalars
  import opened Sums
  import opened Polynomials
  import opened Lagrange
  import opened Feldman
  import opened Frost
  import opened FrostCorrectness
  import opened Epochs
  import opened Nodes
  import opened Transports
  import opened Clients

  /** The in-memory transport, as the client calls it. */
  function LocalFns(crypto: Crypto): TransportFns<LocalState> {
    TransportFns((st: LocalState, i: nat, request: AttestationRequest) => st.Round1(i, request),
                 (st: LocalState, i: nat, message: Bytes, commitments: seq<SigningCommitment>) =>
                   st.Round2(crypto, i, message, commitments))
  }

  // The specification of a run over the in-memory transport.

  /** The positions of the nodes that validate a request: only those, all of those, in order. */
  function Validators(nodes: seq<NodeState>, request: AttestationRequest): (who: seq<nat>)
    ensures forall k :: 0 <= k < |who| ==> who[k] < |nodes| && nodes[who[k]].Validates(request)
    ensures forall j, k :: 0 <= j < k < |who| ==> who[j] < who[k]
    ensures forall i :: 0 <= i < |nodes| && nodes[i].Validates(request) ==> i in who
  {
    if nodes == [] then []
    else
      var last := |nodes| - 1;
      Validators(nodes[..last], request) + if nodes[last].Validates(request) then [last] else []
  }

  /** The nodes that a client can reach: those it polls, as far as the transport has them. */
  function Reached(st: LocalState, c: Client): seq<NodeState> {
    if c.nodeCount <= |st.nodes| then st.nodes[..c.nodeCount] else st.nodes
  }

  /** The nodes that contribute: the first validating ones, as many as the threshold asks for. */
  function Signers(st: LocalState, c: Client, request: AttestationRequest): (who: seq<nat>)
    ensures |who| <= c.threshold
    ensures forall k :: 0 <= k < |who| ==> who[k] < |st.nodes| && st.nodes[who[k]].Validates(request)
    ensures forall j, k :: 0 <= j < k < |who| ==> who[j] < who[k]
  {
    var all := Validators(Reached(st, c), request);
    if |all| <= c.threshold then all else all[..c.threshold]
  }

  /** The nonce that node i draws when k nodes before it validated the request: for the program's share. */
  function NonceOf(st: LocalState, request: AttestationRequest, i: nat, k: nat): SigningNonce
    requires i < |st.nodes|
  {
    SigningNonce(st.nodes[i].GetKeyShare(request.programCid).index, st.tape(st.drawn + 2 * k),
                 st.tape(st.drawn + 2 * k + 1))
  }

  function ResponseOf(st: LocalState, request: AttestationRequest, i: nat, k: nat): Round1Response
    requires i < |st.nodes| && st.nodes[i].Validates(request)
  {
    Round1Response(st.nodes[i].executor(request).result, Some(CommitmentTo(NonceOf(st, request, i, k))))
  }

  function ResponsesOf(st: LocalState, request: AttestationRequest, who: seq<nat>): (acc: seq<Response>)
    requires forall k :: 0 <= k < |who| ==> who[k] < |st.nodes| && st.nodes[who[k]].Validates(request)
    ensures |acc| == |who|
  {
    seq(|who|, k requires 0 <= k < |who| => (who[k], ResponseOf(st, request, who[k], k)))
  }

  /** The lowest contributor's transaction. */
  function TransactionOf(st: LocalState, c: Client, request: AttestationRequest): Transaction
    requires Signers(st, c, request) != []
  {
    st.nodes[Signers(st, c, request)[0]].executor(request).result.transaction
  }

  /** The signing session of a run: the contributors' default shares with the nonces they drew. */
  function LocalSession(st: LocalState, c: Client, request: AttestationRequest): (s: Session)
    requires Signers(st, c, request) != []
    ensures |s.keys| == |s.nonces| == |Signers(st, c, request)|
  {
    var who := Signers(st, c, request);
    Session(c.crypto, c.signingBytes(TransactionOf(st, c, request)),
            seq(|who|, k requires 0 <= k < |who| => st.nodes[who[k]].keyShare),
            seq(|who|, k requires 0 <= k < |who| => NonceOf(st, request, who[k], k)))
  }

  /** What the client returns. */
  function LocalOutcome(st: LocalState, c: Client, request: AttestationRequest): Result<AttestedTransaction>
    requires c.threshold >= 1
  {
    var who := Signers(st, c, request);
    if |who| < c.threshold then
      Err(if c.nodeCount <= |st.nodes| then InsufficientShares(|who|, c.threshold) else Panic)
    else
      var s := LocalSession(st, c, request);
      if Verify(s.crypto, s.Signature(), c.groupPublicKey, s.message).Ok? then
        Ok(AttestedTransaction(TransactionOf(st, c, request), s.Signature(), c.groupPublicKey))
      else Err(InvalidSignature)
  }

  // A run meets its specification.

  lemma {:induction false} ValidatorsGrow(nodes: seq<NodeState>, request: AttestationRequest, i: nat)
    requires i < |nodes|
    ensures Validators(nodes[..i + 1], request)
         == Validators(nodes[..i], request) + if nodes[i].Validates(request) then [i] else []
  {
    assert nodes[..i + 1][..i] == nodes[..i];
  }

  lemma {:induction false} ValidatorsPrefix(nodes: seq<NodeState>, request: AttestationRequest, i: nat, j: nat)
    requires i <= j <= |nodes|
    ensures Validators(nodes[..i], request) <= Validators(nodes[..j], request)
    decreases j - i
  {
    hide Validators;
    if i == j {
    } else {
      ValidatorsGrow(nodes, request, i);
      ValidatorsPrefix(nodes, request, i + 1, j);
    }
  }

  /** The state once the nodes below i were polled: the validating ones drew their nonces and hold them. */
  ghost predicate Polled(start: LocalState, now: LocalState, request: AttestationRequest, i: nat) {
    i <= |start.nodes| == |now.nonces| &&
    var who := Validators(start.nodes[..i], request);
    now == start.(nonces := now.nonces, drawn := start.drawn + 2 * |who|) &&
    forall k :: 0 <= k < |who| ==> now.nonces[who[k]] == Some(NonceOf(start, request, who[k], k))
  }

  lemma {:induction false} Round1Effect(now: LocalState, request: AttestationRequest, i: nat)
    requires i < |now.nodes| == |now.nonces|
    ensures var (next, r) := now.Round1(i, request); var validates := now.nodes[i].Validates(request);
            next == now.(nonces := next.nonces, drawn := now.drawn + if validates then 2 else 0)
            && |next.nonces| == |now.nonces| && r != Err(Panic)
            && (forall k :: 0 <= k < |now.nonces| && k != i ==> next.nonces[k] == now.nonces[k])
            && (validates <==> r.Ok? && r.value.result.Valid?)
            && (validates ==> next.nonces[i] == Some(NonceOf(now, request, i, 0))
                              && r.value == ResponseOf(now, request, i, 0))
  {
  }

  lemma {:induction false} PollStep(start: LocalState, now: LocalState, request: AttestationRequest, i: nat)
    requires i < |start.nodes| && Polled(start, now, request, i)
    ensures var (next, r) := now.Round1(i, request);
            Polled(start, next, request, i + 1) && r != Err(Panic)
            && (start.nodes[i].Validates(request) <==> r.Ok? && r.value.result.Valid?)
            && (start.nodes[i].Validates(request) ==>
                  r.value == ResponseOf(start, request, i, |Validators(start.nodes[..i], request)|))
  {
    hide Validators, LocalState.Round1, NodeState.Validates;
    var who := Validators(start.nodes[..i], request);
    var next := now.Round1(i, request).0;
    Round1Effect(now, request, i);
    ValidatorsGrow(start.nodes, request, i);
    assert who + [] == who;
    assert forall k :: 0 <= k < |who| ==> next.nonces[who[k]] == now.nonces[who[k]];
    assert start.nodes[i].Validates(request) ==> NonceOf(now, request, i, 0) == NonceOf(start, request, i, |who|);
  }

  lemma {:induction false} ResponsesGrow(st: LocalState, request: AttestationRequest, i: nat)
    requires i < |st.nodes| && st.nodes[i].Validates(request)
    ensures var who := Validators(st.nodes[..i], request);
            ResponsesOf(st, request, who + [i]) ==
            ResponsesOf(st, request, who) + [(i, ResponseOf(st, request, i, |who|))]
  {
    hide Validators, ResponseOf;
  }

  /** The collection loop ends with the contributors' responses; polling past the last node panics. */
  lemma {:induction false} CollectGathers(start: LocalState, now: LocalState, request: AttestationRequest, c: Client,
                                          i: nat) returns (stop: nat)
    requires i <= |Reached(start, c)| && Polled(start, now, request, i)
    requires |Validators(start.nodes[..i], request)| < c.threshold
    ensures var who := Signers(start, c, request);
            var acc := ResponsesOf(start, request, Validators(start.nodes[..i], request));
            var (after, r) := Collect(LocalFns(c.crypto), now, request, c, i, acc);
            if |who| == c.threshold || c.nodeCount <= |start.nodes| then
              r == Ok(ResponsesOf(start, request, who)) && Polled(start, after, request, stop)
              && Validators(start.nodes[..stop], request) == who
            else r == Err(Panic)
    decreases c.nodeCount - i
  {
    hide Validators, Polled, ResponsesOf, ResponseOf;
    stop := i;
    PolledSlots(start, now, request, i);
    if i == |Reached(start, c)| {
      assert start.nodes[..i] == Reached(start, c);
    } else {
      var who, next := Validators(start.nodes[..i], request), now.Round1(i, request).0;
      var who' := Validators(start.nodes[..i + 1], request);
      PollStep(start, now, request, i);
      ValidatorsGrow(start.nodes, request, i);
      if start.nodes[i].Validates(request) {
        ResponsesGrow(start, request, i);
      } else {
        assert who' == who;
      }
      if |who'| >= c.threshold {
        stop := i + 1;
        FirstSigners(start, c, request, stop);
      } else {
        stop := CollectGathers(start, next, request, c, i + 1);
      }
    }
  }

  lemma {:induction false} PolledSlots(start: LocalState, now: LocalState, request: AttestationRequest, i: nat)
    requires Polled(start, now, request, i)
    ensures |now.nonces| == |now.nodes| == |start.nodes|
  {
  }

  lemma {:induction false} FirstSigners(st: LocalState, c: Client, request: AttestationRequest, i: nat)
    requires i <= |Reached(st, c)| && |Validators(st.nodes[..i], request)| == c.threshold
    ensures Validators(st.nodes[..i], request) == Signers(st, c, request)
  {
    hide Validators;
    assert Reached(st, c)[..i] == st.nodes[..i] && Reached(st, c)[..|Reached(st, c)|] == Reached(st, c);
    ValidatorsPrefix(Reached(st, c), request, i, |Reached(st, c)|);
  }

  lemma {:induction false} PartialsAreTheSessions(st: LocalState, s: Session, valid: seq<Response>, k: nat)
    requires |s.keys| == |s.nonces| == |valid| && k <= |valid| && |st.nonces| == |st.nodes|
    requires forall j :: 0 <= j < |valid| ==>
      valid[j].0 < |st.nodes| && s.keys[j] == st.nodes[valid[j].0].keyShare
      && st.nonces[valid[j].0] == Some(s.nonces[j])
    ensures CollectPartials(LocalFns(s.crypto), st, s.message, s.Commitments(), valid, k, s.Partials()[..k])
         == (st, Ok(s.Partials()))
    decreases |valid| - k
  {
    hide SignPartial;
    if k == |valid| {
      assert s.Partials()[..k] == s.Partials();
    } else {
      assert s.Partials()[..k + 1] == s.Partials()[..k] + [s.Partials()[k]];
      PartialsAreTheSessions(st, s, valid, k + 1);
    }
  }

  lemma {:induction false} SignersHoldNonces(start: LocalState, now: LocalState, c: Client,
                                             request: AttestationRequest, stop: nat)
    requires Signers(start, c, request) != [] && Polled(start, now, request, stop)
    requires Validators(start.nodes[..stop], request) == Signers(start, c, request)
    ensures var valid, s := ResponsesOf(start, request, Signers(start, c, request)), LocalSession(start, c, request);
            |now.nonces| == |now.nodes|
            && (forall j :: 0 <= j < |valid| ==>
                  valid[j].0 < |now.nodes| && s.keys[j] == now.nodes[valid[j].0].keyShare
                  && now.nonces[valid[j].0] == Some(s.nonces[j]))
            && valid[0].1.result == Valid(TransactionOf(start, c, request))
            && AllCommitted(valid) && CommitmentsOf(valid) == s.Commitments()
  {
    hide Validators, NonceOf;
    var who := Signers(start, c, request);
    var valid, s := ResponsesOf(start, request, who), LocalSession(start, c, request);
    assert forall k :: 0 <= k < |who| ==>
      valid[k].1.commitment == Some(CommitmentTo(NonceOf(start, request, who[k], k)));
    assert CommitmentsOf(valid) == s.Commitments();
  }

  lemma {:induction false} SessionIsTheClients(st: LocalState, c: Client, request: AttestationRequest)
    requires Signers(st, c, request) != []
    ensures LocalSession(st, c, request).crypto == c.crypto
    ensures LocalSession(st, c, request).message == c.signingBytes(TransactionOf(st, c, request))
  {
  }

  lemma {:induction false} SignatureOfSession(s: Session)
    requires |s.keys| == |s.nonces|
    ensures s.Signature() == Aggregate(s.crypto, s.message, s.Commitments(), s.Partials())
  {
  }

  /** The second round, aggregation and verification are the session's. */
  lemma {:induction false} SessionDecides(start: LocalState, after: LocalState, c: Client,
                                          request: AttestationRequest, stop: nat)
    requires Polled(start, after, request, stop) && 1 <= c.threshold == |Signers(start, c, request)|
    requires Validators(start.nodes[..stop], request) == Signers(start, c, request)
    ensures SignCollected(LocalFns(c.crypto), after, c, ResponsesOf(start, request, Signers(start, c, request))).1
         == LocalOutcome(start, c, request)
  {
    hide Verify, Polled, Signers, ResponsesOf, LocalSession, Aggregate, TransactionOf, CollectPartials, AllCommitted,
         CommitmentsOf, LocalFns;
    var valid, s := ResponsesOf(start, request, Signers(start, c, request)), LocalSession(start, c, request);
    SignersHoldNonces(start, after, c, request, stop);
    SessionIsTheClients(start, c, request);
    assert s.Partials()[..0] == [];
    PartialsAreTheSessions(after, s, valid, 0);
    SignatureOfSession(s);
    VerifyResult(c.crypto, s.Signature(), c.groupPublicKey, s.message);
  }

  /** A client run over the in-memory transport is one signing session of the first validating nodes: whatever shares
      the nodes hold, it returns what the session's signature decides. */
  lemma {:induction false} LocalRunIsSession(st: LocalState, c: Client, request: AttestationRequest)
    requires |st.nonces| == |st.nodes| && c.threshold >= 1
    ensures Attested(LocalFns(c.crypto), st, c, request).1 == LocalOutcome(st, c, request)
    ensures |Signers(st, c, request)| == c.threshold ==>
      Contributors(LocalFns(c.crypto), st, c, request) == ResponsesOf(st, request, Signers(st, c, request))
  {
    hide Verify, Polled, Signers, ResponsesOf, LocalSession, Contributors, Aggregate, TransactionOf, LocalFns, Collect;
    var who := Signers(st, c, request);
    NothingPolled(st, request);
    var stop := CollectGathers(st, st, request, c, 0);
    if |who| == c.threshold {
      CollectsContributors(LocalFns(c.crypto), st, c, request, 0);
      SessionDecides(st, Collect(LocalFns(c.crypto), st, request, c, 0, []).0, c, request, stop);
    }
  }

  lemma {:induction false} NothingPolled(st: LocalState, request: AttestationRequest)
    requires |st.nonces| == |st.nodes|
    ensures Polled(st, st, request, 0) && Validators(st.nodes[..0], request) == []
    ensures ResponsesOf(st, request, []) == []
  {
  }

  /** When a run with enough validating nodes succeeds, whatever shares they hold and whatever shares the program
      resolves to on them: iff (sum of slips) + (sum of answers) = challenge(client's key) * (its log). */
  lemma {:induction false} AttestIsExact(st: LocalState, c: Client, request: AttestationRequest)
    requires |st.nonces| == |st.nodes| && 1 <= c.threshold == |Signers(st, c, request)|
    ensures var r, s := Attested(LocalFns(c.crypto), st, c, request).1, LocalSession(st, c, request);
            r.Ok? <==> Cong(Sum(s.Slips()) + Sum(s.Answers()),
                            s.ChallengeFor(c.groupPublicKey) * c.groupPublicKey.log)
  {
    hide Reduce, Verify, Attested, Signers, LocalSession, Challenge, Sum;
    LocalRunIsSession(st, c, request);
    SessionIsTheClients(st, c, request);
    SessionIsExact(LocalSession(st, c, request), c.groupPublicKey);
  }

  /** Every contributor's nonces are drawn afresh: whatever pairs one asks for, some tape gives each contributor its
      own. The tape decides nothing else about who signs what. */
  lemma {:induction false} NoncesAreIndependent(st: LocalState, c: Client, request: AttestationRequest,
                                                pairs: seq<(Scalar, Scalar)>) returns (tape: nat -> Scalar)
    requires |pairs| == |Signers(st, c, request)| >= 1
    ensures var s, drawn := LocalSession(st, c, request), LocalSession(st.(tape := tape), c, request);
            s.keys == drawn.keys && s.message == drawn.message
            && forall k :: 0 <= k < |pairs| ==>
                 drawn.nonces[k] == SigningNonce(s.nonces[k].index, pairs[k].0, pairs[k].1)
  {
    hide Signers, PairTape;
    tape := PairTape(pairs, st.drawn);
    SameSigners(st, tape, c, request);
    forall k | 0 <= k < |pairs|
      ensures tape(st.drawn + 2 * k) == pairs[k].0 && tape(st.drawn + 2 * k + 1) == pairs[k].1
    {
      PairTapeAt(pairs, st.drawn, k);
    }
  }

  function PairTape(pairs: seq<(Scalar, Scalar)>, start: nat): nat -> Scalar {
    (m: nat) =>
      if m < start || (m - start) / 2 >= |pairs| then 0
      else if (m - start) % 2 == 0 then pairs[(m - start) / 2].0
      else pairs[(m - start) / 2].1
  }

  lemma {:induction false} PairTapeAt(pairs: seq<(Scalar, Scalar)>, start: nat, k: nat)
    requires k < |pairs|
    ensures PairTape(pairs, start)(start + 2 * k) == pairs[k].0
    ensures PairTape(pairs, start)(start + 2 * k + 1) == pairs[k].1
  {
  }

  lemma {:induction false} SameSigners(st: LocalState, tape: nat -> Scalar, c: Client, request: AttestationRequest)
    ensures Signers(st.(tape := tape), c, request) == Signers(st, c, request)
  {
  }

  // Nodes of one group.

  /** The nodes that validate the request hold default shares of distinct members of one group, and the share that the
      program resolves to carries the same participant index. The transport may list any members in any order. */
  ghost predicate GroupOn(nodes: seq<NodeState>, request: AttestationRequest, f: seq<int>, n: u32) {
    (forall j :: 0 <= j < |nodes| && nodes[j].Validates(request) ==> MemberNode(nodes[j], request, f, n)) &&
    forall i, j :: 0 <= i < j < |nodes| && nodes[i].Validates(request) && nodes[j].Validates(request) ==>
      nodes[i].keyShare.index != nodes[j].keyShare.index
  }

  ghost predicate MemberNode(node: NodeState, request: AttestationRequest, f: seq<int>, n: u32) {
    IsMember(node.keyShare, KeysOn(f, n)) && node.GetKeyShare(request.programCid).index == node.keyShare.index
  }

  lemma {:induction false} GroupSession(st: LocalState, c: Client, request: AttestationRequest, f: seq<int>, n: u32)
    requires GroupOn(st.nodes, request, f, n) && Signers(st, c, request) != []
    ensures var s := LocalSession(st, c, request);
            SignersFrom(s, KeysOn(f, n)) && |s.keys| == |Signers(st, c, request)|
  {
    hide Reduce, Eval, Signers;
    var who, s := Signers(st, c, request), LocalSession(st, c, request);
    forall k | 0 <= k < |who|
      ensures s.nonces[k].index == s.keys[k].index && IsMember(s.keys[k], KeysOn(f, n))
    {
      assert MemberNode(st.nodes[who[k]], request, f, n);
    }
    forall j, k | 0 <= j < k < |who|
      ensures s.Indices()[j] != s.Indices()[k]
    {
      assert who[j] < who[k];
    }
  }

  /** Client progress: with a threshold no smaller than the sharing's and the group's key, `attest` succeeds exactly
      when enough of the nodes it reaches validate the request; otherwise it reports how many did. */
  lemma {:induction false} AttestSucceedsExactly(st: LocalState, c: Client, request: AttestationRequest, f: seq<int>,
                                                 n: u32)
    requires GroupOn(st.nodes, request, f, n) && |st.nonces| == |st.nodes|
    requires 1 <= c.threshold && |f| <= c.threshold
    requires c.groupPublicKey == Point(Reduce(Eval(f, 0)))
    ensures var r := Attested(LocalFns(c.crypto), st, c, request).1;
            var total := |Validators(Reached(st, c), request)|;
            (r.Ok? <==> total >= c.threshold)
            && (r.Err? ==>
                  r.error == if c.nodeCount <= |st.nodes| then InsufficientShares(total, c.threshold) else Panic)
  {
    hide Reduce, Eval, Verify, Attested, SignersFrom, LocalSession, Validators, Reached;
    LocalRunIsSession(st, c, request);
    if |Signers(st, c, request)| == c.threshold {
      GroupSession(st, c, request, f, n);
      MembersSign(LocalSession(st, c, request), f, n);
    }
  }

  /** The same for every client threshold, also below the sharing's: success needs enough validating nodes, and that
      the challenge is zero or what the contributors' indices leave open of the sharing polynomial vanishes. */
  lemma {:induction false} AttestAtAnyThreshold(st: LocalState, c: Client, request: AttestationRequest, f: seq<int>,
                                                n: u32)
    requires GroupOn(st.nodes, request, f, n) && |st.nonces| == |st.nodes| && 1 <= c.threshold
    requires c.groupPublicKey == Point(Reduce(Eval(f, 0)))
    ensures var r := Attested(LocalFns(c.crypto), st, c, request).1;
            r.Ok? <==> |Signers(st, c, request)| == c.threshold
                       && var s := LocalSession(st, c, request);
                          s.ChallengeFor(c.groupPublicKey) == 0 || Cong(Eval(QuotientAll(f, s.Indices()), 0), 0)
  {
    hide Reduce, Eval, Verify, Attested, SignersFrom, LocalSession, Signers, Challenge;
    LocalRunIsSession(st, c, request);
    if |Signers(st, c, request)| == c.threshold {
      GroupSession(st, c, request, f, n);
      MembersSignExactly(LocalSession(st, c, request), f, n);
    }
  }

  /** The nodes sign with their default shares, also for a program registered under another key P. A client that
      expects P then succeeds iff challenge(group key) * secret = challenge(P) * (log of P). */
  lemma {:induction false} AttestUnderOtherKey(st: LocalState, c: Client, request: AttestationRequest, f: seq<int>,
                                               n: u32)
    requires GroupOn(st.nodes, request, f, n) && |st.nonces| == |st.nodes|
    requires 1 <= c.threshold == |Signers(st, c, request)| && |f| <= c.threshold
    ensures var s := LocalSession(st, c, request);
            Attested(LocalFns(c.crypto), st, c, request).1.Ok? <==>
            Cong(s.ChallengeFor(Point(Reduce(Eval(f, 0)))) * Eval(f, 0),
                 s.ChallengeFor(c.groupPublicKey) * c.groupPublicKey.log)
  {
    hide Reduce, Eval, Verify, Attested, SignersFrom, LocalSession, Signers, Challenge, AtZero;
    var s, key := LocalSession(st, c, request), Point(Reduce(Eval(f, 0)));
    LocalRunIsSession(st, c, request);
    SessionIsTheClients(st, c, request);
    GroupSession(st, c, request, f, n);
    MembersShareOn(s, f, n);
    SharesReconstruct(s, f, n);
    AlignedSessionIsExact(s, key, c.groupPublicKey);
    CongScale(AtZero(s.Indices(), s.Secrets()), Eval(f, 0), s.ChallengeFor(key));
  }

  // Agreement of the validators.

  /** The contributors' programs answer the request alike. */
  ghost predicate SignersAgree(st: LocalState, c: Client, request: AttestationRequest) {
    var who := Signers(st, c, request);
    forall j, k :: 0 <= j < k < |who| ==> st.nodes[who[j]].executor(request) == st.nodes[who[k]].executor(request)
  }

  /** The contributors all validated what the client returned iff their programs answer the request alike; what nodes
      that were not needed would answer does not matter. */
  lemma {:induction false} ValidatedByAllExactly(st: LocalState, c: Client, request: AttestationRequest)
    requires |st.nonces| == |st.nodes| && c.threshold >= 1
    ensures var r := Attested(LocalFns(c.crypto), st, c, request).1;
            r.Ok? ==> (ContributorsValidated(Contributors(LocalFns(c.crypto), st, c, request), r.value)
                       <==> SignersAgree(st, c, request))
  {
    hide Attested, Verify, Signers, LocalSession, Contributors, TransactionOf;
    LocalRunIsSession(st, c, request);
    AgreementIsExact(LocalFns(c.crypto), st, c, request);
    var who := Signers(st, c, request);
    var valid := ResponsesOf(st, request, who);
    assert forall k :: 0 <= k < |who| ==> st.nodes[who[k]].executor(request) == Executed(valid[k].1.result);
  }

  // Failing inputs. In all of them every challenge and binding factor is one.

  const ONES := Crypto(_ => 1, _ => [])

  function Validating(shares: map<Str, KeyShare>, share: KeyShare, transaction: Transaction): NodeState {
    NodeState(shares, share, _ => Executed(Valid(transaction)), {})
  }

  function Fresh(nodes: seq<NodeState>): LocalState {
    LocalState(nodes, seq(|nodes|, _ => None), _ => 0, 0)
  }

  /** Two members of one group validate different transactions. The client returns the first one's, which the second
      contributor never validated. */
  lemma {:induction false} DisagreementExample(first: Transaction, second: Transaction, request: AttestationRequest)
    requires first != second
    ensures var st := Fresh([Validating(map[], KeyOn([5, 1], 2, 1), first),
                             Validating(map[], KeyOn([5, 1], 2, 2), second)]);
            var c := Client(ONES, _ => [], Point(5), 2, 2);
            var r := Attested(LocalFns(ONES), st, c, request).1;
            r.Ok? && !ContributorsValidated(Contributors(LocalFns(ONES), st, c, request), r.value)
  {
    hide Reduce, Eval, Attested, Contributors, Verify;
    var a, b := Validating(map[], KeyOn([5, 1], 2, 1), first), Validating(map[], KeyOn([5, 1], 2, 2), second);
    var st, c := Fresh([a, b]), Client(ONES, _ => [], Point(5), 2, 2);
    EvalAtZero([5, 1]);
    BothValidate(a, b, request);
    assert Reached(st, c) == [a, b];
    AttestSucceedsExactly(st, c, request, [5, 1], 2);
    ValidatedByAllExactly(st, c, request);
    assert st.nodes[0].executor(request) != st.nodes[1].executor(request);
  }

  lemma {:induction false} BothValidate(a: NodeState, b: NodeState, request: AttestationRequest)
    requires a.Validates(request) && b.Validates(request)
    ensures Validators([a, b], request) == [0, 1]
  {
    OneValidates(a, request);
    assert [a, b][..1] == [a];
    assert Validators([a, b], request) == Validators([a], request) + [1];
  }

  lemma {:induction false} OneValidates(a: NodeState, request: AttestationRequest)
    requires a.Validates(request)
    ensures Validators([a], request) == [0]
  {
    assert [a][..0] == [];
  }

  /** A program registered under a key of its own, 7, on a node whose default key is 5: a client that expects the
      program's key gets no signature. */
  lemma {:induction false} OtherKeyExample(transaction: Transaction, request: AttestationRequest)
    ensures var node := Validating(map[request.programCid := KeyOn([7], 1, 1)], KeyOn([5], 1, 1), transaction);
            Attested(LocalFns(ONES), Fresh([node]), Client(ONES, _ => [], Point(7), 1, 1), request).1
            == Err(InvalidSignature)
  {
    hide Reduce, Eval, Attested, Verify;
    var node := Validating(map[request.programCid := KeyOn([7], 1, 1)], KeyOn([5], 1, 1), transaction);
    var st, c := Fresh([node]), Client(ONES, _ => [], Point(7), 1, 1);
    OneValidates(node, request);
    assert Reached(st, c) == [node];
    LocalRunIsSession(st, c, request);
    AttestUnderOtherKey(st, c, request, [5], 1);
    EvalAtZero([5]);
    if Cong(5, 7) {
      CongSmall(5, 7);
    }
  }

  /** A program that resolves to share 2 of a group on a node whose default share is 1: both shares belong to the key
      that the client expects, and still there is no signature. */
  lemma {:induction false} OtherIndexExample(transaction: Transaction, request: AttestationRequest)
    ensures var node := Validating(map[request.programCid := KeyOn([5], 2, 2)], KeyOn([5], 2, 1), transaction);
            Attested(LocalFns(ONES), Fresh([node]), Client(ONES, _ => [], Point(5), 1, 1), request).1
            == Err(InvalidSignature)
  {
    hide Reduce, Eval, Attested, Verify, Lambda;
    var node := Validating(map[request.programCid := KeyOn([5], 2, 2)], KeyOn([5], 2, 1), transaction);
    var st, c := Fresh([node]), Client(ONES, _ => [], Point(5), 1, 1);
    ConstantShare(1);
    OneValidates(node, request);
    assert Reached(st, c) == [node];
    LocalRunIsSession(st, c, request);
    AttestIsExact(st, c, request);
    OtherIndexSession(LocalSession(st, c, request), KeyOn([5], 2, 1), SigningNonce(2, 0, 0));
  }

  lemma {:induction false} OtherIndexSession(s: Session, key: KeyShare, nonce: SigningNonce)
    requires s.crypto == ONES && s.keys == [key] && s.nonces == [nonce]
    requires key.index == 1 && nonce.index == 2 && key.secret == 5
    ensures !Cong(Sum(s.Slips()) + Sum(s.Answers()), s.ChallengeFor(Point(5)) * 5)
  {
    hide Reduce, Lambda, Sum, Session.Slips, Session.Answers, Session.ChallengeFor;
    OtherIndexTerms(s, key, nonce);
    SumOfOne(0);
    SumOfOne(Lambda(1, [2]) * 5);
    LambdaOneOfTwo();
    CongScale(Lambda(1, [2]), 2, 5);
    if Cong(10, 5) {
      CongSmall(10, 5);
    }
  }

  lemma {:induction false} OtherIndexTerms(s: Session, key: KeyShare, nonce: SigningNonce)
    requires s.crypto == ONES && s.keys == [key] && s.nonces == [nonce]
    requires key.index == 1 && nonce.index == 2 && key.secret == 5
    ensures s.Slips() == [0] && s.Answers() == [Lambda(1, [2]) * 5] && s.ChallengeFor(Point(5)) == 1
  {
    hide Reduce, Lambda, GroupCommitment, EncodeCommitments;
    assert SignerIndices(s.Commitments()) == [2];
  }

  lemma {:induction false} SumOfOne(x: int)
    ensures Sum([x]) == x
  {
    assert [x][1..] == [];
  }

  lemma {:induction false} LambdaOneOfTwo()
    ensures Cong(Lambda(1, [2]), 2)
  {
    hide Lambda, Reduce;
    LambdaIsQuotient(1, [2]);
    assert [2][1..] == [];
    assert Numerator(1, [2]) == 2 && Denominator(1, [2]) == 1;
  }

  lemma {:induction false} ConstantShare(i: u32)
    ensures Reduce(Eval([5], i)) == 5
  {
    EvalEmpty(i);
    assert [5][1..] == [];
  }
}
