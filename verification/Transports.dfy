/** The in-memory transport (crates/client/src/transport.rs), which keeps one nonce slot per node. */
module Transports {
  import opened Core
  import opened Scalars
  import opened Frost
  import opened FrostCorrectness
  import opened Nodes

  datatype Round1Response = Round1Response(result: AttestationResult, commitment: Option<SigningCommitment>)

  /** The value of a transport: its nodes, the nonce slots, and the randomness not yet drawn. */
  datatype LocalState = LocalState(
    nodes: seq<NodeState>,
    nonces: seq<Option<SigningNonce>>,
    tape: nat -> Scalar,
    drawn: nat) {

    /** What node i answers to a request now. */
    function Answer(i: nat, request: AttestationRequest): Result<NodeResponse>
      requires i < |nodes|
    {
      nodes[i].Answer(request, tape(drawn), tape(drawn + 1))
    }

    /** An answer overwrites the node's slot, with nothing if it was Invalid; an error leaves the slot alone. */
    function Round1(i: nat, request: AttestationRequest): (LocalState, Result<Round1Response>) {
      if i >= |nodes| || i >= |nonces| then (this, Err(Panic))
      else
        var next := this.(drawn := drawn + if nodes[i].Validates(request) then 2 else 0);
        match Answer(i, request)
        case Ok(resp) => (next.(nonces := nonces[i := resp.nonce]), Ok(Round1Response(resp.result, resp.commitment)))
        case Err(e) => (next, Err(e))
    }

    function Round2(crypto: Crypto, i: nat, message: Bytes, commitments: seq<SigningCommitment>)
        : (LocalState, Result<PartialSignature>) {
      if i >= |nodes| || i >= |nonces| then (this, Err(Panic))
      else
        match nonces[i]
        case None => (this, Err(InvalidSignature))
        case Some(nonce) => (this, Ok(SignPartial(crypto, nodes[i].keyShare, nonce, message, commitments)))
    }
  }

  class LocalTransport {
    const crypto: Crypto
    const nodes: seq<CraftSecNode>
    const rng: Rng
    var nonces: seq<Option<SigningNonce>>

    constructor (crypto: Crypto, nodes: seq<CraftSecNode>, rng: Rng)
      ensures Valid() && this.crypto == crypto && this.nodes == nodes && this.rng == rng
      ensures nonces == seq(|nodes|, _ => None)
    {
      this.crypto := crypto;
      this.nodes := nodes;
      this.rng := rng;
      this.nonces := seq(|nodes|, _ => None);
    }

    ghost predicate Valid()
      reads this
    {
      |nonces| == |nodes|
    }

    ghost function State(): LocalState
      reads this, nodes, rng
    {
      LocalState(seq(|nodes|, k requires 0 <= k < |nodes| reads nodes => nodes[k].State()), nonces, rng.tape, rng.drawn)
    }

    method Round1(i: nat, request: AttestationRequest) returns (r: Result<Round1Response>)
      requires Valid()
      modifies this, rng
      ensures Valid() && (State(), r) == old(State()).Round1(i, request)
    {
      if i >= |nodes| {
        return Err(Panic);
      }
      ghost var before := State();
      var answer := nodes[i].ProcessRequest(request, rng);
      match answer {
        case Err(e) =>
          r := Err(e);
        case Ok(resp) =>
          nonces := nonces[i := resp.nonce];
          r := Ok(Round1Response(resp.result, resp.commitment));
      }
      assert State().nodes == before.nodes;
    }

    method Round2(i: nat, message: Bytes, commitments: seq<SigningCommitment>) returns (r: Result<PartialSignature>)
      requires Valid()
      ensures (State(), r) == old(State()).Round2(crypto, i, message, commitments)
    {
      if i >= |nodes| {
        return Err(Panic);
      }
      match nonces[i] {
        case None =>
          r := Err(InvalidSignature);
        case Some(nonce) =>
          var response := nodes[i].Sign(crypto, nonce, message, commitments);
          PartialCheckIsExact(crypto, nodes[i].keyShare, nonce, response, message, commitments);
          r := Ok(response);
      }
    }
  }

  // Every reachable state.

  /** What can happen to a transport: the two rounds, and, since its nodes are public, operations on a node. */
  datatype Call =
    | NodeCall(node: nat, op: Operation)
    | Round1Call(node: nat, request: AttestationRequest)
    | Round2Call(node: nat, message: Bytes, commitments: seq<SigningCommitment>)

  /** The answers sent out so far, oldest first, each with the node that gave it; errors are not answers. */
  type Log = seq<(nat, Round1Response)>

  function Perform(crypto: Crypto, st: LocalState, log: Log, call: Call): (LocalState, Log) {
    match call
    case NodeCall(i, op) =>
      (if i < |st.nodes| then st.(nodes := st.nodes[i := st.nodes[i].Apply(op)]) else st, log)
    case Round1Call(i, request) =>
      var (next, r) := st.Round1(i, request);
      (next, if r.Ok? then log + [(i, r.value)] else log)
    case Round2Call(i, message, commitments) => (st.Round2(crypto, i, message, commitments).0, log)
  }

  function PerformAll(crypto: Crypto, st: LocalState, log: Log, calls: seq<Call>): (LocalState, Log)
    decreases |calls|
  {
    if calls == [] then (st, log)
    else
      var (next, log') := Perform(crypto, st, log, calls[0]);
      PerformAll(crypto, next, log', calls[1..])
  }

  /** A node's most recent answer. */
  function LatestAnswer(log: Log, i: nat): Option<Round1Response>
    decreases |log|
  {
    if log == [] then None
    else if log[|log| - 1].0 == i then Some(log[|log| - 1].1)
    else LatestAnswer(log[..|log| - 1], i)
  }

  /** Every slot is what its node's most recent answer left: empty before the first answer and after a rejection,
      after a validation the nonce that opens the commitment in that answer. */
  ghost predicate SlotsFollow(st: LocalState, log: Log) {
    |st.nonces| == |st.nodes| &&
    forall i :: 0 <= i < |st.nonces| ==> SlotFollows(st.nonces[i], LatestAnswer(log, i))
  }

  ghost predicate SlotFollows(slot: Option<SigningNonce>, answer: Option<Round1Response>) {
    match answer
    case None => slot == None
    case Some(resp) =>
      match resp.result
      case Valid(_) => slot.Some? && resp.commitment == Some(CommitmentTo(slot.value))
      case Invalid(_) => slot == None && resp.commitment == None
  }

  lemma {:induction false} PerformKeepsSlots(crypto: Crypto, st: LocalState, log: Log, call: Call)
    requires SlotsFollow(st, log)
    ensures var (next, log') := Perform(crypto, st, log, call); SlotsFollow(next, log')
  {
    if call.Round1Call? {
      var (next, r) := st.Round1(call.node, call.request);
      if r.Ok? {
        var log' := log + [(call.node, r.value)];
        assert log'[..|log|] == log;
      }
    }
  }

  /** The partial signature is made with a nonce that opens the given commitment. */
  ghost predicate SignsBehind(crypto: Crypto, key: KeyShare, nonce: SigningNonce, issued: Option<SigningCommitment>,
                              response: PartialSignature, message: Bytes, commitments: seq<SigningCommitment>) {
    issued == Some(CommitmentTo(nonce)) && response == SignPartial(crypto, key, nonce, message, commitments)
  }

  /** In every state reachable from a fresh transport, whatever the interleaving of rounds with registrations, freezes
      and migrations on the nodes: round 2 of a node succeeds iff its most recent answer was Valid, and then signs with
      the default share it started with and the nonce behind the commitment in that answer. After a rejection, or
      before any answer, it reports that there is no nonce. */
  lemma {:induction false} ReachableRound2IsExact(crypto: Crypto, st: LocalState, calls: seq<Call>, i: nat,
                                                  message: Bytes, commitments: seq<SigningCommitment>)
    requires |st.nonces| == |st.nodes| && forall k :: 0 <= k < |st.nonces| ==> st.nonces[k] == None
    ensures var (now, log) := PerformAll(crypto, st, [], calls);
            var r, latest := now.Round2(crypto, i, message, commitments).1, LatestAnswer(log, i);
            if i >= |st.nodes| then r == Err(Panic)
            else if latest.Some? && latest.value.result.Valid? then
              r.Ok? && exists nonce ::
                SignsBehind(crypto, st.nodes[i].keyShare, nonce, latest.value.commitment, r.value, message, commitments)
            else r == Err(InvalidSignature)
  {
    hide SignPartial;
    PerformAllKeepsSlots(crypto, st, [], calls);
    var (now, log) := PerformAll(crypto, st, [], calls);
    if i < |st.nodes| {
      assert SlotFollows(now.nonces[i], LatestAnswer(log, i));
      if LatestAnswer(log, i).Some? && LatestAnswer(log, i).value.result.Valid? {
        assert SignsBehind(crypto, st.nodes[i].keyShare, now.nonces[i].value, LatestAnswer(log, i).value.commitment,
                           now.Round2(crypto, i, message, commitments).1.value, message, commitments);
      }
    }
  }

  lemma {:induction false} PerformAllKeepsSlots(crypto: Crypto, st: LocalState, log: Log, calls: seq<Call>)
    requires SlotsFollow(st, log)
    ensures var (now, log') := PerformAll(crypto, st, log, calls);
            SlotsFollow(now, log') && |now.nodes| == |st.nodes|
            && forall i :: 0 <= i < |st.nodes| ==> now.nodes[i].keyShare == st.nodes[i].keyShare
    decreases |calls|
  {
    hide SlotsFollow;
    if calls == [] {
    } else {
      PerformKeepsSlots(crypto, st, log, calls[0]);
      var (next, log') := Perform(crypto, st, log, calls[0]);
      PerformAllKeepsSlots(crypto, next, log', calls[1..]);
    }
  }

  /** The log is what the nodes answered: one entry for each round-1 call that is not an error, with that answer. */
  lemma {:induction false} LogIsWhatWasAnswered(crypto: Crypto, st: LocalState, log: Log, calls: seq<Call>, i: nat,
                                                request: AttestationRequest)
    ensures var (now, before) := PerformAll(crypto, st, log, calls);
            var after := PerformAll(crypto, st, log, calls + [Round1Call(i, request)]).1;
            var r := now.Round1(i, request).1;
            after == if r.Ok? then before + [(i, r.value)] else before
    decreases |calls|
  {
    if calls == [] {
      assert ([] + [Round1Call(i, request)])[1..] == [];
    } else {
      var (next, log') := Perform(crypto, st, log, calls[0]);
      assert (calls + [Round1Call(i, request)])[1..] == calls[1..] + [Round1Call(i, request)];
      LogIsWhatWasAnswered(crypto, next, log', calls[1..], i, request);
    }
  }

  /** One case: a node that validated one request and then rejects another cannot sign for the first any more. */
  lemma {:induction false} RejectionClearsNonce(crypto: Crypto, st: LocalState, i: nat, a: AttestationRequest,
                                                b: AttestationRequest, message: Bytes,
                                                commitments: seq<SigningCommitment>)
    requires i < |st.nodes| == |st.nonces|
    requires a.programCid !in st.nodes[i].frozen && st.nodes[i].executor(a).Executed?
    requires b.programCid !in st.nodes[i].frozen && st.nodes[i].executor(b).Executed?
    requires st.nodes[i].executor(a).result.Valid? && st.nodes[i].executor(b).result.Invalid?
    ensures st.Round1(i, a).0.Round2(crypto, i, message, commitments).1.Ok?
    ensures st.Round1(i, a).0.Round1(i, b).0.Round2(crypto, i, message, commitments).1 == Err(InvalidSignature)
  {
    hide SignPartial;
  }
}
