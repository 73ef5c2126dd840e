/** Threshold nodes (crates/node/src/node.rs): per-program key shares, frozen programs, migration. */
module Nodes {
  import opened Core
  import opened Scalars
  import opened Polynomials
  import opened Lagrange
  import opened Feldman
  import opened Frost
  import opened FrostCorrectness
  import opened Epochs

  datatype AttestationRequest = AttestationRequest(programCid: Str, requester: Str, args: Bytes, requestId: Str)

  /** The amount, a floating-point number, appears as its bits. */
  datatype Transaction = Transaction(
    sequence: u64, prevHash: Str, sender: Str, recipient: Str, amount: u64, asset: Str, timestamp: u64,
    programCid: Str, userSig: Str)

  datatype AttestationResult = Valid(transaction: Transaction) | Invalid(reason: Str)

  /** What running a program on a request comes to: a result, or a program error. */
  datatype Execution = Executed(result: AttestationResult) | Failed(message: Str)

  type Executor = AttestationRequest -> Execution

  datatype NodeResponse = NodeResponse(
    result: AttestationResult,
    commitment: Option<SigningCommitment>,
    nonce: Option<SigningNonce>)

  datatype Operation = Register(cid: Str, keyShare: KeyShare) | Freeze(cid: Str) | Migrate(oldCid: Str, newCid: Str)

  /** The value of a node; `CraftSecNode` is the object that holds one. */
  datatype NodeState = NodeState(
    keyShares: map<Str, KeyShare>,
    keyShare: KeyShare,
    executor: Executor,
    frozen: set<Str>) {

    function GetKeyShare(cid: Str): KeyShare {
      if cid in keyShares then keyShares[cid] else keyShare
    }

    function Apply(op: Operation): NodeState {
      match op
      case Register(cid, k) => this.(keyShares := keyShares[cid := k])
      case Freeze(cid) => this.(frozen := frozen + {cid})
      case Migrate(oldCid, newCid) =>
        this.(keyShares := keyShares[newCid := GetKeyShare(oldCid)], frozen := frozen + {oldCid})
    }

    /** The answer to a request when the node would draw the nonces d and e. */
    function Answer(request: AttestationRequest, d: Scalar, e: Scalar): Result<NodeResponse> {
      if request.programCid in frozen then Err(ProgramFrozen(request.programCid))
      else
        match executor(request)
        case Failed(message) => Err(ProgramError(message))
        case Executed(result) =>
          if result.Valid? then
            var nonce := SigningNonce(GetKeyShare(request.programCid).index, d, e);
            Ok(NodeResponse(result, Some(CommitmentTo(nonce)), Some(nonce)))
          else Ok(NodeResponse(result, None, None))
    }

    /** Whether the node would validate the request. */
    predicate Validates(request: AttestationRequest) {
      request.programCid !in frozen && executor(request).Executed? && executor(request).result.Valid?
    }
  }

  class CraftSecNode {
    var keyShares: map<Str, KeyShare>
    const keyShare: KeyShare
    const registry: Executor
    var frozenPrograms: set<Str>

    constructor (keyShare: KeyShare, registry: Executor)
      ensures State() == NodeState(map[], keyShare, registry, {})
    {
      this.keyShares := map[];
      this.keyShare := keyShare;
      this.registry := registry;
      this.frozenPrograms := {};
    }

    function State(): NodeState
      reads this
    {
      NodeState(keyShares, keyShare, registry, frozenPrograms)
    }

    method RegisterKey(cid: Str, keyShare: KeyShare)
      modifies this
      ensures State() == old(State()).Apply(Register(cid, keyShare))
    {
      keyShares := keyShares[cid := keyShare];
    }

    method FreezeProgram(cid: Str)
      modifies this
      ensures State() == old(State()).Apply(Freeze(cid))
    {
      frozenPrograms := frozenPrograms + {cid};
    }

    method MigrateProgram(oldCid: Str, newCid: Str)
      modifies this
      ensures State() == old(State()).Apply(Migrate(oldCid, newCid))
    {
      var keyShare := State().GetKeyShare(oldCid);
      RegisterKey(newCid, keyShare);
      FreezeProgram(oldCid);
    }

    /** Round 1: nonces are drawn only for a request that validates. */
    method ProcessRequest(request: AttestationRequest, rng: Rng) returns (r: Result<NodeResponse>)
      modifies rng
      ensures r == State().Answer(request, rng.tape(old(rng.drawn)), rng.tape(old(rng.drawn) + 1))
      ensures rng.drawn == old(rng.drawn) + if State().Validates(request) then 2 else 0
    {
      if request.programCid in frozenPrograms {
        return Err(ProgramFrozen(request.programCid));
      }
      var execution := registry(request);
      match execution {
        case Failed(message) =>
          return Err(ProgramError(message));
        case Executed(result) =>
          match result {
            case Valid(_) =>
              var ks := State().GetKeyShare(request.programCid);
              var nonce, commitment := GenerateNonces(ks.index, rng);
              return Ok(NodeResponse(result, Some(commitment), Some(nonce)));
            case Invalid(_) =>
              return Ok(NodeResponse(result, None, None));
          }
      }
    }

    /** Round 2 signs with the default key share, whatever share answered in round 1: the response carries that
        share's index, and passes `verify_partial` against that share's verification share and the nonce's
        commitment, even if the nonce was drawn for another index. */
    method Sign(crypto: Crypto, nonce: SigningNonce, message: Bytes, commitments: seq<SigningCommitment>)
        returns (r: PartialSignature)
      ensures r.index == keyShare.index
      ensures VerifyPartial(crypto, r, CommitmentTo(nonce), Times(G, keyShare.secret), message, commitments,
                            keyShare.groupPublicKey).Ok?
    {
      r := SignPartial(crypto, keyShare, nonce, message, commitments);
      PartialCheckIsExact(crypto, keyShare, nonce, r, message, commitments);
    }

    /** The same with the share registered for the CID, or the default share if there is none. */
    method SignForProgram(crypto: Crypto, cid: Str, nonce: SigningNonce, message: Bytes,
                          commitments: seq<SigningCommitment>) returns (r: PartialSignature)
      ensures var ks := if cid in keyShares then keyShares[cid] else keyShare;
              r.index == ks.index
              && VerifyPartial(crypto, r, CommitmentTo(nonce), Times(G, ks.secret), message, commitments,
                               ks.groupPublicKey).Ok?
    {
      var ks := State().GetKeyShare(cid);
      r := SignPartial(crypto, ks, nonce, message, commitments);
      PartialCheckIsExact(crypto, ks, nonce, r, message, commitments);
    }
  }

  // Runs of operations.

  function Run(node: NodeState, ops: seq<Operation>): NodeState
    decreases |ops|
  {
    if ops == [] then node else Run(node.Apply(ops[0]), ops[1..])
  }

  predicate Freezes(op: Operation, cid: Str) {
    op == Freeze(cid) || (op.Migrate? && op.oldCid == cid)
  }

  /** Over any run of operations a program is frozen exactly when it was before, or some operation froze it. */
  lemma {:induction false} FrozenExactly(node: NodeState, ops: seq<Operation>, cid: Str)
    ensures cid in Run(node, ops).frozen <==>
      (cid in node.frozen || exists k :: 0 <= k < |ops| && Freezes(ops[k], cid))
    decreases |ops|
  {
    if ops == [] {
    } else {
      var next := node.Apply(ops[0]);
      FrozenExactly(next, ops[1..], cid);
      assert cid in next.frozen <==> cid in node.frozen || Freezes(ops[0], cid);
      if k :| 0 <= k < |ops| && Freezes(ops[k], cid) {
        assert k > 0 ==> ops[1..][k - 1] == ops[k];
      }
    }
  }

  /** Freezing is permanent, and nothing else refuses: after any operations the node answers ProgramFrozen, without
      commitment or nonce, iff the program was frozen before or the operations froze it or migrated it away. */
  lemma {:induction false} FreezingIsPermanent(node: NodeState, ops: seq<Operation>, request: AttestationRequest,
                                               d: Scalar, e: Scalar)
    ensures var cid := request.programCid;
            Run(node, ops).Answer(request, d, e) == Err(ProgramFrozen(cid)) <==>
            cid in node.frozen || Freeze(cid) in ops || exists newCid :: Migrate(cid, newCid) in ops
  {
    var cid := request.programCid;
    FrozenExactly(node, ops, cid);
    if k :| 0 <= k < |ops| && Freezes(ops[k], cid) {
      assert ops[k] == Freeze(cid) || ops[k] == Migrate(cid, ops[k].newCid);
    }
    if Freeze(cid) in ops {
      var k :| 0 <= k < |ops| && ops[k] == Freeze(cid);
      assert Freezes(ops[k], cid);
    }
    if newCid :| Migrate(cid, newCid) in ops {
      var k :| 0 <= k < |ops| && ops[k] == Migrate(cid, newCid);
      assert Freezes(ops[k], cid);
    }
  }

  /** The four answers, told apart from outside: refused iff frozen; failed iff the program fails, with its message;
      rejected iff the program says so, with its reason and neither commitment nor nonce; validated iff the program
      says so, with a commitment that opens to the nonce, drawn for the share the CID is registered for. */
  lemma {:induction false} AnswersAreExact(node: NodeState, request: AttestationRequest, d: Scalar, e: Scalar)
    ensures var r, cid, run := node.Answer(request, d, e), request.programCid, node.executor(request);
            (r == Err(ProgramFrozen(cid)) <==> cid in node.frozen)
            && (forall m :: r == Err(ProgramError(m)) <==> cid !in node.frozen && run == Failed(m))
            && (forall why :: r == Ok(NodeResponse(Invalid(why), None, None)) <==>
                  cid !in node.frozen && run == Executed(Invalid(why)))
            && (r.Ok? && r.value.result.Invalid? ==> r.value.commitment.None? && r.value.nonce.None?)
            && (r.Ok? && r.value.result.Valid? ==>
                  cid !in node.frozen && run == Executed(r.value.result)
                  && r.value.nonce.Some? && r.value.nonce.value.d == d && r.value.nonce.value.e == e
                  && r.value.nonce.value.index
                     == (if cid in node.keyShares then node.keyShares[cid] else node.keyShare).index
                  && r.value.commitment == Some(SigningCommitment(r.value.nonce.value.index, Times(G, d), Times(G, e))))
            && (cid !in node.frozen && run.Executed? && run.result.Valid? ==> r.Ok? && r.value.result == run.result)
            && (node.Validates(request) <==> r.Ok? && r.value.result.Valid?)
  {
  }

  lemma {:induction false} RunAppend(node: NodeState, ops: seq<Operation>, op: Operation)
    ensures Run(node, ops + [op]) == Run(node, ops).Apply(op)
    decreases |ops|
  {
    if ops == [] {
      assert ([op])[1..] == [];
    } else {
      assert (ops + [op])[1..] == ops[1..] + [op];
      RunAppend(node.Apply(ops[0]), ops[1..], op);
    }
  }

  /** Where the share that a CID resolves to comes from: a registration during the run, or the share that some CID
      resolved to at its start. */
  datatype Provenance = Registered(keyShare: KeyShare) | Origin(cid: Str)

  /** Reading a run backwards: the last operation that wrote the CID decides. */
  function Trace(ops: seq<Operation>, cid: Str): Provenance
    decreases |ops|
  {
    if ops == [] then Origin(cid)
    else
      var earlier, op := ops[..|ops| - 1], ops[|ops| - 1];
      if op.Register? && op.cid == cid then Registered(op.keyShare)
      else if op.Migrate? && op.newCid == cid then Trace(earlier, op.oldCid)
      else Trace(earlier, cid)
  }

  /** After any run of operations a CID resolves to the share its provenance names: a registered one, or what its
      origin was registered for at the start, or else the node's default share. */
  lemma {:induction false} KeyFollowsProvenance(node: NodeState, ops: seq<Operation>, cid: Str)
    ensures Run(node, ops).GetKeyShare(cid) ==
      match Trace(ops, cid)
      case Registered(k) => k
      case Origin(first) => if first in node.keyShares then node.keyShares[first] else node.keyShare
    ensures Run(node, ops).keyShare == node.keyShare && Run(node, ops).executor == node.executor
    decreases |ops|
  {
    if ops == [] {
    } else {
      var earlier, op := ops[..|ops| - 1], ops[|ops| - 1];
      assert ops == earlier + [op];
      RunAppend(node, earlier, op);
      KeyFollowsProvenance(node, earlier, if op.Migrate? && op.newCid == cid then op.oldCid else cid);
    }
  }

  /** Single-program mode: on a new node, whatever was frozen or migrated since, a CID that no registration reaches
      resolves to the default share, so signing for it is signing with that share. */
  lemma {:induction false} UnregisteredUsesDefault(share: KeyShare, executor: Executor, ops: seq<Operation>, cid: Str)
    requires Trace(ops, cid).Origin?
    ensures Run(NodeState(map[], share, executor, {}), ops).GetKeyShare(cid) == share
  {
    KeyFollowsProvenance(NodeState(map[], share, executor, {}), ops, cid);
  }

  // Migration chains.

  /** The migrations cids[0] to cids[1] to cids[2] and so on. */
  function Chain(cids: seq<Str>): (ops: seq<Operation>)
    requires cids != []
    ensures |ops| == |cids| - 1
  {
    seq(|cids| - 1, k requires 0 <= k < |cids| - 1 => Migrate(cids[k], cids[k + 1]))
  }

  lemma {:induction false} ChainProvenance(cids: seq<Str>)
    requires cids != []
    ensures Trace(Chain(cids), cids[|cids| - 1]) == Origin(cids[0])
    decreases |cids|
  {
    if |cids| == 1 {
    } else {
      var shorter := cids[..|cids| - 1];
      ChainProvenance(shorter);
      assert Chain(cids)[..|cids| - 2] == Chain(shorter);
    }
  }

  /** After a chain of migrations the last CID holds the first one's share, and exactly the CIDs before it were
      frozen: the last one is served iff it was not frozen at the start and does not occur earlier in the chain. */
  lemma {:induction false} MigrationKeepsKey(node: NodeState, cids: seq<Str>, cid: Str)
    requires cids != []
    ensures Run(node, Chain(cids)).GetKeyShare(cids[|cids| - 1])
         == if cids[0] in node.keyShares then node.keyShares[cids[0]] else node.keyShare
    ensures cid in Run(node, Chain(cids)).frozen <==> (cid in node.frozen || cid in cids[..|cids| - 1])
  {
    ChainProvenance(cids);
    KeyFollowsProvenance(node, Chain(cids), cids[|cids| - 1]);
    FrozenExactly(node, Chain(cids), cid);
    var ops := Chain(cids);
    if cid in cids[..|cids| - 1] {
      var k :| 0 <= k < |cids| - 1 && cids[k] == cid;
      assert Freezes(ops[k], cid);
    }
  }

  /** The shares that the chosen nodes use for a CID, one nonce each. */
  ghost predicate SignFor(s: Session, nodes: seq<NodeState>, who: seq<nat>, cid: Str) {
    |s.keys| == |s.nonces| == |who| &&
    (forall j, k :: 0 <= j < k < |who| ==> who[j] != who[k]) &&
    forall k :: 0 <= k < |who| ==>
      who[k] < |nodes| && s.keys[k] == nodes[who[k]].GetKeyShare(cid) && s.nonces[k].index == s.keys[k].index
  }

  /** The nodes' shares for a CID are those of distinct members of one group; any members, in any order. */
  ghost predicate GroupFor(nodes: seq<NodeState>, cid: Str, f: seq<int>, n: u32) {
    (forall j :: 0 <= j < |nodes| ==> IsMember(nodes[j].GetKeyShare(cid), KeysOn(f, n))) &&
    forall i, j :: 0 <= i < j < |nodes| ==> nodes[i].GetKeyShare(cid).index != nodes[j].GetKeyShare(cid).index
  }

  /** Nodes of a group for v1 each run any operations of their own that carry v1's share to a new CID; signing for the
      new CID, any t of them sign validly under v1's group key, and any number of them under the same condition as if
      nothing had been migrated. */
  lemma {:induction false} MigratedGroupSigns(nodes: seq<NodeState>, runs: seq<seq<Operation>>, after: seq<NodeState>,
                                              v1: Str, cid: Str, f: seq<int>, n: u32, who: seq<nat>, s: Session)
    requires |nodes| == |runs| == |after| && GroupFor(nodes, v1, f, n)
    requires forall j :: 0 <= j < |nodes| ==>
      after[j] == Run(nodes[j], runs[j]) && Trace(runs[j], cid) == Origin(v1)
    requires SignFor(s, after, who, cid)
    ensures var key := Point(Reduce(Eval(f, 0)));
            (|f| <= |who| ==> Verify(s.crypto, s.Signature(), key, s.message).Ok?)
            && (Verify(s.crypto, s.Signature(), key, s.message).Ok? <==>
                s.ChallengeFor(key) == 0 || Cong(Eval(QuotientAll(f, s.Indices()), 0), 0))
  {
    hide Reduce, Eval, Verify, Run, Trace, IsMember;
    forall k | 0 <= k < |who|
      ensures s.keys[k] == nodes[who[k]].GetKeyShare(v1) && IsMember(s.keys[k], KeysOn(f, n))
    {
      KeyFollowsProvenance(nodes[who[k]], runs[who[k]], cid);
    }
    forall j, k | 0 <= j < k < |who|
      ensures s.Indices()[j] != s.Indices()[k]
    {
      assert who[j] != who[k];
      assert s.keys[j].index != s.keys[k].index by {
        assert who[j] < who[k] || who[k] < who[j];
      }
    }
    MembersSignExactly(s, f, n);
    if |f| <= |who| {
      MembersSign(s, f, n);
    }
  }

  /** In particular, nodes migrated along one chain of CIDs. */
  lemma {:induction false} ChainMigratedGroupSigns(nodes: seq<NodeState>, cids: seq<Str>, f: seq<int>, n: u32,
                                                   who: seq<nat>, s: Session)
    requires cids != [] && GroupFor(nodes, cids[0], f, n)
    requires SignFor(s, seq(|nodes|, j requires 0 <= j < |nodes| => Run(nodes[j], Chain(cids))), who, cids[|cids| - 1])
    requires |f| <= |who|
    ensures Verify(s.crypto, s.Signature(), Point(Reduce(Eval(f, 0))), s.message).Ok?
  {
    hide Reduce, Eval, Verify, Run, Trace, Chain;
    ChainProvenance(cids);
    MigratedGroupSigns(nodes, seq(|nodes|, _ => Chain(cids)),
                       seq(|nodes|, j requires 0 <= j < |nodes| => Run(nodes[j], Chain(cids))),
                       cids[0], cids[|cids| - 1], f, n, who, s);
  }
}
