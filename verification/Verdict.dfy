/**
 From the execution client's reply to the verdict on a proposal
 (mod/execution/pkg/client, mod/execution/pkg/engine/engine.go,
 mod/beacon/blockchain/receive.go, mod/runtime/pkg/runtime/middleware/validator.go).
 */
module Verdict {
  import opened Bytes
  import opened Errors

  type Hash = seq<Byte>
  type PayloadId = seq<Byte>

  // ------------------------------------------------------------ client

  datatype Status = Valid | Invalid | Accepted | Syncing | Unlisted(name: string)

  datatype PayloadStatus = PayloadStatus(status: Status, latestValidHash: Option<Hash>)

  /** What can go wrong with the RPC itself. */
  datatype RpcError = HttpTimeout | NotJsonRpc(message: string) | JsonRpc(code: int, hasData: bool, message: string)

  /** A reply to engine_newPayload. */
  datatype Reply = Failed(err: RpcError) | NoResult | Result(result: PayloadStatus)

  datatype ForkchoiceReply =
    | UpdateFailed(err: RpcError)
    | NoUpdateResult
    | UpdateResult(payloadId: Option<PayloadId>, result: PayloadStatus)

  function ProcessPayloadStatusResult(r: PayloadStatus): (Option<Hash>, Option<Error>) {
    match r.status
    case Accepted => (None, Some(Named(ErrAcceptedPayloadStatus)))
    case Syncing => (None, Some(Named(ErrSyncingPayloadStatus)))
    case Invalid => (r.latestValidHash, Some(Named(ErrInvalidPayloadStatus)))
    case Valid => (r.latestValidHash, None)
    case Unlisted(_) => (None, Some(Named(ErrUnknownPayloadStatus)))
  }

  function HandleRPCError(err: RpcError): Error {
    match err
    case HttpTimeout => Named(ErrTimeout)
    case NotJsonRpc(message) => Wrapped(Foreign(message))
    case JsonRpc(code, hasData, message) =>
      if code == -32700 then Named(ErrParse)
      else if code == -32600 then Named(ErrInvalidRequest)
      else if code == -32601 then Named(ErrMethodNotFound)
      else if code == -32602 then Named(ErrInvalidParams)
      else if code == -32603 then Named(ErrInternal)
      else if code == -38001 then Named(ErrUnknownPayload)
      else if code == -38002 then Named(ErrInvalidForkchoiceState)
      else if code == -38003 then Named(ErrInvalidPayloadAttributes)
      else if code == -38004 then Named(ErrRequestTooLarge)
      else if code == -32000 then
        (if hasData then Wrapped(Named(ErrServer)) else Wrapped(Joined([Named(ErrServer), Foreign(message)])))
      else Foreign(message)
  }

  function NewPayload(reply: Reply): (Option<Hash>, Option<Error>) {
    match reply
    case Failed(err) => (None, Some(HandleRPCError(err)))
    case NoResult => (None, Some(Named(ErrNilPayloadStatus)))
    case Result(result) => ProcessPayloadStatusResult(result)
  }

  function ForkchoiceUpdated(reply: ForkchoiceReply): (Option<PayloadId>, Option<Hash>, Option<Error>) {
    match reply
    case UpdateFailed(err) => (None, None, Some(HandleRPCError(err)))
    case NoUpdateResult => (None, None, Some(Named(ErrNilForkchoiceResponse)))
    case UpdateResult(id, result) =>
      var (hash, err) := ProcessPayloadStatusResult(result);
      (if err.Some? then None else id, hash, err)
  }

  // ------------------------------------------------------------ engine

  const PRE_DEFINED: set<Sentinel> :=
    {ErrParse, ErrInvalidRequest, ErrMethodNotFound, ErrInvalidParams, ErrInternal, ErrServer, ErrServerParse}

  /** The outcome of checking the payload's block hash and versioned hashes locally. */
  datatype LocalCheck = Consistent | BadTransaction(message: string) | WrongHashCount | WrongVersionedHash | WrongBlockHash

  function LocalError(check: LocalCheck): (err: Option<Error>)
    ensures err.None? <==> check == Consistent
    ensures !Names(err, ErrAcceptedPayloadStatus)
    ensures err.Some? ==> FirstDetailed(err.value).None?
  {
    match check
    case Consistent => None
    case BadTransaction(message) =>
      assert !Is(Foreign(message), ErrAcceptedPayloadStatus);
      Some(Wrapped(Foreign(message)))
    case WrongHashCount => Some(Wrapped(Named(ErrMismatchedNumVersionedHashes)))
    case WrongVersionedHash => Some(Wrapped(Named(ErrInvalidVersionedHash)))
    case WrongBlockHash => Some(Wrapped(Named(ErrPayloadBlockHashMismatch)))
  }

  /** The name of each local mismatch. */
  lemma {:induction false} LocalErrorTable(message: string)
    ensures LocalError(WrongHashCount) == Some(Wrapped(Named(ErrMismatchedNumVersionedHashes)))
    ensures LocalError(WrongVersionedHash) == Some(Wrapped(Named(ErrInvalidVersionedHash)))
    ensures LocalError(WrongBlockHash) == Some(Wrapped(Named(ErrPayloadBlockHashMismatch)))
    ensures LocalError(BadTransaction(message)) == Some(Wrapped(Foreign(message)))
  {
  }

  function VerifyAndNotifyNewPayload(check: LocalCheck, reply: Reply, optimistic: bool): Option<Error> {
    if LocalError(check).Some? then LocalError(check)
    else
      var err := NewPayload(reply).1;
      if IsAny(err, {ErrAcceptedPayloadStatus, ErrSyncingPayloadStatus}) then (if optimistic then None else err)
      else if IsAny(err, {ErrInvalidPayloadStatus, ErrInvalidBlockHashPayloadStatus}) then
        Some(Named(ErrBadBlockProduced))
      else if optimistic then None
      else if IsAny(err, PRE_DEFINED) then Join([err, Some(Named(ErrPreDefinedJSONRPC))])
      else err
  }

  function NotifyForkchoiceUpdate(reply: ForkchoiceReply, hasAttributes: bool)
    : (Option<PayloadId>, Option<Hash>, Option<Error>)
  {
    var (id, hash, err) := ForkchoiceUpdated(reply);
    if IsAny(err, {ErrAcceptedPayloadStatus, ErrSyncingPayloadStatus}) then (id, None, None)
    else if IsAny(err, {ErrInvalidPayloadStatus, ErrInvalidBlockHashPayloadStatus}) then
      (id, hash, Some(Named(ErrBadBlockProduced)))
    else if IsAny(err, PRE_DEFINED) then (None, None, Join([err, Some(Named(ErrPreDefinedJSONRPC))]))
    else if err.Some? then (None, None, err)
    else if id.None? && hasAttributes then (id, hash, Some(Named(ErrNilPayloadOnValidResponse)))
    else (id, hash, None)
  }

  predicate Names(err: Option<Error>, s: Sentinel) {
    err.Some? && Is(err.value, s)
  }

  predicate HasStatus(reply: Reply, status: Status) {
    reply.Result? && reply.result.status == status
  }

  /** What a payload status means to the client: an error of that name, and a hash only on VALID and INVALID. */
  lemma {:induction false} StatusTable(hash: Option<Hash>, name: string)
    ensures ProcessPayloadStatusResult(PayloadStatus(Valid, hash)) == (hash, None)
    ensures ProcessPayloadStatusResult(PayloadStatus(Invalid, hash)) == (hash, Some(Named(ErrInvalidPayloadStatus)))
    ensures ProcessPayloadStatusResult(PayloadStatus(Accepted, hash)) == (None, Some(Named(ErrAcceptedPayloadStatus)))
    ensures ProcessPayloadStatusResult(PayloadStatus(Syncing, hash)) == (None, Some(Named(ErrSyncingPayloadStatus)))
    ensures ProcessPayloadStatusResult(PayloadStatus(Unlisted(name), hash)) == (None, Some(Named(ErrUnknownPayloadStatus)))
  {
  }

  /** The codes of the JSON-RPC and Engine API specifications, and the errors they become. */
  const RPC_CODES: map<int, Sentinel> :=
    map[-32700 := ErrParse, -32600 := ErrInvalidRequest, -32601 := ErrMethodNotFound, -32602 := ErrInvalidParams,
        -32603 := ErrInternal, -38001 := ErrUnknownPayload, -38002 := ErrInvalidForkchoiceState,
        -38003 := ErrInvalidPayloadAttributes, -38004 := ErrRequestTooLarge]

  lemma {:induction false} RpcErrorTable(code: int, hasData: bool, message: string)
    ensures var e := HandleRPCError(JsonRpc(code, hasData, message));
      if code in RPC_CODES then e == Named(RPC_CODES[code])
      else if code == -32000 then Is(e, ErrServer)
      else e == Foreign(message)
    ensures HandleRPCError(HttpTimeout) == Named(ErrTimeout)
    ensures HandleRPCError(NotJsonRpc(message)) == Wrapped(Foreign(message))
  {
    if code == -32000 {
      var both := [Named(ErrServer), Foreign(message)];
      assert Is(both[0], ErrServer);
      assert Is(Named(ErrServer), ErrServer);
      assert Is(Joined(both), ErrServer);
    }
  }

  /** An error from the RPC layer names no payload status. */
  lemma {:induction false} RpcErrorNamesNoStatus(err: RpcError, s: Sentinel)
    requires s in {ErrAcceptedPayloadStatus, ErrSyncingPayloadStatus, ErrInvalidPayloadStatus, ErrInvalidBlockHashPayloadStatus}
    ensures !Is(HandleRPCError(err), s)
  {
    if err.JsonRpc? && err.code == -32000 && !err.hasData {
      assert forall i :: 0 <= i < 2 ==> !Is([Named(ErrServer), Foreign(err.message)][i], s);
    }
  }

  lemma {:induction false} ClientErrorNames(reply: Reply, s: Sentinel)
    requires s in {ErrAcceptedPayloadStatus, ErrSyncingPayloadStatus, ErrInvalidPayloadStatus, ErrInvalidBlockHashPayloadStatus}
    ensures NewPayload(reply).1 == None <==> HasStatus(reply, Valid)
    ensures Names(NewPayload(reply).1, s) <==>
            (|| (s == ErrAcceptedPayloadStatus && HasStatus(reply, Accepted))
             || (s == ErrSyncingPayloadStatus && HasStatus(reply, Syncing))
             || (s == ErrInvalidPayloadStatus && HasStatus(reply, Invalid)))
  {
    if reply.Failed? {
      RpcErrorNamesNoStatus(reply.err, s);
    }
  }

  /**
   The engine's answer in both modes. A local mismatch and an INVALID status always come back as
   an error; optimistic mode swallows everything else; otherwise only VALID is no error.
   */
  lemma {:induction false} EngineVerdict(check: LocalCheck, reply: Reply, optimistic: bool)
    ensures check != Consistent ==> VerifyAndNotifyNewPayload(check, reply, optimistic) == LocalError(check) != None
    ensures check == Consistent && HasStatus(reply, Invalid) ==>
              VerifyAndNotifyNewPayload(check, reply, optimistic) == Some(Named(ErrBadBlockProduced))
    ensures VerifyAndNotifyNewPayload(check, reply, optimistic) == None <==>
            (check == Consistent && if optimistic then !HasStatus(reply, Invalid) else HasStatus(reply, Valid))
  {
    ClientErrorNames(reply, ErrAcceptedPayloadStatus);
    ClientErrorNames(reply, ErrSyncingPayloadStatus);
    ClientErrorNames(reply, ErrInvalidPayloadStatus);
    ClientErrorNames(reply, ErrInvalidBlockHashPayloadStatus);
    var err := NewPayload(reply).1;
    SplitAny(err, ErrAcceptedPayloadStatus, ErrSyncingPayloadStatus);
    SplitAny(err, ErrInvalidPayloadStatus, ErrInvalidBlockHashPayloadStatus);
  }

  lemma {:induction false} SplitAny(err: Option<Error>, a: Sentinel, b: Sentinel)
    ensures IsAny(err, {a, b}) <==> Names(err, a) || Names(err, b)
  {
    assert a in {a, b} && b in {a, b};
  }

  lemma {:induction false} JoinedPairNames(e: Error, s: Sentinel)
    ensures Names(Join([Some(e), Some(Named(ErrPreDefinedJSONRPC))]), s) <==> Is(e, s) || s == ErrPreDefinedJSONRPC
  {
    var both := [e, Named(ErrPreDefinedJSONRPC)];
    assert [Some(e), Some(Named(ErrPreDefinedJSONRPC))][1..] == [Some(Named(ErrPreDefinedJSONRPC))];
    assert NonNil([Some(Named(ErrPreDefinedJSONRPC))]) == [Named(ErrPreDefinedJSONRPC)];
    assert NonNil([Some(e), Some(Named(ErrPreDefinedJSONRPC))]) == both;
    assert both[0] == e && both[1] == Named(ErrPreDefinedJSONRPC);
    assert Is(both[1], s) <==> s == ErrPreDefinedJSONRPC;
    JoinedIdentity(both, s);
    if Is(e, s) || s == ErrPreDefinedJSONRPC {
      assert Is(both[0], s) || Is(both[1], s);
    }
  }

  /** Non-optimistic errors name ACCEPTED exactly when that was the reply to a locally consistent payload. */
  lemma {:induction false} AcceptedIsNamed(check: LocalCheck, reply: Reply)
    ensures Names(VerifyAndNotifyNewPayload(check, reply, false), ErrAcceptedPayloadStatus) <==>
            check == Consistent && HasStatus(reply, Accepted)
  {
    var err := NewPayload(reply).1;
    ClientErrorNames(reply, ErrAcceptedPayloadStatus);
    if check == Consistent && !HasStatus(reply, Accepted) && err.Some? {
      JoinedPairNames(err.value, ErrAcceptedPayloadStatus);
    }
  }

  /**
   The engine's answer to a forkchoice update. On VALID the payload ID and the latest valid hash are
   the reply's; on every other reply there is no ID; ACCEPTED and SYNCING count as success, without a hash.
   */
  lemma {:induction false} ForkchoiceVerdict(reply: ForkchoiceReply, hasAttributes: bool)
    ensures var (id, hash, err) := NotifyForkchoiceUpdate(reply, hasAttributes);
            && (err == None <==>
                && reply.UpdateResult?
                && (|| reply.result.status in {Accepted, Syncing}
                    || (reply.result.status == Valid && (hasAttributes ==> reply.payloadId.Some?))))
            && (if reply.UpdateResult? && reply.result.status == Valid
                then id == reply.payloadId && hash == reply.result.latestValidHash
                else id == None)
            && (reply.UpdateResult? && reply.result.status in {Accepted, Syncing} ==> hash == None)
            && (reply.UpdateResult? && reply.result.status == Invalid ==>
                  err == Some(Named(ErrBadBlockProduced)) && hash == reply.result.latestValidHash)
  {
    var err := ForkchoiceUpdated(reply).2;
    SplitAny(err, ErrAcceptedPayloadStatus, ErrSyncingPayloadStatus);
    SplitAny(err, ErrInvalidPayloadStatus, ErrInvalidBlockHashPayloadStatus);
    if reply.UpdateFailed? {
      RpcErrorNamesNoStatus(reply.err, ErrAcceptedPayloadStatus);
      RpcErrorNamesNoStatus(reply.err, ErrSyncingPayloadStatus);
      RpcErrorNamesNoStatus(reply.err, ErrInvalidPayloadStatus);
      RpcErrorNamesNoStatus(reply.err, ErrInvalidBlockHashPayloadStatus);
    } else if reply.UpdateResult? {
      var asNewPayload := Result(reply.result);
      assert NewPayload(asNewPayload).1 == err;
      ClientErrorNames(asNewPayload, ErrAcceptedPayloadStatus);
      ClientErrorNames(asNewPayload, ErrSyncingPayloadStatus);
      ClientErrorNames(asNewPayload, ErrInvalidPayloadStatus);
      ClientErrorNames(asNewPayload, ErrInvalidBlockHashPayloadStatus);
    }
  }

  const PRE_DEFINED_CODES: set<int> := {-32700, -32600, -32601, -32602, -32603, -32000}

  lemma {:induction false} AnyOfNamed(s: Sentinel, names: set<Sentinel>)
    ensures IsAny(Some(Named(s)), names) <==> s in names
  {
    assert Is(Named(s), s);
  }

  lemma {:induction false} AnyOfForeign(message: string, names: set<Sentinel>)
    ensures !IsAny(Some(Foreign(message)), names) && !IsAny(Some(Wrapped(Foreign(message))), names)
  {
    forall s
      ensures !Is(Foreign(message), s) && !Is(Wrapped(Foreign(message)), s)
    {
    }
  }

  lemma {:induction false} PreDefinedExactly(err: RpcError)
    ensures IsAny(Some(HandleRPCError(err)), PRE_DEFINED) <==> err.JsonRpc? && err.code in PRE_DEFINED_CODES
  {
    match err
    case HttpTimeout =>
      AnyOfNamed(ErrTimeout, PRE_DEFINED);
    case NotJsonRpc(message) =>
      AnyOfForeign(message, PRE_DEFINED);
    case JsonRpc(code, hasData, message) =>
      PreDefinedCode(code, hasData, message);
  }

  lemma {:induction false} CodeTable(code: int)
    ensures code in RPC_CODES ==> (RPC_CODES[code] in PRE_DEFINED <==> code in PRE_DEFINED_CODES)
    ensures code !in RPC_CODES ==> (code == -32000 <==> code in PRE_DEFINED_CODES)
    ensures -32000 !in RPC_CODES
  {
  }

  lemma {:induction false} PreDefinedCode(code: int, hasData: bool, message: string)
    ensures IsAny(Some(HandleRPCError(JsonRpc(code, hasData, message))), PRE_DEFINED) <==> code in PRE_DEFINED_CODES
  {
    var e := HandleRPCError(JsonRpc(code, hasData, message));
    RpcErrorTable(code, hasData, message);
    CodeTable(code);
    if e.Named? {
      AnyOfNamed(e.sentinel, PRE_DEFINED);
    } else if e.Foreign? {
      AnyOfForeign(message, PRE_DEFINED);
    } else {
      assert Is(e, ErrServer) && ErrServer in PRE_DEFINED;
    }
  }

  /** What a non-optimistic answer to a consistent payload names when the RPC failed: also whether it was pre-defined. */
  lemma {:induction false} FailedRpcNames(err: RpcError, s: Sentinel)
    ensures Names(VerifyAndNotifyNewPayload(Consistent, Failed(err), false), s) <==>
      || Is(HandleRPCError(err), s)
      || (s == ErrPreDefinedJSONRPC && err.JsonRpc? && err.code in PRE_DEFINED_CODES)
  {
    var e := HandleRPCError(err);
    RpcErrorNamesNoStatus(err, ErrAcceptedPayloadStatus);
    RpcErrorNamesNoStatus(err, ErrSyncingPayloadStatus);
    RpcErrorNamesNoStatus(err, ErrInvalidPayloadStatus);
    RpcErrorNamesNoStatus(err, ErrInvalidBlockHashPayloadStatus);
    SplitAny(Some(e), ErrAcceptedPayloadStatus, ErrSyncingPayloadStatus);
    SplitAny(Some(e), ErrInvalidPayloadStatus, ErrInvalidBlockHashPayloadStatus);
    PreDefinedExactly(err);
    JoinedPairNames(e, s);
  }

  /** And what it is when the client got an answer. */
  lemma {:induction false} AnsweredRpcError(reply: Reply)
    requires !reply.Failed?
    ensures VerifyAndNotifyNewPayload(Consistent, reply, false) ==
      if reply.NoResult? then Some(Named(ErrNilPayloadStatus))
      else match reply.result.status
           case Valid => None
           case Invalid => Some(Named(ErrBadBlockProduced))
           case Accepted => Some(Named(ErrAcceptedPayloadStatus))
           case Syncing => Some(Named(ErrSyncingPayloadStatus))
           case Unlisted(_) => Some(Named(ErrUnknownPayloadStatus))
  {
    var err := NewPayload(reply).1;
    if err.Some? {
      AnyOfNamed(err.value.sentinel, {ErrAcceptedPayloadStatus, ErrSyncingPayloadStatus});
      AnyOfNamed(err.value.sentinel, {ErrInvalidPayloadStatus, ErrInvalidBlockHashPayloadStatus});
      AnyOfNamed(err.value.sentinel, PRE_DEFINED);
    }
  }

  /** The errors of an update that did not fail in the RPC layer. */
  lemma {:induction false} ForkchoiceErrors(reply: ForkchoiceReply, hasAttributes: bool)
    requires !reply.UpdateFailed?
    ensures var (id, hash, err) := NotifyForkchoiceUpdate(reply, hasAttributes);
            err == if reply.NoUpdateResult? then Some(Named(ErrNilForkchoiceResponse))
                   else match reply.result.status
                        case Valid =>
                          if hasAttributes && reply.payloadId.None? then Some(Named(ErrNilPayloadOnValidResponse)) else None
                        case Invalid => Some(Named(ErrBadBlockProduced))
                        case Accepted => None
                        case Syncing => None
                        case Unlisted(_) => Some(Named(ErrUnknownPayloadStatus))
  {
    ForkchoiceVerdict(reply, hasAttributes);
  }

  // ------------------------------------------------------------ state transition

  /**
   What the stages of a transition find, in order; `None` is success. ToHeader runs beside the
   payload's validation, and `headerFirst` says whose error the group reports when both fail.
   */
  datatype Stages = Stages(
    slotsAndHeader: Option<string>,
    parentHash: Option<string>, check: LocalCheck, reply: Reply, randaoAndCounts: Option<string>,
    toHeader: Option<string>, headerFirst: bool,
    operationsAndStateRoot: Option<string>)

  function StageError(outcome: Option<string>): (err: Option<Error>)
    ensures err.None? <==> outcome.None?
    ensures !Names(err, ErrAcceptedPayloadStatus)
    ensures err.Some? ==> FirstDetailed(err.value).None?
  {
    if outcome.None? then None
    else
      assert !Is(Foreign(outcome.value), ErrAcceptedPayloadStatus);
      Some(Wrapped(Foreign(outcome.value)))
  }

  function ValidateExecutionPayload(s: Stages, optimistic: bool): Option<Error> {
    if s.parentHash.Some? then StageError(s.parentHash)
    else
      var err := VerifyAndNotifyNewPayload(s.check, s.reply, optimistic);
      if err.Some? then err else StageError(s.randaoAndCounts)
  }

  function ProcessExecutionPayload(s: Stages, optimistic: bool): Option<Error> {
    var validation := ValidateExecutionPayload(s, optimistic);
    if validation.None? || (s.toHeader.Some? && s.headerFirst) then StageError(s.toHeader) else validation
  }

  function Transition(s: Stages, optimistic: bool): Option<Error> {
    if s.slotsAndHeader.Some? then StageError(s.slotsAndHeader)
    else
      var err := ProcessExecutionPayload(s, optimistic);
      if err.Some? then err else StageError(s.operationsAndStateRoot)
  }

  function VerifyStateRoot(s: Stages): Option<Error> {
    var err := Transition(s, false);
    if Names(err, ErrAcceptedPayloadStatus) then None else err
  }

  /** Everything but the engine's reply is in order. */
  ghost predicate OtherwiseSuccessful(s: Stages) {
    && s.slotsAndHeader.None? && s.parentHash.None? && s.check == Consistent
    && s.randaoAndCounts.None? && s.toHeader.None? && s.operationsAndStateRoot.None?
  }

  /**
   Which blocks pass as proposals. ACCEPTED ends the transition early, so the stages after the
   engine call are not consulted.
   */
  ghost predicate BlockPasses(s: Stages) {
    || (OtherwiseSuccessful(s) && HasStatus(s.reply, Valid))
    || (&& s.slotsAndHeader.None? && s.parentHash.None? && s.check == Consistent
        && HasStatus(s.reply, Accepted) && !(s.toHeader.Some? && s.headerFirst))
  }

  /** The first stage that fails is the one reported. */
  lemma {:induction false} TransitionReports(s: Stages, optimistic: bool)
    ensures s.slotsAndHeader.Some? ==> Transition(s, optimistic) == Some(Wrapped(Foreign(s.slotsAndHeader.value)))
    ensures s.slotsAndHeader.None? && s.toHeader.None? ==>
      var engine := VerifyAndNotifyNewPayload(s.check, s.reply, optimistic);
      Transition(s, optimistic) ==
        if s.parentHash.Some? then Some(Wrapped(Foreign(s.parentHash.value)))
        else if engine.Some? then engine
        else if s.randaoAndCounts.Some? then Some(Wrapped(Foreign(s.randaoAndCounts.value)))
        else if s.operationsAndStateRoot.Some? then Some(Wrapped(Foreign(s.operationsAndStateRoot.value)))
        else None
  {
  }

  lemma {:induction false} TransitionSucceeds(s: Stages, optimistic: bool)
    ensures Transition(s, optimistic) == None <==>
            (OtherwiseSuccessful(s) && if optimistic then !HasStatus(s.reply, Invalid) else HasStatus(s.reply, Valid))
  {
    EngineVerdict(s.check, s.reply, optimistic);
  }

  lemma {:induction false} StateRootVerdict(s: Stages)
    ensures VerifyStateRoot(s) == None <==> BlockPasses(s)
    ensures VerifyStateRoot(s).Some? ==> FirstDetailed(VerifyStateRoot(s).value).None?
  {
    TransitionSucceeds(s, false);
    AcceptedIsNamed(s.check, s.reply);
    EngineErrorIsPlain(s.check, s.reply);
  }

  lemma {:induction false} EngineErrorIsPlain(check: LocalCheck, reply: Reply)
    ensures var err := VerifyAndNotifyNewPayload(check, reply, false);
            err.Some? ==> FirstDetailed(err.value).None?
  {
    var err := NewPayload(reply).1;
    if err.Some? {
      if reply.Failed? && reply.err.JsonRpc? {
        assert FirstDetailedIn([Foreign(reply.err.message)]).None?;
        var server := [Named(ErrServer), Foreign(reply.err.message)];
        assert server[1..] == [Foreign(reply.err.message)];
        assert FirstDetailedIn(server).None?;
      }
      assert FirstDetailed(err.value).None?;
      var tail := [Named(ErrPreDefinedJSONRPC)];
      var both := [err.value, Named(ErrPreDefinedJSONRPC)];
      assert NonNil([Some(Named(ErrPreDefinedJSONRPC))]) == tail;
      assert NonNil([err, Some(Named(ErrPreDefinedJSONRPC))]) == both;
      assert both[1..] == tail && FirstDetailedIn(tail).None?;
      assert FirstDetailedIn(both).None?;
    }
  }

  /** Given an otherwise successful transition, a proposal passes exactly on VALID or ACCEPTED. */
  lemma {:induction false} PassesOnValidOrAccepted(s: Stages)
    requires OtherwiseSuccessful(s)
    ensures VerifyStateRoot(s) == None <==> HasStatus(s.reply, Valid) || HasStatus(s.reply, Accepted)
  {
    StateRootVerdict(s);
  }

  /**
   A passing proposal has been through the whole transition exactly when the reply was not
   ACCEPTED; on ACCEPTED a wrong state root is not seen.
   */
  lemma {:induction false} PassMeansFullTransition(s: Stages)
    requires VerifyStateRoot(s) == None
    ensures Transition(s, false) == None <==> !HasStatus(s.reply, Accepted)
  {
    StateRootVerdict(s);
    TransitionSucceeds(s, false);
  }

  lemma {:induction false} AcceptedHidesLaterFailure(s: Stages, failure: string)
    requires OtherwiseSuccessful(s) && HasStatus(s.reply, Accepted)
    ensures VerifyStateRoot(s.(operationsAndStateRoot := Some(failure))) == None
  {
    StateRootVerdict(s.(operationsAndStateRoot := Some(failure)));
  }

  // ------------------------------------------------------------ proposals

  datatype Blobs = NoSidecars | Sidecars(verification: Option<string>)

  datatype Proposal = Proposal(nilBlock: bool, stages: Stages, blobs: Blobs)

  function VerifyIncomingBlock(p: Proposal): Option<Error> {
    if p.nilBlock then Some(WrapNonFatal(Some(Named(ErrNilBlk)))) else VerifyStateRoot(p.stages)
  }

  function VerifyIncomingBlobs(p: Proposal): Option<Error> {
    if p.nilBlock then Some(WrapNonFatal(Some(Named(ErrNilBlk))))
    else if p.blobs.NoSidecars? then None
    else StageError(p.blobs.verification)
  }

  ghost predicate ProposalPasses(p: Proposal) {
    p.nilBlock || (BlockPasses(p.stages) && (p.blobs.NoSidecars? || p.blobs.verification.None?))
  }

  /** The joined error is never nil; its fatality is the verdict. */
  method ReceiveBlockAndBlobs(p: Proposal) returns (err: Error)
    ensures err.Detailed?
    ensures IsFatal(Some(err)) <==> !ProposalPasses(p)
    ensures err.cause.None? <==> !p.nilBlock && ProposalPasses(p)
  {
    StateRootVerdict(p.stages);
    var blockErr := VerifyIncomingBlock(p);
    var blobsErr := VerifyIncomingBlobs(p);
    var errs := [blockErr, blobsErr];
    err := JoinFatal(errs);
    assert errs[0] == blockErr && errs[1] == blobsErr;
    assert AnyFatal(errs) <==> IsFatal(blockErr) || IsFatal(blobsErr);
  }

  /** ProcessProposalHandler: a proposal is rejected exactly when the error is fatal. */
  method ProcessProposal(p: Proposal) returns (accept: bool)
    ensures accept <==> ProposalPasses(p)
  {
    var err := ReceiveBlockAndBlobs(p);
    accept := !IsFatal(Some(err));
  }
}
