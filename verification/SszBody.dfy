/** The beacon block body codec (mod/consensus-types/pkg/types/body.ssz.go). */
module SszBody {
  import opened Bytes
  import opened Ssz
  import opened SszPayload

  const BODY_FIXED: nat := 212
  const DEPOSIT_SIZE: nat := 192
  const MAX_DEPOSITS: nat := 16
  const COMMITMENT_SIZE: nat := 48
  const MAX_COMMITMENTS: nat := 16

  /** Eth1Data and Deposit are fixed-width records of 72 and 192 bytes. */
  datatype Body = Body(
    randaoReveal: seq<Byte>, eth1Data: seq<Byte>, graffiti: seq<Byte>,
    deposits: seq<seq<Byte>>, payload: Payload, commitments: seq<seq<Byte>>)

  ghost predicate BodyWellTyped(b: Body) {
    && |b.randaoReveal| == 96 && |b.eth1Data| == 72 && |b.graffiti| == 32
    && AllOfWidth(b.deposits, DEPOSIT_SIZE) && AllOfWidth(b.commitments, COMMITMENT_SIZE)
    && WellTyped(b.payload)
  }

  ghost predicate BodyWithinLimits(b: Body) {
    |b.deposits| <= MAX_DEPOSITS && PayloadWithinLimits(b.payload) && |b.commitments| <= MAX_COMMITMENTS
  }

  ghost function BodyFailure(b: Body): (f: Option<SszError>)
    ensures f == None <==> BodyWithinLimits(b)
    ensures f == None <==> |b.deposits| <= 16 && PayloadFailure(b.payload) == None && |b.commitments| <= 16
    ensures |b.deposits| > 16 ==> f == Some(ErrListTooBig)
    ensures |b.deposits| <= 16 && PayloadFailure(b.payload).Some? ==> f == PayloadFailure(b.payload)
  {
    if |b.deposits| > MAX_DEPOSITS then Some(ErrListTooBig)
    else match PayloadFailure(b.payload)
         case Some(e) => Some(e)
         case None => if |b.commitments| > MAX_COMMITMENTS then Some(ErrListTooBig) else None
  }

  // ------------------------------------------------------------ encoding

  function PayloadSize(p: Payload): nat {
    WithdrawalsStart(p) + WITHDRAWAL_SIZE * |p.withdrawals|
  }

  function PayloadStart(b: Body): nat {
    BODY_FIXED + DEPOSIT_SIZE * |b.deposits|
  }

  function CommitmentsStart(b: Body): nat {
    PayloadStart(b) + PayloadSize(b.payload)
  }

  function BodyParts(b: Body, o3: nat, o4: nat, o5: nat): seq<seq<Byte>> {
    [b.randaoReveal, b.eth1Data, b.graffiti, OffsetBytes(o3), OffsetBytes(o4), OffsetBytes(o5)]
  }

  const BODY_STARTS: seq<nat> := [0, 96, 168, 200, 204, 208, 212]

  function BodyFixedOf(b: Body): seq<Byte> {
    Join(BodyParts(b, BODY_FIXED, PayloadStart(b), CommitmentsStart(b)))
  }

  function EncodeBody(b: Body): seq<Byte> {
    BodyFixedOf(b) + Join(b.deposits) + EncodePayload(b.payload) + Join(b.commitments)
  }

  /** The slots of the fixed part of `buf` hold the fixed fields and these offsets. */
  ghost predicate BodySlots(b: Body, buf: seq<Byte>, o3: nat, o4: nat, o5: nat)
    requires BODY_FIXED <= |buf|
  {
    && buf[0..96] == b.randaoReveal && buf[96..168] == b.eth1Data && buf[168..200] == b.graffiti
    && buf[200..204] == OffsetBytes(o3) && buf[204..208] == OffsetBytes(o4) && buf[208..212] == OffsetBytes(o5)
  }

  lemma {:induction false} BodyFixedExact(b: Body, o3: nat, o4: nat, o5: nat, rest: seq<Byte>)
    requires BodyWellTyped(b)
    ensures |Join(BodyParts(b, o3, o4, o5))| == BODY_FIXED
    ensures BodySlots(b, Join(BodyParts(b, o3, o4, o5)) + rest, o3, o4, o5)
  {
    var parts := BodyParts(b, o3, o4, o5);
    assert HasLayout(parts, BODY_STARTS);
    LayoutSlice(parts, BODY_STARTS, rest, 0);
    LayoutSlice(parts, BODY_STARTS, rest, 1);
    LayoutSlice(parts, BODY_STARTS, rest, 2);
    LayoutSlice(parts, BODY_STARTS, rest, 3);
    LayoutSlice(parts, BODY_STARTS, rest, 4);
    LayoutSlice(parts, BODY_STARTS, rest, 5);
  }

  lemma {:induction false} BodyFixedUnique(b: Body, buf: seq<Byte>, o3: nat, o4: nat, o5: nat)
    requires BodyWellTyped(b) && BODY_FIXED <= |buf| && BodySlots(b, buf, o3, o4, o5)
    ensures Join(BodyParts(b, o3, o4, o5)) == buf[..BODY_FIXED]
  {
    var parts := BodyParts(b, o3, o4, o5);
    assert HasLayout(parts, BODY_STARTS);
    LayoutCanonical(parts, BODY_STARTS, buf);
  }

  /** Every written offset is where its field starts, and the length is what the size says. */
  ghost predicate BodyLaidOut(b: Body, buf: seq<Byte>) {
    && BODY_FIXED <= PayloadStart(b) <= CommitmentsStart(b) <= |buf|
    && |buf| == CommitmentsStart(b) + COMMITMENT_SIZE * |b.commitments|
    && BodySlots(b, buf, BODY_FIXED, PayloadStart(b), CommitmentsStart(b))
    && buf[BODY_FIXED..PayloadStart(b)] == Join(b.deposits)
    && buf[PayloadStart(b)..CommitmentsStart(b)] == EncodePayload(b.payload)
    && buf[CommitmentsStart(b)..] == Join(b.commitments)
  }

  lemma {:induction false} BodyEncodingLaidOut(b: Body)
    requires BodyWellTyped(b) && |b.payload.logsBloom| == LOGS_BLOOM_SIZE
    ensures BodyLaidOut(b, EncodeBody(b))
  {
    var rest := Join(b.deposits) + EncodePayload(b.payload) + Join(b.commitments);
    BodyFixedExact(b, BODY_FIXED, PayloadStart(b), CommitmentsStart(b), rest);
    assert EncodeBody(b) == BodyFixedOf(b) + rest;
    ItemsOfJoin(b.deposits, DEPOSIT_SIZE);
    ItemsOfJoin(b.commitments, COMMITMENT_SIZE);
    EncodingLaidOut(b.payload);
    Concatenation(BodyFixedOf(b), Join(b.deposits), EncodePayload(b.payload), Join(b.commitments));
  }

  lemma {:induction false} BodyLaidOutUnique(b: Body, buf: seq<Byte>)
    requires BodyWellTyped(b) && BodyLaidOut(b, buf)
    ensures EncodeBody(b) == buf
  {
    var o4, o5 := PayloadStart(b), CommitmentsStart(b);
    BodyFixedUnique(b, buf, BODY_FIXED, o4, o5);
    SplitFour(buf, BODY_FIXED, o4, o5);
  }

  // ------------------------------------------------------------ decoding

  datatype BodyOffsets = BodyOffsets(o3: nat, o4: nat, o5: nat)

  function ReadBodyOffsets(buf: seq<Byte>): BodyOffsets
    requires BODY_FIXED <= |buf|
  {
    BodyOffsets(ReadOffset(buf[200..204]), ReadOffset(buf[204..208]), ReadOffset(buf[208..212]))
  }

  predicate BodyOffsetsInOrder(buf: seq<Byte>, o: BodyOffsets) {
    BODY_FIXED <= o.o3 <= o.o4 <= o.o5 <= |buf|
  }

  function BodyOffsetFailure(buf: seq<Byte>, o: BodyOffsets): (f: Option<SszError>)
    ensures f == None <==> BodyOffsetsInOrder(buf, o)
  {
    if o.o3 > |buf| then Some(ErrOffset)
    else if o.o3 < BODY_FIXED then Some(ErrInvalidVariableOffset)
    else if o.o4 > |buf| || o.o3 > o.o4 then Some(ErrOffset)
    else if o.o5 > |buf| || o.o4 > o.o5 then Some(ErrOffset)
    else None
  }

  /** The variable fields; `prior` is what the nested payload object held. */
  function DecodeBodyFields(prior: Payload, buf: seq<Byte>, o: BodyOffsets): Result<Body, SszError>
    requires BodyOffsetsInOrder(buf, o)
  {
    match DecodeFixedList(buf[o.o3..o.o4], DEPOSIT_SIZE, MAX_DEPOSITS)
    case Err(e) => Err(e)
    case Ok(deposits) =>
      match DecodePayload(prior, buf[o.o4..o.o5])
      case Err(e) => Err(e)
      case Ok(payload) =>
        match DecodeFixedList(buf[o.o5..], COMMITMENT_SIZE, MAX_COMMITMENTS)
        case Err(e) => Err(e)
        case Ok(commitments) => Ok(Body(buf[0..96], buf[96..168], buf[168..200], deposits, payload, commitments))
  }

  function DecodeBody(prior: Payload, buf: seq<Byte>): Result<Body, SszError> {
    if |buf| < BODY_FIXED then Err(ErrSize)
    else
      match BodyOffsetFailure(buf, ReadBodyOffsets(buf))
      case Some(e) => Err(e)
      case None => DecodeBodyFields(prior, buf, ReadBodyOffsets(buf))
  }

  // ------------------------------------------------------------ what a body's bytes mean

  /** The fixed fields, the three offsets, and the fields they point to. */
  ghost predicate BodyAt(w: seq<Byte>, b: Body, o3: nat, o4: nat, o5: nat) {
    && 212 <= |w|
    && b.randaoReveal == w[0..96] && b.eth1Data == w[96..168] && b.graffiti == w[168..200]
    && NumberAt(w, 200, 4, o3) && NumberAt(w, 204, 4, o4) && NumberAt(w, 208, 4, o5)
    && 212 <= o3 <= o4 <= o5 <= |w|
    && |b.deposits| <= 16 && ListReads(w[o3..o4], 192, b.deposits)
    && PayloadReads(w[o4..o5], b.payload)
    && |b.commitments| <= 16 && ListReads(w[o5..], 48, b.commitments)
  }

  ghost predicate BodyReads(w: seq<Byte>, b: Body) {
    exists o3, o4, o5 :: BodyAt(w, b, o3, o4, o5)
  }

  lemma {:induction false} BodyOffsetsRead(w: seq<Byte>, o3: nat, o4: nat, o5: nat)
    requires BODY_FIXED <= |w|
    ensures ReadBodyOffsets(w) == BodyOffsets(o3, o4, o5) <==>
            NumberAt(w, 200, 4, o3) && NumberAt(w, 204, 4, o4) && NumberAt(w, 208, 4, o5)
  {
    ReadsNumber(w, 200, 4, o3);
    ReadsNumber(w, 204, 4, o4);
    ReadsNumber(w, 208, 4, o5);
  }

  lemma {:induction false} BodyFieldsDecode(w: seq<Byte>, b: Body, o: BodyOffsets)
    requires BODY_FIXED <= |w| && o == ReadBodyOffsets(w)
    ensures BodyAt(w, b, o.o3, o.o4, o.o5) <==>
            BodyOffsetsInOrder(w, o) && DecodeBodyFields(FreshPayload(), w, o) == Ok(b)
  {
    BodyOffsetsRead(w, o.o3, o.o4, o.o5);
    if BodyOffsetsInOrder(w, o) {
      ListDecodes(w[o.o3..o.o4], 192, 16, b.deposits);
      PayloadDecodesExactly(w[o.o4..o.o5], b.payload);
      ListDecodes(w[o.o5..], 48, 16, b.commitments);
    }
  }

  /** The decoder accepts exactly the strings that say some body, and gives that body. */
  lemma {:induction false} BodyDecodesExactly(w: seq<Byte>, b: Body)
    ensures DecodeBody(FreshPayload(), w) == Ok(b) <==> BodyReads(w, b)
  {
    if BODY_FIXED <= |w| {
      var o := ReadBodyOffsets(w);
      BodyFieldsDecode(w, b, o);
      forall o3, o4, o5 | BodyAt(w, b, o3, o4, o5)
        ensures o == BodyOffsets(o3, o4, o5)
      {
        BodyOffsetsRead(w, o3, o4, o5);
      }
    }
  }

  lemma {:induction false} DecodeBodyIntoUsed(prior: Payload, w: seq<Byte>)
    ensures DecodeBody(prior, w) ==
      match DecodeBody(FreshPayload(), w)
      case Err(e) => Err(e)
      case Ok(b) => Ok(b.(payload := Appended(prior, b.payload)))
  {
    if BODY_FIXED <= |w| && BodyOffsetsInOrder(w, ReadBodyOffsets(w)) {
      DecodeIntoUsed(prior, w[ReadBodyOffsets(w).o4..ReadBodyOffsets(w).o5]);
    }
  }

  lemma {:induction false} DecodesWhatBodyReads(prior: Payload, w: seq<Byte>)
    ensures DecodeBody(prior, w).Ok? <==> exists b :: BodyReads(w, b)
    ensures forall b :: BodyReads(w, b) ==> DecodeBody(prior, w) == Ok(b.(payload := Appended(prior, b.payload)))
  {
    DecodeBodyIntoUsed(prior, w);
    forall b | BodyReads(w, b)
      ensures DecodeBody(FreshPayload(), w) == Ok(b)
    {
      BodyDecodesExactly(w, b);
    }
    if DecodeBody(FreshPayload(), w).Ok? {
      BodyDecodesExactly(w, DecodeBody(FreshPayload(), w).value);
    }
  }

  /** Which error refuses what: too short, or an offset out of order or past the end. */
  lemma {:induction false} BodyRefusals(prior: Payload, w: seq<Byte>, o3: nat, o4: nat, o5: nat)
    requires 212 <= |w| ==> NumberAt(w, 200, 4, o3) && NumberAt(w, 204, 4, o4) && NumberAt(w, 208, 4, o5)
    ensures |w| < 212 ==> DecodeBody(prior, w) == Err(ErrSize)
    ensures 212 <= |w| && |w| < o3 ==> DecodeBody(prior, w) == Err(ErrOffset)
    ensures 212 <= |w| && o3 < 212 ==> DecodeBody(prior, w) == Err(ErrInvalidVariableOffset)
    ensures 212 <= o3 <= |w| && (o4 < o3 || |w| < o4) ==> DecodeBody(prior, w) == Err(ErrOffset)
    ensures 212 <= o3 <= o4 <= |w| && (o5 < o4 || |w| < o5) ==> DecodeBody(prior, w) == Err(ErrOffset)
  {
    if 212 <= |w| {
      BodyOffsetsRead(w, o3, o4, o5);
    }
  }

  // ------------------------------------------------------------ encode, then decode

  lemma {:induction false} DecodeEncodedBody(b: Body)
    requires BodyWithinLimits(b) && BodyWellTyped(b) && CommitmentsStart(b) < U32_LIMIT
    ensures DecodeBody(FreshPayload(), EncodeBody(b)) == Ok(b)
  {
    var buf := EncodeBody(b);
    BodyEncodingLaidOut(b);
    OffsetRoundTrip(BODY_FIXED);
    OffsetRoundTrip(PayloadStart(b));
    OffsetRoundTrip(CommitmentsStart(b));
    FixedListRoundTrip(b.deposits, DEPOSIT_SIZE, MAX_DEPOSITS);
    FixedListRoundTrip(b.commitments, COMMITMENT_SIZE, MAX_COMMITMENTS);
    DecodeEncodedPayload(b.payload);
    assert ReadBodyOffsets(buf) == BodyOffsets(BODY_FIXED, PayloadStart(b), CommitmentsStart(b));
  }

  lemma {:induction false} WrappedBodyOffsetMisleads(b: Body)
    requires BodyWithinLimits(b) && BodyWellTyped(b) && U32_LIMIT <= CommitmentsStart(b)
    ensures DecodeBody(FreshPayload(), EncodeBody(b)) != Ok(b)
  {
    var buf := EncodeBody(b);
    BodyEncodingLaidOut(b);
    OffsetRoundTrip(CommitmentsStart(b));
    if DecodeBody(FreshPayload(), buf) == Ok(b) {
      FixedListCanonical(buf[ReadBodyOffsets(buf).o5..], COMMITMENT_SIZE, MAX_COMMITMENTS);
    }
  }

  /** Encode, then decode into a fresh object: the identity exactly when every offset fits 32 bits. */
  lemma {:induction false} BodyRoundTrip(b: Body)
    requires BodyWithinLimits(b) && BodyWellTyped(b)
    ensures DecodeBody(FreshPayload(), EncodeBody(b)) == Ok(b) <==> CommitmentsStart(b) < U32_LIMIT
  {
    if CommitmentsStart(b) < U32_LIMIT {
      DecodeEncodedBody(b);
    } else {
      WrappedBodyOffsetMisleads(b);
    }
  }

  function OversizedBody(): Body {
    Body(Zeros(96), Zeros(72), Zeros(32), [], OversizedPayload(), [])
  }

  /** A body within every limit that does not survive the round trip. */
  lemma {:induction false} OversizedBodyIsLost()
    ensures BodyWithinLimits(OversizedBody()) && BodyWellTyped(OversizedBody())
    ensures U32_LIMIT <= CommitmentsStart(OversizedBody())
    ensures DecodeBody(FreshPayload(), EncodeBody(OversizedBody())) != Ok(OversizedBody())
  {
    OversizedPayloadIsLost();
    BodyRoundTrip(OversizedBody());
  }

  /** The encoding says the body it is of, exactly when every offset fits 32 bits. */
  lemma {:induction false} EncodedBodyReads(b: Body)
    requires BodyWithinLimits(b) && BodyWellTyped(b)
    ensures BodyReads(EncodeBody(b), b) <==> CommitmentsStart(b) < U32_LIMIT
  {
    BodyRoundTrip(b);
    BodyDecodesExactly(EncodeBody(b), b);
  }

  // ------------------------------------------------------------ decode, then encode

  /** The first offset must follow the fixed part, and the nested payload must be canonical. */
  predicate CanonicalBody(buf: seq<Byte>) {
    && BODY_FIXED <= |buf|
    && var o := ReadBodyOffsets(buf);
       BodyOffsetsInOrder(buf, o) && o.o3 == BODY_FIXED && CanonicalPayload(buf[o.o4..o.o5])
  }

  lemma {:induction false} DecodedBodyWithinLimits(buf: seq<Byte>)
    requires DecodeBody(FreshPayload(), buf).Ok?
    ensures BodyWithinLimits(DecodeBody(FreshPayload(), buf).value)
    ensures BodyWellTyped(DecodeBody(FreshPayload(), buf).value)
  {
    var o := ReadBodyOffsets(buf);
    FixedListCanonical(buf[o.o3..o.o4], DEPOSIT_SIZE, MAX_DEPOSITS);
    FixedListCanonical(buf[o.o5..], COMMITMENT_SIZE, MAX_COMMITMENTS);
    DecodedPayloadWithinLimits(buf[o.o4..o.o5]);
  }

  lemma {:induction false} CanonicalBodyIsLaidOut(buf: seq<Byte>)
    requires DecodeBody(FreshPayload(), buf).Ok?
    ensures CanonicalBody(buf) ==> BodyLaidOut(DecodeBody(FreshPayload(), buf).value, buf)
  {
    var b, o := DecodeBody(FreshPayload(), buf).value, ReadBodyOffsets(buf);
    DecodedBodyWithinLimits(buf);
    OffsetCanonical(buf[200..204]);
    OffsetCanonical(buf[204..208]);
    OffsetCanonical(buf[208..212]);
    FixedListCanonical(buf[o.o3..o.o4], DEPOSIT_SIZE, MAX_DEPOSITS);
    FixedListCanonical(buf[o.o5..], COMMITMENT_SIZE, MAX_COMMITMENTS);
    ItemsOfJoin(b.deposits, DEPOSIT_SIZE);
    ItemsOfJoin(b.commitments, COMMITMENT_SIZE);
    PayloadCanonical(buf[o.o4..o.o5]);
    EncodingLaidOut(b.payload);
    assert CanonicalBody(buf) ==> PayloadStart(b) == o.o4 && CommitmentsStart(b) == o.o5;
  }

  /** The encoder's own output is canonical. */
  lemma {:induction false} EncodedBodyIsCanonical(b: Body)
    requires BodyWithinLimits(b) && BodyWellTyped(b) && CommitmentsStart(b) < U32_LIMIT
    ensures DecodeBody(FreshPayload(), EncodeBody(b)) == Ok(b) && CanonicalBody(EncodeBody(b))
  {
    DecodeEncodedBody(b);
    BodyEncodingLaidOut(b);
    OffsetRoundTrip(BODY_FIXED);
    OffsetRoundTrip(PayloadStart(b));
    OffsetRoundTrip(CommitmentsStart(b));
    PayloadCanonical(EncodeBody(b)[PayloadStart(b)..CommitmentsStart(b)]);
  }

  /** Decode, then encode: the identity exactly on canonical input. */
  lemma {:induction false} BodyCanonical(buf: seq<Byte>)
    requires DecodeBody(FreshPayload(), buf).Ok?
    ensures EncodeBody(DecodeBody(FreshPayload(), buf).value) == buf <==> CanonicalBody(buf)
  {
    var b := DecodeBody(FreshPayload(), buf).value;
    DecodedBodyWithinLimits(buf);
    if CanonicalBody(buf) {
      CanonicalBodyIsLaidOut(buf);
      BodyLaidOutUnique(b, buf);
    } else if EncodeBody(b) == buf {
      BodyRoundTrip(b);
      EncodedBodyIsCanonical(b);
    }
  }

  // ------------------------------------------------------------ the object

  class BeaconBlockBody {
    var randaoReveal: seq<Byte>
    var eth1Data: Option<seq<Byte>>
    var graffiti: seq<Byte>
    var deposits: seq<seq<Byte>>
    var executionPayload: ExecutableData?
    var commitments: seq<seq<Byte>>

    /** A nil Eth1Data or payload stands for its zero value. */
    function Value(): Body
      reads this, executionPayload
    {
      Body(randaoReveal, if eth1Data.None? then Zeros(72) else eth1Data.value, graffiti, deposits,
           if executionPayload == null then FreshPayload() else executionPayload.Value(), commitments)
    }

    constructor ()
      ensures Value() == Body(Zeros(96), Zeros(72), Zeros(32), [], FreshPayload(), [])
      ensures executionPayload == null
    {
      randaoReveal, eth1Data, graffiti, deposits := Zeros(96), None, Zeros(32), [];
      executionPayload, commitments := null, [];
    }

    method SizeSSZ() returns (size: nat)
      requires BodyWellTyped(Value())
      modifies this
      ensures Value() == old(Value())
      ensures |Value().payload.logsBloom| == LOGS_BLOOM_SIZE ==> size == |EncodeBody(Value())|
      ensures size == CommitmentsStart(Value()) + COMMITMENT_SIZE * |Value().commitments|
      ensures size == 212 + 192 * |Value().deposits| + PayloadSize(Value().payload) + 48 * |Value().commitments|
    {
      size := BODY_FIXED + |deposits| * 192;
      if executionPayload == null {
        executionPayload := new ExecutableData();
      }
      var payloadSize := executionPayload.SizeSSZ();
      size := size + payloadSize + |commitments| * 48;
      if |Value().payload.logsBloom| == LOGS_BLOOM_SIZE {
        BodyEncodingLaidOut(Value());
      }
    }

    /** The fixed part, with the running offset; a nil payload is replaced by an empty one. */
    method MarshalFixed(buf: seq<Byte>) returns (dst: seq<Byte>)
      requires BodyWellTyped(Value())
      modifies this
      ensures Value() == old(Value()) && executionPayload != null
      ensures dst == buf + BodyFixedOf(Value())
    {
      var offset := BODY_FIXED;
      if eth1Data == None {
        eth1Data := Some(Zeros(72));
      }
      var o3 := OffsetBytes(offset);
      offset := offset + |deposits| * 192;
      var o4 := OffsetBytes(offset);
      if executionPayload == null {
        executionPayload := new ExecutableData();
      }
      var payloadSize := executionPayload.SizeSSZ();
      offset := offset + payloadSize;
      dst := MarshalFixedList(buf, [randaoReveal, eth1Data.value, graffiti, o3, o4, OffsetBytes(offset)]);
    }

    /** Marshalling appends exactly the encoding to any prefix, or names the first violated limit. */
    method MarshalSSZTo(buf: seq<Byte>) returns (dst: seq<Byte>, failure: Option<SszError>)
      requires BodyWellTyped(Value())
      modifies this
      ensures Value() == old(Value())
      ensures failure == BodyFailure(Value())
      ensures failure.None? ==> dst == buf + EncodeBody(Value())
      ensures failure.None? && 212 + 192 * |Value().deposits| + PayloadSize(Value().payload) < 0x1_0000_0000 ==>
        |buf| <= |dst| && BodyReads(dst[|buf|..], Value())
    {
      dst, failure := MarshalFields(buf);
      if failure.None? {
        EncodedBodyReads(Value());
        assert dst[|buf|..] == EncodeBody(Value());
      }
    }

    /** The fixed part and then each variable field. */
    method MarshalFields(buf: seq<Byte>) returns (dst: seq<Byte>, failure: Option<SszError>)
      requires BodyWellTyped(Value())
      modifies this
      ensures Value() == old(Value())
      ensures failure == BodyFailure(Value())
      ensures failure.None? ==> dst == buf + EncodeBody(Value())
    {
      dst := MarshalFixed(buf);
      if |deposits| > MAX_DEPOSITS {
        return dst, Some(ErrListTooBig);
      }
      dst := MarshalFixedList(dst, deposits);
      dst, failure := executionPayload.MarshalSSZTo(dst);
      if failure.Some? {
        return;
      }
      if |commitments| > MAX_COMMITMENTS {
        return dst, Some(ErrListTooBig);
      }
      dst := MarshalFixedList(dst, commitments);
      ghost var b := Value();
      AppendFour(buf, BodyFixedOf(b), Join(b.deposits), EncodePayload(b.payload), Join(b.commitments));
      return dst, None;
    }

    method UnmarshalFields(buf: seq<Byte>, o: BodyOffsets) returns (failure: Option<SszError>)
      requires BodyOffsetsInOrder(buf, o)
      modifies this, executionPayload
      ensures match DecodeBodyFields(old(Value().payload), buf, o)
        case Ok(b) => failure == None && Value() == b
        case Err(e) => failure == Some(e)
    {
      randaoReveal := buf[0..96];
      eth1Data := Some(buf[96..168]);
      graffiti := buf[168..200];
      var ds := UnmarshalFixedList(buf[o.o3..o.o4], DEPOSIT_SIZE, MAX_DEPOSITS);
      if ds.Err? {
        return Some(ds.error);
      }
      deposits := ds.value;
      if executionPayload == null {
        executionPayload := new ExecutableData();
      }
      failure := executionPayload.UnmarshalSSZ(buf[o.o4..o.o5]);
      if failure.Some? {
        return;
      }
      var cs := UnmarshalFixedList(buf[o.o5..], COMMITMENT_SIZE, MAX_COMMITMENTS);
      if cs.Err? {
        return Some(cs.error);
      }
      commitments := cs.value;
    }

/** Succeeds exactly on bytes that say some body (DecodesWhatBodyReads). */
        method UnmarshalSSZ(buf: seq<Byte>) returns (failure: Option<SszError>)
      modifies this, executionPayload
      ensures match DecodeBody(old(Value().payload), buf)
        case Ok(b) => failure == None && Value() == b
        case Err(e) => failure == Some(e)
    {
      if |buf| < BODY_FIXED {
        return Some(ErrSize);
      }
      failure := BodyOffsetFailure(buf, ReadBodyOffsets(buf));
      if failure.Some? {
        return;
      }
      failure := UnmarshalFields(buf, ReadBodyOffsets(buf));
    }
  }
}
