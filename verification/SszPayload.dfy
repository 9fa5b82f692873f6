/** The execution payload codec (mod/consensus-types/pkg/types/payload.ssz.go). */
module SszPayload {
  import opened Bytes
  import opened Ssz
  import opened SszTransactions

  const FIXED_SIZE: nat := 528
  const LOGS_BLOOM_SIZE: nat := 256
  const MAX_EXTRA_DATA: nat := 32
  const MAX_WITHDRAWALS: nat := 16
  const WITHDRAWAL_SIZE: nat := 44

  datatype Payload = Payload(
    parentHash: seq<Byte>, feeRecipient: seq<Byte>, stateRoot: seq<Byte>, receiptsRoot: seq<Byte>,
    logsBloom: seq<Byte>, random: seq<Byte>,
    number: U64, gasLimit: U64, gasUsed: U64, timestamp: U64,
    extraData: seq<Byte>, baseFeePerGas: seq<Byte>, blockHash: seq<Byte>,
    transactions: seq<seq<Byte>>, withdrawals: seq<seq<Byte>>,
    blobGasUsed: U64, excessBlobGas: U64)

  /** The widths that Go's array types and the fixed-size withdrawal record guarantee. */
  ghost predicate WellTyped(p: Payload) {
    && |p.parentHash| == 32 && |p.feeRecipient| == 20 && |p.stateRoot| == 32 && |p.receiptsRoot| == 32
    && |p.random| == 32 && |p.baseFeePerGas| == 32 && |p.blockHash| == 32
    && AllOfWidth(p.withdrawals, WITHDRAWAL_SIZE)
  }

  /** new(ExecutableDataDeneb) */
  function FreshPayload(): Payload {
    Payload(Zeros(32), Zeros(20), Zeros(32), Zeros(32), [], Zeros(32), 0, 0, 0, 0, [], Zeros(32), Zeros(32), [], [], 0, 0)
  }

  ghost predicate PayloadWithinLimits(p: Payload) {
    && |p.logsBloom| == LOGS_BLOOM_SIZE
    && |p.extraData| <= MAX_EXTRA_DATA
    && TransactionsWithinLimits(p.transactions)
    && |p.withdrawals| <= MAX_WITHDRAWALS
  }

  /** The first limit that marshalling finds violated. */
  ghost function PayloadFailure(p: Payload): (f: Option<SszError>)
    ensures f == None <==> PayloadWithinLimits(p)
    ensures f == None <==>
      && |p.logsBloom| == 256 && |p.extraData| <= 32 && |p.transactions| <= 1048576 && |p.withdrawals| <= 16
      && forall i :: 0 <= i < |p.transactions| ==> |p.transactions[i]| <= 1073741824
    ensures |p.logsBloom| != 256 || |p.extraData| > 32 ==> f == Some(ErrBytesLength)
    ensures |p.logsBloom| == 256 && |p.extraData| <= 32 && |p.transactions| > 1048576 ==> f == Some(ErrListTooBig)
  {
    if |p.logsBloom| != LOGS_BLOOM_SIZE then Some(ErrBytesLength)
    else if |p.extraData| > MAX_EXTRA_DATA then Some(ErrBytesLength)
    else match TransactionsFailure(p.transactions)
         case Some(e) => Some(e)
         case None => if |p.withdrawals| > MAX_WITHDRAWALS then Some(ErrListTooBig) else None
  }

  // ------------------------------------------------------------ the fixed part

  function HeadParts(p: Payload): seq<seq<Byte>> {
    [p.parentHash, p.feeRecipient, p.stateRoot, p.receiptsRoot, p.logsBloom, p.random]
  }

  function IntegerParts(p: Payload, o10: nat): seq<seq<Byte>> {
    [Uint64Bytes(p.number), Uint64Bytes(p.gasLimit), Uint64Bytes(p.gasUsed), Uint64Bytes(p.timestamp), OffsetBytes(o10)]
  }

  function TailParts(p: Payload, o13: nat, o14: nat): seq<seq<Byte>> {
    [p.baseFeePerGas, p.blockHash, OffsetBytes(o13), OffsetBytes(o14),
     Uint64Bytes(p.blobGasUsed), Uint64Bytes(p.excessBlobGas)]
  }

  const HEAD_STARTS: seq<nat> := [0, 32, 52, 84, 116, 372, 404]
  const INTEGER_STARTS: seq<nat> := [0, 8, 16, 24, 32, 36]
  const TAIL_STARTS: seq<nat> := [0, 32, 64, 68, 72, 80, 88]

  /** The fixed part is three runs of fields, 404, 36 and 88 bytes long. */
  ghost predicate HeadAt(p: Payload, b: seq<Byte>)
    requires |b| == 404
  {
    && b[0..32] == p.parentHash && b[32..52] == p.feeRecipient && b[52..84] == p.stateRoot
    && b[84..116] == p.receiptsRoot && b[116..372] == p.logsBloom && b[372..404] == p.random
  }

  ghost predicate IntegersAt(p: Payload, b: seq<Byte>, o10: nat)
    requires |b| == 36
  {
    && b[0..8] == Uint64Bytes(p.number) && b[8..16] == Uint64Bytes(p.gasLimit)
    && b[16..24] == Uint64Bytes(p.gasUsed) && b[24..32] == Uint64Bytes(p.timestamp) && b[32..36] == OffsetBytes(o10)
  }

  ghost predicate TailAt(p: Payload, b: seq<Byte>, o13: nat, o14: nat)
    requires |b| == 88
  {
    && b[0..32] == p.baseFeePerGas && b[32..64] == p.blockHash
    && b[64..68] == OffsetBytes(o13) && b[68..72] == OffsetBytes(o14)
    && b[72..80] == Uint64Bytes(p.blobGasUsed) && b[80..88] == Uint64Bytes(p.excessBlobGas)
  }

  lemma {:induction false} HeadLayout(p: Payload)
    requires WellTyped(p) && |p.logsBloom| == LOGS_BLOOM_SIZE
    ensures |Join(HeadParts(p))| == 404 && HeadAt(p, Join(HeadParts(p)))
  {
    assert HasLayout(HeadParts(p), HEAD_STARTS);
    var parts := HeadParts(p);
    LayoutSlices(parts, HEAD_STARTS);
    assert FoundIn(parts, HEAD_STARTS, Join(parts), 0);
    assert FoundIn(parts, HEAD_STARTS, Join(parts), 1);
    assert FoundIn(parts, HEAD_STARTS, Join(parts), 2);
    assert FoundIn(parts, HEAD_STARTS, Join(parts), 3);
    assert FoundIn(parts, HEAD_STARTS, Join(parts), 4);
    assert FoundIn(parts, HEAD_STARTS, Join(parts), 5);
  }

  lemma {:induction false} HeadUnique(p: Payload, b: seq<Byte>)
    requires |b| == 404 && WellTyped(p) && |p.logsBloom| == LOGS_BLOOM_SIZE && HeadAt(p, b)
    ensures Join(HeadParts(p)) == b
  {
    assert HasLayout(HeadParts(p), HEAD_STARTS);
    LayoutCovers(HeadParts(p), HEAD_STARTS, b);
  }

  lemma {:induction false} IntegersLayout(p: Payload, o10: nat)
    ensures |Join(IntegerParts(p, o10))| == 36 && IntegersAt(p, Join(IntegerParts(p, o10)), o10)
  {
    assert HasLayout(IntegerParts(p, o10), INTEGER_STARTS);
    var parts := IntegerParts(p, o10);
    LayoutSlices(parts, INTEGER_STARTS);
    assert FoundIn(parts, INTEGER_STARTS, Join(parts), 0);
    assert FoundIn(parts, INTEGER_STARTS, Join(parts), 1);
    assert FoundIn(parts, INTEGER_STARTS, Join(parts), 2);
    assert FoundIn(parts, INTEGER_STARTS, Join(parts), 3);
    assert FoundIn(parts, INTEGER_STARTS, Join(parts), 4);
  }

  lemma {:induction false} IntegersUnique(p: Payload, b: seq<Byte>, o10: nat)
    requires |b| == 36 && IntegersAt(p, b, o10)
    ensures Join(IntegerParts(p, o10)) == b
  {
    assert HasLayout(IntegerParts(p, o10), INTEGER_STARTS);
    LayoutCovers(IntegerParts(p, o10), INTEGER_STARTS, b);
  }

  lemma {:induction false} TailLayout(p: Payload, o13: nat, o14: nat)
    requires WellTyped(p)
    ensures |Join(TailParts(p, o13, o14))| == 88 && TailAt(p, Join(TailParts(p, o13, o14)), o13, o14)
  {
    assert HasLayout(TailParts(p, o13, o14), TAIL_STARTS);
    var parts := TailParts(p, o13, o14);
    LayoutSlices(parts, TAIL_STARTS);
    assert FoundIn(parts, TAIL_STARTS, Join(parts), 0);
    assert FoundIn(parts, TAIL_STARTS, Join(parts), 1);
    assert FoundIn(parts, TAIL_STARTS, Join(parts), 2);
    assert FoundIn(parts, TAIL_STARTS, Join(parts), 3);
    assert FoundIn(parts, TAIL_STARTS, Join(parts), 4);
    assert FoundIn(parts, TAIL_STARTS, Join(parts), 5);
  }

  lemma {:induction false} TailUnique(p: Payload, b: seq<Byte>, o13: nat, o14: nat)
    requires |b| == 88 && WellTyped(p) && TailAt(p, b, o13, o14)
    ensures Join(TailParts(p, o13, o14)) == b
  {
    assert HasLayout(TailParts(p, o13, o14), TAIL_STARTS);
    LayoutCovers(TailParts(p, o13, o14), TAIL_STARTS, b);
  }

  /** The three runs one after the other. */
  function EncodeFixed(p: Payload, o10: nat, o13: nat, o14: nat): seq<Byte> {
    Join(HeadParts(p)) + Join(IntegerParts(p, o10)) + Join(TailParts(p, o13, o14))
  }

  /** `b` is the fixed part of `p` with these three offsets. */
  ghost predicate FixedAt(p: Payload, b: seq<Byte>, o10: nat, o13: nat, o14: nat)
    requires |b| == FIXED_SIZE
  {
    HeadAt(p, b[..404]) && IntegersAt(p, b[404..440], o10) && TailAt(p, b[440..], o13, o14)
  }

  /** Exactly one byte string is the fixed part of a payload. */
  lemma {:induction false} FixedPartExact(p: Payload, o10: nat, o13: nat, o14: nat)
    requires WellTyped(p) && |p.logsBloom| == LOGS_BLOOM_SIZE
    ensures var f := EncodeFixed(p, o10, o13, o14); |f| == FIXED_SIZE && FixedAt(p, f, o10, o13, o14)
  {
    HeadLayout(p);
    IntegersLayout(p, o10);
    TailLayout(p, o13, o14);
    var f := EncodeFixed(p, o10, o13, o14);
    assert f[..404] == Join(HeadParts(p));
    assert f[404..440] == Join(IntegerParts(p, o10));
    assert f[440..] == Join(TailParts(p, o13, o14));
  }

  lemma {:induction false} FixedPartUnique(p: Payload, b: seq<Byte>, o10: nat, o13: nat, o14: nat)
    requires WellTyped(p) && |p.logsBloom| == LOGS_BLOOM_SIZE
    requires |b| == FIXED_SIZE && FixedAt(p, b, o10, o13, o14)
    ensures EncodeFixed(p, o10, o13, o14) == b
  {
    HeadUnique(p, b[..404]);
    IntegersUnique(p, b[404..440], o10);
    TailUnique(p, b[440..], o13, o14);
    assert b == b[..404] + b[404..440] + b[440..];
  }

  // ------------------------------------------------------------ encoding

  function TransactionsStart(p: Payload): nat {
    FIXED_SIZE + |p.extraData|
  }

  function WithdrawalsStart(p: Payload): nat {
    TransactionsStart(p) + TxOffset(p.transactions, |p.transactions|)
  }

  function FixedOf(p: Payload): seq<Byte> {
    EncodeFixed(p, FIXED_SIZE, TransactionsStart(p), WithdrawalsStart(p))
  }

  function EncodePayload(p: Payload): seq<Byte> {
    FixedOf(p) + p.extraData + EncodeTransactions(p.transactions) + Join(p.withdrawals)
  }

  /** Every written offset is where its field starts, and the length is what the size says. */
  ghost predicate LaidOut(p: Payload, buf: seq<Byte>) {
    && FIXED_SIZE <= TransactionsStart(p) <= WithdrawalsStart(p) <= |buf|
    && |buf| == WithdrawalsStart(p) + WITHDRAWAL_SIZE * |p.withdrawals|
    && FixedAt(p, buf[..FIXED_SIZE], FIXED_SIZE, TransactionsStart(p), WithdrawalsStart(p))
    && buf[FIXED_SIZE..TransactionsStart(p)] == p.extraData
    && buf[TransactionsStart(p)..WithdrawalsStart(p)] == EncodeTransactions(p.transactions)
    && buf[WithdrawalsStart(p)..] == Join(p.withdrawals)
  }

  /** The encoding is laid out as its offsets say, and nothing else is. */
  lemma {:induction false} EncodingLaidOut(p: Payload)
    requires WellTyped(p) && |p.logsBloom| == LOGS_BLOOM_SIZE
    ensures LaidOut(p, EncodePayload(p))
  {
    FixedPartExact(p, FIXED_SIZE, TransactionsStart(p), WithdrawalsStart(p));
    SectionLength(p.transactions);
    ItemsOfJoin(p.withdrawals, WITHDRAWAL_SIZE);
    Concatenation(FixedOf(p), p.extraData, EncodeTransactions(p.transactions), Join(p.withdrawals));
  }

  lemma {:induction false} Concatenation(a: seq<Byte>, b: seq<Byte>, c: seq<Byte>, d: seq<Byte>)
    ensures var s := a + b + c + d;
      && s[..|a|] == a && s[|a|..|a| + |b|] == b
      && s[|a| + |b|..|a| + |b| + |c|] == c && s[|a| + |b| + |c|..] == d
  {
  }

  lemma {:induction false} LaidOutUnique(p: Payload, buf: seq<Byte>)
    requires WellTyped(p) && |p.logsBloom| == LOGS_BLOOM_SIZE && LaidOut(p, buf)
    ensures EncodePayload(p) == buf
  {
    var o13, o14 := TransactionsStart(p), WithdrawalsStart(p);
    FixedPartUnique(p, buf[..FIXED_SIZE], FIXED_SIZE, o13, o14);
    SplitFour(buf, FIXED_SIZE, o13, o14);
  }

  // ------------------------------------------------------------ decoding

  datatype Offsets = Offsets(o10: nat, o13: nat, o14: nat)

  datatype Variable = Variable(extraData: seq<Byte>, transactions: seq<seq<Byte>>, withdrawals: seq<seq<Byte>>)

  predicate OffsetsInOrder(buf: seq<Byte>, o: Offsets) {
    FIXED_SIZE <= o.o10 <= o.o13 <= o.o14 <= |buf|
  }

  function ReadOffsets(buf: seq<Byte>): Offsets
    requires FIXED_SIZE <= |buf|
  {
    Offsets(ReadOffset(buf[436..440]), ReadOffset(buf[504..508]), ReadOffset(buf[508..512]))
  }

  /** The offsets of the variable fields must lie inside the buffer, past the fixed part, in order. */
  function OffsetFailure(buf: seq<Byte>, o: Offsets): (f: Option<SszError>)
    ensures f == None <==> OffsetsInOrder(buf, o)
  {
    if o.o10 > |buf| then Some(ErrOffset)
    else if o.o10 < FIXED_SIZE then Some(ErrInvalidVariableOffset)
    else if o.o13 > |buf| || o.o10 > o.o13 then Some(ErrOffset)
    else if o.o14 > |buf| || o.o13 > o.o14 then Some(ErrOffset)
    else None
  }

  /** The variable fields, once the three offsets have been checked. */
  function DecodeVariable(buf: seq<Byte>, o: Offsets): Result<Variable, SszError>
    requires OffsetsInOrder(buf, o)
  {
    if o.o13 - o.o10 > MAX_EXTRA_DATA then Err(ErrBytesLength)
    else
      match DecodeTransactions(buf[o.o13..o.o14])
      case Err(e) => Err(e)
      case Ok(txs) =>
        match DecodeFixedList(buf[o.o14..], WITHDRAWAL_SIZE, MAX_WITHDRAWALS)
        case Err(e) => Err(e)
        case Ok(ws) => Ok(Variable(buf[o.o10..o.o13], txs, ws))
  }

  /** All fields, given the decoded variable ones; LogsBloom and ExtraData are appended to. */
  function Assemble(prior: Payload, buf: seq<Byte>, v: Variable): Payload
    requires FIXED_SIZE <= |buf|
  {
    Payload(buf[0..32], buf[32..52], buf[52..84], buf[84..116], prior.logsBloom + buf[116..372],
            buf[372..404], ReadUint64(buf[404..412]), ReadUint64(buf[412..420]),
            ReadUint64(buf[420..428]), ReadUint64(buf[428..436]),
            prior.extraData + v.extraData, buf[440..472], buf[472..504], v.transactions, v.withdrawals,
            ReadUint64(buf[512..520]), ReadUint64(buf[520..528]))
  }

  /** UnmarshalSSZ into an object holding `prior`. */
  function DecodePayload(prior: Payload, buf: seq<Byte>): Result<Payload, SszError> {
    if |buf| < FIXED_SIZE then Err(ErrSize)
    else
      match OffsetFailure(buf, ReadOffsets(buf))
      case Some(e) => Err(e)
      case None =>
        match DecodeVariable(buf, ReadOffsets(buf))
        case Err(e) => Err(e)
        case Ok(v) => Ok(Assemble(prior, buf, v))
  }

  // ------------------------------------------------------------ what a payload's bytes mean

  /** Each byte field of the fixed part at its place. */
  ghost predicate BytesRead(w: seq<Byte>, p: Payload)
    requires 528 <= |w|
  {
    && p.parentHash == w[0..32] && p.feeRecipient == w[32..52] && p.stateRoot == w[52..84]
    && p.receiptsRoot == w[84..116] && p.logsBloom == w[116..372] && p.random == w[372..404]
    && p.baseFeePerGas == w[440..472] && p.blockHash == w[472..504]
  }

  /** Each number of the fixed part at its place, least significant byte first. */
  ghost predicate NumbersRead(w: seq<Byte>, p: Payload) {
    && NumberAt(w, 404, 8, p.number) && NumberAt(w, 412, 8, p.gasLimit)
    && NumberAt(w, 420, 8, p.gasUsed) && NumberAt(w, 428, 8, p.timestamp)
    && NumberAt(w, 512, 8, p.blobGasUsed) && NumberAt(w, 520, 8, p.excessBlobGas)
  }

  ghost predicate FixedReads(w: seq<Byte>, p: Payload) {
    528 <= |w| && BytesRead(w, p) && NumbersRead(w, p)
  }

  /** The three offsets, and the variable fields they point to. */
  ghost predicate VariableReads(w: seq<Byte>, p: Payload, o10: nat, o13: nat, o14: nat) {
    && NumberAt(w, 436, 4, o10) && NumberAt(w, 504, 4, o13) && NumberAt(w, 508, 4, o14)
    && 528 <= o10 <= o13 <= o14 <= |w| && o13 - o10 <= 32
    && p.extraData == w[o10..o13]
    && SectionReads(w[o13..o14], p.transactions)
    && |p.withdrawals| <= 16 && ListReads(w[o14..], 44, p.withdrawals)
  }

  /** What a string of bytes says as a payload, without a decoder. */
  ghost predicate PayloadReads(w: seq<Byte>, p: Payload) {
    FixedReads(w, p) && exists o10, o13, o14 :: VariableReads(w, p, o10, o13, o14)
  }

  lemma {:induction false} ReadsUint64(w: seq<Byte>, at: nat, n: U64)
    requires at + 8 <= |w|
    ensures ReadUint64(w[at..at + 8]) == n <==> NumberAt(w, at, 8, n)
  {
    ReadsNumber(w, at, 8, n);
  }

  lemma {:induction false} NumbersDecode(w: seq<Byte>, p: Payload)
    requires FIXED_SIZE <= |w|
    ensures NumbersRead(w, p) <==>
      && ReadUint64(w[404..412]) == p.number && ReadUint64(w[412..420]) == p.gasLimit
      && ReadUint64(w[420..428]) == p.gasUsed && ReadUint64(w[428..436]) == p.timestamp
      && ReadUint64(w[512..520]) == p.blobGasUsed && ReadUint64(w[520..528]) == p.excessBlobGas
  {
    ReadsUint64(w, 404, p.number);
    ReadsUint64(w, 412, p.gasLimit);
    ReadsUint64(w, 420, p.gasUsed);
    ReadsUint64(w, 428, p.timestamp);
    ReadsUint64(w, 512, p.blobGasUsed);
    ReadsUint64(w, 520, p.excessBlobGas);
  }

  lemma {:induction false} FixedDecodes(w: seq<Byte>, p: Payload, v: Variable)
    requires FIXED_SIZE <= |w|
    ensures Assemble(FreshPayload(), w, v) == p <==>
            FixedReads(w, p) && v == Variable(p.extraData, p.transactions, p.withdrawals)
  {
    var q := Assemble(FreshPayload(), w, v);
    assert q.logsBloom == w[116..372] && q.extraData == v.extraData;
    NumbersDecode(w, p);
    if FixedReads(w, p) && v == Variable(p.extraData, p.transactions, p.withdrawals) {
      assert q == p;
    }
  }

  lemma {:induction false} OffsetsRead(w: seq<Byte>, o10: nat, o13: nat, o14: nat)
    requires FIXED_SIZE <= |w|
    ensures ReadOffsets(w) == Offsets(o10, o13, o14) <==>
            NumberAt(w, 436, 4, o10) && NumberAt(w, 504, 4, o13) && NumberAt(w, 508, 4, o14)
  {
    ReadsNumber(w, 436, 4, o10);
    ReadsNumber(w, 504, 4, o13);
    ReadsNumber(w, 508, 4, o14);
  }

  lemma {:induction false} VariableDecodes(w: seq<Byte>, p: Payload, o: Offsets)
    requires FIXED_SIZE <= |w| && o == ReadOffsets(w)
    ensures VariableReads(w, p, o.o10, o.o13, o.o14) <==>
            OffsetsInOrder(w, o) && DecodeVariable(w, o) == Ok(Variable(p.extraData, p.transactions, p.withdrawals))
  {
    OffsetsRead(w, o.o10, o.o13, o.o14);
    if OffsetsInOrder(w, o) {
      TransactionsDecodeExactly(w[o.o13..o.o14], p.transactions);
      ListDecodes(w[o.o14..], 44, 16, p.withdrawals);
    }
  }

  /** The decoder accepts exactly the strings that say some payload, and gives that payload. */
  lemma {:induction false} PayloadDecodesExactly(w: seq<Byte>, p: Payload)
    ensures DecodePayload(FreshPayload(), w) == Ok(p) <==> PayloadReads(w, p)
  {
    if FIXED_SIZE <= |w| {
      var o := ReadOffsets(w);
      VariableDecodes(w, p, o);
      FixedDecodes(w, p, Variable(p.extraData, p.transactions, p.withdrawals));
      if OffsetsInOrder(w, o) && DecodeVariable(w, o).Ok? {
        FixedDecodes(w, p, DecodeVariable(w, o).value);
      }
      forall o10, o13, o14 | VariableReads(w, p, o10, o13, o14)
        ensures o == Offsets(o10, o13, o14)
      {
        OffsetsRead(w, o10, o13, o14);
      }
    }
  }

  /** What an object holding `prior` holds once `p` has been decoded into it. */
  function Appended(prior: Payload, p: Payload): Payload {
    p.(logsBloom := prior.logsBloom + p.logsBloom, extraData := prior.extraData + p.extraData)
  }

  /** Decoding into an object appends to its bloom and its extra data, and is otherwise as for a fresh one. */
  lemma {:induction false} DecodeIntoUsed(prior: Payload, w: seq<Byte>)
    ensures DecodePayload(prior, w) ==
      match DecodePayload(FreshPayload(), w)
      case Err(e) => Err(e)
      case Ok(p) => Ok(Appended(prior, p))
  {
    if FIXED_SIZE <= |w| {
      assert [] + w[116..372] == w[116..372];
      var o := ReadOffsets(w);
      if OffsetsInOrder(w, o) && DecodeVariable(w, o).Ok? {
        var v := DecodeVariable(w, o).value;
        assert [] + v.extraData == v.extraData;
      }
    }
  }

  lemma {:induction false} DecodesWhatReads(prior: Payload, w: seq<Byte>)
    ensures DecodePayload(prior, w).Ok? <==> exists p :: PayloadReads(w, p)
    ensures forall p :: PayloadReads(w, p) ==> DecodePayload(prior, w) == Ok(Appended(prior, p))
  {
    DecodeIntoUsed(prior, w);
    forall p
      ensures DecodePayload(FreshPayload(), w) == Ok(p) <==> PayloadReads(w, p)
    {
      PayloadDecodesExactly(w, p);
    }
    if DecodePayload(prior, w).Ok? {
      assert PayloadReads(w, DecodePayload(FreshPayload(), w).value);
    }
  }

  /** Which error refuses what: too short, an offset out of order or past the end, or too much extra data. */
  lemma {:induction false} PayloadRefusals(prior: Payload, w: seq<Byte>, o10: nat, o13: nat, o14: nat)
    requires 528 <= |w| ==> NumberAt(w, 436, 4, o10) && NumberAt(w, 504, 4, o13) && NumberAt(w, 508, 4, o14)
    ensures |w| < 528 ==> DecodePayload(prior, w) == Err(ErrSize)
    ensures 528 <= |w| && |w| < o10 ==> DecodePayload(prior, w) == Err(ErrOffset)
    ensures 528 <= |w| && o10 < 528 ==> DecodePayload(prior, w) == Err(ErrInvalidVariableOffset)
    ensures 528 <= o10 <= |w| && (o13 < o10 || |w| < o13) ==> DecodePayload(prior, w) == Err(ErrOffset)
    ensures 528 <= o10 <= o13 <= |w| && (o14 < o13 || |w| < o14) ==> DecodePayload(prior, w) == Err(ErrOffset)
    ensures 528 <= o10 <= o13 <= o14 <= |w| && 32 < o13 - o10 ==> DecodePayload(prior, w) == Err(ErrBytesLength)
  {
    if 528 <= |w| {
      OffsetsRead(w, o10, o13, o14);
    }
  }

  // ------------------------------------------------------------ encode, then decode

  /** Reading the fixed part back gives the payload it was written from. */
  lemma {:induction false} AssembleFromFixed(p: Payload, buf: seq<Byte>, v: Variable, o10: nat, o13: nat, o14: nat)
    requires FIXED_SIZE <= |buf| && FixedAt(p, buf[..FIXED_SIZE], o10, o13, o14)
    ensures Assemble(FreshPayload(), buf, v)
         == p.(extraData := v.extraData, transactions := v.transactions, withdrawals := v.withdrawals)
    ensures buf[436..440] == OffsetBytes(o10) && buf[504..508] == OffsetBytes(o13) && buf[508..512] == OffsetBytes(o14)
  {
    AbsoluteSlices(p, buf, o10, o13, o14);
    Uint64RoundTrip(p.number);
    Uint64RoundTrip(p.gasLimit);
    Uint64RoundTrip(p.gasUsed);
    Uint64RoundTrip(p.timestamp);
    Uint64RoundTrip(p.blobGasUsed);
    Uint64RoundTrip(p.excessBlobGas);
    assert [] + buf[116..372] == buf[116..372];
    assert [] + v.extraData == v.extraData;
  }

  /** The slices UnmarshalSSZ takes are the slots of the three runs. */
  ghost predicate SlotsAt(p: Payload, buf: seq<Byte>, o10: nat, o13: nat, o14: nat)
    requires FIXED_SIZE <= |buf|
  {
    HeadSlots(p, buf) && IntegerSlots(p, buf, o10) && TailSlots(p, buf, o13, o14)
  }

  ghost predicate HeadSlots(p: Payload, buf: seq<Byte>)
    requires FIXED_SIZE <= |buf|
  {
    && buf[0..32] == p.parentHash && buf[32..52] == p.feeRecipient && buf[52..84] == p.stateRoot
    && buf[84..116] == p.receiptsRoot && buf[116..372] == p.logsBloom && buf[372..404] == p.random
  }

  ghost predicate IntegerSlots(p: Payload, buf: seq<Byte>, o10: nat)
    requires FIXED_SIZE <= |buf|
  {
    && buf[404..412] == Uint64Bytes(p.number) && buf[412..420] == Uint64Bytes(p.gasLimit)
    && buf[420..428] == Uint64Bytes(p.gasUsed) && buf[428..436] == Uint64Bytes(p.timestamp)
    && buf[436..440] == OffsetBytes(o10)
  }

  ghost predicate TailSlots(p: Payload, buf: seq<Byte>, o13: nat, o14: nat)
    requires FIXED_SIZE <= |buf|
  {
    && buf[440..472] == p.baseFeePerGas && buf[472..504] == p.blockHash
    && buf[504..508] == OffsetBytes(o13) && buf[508..512] == OffsetBytes(o14)
    && buf[512..520] == Uint64Bytes(p.blobGasUsed) && buf[520..528] == Uint64Bytes(p.excessBlobGas)
  }

  lemma {:induction false} SliceOfSlice(b: seq<Byte>, from: nat, to: nat, x: nat, y: nat)
    requires from <= to <= |b| && x <= y <= to - from
    ensures b[from..to][x..y] == b[from + x..from + y]
  {
    assert |b[from..to][x..y]| == |b[from + x..from + y]|;
    forall i | 0 <= i < y - x
      ensures b[from..to][x..y][i] == b[from + x..from + y][i]
    {
    }
  }

  lemma {:induction false} HeadSlices(p: Payload, buf: seq<Byte>)
    requires FIXED_SIZE <= |buf|
    ensures HeadAt(p, buf[0..404]) <==> HeadSlots(p, buf)
  {
    SliceOfSlice(buf, 0, 404, 0, 32);
    SliceOfSlice(buf, 0, 404, 32, 52);
    SliceOfSlice(buf, 0, 404, 52, 84);
    SliceOfSlice(buf, 0, 404, 84, 116);
    SliceOfSlice(buf, 0, 404, 116, 372);
    SliceOfSlice(buf, 0, 404, 372, 404);
  }

  lemma {:induction false} IntegerSlices(p: Payload, buf: seq<Byte>, o10: nat)
    requires FIXED_SIZE <= |buf|
    ensures IntegersAt(p, buf[404..440], o10) <==> IntegerSlots(p, buf, o10)
  {
    SliceOfSlice(buf, 404, 440, 0, 8);
    SliceOfSlice(buf, 404, 440, 8, 16);
    SliceOfSlice(buf, 404, 440, 16, 24);
    SliceOfSlice(buf, 404, 440, 24, 32);
    SliceOfSlice(buf, 404, 440, 32, 36);
  }

  lemma {:induction false} TailSlices(p: Payload, buf: seq<Byte>, o13: nat, o14: nat)
    requires FIXED_SIZE <= |buf|
    ensures TailAt(p, buf[440..528], o13, o14) <==> TailSlots(p, buf, o13, o14)
  {
    SliceOfSlice(buf, 440, 528, 0, 32);
    SliceOfSlice(buf, 440, 528, 32, 64);
    SliceOfSlice(buf, 440, 528, 64, 68);
    SliceOfSlice(buf, 440, 528, 68, 72);
    SliceOfSlice(buf, 440, 528, 72, 80);
    SliceOfSlice(buf, 440, 528, 80, 88);
  }

  lemma {:induction false} AbsoluteSlices(p: Payload, buf: seq<Byte>, o10: nat, o13: nat, o14: nat)
    requires FIXED_SIZE <= |buf|
    ensures FixedAt(p, buf[..FIXED_SIZE], o10, o13, o14) <==> SlotsAt(p, buf, o10, o13, o14)
  {
    var f := buf[..FIXED_SIZE];
    assert f[..404] == buf[0..404] && f[404..440] == buf[404..440] && f[440..] == buf[440..528];
    HeadSlices(p, buf);
    IntegerSlices(p, buf, o10);
    TailSlices(p, buf, o13, o14);
  }

  lemma {:induction false} DecodeEncodedPayload(p: Payload)
    requires PayloadWithinLimits(p) && WellTyped(p) && WithdrawalsStart(p) < U32_LIMIT
    ensures DecodePayload(FreshPayload(), EncodePayload(p)) == Ok(p)
  {
    var buf, v := EncodePayload(p), Variable(p.extraData, p.transactions, p.withdrawals);
    EncodingLaidOut(p);
    AssembleFromFixed(p, buf, v, FIXED_SIZE, TransactionsStart(p), WithdrawalsStart(p));
    OffsetRoundTrip(FIXED_SIZE);
    OffsetRoundTrip(TransactionsStart(p));
    OffsetRoundTrip(WithdrawalsStart(p));
    TransactionsRoundTrip(p.transactions);
    FixedListRoundTrip(p.withdrawals, WITHDRAWAL_SIZE, MAX_WITHDRAWALS);
    assert ReadOffsets(buf) == Offsets(FIXED_SIZE, TransactionsStart(p), WithdrawalsStart(p));
    assert DecodeVariable(buf, ReadOffsets(buf)) == Ok(v);
  }

  lemma {:induction false} WrappedOffsetMisleads(p: Payload)
    requires PayloadWithinLimits(p) && WellTyped(p) && U32_LIMIT <= WithdrawalsStart(p)
    ensures DecodePayload(FreshPayload(), EncodePayload(p)) != Ok(p)
  {
    var buf := EncodePayload(p);
    EncodingLaidOut(p);
    AbsoluteSlices(p, buf, FIXED_SIZE, TransactionsStart(p), WithdrawalsStart(p));
    OffsetRoundTrip(WithdrawalsStart(p));
    if DecodePayload(FreshPayload(), buf) == Ok(p) {
      FixedListCanonical(buf[ReadOffsets(buf).o14..], WITHDRAWAL_SIZE, MAX_WITHDRAWALS);
    }
  }

  /** Encode, then decode into a fresh object: the identity exactly when every offset fits 32 bits. */
  lemma {:induction false} PayloadRoundTrip(p: Payload)
    requires PayloadWithinLimits(p) && WellTyped(p)
    ensures DecodePayload(FreshPayload(), EncodePayload(p)) == Ok(p) <==> WithdrawalsStart(p) < U32_LIMIT
  {
    if WithdrawalsStart(p) < U32_LIMIT {
      DecodeEncodedPayload(p);
    } else {
      WrappedOffsetMisleads(p);
    }
  }

  /** The encoding says the payload it is of, exactly when every offset fits 32 bits. */
  lemma {:induction false} EncodedPayloadReads(p: Payload)
    requires PayloadWithinLimits(p) && WellTyped(p)
    ensures PayloadReads(EncodePayload(p), p) <==> WithdrawalsStart(p) < U32_LIMIT
  {
    PayloadRoundTrip(p);
    PayloadDecodesExactly(EncodePayload(p), p);
  }

  /** Whatever the sizes, the fixed fields are in place and the first offset is 528, as bytes 16, 2, 0, 0. */
  lemma {:induction false} EncodedFixedReads(p: Payload)
    requires WellTyped(p) && |p.logsBloom| == LOGS_BLOOM_SIZE
    ensures FixedReads(EncodePayload(p), p)
    ensures EncodePayload(p)[436..440] == [16, 2, 0, 0]
  {
    var w := EncodePayload(p);
    EncodingLaidOut(p);
    AbsoluteSlices(p, w, FIXED_SIZE, TransactionsStart(p), WithdrawalsStart(p));
    Uint64RoundTrip(p.number);
    Uint64RoundTrip(p.gasLimit);
    Uint64RoundTrip(p.gasUsed);
    Uint64RoundTrip(p.timestamp);
    Uint64RoundTrip(p.blobGasUsed);
    Uint64RoundTrip(p.excessBlobGas);
    NumbersDecode(w, p);
    FirstOffsetBytes();
  }

  lemma {:induction false} FirstOffsetBytes()
    ensures OffsetBytes(528) == [16, 2, 0, 0]
  {
    LittleEndianDigit(528, 4, 0);
    LittleEndianDigit(528, 4, 1);
    LittleEndianDigit(528, 4, 2);
    LittleEndianDigit(528, 4, 3);
    assert Pow256(0) == 1 && Pow256(1) == 256 && Pow256(2) == 65536 && Pow256(3) == 16777216;
  }

  // ------------------------------------------------------------ decode, then encode

  /** The two ways a decodable payload can differ from the encoder's form. */
  predicate CanonicalPayload(buf: seq<Byte>) {
    && FIXED_SIZE <= |buf| && OffsetsInOrder(buf, ReadOffsets(buf))
    && ReadOffsets(buf).o10 == FIXED_SIZE
    && CanonicalSection(buf[ReadOffsets(buf).o13..ReadOffsets(buf).o14])
  }

  lemma {:induction false} AssembledFixed(buf: seq<Byte>, v: Variable)
    requires FIXED_SIZE <= |buf|
    ensures var p, o := Assemble(FreshPayload(), buf, v), ReadOffsets(buf);
      && FixedAt(p, buf[..FIXED_SIZE], o.o10, o.o13, o.o14)
      && |p.logsBloom| == LOGS_BLOOM_SIZE && p.extraData == v.extraData
      && (AllOfWidth(v.withdrawals, WITHDRAWAL_SIZE) ==> WellTyped(p))
  {
    var p, o := Assemble(FreshPayload(), buf, v), ReadOffsets(buf);
    Uint64Canonical(buf[404..412]);
    Uint64Canonical(buf[412..420]);
    Uint64Canonical(buf[420..428]);
    Uint64Canonical(buf[428..436]);
    Uint64Canonical(buf[512..520]);
    Uint64Canonical(buf[520..528]);
    OffsetCanonical(buf[436..440]);
    OffsetCanonical(buf[504..508]);
    OffsetCanonical(buf[508..512]);
    assert [] + buf[116..372] == buf[116..372];
    assert [] + v.extraData == v.extraData;
    AbsoluteSlices(p, buf, o.o10, o.o13, o.o14);
  }

  /** Whatever decodes is within every limit. */
  lemma {:induction false} DecodedPayloadWithinLimits(buf: seq<Byte>)
    requires DecodePayload(FreshPayload(), buf).Ok?
    ensures PayloadWithinLimits(DecodePayload(FreshPayload(), buf).value)
    ensures WellTyped(DecodePayload(FreshPayload(), buf).value)
  {
    var o := ReadOffsets(buf);
    TransactionsCanonical(buf[o.o13..o.o14]);
    FixedListCanonical(buf[o.o14..], WITHDRAWAL_SIZE, MAX_WITHDRAWALS);
    AssembledFixed(buf, DecodeVariable(buf, o).value);
  }

  lemma {:induction false} CanonicalIsLaidOut(buf: seq<Byte>, o: Offsets, v: Variable)
    requires FIXED_SIZE <= |buf| && o == ReadOffsets(buf) && OffsetsInOrder(buf, o) && CanonicalPayload(buf)
    requires DecodeVariable(buf, o) == Ok(v)
    ensures LaidOut(Assemble(FreshPayload(), buf, v), buf)
  {
    var p := Assemble(FreshPayload(), buf, v);
    AssembledFixed(buf, v);
    TransactionsCanonical(buf[o.o13..o.o14]);
    FixedListCanonical(buf[o.o14..], WITHDRAWAL_SIZE, MAX_WITHDRAWALS);
    SectionLength(v.transactions);
    ItemsOfJoin(v.withdrawals, WITHDRAWAL_SIZE);
    assert TransactionsStart(p) == o.o13 && WithdrawalsStart(p) == o.o14;
  }

  /** The encoder's own output is canonical. */
  lemma {:induction false} EncodedIsCanonical(p: Payload)
    requires PayloadWithinLimits(p) && WellTyped(p) && WithdrawalsStart(p) < U32_LIMIT
    ensures DecodePayload(FreshPayload(), EncodePayload(p)) == Ok(p) && CanonicalPayload(EncodePayload(p))
  {
    var buf := EncodePayload(p);
    DecodeEncodedPayload(p);
    var o := ReadOffsets(buf);
    EncodingLaidOut(p);
    AbsoluteSlices(p, buf, FIXED_SIZE, TransactionsStart(p), WithdrawalsStart(p));
    OffsetRoundTrip(FIXED_SIZE);
    OffsetRoundTrip(TransactionsStart(p));
    OffsetRoundTrip(WithdrawalsStart(p));
    TransactionsCanonical(buf[o.o13..o.o14]);
  }

  /** Decode, then encode: the identity exactly on canonical input. */
  lemma {:induction false} PayloadCanonical(buf: seq<Byte>)
    requires DecodePayload(FreshPayload(), buf).Ok?
    ensures EncodePayload(DecodePayload(FreshPayload(), buf).value) == buf <==> CanonicalPayload(buf)
  {
    var p := DecodePayload(FreshPayload(), buf).value;
    DecodedPayloadWithinLimits(buf);
    if CanonicalPayload(buf) {
      CanonicalIsLaidOut(buf, ReadOffsets(buf), DecodeVariable(buf, ReadOffsets(buf)).value);
      LaidOutUnique(p, buf);
    } else if EncodePayload(p) == buf {
      PayloadRoundTrip(p);
      EncodedIsCanonical(p);
    }
  }

  /**
   Decoding appends to the bloom and to the extra data an object already holds: what a successful
   decode leaves can be encoded exactly when there was no bloom and both extra data fit together.
   */
  lemma {:induction false} ReusedObjectEncodes(prior: Payload, buf: seq<Byte>)
    requires DecodePayload(prior, buf).Ok?
    ensures var o := ReadOffsets(buf);
      PayloadFailure(DecodePayload(prior, buf).value) == None <==>
        prior.logsBloom == [] && |prior.extraData| + (o.o13 - o.o10) <= MAX_EXTRA_DATA
    ensures prior.logsBloom != [] ==> PayloadFailure(DecodePayload(prior, buf).value) == Some(ErrBytesLength)
  {
    var o := ReadOffsets(buf);
    assert |buf[116..372]| == LOGS_BLOOM_SIZE;
    TransactionsCanonical(buf[o.o13..o.o14]);
    FixedListCanonical(buf[o.o14..], WITHDRAWAL_SIZE, MAX_WITHDRAWALS);
  }

  /** So decoding a payload's own encoding into the object that holds it spoils the object. */
  lemma {:induction false} SecondDecodeSpoils(p: Payload)
    requires PayloadWithinLimits(p) && WellTyped(p) && WithdrawalsStart(p) < U32_LIMIT
    ensures var r := DecodePayload(p, EncodePayload(p)); r.Ok? && PayloadFailure(r.value) == Some(ErrBytesLength)
  {
    DecodeEncodedPayload(p);
    ReusedObjectEncodes(p, EncodePayload(p));
  }

  /** A payload within every limit whose last offset wraps: four transactions of 2^30 zero bytes. */
  function OversizedPayload(): Payload {
    var tx := Zeros(MAX_TRANSACTION_BYTES);
    FreshPayload().(logsBloom := Zeros(LOGS_BLOOM_SIZE), transactions := [tx, tx, tx, tx])
  }

  lemma {:induction false} OversizedPayloadIsLost()
    ensures PayloadWithinLimits(OversizedPayload()) && WellTyped(OversizedPayload())
    ensures U32_LIMIT <= WithdrawalsStart(OversizedPayload())
    ensures DecodePayload(FreshPayload(), EncodePayload(OversizedPayload())) != Ok(OversizedPayload())
  {
    var p, tx := OversizedPayload(), Zeros(MAX_TRANSACTION_BYTES);
    FourEqualParts(tx);
    PayloadRoundTrip(p);
  }

  lemma {:induction false} FourEqualParts(part: seq<Byte>)
    ensures Start([part, part, part, part], 4) == 4 * |part|
  {
    var s := [part, part, part, part];
    assert Start(s, 0) == 0 && Start(s, 1) == |part|;
    assert Start(s, 2) == 2 * |part|;
    assert Start(s, 3) == 3 * |part|;
  }

  // ------------------------------------------------------------ marshalling

  /** The running offset after the transaction loop is where the withdrawals start. */
  method WithdrawalsOffset(p: Payload, offset: nat) returns (next: nat)
    requires offset == TransactionsStart(p)
    ensures next == WithdrawalsStart(p)
  {
    next := offset;
    for ii := 0 to |p.transactions|
      invariant next == offset + 4 * ii + Start(p.transactions, ii)
    {
      next := next + 4;
      next := next + |p.transactions[ii]|;
    }
  }

  /** The fixed part, each slot appended after the one before, with the running offset written as it goes. */
  method MarshalFixed(p: Payload, buf: seq<Byte>) returns (dst: seq<Byte>)
    ensures dst == buf + FixedOf(p)
  {
    var offset := FIXED_SIZE;
    dst := MarshalFixedList(buf, [p.parentHash, p.feeRecipient, p.stateRoot, p.receiptsRoot, p.logsBloom, p.random]);
    dst := MarshalFixedList(dst, [Uint64Bytes(p.number), Uint64Bytes(p.gasLimit), Uint64Bytes(p.gasUsed),
                                  Uint64Bytes(p.timestamp), OffsetBytes(offset)]);
    offset := offset + |p.extraData|;
    var withdrawalsAt := WithdrawalsOffset(p, offset);
    dst := MarshalFixedList(dst, [p.baseFeePerGas, p.blockHash, OffsetBytes(offset), OffsetBytes(withdrawalsAt),
                                  Uint64Bytes(p.blobGasUsed), Uint64Bytes(p.excessBlobGas)]);
  }

  /** Marshalling appends exactly the encoding to any prefix, or names the first violated limit. */
  method MarshalPayload(p: Payload, buf: seq<Byte>) returns (dst: seq<Byte>, failure: Option<SszError>)
    ensures failure == PayloadFailure(p)
    ensures failure.None? ==> dst == buf + EncodePayload(p)
    ensures failure.None? && WellTyped(p) ==> |buf| + 528 <= |dst| && OnWire(dst[|buf|..], p)
  {
    if |p.logsBloom| != LOGS_BLOOM_SIZE {
      return buf, Some(ErrBytesLength);
    }
    dst := MarshalFixed(p, buf);
    if |p.extraData| > MAX_EXTRA_DATA {
      return dst, Some(ErrBytesLength);
    }
    dst := dst + p.extraData;
    dst, failure := MarshalTransactions(dst, p.transactions);
    if failure.Some? {
      return;
    }
    if |p.withdrawals| > MAX_WITHDRAWALS {
      return dst, Some(ErrListTooBig);
    }
    dst := MarshalFixedList(dst, p.withdrawals);
    AppendFour(buf, FixedOf(p), p.extraData, EncodeTransactions(p.transactions), Join(p.withdrawals));
    EncodedOnWire(p);
    assert dst[|buf|..] == EncodePayload(p);
    return dst, None;
  }

  /** What marshalling puts on the wire, byte by byte. */
  ghost predicate OnWire(w: seq<Byte>, p: Payload) {
    && FixedReads(w, p) && w[436..440] == [16, 2, 0, 0]
    && (528 + |p.extraData| + 4 * |p.transactions| + Start(p.transactions, |p.transactions|) < 0x1_0000_0000 ==>
          PayloadReads(w, p))
  }

  lemma {:induction false} EncodedOnWire(p: Payload)
    ensures WellTyped(p) && PayloadWithinLimits(p) ==> OnWire(EncodePayload(p), p)
  {
    if WellTyped(p) && PayloadWithinLimits(p) {
      EncodedFixedReads(p);
      EncodedPayloadReads(p);
    }
  }

  /** SizeSSZ is the exact encoded length of whatever encodes. */
  method SizePayload(p: Payload) returns (size: nat)
    requires WellTyped(p)
    ensures |p.logsBloom| == LOGS_BLOOM_SIZE ==> size == |EncodePayload(p)|
    ensures size == WithdrawalsStart(p) + WITHDRAWAL_SIZE * |p.withdrawals|
    ensures size == 528 + |p.extraData| + 4 * |p.transactions| + Start(p.transactions, |p.transactions|)
                    + 44 * |p.withdrawals|
  {
    size := FIXED_SIZE + |p.extraData|;
    for ii := 0 to |p.transactions|
      invariant size == FIXED_SIZE + |p.extraData| + 4 * ii + Start(p.transactions, ii)
    {
      size := size + 4 + |p.transactions[ii]|;
    }
    size := size + |p.withdrawals| * 44;
    if |p.logsBloom| == LOGS_BLOOM_SIZE {
      EncodingLaidOut(p);
    }
  }

  // ------------------------------------------------------------ the object

  class ExecutableData {
    var parentHash: seq<Byte>
    var feeRecipient: seq<Byte>
    var stateRoot: seq<Byte>
    var receiptsRoot: seq<Byte>
    var logsBloom: seq<Byte>
    var random: seq<Byte>
    var number: U64
    var gasLimit: U64
    var gasUsed: U64
    var timestamp: U64
    var extraData: seq<Byte>
    var baseFeePerGas: seq<Byte>
    var blockHash: seq<Byte>
    var transactions: seq<seq<Byte>>
    var withdrawals: seq<seq<Byte>>
    var blobGasUsed: U64
    var excessBlobGas: U64

    function Value(): Payload
      reads this
    {
      Payload(parentHash, feeRecipient, stateRoot, receiptsRoot, logsBloom, random, number, gasLimit, gasUsed,
              timestamp, extraData, baseFeePerGas, blockHash, transactions, withdrawals, blobGasUsed, excessBlobGas)
    }

    constructor ()
      ensures Value() == FreshPayload()
    {
      parentHash, feeRecipient, stateRoot, receiptsRoot := Zeros(32), Zeros(20), Zeros(32), Zeros(32);
      logsBloom, random, number, gasLimit, gasUsed, timestamp := [], Zeros(32), 0, 0, 0, 0;
      extraData, baseFeePerGas, blockHash := [], Zeros(32), Zeros(32);
      transactions, withdrawals, blobGasUsed, excessBlobGas := [], [], 0, 0;
    }

    method SizeSSZ() returns (size: nat)
      requires WellTyped(Value())
      ensures |logsBloom| == LOGS_BLOOM_SIZE ==> size == |EncodePayload(Value())|
      ensures size == WithdrawalsStart(Value()) + WITHDRAWAL_SIZE * |withdrawals|
      ensures size == 528 + |extraData| + 4 * |transactions| + Start(transactions, |transactions|) + 44 * |withdrawals|
    {
      size := SizePayload(Value());
    }

    method MarshalSSZTo(buf: seq<Byte>) returns (dst: seq<Byte>, failure: Option<SszError>)
      ensures failure == PayloadFailure(Value())
      ensures failure.None? ==> dst == buf + EncodePayload(Value())
      ensures failure.None? && WellTyped(Value()) ==> |buf| + 528 <= |dst| && OnWire(dst[|buf|..], Value())
    {
      dst, failure := MarshalPayload(Value(), buf);
    }

    /** Fields 0 to 5; LogsBloom is appended to. */
    method UnmarshalHead(buf: seq<Byte>)
      requires FIXED_SIZE <= |buf|
      modifies `parentHash, `feeRecipient, `stateRoot, `receiptsRoot, `logsBloom, `random
      ensures parentHash == buf[0..32] && feeRecipient == buf[32..52] && stateRoot == buf[52..84]
      ensures receiptsRoot == buf[84..116] && logsBloom == old(logsBloom) + buf[116..372] && random == buf[372..404]
    {
      parentHash := buf[0..32];
      feeRecipient := buf[32..52];
      stateRoot := buf[52..84];
      receiptsRoot := buf[84..116];
      logsBloom := logsBloom + buf[116..372];
      random := buf[372..404];
    }

    /** Fields 6 to 9, 11, 12, 15 and 16. */
    method UnmarshalRest(buf: seq<Byte>)
      requires FIXED_SIZE <= |buf|
      modifies `number, `gasLimit, `gasUsed, `timestamp, `baseFeePerGas, `blockHash, `blobGasUsed, `excessBlobGas
      ensures number == ReadUint64(buf[404..412]) && gasLimit == ReadUint64(buf[412..420])
      ensures gasUsed == ReadUint64(buf[420..428]) && timestamp == ReadUint64(buf[428..436])
      ensures baseFeePerGas == buf[440..472] && blockHash == buf[472..504]
      ensures blobGasUsed == ReadUint64(buf[512..520]) && excessBlobGas == ReadUint64(buf[520..528])
    {
      number := ReadUint64(buf[404..412]);
      gasLimit := ReadUint64(buf[412..420]);
      gasUsed := ReadUint64(buf[420..428]);
      timestamp := ReadUint64(buf[428..436]);
      baseFeePerGas := buf[440..472];
      blockHash := buf[472..504];
      blobGasUsed := ReadUint64(buf[512..520]);
      excessBlobGas := ReadUint64(buf[520..528]);
    }

    /** Fields 10, 13 and 14; ExtraData is appended to. */
    method UnmarshalVariable(buf: seq<Byte>, o: Offsets) returns (failure: Option<SszError>)
      requires OffsetsInOrder(buf, o)
      modifies `extraData, `transactions, `withdrawals
      ensures match DecodeVariable(buf, o)
        case Ok(v) => failure == None && extraData == old(extraData) + v.extraData
                      && transactions == v.transactions && withdrawals == v.withdrawals
        case Err(e) => failure == Some(e)
    {
      var extra := buf[o.o10..o.o13];
      if |extra| > MAX_EXTRA_DATA {
        return Some(ErrBytesLength);
      }
      extraData := extraData + extra;
      var txs := UnmarshalTransactions(buf[o.o13..o.o14]);
      if txs.Err? {
        return Some(txs.error);
      }
      transactions := txs.value;
      var ws := UnmarshalFixedList(buf[o.o14..], WITHDRAWAL_SIZE, MAX_WITHDRAWALS);
      if ws.Err? {
        return Some(ws.error);
      }
      withdrawals := ws.value;
      return None;
    }

    /** Every field, once the offsets have been checked. */
    method UnmarshalFields(buf: seq<Byte>, o: Offsets) returns (failure: Option<SszError>)
      requires OffsetsInOrder(buf, o)
      modifies this
      ensures match DecodeVariable(buf, o)
        case Ok(v) => failure == None && Value() == Assemble(old(Value()), buf, v)
        case Err(e) => failure == Some(e)
    {
      UnmarshalHead(buf);
      UnmarshalRest(buf);
      failure := UnmarshalVariable(buf, o);
    }

    /**
     Decoding never reads outside its input and writes exactly what DecodePayload says.
     What a failed decode has already written is left unspecified.
     */
    /** Succeeds exactly on bytes that say some payload (DecodesWhatReads), appending it to what the object held. */
    method UnmarshalSSZ(buf: seq<Byte>) returns (failure: Option<SszError>)
      modifies this
      ensures match DecodePayload(old(Value()), buf)
        case Ok(p) => failure == None && Value() == p
        case Err(e) => failure == Some(e)
    {
      if |buf| < FIXED_SIZE {
        return Some(ErrSize);
      }
      failure := OffsetFailure(buf, ReadOffsets(buf));
      if failure.Some? {
        return;
      }
      failure := UnmarshalFields(buf, ReadOffsets(buf));
    }
  }
}
