/** The beacon block codec (mod/consensus-types/pkg/types/block.ssz.go). */
module SszBlock {
  import opened Bytes
  import opened Ssz
  import opened SszPayload
  import opened SszBody

  const BLOCK_FIXED: nat := 84

  datatype Block = Block(slot: U64, proposerIndex: U64, parentBlockRoot: seq<Byte>, stateRoot: seq<Byte>, body: Body)

  ghost predicate BlockWellTyped(k: Block) {
    |k.parentBlockRoot| == 32 && |k.stateRoot| == 32 && BodyWellTyped(k.body)
  }

  function BlockParts(k: Block, o4: nat): seq<seq<Byte>> {
    [Uint64Bytes(k.slot), Uint64Bytes(k.proposerIndex), k.parentBlockRoot, k.stateRoot, OffsetBytes(o4)]
  }

  const BLOCK_STARTS: seq<nat> := [0, 8, 16, 48, 80, 84]

  function EncodeBlock(k: Block): seq<Byte> {
    Join(BlockParts(k, BLOCK_FIXED)) + EncodeBody(k.body)
  }

  ghost predicate BlockSlots(k: Block, buf: seq<Byte>, o4: nat)
    requires BLOCK_FIXED <= |buf|
  {
    && buf[0..8] == Uint64Bytes(k.slot) && buf[8..16] == Uint64Bytes(k.proposerIndex)
    && buf[16..48] == k.parentBlockRoot && buf[48..80] == k.stateRoot && buf[80..84] == OffsetBytes(o4)
  }

  lemma {:induction false} BlockFixedExact(k: Block, o4: nat, rest: seq<Byte>)
    requires BlockWellTyped(k)
    ensures |Join(BlockParts(k, o4))| == BLOCK_FIXED
    ensures BlockSlots(k, Join(BlockParts(k, o4)) + rest, o4)
  {
    var parts := BlockParts(k, o4);
    assert HasLayout(parts, BLOCK_STARTS);
    LayoutSlice(parts, BLOCK_STARTS, rest, 0);
    LayoutSlice(parts, BLOCK_STARTS, rest, 1);
    LayoutSlice(parts, BLOCK_STARTS, rest, 2);
    LayoutSlice(parts, BLOCK_STARTS, rest, 3);
    LayoutSlice(parts, BLOCK_STARTS, rest, 4);
  }

  lemma {:induction false} BlockFixedUnique(k: Block, buf: seq<Byte>, o4: nat)
    requires BlockWellTyped(k) && BLOCK_FIXED <= |buf| && BlockSlots(k, buf, o4)
    ensures Join(BlockParts(k, o4)) == buf[..BLOCK_FIXED]
  {
    var parts := BlockParts(k, o4);
    assert HasLayout(parts, BLOCK_STARTS);
    LayoutCanonical(parts, BLOCK_STARTS, buf);
  }

  /** UnmarshalSSZ into a block whose nested payload object holds `prior`. */
  function DecodeBlock(prior: Payload, buf: seq<Byte>): Result<Block, SszError> {
    if |buf| < BLOCK_FIXED then Err(ErrSize)
    else
      var o4 := ReadOffset(buf[80..84]);
      if o4 > |buf| then Err(ErrOffset)
      else if o4 < BLOCK_FIXED then Err(ErrInvalidVariableOffset)
      else
        match DecodeBody(prior, buf[o4..])
        case Err(e) => Err(e)
        case Ok(body) => Ok(Block(ReadUint64(buf[0..8]), ReadUint64(buf[8..16]), buf[16..48], buf[48..80], body))
  }

  // ------------------------------------------------------------ what a block's bytes mean

  ghost predicate BlockFixedReads(w: seq<Byte>, k: Block) {
    && 84 <= |w|
    && NumberAt(w, 0, 8, k.slot) && NumberAt(w, 8, 8, k.proposerIndex)
    && k.parentBlockRoot == w[16..48] && k.stateRoot == w[48..80]
  }

  ghost predicate BlockAt(w: seq<Byte>, k: Block, o4: nat) {
    && BlockFixedReads(w, k)
    && NumberAt(w, 80, 4, o4) && 84 <= o4 <= |w|
    && BodyReads(w[o4..], k.body)
  }

  /** What a string of bytes says as a block, down to its payload's transactions, without a decoder. */
  ghost predicate BlockReads(w: seq<Byte>, k: Block) {
    exists o4 :: BlockAt(w, k, o4)
  }

  lemma {:induction false} BlockOffsetRead(w: seq<Byte>, o4: nat)
    requires NumberAt(w, 80, 4, o4)
    ensures ReadOffset(w[80..84]) == o4
  {
    ReadsNumber(w, 80, 4, o4);
  }

  lemma {:induction false} BlockFieldsDecode(w: seq<Byte>, k: Block, o4: nat)
    requires BLOCK_FIXED <= |w| && ReadOffset(w[80..84]) == o4
    ensures DecodeBlock(FreshPayload(), w) == Ok(k) <==> BlockAt(w, k, o4)
  {
    BlockFixedDecodes(w, k);
    ReadsNumber(w, 80, 4, o4);
    if BLOCK_FIXED <= o4 <= |w| {
      BodyDecodesExactly(w[o4..], k.body);
      if DecodeBody(FreshPayload(), w[o4..]).Ok? {
        assert DecodeBlock(FreshPayload(), w).value == Block(ReadUint64(w[0..8]), ReadUint64(w[8..16]), w[16..48], w[48..80],
                                                            DecodeBody(FreshPayload(), w[o4..]).value);
      }
    }
  }

  lemma {:induction false} BlockFixedDecodes(w: seq<Byte>, k: Block)
    requires BLOCK_FIXED <= |w|
    ensures BlockFixedReads(w, k) <==>
      && ReadUint64(w[0..8]) == k.slot && ReadUint64(w[8..16]) == k.proposerIndex
      && w[16..48] == k.parentBlockRoot && w[48..80] == k.stateRoot
  {
    ReadsUint64(w, 0, k.slot);
    ReadsUint64(w, 8, k.proposerIndex);
  }

  /** The decoder accepts exactly the strings that say some block, and gives that block. */
  lemma {:induction false} BlockDecodesExactly(w: seq<Byte>, k: Block)
    ensures DecodeBlock(FreshPayload(), w) == Ok(k) <==> BlockReads(w, k)
  {
    if BLOCK_FIXED <= |w| {
      BlockFieldsDecode(w, k, ReadOffset(w[80..84]));
      if BlockReads(w, k) {
        var o4 :| BlockAt(w, k, o4);
        BlockOffsetRead(w, o4);
      }
    }
  }

  /** Which error refuses what: too short, an offset past the end or into the fixed part, or the body's error. */
  lemma {:induction false} BlockRefusals(prior: Payload, w: seq<Byte>, o4: nat)
    requires 84 <= |w| ==> NumberAt(w, 80, 4, o4)
    ensures |w| < 84 ==> DecodeBlock(prior, w) == Err(ErrSize)
    ensures 84 <= |w| && |w| < o4 ==> DecodeBlock(prior, w) == Err(ErrOffset)
    ensures 84 <= |w| && o4 < 84 ==> DecodeBlock(prior, w) == Err(ErrInvalidVariableOffset)
    ensures 84 <= o4 <= |w| && DecodeBody(prior, w[o4..]).Err? ==>
      DecodeBlock(prior, w) == Err(DecodeBody(prior, w[o4..]).error)
  {
    if 84 <= |w| {
      ReadsNumber(w, 80, 4, o4);
    }
  }

  lemma {:induction false} DecodesWhatBlockReads(prior: Payload, w: seq<Byte>)
    ensures DecodeBlock(prior, w).Ok? <==> exists k :: BlockReads(w, k)
    ensures forall k :: BlockReads(w, k) ==> DecodeBlock(prior, w) == Ok(AppendedBlock(prior, k))
  {
    if BLOCK_FIXED <= |w| && BLOCK_FIXED <= ReadOffset(w[80..84]) <= |w| {
      DecodeBodyIntoUsed(prior, w[ReadOffset(w[80..84])..]);
    }
    forall k | BlockReads(w, k)
      ensures DecodeBlock(FreshPayload(), w) == Ok(k)
    {
      BlockDecodesExactly(w, k);
    }
    if DecodeBlock(FreshPayload(), w).Ok? {
      BlockDecodesExactly(w, DecodeBlock(FreshPayload(), w).value);
    }
  }

  /** What an object whose payload held `prior` holds once `k` has been decoded into it. */
  function AppendedBlock(prior: Payload, k: Block): Block {
    k.(body := k.body.(payload := Appended(prior, k.body.payload)))
  }

  /** The length of an encoded block, from the sizes of its parts. */
  lemma {:induction false} BlockLength(k: Block)
    requires BlockWellTyped(k) && |k.body.payload.logsBloom| == LOGS_BLOOM_SIZE
    ensures |EncodeBlock(k)| == BLOCK_FIXED + CommitmentsStart(k.body) + COMMITMENT_SIZE * |k.body.commitments|
  {
    BlockFixedExact(k, BLOCK_FIXED, EncodeBody(k.body));
    BodyEncodingLaidOut(k.body);
  }

  /**
   Encode, then decode into a fresh object, through all three levels: the identity exactly
   when the last offset of the body fits 32 bits.
   */
  lemma {:induction false} BlockRoundTrip(k: Block)
    requires BodyWithinLimits(k.body) && BlockWellTyped(k)
    ensures DecodeBlock(FreshPayload(), EncodeBlock(k)) == Ok(k) <==> CommitmentsStart(k.body) < U32_LIMIT
    ensures |EncodeBlock(k)| < U32_LIMIT ==> DecodeBlock(FreshPayload(), EncodeBlock(k)) == Ok(k)
  {
    var buf := EncodeBlock(k);
    BlockFixedExact(k, BLOCK_FIXED, EncodeBody(k.body));
    assert buf[BLOCK_FIXED..] == EncodeBody(k.body);
    OffsetRoundTrip(BLOCK_FIXED);
    Uint64RoundTrip(k.slot);
    Uint64RoundTrip(k.proposerIndex);
    BodyRoundTrip(k.body);
    BlockLength(k);
  }

  /** The encoding says the block it is of, exactly when every offset fits 32 bits. */
  lemma {:induction false} EncodedBlockReads(k: Block)
    requires BodyWithinLimits(k.body) && BlockWellTyped(k)
    ensures BlockReads(EncodeBlock(k), k) <==> CommitmentsStart(k.body) < U32_LIMIT
  {
    BlockRoundTrip(k);
    BlockDecodesExactly(EncodeBlock(k), k);
  }

  lemma {:induction false} MarshalledBlockReads(buf: seq<Byte>, dst: seq<Byte>, k: Block)
    requires BodyWithinLimits(k.body) && BlockWellTyped(k) && dst == buf + EncodeBlock(k)
    ensures |dst| - |buf| < 0x1_0000_0000 ==> BlockReads(dst[|buf|..], k)
  {
    assert dst[|buf|..] == EncodeBlock(k);
    BlockLength(k);
    EncodedBlockReads(k);
  }

  /** A block within every limit that does not survive the round trip. */
  lemma {:induction false} OversizedBlockIsLost(slot: U64, proposerIndex: U64)
    ensures var k := Block(slot, proposerIndex, Zeros(32), Zeros(32), OversizedBody());
      && BodyWithinLimits(k.body) && BlockWellTyped(k)
      && DecodeBlock(FreshPayload(), EncodeBlock(k)) != Ok(k)
  {
    OversizedBodyIsLost();
    BlockRoundTrip(Block(slot, proposerIndex, Zeros(32), Zeros(32), OversizedBody()));
  }

  lemma {:induction false} DecodedBlockWithinLimits(buf: seq<Byte>)
    ensures DecodeBlock(FreshPayload(), buf).Ok? ==>
      var k := DecodeBlock(FreshPayload(), buf).value;
      BodyWithinLimits(k.body) && BlockWellTyped(k) && BlockSlots(k, buf, ReadOffset(buf[80..84]))
  {
    if DecodeBlock(FreshPayload(), buf).Ok? {
      DecodedBodyWithinLimits(buf[ReadOffset(buf[80..84])..]);
      Uint64Canonical(buf[0..8]);
      Uint64Canonical(buf[8..16]);
      OffsetCanonical(buf[80..84]);
    }
  }

  /** Whatever decodes is within every limit; it re-encodes to itself exactly on canonical input. */
  lemma {:induction false} BlockCanonical(buf: seq<Byte>)
    ensures DecodeBlock(FreshPayload(), buf).Ok? ==>
      var k := DecodeBlock(FreshPayload(), buf).value;
      && BodyWithinLimits(k.body) && BlockWellTyped(k)
      && (EncodeBlock(k) == buf <==>
            ReadOffset(buf[80..84]) == BLOCK_FIXED && CanonicalBody(buf[ReadOffset(buf[80..84])..]))
  {
    if DecodeBlock(FreshPayload(), buf).Ok? {
      var k, o4 := DecodeBlock(FreshPayload(), buf).value, ReadOffset(buf[80..84]);
      DecodedBlockWithinLimits(buf);
      BodyCanonical(buf[o4..]);
      if o4 == BLOCK_FIXED {
        BlockFixedUnique(k, buf, BLOCK_FIXED);
        assert buf == buf[..BLOCK_FIXED] + buf[BLOCK_FIXED..];
        SuffixesAgree(buf[..BLOCK_FIXED], EncodeBody(k.body), buf[BLOCK_FIXED..]);
      } else if EncodeBlock(k) == buf {
        BlockFixedExact(k, BLOCK_FIXED, EncodeBody(k.body));
        OffsetRoundTrip(BLOCK_FIXED);
      }
    }
  }

  lemma {:induction false} SuffixesAgree(prefix: seq<Byte>, a: seq<Byte>, b: seq<Byte>)
    ensures prefix + a == prefix + b <==> a == b
  {
    if prefix + a == prefix + b {
      assert a == (prefix + a)[|prefix|..] == (prefix + b)[|prefix|..] == b;
    }
  }

  class BeaconBlock {
    var slot: U64
    var proposerIndex: U64
    var parentBlockRoot: seq<Byte>
    var stateRoot: seq<Byte>
    var body: BeaconBlockBody?

    function BodyValue(): Body
      reads this, body, if body == null then null else body.executionPayload
    {
      if body == null then Body(Zeros(96), Zeros(72), Zeros(32), [], FreshPayload(), []) else body.Value()
    }

    function Value(): Block
      reads this, body, if body == null then null else body.executionPayload
    {
      Block(slot, proposerIndex, parentBlockRoot, stateRoot, BodyValue())
    }

    constructor ()
      ensures body == null
      ensures Value() == Block(0, 0, Zeros(32), Zeros(32), Body(Zeros(96), Zeros(72), Zeros(32), [], FreshPayload(), []))
    {
      slot, proposerIndex, parentBlockRoot, stateRoot, body := 0, 0, Zeros(32), Zeros(32), null;
    }

    method SizeSSZ() returns (size: nat)
      requires BlockWellTyped(Value())
      modifies this, body
      ensures Value() == old(Value())
      ensures |Value().body.payload.logsBloom| == LOGS_BLOOM_SIZE ==> size == |EncodeBlock(Value())|
      ensures size == 84 + 212 + 192 * |Value().body.deposits| + PayloadSize(Value().body.payload)
                      + 48 * |Value().body.commitments|
    {
      NeedBody();
      var bodySize := body.SizeSSZ();
      size := BLOCK_FIXED + bodySize;
      if |Value().body.payload.logsBloom| == LOGS_BLOOM_SIZE {
        BlockFixedExact(Value(), BLOCK_FIXED, EncodeBody(BodyValue()));
      }
    }

    /** Marshalling dereferences the body, so a nil body is not allowed. */
    method MarshalSSZTo(buf: seq<Byte>) returns (dst: seq<Byte>, failure: Option<SszError>)
      requires body != null && BlockWellTyped(Value())
      modifies this, body
      ensures body == old(body) && Value() == old(Value())
      ensures failure == BodyFailure(Value().body)
      ensures failure.None? ==> dst == buf + EncodeBlock(Value())
      ensures failure.None? && |dst| - |buf| < 0x1_0000_0000 ==> |buf| <= |dst| && BlockReads(dst[|buf|..], Value())
    {
      dst, failure := MarshalFields(buf);
      if failure.None? {
        MarshalledBlockReads(buf, dst, Value());
      }
    }

    /** The fixed part, then the body. */
    method MarshalFields(buf: seq<Byte>) returns (dst: seq<Byte>, failure: Option<SszError>)
      requires body != null && BlockWellTyped(Value())
      modifies this, body
      ensures body == old(body) && Value() == old(Value())
      ensures failure == BodyFailure(Value().body)
      ensures failure.None? ==> dst == buf + EncodeBlock(Value())
    {
      var offset := BLOCK_FIXED;
      dst := MarshalFixedList(buf, [Uint64Bytes(slot), Uint64Bytes(proposerIndex), parentBlockRoot, stateRoot,
                                    OffsetBytes(offset)]);
      dst, failure := body.MarshalFields(dst);
    }

    method UnmarshalSSZ(buf: seq<Byte>) returns (failure: Option<SszError>)
      modifies this, body, if body == null then null else body.executionPayload
      ensures failure.None? ==> DecodeBlock(old(BodyValue().payload), buf) == Ok(Value())
      ensures failure.Some? ==> DecodeBlock(old(BodyValue().payload), buf) == Err(failure.value)
    {
      var size := |buf|;
      if size < BLOCK_FIXED {
        return Some(ErrSize);
      }
      UnmarshalFixed(buf);
      var o4 := ReadOffset(buf[80..84]);
      if o4 > size {
        return Some(ErrOffset);
      }
      if o4 < BLOCK_FIXED {
        return Some(ErrInvalidVariableOffset);
      }
      NeedBody();
      failure := body.UnmarshalSSZ(buf[o4..]);
    }

    /** The four fields before the body's offset. */
    method UnmarshalFixed(buf: seq<Byte>)
      requires BLOCK_FIXED <= |buf|
      modifies this`slot, this`proposerIndex, this`parentBlockRoot, this`stateRoot
      ensures Value() == Block(ReadUint64(buf[0..8]), ReadUint64(buf[8..16]), buf[16..48], buf[48..80], old(BodyValue()))
    {
      slot := ReadUint64(buf[0..8]);
      proposerIndex := ReadUint64(buf[8..16]);
      parentBlockRoot := buf[16..48];
      stateRoot := buf[48..80];
    }

    /** A nil body is replaced by a new one. */
    method NeedBody()
      modifies this`body
      ensures body != null && BodyValue() == old(BodyValue())
      ensures if old(body) == null then fresh(body) && body.executionPayload == null else body == old(body)
    {
      if body == null {
        body := new BeaconBlockBody();
      }
    }
  }

  /** NewFromSSZ decodes into a new object, so nothing is left over from an earlier decode. */
  method NewFromSSZ(bz: seq<Byte>) returns (block: BeaconBlock, failure: Option<SszError>)
    ensures fresh(block)
    ensures match DecodeBlock(FreshPayload(), bz)
      case Ok(k) => failure == None && block.Value() == k
      case Err(e) => failure == Some(e)
    ensures failure == None <==> exists k :: BlockReads(bz, k)
    ensures forall k :: BlockReads(bz, k) ==> block.Value() == k
  {
    forall k
      ensures DecodeBlock(FreshPayload(), bz) == Ok(k) <==> BlockReads(bz, k)
    {
      BlockDecodesExactly(bz, k);
    }
    block := new BeaconBlock();
    failure := block.UnmarshalSSZ(bz);
  }
}
