/**
 The execution payload's memoised header and root
 (mod/consensus-types/pkg/types/payload.go).

 Two atomic pointers cache the header and its root. Goroutines load and store them without a
 common lock, so a call is modelled as a series of atomic steps that interleave freely.
 */
module RootCache {
  import opened Bytes
  import opened Ssz
  import opened SszPayload
  import opened MerkleBranch
  import opened MerkleTree

  const PAYLOAD_TREE_DEPTH: nat := 5

  datatype Header = Header(
    parentHash: seq<Byte>, feeRecipient: seq<Byte>, stateRoot: seq<Byte>, receiptsRoot: seq<Byte>,
    logsBloom: seq<Byte>, random: seq<Byte>,
    number: U64, gasLimit: U64, gasUsed: U64, timestamp: U64,
    extraData: seq<Byte>, baseFeePerGas: seq<Byte>, blockHash: seq<Byte>,
    transactionsRoot: Chunk, withdrawalsRoot: Chunk,
    blobGasUsed: U64, excessBlobGas: U64)

  /**
   The hashing this file builds on: the pair hash, the leaf hashers of the SSZ merkleizer, and the
   two list roots that ToHeader asks of another package and that may fail.
   */
  datatype Hasher = Hasher(
    pair: HashFn, bytes: seq<Byte> -> Chunk, uint64: U64 -> Chunk, byteList: seq<Byte> -> Chunk,
    transactionList: seq<seq<Byte>> -> Chunk, withdrawalList: seq<seq<Byte>> -> Chunk,
    transactionsRoot: seq<seq<Byte>> -> Result<Chunk, SszError>,
    withdrawalsRoot: seq<seq<Byte>> -> Result<Chunk, SszError>)

  // ------------------------------------------------------------ what a call returns without the caches

  function HeaderOf(p: Payload, txs: Chunk, withdrawals: Chunk): Header {
    Header(p.parentHash, p.feeRecipient, p.stateRoot, p.receiptsRoot, p.logsBloom, p.random,
           p.number, p.gasLimit, p.gasUsed, p.timestamp, p.extraData, p.baseFeePerGas, p.blockHash,
           txs, withdrawals, p.blobGasUsed, p.excessBlobGas)
  }

  /** Every field of the header is the payload's field of that name, and the two list roots stand for the lists. */
  ghost predicate IsHeaderOf(hs: Hasher, p: Payload, hd: Header) {
    && hd.parentHash == p.parentHash && hd.feeRecipient == p.feeRecipient && hd.stateRoot == p.stateRoot
    && hd.receiptsRoot == p.receiptsRoot && hd.logsBloom == p.logsBloom && hd.random == p.random
    && hd.number == p.number && hd.gasLimit == p.gasLimit && hd.gasUsed == p.gasUsed
    && hd.timestamp == p.timestamp && hd.extraData == p.extraData
    && hd.baseFeePerGas == p.baseFeePerGas && hd.blockHash == p.blockHash
    && hs.transactionsRoot(p.transactions) == Ok(hd.transactionsRoot)
    && hs.withdrawalsRoot(p.withdrawals) == Ok(hd.withdrawalsRoot)
    && hd.blobGasUsed == p.blobGasUsed && hd.excessBlobGas == p.excessBlobGas
  }

  /** Both list roots are computed in parallel; when both fail, either error may come first. */
  predicate HeaderMayFail(hs: Hasher, p: Payload, e: SszError) {
    hs.transactionsRoot(p.transactions) == Err(e) || hs.withdrawalsRoot(p.withdrawals) == Err(e)
  }

  function BuildHeader(hs: Hasher, p: Payload): (r: Result<Header, SszError>)
    ensures r.Err? ==> HeaderMayFail(hs, p, r.error)
    ensures r.Ok? ==> forall e :: !HeaderMayFail(hs, p, e)
    ensures r.Ok? ==> IsHeaderOf(hs, p, r.value)
  {
    var txs, withdrawals := hs.transactionsRoot(p.transactions), hs.withdrawalsRoot(p.withdrawals);
    if txs.Err? then Err(txs.error)
    else if withdrawals.Err? then Err(withdrawals.error)
    else Ok(HeaderOf(p, txs.value, withdrawals.value))
  }

  /** The header's leaves in the order of its fields, the first nine and the other eight. */
  function FirstLeaves(hs: Hasher, hd: Header): (leaves: seq<Chunk>)
    ensures |leaves| == 9
    ensures leaves[0] == hs.bytes(hd.parentHash) && leaves[1] == hs.bytes(hd.feeRecipient)
    ensures leaves[2] == hs.bytes(hd.stateRoot) && leaves[3] == hs.bytes(hd.receiptsRoot)
    ensures leaves[4] == hs.bytes(hd.logsBloom) && leaves[5] == hs.bytes(hd.random)
    ensures leaves[6] == hs.uint64(hd.number) && leaves[7] == hs.uint64(hd.gasLimit)
    ensures leaves[8] == hs.uint64(hd.gasUsed)
  {
    [hs.bytes(hd.parentHash), hs.bytes(hd.feeRecipient), hs.bytes(hd.stateRoot), hs.bytes(hd.receiptsRoot),
     hs.bytes(hd.logsBloom), hs.bytes(hd.random),
     hs.uint64(hd.number), hs.uint64(hd.gasLimit), hs.uint64(hd.gasUsed)]
  }

  function LastLeaves(hs: Hasher, hd: Header): (leaves: seq<Chunk>)
    ensures |leaves| == 8
    ensures leaves[0] == hs.uint64(hd.timestamp) && leaves[1] == hs.byteList(hd.extraData)
    ensures leaves[2] == hs.bytes(hd.baseFeePerGas) && leaves[3] == hs.bytes(hd.blockHash)
    ensures leaves[4] == hd.transactionsRoot && leaves[5] == hd.withdrawalsRoot
    ensures leaves[6] == hs.uint64(hd.blobGasUsed) && leaves[7] == hs.uint64(hd.excessBlobGas)
  {
    [hs.uint64(hd.timestamp), hs.byteList(hd.extraData), hs.bytes(hd.baseFeePerGas), hs.bytes(hd.blockHash),
     hd.transactionsRoot, hd.withdrawalsRoot, hs.uint64(hd.blobGasUsed), hs.uint64(hd.excessBlobGas)]
  }

  /** HashTreeRootWith of the header: its fields, in order, under a tree of 32 leaves. */
  function HeaderRoot(hs: Hasher, hd: Header): (r: Result<Chunk, SszError>)
    ensures r.Ok? <==> |hd.logsBloom| == 256 && |hd.extraData| <= 32
    ensures |hd.logsBloom| != 256 ==> r == Err(ErrBytesLength)
    ensures r.Ok? ==> r.value == TreeRoot(hs.pair, FirstLeaves(hs, hd) + LastLeaves(hs, hd), 5)
  {
    if |hd.logsBloom| != LOGS_BLOOM_SIZE then Err(ErrBytesLength)
    else if |hd.extraData| > MAX_EXTRA_DATA then Err(ErrListTooBig)
    else Ok(TreeRoot(hs.pair, FirstLeaves(hs, hd) + LastLeaves(hs, hd), PAYLOAD_TREE_DEPTH))
  }

  /** HashTreeRootWith of the payload itself: the root that the SSZ specification gives it. */
  ghost function PayloadRoot(hs: Hasher, p: Payload): Chunk {
    TreeRoot(hs.pair,
      [hs.bytes(p.parentHash), hs.bytes(p.feeRecipient), hs.bytes(p.stateRoot), hs.bytes(p.receiptsRoot),
       hs.bytes(p.logsBloom), hs.bytes(p.random),
       hs.uint64(p.number), hs.uint64(p.gasLimit), hs.uint64(p.gasUsed)] +
      [hs.uint64(p.timestamp), hs.byteList(p.extraData), hs.bytes(p.baseFeePerGas), hs.bytes(p.blockHash),
       hs.transactionList(p.transactions), hs.withdrawalList(p.withdrawals),
       hs.uint64(p.blobGasUsed), hs.uint64(p.excessBlobGas)],
      PAYLOAD_TREE_DEPTH)
  }

  function RootWithoutCache(hs: Hasher, p: Payload): Result<Chunk, SszError> {
    var header := BuildHeader(hs, p);
    if header.Err? then Err(header.error) else HeaderRoot(hs, header.value)
  }

  predicate RootMayFail(hs: Hasher, p: Payload, e: SszError) {
    || HeaderMayFail(hs, p, e)
    || (BuildHeader(hs, p).Ok? && HeaderRoot(hs, BuildHeader(hs, p).value) == Err(e))
  }

  // ------------------------------------------------------------ one caller at a time

  datatype Cache = Cache(header: Option<Header>, root: Option<Chunk>)

  /** A cached header is the header of the inner payload; a cached root is that header's root. */
  ghost predicate CacheAgrees(hs: Hasher, p: Payload, c: Cache) {
    && (c.header.Some? ==> BuildHeader(hs, p) == Ok(c.header.value))
    && (c.root.Some? ==> RootWithoutCache(hs, p) == Ok(c.root.value))
  }

  class ExecutionPayload {
    const hs: Hasher
    const inner: Payload
    var cache: Cache

    ghost predicate Valid()
      reads this
    {
      CacheAgrees(hs, inner, cache)
    }

    constructor (hs: Hasher, inner: Payload)
      ensures Valid() && this.hs == hs && this.inner == inner && cache == Cache(None, None)
    {
      this.hs, this.inner, cache := hs, inner, Cache(None, None);
    }

    method ToHeader() returns (r: Result<Header, SszError>)
      requires Valid()
      modifies this
      ensures Valid()
      ensures r == BuildHeader(hs, inner)
      ensures cache.root == old(cache.root)
      ensures cache.header == if r.Ok? then Some(r.value) else None
      ensures r.Ok? ==> IsHeaderOf(hs, inner, r.value)
    {
      if cache.header.Some? {
        return Ok(cache.header.value);
      }
      var txs := hs.transactionsRoot(inner.transactions);
      if txs.Err? {
        return Err(txs.error);
      }
      var withdrawals := hs.withdrawalsRoot(inner.withdrawals);
      if withdrawals.Err? {
        return Err(withdrawals.error);
      }
      cache := cache.(header := Some(HeaderOf(inner, txs.value, withdrawals.value)));
      return Ok(cache.header.value);
    }

    /** A header that was already cached supplies the root without the root being stored. */
    method HashTreeRoot() returns (r: Result<Chunk, SszError>)
      requires Valid()
      modifies this
      ensures Valid()
      ensures r == RootWithoutCache(hs, inner)
      ensures old(cache.root.Some? || cache.header.Some?) ==> cache == old(cache)
      ensures old(cache.root.None? && cache.header.None?) && r.Ok? ==> cache.root == Some(r.value)
      ensures old(cache.root.None? && cache.header.None?) && BuildHeader(hs, inner).Ok? ==> cache.header.Some?
    {
      if cache.root.Some? {
        return Ok(cache.root.value);
      }
      if cache.header.Some? {
        return HeaderRoot(hs, cache.header.value);
      }
      var header := ToHeader();
      if header.Err? {
        return Err(header.error);
      }
      cache := cache.(header := Some(header.value));
      r := HeaderRoot(hs, header.value);
      if r.Ok? {
        cache := cache.(root := Some(r.value));
      }
    }
  }

  /**
   A remark on the field order: the header copies every field to the place it has in the payload, so
   with the same leaf hashers its root is the payload's own, provided the list roots computed for
   the header are the SSZ roots of the two lists.
   */
  lemma {:induction false} HeaderRootIsPayloadRoot(hs: Hasher, p: Payload)
    requires PayloadWithinLimits(p)
    requires hs.transactionsRoot(p.transactions) == Ok(hs.transactionList(p.transactions))
    requires hs.withdrawalsRoot(p.withdrawals) == Ok(hs.withdrawalList(p.withdrawals))
    ensures RootWithoutCache(hs, p) == Ok(PayloadRoot(hs, p))
  {
    assert BuildHeader(hs, p) == Ok(HeaderOf(p, hs.transactionList(p.transactions), hs.withdrawalList(p.withdrawals)));
  }

  // ------------------------------------------------------------ any number of callers

  /** Where one call stands; `forRoot` tells HashTreeRoot's inner call of ToHeader from a direct one. */
  datatype Phase =
    | RootCalled
    | RootMissed
    | HeaderCalled(forRoot: bool)
    | HeaderMissed(forRoot: bool)
    | HeaderBuilt(forRoot: bool, header: Header)
    | HeaderReceived(header: Header)
    | HeaderStored(header: Header)
    | RootComputed(root: Chunk)
    | RootReturned(rootResult: Result<Chunk, SszError>)
    | HeaderReturned(headerResult: Result<Header, SszError>)

  function WithHeader(forRoot: bool, header: Header): Phase {
    if forRoot then HeaderReceived(header) else HeaderReturned(Ok(header))
  }

  function HeaderFailed(forRoot: bool, e: SszError): Phase {
    if forRoot then RootReturned(Err(e)) else HeaderReturned(Err(e))
  }

  /** One atomic step of one call: a load, a store or a computation on the unchanged payload. */
  ghost predicate Moves(hs: Hasher, p: Payload, c: Cache, phase: Phase, c': Cache, phase': Phase) {
    match phase
    case RootCalled =>
      c' == c && phase' == if c.root.Some? then RootReturned(Ok(c.root.value)) else RootMissed
    case RootMissed =>
      && c' == c
      && phase' == (if c.header.Some? then RootReturned(HeaderRoot(hs, c.header.value)) else HeaderCalled(true))
    case HeaderCalled(forRoot) =>
      && c' == c
      && phase' == if c.header.Some? then WithHeader(forRoot, c.header.value) else HeaderMissed(forRoot)
    case HeaderMissed(forRoot) =>
      && c' == c
      && (|| (exists e :: HeaderMayFail(hs, p, e) && phase' == HeaderFailed(forRoot, e))
          || (BuildHeader(hs, p).Ok? && phase' == HeaderBuilt(forRoot, BuildHeader(hs, p).value)))
    case HeaderBuilt(forRoot, header) =>
      c' == c.(header := Some(header)) && phase' == WithHeader(forRoot, header)
    case HeaderReceived(header) =>
      c' == c.(header := Some(header)) && phase' == HeaderStored(header)
    case HeaderStored(header) =>
      && c' == c
      && var r := HeaderRoot(hs, header);
         phase' == if r.Ok? then RootComputed(r.value) else RootReturned(r)
    case RootComputed(root) =>
      c' == c.(root := Some(root)) && phase' == RootReturned(Ok(root))
    case RootReturned(_) => false
    case HeaderReturned(_) => false
  }

  datatype System = System(cache: Cache, calls: map<nat, Phase>)

  datatype Step = Begin(t: nat, forRoot: bool) | Advance(t: nat)

  ghost predicate StepTo(hs: Hasher, p: Payload, s: System, step: Step, s': System) {
    match step
    case Begin(t, forRoot) =>
      t !in s.calls && s' == s.(calls := s.calls[t := if forRoot then RootCalled else HeaderCalled(false)])
    case Advance(t) =>
      && t in s.calls && t in s'.calls
      && Moves(hs, p, s.cache, s.calls[t], s'.cache, s'.calls[t])
      && s'.calls == s.calls[t := s'.calls[t]]
  }

  ghost predicate Next(hs: Hasher, p: Payload, s: System, s': System) {
    exists step :: StepTo(hs, p, s, step, s')
  }

  ghost predicate IsRun(hs: Hasher, p: Payload, run: seq<System>) {
    && 0 < |run| && run[0] == System(Cache(None, None), map[])
    && forall i :: 0 < i < |run| ==> Next(hs, p, run[i - 1], run[i])
  }

  /** What a call holds or has returned is what it would be without the caches. */
  ghost predicate PhaseAgrees(hs: Hasher, p: Payload, phase: Phase) {
    match phase
    case HeaderBuilt(_, header) => BuildHeader(hs, p) == Ok(header)
    case HeaderReceived(header) => BuildHeader(hs, p) == Ok(header)
    case HeaderStored(header) => BuildHeader(hs, p) == Ok(header)
    case RootComputed(root) => RootWithoutCache(hs, p) == Ok(root)
    case RootReturned(r) =>
      if r.Ok? then RootWithoutCache(hs, p) == r else RootMayFail(hs, p, r.error)
    case HeaderReturned(r) =>
      if r.Ok? then BuildHeader(hs, p) == r else HeaderMayFail(hs, p, r.error)
    case _ => true
  }

  ghost predicate Agrees(hs: Hasher, p: Payload, s: System) {
    && CacheAgrees(hs, p, s.cache)
    && forall t :: t in s.calls ==> PhaseAgrees(hs, p, s.calls[t])
  }

  /** Once set, neither pointer is ever changed to another value. */
  ghost predicate CacheGrows(c: Cache, c': Cache) {
    && (c.header.Some? ==> c'.header == c.header)
    && (c.root.Some? ==> c'.root == c.root)
  }

  lemma {:induction false} MoveKeepsAgreement(hs: Hasher, p: Payload, c: Cache, phase: Phase, c': Cache, phase': Phase)
    requires CacheAgrees(hs, p, c) && PhaseAgrees(hs, p, phase)
    requires Moves(hs, p, c, phase, c', phase')
    ensures CacheAgrees(hs, p, c') && PhaseAgrees(hs, p, phase')
    ensures CacheGrows(c, c')
  {
  }

  lemma {:induction false} StepKeepsAgreement(hs: Hasher, p: Payload, s: System, step: Step, s': System)
    requires Agrees(hs, p, s) && StepTo(hs, p, s, step, s')
    ensures Agrees(hs, p, s') && CacheGrows(s.cache, s'.cache)
  {
    if step.Advance? {
      MoveKeepsAgreement(hs, p, s.cache, s.calls[step.t], s'.cache, s'.calls[step.t]);
    }
  }

  lemma {:induction false} AgreesThroughout(hs: Hasher, p: Payload, run: seq<System>, i: nat)
    requires IsRun(hs, p, run) && i < |run|
    ensures Agrees(hs, p, run[i])
  {
    if i > 0 {
      AgreesThroughout(hs, p, run, i - 1);
      assert Next(hs, p, run[i - 1], run[i]);
      var step :| StepTo(hs, p, run[i - 1], step, run[i]);
      StepKeepsAgreement(hs, p, run[i - 1], step, run[i]);
    }
  }

  lemma {:induction false} CacheNeverChangesValue(hs: Hasher, p: Payload, run: seq<System>, i: nat, j: nat)
    requires IsRun(hs, p, run) && i <= j < |run|
    ensures CacheGrows(run[i].cache, run[j].cache)
    decreases j - i
  {
    if i < j {
      CacheNeverChangesValue(hs, p, run, i, j - 1);
      AgreesThroughout(hs, p, run, j - 1);
      assert Next(hs, p, run[j - 1], run[j]);
      var step :| StepTo(hs, p, run[j - 1], step, run[j]);
      StepKeepsAgreement(hs, p, run[j - 1], step, run[j]);
    }
  }

  /**
   In every interleaving, every call that has returned did so with the result of a computation
   without caches: the same value, or an error that such a computation could give.
   */
  lemma {:induction false} EveryCallAgrees(hs: Hasher, p: Payload, run: seq<System>, i: nat, t: nat)
    requires IsRun(hs, p, run) && i < |run| && t in run[i].calls
    ensures run[i].calls[t].HeaderReturned? ==>
        var r := run[i].calls[t].headerResult;
        if BuildHeader(hs, p).Ok? then r == BuildHeader(hs, p) else r.Err? && HeaderMayFail(hs, p, r.error)
    ensures run[i].calls[t].RootReturned? ==>
        var r := run[i].calls[t].rootResult;
        if RootWithoutCache(hs, p).Ok? then r == RootWithoutCache(hs, p) else r.Err? && RootMayFail(hs, p, r.error)
  {
    AgreesThroughout(hs, p, run, i);
  }

  /** Where the payload's lists hash to their SSZ roots, every root returned is the payload's own root. */
  lemma {:induction false} EveryRootIsThePayloadRoot(hs: Hasher, p: Payload, run: seq<System>, i: nat, t: nat)
    requires IsRun(hs, p, run) && i < |run| && t in run[i].calls && run[i].calls[t].RootReturned?
    requires PayloadWithinLimits(p)
    requires hs.transactionsRoot(p.transactions) == Ok(hs.transactionList(p.transactions))
    requires hs.withdrawalsRoot(p.withdrawals) == Ok(hs.withdrawalList(p.withdrawals))
    ensures run[i].calls[t].rootResult == Ok(PayloadRoot(hs, p))
  {
    EveryCallAgrees(hs, p, run, i, t);
    HeaderRootIsPayloadRoot(hs, p);
  }
}
