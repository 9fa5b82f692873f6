/**
 The list of variable-length transactions inside an execution payload: an offset
 table followed by the transactions (mod/consensus-types/pkg/types/payload.ssz.go).
 */
module SszTransactions {
  import opened Bytes
  import opened Ssz

  const MAX_TRANSACTIONS: nat := 1048576
  const MAX_TRANSACTION_BYTES: nat := 1073741824

  /** Offset of transaction `i` from the start of the section; at `|txs|`, the section's length. */
  function TxOffset(txs: seq<seq<Byte>>, i: nat): nat
    requires i <= |txs|
  {
    4 * |txs| + Start(txs, i)
  }

  function OffsetTable(txs: seq<seq<Byte>>): (table: seq<seq<Byte>>)
    ensures |table| == |txs| && AllOfWidth(table, 4)
    ensures forall i :: 0 <= i < |txs| ==> table[i] == OffsetBytes(TxOffset(txs, i))
  {
    seq(|txs|, i requires 0 <= i < |txs| => OffsetBytes(TxOffset(txs, i)))
  }

  function EncodeTransactions(txs: seq<seq<Byte>>): seq<Byte> {
    Join(OffsetTable(txs)) + Join(txs)
  }

  ghost predicate TransactionsWithinLimits(txs: seq<seq<Byte>>) {
    && |txs| <= MAX_TRANSACTIONS
    && forall i :: 0 <= i < |txs| ==> |txs[i]| <= MAX_TRANSACTION_BYTES
  }

  // ------------------------------------------------------------ decoding

  /** The first offset is four times the number of items. */
  function DecodeDynamicLength(buf: seq<Byte>, max: nat): Result<nat, SszError> {
    if |buf| == 0 then Ok(0)
    else if |buf| < 4 then Err(ErrNotEnoughData)
    else
      var offset := ReadOffset(buf[..4]);
      if offset % 4 != 0 then Err(ErrNotDivisible)
      else if offset / 4 > max then Err(ErrTooManyItems)
      else Ok(offset / 4)
  }

  /** Decode `remaining` items, the first at `offset`; `pos` is the next unread table entry. */
  function DecodeItems(src: seq<Byte>, pos: nat, offset: nat, remaining: nat): Result<seq<seq<Byte>>, SszError>
    requires 0 < remaining
    decreases remaining
  {
    if remaining != 1 && |src| < pos + 4 then Err(ErrNotEnoughData)
    else
      var endOffset := if remaining != 1 then ReadOffset(src[pos..pos + 4]) else |src|;
      if offset > endOffset || endOffset > |src| then Err(ErrBadItemOffset)
      else
        var item := src[offset..endOffset];
        if |item| > MAX_TRANSACTION_BYTES then Err(ErrBytesLength)
        else if remaining == 1 then Ok([item])
        else Prepend([item], DecodeItems(src, pos + 4, endOffset, remaining - 1))
  }

  function Prepend(done: seq<seq<Byte>>, r: Result<seq<seq<Byte>>, SszError>): Result<seq<seq<Byte>>, SszError> {
    match r
    case Ok(items) => Ok(done + items)
    case Err(e) => Err(e)
  }

  function DecodeTransactions(buf: seq<Byte>): Result<seq<seq<Byte>>, SszError> {
    match DecodeDynamicLength(buf, MAX_TRANSACTIONS)
    case Err(e) => Err(e)
    case Ok(num) => if num == 0 then Ok([]) else DecodeItems(buf, 4, ReadOffset(buf[..4]), num)
  }

  // ------------------------------------------------------------ the loops

  /** The offset loop of MarshalSSZTo: `offset` runs over the section. */
  method MarshalOffsets(buf: seq<Byte>, txs: seq<seq<Byte>>) returns (dst: seq<Byte>)
    ensures dst == buf + Join(OffsetTable(txs))
  {
    dst := buf;
    var offset, table := 4 * |txs|, OffsetTable(txs);
    for ii := 0 to |txs|
      invariant offset == TxOffset(txs, ii)
      invariant dst == buf + Join(table[..ii])
    {
      JoinSnoc(table, ii);
      dst := dst + OffsetBytes(offset);
      offset := offset + |txs[ii]|;
    }
    assert table[..|txs|] == table;
  }

  ghost predicate HasOversized(txs: seq<seq<Byte>>) {
    exists i :: 0 <= i < |txs| && |txs[i]| > MAX_TRANSACTION_BYTES
  }

  /** The payload loop of MarshalSSZTo. */
  method MarshalPayloads(buf: seq<Byte>, txs: seq<seq<Byte>>) returns (dst: seq<Byte>, failure: Option<SszError>)
    ensures failure == if HasOversized(txs) then Some(ErrBytesLength) else None
    ensures failure.None? ==> dst == buf + Join(txs)
  {
    dst := buf;
    for ii := 0 to |txs|
      invariant forall i :: 0 <= i < ii ==> |txs[i]| <= MAX_TRANSACTION_BYTES
      invariant dst == buf + Join(txs[..ii])
    {
      if |txs[ii]| > MAX_TRANSACTION_BYTES {
        return dst, Some(ErrBytesLength);
      }
      JoinSnoc(txs, ii);
      dst := dst + txs[ii];
    }
    assert txs[..|txs|] == txs;
    failure := None;
  }

  ghost function TransactionsFailure(txs: seq<seq<Byte>>): Option<SszError> {
    if |txs| > MAX_TRANSACTIONS then Some(ErrListTooBig)
    else if HasOversized(txs) then Some(ErrBytesLength)
    else None
  }

  method MarshalTransactions(buf: seq<Byte>, txs: seq<seq<Byte>>) returns (dst: seq<Byte>, failure: Option<SszError>)
    ensures failure == TransactionsFailure(txs)
    ensures failure == Some(ErrListTooBig) <==> |txs| > 1048576
    ensures failure == None <==> |txs| <= 1048576 && forall i :: 0 <= i < |txs| ==> |txs[i]| <= 1073741824
    ensures failure.None? ==> dst == buf + EncodeTransactions(txs)
  {
    if |txs| > MAX_TRANSACTIONS {
      return buf, Some(ErrListTooBig);
    }
    dst := MarshalOffsets(buf, txs);
    dst, failure := MarshalPayloads(dst, txs);
    assert buf + Join(OffsetTable(txs)) + Join(txs) == buf + EncodeTransactions(txs);
  }

  /** UnmarshalDynamic with the transaction callback; what it accepts is said by TransactionsDecodeExactly. */
  method UnmarshalTransactions(src: seq<Byte>) returns (r: Result<seq<seq<Byte>>, SszError>)
    ensures r == DecodeTransactions(src)
  {
    var num := DecodeDynamicLength(src, MAX_TRANSACTIONS);
    if num.Err? {
      return Err(num.error);
    }
    var length := num.value;
    if length == 0 {
      return Ok([]);
    }
    var size: nat, pos: nat, offset: nat := |src|, 4, ReadOffset(src[..4]);
    var txs: seq<seq<Byte>> := [];
    ghost var expected := DecodeItems(src, 4, offset, length);
    assert expected.Ok? ==> [] + expected.value == expected.value;
    while true
      invariant 0 < length
      invariant expected == Prepend(txs, DecodeItems(src, pos, offset, length))
      decreases length
    {
      var endOffset: nat;
      if length != 1 {
        if size < pos + 4 {
          return Err(ErrNotEnoughData);
        }
        endOffset, pos := ReadOffset(src[pos..pos + 4]), pos + 4;
      } else {
        endOffset := size;
      }
      if offset > endOffset || endOffset > size {
        return Err(ErrBadItemOffset);
      }
      var item := src[offset..endOffset];
      if |item| > MAX_TRANSACTION_BYTES {
        return Err(ErrBytesLength);
      }
      if length == 1 {
        return Ok(txs + [item]);
      }
      ghost var rest := DecodeItems(src, pos, endOffset, length - 1);
      assert rest.Ok? ==> txs + ([item] + rest.value) == txs + [item] + rest.value;
      txs, offset, length := txs + [item], endOffset, length - 1;
    }
  }

  // ------------------------------------------------------------ encode, then decode

  lemma {:induction false} SectionLength(txs: seq<seq<Byte>>)
    ensures |Join(OffsetTable(txs))| == 4 * |txs|
    ensures |EncodeTransactions(txs)| == TxOffset(txs, |txs|)
  {
    JoinLength(OffsetTable(txs));
    StartOfItem(OffsetTable(txs), 4, |txs|);
    JoinLength(txs);
  }

  lemma {:induction false} SliceOfSuffix(a: seq<Byte>, b: seq<Byte>, x: nat, y: nat)
    requires x <= y <= |b|
    ensures (a + b)[|a| + x..|a| + y] == b[x..y]
  {
  }

  lemma {:induction false} TableSlice(txs: seq<seq<Byte>>, i: nat)
    requires i < |txs|
    ensures 4 * i + 4 <= |EncodeTransactions(txs)|
    ensures EncodeTransactions(txs)[4 * i..4 * i + 4] == OffsetBytes(TxOffset(txs, i))
  {
    var table := OffsetTable(txs);
    StartOfItem(table, 4, i);
    StartOfItem(table, 4, i + 1);
    PartAtStart(table, i, Join(txs));
  }

  /** Every written offset is where its transaction starts. */
  lemma {:induction false} ItemSlice(txs: seq<seq<Byte>>, i: nat)
    requires i < |txs|
    ensures TxOffset(txs, i) <= TxOffset(txs, i + 1) <= |EncodeTransactions(txs)|
    ensures EncodeTransactions(txs)[TxOffset(txs, i)..TxOffset(txs, i + 1)] == txs[i]
  {
    SectionLength(txs);
    PartAtStart(txs, i, []);
    assert Join(txs) + [] == Join(txs);
    SliceOfSuffix(Join(OffsetTable(txs)), Join(txs), Start(txs, i), Start(txs, i + 1));
  }

  lemma {:induction false} DecodeOneItem(src: seq<Byte>, pos: nat, offset: nat, remaining: nat, endOffset: nat)
    requires 1 < remaining && pos + 4 <= |src| && ReadOffset(src[pos..pos + 4]) == endOffset
    requires offset <= endOffset <= |src| && endOffset - offset <= MAX_TRANSACTION_BYTES
    ensures DecodeItems(src, pos, offset, remaining)
         == Prepend([src[offset..endOffset]], DecodeItems(src, pos + 4, endOffset, remaining - 1))
  {
  }

  lemma {:induction false} DecodeLastItem(src: seq<Byte>, pos: nat, offset: nat)
    requires offset <= |src| && |src| - offset <= MAX_TRANSACTION_BYTES
    ensures DecodeItems(src, pos, offset, 1) == Ok([src[offset..|src|]])
  {
  }

  /** Entry and item `i` of an encoded section, as a decoder reads them. */
  ghost predicate EntryReads(src: seq<Byte>, txs: seq<seq<Byte>>, i: nat)
    requires i < |txs|
  {
    && 4 * i + 4 <= |src| && ReadOffset(src[4 * i..4 * i + 4]) == TxOffset(txs, i)
    && TxOffset(txs, i) <= TxOffset(txs, i + 1) <= |src|
    && src[TxOffset(txs, i)..TxOffset(txs, i + 1)] == txs[i]
  }

  lemma {:induction false} EncodedEntryReads(txs: seq<seq<Byte>>, i: nat)
    requires i < |txs| && TxOffset(txs, |txs|) < U32_LIMIT
    ensures EntryReads(EncodeTransactions(txs), txs, i)
  {
    TableSlice(txs, i);
    ItemSlice(txs, i);
    StartMonotone(txs, i, |txs|);
    OffsetRoundTrip(TxOffset(txs, i));
  }

  lemma {:induction false} PrependHead(txs: seq<seq<Byte>>, i: nat)
    requires i < |txs|
    ensures Prepend([txs[i]], Ok(txs[i + 1..])) == Ok(txs[i..])
  {
    assert txs[i..] == [txs[i]] + txs[i + 1..];
  }

  lemma {:induction false} DecodeItemsFrom(src: seq<Byte>, txs: seq<seq<Byte>>, i: nat, at: nat, remaining: nat)
    requires TransactionsWithinLimits(txs) && |src| == TxOffset(txs, |txs|)
    requires forall j :: 0 <= j < |txs| ==> EntryReads(src, txs, j)
    requires i + remaining == |txs| && 0 < remaining && at == TxOffset(txs, i)
    ensures DecodeItems(src, 4 * i + 4, at, remaining) == Ok(txs[i..])
    decreases remaining
  {
    assert EntryReads(src, txs, i);
    var next := TxOffset(txs, i + 1);
    if remaining == 1 {
      DecodeLastItem(src, 4 * i + 4, at);
      assert txs[i..] == [txs[i]];
    } else {
      assert EntryReads(src, txs, i + 1);
      DecodeOneItem(src, 4 * i + 4, at, remaining, next);
      DecodeItemsFrom(src, txs, i + 1, next, remaining - 1);
      PrependHead(txs, i);
    }
  }

  lemma {:induction false} DecodeSectionHead(src: seq<Byte>, n: nat)
    requires 4 <= |src| && ReadOffset(src[..4]) == 4 * n && 0 < n <= MAX_TRANSACTIONS
    ensures DecodeTransactions(src) == DecodeItems(src, 4, 4 * n, n)
  {
  }

  lemma {:induction false} DecodeSection(src: seq<Byte>, txs: seq<seq<Byte>>)
    requires TransactionsWithinLimits(txs) && 0 < |txs| && |src| == TxOffset(txs, |txs|)
    requires forall j :: 0 <= j < |txs| ==> EntryReads(src, txs, j)
    ensures DecodeTransactions(src) == Ok(txs)
  {
    assert EntryReads(src, txs, 0);
    assert src[..4] == src[0..4];
    DecodeSectionHead(src, |txs|);
    DecodeItemsFrom(src, txs, 0, 4 * |txs|, |txs|);
    assert txs[0..] == txs;
  }

  lemma {:induction false} TransactionsRoundTrip(txs: seq<seq<Byte>>)
    requires TransactionsWithinLimits(txs) && TxOffset(txs, |txs|) < U32_LIMIT
    ensures DecodeTransactions(EncodeTransactions(txs)) == Ok(txs)
  {
    SectionLength(txs);
    if txs == [] {
    } else {
      forall j | 0 <= j < |txs|
        ensures EntryReads(EncodeTransactions(txs), txs, j)
      {
        EncodedEntryReads(txs, j);
      }
      DecodeSection(EncodeTransactions(txs), txs);
    }
  }

  // ------------------------------------------------------------ decode, then encode

  lemma {:induction false} StartCons(item: seq<Byte>, rest: seq<seq<Byte>>, k: nat)
    requires k <= |rest|
    ensures Start([item] + rest, k + 1) == |item| + Start(rest, k)
  {
    if k == 0 {
      assert Start([item] + rest, 1) == Start([item] + rest, 0) + |item|;
    } else {
      StartCons(item, rest, k - 1);
    }
  }

  /** Table entry `k` of a decoded section, counted from `pos`, holds the start of item `k`. */
  ghost predicate TableEntry(src: seq<Byte>, pos: nat, offset: nat, items: seq<seq<Byte>>, k: nat)
    requires 0 < k <= |items|
  {
    && pos + 4 * k <= |src| && offset + Start(items, k) < U32_LIMIT
    && src[pos + 4 * k - 4..pos + 4 * k] == OffsetBytes(offset + Start(items, k))
  }

  /** What a successful decode says about its input, one item at a time. */
  ghost predicate DecodedFrom(src: seq<Byte>, pos: nat, offset: nat, items: seq<seq<Byte>>) {
    && offset <= |src| && Join(items) == src[offset..]
    && (forall i :: 0 <= i < |items| ==> |items[i]| <= MAX_TRANSACTION_BYTES)
    && (forall k :: 1 <= k < |items| ==> TableEntry(src, pos, offset, items, k))
  }

  lemma {:induction false} DecodedFromCons(
    src: seq<Byte>, pos: nat, offset: nat, endOffset: nat, rest: seq<seq<Byte>>)
    requires pos + 4 <= |src| && ReadOffset(src[pos..pos + 4]) == endOffset && 0 < |rest|
    requires offset <= endOffset <= |src| && endOffset - offset <= MAX_TRANSACTION_BYTES
    requires DecodedFrom(src, pos + 4, endOffset, rest)
    ensures DecodedFrom(src, pos, offset, [src[offset..endOffset]] + rest)
  {
    var item := src[offset..endOffset];
    var single: seq<seq<Byte>> := [item];
    var items := single + rest;
    JoinAppend(single, rest);
    assert single[..0] == [];
    assert Join(single) == item;
    assert src[offset..] == item + src[endOffset..];
    forall k | 1 <= k < |items|
      ensures TableEntry(src, pos, offset, items, k)
    {
      TableEntryCons(src, pos, offset, endOffset, rest, k);
    }
  }

  lemma {:induction false} TableEntryCons(
    src: seq<Byte>, pos: nat, offset: nat, endOffset: nat, rest: seq<seq<Byte>>, k: nat)
    requires pos + 4 <= |src| && ReadOffset(src[pos..pos + 4]) == endOffset && 1 <= k <= |rest|
    requires offset <= endOffset <= |src|
    requires k == 1 || TableEntry(src, pos + 4, endOffset, rest, k - 1)
    ensures TableEntry(src, pos, offset, [src[offset..endOffset]] + rest, k)
  {
    StartCons(src[offset..endOffset], rest, k - 1);
    if k == 1 {
      OffsetCanonical(src[pos..pos + 4]);
    }
  }

  lemma {:induction false} DecodedItemsAreCanonical(src: seq<Byte>, pos: nat, offset: nat, remaining: nat)
    requires 0 < remaining && DecodeItems(src, pos, offset, remaining).Ok?
    ensures |DecodeItems(src, pos, offset, remaining).value| == remaining
    ensures DecodedFrom(src, pos, offset, DecodeItems(src, pos, offset, remaining).value)
    decreases remaining
  {
    var items := DecodeItems(src, pos, offset, remaining).value;
    if remaining == 1 {
      assert items == [src[offset..|src|]];
      assert src[offset..|src|] == src[offset..];
      assert items[..0] == [];
    } else {
      var endOffset := ReadOffset(src[pos..pos + 4]);
      DecodedItemsAreCanonical(src, pos + 4, endOffset, remaining - 1);
      DecodedFromCons(src, pos, offset, endOffset, DecodeItems(src, pos + 4, endOffset, remaining - 1).value);
    }
  }

  /** The section decoder ignores the bytes after a zero first offset. */
  predicate CanonicalSection(buf: seq<Byte>) {
    buf == [] || (4 <= |buf| && ReadOffset(buf[..4]) != 0)
  }

  /** A decoded section is within limits; it re-encodes to itself exactly when it is canonical. */
  lemma {:induction false} TransactionsCanonical(buf: seq<Byte>)
    requires DecodeTransactions(buf).Ok?
    ensures TransactionsWithinLimits(DecodeTransactions(buf).value)
    ensures EncodeTransactions(DecodeTransactions(buf).value) == buf <==> CanonicalSection(buf)
  {
    var txs := DecodeTransactions(buf).value;
    var num := DecodeDynamicLength(buf, MAX_TRANSACTIONS).value;
    SectionLength(txs);
    if num > 0 {
      DecodedItemsAreCanonical(buf, 4, ReadOffset(buf[..4]), num);
      TableIsCanonical(buf, txs);
    }
  }

  lemma {:induction false} TableIsCanonical(buf: seq<Byte>, txs: seq<seq<Byte>>)
    requires 4 <= |buf| && 0 < |txs| && ReadOffset(buf[..4]) == 4 * |txs| <= |buf|
    requires DecodedFrom(buf, 4, 4 * |txs|, txs)
    ensures EncodeTransactions(txs) == buf
  {
    var table, starts := OffsetTable(txs), seq(|txs| + 1, i requires 0 <= i => 4 * i);
    assert HasLayout(table, starts);
    forall k | 0 <= k < |txs|
      ensures FoundIn(table, starts, buf, k)
    {
      if k == 0 {
        OffsetCanonical(buf[..4]);
        assert buf[0..4] == buf[..4];
      } else {
        assert TableEntry(buf, 4, 4 * |txs|, txs, k);
      }
    }
    LayoutCanonical(table, starts, buf);
    assert buf == buf[..4 * |txs|] + buf[4 * |txs|..];
  }

  // ------------------------------------------------------------ what a section means

  /**
   Item `i` of a section: its table entry holds where it starts, it ends where the next one starts,
   and it is at most 2^30 bytes long.
   */
  ghost predicate SectionItem(sec: seq<Byte>, txs: seq<seq<Byte>>, starts: seq<nat>, i: nat)
    requires i < |txs| && |starts| == |txs| + 1
  {
    && NumberAt(sec, 4 * i, 4, starts[i])
    && starts[i] <= starts[i + 1] <= |sec| && |txs[i]| <= 1073741824
    && txs[i] == sec[starts[i]..starts[i + 1]]
  }

  ghost predicate SectionAt(sec: seq<Byte>, txs: seq<seq<Byte>>, starts: seq<nat>) {
    && 0 < |txs| <= 1048576 && |starts| == |txs| + 1
    && starts[0] == 4 * |txs| && starts[|txs|] == |sec|
    && forall i :: 0 <= i < |txs| ==> SectionItem(sec, txs, starts, i)
  }

  /** What a section of bytes says, without a decoder: nothing, or a table and the items it points to. */
  ghost predicate SectionReads(sec: seq<Byte>, txs: seq<seq<Byte>>) {
    || (txs == [] && (sec == [] || NumberAt(sec, 0, 4, 0)))
    || (exists starts :: SectionAt(sec, txs, starts))
  }

  lemma {:induction false} StartsAreOffsets(sec: seq<Byte>, txs: seq<seq<Byte>>, starts: seq<nat>, i: nat)
    requires SectionAt(sec, txs, starts) && i <= |txs|
    ensures starts[i] == TxOffset(txs, i)
  {
    if i > 0 {
      StartsAreOffsets(sec, txs, starts, i - 1);
      assert SectionItem(sec, txs, starts, i - 1);
    }
  }

  lemma {:induction false} SectionDecodes(sec: seq<Byte>, txs: seq<seq<Byte>>, starts: seq<nat>)
    requires SectionAt(sec, txs, starts)
    ensures DecodeTransactions(sec) == Ok(txs)
  {
    forall i | 0 <= i < |txs|
      ensures EntryReads(sec, txs, i) && |txs[i]| <= MAX_TRANSACTION_BYTES
    {
      assert SectionItem(sec, txs, starts, i);
      StartsAreOffsets(sec, txs, starts, i);
      StartsAreOffsets(sec, txs, starts, i + 1);
      ReadsNumber(sec, 4 * i, 4, starts[i]);
    }
    StartsAreOffsets(sec, txs, starts, |txs|);
    DecodeSection(sec, txs);
  }

  function TxStarts(txs: seq<seq<Byte>>): (starts: seq<nat>)
    ensures |starts| == |txs| + 1
    ensures forall i :: 0 <= i <= |txs| ==> starts[i] == TxOffset(txs, i)
  {
    seq(|txs| + 1, i requires 0 <= i <= |txs| => TxOffset(txs, i))
  }

  lemma {:induction false} DecodedOffsetFits(sec: seq<Byte>, txs: seq<seq<Byte>>, i: nat)
    requires DecodeTransactions(sec) == Ok(txs) && i < |txs|
    ensures TxOffset(txs, i) < U32_LIMIT
  {
    OffsetCanonical(sec[..4]);
    DecodedItemsAreCanonical(sec, 4, ReadOffset(sec[..4]), DecodeDynamicLength(sec, MAX_TRANSACTIONS).value);
    if i > 0 {
      assert TableEntry(sec, 4, 4 * |txs|, txs, i);
    }
  }

  lemma {:induction false} DecodedSectionReads(sec: seq<Byte>, txs: seq<seq<Byte>>)
    requires DecodeTransactions(sec) == Ok(txs) && txs != []
    ensures SectionAt(sec, txs, TxStarts(txs))
  {
    TransactionsCanonical(sec);
    SectionLength(txs);
    forall i | 0 <= i < |txs|
      ensures SectionItem(sec, txs, TxStarts(txs), i)
    {
      DecodedItemReads(sec, txs, i);
    }
  }

  lemma {:induction false} DecodedItemReads(sec: seq<Byte>, txs: seq<seq<Byte>>, i: nat)
    requires DecodeTransactions(sec) == Ok(txs) && i < |txs| && sec == EncodeTransactions(txs)
    requires |txs[i]| <= MAX_TRANSACTION_BYTES
    ensures SectionItem(sec, txs, TxStarts(txs), i)
  {
    TableSlice(txs, i);
    ItemSlice(txs, i);
    DecodedOffsetFits(sec, txs, i);
    OffsetRoundTrip(TxOffset(txs, i));
    ReadsNumber(sec, 4 * i, 4, TxOffset(txs, i));
  }

  /** The decoder accepts exactly what the format allows, and gives exactly what it says. */
  lemma {:induction false} TransactionsDecodeExactly(sec: seq<Byte>, txs: seq<seq<Byte>>)
    ensures DecodeTransactions(sec) == Ok(txs) <==> SectionReads(sec, txs)
  {
    if 4 <= |sec| {
      assert sec[..4] == sec[0..4];
      ReadsNumber(sec, 0, 4, 0);
    }
    if DecodeTransactions(sec) == Ok(txs) {
      if txs == [] {
        TransactionsCanonical(sec);
        SectionLength(txs);
      } else {
        DecodedSectionReads(sec, txs);
      }
    }
    if exists starts :: SectionAt(sec, txs, starts) {
      var starts :| SectionAt(sec, txs, starts);
      SectionDecodes(sec, txs, starts);
    }
  }

  /** The encoding of any transactions that fit 32-bit offsets says those transactions. */
  lemma {:induction false} EncodedSectionReads(txs: seq<seq<Byte>>)
    requires TransactionsWithinLimits(txs) && TxOffset(txs, |txs|) < U32_LIMIT
    ensures SectionReads(EncodeTransactions(txs), txs)
  {
    TransactionsRoundTrip(txs);
    TransactionsDecodeExactly(EncodeTransactions(txs), txs);
  }

  /** Which error refuses a section for its length or its first offset. */
  lemma {:induction false} SectionRefusals(sec: seq<Byte>, first: nat)
    requires 4 <= |sec| ==> NumberAt(sec, 0, 4, first)
    ensures 0 < |sec| < 4 ==> DecodeTransactions(sec) == Err(ErrNotEnoughData)
    ensures 4 <= |sec| && first % 4 != 0 ==> DecodeTransactions(sec) == Err(ErrNotDivisible)
    ensures 4 <= |sec| && first % 4 == 0 && 1048576 < first / 4 ==> DecodeTransactions(sec) == Err(ErrTooManyItems)
  {
    if 4 <= |sec| {
      assert sec[..4] == sec[0..4];
      ReadsNumber(sec, 0, 4, first);
    }
  }
}
