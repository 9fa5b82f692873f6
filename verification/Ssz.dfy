/**
 SSZ building blocks: the fastssz helpers that the generated codecs call, and the
 algebra of byte strings joined from consecutive parts.

 The helpers (WriteOffset, ReadOffset, DivideInt2, DecodeDynamicLength,
 UnmarshalDynamic) live in github.com/ferranbt/fastssz; their definitions here are
 assumptions about that library.
 */
module Ssz {
  import opened Bytes


  datatype SszError =
    | ErrSize | ErrOffset | ErrInvalidVariableOffset | ErrBytesLength | ErrListTooBig
    | ErrNotDivisible | ErrTooManyItems | ErrNotEnoughData | ErrBadItemOffset

  // ------------------------------------------------------------ joined parts

  function Join(parts: seq<seq<Byte>>): seq<Byte> {
    if parts == [] then [] else Join(parts[..|parts| - 1]) + parts[|parts| - 1]
  }

  lemma {:induction false} SplitFour(buf: seq<Byte>, x: nat, y: nat, z: nat)
    requires x <= y <= z <= |buf|
    ensures buf == buf[..x] + buf[x..y] + buf[y..z] + buf[z..]
  {
    assert buf[..x] + buf[x..y] == buf[..y];
    assert buf[..y] + buf[y..z] == buf[..z];
  }

  lemma {:induction false} AppendFour(buf: seq<Byte>, a: seq<Byte>, b: seq<Byte>, c: seq<Byte>, d: seq<Byte>)
    ensures buf + a + b + c + d == buf + (a + b + c + d)
  {
  }

  /** Where part `i` starts in the joined string. */
  function Start(parts: seq<seq<Byte>>, i: nat): nat
    requires i <= |parts|
  {
    if i == 0 then 0 else Start(parts, i - 1) + |parts[i - 1]|
  }

  lemma {:induction false} JoinSnoc(parts: seq<seq<Byte>>, i: nat)
    requires i < |parts|
    ensures Join(parts[..i + 1]) == Join(parts[..i]) + parts[i]
  {
    assert parts[..i + 1][..i] == parts[..i];
  }

  lemma {:induction false} JoinAppend(a: seq<seq<Byte>>, b: seq<seq<Byte>>)
    ensures Join(a + b) == Join(a) + Join(b)
    decreases |b|
  {
    if b == [] {
      assert a + b == a;
    } else {
      var c, front, last := a + b, b[..|b| - 1], b[|b| - 1];
      JoinAppend(a, front);
      assert c[..|c| - 1] == a + front && c[|c| - 1] == last;
      assert Join(c) == Join(a) + Join(front) + last;
      assert Join(b) == Join(front) + last;
    }
  }

  lemma {:induction false} PrefixLength(parts: seq<seq<Byte>>, i: nat)
    requires i <= |parts|
    ensures |Join(parts[..i])| == Start(parts, i)
  {
    if i == 0 {
    } else {
      PrefixLength(parts, i - 1);
      JoinSnoc(parts, i - 1);
    }
  }

  lemma {:induction false} JoinLength(parts: seq<seq<Byte>>)
    ensures |Join(parts)| == Start(parts, |parts|)
  {
    assert parts[..|parts|] == parts;
    PrefixLength(parts, |parts|);
  }

  lemma {:induction false} StartMonotone(parts: seq<seq<Byte>>, i: nat, j: nat)
    requires i <= j <= |parts|
    ensures Start(parts, i) <= Start(parts, j)
    decreases j
  {
    if i < j {
      StartMonotone(parts, i, j - 1);
    }
  }

  /** Every part is found at its start. */
  lemma {:induction false} PartAtStart(parts: seq<seq<Byte>>, i: nat, rest: seq<Byte>)
    requires i < |parts|
    ensures Start(parts, i) <= Start(parts, i + 1) <= |Join(parts)|
    ensures (Join(parts) + rest)[Start(parts, i)..Start(parts, i + 1)] == parts[i]
  {
    StartMonotone(parts, i + 1, |parts|);
    JoinLength(parts);
    assert parts == parts[..i + 1] + parts[i + 1..];
    JoinAppend(parts[..i + 1], parts[i + 1..]);
    JoinSnoc(parts, i);
    PrefixLength(parts, i);
  }

  /** A fixed layout: part `i` occupies bytes starts[i] to starts[i + 1]. */
  ghost predicate HasLayout(parts: seq<seq<Byte>>, starts: seq<nat>) {
    && |starts| == |parts| + 1
    && starts[0] == 0
    && forall i :: 0 <= i < |parts| ==> starts[i] + |parts[i]| == starts[i + 1]
  }

  lemma {:induction false} LayoutStart(parts: seq<seq<Byte>>, starts: seq<nat>, i: nat)
    requires HasLayout(parts, starts) && i <= |parts|
    ensures Start(parts, i) == starts[i]
  {
    if i == 0 {
    } else {
      LayoutStart(parts, starts, i - 1);
    }
  }

  lemma {:induction false} LayoutSlice(parts: seq<seq<Byte>>, starts: seq<nat>, rest: seq<Byte>, i: nat)
    requires HasLayout(parts, starts) && i < |parts|
    ensures starts[i] <= starts[i + 1] <= |Join(parts)| == starts[|parts|]
    ensures (Join(parts) + rest)[starts[i]..starts[i + 1]] == parts[i]
  {
    LayoutStart(parts, starts, i);
    LayoutStart(parts, starts, i + 1);
    LayoutStart(parts, starts, |parts|);
    JoinLength(parts);
    PartAtStart(parts, i, rest);
  }

  /** All slices of a layout at once. */
  lemma {:induction false} LayoutSlices(parts: seq<seq<Byte>>, starts: seq<nat>)
    requires HasLayout(parts, starts)
    ensures |Join(parts)| == starts[|parts|]
    ensures forall i :: 0 <= i < |parts| ==> FoundIn(parts, starts, Join(parts), i)
  {
    JoinLength(parts);
    LayoutStart(parts, starts, |parts|);
    forall i | 0 <= i < |parts|
      ensures FoundIn(parts, starts, Join(parts), i)
    {
      LayoutSlice(parts, starts, [], i);
      assert Join(parts) + [] == Join(parts);
    }
  }

  /** Part `i` is the slice of `buf` that the layout assigns to it. */
  ghost predicate FoundIn(parts: seq<seq<Byte>>, starts: seq<nat>, buf: seq<Byte>, i: nat)
    requires |starts| == |parts| + 1 && i < |parts|
  {
    starts[i] <= starts[i + 1] <= |buf| && buf[starts[i]..starts[i + 1]] == parts[i]
  }

  lemma {:induction false} LayoutPrefix(parts: seq<seq<Byte>>, starts: seq<nat>, buf: seq<Byte>, n: nat)
    requires HasLayout(parts, starts) && n <= |parts|
    requires forall i :: 0 <= i < n ==> FoundIn(parts, starts, buf, i)
    ensures starts[n] <= |buf| && Join(parts[..n]) == buf[..starts[n]]
  {
    if n == 0 {
    } else {
      LayoutPrefix(parts, starts, buf, n - 1);
      JoinSnoc(parts, n - 1);
      assert FoundIn(parts, starts, buf, n - 1);
      assert buf[..starts[n]] == buf[..starts[n - 1]] + buf[starts[n - 1]..starts[n]];
    }
  }

  /** Reassembling the slices of a layout gives back the bytes they were cut from. */
  lemma {:induction false} LayoutCanonical(parts: seq<seq<Byte>>, starts: seq<nat>, buf: seq<Byte>)
    requires HasLayout(parts, starts)
    requires forall i :: 0 <= i < |parts| ==> FoundIn(parts, starts, buf, i)
    ensures starts[|parts|] <= |buf| && Join(parts) == buf[..starts[|parts|]]
  {
    LayoutPrefix(parts, starts, buf, |parts|);
    assert parts[..|parts|] == parts;
  }

  lemma {:induction false} LayoutCovers(parts: seq<seq<Byte>>, starts: seq<nat>, buf: seq<Byte>)
    requires HasLayout(parts, starts) && starts[|parts|] == |buf|
    requires forall i :: 0 <= i < |parts| ==> FoundIn(parts, starts, buf, i)
    ensures Join(parts) == buf
  {
    LayoutCanonical(parts, starts, buf);
    assert buf[..|buf|] == buf;
  }

  // ------------------------------------------------------------ offsets and integers

  /** uint32(offset), little endian */
  function OffsetBytes(offset: nat): (b: seq<Byte>)
    ensures |b| == 4
  {
    LittleEndian(offset, 4)
  }

  function ReadOffset(b: seq<Byte>): nat {
    FromLittleEndian(b)
  }

  lemma {:induction false} OffsetRoundTrip(offset: nat)
    ensures ReadOffset(OffsetBytes(offset)) < U32_LIMIT
    ensures ReadOffset(OffsetBytes(offset)) == offset <==> offset < U32_LIMIT
  {
    Pow256Values();
    FromLittleEndianBound(OffsetBytes(offset));
    if offset < U32_LIMIT {
      LittleEndianRoundTrip(offset, 4);
    }
  }

  lemma {:induction false} OffsetCanonical(b: seq<Byte>)
    requires |b| == 4
    ensures OffsetBytes(ReadOffset(b)) == b && ReadOffset(b) < U32_LIMIT
  {
    LittleEndianCanonical(b);
    Pow256Values();
    FromLittleEndianBound(b);
  }

  function Uint64Bytes(x: U64): (b: seq<Byte>)
    ensures |b| == 8
  {
    LittleEndian(x, 8)
  }

  function ReadUint64(b: seq<Byte>): U64
    requires |b| == 8
  {
    Pow256Values();
    FromLittleEndianBound(b);
    FromLittleEndian(b)
  }

  lemma {:induction false} Uint64RoundTrip(x: U64)
    ensures ReadUint64(Uint64Bytes(x)) == x
  {
    Pow256Values();
    LittleEndianRoundTrip(x, 8);
  }

  lemma {:induction false} Uint64Canonical(b: seq<Byte>)
    requires |b| == 8
    ensures Uint64Bytes(ReadUint64(b)) == b
  {
    LittleEndianCanonical(b);
  }

  /** `width` bytes of `w` from `at` on are the base-256 digits of `n`, least significant first. */
  ghost predicate NumberAt(w: seq<Byte>, at: nat, width: nat, n: nat) {
    at + width <= |w| && HasDigits(w[at..at + width], n)
  }

  lemma {:induction false} ReadsNumber(w: seq<Byte>, at: nat, width: nat, n: nat)
    requires at + width <= |w|
    ensures FromLittleEndian(w[at..at + width]) == n <==> NumberAt(w, at, width, n)
  {
    ReadsDigits(w[at..at + width], n);
  }

  // ------------------------------------------------------------ lists of fixed-width items

  ghost predicate AllOfWidth(items: seq<seq<Byte>>, width: nat) {
    forall i :: 0 <= i < |items| ==> |items[i]| == width
  }

  /** The consecutive `width`-byte items of a string. */
  function Items(buf: seq<Byte>, width: nat): (items: seq<seq<Byte>>)
    requires 0 < width
    ensures AllOfWidth(items, width)
    decreases |buf|
  {
    if |buf| < width then [] else Items(buf[..|buf| - width], width) + [buf[|buf| - width..]]
  }

  /** DivideInt2, then one item per quotient step. */
  function DecodeFixedList(buf: seq<Byte>, width: nat, max: nat): Result<seq<seq<Byte>>, SszError>
    requires 0 < width
  {
    if |buf| % width != 0 then Err(ErrNotDivisible)
    else if |buf| / width > max then Err(ErrTooManyItems)
    else Ok(Items(buf, width))
  }

  lemma {:induction false} ItemsOfJoin(items: seq<seq<Byte>>, width: nat)
    requires 0 < width && AllOfWidth(items, width)
    ensures |Join(items)| == |items| * width
    ensures Items(Join(items), width) == items
    decreases |items|
  {
    if items == [] {
    } else {
      var front := items[..|items| - 1];
      ItemsOfJoin(front, width);
      assert (|items| - 1) * width + width == |items| * width;
      assert Join(items)[..|Join(items)| - width] == Join(front);
    }
  }

  lemma {:induction false} JoinOfItems(buf: seq<Byte>, width: nat, count: nat)
    requires 0 < width && |buf| == count * width
    ensures Join(Items(buf, width)) == buf && |Items(buf, width)| == count
    decreases count
  {
    if count == 0 {
    } else {
      var front := buf[..|buf| - width];
      assert |front| == (count - 1) * width;
      JoinOfItems(front, width, count - 1);
      assert Items(buf, width) == Items(front, width) + [buf[|buf| - width..]];
    }
  }

  lemma {:induction false} ItemAt(buf: seq<Byte>, width: nat, count: nat, i: nat)
    requires 0 < width && |buf| == count * width && i < count
    ensures |Items(buf, width)| == count
    ensures i * width + width <= |buf|
    ensures Items(buf, width)[i] == buf[i * width..i * width + width]
  {
    JoinOfItems(buf, width, count);
    ItemsOfJoin(Items(buf, width), width);
    var items := Items(buf, width);
    StartOfItem(items, width, i);
    StartOfItem(items, width, i + 1);
    assert (i + 1) * width == i * width + width;
    PartAtStart(items, i, []);
    assert buf + [] == buf;
  }

  lemma {:induction false} StartOfItem(items: seq<seq<Byte>>, width: nat, i: nat)
    requires AllOfWidth(items, width) && i <= |items|
    ensures Start(items, i) == i * width
  {
    if i == 0 {
    } else {
      StartOfItem(items, width, i - 1);
      assert (i - 1) * width + width == i * width;
    }
  }

  /** Fixed-width lists round-trip exactly when they respect the limit. */
  lemma {:induction false} FixedListRoundTrip(items: seq<seq<Byte>>, width: nat, max: nat)
    requires 0 < width && AllOfWidth(items, width) && |items| <= max
    ensures DecodeFixedList(Join(items), width, max) == Ok(items)
    ensures |Join(items)| == |items| * width
  {
    ItemsOfJoin(items, width);
    DivUnique(|Join(items)|, width, |items|, 0);
  }

  lemma {:induction false} FixedListCanonical(buf: seq<Byte>, width: nat, max: nat)
    requires 0 < width && DecodeFixedList(buf, width, max).Ok?
    ensures var items := DecodeFixedList(buf, width, max).value;
      |items| <= max && AllOfWidth(items, width) && Join(items) == buf
  {
    JoinOfItems(buf, width, |buf| / width);
  }

  /** A string is the list of `items` one after the other, each `width` bytes wide. */
  ghost predicate ListReads(buf: seq<Byte>, width: nat, items: seq<seq<Byte>>) {
    && |buf| == |items| * width
    && forall j :: 0 <= j < |items| ==> ItemReads(buf, width, items, j)
  }

  ghost predicate ItemReads(buf: seq<Byte>, width: nat, items: seq<seq<Byte>>, j: nat)
    requires j < |items|
  {
    j * width + width <= |buf| && items[j] == buf[j * width..j * width + width]
  }

  /** Decoding a list accepts exactly the strings that are the list, within the limit. */
  lemma {:induction false} ListDecodes(buf: seq<Byte>, width: nat, max: nat, items: seq<seq<Byte>>)
    requires 0 < width
    ensures DecodeFixedList(buf, width, max) == Ok(items) <==> |items| <= max && ListReads(buf, width, items)
  {
    if DecodeFixedList(buf, width, max) == Ok(items) {
      FixedListCanonical(buf, width, max);
      ItemsOfJoin(items, width);
      forall j | 0 <= j < |items|
        ensures ItemReads(buf, width, items, j)
      {
        ItemAt(buf, width, |items|, j);
      }
    }
    if |items| <= max && ListReads(buf, width, items) {
      DivUnique(|buf|, width, |items|, 0);
      JoinOfItems(buf, width, |items|);
      forall j | 0 <= j < |items|
        ensures Items(buf, width)[j] == items[j]
      {
        assert ItemReads(buf, width, items, j);
        ItemAt(buf, width, |items|, j);
      }
      assert Items(buf, width) == items;
    }
  }

  /** Which error refuses a list: a part of an item left over, or too many items. */
  lemma {:induction false} ListRefusals(buf: seq<Byte>, width: nat, max: nat)
    requires 0 < width
    ensures |buf| % width != 0 ==> DecodeFixedList(buf, width, max) == Err(ErrNotDivisible)
    ensures |buf| % width == 0 && max < |buf| / width ==> DecodeFixedList(buf, width, max) == Err(ErrTooManyItems)
  {
  }

  /** The decode loop shared by deposits, withdrawals and commitments. */
  method UnmarshalFixedList(buf: seq<Byte>, width: nat, max: nat) returns (r: Result<seq<seq<Byte>>, SszError>)
    requires 0 < width
    ensures r == DecodeFixedList(buf, width, max)
  {
    if |buf| % width != 0 {
      return Err(ErrNotDivisible);
    }
    var num := |buf| / width;
    if num > max {
      return Err(ErrTooManyItems);
    }
    JoinOfItems(buf, width, num);
    var items: seq<seq<Byte>> := [];
    for ii := 0 to num
      invariant items == Items(buf, width)[..ii]
    {
      ItemAt(buf, width, num, ii);
      items := items + [buf[ii * width..ii * width + width]];
    }
    assert items == Items(buf, width);
    r := Ok(items);
  }

  method MarshalFixedList(buf: seq<Byte>, items: seq<seq<Byte>>) returns (dst: seq<Byte>)
    ensures dst == buf + Join(items)
  {
    dst := buf;
    for ii := 0 to |items|
      invariant dst == buf + Join(items[..ii])
    {
      JoinSnoc(items, ii);
      dst := dst + items[ii];
    }
    assert items[..|items|] == items;
  }
}
