/**
 The blob availability store: the indexed database, persisting and checking sidecars, the
 pruning window, and what survives over whole runs (mod/da/pkg/store,
 mod/storage/pkg/filedb/range_db.go, mod/primitives/pkg/chain/helpers.go and the order in which
 mod/beacon/blockchain/process.go accepts blocks).
 */
module BlobStore {
  import opened Bytes

  type Key = seq<Byte>
  type Value = seq<Byte>

  // ------------------------------------------------------------ slots and epochs

  datatype ChainSpec = ChainSpec(slotsPerEpoch: U64, minEpochsForBlobs: U64)

  /** SlotToEpoch divides by the slots per epoch, so zero is not a valid configuration. */
  ghost predicate ValidSpec(cs: ChainSpec) {
    0 < cs.slotsPerEpoch
  }

  function SlotToEpoch(cs: ChainSpec, slot: U64): U64
    requires ValidSpec(cs)
  {
    DivShrinks(slot, cs.slotsPerEpoch);
    slot / cs.slotsPerEpoch
  }

  lemma {:induction false} DivShrinks(x: nat, d: nat)
    requires 0 < d
    ensures 0 <= x / d <= x
  {
    if x < x / d {
      MulMonotone(x + 1, x / d, d);
      MulMonotone(1, d, x + 1);
    }
  }

  predicate WithinDAPeriod(cs: ChainSpec, block: U64, current: U64)
    requires ValidSpec(cs)
  {
    (SlotToEpoch(cs, block) + cs.minEpochsForBlobs) % U64_LIMIT >= SlotToEpoch(cs, current)
  }

  /** MinEpochsForBlobsSidecarsRequest * SlotsPerEpoch in uint64 arithmetic. */
  function Window(cs: ChainSpec): U64 {
    cs.minEpochsForBlobs * cs.slotsPerEpoch % U64_LIMIT
  }

  /** The half-open range that a finalised block's event asks to prune. */
  function PruneRange(cs: ChainSpec, slot: U64): (U64, U64) {
    if slot < Window(cs) then (0, 0) else (0, slot - Window(cs))
  }

  /**
   Pruning removes every slot that WithinDAPeriod rejects, and besides them exactly the
   s mod SlotsPerEpoch slots [s - window - s mod SlotsPerEpoch, s - window) of the boundary epoch.
   */
  lemma {:induction false} PruningVersusDAPeriod(cs: ChainSpec, s: U64, b: U64)
    requires ValidSpec(cs) && b <= s && Window(cs) <= s
    requires cs.minEpochsForBlobs * cs.slotsPerEpoch < U64_LIMIT
    requires SlotToEpoch(cs, s) + cs.minEpochsForBlobs < U64_LIMIT
    ensures 0 <= s - Window(cs) - s % cs.slotsPerEpoch
    ensures !WithinDAPeriod(cs, b, s) <==> b < s - Window(cs) - s % cs.slotsPerEpoch
    ensures b < PruneRange(cs, s).1 <==>
      !WithinDAPeriod(cs, b, s) || s - Window(cs) - s % cs.slotsPerEpoch <= b < s - Window(cs)
  {
    var e, m := cs.slotsPerEpoch, cs.minEpochsForBlobs;
    NoWrap(m * e);
    BoundaryEpoch(s, m, e);
    WithinDAPeriodExact(cs, b, s, (s / e - m) * e);
  }

  lemma {:induction false} WithinDAPeriodExact(cs: ChainSpec, b: U64, s: U64, boundary: int)
    requires ValidSpec(cs) && b <= s
    requires SlotToEpoch(cs, s) + cs.minEpochsForBlobs < U64_LIMIT
    requires boundary == (SlotToEpoch(cs, s) - cs.minEpochsForBlobs) * cs.slotsPerEpoch
    ensures !WithinDAPeriod(cs, b, s) <==> b < boundary
  {
    var e, m := cs.slotsPerEpoch, cs.minEpochsForBlobs;
    EpochsMonotone(b, s, e);
    NoWrap(b / e + m);
    BelowMultiple(b, s / e - m, e);
  }

  /** The comparison with its overflow: the sum of epochs is cut to 64 bits before it is compared. */
  lemma {:induction false} WithinDAPeriodWrittenOut(cs: ChainSpec, b: U64, s: U64)
    requires 0 < cs.slotsPerEpoch
    ensures var sum := b / cs.slotsPerEpoch + cs.minEpochsForBlobs;
      WithinDAPeriod(cs, b, s) <==>
        s / cs.slotsPerEpoch <= if sum < 0x1_0000_0000_0000_0000 then sum else sum - 0x1_0000_0000_0000_0000
  {
    DivShrinks(b, cs.slotsPerEpoch);
    var sum := b / cs.slotsPerEpoch + cs.minEpochsForBlobs;
    if sum < U64_LIMIT {
      NoWrap(sum);
    } else {
      DivUnique(sum, U64_LIMIT, 1, sum - U64_LIMIT);
    }
  }

  /** The window is the product of its two settings, cut to 64 bits. */
  lemma {:induction false} WindowWrittenOut(cs: ChainSpec)
    ensures exists q: nat :: cs.minEpochsForBlobs * cs.slotsPerEpoch == q * 0x1_0000_0000_0000_0000 + Window(cs)
  {
    var product := cs.minEpochsForBlobs * cs.slotsPerEpoch;
    assert product == product / U64_LIMIT * U64_LIMIT + Window(cs);
  }

  lemma {:induction false} NoWrap(x: nat)
    requires x < U64_LIMIT
    ensures x % U64_LIMIT == x
  {
  }

  lemma {:induction false} BoundaryEpoch(s: nat, m: nat, e: nat)
    requires 0 < e && m * e <= s
    ensures m <= s / e
    ensures 0 <= s - m * e - s % e == (s / e - m) * e
  {
    var q := s / e;
    if q < m {
      MulStrictlyMonotone(q, m, e);
    }
    assert q * e - m * e == (q - m) * e;
  }

  lemma {:induction false} EpochsMonotone(b: nat, s: nat, e: nat)
    requires b <= s && 0 < e
    ensures b / e <= s / e
  {
    if s / e < b / e {
      MulStrictlyMonotone(s / e, b / e, e);
    }
  }

  lemma {:induction false} BelowMultiple(b: nat, k: int, e: nat)
    requires 0 < e
    ensures b / e < k <==> b < k * e
  {
    if b / e < k {
      MulStrictlyMonotone(b / e, k, e);
    } else {
      MulMonotone(k, b / e, e);
    }
  }

  // ------------------------------------------------------------ the indexed database

  type Entries = map<U64, map<Key, Value>>

  predicate HasEntry(db: Entries, index: U64, key: Key) {
    index in db && key in db[index]
  }

  function WithEntry(db: Entries, index: U64, key: Key, value: Value): Entries {
    db[index := (if index in db then db[index] else map[])[key := value]]
  }

  function Without(db: Entries, from: int, to: int): Entries {
    map i | i in db && !(from <= i < to) :: db[i]
  }

  datatype StoreError = RemoveFailed(index: U64) | NilSidecar | MarshalFailed | WriteFailed | ReadFailed

  /** Which keys the file system can read and write during one call. */
  datatype Disk = Disk(readable: Key -> bool, writable: Key -> bool)

  class RangeDB {
    var db: Entries
    var firstNonNilIndex: U64

    constructor ()
      ensures db == map[] && firstNonNilIndex == 0
    {
      db, firstNonNilIndex := map[], 0;
    }

    /** The stated invariant: no index below firstNonNilIndex is populated. */
    ghost predicate NothingBelowFirst()
      reads this
    {
      forall i :: i in db ==> firstNonNilIndex <= i
    }

    method Has(index: U64, key: Key, disk: Disk) returns (r: Result<bool, StoreError>)
      ensures r == if disk.readable(key) then Ok(HasEntry(db, index, key)) else Err(ReadFailed)
    {
      if !disk.readable(key) {
        return Err(ReadFailed);
      }
      return Ok(index in db && key in db[index]);
    }

    /** The mark is lowered before the write, and stays lowered if the write fails. */
    method Put(index: U64, key: Key, value: Value, disk: Disk) returns (failure: Option<StoreError>)
      modifies this
      ensures failure == if disk.writable(key) then None else Some(WriteFailed)
      ensures db == if failure.None? then WithEntry(old(db), index, key, value) else old(db)
      ensures firstNonNilIndex == Min(index, old(firstNonNilIndex))
      ensures old(NothingBelowFirst()) ==> NothingBelowFirst()
    {
      if index < firstNonNilIndex {
        firstNonNilIndex := index;
      }
      if !disk.writable(key) {
        return Some(WriteFailed);
      }
      var inner := if index in db then db[index] else map[];
      db := db[index := inner[key := value]];
      return None;
    }

    /** Removes one index after another; `bad` is an index whose removal fails, if any. */
    method DeleteRange(from: U64, to: U64, bad: Option<U64>) returns (failure: Option<StoreError>)
      modifies `db
      ensures failure == (if bad.Some? && from <= bad.value < to then Some(RemoveFailed(bad.value)) else None)
      ensures db == Without(old(db), from, if failure.Some? then bad.value else to)
    {
      var i: int := from;
      while i < to
        invariant from <= i <= Max(from, to)
        invariant bad.Some? ==> !(from <= bad.value < i)
        invariant db == Without(old(db), from, i)
      {
        if bad == Some(i) {
          return Some(RemoveFailed(i));
        }
        db := db - {i};
        i := i + 1;
      }
      assert to <= from ==> Without(old(db), from, to) == Without(old(db), from, i);
      return None;
    }

    /**
     Prune keeps the invariant exactly when nothing is populated between firstNonNilIndex and
     the requested start; a failed prune resets the index and always keeps it.
     */
    method Prune(start: U64, end: U64, bad: Option<U64>) returns (failure: Option<StoreError>)
      requires NothingBelowFirst()
      modifies this
      ensures failure.Some? ==> bad.Some? && start <= bad.value < end && firstNonNilIndex == 0
      ensures db == Without(old(db), Max(start, old(firstNonNilIndex)), if failure.Some? then bad.value else end)
      ensures failure.None? ==> firstNonNilIndex == end
      ensures NothingBelowFirst() <==>
        failure.Some? || !exists i :: i in old(db) && old(firstNonNilIndex) <= i < start && i < end
    {
      var from := Max(start, firstNonNilIndex);
      failure := DeleteRange(from, end, bad);
      if failure.Some? {
        firstNonNilIndex := 0;
        return;
      }
      firstNonNilIndex := end;
      assert forall i :: i in old(db) && old(firstNonNilIndex) <= i < start && i < end ==> i in db;
    }
  }

  /** Pruning from above a stored entry leaves that entry below the mark. */
  method LatePruneBreaksMark(key: Key, value: Value) returns (index: RangeDB)
    ensures fresh(index) && index.firstNonNilIndex == 3 && HasEntry(index.db, 1, key) && !index.NothingBelowFirst()
  {
    index := new RangeDB();
    var written := index.Put(1, key, value, Disk(_ => true, _ => true));
    var pruned := index.Prune(2, 3, None);
  }

  // ------------------------------------------------------------ the availability store

  datatype Sidecar = Sidecar(headerSlot: U64, commitment: Key, encoding: Option<Value>)

  ghost predicate Available(db: Entries, slot: U64, commitments: seq<Key>) {
    forall i :: 0 <= i < |commitments| ==> HasEntry(db, slot, commitments[i])
  }

  ghost predicate AllReadable(disk: Disk, commitments: seq<Key>) {
    forall i :: 0 <= i < |commitments| ==> disk.readable(commitments[i])
  }

  ghost predicate Contains(before: Entries, after: Entries) {
    forall i, k :: HasEntry(before, i, k) ==> HasEntry(after, i, k)
  }

  /** Persist has something to write: a first sidecar whose header is inside the availability period. */
  ghost predicate MustStore(cs: ChainSpec, slot: U64, sidecars: seq<Option<Sidecar>>)
    requires ValidSpec(cs)
  {
    sidecars != [] && sidecars[0].Some? && WithinDAPeriod(cs, sidecars[0].value.headerSlot, slot)
  }

  predicate Storable(disk: Disk, sc: Option<Sidecar>) {
    sc.Some? && sc.value.encoding.Some? && disk.writable(sc.value.commitment)
  }

  ghost predicate AllStorable(disk: Disk, sidecars: seq<Option<Sidecar>>) {
    forall i :: 0 <= i < |sidecars| ==> Storable(disk, sidecars[i])
  }

  /** Some sidecar that can be stored carries this commitment, and this encoding. */
  ghost predicate Carries(disk: Disk, sidecars: seq<Option<Sidecar>>, key: Key, value: Value) {
    exists i :: 0 <= i < |sidecars| && Storable(disk, sidecars[i])
                && sidecars[i].value.commitment == key && sidecars[i].value.encoding.value == value
  }

  function Entry(db: Entries, index: U64, key: Key): Option<Value> {
    if HasEntry(db, index, key) then Some(db[index][key]) else None
  }

  /** Under `slot` every carried commitment holds an encoding it came with; all else is as before. */
  ghost predicate Persisted(disk: Disk, before: Entries, after: Entries, slot: U64, sidecars: seq<Option<Sidecar>>) {
    && (forall i, k :: i != slot ==> Entry(after, i, k) == Entry(before, i, k))
    && (forall k, v :: Entry(after, slot, k) == Some(v) ==> Carries(disk, sidecars, k, v) || Entry(before, slot, k) == Some(v))
    && (forall k, v :: Carries(disk, sidecars, k, v) ==> HasEntry(after, slot, k) && Carries(disk, sidecars, k, after[slot][k]))
    && Contains(before, after)
  }

  lemma {:induction false} PersistOneMore(
    disk: Disk, before: Entries, middle: Entries, after: Entries, slot: U64, sidecars: seq<Option<Sidecar>>, sc: Option<Sidecar>)
    requires Persisted(disk, before, middle, slot, sidecars)
    requires !Storable(disk, sc) ==> after == middle
    requires Storable(disk, sc) ==> after == WithEntry(middle, slot, sc.value.commitment, sc.value.encoding.value)
    ensures Persisted(disk, before, after, slot, sidecars + [sc])
  {
    var more := sidecars + [sc];
    CarriesOneMore(disk, sidecars, sc);
    forall k, v | Carries(disk, more, k, v)
      ensures HasEntry(after, slot, k) && Carries(disk, more, k, after[slot][k])
    {
      if Storable(disk, sc) && sc.value.commitment == k {
        assert Carries(disk, more, k, sc.value.encoding.value);
      } else {
        assert Carries(disk, sidecars, k, v);
        assert Carries(disk, more, k, middle[slot][k]);
      }
    }
  }

  lemma {:induction false} CarriesOneMore(disk: Disk, sidecars: seq<Option<Sidecar>>, sc: Option<Sidecar>)
    ensures forall k, v :: Carries(disk, sidecars + [sc], k, v) <==>
      Carries(disk, sidecars, k, v) || (Storable(disk, sc) && sc.value.commitment == k && sc.value.encoding.value == v)
  {
    var more := sidecars + [sc];
    forall k, v
      ensures Carries(disk, more, k, v) <==>
        Carries(disk, sidecars, k, v) || (Storable(disk, sc) && sc.value.commitment == k && sc.value.encoding.value == v)
    {
      if Carries(disk, sidecars, k, v) {
        var i :| 0 <= i < |sidecars| && Storable(disk, sidecars[i])
                 && sidecars[i].value.commitment == k && sidecars[i].value.encoding.value == v;
        assert more[i] == sidecars[i];
      }
      if Storable(disk, sc) && sc.value.commitment == k && sc.value.encoding.value == v {
        assert more[|sidecars|] == sc;
      }
    }
  }

  class AvailabilityStore {
    const cs: ChainSpec
    const index: RangeDB

    constructor (cs: ChainSpec)
      requires ValidSpec(cs)
      ensures this.cs == cs && index.db == map[] && index.NothingBelowFirst()
    {
      this.cs := cs;
      index := new RangeDB();
    }

    /** A database error counts as missing data. */
    method IsDataAvailable(slot: U64, commitments: seq<Key>, disk: Disk) returns (ok: bool)
      ensures ok <==> AllReadable(disk, commitments) && Available(index.db, slot, commitments)
    {
      for i := 0 to |commitments|
        invariant forall j :: 0 <= j < i ==> disk.readable(commitments[j]) && HasEntry(index.db, slot, commitments[j])
      {
        var found := index.Has(slot, commitments[i], disk);
        if found.Err? || !found.value {
          return false;
        }
      }
      return true;
    }

    /**
     Persist writes every sidecar it can under the block's slot, whatever happens to the others,
     and nothing at all outside the data-availability period of the first sidecar's header.
     */
    method Persist(slot: U64, sidecars: seq<Option<Sidecar>>, disk: Disk) returns (errors: seq<StoreError>)
      requires ValidSpec(cs) && (sidecars == [] || sidecars[0].Some?) && index.NothingBelowFirst()
      modifies index
      ensures index.NothingBelowFirst()
      ensures errors == [] <==> (MustStore(cs, slot, sidecars) ==> AllStorable(disk, sidecars))
      ensures if MustStore(cs, slot, sidecars) then Persisted(disk, old(index.db), index.db, slot, sidecars)
              else index.db == old(index.db)
    {
      errors := [];
      if sidecars == [] || !WithinDAPeriod(cs, sidecars[0].value.headerSlot, slot) {
        return;
      }
      for i := 0 to |sidecars|
        invariant index.NothingBelowFirst()
        invariant errors == [] <==> AllStorable(disk, sidecars[..i])
        invariant Persisted(disk, old(index.db), index.db, slot, sidecars[..i])
      {
        ghost var before := index.db;
        assert sidecars[..i + 1] == sidecars[..i] + [sidecars[i]];
        if sidecars[i].None? {
          errors := errors + [NilSidecar];
        } else if sidecars[i].value.encoding.None? {
          errors := errors + [MarshalFailed];
        } else {
          var failure := index.Put(slot, sidecars[i].value.commitment, sidecars[i].value.encoding.value, disk);
          if failure.Some? {
            errors := errors + [failure.value];
          }
        }
        PersistOneMore(disk, old(index.db), before, index.db, slot, sidecars[..i], sidecars[i]);
      }
      assert sidecars[..|sidecars|] == sidecars;
    }

    /** The pruner's reaction to a finalised block; its range starts at zero, so the invariant is kept. */
    method OnFinalized(slot: U64, bad: Option<U64>) returns (failure: Option<StoreError>)
      requires index.NothingBelowFirst()
      modifies index
      ensures index.NothingBelowFirst()
      ensures forall i, k :: HasEntry(old(index.db), i, k) && PruneRange(cs, slot).1 <= i ==> HasEntry(index.db, i, k)
      ensures failure.None? ==> forall i :: i in index.db ==> PruneRange(cs, slot).1 <= i
      ensures forall i :: i in index.db ==> i in old(index.db) && index.db[i] == old(index.db)[i]
    {
      var range := PruneRange(cs, slot);
      failure := index.Prune(range.0, range.1, bad);
    }
  }

  // ------------------------------------------------------------ whole runs

  datatype Block = Block(slot: U64, commitments: seq<Key>)

  /** The pruner works on one event at a time, deleting index after index. */
  datatype Pruner = Waiting | Deleting(next: int, to: U64)

  /** What is stored, the database's low-water mark, the pruner, the accepted blocks and the newest slot. */
  datatype State = State(
    stored: iset<(U64, Key)>, first: U64, pruner: Pruner, accepted: seq<Block>, current: U64)

  datatype Step =
    | Write(slot: U64, key: Key)
    | Accept(block: Block)
    | StartPrune(event: nat)
    | DeleteNext
    | FailPrune
    | EndPrune

  /**
   Atomic steps. A persist writes one sidecar, for a slot no older than the newest. A block no older than it is
   accepted if all its commitments are stored. The pruner takes up the event of any block accepted
   so far, in any order and after any delay, then deletes one index at a time until it is done or
   the file system fails.
   */
  ghost predicate StepTo(cs: ChainSpec, s: State, step: Step, s': State) {
    match step
    case Write(slot, key) =>
      && s.current <= slot
      && s' == s.(stored := s.stored + iset{(slot, key)}, first := Min(slot, s.first))
    case Accept(block) =>
      && s.current <= block.slot
      && (forall i :: 0 <= i < |block.commitments| ==> (block.slot, block.commitments[i]) in s.stored)
      && s' == s.(accepted := s.accepted + [block], current := block.slot)
    case StartPrune(event) =>
      && s.pruner.Waiting? && event < |s.accepted|
      && var range := PruneRange(cs, s.accepted[event].slot);
         s' == s.(pruner := Deleting(Max(range.0, s.first), range.1))
    case DeleteNext =>
      && s.pruner.Deleting? && s.pruner.next < s.pruner.to
      && s' == s.(stored := (iset e | e in s.stored && e.0 != s.pruner.next),
                  pruner := Deleting(s.pruner.next + 1, s.pruner.to))
    case FailPrune =>
      s.pruner.Deleting? && s' == s.(first := 0, pruner := Waiting)
    case EndPrune =>
      s.pruner.Deleting? && s.pruner.to <= s.pruner.next && s' == s.(first := s.pruner.to, pruner := Waiting)
  }

  ghost predicate Next(cs: ChainSpec, s: State, s': State) {
    exists step :: StepTo(cs, s, step, s')
  }

  ghost predicate IsRun(cs: ChainSpec, run: seq<State>) {
    && 0 < |run| && run[0] == State(iset{}, 0, Waiting, [], 0)
    && forall i :: 0 < i < |run| ==> Next(cs, run[i - 1], run[i])
  }

  /** Every commitment of every accepted block inside the window is stored under that block's slot. */
  ghost predicate Retained(cs: ChainSpec, s: State) {
    forall b, i :: 0 <= b < |s.accepted| && 0 <= i < |s.accepted[b].commitments|
                   && s.current - Window(cs) <= s.accepted[b].slot ==>
      (s.accepted[b].slot, s.accepted[b].commitments[i]) in s.stored
  }

  /** No accepted block is newer than the newest, and the pruner never reaches into the window. */
  ghost predicate Behind(cs: ChainSpec, s: State) {
    && (forall b :: 0 <= b < |s.accepted| ==> s.accepted[b].slot <= s.current)
    && (s.pruner.Deleting? ==> s.pruner.to <= Max(0, s.current - Window(cs)))
  }

  /** The low-water mark is truthful, and so is the pruner's progress: nothing is stored below either. */
  ghost predicate Truthful(s: State) {
    && (forall e :: e in s.stored ==> s.first <= e.0)
    && (s.pruner.Deleting? ==> forall e :: e in s.stored ==> Min(s.pruner.next, s.pruner.to) <= e.0)
  }

  lemma {:induction false} StepRetains(cs: ChainSpec, s: State, step: Step, s': State)
    requires Retained(cs, s) && Behind(cs, s) && StepTo(cs, s, step, s')
    ensures Retained(cs, s') && Behind(cs, s')
  {
    match step
    case StartPrune(event) => assert s.accepted[event].slot <= s.current;
    case _ =>
  }

  lemma {:induction false} StepStaysTruthful(cs: ChainSpec, s: State, step: Step, s': State)
    requires Behind(cs, s) && Truthful(s) && StepTo(cs, s, step, s')
    ensures Truthful(s')
  {
  }

  /**
   Over every run and every interleaving with the pruner, nothing inside the window is ever lost,
   and nothing is stored below the low-water mark.
   */
  lemma {:induction false} RunsRetain(cs: ChainSpec, run: seq<State>, i: nat)
    requires IsRun(cs, run) && i < |run|
    ensures Retained(cs, run[i]) && Behind(cs, run[i]) && Truthful(run[i])
  {
    if i == 0 {
    } else {
      RunsRetain(cs, run, i - 1);
      assert Next(cs, run[i - 1], run[i]);
      var step :| StepTo(cs, run[i - 1], step, run[i]);
      StepRetains(cs, run[i - 1], step, run[i]);
      StepStaysTruthful(cs, run[i - 1], step, run[i]);
    }
  }

  /** When a prune ends, nothing is left below its bound, whatever was written meanwhile. */
  lemma {:induction false} EndedPruneIsComplete(cs: ChainSpec, run: seq<State>, i: nat, s': State)
    requires IsRun(cs, run) && i < |run| && StepTo(cs, run[i], EndPrune, s')
    ensures s'.first == run[i].pruner.to && forall e :: e in s'.stored ==> run[i].pruner.to <= e.0
  {
    RunsRetain(cs, run, i);
  }
}
