/**
 Deposits: fetching them block by block with retries, storing them by index and pruning what the
 chain has included (mod/execution/pkg/deposit/sync.go and pruner.go, mod/storage/pkg/deposit/store.go).
 */
module Deposits {
  import opened Bytes

  datatype Deposit = Deposit(index: U64, data: seq<Byte>)

  // ------------------------------------------------------------ the deposit store

  /** start + i in uint64 arithmetic */
  function Nth(start: U64, i: U64): U64 {
    if start + i < U64_LIMIT then start + i else start + i - U64_LIMIT
  }

  /** `k` is one of the `count` keys from `start` on, wrapping around. */
  predicate AmongNext(k: U64, start: U64, count: nat) {
    (if start <= k then k - start else k - start + U64_LIMIT) < count
  }

  lemma {:induction false} OneMoreKey(k: U64, start: U64, i: U64)
    ensures AmongNext(k, start, i + 1) <==> AmongNext(k, start, i) || k == Nth(start, i)
  {
  }

  /** The keys named by a prune range never wrap: they are the interval up to the last included index. */
  lemma {:induction false} PrunedKeys(indices: seq<nat>, maxDeposits: U64, k: U64)
    requires indices != [] && indices[|indices| - 1] < U64_LIMIT
    ensures var (start, count) := PruneRange(indices, maxDeposits);
      AmongNext(k, start, count) <==> indices[|indices| - 1] - maxDeposits <= k < indices[|indices| - 1]
  {
    PruneEndsAtLastIncluded(indices, maxDeposits);
  }

  predicate StoredAt(store: map<U64, Deposit>, index: int, deposit: Deposit) {
    index in store && store[index] == deposit
  }

  /** Writing deposits one after another, each under its own index. */
  function Stored(store: map<U64, Deposit>, deposits: seq<Deposit>): map<U64, Deposit> {
    if deposits == [] then store
    else
      var last := deposits[|deposits| - 1];
      Stored(store, deposits[..|deposits| - 1])[last.index := last]
  }

  lemma {:induction false} StoredKeys(store: map<U64, Deposit>, deposits: seq<Deposit>)
    ensures Stored(store, deposits).Keys == store.Keys + Indices(deposits)
    decreases |deposits|
  {
    if deposits == [] {
    } else {
      var front := deposits[..|deposits| - 1];
      StoredKeys(store, front);
      assert deposits == front + [deposits[|deposits| - 1]];
    }
  }

  /** The last of the deposits with an index is what is stored under it. */
  ghost predicate HoldsLast(deposits: seq<Deposit>, after: map<U64, Deposit>) {
    forall i :: 0 <= i < |deposits| && LastWithIndex(deposits, i) ==> StoredAt(after, deposits[i].index, deposits[i])
  }

  ghost predicate LastWithIndex(deposits: seq<Deposit>, i: nat)
    requires i < |deposits|
  {
    forall j :: i < j < |deposits| ==> deposits[j].index != deposits[i].index
  }

  /** Every other entry is as before. */
  ghost predicate KeepsOthers(before: map<U64, Deposit>, deposits: seq<Deposit>, after: map<U64, Deposit>) {
    forall k: U64 :: k !in Indices(deposits) ==>
      (k in after <==> k in before) && (k in before ==> StoredAt(after, k, before[k]))
  }

  lemma {:induction false} StoredHoldsLast(store: map<U64, Deposit>, deposits: seq<Deposit>)
    ensures HoldsLast(deposits, Stored(store, deposits))
    decreases |deposits|
  {
    if deposits != [] {
      var front, last := deposits[..|deposits| - 1], deposits[|deposits| - 1];
      StoredHoldsLast(store, front);
      forall i | 0 <= i < |deposits| && LastWithIndex(deposits, i)
        ensures StoredAt(Stored(store, deposits), deposits[i].index, deposits[i])
      {
        if i < |front| {
          LastInFront(deposits, i);
          assert StoredAt(Stored(store, front), front[i].index, front[i]);
        }
      }
    }
  }

  lemma {:induction false} LastInFront(deposits: seq<Deposit>, i: nat)
    requires i < |deposits| - 1 && LastWithIndex(deposits, i)
    ensures LastWithIndex(deposits[..|deposits| - 1], i)
    ensures deposits[i].index != deposits[|deposits| - 1].index
  {
  }

  lemma {:induction false} StoredKeepsOthers(store: map<U64, Deposit>, deposits: seq<Deposit>, k: U64)
    requires k !in Indices(deposits)
    ensures k in Stored(store, deposits) <==> k in store
    ensures k in store ==> StoredAt(Stored(store, deposits), k, store[k])
    decreases |deposits|
  {
    if deposits != [] {
      var front, last := deposits[..|deposits| - 1], deposits[|deposits| - 1];
      assert last.index in Indices(deposits);
      assert forall i :: 0 <= i < |front| ==> front[i].index == deposits[i].index && deposits[i].index in Indices(deposits);
      StoredKeepsOthers(store, front, k);
    }
  }

  /** Storing deposits: the last one with an index wins, and nothing else changes. */
  lemma {:induction false} StoredHolds(store: map<U64, Deposit>, deposits: seq<Deposit>)
    ensures HoldsLast(deposits, Stored(store, deposits))
    ensures KeepsOthers(store, deposits, Stored(store, deposits))
  {
    StoredHoldsLast(store, deposits);
    forall k: U64 | k !in Indices(deposits)
      ensures (k in Stored(store, deposits) <==> k in store) && (k in store ==> StoredAt(Stored(store, deposits), k, store[k]))
    {
      StoredKeepsOthers(store, deposits, k);
    }
  }

  class KVStore {
    var store: map<U64, Deposit>

    constructor ()
      ensures store == map[]
    {
      store := map[];
    }

    /**
     The consecutive deposits from `start`, at most `numView`, stopping without an error at the first
     missing index, and with one at an index that cannot be read.
     */
    method GetDepositsByIndex(start: U64, numView: U64, readable: U64 -> bool) returns (deposits: seq<Deposit>, ok: bool)
      ensures |deposits| <= numView
      ensures forall i :: 0 <= i < |deposits| ==> StoredAt(store, Nth(start, i), deposits[i]) && readable(Nth(start, i))
      ensures |deposits| < numView ==> !readable(Nth(start, |deposits|)) || Nth(start, |deposits|) !in store
      ensures ok <==> |deposits| == numView || readable(Nth(start, |deposits|))
    {
      deposits, ok := [], true;
      for i := 0 to numView
        invariant |deposits| == i && ok
        invariant forall j :: 0 <= j < i ==> StoredAt(store, Nth(start, j), deposits[j]) && readable(Nth(start, j))
      {
        if !readable(Nth(start, i)) {
          return deposits, false;
        }
        if Nth(start, i) !in store {
          return deposits, true;
        }
        deposits := deposits + [store[Nth(start, i)]];
      }
    }

    /** Writes deposits in order until one write fails; `good` is how many succeed. */
    method EnqueueDeposits(deposits: seq<Deposit>, good: nat) returns (ok: bool)
      modifies this
      ensures ok <==> |deposits| <= good
      ensures store == Stored(old(store), deposits[..Min(good, |deposits|)])
      ensures HoldsLast(deposits[..Min(good, |deposits|)], store)
      ensures KeepsOthers(old(store), deposits[..Min(good, |deposits|)], store)
    {
      ok := WriteDeposits(deposits, good);
      StoredHolds(old(store), deposits[..Min(good, |deposits|)]);
    }

    method WriteDeposits(deposits: seq<Deposit>, good: nat) returns (ok: bool)
      modifies this
      ensures ok <==> |deposits| <= good
      ensures store == Stored(old(store), deposits[..Min(good, |deposits|)])
    {
      for i := 0 to |deposits|
        invariant i <= good
        invariant store == Stored(old(store), deposits[..i])
      {
        if i == good {
          return false;
        }
        store := store[deposits[i].index := deposits[i]];
        assert deposits[..i + 1][..i] == deposits[..i];
      }
      assert deposits[..|deposits|] == deposits;
      return true;
    }

    /** Removes `count` keys from `start` on: the second argument is used as a count, not as an end. */
    method Prune(start: U64, count: U64)
      modifies this
      ensures store == map k | k in old(store) && !AmongNext(k, start, count) :: old(store)[k]
    {
      for i := 0 to count
        invariant store == map k | k in old(store) && !AmongNext(k, start, i) :: old(store)[k]
      {
        forall k: U64
          ensures AmongNext(k, start, i + 1) <==> AmongNext(k, start, i) || k == Nth(start, i)
        {
          OneMoreKey(k, start, i);
        }
        store := store - {Nth(start, i)};
      }
    }
  }

  ghost function Indices(deposits: seq<Deposit>): set<U64> {
    set i | 0 <= i < |deposits| :: deposits[i].index
  }

  // ------------------------------------------------------------ the prune range

  /** What a finalised block's deposits ask to prune; `indices` are the deposits' indices. */
  function PruneRange(indices: seq<nat>, maxDeposits: nat): (nat, nat) {
    if indices == [] then (0, 0)
    else
      var index := indices[|indices| - 1];
      var end := Min(index, maxDeposits);
      if index < maxDeposits then (0, end) else (index - maxDeposits, end)
  }

  /** Read as (start, count), the range always ends at the last included deposit. */
  lemma {:induction false} PruneEndsAtLastIncluded(indices: seq<nat>, maxDeposits: nat)
    requires indices != []
    ensures var (start, count) := PruneRange(indices, maxDeposits); start + count == indices[|indices| - 1]
  {
  }

  /** Read as [start, end), as the interface's comment has it, it would be empty from twice the maximum on. */
  lemma {:induction false} RangeReadingPrunesNothing(indices: seq<nat>, maxDeposits: nat)
    requires indices != [] && 2 * maxDeposits <= indices[|indices| - 1]
    ensures var (start, end) := PruneRange(indices, maxDeposits); end <= start
  {
  }

  function Total(counts: seq<nat>): nat {
    if counts == [] then 0 else Total(counts[..|counts| - 1]) + counts[|counts| - 1]
  }

  function Consecutive(first: nat, n: nat): (s: seq<nat>)
    ensures |s| == n
    ensures forall i :: 0 <= i < n ==> s[i] == first + i
  {
    if n == 0 then [] else Consecutive(first, n - 1) + [first + n - 1]
  }

  function Interval(start: nat, count: nat): (s: set<nat>)
    ensures forall k: nat :: k in s <==> start <= k < start + count
  {
    if count == 0 then {} else Interval(start, count - 1) + {start + count - 1}
  }

  /** The indices of the deposits in the last of these blocks: consecutive, after all earlier ones. */
  function LastBlockIndices(counts: seq<nat>): seq<nat>
    requires counts != []
  {
    Consecutive(Total(counts[..|counts| - 1]), counts[|counts| - 1])
  }

  /** Everything removed while the blocks with these deposit counts are finalised in turn. */
  function Removed(counts: seq<nat>, maxDeposits: nat): set<nat> {
    if counts == [] then {}
    else
      var (start, count) := PruneRange(LastBlockIndices(counts), maxDeposits);
      Removed(counts[..|counts| - 1], maxDeposits) + Interval(start, count)
  }

  /**
   Over every run of blocks with consecutive indices from 0 and at most the maximum each, exactly the
   deposits below the last included index have been pruned.
   */
  lemma {:induction false} PruningFollowsChain(counts: seq<nat>, maxDeposits: nat)
    requires forall i :: 0 <= i < |counts| ==> counts[i] <= maxDeposits
    ensures forall k: nat :: k in Removed(counts, maxDeposits) <==> k < Total(counts) - 1
    decreases |counts|
  {
    if counts == [] {
    } else {
      var front, m := counts[..|counts| - 1], counts[|counts| - 1];
      PruningFollowsChain(front, maxDeposits);
      if m > 0 {
        PruneEndsAtLastIncluded(LastBlockIndices(counts), maxDeposits);
        assert LastBlockIndices(counts)[m - 1] == Total(counts) - 1;
      }
    }
  }

  // ------------------------------------------------------------ one attempt, run to completion

  /** What the deposit contract and the store answer to one attempt. */
  datatype Attempt = Attempt(read: Option<seq<Deposit>>, good: nat)

  predicate Succeeds(a: Attempt) {
    a.read.Some? && |a.read.value| <= a.good
  }

  /** An attempt keeps what was stored, and a successful one adds all its deposits. */
  lemma {:induction false} AttemptKeys(store: map<U64, Deposit>, a: Attempt)
    requires a.read.Some?
    ensures var after := Stored(store, a.read.value[..Min(a.good, |a.read.value|)]);
      store.Keys <= after.Keys && (Succeeds(a) ==> Indices(a.read.value) <= after.Keys)
  {
    var deposits := a.read.value;
    StoredKeys(store, deposits[..Min(a.good, |deposits|)]);
    if Succeeds(a) {
      assert deposits[..|deposits|] == deposits;
    }
  }

  class Service {
    const ds: KVStore
    var failedBlocks: set<U64>

    constructor (ds: KVStore)
      ensures this.ds == ds && failedBlocks == {}
    {
      this.ds, failedBlocks := ds, {};
    }

    /** A block is taken off the failed set exactly when all its deposits have been stored. */
    method FetchAndStoreDeposits(block: U64, attempt: Attempt)
      modifies this, ds
      ensures failedBlocks == if Succeeds(attempt) then old(failedBlocks) - {block} else old(failedBlocks) + {block}
      ensures ds.store == if attempt.read.None? then old(ds.store)
                          else Stored(old(ds.store), attempt.read.value[..Min(attempt.good, |attempt.read.value|)])
    {
      if attempt.read.None? {
        failedBlocks := failedBlocks + {block};
        return;
      }
      var deposits := attempt.read.value;
      var ok := ds.EnqueueDeposits(deposits, attempt.good);
      if !ok {
        failedBlocks := failedBlocks + {block};
        return;
      }
      failedBlocks := failedBlocks - {block};
    }

    /** One tick of the catch-up worker: every failed block is retried, and exactly the successes leave. */
    method RetryFailed(attempts: U64 -> Attempt)
      modifies this, ds
      ensures failedBlocks == set b | b in old(failedBlocks) && !Succeeds(attempts(b))
      ensures old(ds.store).Keys <= ds.store.Keys
      ensures forall b :: b in old(failedBlocks) && b !in failedBlocks ==> Indices(attempts(b).read.value) <= ds.store.Keys
    {
      var pending := failedBlocks;
      while pending != {}
        invariant pending <= failedBlocks <= old(failedBlocks)
        invariant forall b :: b in failedBlocks && b !in pending ==> !Succeeds(attempts(b))
        invariant forall b :: b in old(failedBlocks) && b !in failedBlocks ==> Succeeds(attempts(b))
        invariant old(ds.store).Keys <= ds.store.Keys
        invariant forall b :: b in old(failedBlocks) && b !in failedBlocks ==>
          Indices(attempts(b).read.value) <= ds.store.Keys
        decreases pending
      {
        var block :| block in pending;
        ghost var before := ds.store;
        FetchAndStoreDeposits(block, attempts(block));
        if attempts(block).read.Some? {
          AttemptKeys(before, attempts(block));
        }
        pending := pending - {block};
      }
    }
  }

  // ------------------------------------------------------------ the two fetching workers

  /** Where a worker stands inside fetchAndStoreDeposits. */
  datatype Phase =
    | Idle
    | Reading(block: U64)
    | Read(block: U64)
    | Failing(block: U64)
    | Clearing(block: U64)

  datatype Worker = Fetcher | Catchup

  /**
   `events` are the finalised numbers taken up, `finished` the blocks whose attempt has ended,
   `enqueued` the blocks whose deposits were all stored, `keys` the deposit store's indices and
   `prunedBelow` the largest bound that has been pruned to.
   */
  datatype State = State(
    fetcher: Phase, catchup: Phase, failed: set<U64>,
    events: seq<U64>, finished: set<U64>, enqueued: set<U64>, keys: set<U64>, prunedBelow: nat)

  function PhaseOf(s: State, w: Worker): Phase {
    if w.Fetcher? then s.fetcher else s.catchup
  }

  function WithPhase(s: State, w: Worker, p: Phase): State {
    if w.Fetcher? then s.(fetcher := p) else s.(catchup := p)
  }

  datatype Step =
    | TakeEvent(number: U64)
    | Retry(block: U64)
    | ReadOk(w: Worker)
    | ReadError(w: Worker)
    | EnqueueOk(w: Worker)
    | EnqueueError(w: Worker, good: nat)
    | MarkFailed(w: Worker)
    | ClearFailed(w: Worker)
    | PruneStep(indices: seq<nat>, maxDeposits: nat)

  /** blockNum - eth1FollowDistance in uint64 arithmetic */
  function Followed(number: U64, distance: U64): U64 {
    (number - distance) % U64_LIMIT
  }

  /** A number below the follow distance wraps around. */
  lemma {:induction false} FollowedWrittenOut(number: U64, distance: U64)
    ensures Followed(number, distance) ==
      if distance <= number then number - distance else number - distance + 0x1_0000_0000_0000_0000
  {
  }

  /**
   Atomic steps of both workers and of the pruner. `contents` gives the deposits that reading a
   block yields; an enqueue that fails has written a prefix of them.
   */
  ghost predicate StepTo(contents: U64 -> seq<Deposit>, distance: U64, s: State, step: Step, s': State) {
    match step
    case TakeEvent(number) =>
      s.fetcher.Idle?
      && s' == s.(fetcher := Reading(Followed(number, distance)), events := s.events + [number])
    case Retry(block) =>
      s.catchup.Idle? && block in s.failed && s' == s.(catchup := Reading(block))
    case ReadOk(w) =>
      PhaseOf(s, w).Reading? && s' == WithPhase(s, w, Read(PhaseOf(s, w).block))
    case ReadError(w) =>
      PhaseOf(s, w).Reading? && s' == WithPhase(s, w, Failing(PhaseOf(s, w).block))
    case EnqueueOk(w) =>
      && PhaseOf(s, w).Read?
      && var b := PhaseOf(s, w).block;
         s' == WithPhase(s, w, Clearing(b)).(enqueued := s.enqueued + {b}, keys := s.keys + Indices(contents(b)))
    case EnqueueError(w, good) =>
      && PhaseOf(s, w).Read?
      && var b := PhaseOf(s, w).block;
         good < |contents(b)|
         && s' == WithPhase(s, w, Failing(b)).(keys := s.keys + Indices(contents(b)[..good]))
    case MarkFailed(w) =>
      && PhaseOf(s, w).Failing?
      && var b := PhaseOf(s, w).block;
         s' == WithPhase(s, w, Idle).(failed := s.failed + {b}, finished := s.finished + {b})
    case ClearFailed(w) =>
      && PhaseOf(s, w).Clearing?
      && var b := PhaseOf(s, w).block;
         s' == WithPhase(s, w, Idle).(failed := s.failed - {b}, finished := s.finished + {b})
    case PruneStep(indices, maxDeposits) =>
      var (start, count) := PruneRange(indices, maxDeposits);
      s' == s.(keys := (set k | k in s.keys && !(start <= k < start + count)),
               prunedBelow := Max(s.prunedBelow, start + count))
  }

  ghost predicate Next(contents: U64 -> seq<Deposit>, distance: U64, s: State, s': State) {
    exists step :: StepTo(contents, distance, s, step, s')
  }

  ghost predicate IsRun(contents: U64 -> seq<Deposit>, distance: U64, run: seq<State>) {
    && 0 < |run| && run[0] == State(Idle, Idle, {}, [], {}, {}, {}, 0)
    && forall i :: 0 < i < |run| ==> Next(contents, distance, run[i - 1], run[i])
  }

  /** A finished attempt left its block enqueued or marked for retry. */
  ghost predicate NothingForgotten(s: State) {
    && s.finished <= s.enqueued + s.failed
    && (s.fetcher.Clearing? ==> s.fetcher.block in s.enqueued)
    && (s.catchup.Clearing? ==> s.catchup.block in s.enqueued)
  }

  /** Every event's block has been attempted to the end, or is the fetcher's current one. */
  ghost predicate EventsAttempted(distance: U64, s: State) {
    forall i :: 0 <= i < |s.events| ==>
      Followed(s.events[i], distance) in s.finished
      || (!s.fetcher.Idle? && s.fetcher.block == Followed(s.events[i], distance))
  }

  /** Every deposit of an enqueued block is still stored, or lies below what the chain has pruned. */
  ghost predicate DepositsKept(contents: U64 -> seq<Deposit>, s: State) {
    forall b, i :: b in s.enqueued && 0 <= i < |contents(b)| ==>
      contents(b)[i].index in s.keys || contents(b)[i].index < s.prunedBelow
  }

  ghost predicate Invariant(contents: U64 -> seq<Deposit>, distance: U64, s: State) {
    NothingForgotten(s) && EventsAttempted(distance, s) && DepositsKept(contents, s)
  }

  lemma {:induction false} StepForgetsNothing(
    contents: U64 -> seq<Deposit>, distance: U64, s: State, step: Step, s': State)
    requires NothingForgotten(s) && EventsAttempted(distance, s) && StepTo(contents, distance, s, step, s')
    ensures NothingForgotten(s') && EventsAttempted(distance, s')
  {
  }

  lemma {:induction false} StepKeepsDeposits(
    contents: U64 -> seq<Deposit>, distance: U64, s: State, step: Step, s': State)
    requires DepositsKept(contents, s) && StepTo(contents, distance, s, step, s')
    ensures DepositsKept(contents, s')
  {
    forall b, i | b in s'.enqueued && 0 <= i < |contents(b)|
      ensures contents(b)[i].index in s'.keys || contents(b)[i].index < s'.prunedBelow
    {
      if step.EnqueueOk? && b !in s.enqueued {
        assert contents(b)[i].index in Indices(contents(b));
      } else {
        assert b in s.enqueued;
      }
    }
  }

  /** In every interleaving of fetcher, catch-up worker and pruner, no block and no deposit is forgotten. */
  lemma {:induction false} RunsForgetNothing(contents: U64 -> seq<Deposit>, distance: U64, run: seq<State>, i: nat)
    requires IsRun(contents, distance, run) && i < |run|
    ensures Invariant(contents, distance, run[i])
  {
    if i == 0 {
    } else {
      RunsForgetNothing(contents, distance, run, i - 1);
      assert Next(contents, distance, run[i - 1], run[i]);
      var step :| StepTo(contents, distance, run[i - 1], step, run[i]);
      StepForgetsNothing(contents, distance, run[i - 1], step, run[i]);
      StepKeepsDeposits(contents, distance, run[i - 1], step, run[i]);
    }
  }

  /**
   When the failed set is empty and the fetcher is between events, every finalised number at or above
   the follow distance has had the block that far behind it enqueued, and every deposit of that block
   is stored unless the chain has moved past it.
   */
  lemma {:induction false} CaughtUp(contents: U64 -> seq<Deposit>, distance: U64, run: seq<State>, i: nat, e: nat)
    requires IsRun(contents, distance, run) && i < |run|
    requires run[i].failed == {} && run[i].fetcher.Idle? && e < |run[i].events| && distance <= run[i].events[e]
    ensures run[i].events[e] - distance in run[i].enqueued
    ensures forall d :: d in contents(run[i].events[e] - distance) ==>
      d.index in run[i].keys || d.index < run[i].prunedBelow
  {
    RunsForgetNothing(contents, distance, run, i);
    assert Followed(run[i].events[e], distance) == run[i].events[e] - distance;
  }
}
