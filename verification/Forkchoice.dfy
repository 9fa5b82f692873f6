/**
 The forkchoice updates a node sends over a run: at startup, after a block, optimistically for
 the next slot, after a rejected block and when proposing
 (mod/beacon/blockchain/execution_engine.go, mod/beacon/blockchain/payload.go,
 mod/beacon/validator/propose.go, mod/payload/pkg/builder/payload.go). Clock readings are inputs.
 */
module Forkchoice {
  import opened Bytes

  type Hash = seq<Byte>

  /** What the updates use of the execution payload in a block. */
  datatype Payload = Payload(hash: Hash, parent: Hash, timestamp: U64)

  /** What they use of the latest execution payload header, which the beacon state holds. */
  datatype Header = Header(hash: Hash, parent: Hash, timestamp: U64)

  function ToHeader(p: Payload): Header {
    Header(p.hash, p.parent, p.timestamp)
  }

  /** ForkchoiceStateV1, and the timestamp of the attributes if there are any. */
  datatype Update = Update(head: Hash, safe: Hash, finalized: Hash, attributes: Option<U64>)

  /** max(clock, timestamp + 1) in uint64 arithmetic. */
  function NextTimestamp(clock: U64, timestamp: U64): U64 {
    Max(clock, (timestamp + 1) % U64_LIMIT)
  }

  /**
   A timestamp for the next payload: the later of the clock's reading and the second after the
   head's, or the clock's reading if that second cannot be represented.
   */
  ghost predicate IsNextTimestamp(t: U64, clock: U64, timestamp: U64) {
    && clock <= t
    && (timestamp < 0xFFFF_FFFF_FFFF_FFFF ==> timestamp + 1 <= t && (t == clock || t == timestamp + 1))
    && (timestamp == 0xFFFF_FFFF_FFFF_FFFF ==> t == clock)
  }

  /** That is what is computed; it exceeds the head's timestamp exactly when the increment does not overflow. */
  lemma {:induction false} NextTimestampExceeds(clock: U64, timestamp: U64)
    ensures forall t: U64 :: IsNextTimestamp(t, clock, timestamp) <==> t == NextTimestamp(clock, timestamp)
    ensures NextTimestamp(clock, timestamp) > timestamp <==> timestamp + 1 < U64_LIMIT
  {
  }

  // ------------------------------------------------------------ the five senders

  function StartupUpdate(lph: Header): Update {
    Update(lph.hash, lph.parent, lph.parent, None)
  }

  /** The hashes come from the state, the timestamp from the block; attributes only if this node builds here. */
  function PostBlockUpdate(optimistic: bool, builder: bool, lph: Header, block: Payload, clock: U64): Update {
    Update(lph.hash, lph.parent, lph.parent,
           if !(optimistic && builder) && builder then Some(NextTimestamp(clock, block.timestamp)) else None)
  }

  function OptimisticUpdate(block: Payload, clock: U64): Update {
    Update(block.hash, block.parent, block.parent, Some(NextTimestamp(clock, block.timestamp)))
  }

  function RebuildUpdate(lph: Header, clock: U64): Update {
    Update(lph.hash, lph.hash, lph.hash, Some(NextTimestamp(clock, lph.timestamp)))
  }

  function ProposeUpdate(lph: Header, clock: U64): Update {
    Update(lph.hash, lph.parent, lph.parent, Some(NextTimestamp(clock, lph.timestamp)))
  }

  // ------------------------------------------------------------ runs

  datatype Step =
    | Finalize(payload: Payload)
    | Startup
    | PostBlock(height: nat, clock: U64)
    | Optimistic(candidate: Payload, base: nat, clock: U64)
    | Rebuild(height: nat, clock: U64)
    | Propose(clock: U64)

  /** The step that sent an update, and the height of the newest finalised payload at that time. */
  datatype Mark = Mark(step: Step, tip: int)

  /**
   The finalised payloads, oldest first; the header the state held after each of them; the updates
   sent so far, and where each came from.
   */
  datatype State = State(chain: seq<Payload>, headers: seq<Header>, sent: seq<Update>, trail: seq<Mark>)

  function Sent(s: State, step: Step, u: Update): State {
    s.(sent := s.sent + [u], trail := s.trail + [Mark(step, |s.chain| - 1)])
  }

  /**
   A block's parent hash is checked against the header in the state, whose place its own header
   then takes. Post-block, optimistic and rebuild updates run in goroutines of their own and may be
   sent late, with the state and the block of any height reached so far; there is no block at
   height zero. A candidate has passed the parent check against the state it was verified on.
   */
  ghost predicate StepTo(optimistic: bool, builder: bool, s: State, step: Step, s': State) {
    && s.chain != [] && |s.headers| == |s.chain|
    && var latest := s.headers[|s.headers| - 1];
       match step
       case Finalize(payload) =>
         && payload.parent == latest.hash
         && s' == s.(chain := s.chain + [payload], headers := s.headers + [ToHeader(payload)])
       case Startup =>
         s' == Sent(s, step, StartupUpdate(latest))
       case PostBlock(height, clock) =>
         && 0 < height < |s.chain|
         && s' == Sent(s, step, PostBlockUpdate(optimistic, builder, s.headers[height], s.chain[height], clock))
       case Optimistic(candidate, base, clock) =>
         && base < |s.chain| && candidate.parent == s.headers[base].hash
         && s' == Sent(s, step, OptimisticUpdate(candidate, clock))
       case Rebuild(height, clock) =>
         height < |s.chain| && s' == Sent(s, step, RebuildUpdate(s.headers[height], clock))
       case Propose(clock) =>
         s' == Sent(s, step, ProposeUpdate(latest, clock))
  }

  ghost predicate Next(optimistic: bool, builder: bool, s: State, s': State) {
    exists step :: StepTo(optimistic, builder, s, step, s')
  }

  function Initial(genesis: Payload): State {
    State([genesis], [ToHeader(genesis)], [], [])
  }

  ghost predicate IsRun(optimistic: bool, builder: bool, run: seq<State>) {
    && 0 < |run| && run[0].chain != [] && run[0] == Initial(run[0].chain[0])
    && forall i :: 0 < i < |run| ==> Next(optimistic, builder, run[i - 1], run[i])
  }

  // ------------------------------------------------------------ what every update satisfies

  /** The hash a height was finalised under; height -1 is the parent of the genesis payload. */
  function HashAt(chain: seq<Payload>, height: int): Hash
    requires chain != [] && -1 <= height < |chain|
  {
    if height == -1 then chain[0].parent else chain[height].hash
  }

  ghost predicate MarkInside(m: Mark, length: nat) {
    && 0 <= m.tip < length
    && match m.step
       case Finalize(_) => false
       case PostBlock(height, _) => 0 < height <= m.tip
       case Optimistic(_, base, _) => base <= m.tip
       case Rebuild(height, _) => height <= m.tip
       case _ => true
  }

  /** The payload an update makes the head. */
  function Subject(chain: seq<Payload>, m: Mark): Payload
    requires MarkInside(m, |chain|)
  {
    match m.step
    case PostBlock(height, _) => chain[height]
    case Optimistic(candidate, _, _) => candidate
    case Rebuild(height, _) => chain[height]
    case _ => chain[m.tip]
  }

  /** The height that an update finalises. */
  function FinalizedHeight(m: Mark): int {
    match m.step
    case PostBlock(height, _) => height - 1
    case Optimistic(_, base, _) => base
    case Rebuild(height, _) => height
    case _ => m.tip - 1
  }

  /** The clock reading that a step was given. */
  function ClockOf(step: Step): U64 {
    match step
    case PostBlock(_, clock) => clock
    case Optimistic(_, _, clock) => clock
    case Rebuild(_, clock) => clock
    case Propose(clock) => clock
    case _ => 0
  }

  /** Who asks for a payload: all but the startup update, and after a block only a builder without optimistic builds. */
  predicate AsksForPayload(optimistic: bool, builder: bool, step: Step) {
    step.Optimistic? || step.Rebuild? || step.Propose? || (step.PostBlock? && builder && !optimistic)
  }

  /**
   One hash is both safe and finalized, it was finalised by the chain, and it is the head's or its
   parent's. There are attributes exactly when a payload is asked for, timed by the sender's clock
   and the head: later than the head unless its timestamp is the last representable one.
   */
  ghost predicate GoodUpdate(optimistic: bool, builder: bool, chain: seq<Payload>, m: Mark, u: Update)
    requires MarkInside(m, |chain|)
  {
    var p := Subject(chain, m);
    && u.head == p.hash
    && u.safe == u.finalized == HashAt(chain, FinalizedHeight(m))
    && (u.finalized == p.hash || u.finalized == p.parent)
    && (u.attributes.Some? <==> AsksForPayload(optimistic, builder, m.step))
    && (u.attributes.Some? ==> IsNextTimestamp(u.attributes.value, ClockOf(m.step), p.timestamp))
  }

  /** Each payload's parent is the previous payload, and each header in the state is its block's. */
  ghost predicate Linked(chain: seq<Payload>, headers: seq<Header>) {
    && chain != [] && |headers| == |chain|
    && (forall i :: 0 <= i < |chain| ==> headers[i] == ToHeader(chain[i]))
    && (forall i :: 0 < i < |chain| ==> chain[i].parent == chain[i - 1].hash)
  }

  ghost predicate AllGood(optimistic: bool, builder: bool, s: State) {
    && Linked(s.chain, s.headers) && |s.trail| == |s.sent|
    && (forall k :: 0 <= k < |s.sent| ==> MarkInside(s.trail[k], |s.chain|) && GoodUpdate(optimistic, builder, s.chain, s.trail[k], s.sent[k]))
    && (forall j, k :: 0 <= j < k < |s.trail| ==> s.trail[j].tip <= s.trail[k].tip)
  }

  lemma {:induction false} GoodUpdateStays(optimistic: bool, builder: bool, chain: seq<Payload>, p: Payload, m: Mark, u: Update)
    requires MarkInside(m, |chain|) && GoodUpdate(optimistic, builder, chain, m, u)
    ensures GoodUpdate(optimistic, builder, chain + [p], m, u)
  {
    assert Subject(chain + [p], m) == Subject(chain, m);
    assert HashAt(chain + [p], FinalizedHeight(m)) == HashAt(chain, FinalizedHeight(m));
  }

  /** Whichever step sends an update, it is good for the chain of that time. */
  lemma {:induction false} StepSendsGood(optimistic: bool, builder: bool, s: State, step: Step, s': State)
    requires Linked(s.chain, s.headers) && !step.Finalize? && StepTo(optimistic, builder, s, step, s')
    ensures var m := Mark(step, |s.chain| - 1);
      && MarkInside(m, |s.chain|)
      && s'.chain == s.chain && s'.trail == s.trail + [m]
      && exists u :: s'.sent == s.sent + [u] && GoodUpdate(optimistic, builder, s.chain, m, u)
  {
    var m := Mark(step, |s.chain| - 1);
    assert s'.sent[..|s.sent|] == s.sent;
    var u := s'.sent[|s.sent|];
    NextTimestampExceeds(ClockOf(step), Subject(s.chain, m).timestamp);
    assert GoodUpdate(optimistic, builder, s.chain, m, u);
  }

  lemma {:induction false} FinalizeKeepsGood(optimistic: bool, builder: bool, s: State, p: Payload)
    requires AllGood(optimistic, builder, s) && p.parent == s.headers[|s.headers| - 1].hash
    ensures AllGood(optimistic, builder, s.(chain := s.chain + [p], headers := s.headers + [ToHeader(p)]))
  {
    forall k | 0 <= k < |s.sent|
      ensures GoodUpdate(optimistic, builder, s.chain + [p], s.trail[k], s.sent[k])
    {
      GoodUpdateStays(optimistic, builder, s.chain, p, s.trail[k], s.sent[k]);
    }
  }

  lemma {:induction false} SendKeepsGood(optimistic: bool, builder: bool, s: State, m: Mark, u: Update)
    requires AllGood(optimistic, builder, s) && m.tip == |s.chain| - 1
    requires MarkInside(m, |s.chain|) && GoodUpdate(optimistic, builder, s.chain, m, u)
    ensures AllGood(optimistic, builder, s.(sent := s.sent + [u], trail := s.trail + [m]))
  {
    forall j | 0 <= j < |s.trail|
      ensures s.trail[j].tip <= m.tip
    {
      assert MarkInside(s.trail[j], |s.chain|);
    }
  }

  lemma {:induction false} StepKeepsGood(optimistic: bool, builder: bool, s: State, step: Step, s': State)
    requires AllGood(optimistic, builder, s) && StepTo(optimistic, builder, s, step, s')
    ensures AllGood(optimistic, builder, s')
  {
    if step.Finalize? {
      FinalizeKeepsGood(optimistic, builder, s, step.payload);
    } else {
      var m := Mark(step, |s.chain| - 1);
      StepSendsGood(optimistic, builder, s, step, s');
      var u :| s'.sent == s.sent + [u] && GoodUpdate(optimistic, builder, s.chain, m, u);
      SendKeepsGood(optimistic, builder, s, m, u);
    }
  }

  /** Over every run, whatever lags, every update ever sent is good, for the final chain too. */
  lemma {:induction false} EveryUpdateIsGood(optimistic: bool, builder: bool, run: seq<State>, i: nat)
    requires IsRun(optimistic, builder, run) && i < |run|
    ensures AllGood(optimistic, builder, run[i])
  {
    if i == 0 {
    } else {
      EveryUpdateIsGood(optimistic, builder, run, i - 1);
      assert Next(optimistic, builder, run[i - 1], run[i]);
      var step :| StepTo(optimistic, builder, run[i - 1], step, run[i]);
      StepKeepsGood(optimistic, builder, run[i - 1], step, run[i]);
    }
  }

  // ------------------------------------------------------------ when finality moves back

  /** How far behind the tip the state was that an update was built from. */
  function Lag(m: Mark): int {
    match m.step
    case PostBlock(height, _) => m.tip - height
    case Optimistic(_, base, _) => m.tip - base
    case Rebuild(height, _) => m.tip - height
    case _ => 0
  }

  /** Startup, post-block and propose updates finalise the parent of the payload in that state. */
  predicate NamesParent(m: Mark) {
    m.step.Startup? || m.step.PostBlock? || m.step.Propose?
  }

  function Depth(m: Mark): int {
    Lag(m) + if NamesParent(m) then 1 else 0
  }

  /**
   Over every run: the finalized height moves back between two updates exactly when the chain grew
   by less, in between, than the second is deeper below its tip than the first; so it moves back by
   at most one more than the second's lag.
   */
  lemma {:induction false} FinalityMovesBackExactly(optimistic: bool, builder: bool, run: seq<State>, i: nat, j: nat, k: nat)
    requires IsRun(optimistic, builder, run) && i < |run| && j < k < |run[i].sent|
    ensures AllGood(optimistic, builder, run[i])
    ensures var s := run[i];
      var first, second := FinalizedHeight(s.trail[j]), FinalizedHeight(s.trail[k]);
      && s.sent[j].finalized == HashAt(s.chain, first) && s.sent[k].finalized == HashAt(s.chain, second)
      && (second < first <==> s.trail[k].tip - s.trail[j].tip < Depth(s.trail[k]) - Depth(s.trail[j]))
      && first - second <= Lag(s.trail[k]) + 1
  {
    EveryUpdateIsGood(optimistic, builder, run, i);
    assert GoodUpdate(optimistic, builder, run[i].chain, run[i].trail[j], run[i].sent[j]);
    assert GoodUpdate(optimistic, builder, run[i].chain, run[i].trail[k], run[i].sent[k]);
  }

  /** Between updates that do not lag: exactly from a rebuild or optimistic one to another kind at the same tip. */
  lemma {:induction false} PromptFinalityMovesBackExactly(
    optimistic: bool, builder: bool, run: seq<State>, i: nat, j: nat, k: nat)
    requires IsRun(optimistic, builder, run) && i < |run| && j < k < |run[i].sent|
    ensures AllGood(optimistic, builder, run[i])
    ensures var first, second := run[i].trail[j], run[i].trail[k];
      Lag(first) == 0 == Lag(second) ==>
        (FinalizedHeight(second) < FinalizedHeight(first) <==>
           && first.tip == second.tip
           && (first.step.Optimistic? || first.step.Rebuild?)
           && (second.step.Startup? || second.step.PostBlock? || second.step.Propose?))
  {
    FinalityMovesBackExactly(optimistic, builder, run, i, j, k);
  }

  lemma {:induction false} Continue(optimistic: bool, builder: bool, run: seq<State>, step: Step, s: State)
    returns (longer: seq<State>)
    requires IsRun(optimistic, builder, run) && StepTo(optimistic, builder, run[|run| - 1], step, s)
    ensures IsRun(optimistic, builder, longer) && longer[|longer| - 1] == s
  {
    assert Next(optimistic, builder, run[|run| - 1], s);
    longer := run + [s];
  }

  /** A run that finalises a given chain block by block. */
  lemma {:induction false} FinalizeAll(optimistic: bool, builder: bool, chain: seq<Payload>) returns (run: seq<State>)
    requires chain != [] && forall i :: 0 < i < |chain| ==> chain[i].parent == chain[i - 1].hash
    ensures IsRun(optimistic, builder, run)
    ensures var s := run[|run| - 1]; s.chain == chain && s.sent == [] && s.trail == [] && Linked(s.chain, s.headers)
    decreases |chain|
  {
    if |chain| == 1 {
      run := [Initial(chain[0])];
      assert chain == [chain[0]];
    } else {
      var front, last := chain[..|chain| - 1], chain[|chain| - 1];
      run := FinalizeAll(optimistic, builder, front);
      var s := run[|run| - 1];
      var s' := s.(chain := s.chain + [last], headers := s.headers + [ToHeader(last)]);
      assert last.parent == s.headers[|s.headers| - 1].hash;
      assert chain == front + [last];
      run := Continue(optimistic, builder, run, Finalize(last), s');
    }
  }

  /** On every chain, a rebuild followed by a proposal moves the finalized height back by one. */
  lemma {:induction false} FinalityMayMoveBack(chain: seq<Payload>, clock: U64)
    requires chain != [] && forall i :: 0 < i < |chain| ==> chain[i].parent == chain[i - 1].hash
    ensures exists run: seq<State> ::
      IsRun(true, true, run) && FinalizedHeights(run, [|chain| - 1, |chain| - 2])
  {
    var run := FinalizeAll(true, true, chain);
    var s := run[|run| - 1];
    var tip, lph := |chain| - 1, s.headers[|chain| - 1];
    var s1 := Sent(s, Rebuild(tip, clock), RebuildUpdate(lph, clock));
    var s2 := Sent(s1, Propose(clock), ProposeUpdate(lph, clock));
    run := Continue(true, true, run, Rebuild(tip, clock), s1);
    run := Continue(true, true, run, Propose(clock), s2);
    assert s2.trail == [Mark(Rebuild(tip, clock), tip), Mark(Propose(clock), tip)];
  }

  /** With a post-block update as late as can be, it moves back by the whole chain: no bound holds for all runs. */
  lemma {:induction false} LateUpdateMovesBackAnyDistance(chain: seq<Payload>, clock: U64)
    requires 1 < |chain| && forall i :: 0 < i < |chain| ==> chain[i].parent == chain[i - 1].hash
    ensures exists run: seq<State> ::
      IsRun(true, true, run) && FinalizedHeights(run, [|chain| - 1, 0])
  {
    var run := FinalizeAll(true, true, chain);
    var s := run[|run| - 1];
    var tip := |chain| - 1;
    var s1 := Sent(s, Rebuild(tip, clock), RebuildUpdate(s.headers[tip], clock));
    var s2 := Sent(s1, PostBlock(1, clock), PostBlockUpdate(true, true, s.headers[1], s.chain[1], clock));
    run := Continue(true, true, run, Rebuild(tip, clock), s1);
    run := Continue(true, true, run, PostBlock(1, clock), s2);
    assert s2.trail == [Mark(Rebuild(tip, clock), tip), Mark(PostBlock(1, clock), tip)];
  }

  /** The heights that the updates of a run finalised, in order. */
  ghost predicate FinalizedHeights(run: seq<State>, heights: seq<int>)
    requires run != []
  {
    var s := run[|run| - 1];
    |s.trail| == |heights| && forall k :: 0 <= k < |heights| ==> FinalizedHeight(s.trail[k]) == heights[k]
  }

  // ------------------------------------------------------------ the node

  /** The senders themselves; each realises a step of the run model and keeps every update good. */
  class Node {
    const optimisticBuilds: bool
    const builderEnabled: bool
    var chain: seq<Payload>
    var headers: seq<Header>
    var sent: seq<Update>
    ghost var trail: seq<Mark>

    ghost function Now(): State
      reads this
    {
      State(chain, headers, sent, trail)
    }

    ghost predicate Valid()
      reads this
    {
      AllGood(optimisticBuilds, builderEnabled, Now())
    }

    constructor (genesis: Payload, optimisticBuilds: bool, builderEnabled: bool)
      ensures Valid() && Now() == Initial(genesis)
      ensures this.optimisticBuilds == optimisticBuilds && this.builderEnabled == builderEnabled
    {
      this.optimisticBuilds, this.builderEnabled := optimisticBuilds, builderEnabled;
      chain, headers, sent, trail := [genesis], [ToHeader(genesis)], [], [];
    }

    /** The part of a state transition that matters here: the parent check and the new header. */
    method ProcessPayload(payload: Payload) returns (ok: bool)
      requires Valid()
      modifies this
      ensures Valid()
      ensures if ok then StepTo(optimisticBuilds, builderEnabled, old(Now()), Finalize(payload), Now()) else Now() == old(Now())
      ensures ok <==> payload.parent == old(chain[|chain| - 1]).hash
    {
      var lph := headers[|headers| - 1];
      if lph.hash != payload.parent {
        return false;
      }
      chain, headers := chain + [payload], headers + [Header(payload.hash, payload.parent, payload.timestamp)];
      StepKeepsGood(optimisticBuilds, builderEnabled, old(Now()), Finalize(payload), Now());
      return true;
    }

    method SendForceHeadFCU()
      requires Valid()
      modifies `sent, `trail
      ensures Valid() && StepTo(optimisticBuilds, builderEnabled, old(Now()), Startup, Now())
    {
      var lph := headers[|headers| - 1];
      sent := sent + [Update(lph.hash, lph.parent, lph.parent, None)];
      trail := trail + [Mark(Startup, |chain| - 1)];
      StepKeepsGood(optimisticBuilds, builderEnabled, old(Now()), Startup, Now());
    }

    method SendPostBlockFCU(height: nat, clock: U64)
      requires Valid() && 0 < height < |chain|
      modifies `sent, `trail
      ensures Valid() && StepTo(optimisticBuilds, builderEnabled, old(Now()), PostBlock(height, clock), Now())
    {
      var lph, blk := headers[height], chain[height];
      var shouldBuildOptimistic := optimisticBuilds && builderEnabled;
      if !shouldBuildOptimistic && builderEnabled {
        sent := sent + [Update(lph.hash, lph.parent, lph.parent, Some(NextTimestamp(clock, blk.timestamp)))];
      } else {
        sent := sent + [Update(lph.hash, lph.parent, lph.parent, None)];
      }
      trail := trail + [Mark(PostBlock(height, clock), |chain| - 1)];
      StepKeepsGood(optimisticBuilds, builderEnabled, old(Now()), PostBlock(height, clock), Now());
    }

    method OptimisticPayloadBuild(candidate: Payload, base: nat, clock: U64)
      requires Valid() && base < |chain| && candidate.parent == headers[base].hash
      modifies `sent, `trail
      ensures Valid() && StepTo(optimisticBuilds, builderEnabled, old(Now()), Optimistic(candidate, base, clock), Now())
    {
      var timestamp := NextTimestamp(clock, candidate.timestamp);
      sent := sent + [Update(candidate.hash, candidate.parent, candidate.parent, Some(timestamp))];
      trail := trail + [Mark(Optimistic(candidate, base, clock), |chain| - 1)];
      StepKeepsGood(optimisticBuilds, builderEnabled, old(Now()), Optimistic(candidate, base, clock), Now());
    }

    method RebuildPayloadForRejectedBlock(height: nat, clock: U64)
      requires Valid() && height < |chain|
      modifies `sent, `trail
      ensures Valid() && StepTo(optimisticBuilds, builderEnabled, old(Now()), Rebuild(height, clock), Now())
    {
      var lph := headers[height];
      var timestamp := NextTimestamp(clock, lph.timestamp);
      sent := sent + [Update(lph.hash, lph.hash, lph.hash, Some(timestamp))];
      trail := trail + [Mark(Rebuild(height, clock), |chain| - 1)];
      StepKeepsGood(optimisticBuilds, builderEnabled, old(Now()), Rebuild(height, clock), Now());
    }

    method RequestPayloadForProposal(clock: U64)
      requires Valid()
      modifies `sent, `trail
      ensures Valid() && StepTo(optimisticBuilds, builderEnabled, old(Now()), Propose(clock), Now())
    {
      var lph := headers[|headers| - 1];
      var timestamp := NextTimestamp(clock, lph.timestamp);
      sent := sent + [Update(lph.hash, lph.parent, lph.parent, Some(timestamp))];
      trail := trail + [Mark(Propose(clock), |chain| - 1)];
      StepKeepsGood(optimisticBuilds, builderEnabled, old(Now()), Propose(clock), Now());
    }
  }
}
