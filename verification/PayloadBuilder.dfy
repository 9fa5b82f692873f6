/**
 Requesting and retrieving payloads (mod/payload/pkg/builder/payload.go) over the payload-ID
 cache. The execution engine's replies, the attribute computation and the wait are inputs.
 */
module PayloadBuilder {
  import opened Bytes
  import opened PayloadCache

  datatype Request = Request(slot: nat, timestamp: nat, parentRoot: Root, head: Root, final: Root)

  datatype EngineReply = EngineError | NoPayloadId | Id(id: PayloadId)

  /** A forkchoice update sent with attributes for the request's slot and parent root, and its answer. */
  datatype Update = Update(req: Request, reply: EngineReply)

  datatype BuilderError =
    | PayloadBuilderDisabled | AttributesFailed | EngineFailed | NilPayloadId | PayloadIdNotFound | Cancelled
    | GetPayloadFailed | NilPayloadEnvelope

  type Envelope = seq<Byte>

  /** The engine's answer to GetPayload for an ID: an error, or an envelope that may be nil. */
  type Fetch = PayloadId -> Result<Option<Envelope>, BuilderError>

  /** The engine returned `id` for an update for exactly this slot and parent root. */
  ghost predicate Issued(log: seq<Update>, slot: nat, root: Root, id: PayloadId) {
    exists i :: 0 <= i < |log| && log[i].req.slot == slot && log[i].req.parentRoot == root && log[i].reply == Id(id)
  }

  // ------------------------------------------------------------ one caller at a time

  datatype Event = Event(req: Request, attributesOk: bool, reply: EngineReply)

  datatype Builder = Builder(slots: Slots, log: seq<Update>)

  /** RequestPayloadAsync, run to completion. */
  function Serve(b: Builder, e: Event): Builder {
    if Lookup(b.slots, e.req.slot, e.req.parentRoot).Some? || !e.attributesOk then b
    else
      var sent := b.log + [Update(e.req, e.reply)];
      match e.reply
      case Id(id) => Builder(AfterSet(b.slots, e.req.slot, e.req.parentRoot, id), sent)
      case _ => Builder(b.slots, sent)
  }

  function Answer(b: Builder, e: Event): Result<Option<PayloadId>, BuilderError> {
    match Lookup(b.slots, e.req.slot, e.req.parentRoot)
    case Some(id) => Ok(Some(id))
    case None =>
      if !e.attributesOk then Err(AttributesFailed)
      else match e.reply
           case EngineError => Err(EngineFailed)
           case NoPayloadId => Ok(None)
           case Id(id) => Ok(Some(id))
  }

  /**
   What one request does: a cached ID is returned and nothing is sent; without attributes nothing is
   sent; otherwise exactly this update is logged, and its reply decides: an error, nothing, or an ID
   that is returned and then found under the request's pair.
   */
  ghost predicate Served(b: Builder, e: Event, r: Result<Option<PayloadId>, BuilderError>, b': Builder) {
    var cached := Lookup(b.slots, e.req.slot, e.req.parentRoot);
    if cached.Some? then r == Ok(cached) && b' == b
    else if !e.attributesOk then r == Err(AttributesFailed) && b' == b
    else
      && b'.log == b.log + [Update(e.req, e.reply)]
      && match e.reply
         case EngineError => r == Err(EngineFailed) && b'.slots == b.slots
         case NoPayloadId => r == Ok(None) && b'.slots == b.slots
         case Id(id) => r == Ok(Some(id)) && Lookup(b'.slots, e.req.slot, e.req.parentRoot) == Some(id)
  }

  lemma {:induction false} ServedIsServed(b: Builder, e: Event)
    ensures Served(b, e, Answer(b, e), Serve(b, e))
  {
    if e.reply.Id? {
      LookupAfterSet(b.slots, SetCall(e.req.slot, e.req.parentRoot, e.reply.id), e.req.slot, e.req.parentRoot);
    }
  }

  class LocalBuilder {
    const enabled: bool
    const pc: PayloadIDCache
    ghost var log: seq<Update>

    ghost function State(): Builder
      reads this, pc
    {
      Builder(pc.slots, log)
    }

    constructor (enabled: bool)
      ensures this.enabled == enabled && State() == Builder(map[], []) && fresh(pc)
    {
      this.enabled := enabled;
      pc := new PayloadIDCache();
      log := [];
    }

    method RequestPayloadAsync(e: Event) returns (r: Result<Option<PayloadId>, BuilderError>)
      modifies this, pc
      ensures !enabled ==> r == Err(PayloadBuilderDisabled) && State() == old(State())
      ensures enabled ==> r == Answer(old(State()), e) && State() == Serve(old(State()), e)
      ensures enabled ==> Served(old(State()), e, r, State())
    {
      ServedIsServed(State(), e);
      if !enabled {
        return Err(PayloadBuilderDisabled);
      }
      var cached := pc.Get(e.req.slot, e.req.parentRoot);
      if cached.Some? {
        return Ok(cached);
      }
      if !e.attributesOk {
        return Err(AttributesFailed);
      }
      log := log + [Update(e.req, e.reply)];
      match e.reply
      case EngineError =>
        return Err(EngineFailed);
      case NoPayloadId =>
        return Ok(None);
      case Id(id) =>
        pc.Set(e.req.slot, e.req.parentRoot, id);
        return Ok(Some(id));
    }

    /** Whatever GetPayload answers for the requested ID is handed on, a nil envelope included. */
    method RequestPayloadSync(e: Event, cancelled: bool, fetch: Fetch) returns (r: Result<Option<Envelope>, BuilderError>)
      modifies this, pc
      ensures State() == if enabled then Serve(old(State()), e) else old(State())
      ensures !enabled ==> r == Err(PayloadBuilderDisabled)
      ensures enabled ==>
        match Answer(old(State()), e)
        case Err(error) => r == Err(error)
        case Ok(None) => r == Err(NilPayloadId)
        case Ok(Some(id)) => r == if cancelled then Err(Cancelled) else fetch(id)
    {
      if !enabled {
        return Err(PayloadBuilderDisabled);
      }
      var requested := RequestPayloadAsync(e);
      if requested.Err? {
        return Err(requested.error);
      }
      if requested.value.None? {
        return Err(NilPayloadId);
      }
      if cancelled {
        return Err(Cancelled);
      }
      return fetch(requested.value.value);
    }

    /** On success, the non-nil envelope that GetPayload gives for the cached ID of the pair. */
    method RetrievePayload(slot: nat, parentRoot: Root, fetch: Fetch) returns (r: Result<Envelope, BuilderError>)
      ensures enabled && Lookup(pc.slots, slot, parentRoot).None? ==> r == Err(PayloadIdNotFound)
      ensures enabled && Lookup(pc.slots, slot, parentRoot).Some? ==>
        match fetch(Lookup(pc.slots, slot, parentRoot).value)
        case Err(error) => r == Err(error)
        case Ok(None) => r == Err(NilPayloadEnvelope)
        case Ok(Some(envelope)) => r == Ok(envelope)
      ensures !enabled ==> r == Err(PayloadBuilderDisabled)
    {
      if !enabled {
        return Err(PayloadBuilderDisabled);
      }
      var cached := pc.Get(slot, parentRoot);
      if cached.None? {
        return Err(PayloadIdNotFound);
      }
      var envelope := fetch(cached.value);
      if envelope.Err? {
        return Err(envelope.error);
      }
      if envelope.value.None? {
        return Err(NilPayloadEnvelope);
      }
      return Ok(envelope.value.value);
    }
  }

  function ServeAll(events: seq<Event>): Builder {
    if events == [] then Builder(map[], [])
    else Serve(ServeAll(events[..|events| - 1]), events[|events| - 1])
  }

  ghost predicate SlotsNonDecreasing(events: seq<Event>) {
    forall i, j :: 0 <= i < j < |events| ==> events[i].req.slot <= events[j].req.slot
  }

  function LastSlot(events: seq<Event>): nat {
    if events == [] then 0 else events[|events| - 1].req.slot
  }

  predicate SamePair(a: Request, b: Request) {
    a.slot == b.slot && a.parentRoot == b.parentRoot
  }

  /** An update is only repeated for a pair while the engine has not returned an ID for it. */
  ghost predicate NoRepeats(log: seq<Update>) {
    forall i, j :: 0 <= i < j < |log| && SamePair(log[i].req, log[j].req) ==> !log[i].reply.Id?
  }

  /** Every ID returned for a slot less than three behind `slot` is still cached under its pair. */
  ghost predicate RecentIdsCached(b: Builder, slot: nat) {
    forall i :: 0 <= i < |b.log| && b.log[i].reply.Id? && slot < b.log[i].req.slot + 3 ==>
      Lookup(b.slots, b.log[i].req.slot, b.log[i].req.parentRoot) == Some(b.log[i].reply.id)
  }

  ghost predicate SequentialInvariant(b: Builder, slot: nat) {
    && (forall i :: 0 <= i < |b.log| ==> b.log[i].req.slot <= slot)
    && NoRepeats(b.log)
    && RecentIdsCached(b, slot)
  }

  lemma {:induction false} ServeKeepsInvariant(b: Builder, e: Event, slot: nat)
    requires SequentialInvariant(b, slot) && slot <= e.req.slot
    ensures SequentialInvariant(Serve(b, e), e.req.slot)
  {
    var b', pair := Serve(b, e), e.req;
    if b'.log != b.log {
      var n := |b.log|;
      forall i | 0 <= i < n && SamePair(b.log[i].req, pair)
        ensures !b.log[i].reply.Id?
      {
        assert b.log[i].req.slot <= slot;
      }
      assert NoRepeats(b'.log);
      forall i | 0 <= i < |b'.log| && b'.log[i].reply.Id? && pair.slot < b'.log[i].req.slot + 3
        ensures Lookup(b'.slots, b'.log[i].req.slot, b'.log[i].req.parentRoot) == Some(b'.log[i].reply.id)
      {
        if e.reply.Id? {
          LookupAfterSet(b.slots, SetCall(pair.slot, pair.parentRoot, e.reply.id),
                         b'.log[i].req.slot, b'.log[i].req.parentRoot);
        }
      }
    }
  }

  /**
   In every sequential run with non-decreasing slots, no further update is sent for a pair once
   its ID has been returned, and every recent ID is the one RetrievePayload will find.
   */
  lemma {:induction false} SequentialRuns(events: seq<Event>)
    requires SlotsNonDecreasing(events)
    ensures NoRepeats(ServeAll(events).log)
    ensures RecentIdsCached(ServeAll(events), LastSlot(events))
    ensures SequentialInvariant(ServeAll(events), LastSlot(events))
    decreases |events|
  {
    if events == [] {
    } else {
      var front := events[..|events| - 1];
      SequentialRuns(front);
      ServeKeepsInvariant(ServeAll(front), events[|events| - 1], LastSlot(front));
    }
  }

  lemma {:induction false} ServeOneMore(events: seq<Event>, e: Event)
    ensures ServeAll(events + [e]) == Serve(ServeAll(events), e)
  {
    assert (events + [e])[..|events|] == events;
  }

  /** Slots that go back let a later slot prune an ID that is asked for again. */
  lemma {:induction false} OlderSlotRepeats(older: Request, newer: Request, id: PayloadId)
    requires older.slot + 3 <= newer.slot
    ensures exists events :: |events| == 3 && !NoRepeats(ServeAll(events).log)
  {
    var e, f := Event(older, true, Id(id)), Event(newer, true, Id(id));
    var one, two, three := [] + [e], [] + [e] + [f], [] + [e] + [f] + [e];
    ServeOneMore([], e);
    ServeOneMore(one, f);
    ServeOneMore(two, e);
    LookupAfterSet(map[], SetCall(older.slot, older.parentRoot, id), newer.slot, newer.parentRoot);
    LookupAfterSet(ServeAll(one).slots, SetCall(newer.slot, newer.parentRoot, id), older.slot, older.parentRoot);
    var log := ServeAll(three).log;
    assert log == [Update(older, Id(id)), Update(newer, Id(id)), Update(older, Id(id))];
    assert SamePair(log[0].req, log[2].req) && log[0].reply.Id?;
  }

  // ------------------------------------------------------------ any interleaving

  /**
   Where one call of RequestPayloadAsync stands. `seen` is how many Sets preceded its lookup, and
   `entry` is the place of its update in the log.
   */
  datatype Phase =
    | Started(req: Request)
    | Missed(req: Request, seen: nat)
    | Answered(req: Request, id: PayloadId, entry: nat)
    | Returned(req: Request, result: Option<PayloadId>)

  /**
   The cache and the calls, with what happened so far: the updates sent (`log`), how many Sets
   preceded each one's lookup (`seen`), the Sets in order (`stores`), and the update that brought
   each Set's ID (`sources`).
   */
  datatype System = System(
    slots: Slots, phases: map<nat, Phase>, log: seq<Update>, seen: seq<nat>,
    stores: seq<SetCall>, sources: seq<nat>)

  datatype Step =
    | Begin(t: nat, req: Request)
    | Look(t: nat)
    | AttributesError(t: nat)
    | Send(t: nat, reply: EngineReply)
    | Store(t: nat)

  /** One atomic step of one goroutine; the cache's lock makes Get and Set atomic. */
  ghost predicate StepTo(s: System, step: Step, s': System) {
    match step
    case Begin(t, req) =>
      t !in s.phases && s' == s.(phases := s.phases[t := Started(req)])
    case Look(t) =>
      && t in s.phases && s.phases[t].Started?
      && var req := s.phases[t].req;
         var found := Lookup(s.slots, req.slot, req.parentRoot);
         s' == s.(phases := s.phases[t := if found.Some? then Returned(req, found) else Missed(req, |s.stores|)])
    case AttributesError(t) =>
      && t in s.phases && s.phases[t].Missed?
      && s' == s.(phases := s.phases[t := Returned(s.phases[t].req, None)])
    case Send(t, reply) =>
      && t in s.phases && s.phases[t].Missed?
      && var req := s.phases[t].req;
         s' == s.(phases := s.phases[t := if reply.Id? then Answered(req, reply.id, |s.log|) else Returned(req, None)],
                  log := s.log + [Update(req, reply)], seen := s.seen + [s.phases[t].seen])
    case Store(t) =>
      && t in s.phases && s.phases[t].Answered?
      && var req, id := s.phases[t].req, s.phases[t].id;
         s' == s.(slots := AfterSet(s.slots, req.slot, req.parentRoot, id),
                  phases := s.phases[t := Returned(req, Some(id))],
                  stores := s.stores + [SetCall(req.slot, req.parentRoot, id)],
                  sources := s.sources + [s.phases[t].entry])
  }

  const IDLE: System := System(map[], map[], [], [], [], [])

  ghost predicate Next(s: System, s': System) {
    exists step :: StepTo(s, step, s')
  }

  ghost predicate IsRun(run: seq<System>) {
    && 0 < |run| && run[0] == IDLE
    && forall i :: 0 < i < |run| ==> Next(run[i - 1], run[i])
  }

  ghost predicate PhaseIsIssued(log: seq<Update>, p: Phase) {
    match p
    case Answered(req, id, _) => Issued(log, req.slot, req.parentRoot, id)
    case Returned(req, Some(id)) => Issued(log, req.slot, req.parentRoot, id)
    case _ => true
  }

  /** Every cached ID and every ID a caller holds was issued for exactly that slot and parent root. */
  ghost predicate OnlyIssued(s: System) {
    && (forall slot, root :: Lookup(s.slots, slot, root).Some? ==>
          Issued(s.log, slot, root, Lookup(s.slots, slot, root).value))
    && (forall t :: t in s.phases ==> PhaseIsIssued(s.log, s.phases[t]))
  }

  lemma {:induction false} IssuedGrows(log: seq<Update>, u: Update, slot: nat, root: Root, id: PayloadId)
    requires Issued(log, slot, root, id) || (u.req.slot == slot && u.req.parentRoot == root && u.reply == Id(id))
    ensures Issued(log + [u], slot, root, id)
  {
    var grown := log + [u];
    if Issued(log, slot, root, id) {
      var i :| 0 <= i < |log| && log[i].req.slot == slot && log[i].req.parentRoot == root && log[i].reply == Id(id);
      assert grown[i] == log[i];
    } else {
      assert grown[|log|] == u;
    }
  }

  lemma {:induction false} StepKeepsIssued(s: System, step: Step, s': System)
    requires OnlyIssued(s) && StepTo(s, step, s')
    ensures OnlyIssued(s')
  {
    match step
    case Send(t, reply) =>
      var u := Update(s.phases[t].req, reply);
      forall slot, root | Lookup(s'.slots, slot, root).Some?
        ensures Issued(s'.log, slot, root, Lookup(s'.slots, slot, root).value)
      {
        IssuedGrows(s.log, u, slot, root, Lookup(s'.slots, slot, root).value);
      }
      forall t' | t' in s'.phases
        ensures PhaseIsIssued(s'.log, s'.phases[t'])
      {
        var p := s'.phases[t'];
        if p.Answered? {
          IssuedGrows(s.log, u, p.req.slot, p.req.parentRoot, p.id);
        } else if p.Returned? && p.result.Some? {
          IssuedGrows(s.log, u, p.req.slot, p.req.parentRoot, p.result.value);
        }
      }
    case Store(t) =>
      var req, id := s.phases[t].req, s.phases[t].id;
      forall slot, root | Lookup(s'.slots, slot, root).Some?
        ensures Issued(s'.log, slot, root, Lookup(s'.slots, slot, root).value)
      {
        LookupAfterSet(s.slots, SetCall(req.slot, req.parentRoot, id), slot, root);
      }
    case _ =>
  }

  /** In every interleaving, only issued IDs are ever cached or returned, each under its own pair. */
  lemma {:induction false} InterleavedRuns(run: seq<System>, i: nat)
    requires IsRun(run) && i < |run|
    ensures OnlyIssued(run[i])
  {
    if i == 0 {
    } else {
      InterleavedRuns(run, i - 1);
      assert Next(run[i - 1], run[i]);
      var step :| StepTo(run[i - 1], step, run[i]);
      StepKeepsIssued(run[i - 1], step, run[i]);
    }
  }

  // ------------------------------------------------------------ when an update is repeated

  predicate ForPair(call: SetCall, req: Request) {
    call.slot == req.slot && call.root == req.parentRoot
  }

  /** A later one of the first `n` Sets is three or more slots ahead of Set `i`. */
  ghost predicate PrunedBy(stores: seq<SetCall>, i: nat, n: nat)
    requires i < n <= |stores|
  {
    exists m :: i < m < n && stores[i].slot + 3 <= stores[m].slot
  }

  /** A pair is missing from the cache exactly when every Set for it has been followed by a pruning one. */
  lemma {:induction false} MissesExactly(stores: seq<SetCall>, n: nat, req: Request)
    requires n <= |stores|
    ensures Lookup(CacheAfter(stores[..n]), req.slot, req.parentRoot).None? <==>
            forall i :: 0 <= i < n && ForPair(stores[i], req) ==> PrunedBy(stores, i, n)
    decreases n
  {
    if n == 0 {
    } else {
      var last := stores[n - 1];
      MissesExactly(stores, n - 1, req);
      assert stores[..n][..n - 1] == stores[..n - 1];
      LookupAfterSet(CacheAfter(stores[..n - 1]), last, req.slot, req.parentRoot);
      assert forall i :: 0 <= i < n - 1 && ForPair(stores[i], req) ==>
        (PrunedBy(stores, i, n) <==> PrunedBy(stores, i, n - 1) || req.slot + 3 <= last.slot);
      if ForPair(last, req) {
        assert !PrunedBy(stores, n - 1, n);
      }
    }
  }

  function CallOf(u: Update): SetCall
    requires u.reply.Id?
  {
    SetCall(u.req.slot, u.req.parentRoot, u.reply.id)
  }

  ghost predicate MissedAt(s: System, req: Request, n: nat) {
    n <= |s.stores| && Lookup(CacheAfter(s.stores[..n]), req.slot, req.parentRoot).None?
  }

  /** The cache is what the Sets made it, and each Set stored the ID of some update under its pair. */
  ghost predicate StoresAccounted(s: System) {
    && s.slots == CacheAfter(s.stores) && |s.sources| == |s.stores|
    && (forall i :: 0 <= i < |s.stores| ==>
          s.sources[i] < |s.log| && s.log[s.sources[i]].reply.Id? && s.stores[i] == CallOf(s.log[s.sources[i]]))
    && (forall t :: t in s.phases && s.phases[t].Answered? ==>
          && s.phases[t].entry < |s.log|
          && s.log[s.phases[t].entry] == Update(s.phases[t].req, Id(s.phases[t].id)))
  }

  /** Whoever has sent an update, or is about to, had looked and missed. */
  ghost predicate MissesAccounted(s: System) {
    && |s.seen| == |s.log|
    && (forall k :: 0 <= k < |s.log| ==> MissedAt(s, s.log[k].req, s.seen[k]))
    && (forall t :: t in s.phases && s.phases[t].Missed? ==> MissedAt(s, s.phases[t].req, s.phases[t].seen))
  }

  ghost predicate Accounted(s: System) {
    StoresAccounted(s) && MissesAccounted(s)
  }

  lemma {:induction false} StepKeepsStores(s: System, step: Step, s': System)
    requires StoresAccounted(s) && StepTo(s, step, s')
    ensures StoresAccounted(s')
  {
    if step.Store? {
      assert s'.stores[..|s.stores|] == s.stores;
    }
  }

  lemma {:induction false} MissedStays(s: System, s': System, req: Request, n: nat)
    requires MissedAt(s, req, n) && s.stores <= s'.stores
    ensures MissedAt(s', req, n)
  {
    assert s'.stores[..n] == s.stores[..n];
  }

  lemma {:induction false} StepKeepsMisses(s: System, step: Step, s': System)
    requires s.slots == CacheAfter(s.stores) && MissesAccounted(s) && StepTo(s, step, s')
    ensures MissesAccounted(s')
  {
    assert s.stores[..|s.stores|] == s.stores;
    forall req, n: nat | MissedAt(s, req, n)
      ensures MissedAt(s', req, n)
    {
      MissedStays(s, s', req, n);
    }
  }

  lemma {:induction false} StepKeepsAccount(s: System, step: Step, s': System)
    requires Accounted(s) && StepTo(s, step, s')
    ensures Accounted(s')
  {
    StepKeepsStores(s, step, s');
    StepKeepsMisses(s, step, s');
  }

  lemma {:induction false} RunsAreAccounted(run: seq<System>, i: nat)
    requires IsRun(run) && i < |run|
    ensures Accounted(run[i])
  {
    if i == 0 {
    } else {
      RunsAreAccounted(run, i - 1);
      assert Next(run[i - 1], run[i]);
      var step :| StepTo(run[i - 1], step, run[i]);
      StepKeepsAccount(run[i - 1], step, run[i]);
    }
  }

  /** The ID of update `e` was stored by one of the first `n` Sets, and none of these pruned it since. */
  ghost predicate Cached(s: System, e: nat, n: nat)
    requires |s.sources| == |s.stores| && n <= |s.stores|
  {
    exists i :: 0 <= i < n && s.sources[i] == e && !PrunedBy(s.stores, i, n)
  }

  ghost predicate IssuedFor(s: System, e: int, req: Request) {
    0 <= e < |s.log| && s.log[e].reply.Id? && SamePair(s.log[e].req, req)
  }

  lemma {:induction false} MissedMeansNoneCached(s: System, req: Request, n: nat)
    requires Accounted(s) && n <= |s.stores|
    ensures MissedAt(s, req, n) <==> forall e: nat :: IssuedFor(s, e, req) ==> !Cached(s, e, n)
  {
    MissesExactly(s.stores, n, req);
    if !MissedAt(s, req, n) {
      var i :| 0 <= i < n && ForPair(s.stores[i], req) && !PrunedBy(s.stores, i, n);
      assert IssuedFor(s, s.sources[i], req) && Cached(s, s.sources[i], n);
    } else {
      forall e: nat | IssuedFor(s, e, req)
        ensures !Cached(s, e, n)
      {
        forall i | 0 <= i < n && s.sources[i] == e
          ensures PrunedBy(s.stores, i, n)
        {
          assert ForPair(s.stores[i], req);
        }
      }
    }
  }

  /**
   In every interleaving, a lookup misses, so that its caller goes on to send, exactly when each
   ID issued for the pair is not stored yet or has been pruned by a Set three or more slots ahead.
   */
  lemma {:induction false} LookMissesExactly(run: seq<System>, i: nat, t: nat, s': System)
    requires IsRun(run) && i < |run| && StepTo(run[i], Look(t), s')
    ensures s'.phases[t].Missed? <==>
            forall e: nat :: IssuedFor(run[i], e, run[i].phases[t].req) ==>
              |run[i].sources| == |run[i].stores| && !Cached(run[i], e, |run[i].stores|)
  {
    var s := run[i];
    RunsAreAccounted(run, i);
    assert s.stores[..|s.stores|] == s.stores;
    MissedMeansNoneCached(s, s.phases[t].req, |s.stores|);
  }

  /**
   So an update that repeats a pair with an issued ID looked before that ID was stored, or after a
   Set three or more slots ahead had pruned it.
   */
  lemma {:induction false} RepeatsExplained(run: seq<System>, i: nat, j: nat, k: nat)
    requires IsRun(run) && i < |run| && k < |run[i].log| && IssuedFor(run[i], j, run[i].log[k].req)
    ensures var s := run[i];
      && |s.seen| == |s.log| && |s.sources| == |s.stores| && s.seen[k] <= |s.stores|
      && forall m :: 0 <= m < s.seen[k] && s.sources[m] == j ==> PrunedBy(s.stores, m, s.seen[k])
  {
    var s := run[i];
    RunsAreAccounted(run, i);
    MissedMeansNoneCached(s, s.log[k].req, s.seen[k]);
    assert !Cached(s, j, s.seen[k]);
  }

  /** Two interleaved callers can both miss, so a pair may be requested twice: atomicity matters. */
  lemma {:induction false} InterleavingMayRepeat(req: Request, id1: PayloadId, id2: PayloadId)
    ensures exists run: seq<System> :: IsRun(run) && !NoRepeats(run[|run| - 1].log)
  {
    var u1, u2 := Update(req, Id(id1)), Update(req, Id(id2));
    var s0 := IDLE;
    var s1 := s0.(phases := s0.phases[1 := Started(req)]);
    var s2 := s1.(phases := s1.phases[2 := Started(req)]);
    var s3 := s2.(phases := s2.phases[1 := Missed(req, 0)]);
    var s4 := s3.(phases := s3.phases[2 := Missed(req, 0)]);
    var s5 := s4.(phases := s4.phases[1 := Answered(req, id1, 0)], log := s4.log + [u1], seen := s4.seen + [0]);
    var s6 := s5.(phases := s5.phases[2 := Answered(req, id2, 1)], log := s5.log + [u2], seen := s5.seen + [0]);
    var run := [s0];
    run := Continue(run, Begin(1, req), s1);
    run := Continue(run, Begin(2, req), s2);
    run := Continue(run, Look(1), s3);
    run := Continue(run, Look(2), s4);
    run := Continue(run, Send(1, Id(id1)), s5);
    run := Continue(run, Send(2, Id(id2)), s6);
    assert s6.log[0] == u1 && s6.log[1] == u2;
    assert !NoRepeats(run[|run| - 1].log);
  }

  lemma {:induction false} Continue(run: seq<System>, step: Step, s: System) returns (longer: seq<System>)
    requires IsRun(run) && StepTo(run[|run| - 1], step, s)
    ensures IsRun(longer) && longer[|longer| - 1] == s
  {
    assert Next(run[|run| - 1], s);
    longer := run + [s];
  }
}
