/**
 Finalising a block (mod/beacon/blockchain/process.go) after it passed as a proposal
 (mod/beacon/blockchain/receive.go): the state transition in optimistic mode, the storing of the
 sidecars beside it, and the availability check at the end.
 */
module Finalization {
  import opened Bytes
  import opened Errors
  import opened Verdict
  import opened BlobStore

  /** A proposal together with the parts of its block and sidecars that storage sees. */
  datatype Offer = Offer(proposal: Proposal, slot: U64, commitments: seq<Key>, sidecars: seq<Option<BlobStore.Sidecar>>)

  /** The proposal's sidecars are the ones to be stored, and Persist may look at the first. */
  ghost predicate Coherent(o: Offer) {
    && (o.proposal.blobs.NoSidecars? <==> o.sidecars == [])
    && (o.sidecars == [] || o.sidecars[0].Some?)
  }

  /** The commitment is stored already, or arrives with a sidecar that is going to be stored. */
  ghost predicate WillBeStored(cs: ChainSpec, disk: Disk, db: Entries, o: Offer, key: Key)
    requires ValidSpec(cs)
  {
    || HasEntry(db, o.slot, key)
    || (MustStore(cs, o.slot, o.sidecars) && exists value :: Carries(disk, o.sidecars, key, value))
  }

  /** Every sidecar that must be stored can be, and every commitment will then be there and readable. */
  ghost predicate BlobsFinalize(cs: ChainSpec, disk: Disk, db: Entries, o: Offer)
    requires ValidSpec(cs)
  {
    && (MustStore(cs, o.slot, o.sidecars) ==> AllStorable(disk, o.sidecars))
    && AllReadable(disk, o.commitments)
    && forall i :: 0 <= i < |o.commitments| ==> WillBeStored(cs, disk, db, o, o.commitments[i])
  }

  /** Finalisation succeeds: the transition, in optimistic mode and with the engine's reply of now, and the blobs. */
  ghost predicate Finalizes(cs: ChainSpec, disk: Disk, db: Entries, o: Offer, later: Reply)
    requires ValidSpec(cs)
  {
    && !o.proposal.nilBlock
    && Transition(o.proposal.stages.(reply := later), true) == None
    && BlobsFinalize(cs, disk, db, o)
  }

  lemma {:induction false} StoredAfterwards(cs: ChainSpec, disk: Disk, before: Entries, after: Entries, o: Offer, key: Key)
    requires ValidSpec(cs)
    requires if MustStore(cs, o.slot, o.sidecars) then Persisted(disk, before, after, o.slot, o.sidecars) else after == before
    ensures HasEntry(after, o.slot, key) <==> WillBeStored(cs, disk, before, o, key)
  {
    if MustStore(cs, o.slot, o.sidecars) && HasEntry(after, o.slot, key) {
      var value := after[o.slot][key];
      assert Entry(after, o.slot, key) == Some(value);
      assert Carries(disk, o.sidecars, key, value) || Entry(before, o.slot, key) == Some(value);
    }
  }

  /**
   ProcessBlockAndBlobs: the transition and the persisting both run to their end, in either order;
   `later` is the engine's reply this time.
   */
  method ProcessBlockAndBlobs(store: AvailabilityStore, o: Offer, later: Reply, disk: Disk) returns (ok: bool)
    requires ValidSpec(store.cs) && Coherent(o) && store.index.NothingBelowFirst()
    modifies store.index
    ensures store.index.NothingBelowFirst()
    ensures ok <==> Finalizes(store.cs, disk, old(store.index.db), o, later)
    ensures ok ==> Available(store.index.db, o.slot, o.commitments)
  {
    if o.proposal.nilBlock {
      return false;
    }
    var stages := o.proposal.stages.(reply := later);
    var blockErr := Transition(stages, true);
    var blobErrs := store.Persist(o.slot, o.sidecars, disk);
    forall key
      ensures HasEntry(store.index.db, o.slot, key) <==> WillBeStored(store.cs, disk, old(store.index.db), o, key)
    {
      StoredAfterwards(store.cs, disk, old(store.index.db), store.index.db, o, key);
    }
    if blockErr.Some? || blobErrs != [] {
      return false;
    }
    ok := store.IsDataAvailable(o.slot, o.commitments, disk);
  }

  /** What finalisation still asks of a block that passed as a proposal. */
  ghost predicate NothingElseFails(cs: ChainSpec, disk: Disk, db: Entries, o: Offer, later: Reply)
    requires ValidSpec(cs)
  {
    && !o.proposal.nilBlock && !HasStatus(later, Invalid) && BlobsFinalize(cs, disk, db, o)
    && (HasStatus(o.proposal.stages.reply, Accepted) ==> OtherwiseSuccessful(o.proposal.stages))
  }

  /**
   A block that passed as a proposal finalises exactly when, besides, the engine does not call it
   INVALID now, its blobs can be stored and are complete, and, if it had passed on ACCEPTED, the
   stages that were skipped then succeed.
   */
  lemma {:induction false} FinalizesAfterProposal(cs: ChainSpec, disk: Disk, db: Entries, o: Offer, later: Reply)
    requires ValidSpec(cs) && ProposalPasses(o.proposal)
    ensures Finalizes(cs, disk, db, o, later) <==> NothingElseFails(cs, disk, db, o, later)
  {
    TransitionSucceeds(o.proposal.stages.(reply := later), true);
  }

  /** Both rounds in turn: ProcessProposal, and FinalizeBlock with a new reply from the engine. */
  method ProposeThenFinalize(store: AvailabilityStore, o: Offer, later: Reply, disk: Disk)
    returns (accepted: bool, finalized: bool)
    requires ValidSpec(store.cs) && Coherent(o) && store.index.NothingBelowFirst()
    modifies store.index
    ensures accepted <==> ProposalPasses(o.proposal)
    ensures accepted ==> (finalized <==> NothingElseFails(store.cs, disk, old(store.index.db), o, later))
    ensures finalized ==> Available(store.index.db, o.slot, o.commitments)
  {
    accepted := ProcessProposal(o.proposal);
    finalized := ProcessBlockAndBlobs(store, o, later, disk);
    if accepted {
      FinalizesAfterProposal(store.cs, disk, old(store.index.db), o, later);
    }
  }

  /** Passed on ACCEPTED with a stage failing after the engine call: no later reply lets it finalise. */
  lemma {:induction false} AcceptedThenRefused(cs: ChainSpec, disk: Disk, db: Entries, o: Offer, failure: string, later: Reply)
    requires ValidSpec(cs) && !o.proposal.nilBlock && o.proposal.blobs.NoSidecars?
    requires OtherwiseSuccessful(o.proposal.stages) && HasStatus(o.proposal.stages.reply, Accepted)
    ensures var failing := o.(proposal := o.proposal.(stages := o.proposal.stages.(operationsAndStateRoot := Some(failure))));
      && VerifyStateRoot(failing.proposal.stages) == None
      && ProposalPasses(failing.proposal) && !Finalizes(cs, disk, db, failing, later)
  {
    var failing := o.proposal.stages.(operationsAndStateRoot := Some(failure));
    StateRootVerdict(failing);
    TransitionSucceeds(failing.(reply := later), true);
  }

  /** A block with a commitment and no sidecars passes as a proposal, and then cannot be finalised. */
  lemma {:induction false} NoSidecarsThenRefused(cs: ChainSpec, disk: Disk, o: Offer, later: Reply)
    requires ValidSpec(cs) && !o.proposal.nilBlock && o.proposal.blobs.NoSidecars? && o.sidecars == []
    requires OtherwiseSuccessful(o.proposal.stages) && HasStatus(o.proposal.stages.reply, Valid)
    requires o.commitments != []
    ensures ProposalPasses(o.proposal) && !Finalizes(cs, disk, map[], o, later)
  {
    assert !WillBeStored(cs, disk, map[], o, o.commitments[0]);
  }
}
