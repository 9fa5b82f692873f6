/** The payload-ID cache (mod/payload/pkg/cache/payload_id.go). */
module PayloadCache {
  import opened Bytes

  type Root = seq<Byte>
  type PayloadId = seq<Byte>
  type Slots = map<nat, map<Root, PayloadId>>

  const HISTORICAL_CACHE_SIZE: nat := 2

  function Lookup(m: Slots, slot: nat, root: Root): Option<PayloadId> {
    if slot in m && root in m[slot] then Some(m[slot][root]) else None
  }

  function PrunePrior(m: Slots, slot: nat): Slots {
    map s | s in m && slot <= s :: m[s]
  }

  /** One Set: prune slots more than two behind, then insert. */
  function AfterSet(m: Slots, slot: nat, root: Root, id: PayloadId): Slots {
    var kept := if slot >= HISTORICAL_CACHE_SIZE then PrunePrior(m, slot - HISTORICAL_CACHE_SIZE) else m;
    var inner := if slot in kept then kept[slot] else map[];
    kept[slot := inner[root := id]]
  }

  class PayloadIDCache {
    var slots: Slots

    constructor ()
      ensures slots == map[]
    {
      slots := map[];
    }

    method Get(slot: nat, root: Root) returns (r: Option<PayloadId>)
      ensures r == Lookup(slots, slot, root)
    {
      if slot !in slots {
        return None;
      }
      var inner := slots[slot];
      if root !in inner {
        return None;
      }
      return Some(inner[root]);
    }

    method Prune(slot: nat)
      modifies this
      ensures slots == PrunePrior(old(slots), slot)
      ensures forall s :: s in slots <==> s in old(slots) && slot <= s
      ensures forall s :: s in slots ==> slots[s] == old(slots)[s]
    {
      var pending := slots.Keys;
      while pending != {}
        invariant pending <= slots.Keys <= old(slots).Keys
        invariant forall s :: s in slots ==> slots[s] == old(slots)[s]
        invariant forall s :: s in old(slots) && s !in slots ==> s < slot
        invariant forall s :: s in slots && s !in pending ==> slot <= s
        decreases pending
      {
        var s :| s in pending;
        if s < slot {
          slots := slots - {s};
        }
        pending := pending - {s};
      }
    }

    method Set(slot: nat, root: Root, id: PayloadId)
      modifies this
      ensures slots == AfterSet(old(slots), slot, root, id)
    {
      if slot >= HISTORICAL_CACHE_SIZE {
        Prune(slot - HISTORICAL_CACHE_SIZE);
      }
      if slot !in slots {
        slots := slots[slot := map[]];
      }
      slots := slots[slot := slots[slot][root := id]];
    }
  }

  // ------------------------------------------------------------ over any history

  datatype SetCall = SetCall(slot: nat, root: Root, id: PayloadId)

  function CacheAfter(history: seq<SetCall>): Slots {
    if history == [] then map[]
    else
      var last := history[|history| - 1];
      AfterSet(CacheAfter(history[..|history| - 1]), last.slot, last.root, last.id)
  }

  /** Call `i` is the last one for this pair, and no later call is three or more slots ahead of it. */
  ghost predicate LastAndUnpruned(history: seq<SetCall>, i: nat, slot: nat, root: Root)
    requires i < |history|
  {
    && history[i].slot == slot && history[i].root == root
    && forall j :: i < j < |history| ==> (history[j].slot, history[j].root) != (slot, root) && history[j].slot < slot + 3
  }

  lemma {:induction false} LookupAfterSet(m: Slots, call: SetCall, slot: nat, root: Root)
    ensures Lookup(AfterSet(m, call.slot, call.root, call.id), slot, root)
         == if (call.slot, call.root) == (slot, root) then Some(call.id)
            else if slot + 3 <= call.slot then None
            else Lookup(m, slot, root)
  {
  }

  lemma {:induction false} OneMoreSet(history: seq<SetCall>, i: nat, slot: nat, root: Root)
    requires i + 1 < |history|
    ensures var n := |history| - 1;
      LastAndUnpruned(history, i, slot, root) <==>
        LastAndUnpruned(history[..n], i, slot, root)
        && (history[n].slot, history[n].root) != (slot, root) && history[n].slot < slot + 3
  {
    var n := |history| - 1;
    assert forall j :: 0 <= j < n ==> history[..n][j] == history[j];
    if LastAndUnpruned(history, i, slot, root) {
      assert history[n].slot < slot + 3;
    }
  }

  ghost predicate HasLastUnpruned(history: seq<SetCall>, slot: nat, root: Root, id: PayloadId) {
    exists i :: 0 <= i < |history| && LastAndUnpruned(history, i, slot, root) && history[i].id == id
  }

  /**
   For every sequence of Set calls, a lookup returns the value of the last Set of that pair
   unless a later Set was three or more slots ahead, and nothing otherwise.
   */
  lemma {:induction false} LookupIsLastUnpruned(history: seq<SetCall>, slot: nat, root: Root, id: PayloadId)
    ensures Lookup(CacheAfter(history), slot, root) == Some(id) <==> HasLastUnpruned(history, slot, root, id)
    decreases |history|
  {
    if history == [] {
    } else {
      var n := |history| - 1;
      var front, last := history[..n], history[n];
      LookupAfterSet(CacheAfter(front), last, slot, root);
      LookupIsLastUnpruned(front, slot, root, id);
      forall i | 0 <= i < n
        ensures LastAndUnpruned(history, i, slot, root) <==>
          LastAndUnpruned(front, i, slot, root) && (last.slot, last.root) != (slot, root) && last.slot < slot + 3
      {
        OneMoreSet(history, i, slot, root);
      }
      if (last.slot, last.root) == (slot, root) {
        assert LastAndUnpruned(history, n, slot, root);
      } else if HasLastUnpruned(front, slot, root, id) {
        var i :| 0 <= i < n && LastAndUnpruned(front, i, slot, root) && front[i].id == id;
        assert LastAndUnpruned(history, i, slot, root) <==> last.slot < slot + 3;
      }
    }
  }

  ghost predicate NonDecreasing(history: seq<SetCall>) {
    forall i, j :: 0 <= i < j < |history| ==> history[i].slot <= history[j].slot
  }

  lemma {:induction false} LiveSlots(history: seq<SetCall>)
    requires NonDecreasing(history) && history != []
    ensures forall s :: s in CacheAfter(history) ==> s <= history[|history| - 1].slot < s + 3
    decreases |history|
  {
    var front := history[..|history| - 1];
    if front != [] {
      LiveSlots(front);
    }
  }

  /** With non-decreasing slots at most three slots are ever live: the last one and the two before it. */
  lemma {:induction false} AtMostThreeSlots(history: seq<SetCall>)
    requires NonDecreasing(history)
    ensures |CacheAfter(history)| <= 3
  {
    if history != [] {
      LiveSlots(history);
      var last: int := history[|history| - 1].slot;
      var live: set<int> := {last, last - 1, last - 2};
      CardinalityOfSubset(CacheAfter(history).Keys, live);
    }
  }

  lemma {:induction false} CardinalityOfSubset(a: set<int>, b: set<int>)
    requires a <= b
    ensures |a| <= |b|
  {
    assert b == a + (b - a);
  }
}
