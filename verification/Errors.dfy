/**
 Error values and their fatality (mod/errors/mod.go).

 A Go error is `None` when nil. DetailedError embeds its inner error without an Unwrap method, so
 neither Is nor As looks inside it; wrappers and joins are searched depth first, in order.
 */
module Errors {
  import opened Bytes

  datatype Sentinel =
    // Engine API statuses, engine and client
    | ErrAcceptedPayloadStatus | ErrSyncingPayloadStatus | ErrUnknownPayloadStatus
    | ErrInvalidPayloadStatus | ErrInvalidBlockHashPayloadStatus
    | ErrNilPayloadStatus | ErrNilForkchoiceResponse
    | ErrBadBlockProduced | ErrNilPayloadOnValidResponse
    | ErrUnknownPayload | ErrInvalidForkchoiceState | ErrInvalidPayloadAttributes | ErrRequestTooLarge
    // JSON-RPC and HTTP
    | ErrPreDefinedJSONRPC | ErrParse | ErrInvalidRequest | ErrMethodNotFound | ErrInvalidParams
    | ErrInternal | ErrServer | ErrServerParse | ErrTimeout
    // checks made locally
    | ErrMismatchedNumVersionedHashes | ErrInvalidVersionedHash | ErrPayloadBlockHashMismatch | ErrNilBlk

  datatype Error =
    | Named(sentinel: Sentinel)
    | Foreign(message: string)
    | Wrapped(inner: Error)
    | Joined(members: seq<Error>)
    | Detailed(cause: Option<Error>, fatal: bool)

  // ------------------------------------------------------------ searching

  predicate Is(e: Error, s: Sentinel) {
    match e
    case Named(sentinel) => sentinel == s
    case Foreign(_) => false
    case Wrapped(inner) => Is(inner, s)
    case Joined(members) => exists i :: 0 <= i < |members| && Is(members[i], s)
    case Detailed(_, _) => false
  }

  predicate IsAny(err: Option<Error>, names: set<Sentinel>) {
    err.Some? && exists s :: s in names && Is(err.value, s)
  }

  /** errors.As for a DetailedError. */
  function FirstDetailed(e: Error): (d: Option<Error>)
    ensures d.Some? ==> d.value.Detailed?
  {
    match e
    case Named(_) => None
    case Foreign(_) => None
    case Wrapped(inner) => FirstDetailed(inner)
    case Joined(members) => FirstDetailedIn(members)
    case Detailed(_, _) => Some(e)
  }

  function FirstDetailedIn(members: seq<Error>): (d: Option<Error>)
    ensures d.Some? ==> d.value.Detailed?
  {
    if members == [] then None
    else
      var d := FirstDetailed(members[0]);
      if d.Some? then d else FirstDetailedIn(members[1..])
  }

  // ------------------------------------------------------------ fatality

  /** Errors that hold no DetailedError count as fatal. */
  predicate IsFatal(err: Option<Error>) {
    && err.Some?
    && var d := FirstDetailed(err.value);
       d.Some? ==> d.value.cause.Some? && d.value.fatal
  }

  /** Which errors are fatal, kind by kind. */
  lemma {:induction false} FatalityTable(s: Sentinel, m: string, e: Error, f: bool, members: seq<Error>)
    ensures !IsFatal(None) && IsFatal(Some(Named(s))) && IsFatal(Some(Foreign(m)))
    ensures !IsFatal(Some(Detailed(None, f))) && (IsFatal(Some(Detailed(Some(e), f))) <==> f)
    ensures IsFatal(Some(Wrapped(e))) <==> IsFatal(Some(e))
    ensures IsFatal(Some(Joined([e]))) <==> IsFatal(Some(e))
    ensures FirstDetailed(e).Some? ==> (IsFatal(Some(Joined([e] + members))) <==> IsFatal(Some(e)))
    ensures FirstDetailed(e).None? && members != [] ==>
      (IsFatal(Some(Joined([e] + members))) <==> IsFatal(Some(Joined(members))))
  {
    FirstDetailedCons(e, members);
    FirstDetailedCons(e, []);
    assert [e] + [] == [e];
  }

  lemma {:induction false} FirstDetailedCons(e: Error, members: seq<Error>)
    ensures FirstDetailedIn([e] + members) == if FirstDetailed(e).Some? then FirstDetailed(e) else FirstDetailedIn(members)
  {
    var all := [e] + members;
    assert all[0] == e && all[1..] == members;
  }

  /** What an error is, kind by kind: a DetailedError hides what it holds. */
  lemma {:induction false} IdentityTable(a: Sentinel, b: Sentinel, m: string, e: Error, cause: Option<Error>, f: bool)
    ensures (Is(Named(a), b) <==> a == b) && !Is(Foreign(m), b) && !Is(Detailed(cause, f), b)
    ensures Is(Wrapped(e), b) <==> Is(e, b)
  {
  }

  lemma {:induction false} JoinedIdentity(members: seq<Error>, s: Sentinel)
    ensures Is(Joined(members), s) <==> exists i :: 0 <= i < |members| && Is(members[i], s)
  {
  }

  ghost predicate AnyFatal(errs: seq<Option<Error>>) {
    exists i :: 0 <= i < |errs| && IsFatal(errs[i])
  }

  function NonNil(errs: seq<Option<Error>>): (r: seq<Error>)
    ensures r == [] <==> forall i :: 0 <= i < |errs| ==> errs[i].None?
  {
    if errs == [] then []
    else if errs[0].Some? then [errs[0].value] + NonNil(errs[1..])
    else NonNil(errs[1..])
  }

  /** Joining keeps exactly the errors that are not nil, in order. */
  lemma {:induction false} JoinKeepsNonNil(errs: seq<Option<Error>>, more: seq<Option<Error>>, e: Error)
    ensures NonNil([Some(e)]) == [e] && NonNil([None]) == []
    ensures NonNil(errs + more) == NonNil(errs) + NonNil(more)
    decreases |errs|
  {
    var present: seq<Option<Error>>, absent: seq<Option<Error>> := [Some(e)], [None];
    assert present[1..] == [] && absent[1..] == [];
    if errs == [] {
      assert errs + more == more;
    } else {
      JoinKeepsNonNil(errs[1..], more, e);
      assert (errs + more)[1..] == errs[1..] + more;
    }
  }

  /** errors.Join: nil members are dropped, and nothing joined is nil. */
  function Join(errs: seq<Option<Error>>): Option<Error> {
    var members := NonNil(errs);
    if members == [] then None else Some(Joined(members))
  }

  function WrapFatal(err: Option<Error>): Error {
    Detailed(err, true)
  }

  function WrapNonFatal(err: Option<Error>): Error {
    Detailed(err, false)
  }

  ghost function FatalJoin(errs: seq<Option<Error>>): Error {
    if AnyFatal(errs) then WrapFatal(Join(errs)) else WrapNonFatal(Join(errs))
  }

  method JoinFatal(errs: seq<Option<Error>>) returns (r: Error)
    ensures r == FatalJoin(errs)
    ensures IsFatal(Some(r)) <==> exists i :: 0 <= i < |errs| && IsFatal(errs[i])
  {
    var fatal := false;
    var i := 0;
    while i < |errs| && !fatal
      invariant i <= |errs|
      invariant fatal <==> exists j :: 0 <= j < i && IsFatal(errs[j])
    {
      if IsFatal(errs[i]) {
        fatal := true;
      }
      i := i + 1;
    }
    JoinFatalIsExact(errs);
    r := if fatal then WrapFatal(Join(errs)) else WrapNonFatal(Join(errs));
  }

  /** JoinFatal is fatal exactly when a member is; in particular it is not fatal on all-nil input. */
  lemma {:induction false} JoinFatalIsExact(errs: seq<Option<Error>>)
    ensures IsFatal(Some(FatalJoin(errs))) <==> AnyFatal(errs)
  {
    if AnyFatal(errs) {
      var i :| 0 <= i < |errs| && IsFatal(errs[i]);
      assert errs[i].Some?;
    }
  }

  // ------------------------------------------------------------ nested lists

  /** Lists of errors, nested to any depth and joined from the inside out. */
  datatype ErrorTree = Leaf(err: Option<Error>) | Group(members: seq<ErrorTree>)

  ghost function Collapse(t: ErrorTree): Option<Error> {
    match t
    case Leaf(err) => err
    case Group(members) => Some(FatalJoin(seq(|members|, i requires 0 <= i < |members| => Collapse(members[i]))))
  }

  ghost predicate HasFatalLeaf(t: ErrorTree) {
    match t
    case Leaf(err) => IsFatal(err)
    case Group(members) => exists i :: 0 <= i < |members| && HasFatalLeaf(members[i])
  }

  /** However errors are nested, joining them keeps fatality: no fatal leaf is lost, none appears. */
  lemma {:induction false} NestedJoinIsExact(t: ErrorTree)
    ensures IsFatal(Collapse(t)) <==> HasFatalLeaf(t)
  {
    match t
    case Leaf(_) =>
    case Group(members) =>
      var errs := seq(|members|, i requires 0 <= i < |members| => Collapse(members[i]));
      JoinFatalIsExact(errs);
      forall i | 0 <= i < |members|
        ensures IsFatal(errs[i]) <==> HasFatalLeaf(members[i])
      {
        NestedJoinIsExact(members[i]);
      }
      if HasFatalLeaf(t) {
        var i :| 0 <= i < |members| && HasFatalLeaf(members[i]);
        assert IsFatal(errs[i]);
      }
  }

  // ------------------------------------------------------------ plain joins

  ghost predicate HoldsDetailed(err: Option<Error>) {
    err.Some? && FirstDetailed(err.value).Some?
  }

  /** `i` is the first member with a DetailedError in it. */
  ghost predicate Decides(errs: seq<Option<Error>>, i: int) {
    && 0 <= i < |errs| && HoldsDetailed(errs[i])
    && forall j :: 0 <= j < i ==> !HoldsDetailed(errs[j])
  }

  lemma {:induction false} FirstDetailedInNonNil(errs: seq<Option<Error>>)
    ensures FirstDetailedIn(NonNil(errs)).None? <==> forall i :: 0 <= i < |errs| ==> !HoldsDetailed(errs[i])
    ensures forall i :: Decides(errs, i) ==> FirstDetailedIn(NonNil(errs)) == FirstDetailed(errs[i].value)
  {
    if errs == [] {
    } else {
      var rest := errs[1..];
      FirstDetailedInNonNil(rest);
      if errs[0].Some? {
        assert NonNil(errs)[0] == errs[0].value && NonNil(errs)[1..] == NonNil(rest);
      }
      if HoldsDetailed(errs[0]) {
      } else {
        assert FirstDetailedIn(NonNil(errs)) == FirstDetailedIn(NonNil(rest));
        forall i | Decides(errs, i)
          ensures FirstDetailedIn(NonNil(errs)) == FirstDetailed(errs[i].value)
        {
          assert rest[i - 1] == errs[i];
          assert Decides(rest, i - 1);
        }
        assert forall i :: 0 < i < |errs| ==> errs[i] == rest[i - 1];
      }
    }
  }

  /**
   Why JoinFatal is needed: a plain Join is judged by its first member that holds a DetailedError,
   whatever the others say, and is fatal when no member holds one.
   */
  lemma {:induction false} PlainJoinIsFirstDetailed(errs: seq<Option<Error>>)
    ensures IsFatal(Join(errs)) <==>
            ((exists i :: 0 <= i < |errs| && errs[i].Some?) && (forall i :: Decides(errs, i) ==> IsFatal(errs[i])))
  {
    FirstDetailedInNonNil(errs);
    if Join(errs).Some? {
      assert FirstDetailed(Join(errs).value) == FirstDetailedIn(NonNil(errs));
      if FirstDetailedIn(NonNil(errs)).Some? {
        FirstDecides(errs, |errs|);
      }
    }
  }

  lemma {:induction false} FirstDecides(errs: seq<Option<Error>>, n: nat)
    requires n <= |errs|
    requires exists i :: 0 <= i < n && HoldsDetailed(errs[i])
    ensures exists i :: Decides(errs, i)
  {
    if exists i :: 0 <= i < n - 1 && HoldsDetailed(errs[i]) {
      FirstDecides(errs, n - 1);
    } else {
      assert Decides(errs, n - 1);
    }
  }
}
