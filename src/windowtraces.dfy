/** The bookkeeping of background computations in lttvwindowtraces.c
 *  (lttv/lttv/modules/gui/lttvwindow/lttvwindow/): every trace known to
 *  the GUI carries, in its attribute store, a lock, per-module "in
 *  progress" and "ready" flags, a queue of background requests waiting to
 *  start and the list of those running, and the same two lists of
 *  notifications. The flags are attributes whose mere presence matters;
 *  here they are a boolean and two sets of module names. Module names are
 *  quarks, owners and traceset positions are identities. */
module WindowTraces {
  import opened Wrappers
  import opened LttTime

  /** A BackgroundRequest: the module whose hooks compute, for a trace. The
   *  dialog and parent window are GUI state, not part of this model. */
  datatype BackgroundRequest = BackgroundRequest(moduleName: nat, trace: nat)

  /** A BackgroundNotify: called once the computation passes notifyTime or
   *  notifyPosition (when there is one). */
  datatype BackgroundNotify = BackgroundNotify(owner: nat, trace: nat, notifyTime: Time, notifyPosition: Option<nat>)

  function ModuleOf(r: BackgroundRequest): nat { r.moduleName }
  function OwnerOf(n: BackgroundNotify): nat { n.owner }

  // ---------------------------------------------------------------------
  // Removing by key from a list
  // ---------------------------------------------------------------------

  /** xs without the elements whose key is k, the others in their order. */
  function Without<T>(xs: seq<T>, key: T -> nat, k: nat): (r: seq<T>)
    ensures |r| <= |xs|
  {
    if |xs| == 0 then []
    else (if key(xs[0]) == k then [] else [xs[0]]) + Without(xs[1..], key, k)
  }

  /** Appending to the list one element at a time, as the unlink loops
   *  leave it. */
  lemma {:induction false} WithoutAppend<T>(xs: seq<T>, x: T, key: T -> nat, k: nat)
    ensures Without(xs + [x], key, k) == Without(xs, key, k) + (if key(x) == k then [] else [x])
  {
    if |xs| == 0 {
      assert xs + [x] == [x];
    } else {
      assert (xs + [x])[1..] == xs[1..] + [x];
      WithoutAppend(xs[1..], x, key, k);
    }
  }

  /** An element stays exactly when it was there and its key is not k. */
  lemma {:induction false} WithoutMembers<T>(xs: seq<T>, key: T -> nat, k: nat)
    ensures forall x :: x in Without(xs, key, k) <==> x in xs && key(x) != k
  {
    if |xs| > 0 {
      WithoutMembers(xs[1..], key, k);
      assert xs == [xs[0]] + xs[1..];
    }
  }

  /** Removing twice removes nothing more, and a list without such elements
   *  is left as it is. */
  lemma {:induction false} WithoutIdempotent<T>(xs: seq<T>, key: T -> nat, k: nat)
    ensures Without(Without(xs, key, k), key, k) == Without(xs, key, k)
    ensures (forall i :: 0 <= i < |xs| ==> key(xs[i]) != k) ==> Without(xs, key, k) == xs
  {
    if |xs| > 0 {
      WithoutIdempotent(xs[1..], key, k);
      var rest := Without(xs[1..], key, k);
      if key(xs[0]) != k {
        assert ([xs[0]] + rest)[1..] == rest;
      } else {
        assert [] + rest == rest;
      }
      if forall i :: 0 <= i < |xs| ==> key(xs[i]) != k {
        assert forall i :: 0 <= i < |xs[1..]| ==> key(xs[1..][i]) != k by {
          forall i | 0 <= i < |xs[1..]| ensures key(xs[1..][i]) != k {
            assert xs[1..][i] == xs[i + 1];
          }
        }
        assert xs == [xs[0]] + xs[1..];
      }
    }
  }

  /** Nothing is lost: the removed elements and the kept ones make up the
   *  list. */
  lemma {:induction false} WithoutConserves<T>(xs: seq<T>, key: T -> nat, k: nat)
    ensures multiset(xs) == multiset(Without(xs, key, k)) + multiset(Only(xs, key, k))
  {
    if |xs| > 0 {
      WithoutConserves(xs[1..], key, k);
      assert xs == [xs[0]] + xs[1..];
    }
  }

  /** The elements whose key is k. */
  function Only<T>(xs: seq<T>, key: T -> nat, k: nat): seq<T> {
    if |xs| == 0 then []
    else (if key(xs[0]) == k then [xs[0]] else []) + Only(xs[1..], key, k)
  }

  /** The iterate-and-unlink loop of request_remove and notify_remove, on
   *  the list's contents. */
  method RemoveAll<T>(xs: seq<T>, key: T -> nat, k: nat) returns (ys: seq<T>)
    ensures ys == Without(xs, key, k)
  {
    ys := [];
    var i := 0;
    while i < |xs|
      invariant 0 <= i <= |xs|
      invariant ys == Without(xs[..i], key, k)
    {
      WithoutAppend(xs[..i], xs[i], key, k);
      assert xs[..i + 1] == xs[..i] + [xs[i]];
      if key(xs[i]) != k {
        ys := ys + [xs[i]];
      }
      i := i + 1;
    }
    assert xs[..i] == xs;
  }

  /** The loops of process_pending_requests that append every element of
   *  one list to another and unlink it from the first. */
  method MoveAll<T>(src: seq<T>, dst: seq<T>) returns (src': seq<T>, dst': seq<T>)
    ensures src' == [] && dst' == dst + src
  {
    src' := src;
    dst' := dst;
    while |src'| > 0
      invariant dst' + src' == dst + src
    {
      dst' := dst' + [src'[0]];
      assert dst' + src'[1..] == dst + src;
      src' := src'[1..];
    }
  }

  /** The module names of a list of requests. */
  function Modules(rs: seq<BackgroundRequest>): (ms: set<nat>)
    ensures forall i :: 0 <= i < |rs| ==> rs[i].moduleName in ms
    ensures forall m :: m in ms ==> exists i :: 0 <= i < |rs| && rs[i].moduleName == m
  {
    set i | 0 <= i < |rs| :: rs[i].moduleName
  }

  /** A notification is due once the current event reaches its time, or the
   *  traceset its position. */
  predicate Due(n: BackgroundNotify, current: Option<Time>, posReached: nat -> bool) {
    (current.Some? && LessEq(n.notifyTime, current.value)) ||
    (n.notifyPosition.Some? && posReached(n.notifyPosition.value))
  }

  /** The notifications still waiting after a chunk. */
  function Pending(ns: seq<BackgroundNotify>, current: Option<Time>, posReached: nat -> bool): (r: seq<BackgroundNotify>)
    ensures |r| <= |ns|
    ensures forall n :: n in r <==> n in ns && !Due(n, current, posReached)
  {
    if |ns| == 0 then []
    else (if Due(ns[0], current, posReached) then [] else [ns[0]]) + Pending(ns[1..], current, posReached)
  }

  lemma {:induction false} PendingAppend(ns: seq<BackgroundNotify>, n: BackgroundNotify, current: Option<Time>, posReached: nat -> bool)
    ensures Pending(ns + [n], current, posReached) ==
            Pending(ns, current, posReached) + (if Due(n, current, posReached) then [] else [n])
  {
    if |ns| == 0 {
      assert ns + [n] == [n];
    } else {
      assert (ns + [n])[1..] == ns[1..] + [n];
      PendingAppend(ns[1..], n, current, posReached);
    }
  }

  // ---------------------------------------------------------------------
  // One trace
  // ---------------------------------------------------------------------

  /** The attributes lttvwindowtraces keeps for one LttvTrace. */
  class Trace {
    const name: string
    var locked: bool
    var inProgress: set<nat>
    var ready: set<nat>
    var requestsQueue: seq<BackgroundRequest>
    var requestsCurrent: seq<BackgroundRequest>
    var notifyQueue: seq<BackgroundNotify>
    var notifyCurrent: seq<BackgroundNotify>

    /** A trace as lttvwindowtraces_add_trace registers it. */
    constructor (name: string)
      ensures this.name == name && !locked && inProgress == {} && ready == {}
      ensures requestsQueue == [] && requestsCurrent == [] && notifyQueue == [] && notifyCurrent == []
    {
      this.name := name;
      locked := false;
      inProgress := {};
      ready := {};
      requestsQueue := [];
      requestsCurrent := [];
      notifyQueue := [];
      notifyCurrent := [];
    }

    /** The two notification lists, and everything else. */
    ghost function Notes(): (seq<BackgroundNotify>, seq<BackgroundNotify>)
      reads this
    {
      (notifyQueue, notifyCurrent)
    }

    ghost function Rest(): (bool, set<nat>, set<nat>, seq<BackgroundRequest>, seq<BackgroundRequest>)
      reads this
    {
      (locked, inProgress, ready, requestsQueue, requestsCurrent)
    }

    /** Every running request's module is flagged in progress. */
    ghost predicate RunningFlagged()
      reads this
    {
      forall i :: 0 <= i < |requestsCurrent| ==> requestsCurrent[i].moduleName in inProgress
    }

    /** lttvwindowtraces_lock: -1, and nothing changes, when the trace is
     *  already locked; otherwise the lock is taken and 0 returned. */
    method Lock() returns (r: int)
      modifies this
      ensures old(locked) ==> r == -1 && locked
      ensures !old(locked) ==> r == 0 && locked
      ensures inProgress == old(inProgress) && ready == old(ready)
      ensures requestsQueue == old(requestsQueue) && requestsCurrent == old(requestsCurrent)
      ensures notifyQueue == old(notifyQueue) && notifyCurrent == old(notifyCurrent)
    {
      if locked {
        return -1;
      }
      locked := true;
      r := 0;
    }

    /** lttvwindowtraces_unlock: -1 when the trace is not locked; otherwise
     *  the lock is released and 0 returned. */
    method Unlock() returns (r: int)
      modifies this
      ensures !old(locked) ==> r == -1
      ensures old(locked) ==> r == 0
      ensures !locked
      ensures inProgress == old(inProgress) && ready == old(ready)
      ensures requestsQueue == old(requestsQueue) && requestsCurrent == old(requestsCurrent)
      ensures notifyQueue == old(notifyQueue) && notifyCurrent == old(notifyCurrent)
    {
      if !locked {
        return -1;
      }
      locked := false;
      r := 0;
    }

    /** lttvwindowtraces_get_lock_state. */
    method GetLockState() returns (r: bool)
      ensures r == locked
    {
      r := locked;
    }

    /** lttvwindowtraces_set_in_progress. */
    method SetInProgress(m: nat)
      modifies this
      ensures inProgress == old(inProgress) + {m}
      ensures locked == old(locked) && ready == old(ready)
      ensures requestsQueue == old(requestsQueue) && requestsCurrent == old(requestsCurrent)
      ensures notifyQueue == old(notifyQueue) && notifyCurrent == old(notifyCurrent)
    {
      inProgress := inProgress + {m};
    }

    /** lttvwindowtraces_unset_in_progress. */
    method UnsetInProgress(m: nat)
      modifies this
      ensures inProgress == old(inProgress) - {m}
      ensures locked == old(locked) && ready == old(ready)
      ensures requestsQueue == old(requestsQueue) && requestsCurrent == old(requestsCurrent)
      ensures notifyQueue == old(notifyQueue) && notifyCurrent == old(notifyCurrent)
    {
      inProgress := inProgress - {m};
    }

    /** lttvwindowtraces_get_in_progress. */
    method GetInProgress(m: nat) returns (r: bool)
      ensures r <==> m in inProgress
    {
      r := m in inProgress;
    }

    /** lttvwindowtraces_set_ready. */
    method SetReady(m: nat)
      modifies this
      ensures ready == old(ready) + {m}
      ensures locked == old(locked) && inProgress == old(inProgress)
      ensures requestsQueue == old(requestsQueue) && requestsCurrent == old(requestsCurrent)
      ensures notifyQueue == old(notifyQueue) && notifyCurrent == old(notifyCurrent)
    {
      ready := ready + {m};
    }

    /** lttvwindowtraces_unset_ready. */
    method UnsetReady(m: nat)
      modifies this
      ensures ready == old(ready) - {m}
      ensures locked == old(locked) && inProgress == old(inProgress)
      ensures requestsQueue == old(requestsQueue) && requestsCurrent == old(requestsCurrent)
      ensures notifyQueue == old(notifyQueue) && notifyCurrent == old(notifyCurrent)
    {
      ready := ready - {m};
    }

    /** lttvwindowtraces_get_ready. */
    method GetReady(m: nat) returns (r: bool)
      ensures r <==> m in ready
    {
      r := m in ready;
    }

    /** lttvwindowtraces_background_request_queue, once the calculator is
     *  known to be registered (calculatorLoaded); a missing calculator
     *  leaves the queue as it was. */
    method RequestQueue(m: nat, traceId: nat, calculatorLoaded: bool)
      modifies this
      ensures requestsQueue == old(requestsQueue) + (if calculatorLoaded then [BackgroundRequest(m, traceId)] else [])
      ensures locked == old(locked) && inProgress == old(inProgress) && ready == old(ready)
      ensures requestsCurrent == old(requestsCurrent)
      ensures notifyQueue == old(notifyQueue) && notifyCurrent == old(notifyCurrent)
    {
      if calculatorLoaded {
        requestsQueue := requestsQueue + [BackgroundRequest(m, traceId)];
      }
    }

    /** lttvwindowtraces_background_request_remove: every queued request of
     *  module m goes, the others stay in order. */
    method RequestRemove(m: nat)
      modifies this
      ensures requestsQueue == Without(old(requestsQueue), ModuleOf, m)
      ensures locked == old(locked) && inProgress == old(inProgress) && ready == old(ready)
      ensures requestsCurrent == old(requestsCurrent)
      ensures notifyQueue == old(notifyQueue) && notifyCurrent == old(notifyCurrent)
    {
      requestsQueue := RemoveAll(requestsQueue, ModuleOf, m);
    }

    /** lttvwindowtraces_background_request_find. */
    method RequestFind(m: nat) returns (r: bool)
      ensures r <==> exists i :: 0 <= i < |requestsQueue| && requestsQueue[i].moduleName == m
    {
      var i := 0;
      while i < |requestsQueue|
        invariant 0 <= i <= |requestsQueue|
        invariant forall j :: 0 <= j < i ==> requestsQueue[j].moduleName != m
      {
        if requestsQueue[i].moduleName == m {
          return true;
        }
        i := i + 1;
      }
      r := false;
    }

    /** lttvwindowtraces_background_notify_queue. */
    method NotifyQueue(n: BackgroundNotify)
      modifies this
      ensures notifyQueue == old(notifyQueue) + [n]
      ensures locked == old(locked) && inProgress == old(inProgress) && ready == old(ready)
      ensures requestsQueue == old(requestsQueue) && requestsCurrent == old(requestsCurrent)
      ensures notifyCurrent == old(notifyCurrent)
    {
      notifyQueue := notifyQueue + [n];
    }

    /** lttvwindowtraces_background_notify_current. */
    method NotifyCurrent(n: BackgroundNotify)
      modifies this
      ensures notifyCurrent == old(notifyCurrent) + [n]
      ensures locked == old(locked) && inProgress == old(inProgress) && ready == old(ready)
      ensures requestsQueue == old(requestsQueue) && requestsCurrent == old(requestsCurrent)
      ensures notifyQueue == old(notifyQueue)
    {
      notifyCurrent := notifyCurrent + [n];
    }

    /** The part of lttvwindowtraces_background_notify_remove for one trace:
     *  the owner's notifications leave both lists. */
    method RemoveOwner(owner: nat)
      modifies this
      ensures notifyQueue == Without(old(notifyQueue), OwnerOf, owner)
      ensures notifyCurrent == Without(old(notifyCurrent), OwnerOf, owner)
      ensures locked == old(locked) && inProgress == old(inProgress) && ready == old(ready)
      ensures requestsQueue == old(requestsQueue) && requestsCurrent == old(requestsCurrent)
    {
      notifyQueue := RemoveAll(notifyQueue, OwnerOf, owner);
      notifyCurrent := RemoveAll(notifyCurrent, OwnerOf, owner);
    }

    /** Step 1 of lttvwindowtraces_process_pending_requests. When nothing is
     *  running, every queued request starts, in order, with its module
     *  flagged in progress, and the queued notifications become current;
     *  the C code asserts that no notification was current then. */
    method BeforeProcessing()
      requires requestsCurrent == [] ==> notifyCurrent == []
      modifies this
      ensures old(requestsCurrent) == [] ==>
        requestsCurrent == old(requestsQueue) && requestsQueue == [] &&
        notifyCurrent == old(notifyQueue) && notifyQueue == [] &&
        inProgress == old(inProgress) + Modules(old(requestsQueue))
      ensures old(requestsCurrent) != [] ==>
        requestsCurrent == old(requestsCurrent) && requestsQueue == old(requestsQueue) &&
        notifyCurrent == old(notifyCurrent) && notifyQueue == old(notifyQueue) &&
        inProgress == old(inProgress)
      ensures old(requestsCurrent) == [] ==> RunningFlagged()
      ensures locked == old(locked) && ready == old(ready)
    {
      if requestsCurrent == [] {
        var q, c := MoveAll(requestsQueue, requestsCurrent);
        requestsQueue, requestsCurrent := q, c;
        var flagged := FlagAll(inProgress, requestsCurrent);
        inProgress := flagged;
        var nq, nc := MoveAll(notifyQueue, notifyCurrent);
        notifyQueue, notifyCurrent := nq, nc;
      }
    }

    /** Step 3.2: every current notification that is due is called and
     *  removed; the others stay in order. */
    method NotifyDue(current: Option<Time>, posReached: nat -> bool)
      modifies this
      ensures notifyCurrent == Pending(old(notifyCurrent), current, posReached)
      ensures notifyQueue == old(notifyQueue)
      ensures locked == old(locked) && inProgress == old(inProgress) && ready == old(ready)
      ensures requestsQueue == old(requestsQueue) && requestsCurrent == old(requestsCurrent)
    {
      var kept := KeepPending(notifyCurrent, current, posReached);
      notifyCurrent := kept;
    }

    /** Step 3.3, once the end of the trace is passed: each running request
     *  is no longer in progress and its module is ready, the running list
     *  and the current notifications are emptied, and the scheduler stays
     *  registered (true) exactly when requests are still queued. */
    method EndOfTrace() returns (again: bool)
      modifies this
      ensures inProgress == old(inProgress) - Modules(old(requestsCurrent))
      ensures ready == old(ready) + Modules(old(requestsCurrent))
      ensures requestsCurrent == [] && notifyCurrent == []
      ensures again <==> old(requestsQueue) != []
      ensures locked == old(locked) && requestsQueue == old(requestsQueue) && notifyQueue == old(notifyQueue)
    {
      var prog, rdy := RetireAll(inProgress, ready, requestsCurrent);
      inProgress, ready := prog, rdy;
      requestsCurrent := [];
      notifyCurrent := [];
      again := |requestsQueue| != 0;
    }
  }

  /** The in-progress loop of step 1. */
  method FlagAll(flags: set<nat>, rs: seq<BackgroundRequest>) returns (r: set<nat>)
    ensures r == flags + Modules(rs)
  {
    r := flags;
    for i := 0 to |rs|
      invariant r == flags + Modules(rs[..i])
    {
      assert Modules(rs[..i + 1]) == Modules(rs[..i]) + {rs[i].moduleName} by {
        assert forall j :: 0 <= j < i ==> rs[..i + 1][j] == rs[..i][j];
      }
      r := r + {rs[i].moduleName};
    }
    assert rs[..|rs|] == rs;
  }

  /** The loop of step 3.2. */
  method KeepPending(ns: seq<BackgroundNotify>, current: Option<Time>, posReached: nat -> bool) returns (r: seq<BackgroundNotify>)
    ensures r == Pending(ns, current, posReached)
  {
    r := [];
    for i := 0 to |ns|
      invariant r == Pending(ns[..i], current, posReached)
    {
      PendingAppend(ns[..i], ns[i], current, posReached);
      assert ns[..i + 1] == ns[..i] + [ns[i]];
      if !Due(ns[i], current, posReached) {
        r := r + [ns[i]];
      }
    }
    assert ns[..|ns|] == ns;
  }

  /** The retiring loop of step 3.3: unset in progress, then set ready, one
   *  request after the other. */
  method RetireAll(prog0: set<nat>, ready0: set<nat>, rs: seq<BackgroundRequest>) returns (prog: set<nat>, ready: set<nat>)
    ensures prog == prog0 - Modules(rs) && ready == ready0 + Modules(rs)
  {
    prog, ready := prog0, ready0;
    for i := 0 to |rs|
      invariant prog == prog0 - Modules(rs[..i]) && ready == ready0 + Modules(rs[..i])
    {
      assert Modules(rs[..i + 1]) == Modules(rs[..i]) + {rs[i].moduleName} by {
        assert forall j :: 0 <= j < i ==> rs[..i + 1][j] == rs[..i][j];
      }
      prog := prog - {rs[i].moduleName};
      ready := ready + {rs[i].moduleName};
    }
    assert rs[..|rs|] == rs;
  }

  /** Flagging the requests' modules (FlagAll) and then retiring them
   *  (RetireAll) leaves each request's module ready and not in progress,
   *  keeps the flag of every other module, and a removed module is never
   *  found again. */
  lemma StartThenRetire(prog: set<nat>, ready: set<nat>, rs: seq<BackgroundRequest>, m: nat)
    ensures forall i :: 0 <= i < |rs| ==>
      rs[i].moduleName !in (prog + Modules(rs)) - Modules(rs) && rs[i].moduleName in ready + Modules(rs)
    ensures forall p :: p in prog && (forall i :: 0 <= i < |rs| ==> rs[i].moduleName != p) ==>
      p in (prog + Modules(rs)) - Modules(rs)
    ensures forall i :: 0 <= i < |Without(rs, ModuleOf, m)| ==> Without(rs, ModuleOf, m)[i].moduleName != m
  {
    WithoutMembers(rs, ModuleOf, m);
    forall i | 0 <= i < |Without(rs, ModuleOf, m)|
      ensures Without(rs, ModuleOf, m)[i].moduleName != m
    {
      assert Without(rs, ModuleOf, m)[i] in Without(rs, ModuleOf, m);
    }
  }

  // ---------------------------------------------------------------------
  // All traces
  // ---------------------------------------------------------------------

  /** The first index whose trace has the given name. */
  function FirstNamed(traces: seq<Trace>, path: string): (r: Option<nat>)
    ensures r.Some? ==> r.value < |traces| && traces[r.value].name == path &&
                        forall j :: 0 <= j < r.value ==> traces[j].name != path
    ensures r.None? ==> forall j :: 0 <= j < |traces| ==> traces[j].name != path
  {
    if |traces| == 0 then None
    else if traces[0].name == path then Some(0)
    else match FirstNamed(traces[1..], path)
      case None => None
      case Some(k) => Some(k + 1)
  }

  /** The traces the GUI knows (the LTTV_TRACES attributes). */
  class Registry {
    var traces: seq<Trace>

    constructor ()
      ensures traces == []
    {
      traces := [];
    }

    /** lttvwindowtraces_get_trace_by_name: the first trace of that name,
     *  or none. */
    method GetTraceByName(path: string) returns (r: Option<Trace>)
      ensures r.Some? <==> FirstNamed(traces, path).Some?
      ensures r.Some? ==> r.value == traces[FirstNamed(traces, path).value]
    {
      var i := 0;
      while i < |traces|
        invariant 0 <= i <= |traces|
        invariant forall j :: 0 <= j < i ==> traces[j].name != path
      {
        if traces[i].name == path {
          FirstNamedIs(traces, path, i);
          return Some(traces[i]);
        }
        i := i + 1;
      }
      r := None;
    }

    /** lttvwindowtraces_background_notify_remove: the owner's
     *  notifications leave both lists of every trace; a trace listed twice
     *  is simply cleaned twice. */
    method NotifyRemove(owner: nat)
      modifies set t | t in traces
      ensures traces == old(traces)
      ensures forall t :: t in traces ==>
        t.notifyQueue == Without(old(t.notifyQueue), OwnerOf, owner) &&
        t.notifyCurrent == Without(old(t.notifyCurrent), OwnerOf, owner)
      ensures forall t :: t in traces ==> t.requestsQueue == old(t.requestsQueue) && t.requestsCurrent == old(t.requestsCurrent)
      ensures forall t :: t in traces ==> t.locked == old(t.locked) && t.inProgress == old(t.inProgress) && t.ready == old(t.ready)
    {
      var i := 0;
      while i < |traces|
        invariant 0 <= i <= |traces| && traces == old(traces)
        invariant forall t :: t in traces ==>
          t.Notes() == (if t in traces[..i] then Cleaned(old(t.Notes()), owner) else old(t.Notes()))
        invariant forall t :: t in traces ==> t.Rest() == old(t.Rest())
      {
        var t := traces[i];
        CleanedIdempotent(old(t.Notes()), owner);
        t.RemoveOwner(owner);
        assert traces[..i + 1] == traces[..i] + [t];
        i := i + 1;
      }
      assert traces[..i] == traces;
    }
  }

  /** Both notification lists without the owner's entries. */
  ghost function Cleaned(p: (seq<BackgroundNotify>, seq<BackgroundNotify>), owner: nat): (seq<BackgroundNotify>, seq<BackgroundNotify>) {
    (Without(p.0, OwnerOf, owner), Without(p.1, OwnerOf, owner))
  }

  lemma CleanedIdempotent(p: (seq<BackgroundNotify>, seq<BackgroundNotify>), owner: nat)
    ensures Cleaned(Cleaned(p, owner), owner) == Cleaned(p, owner)
  {
    WithoutIdempotent(p.0, OwnerOf, owner);
    WithoutIdempotent(p.1, OwnerOf, owner);
  }

  lemma FirstNamedIs(traces: seq<Trace>, path: string, i: nat)
    requires i < |traces| && traces[i].name == path
    requires forall j :: 0 <= j < i ==> traces[j].name != path
    ensures FirstNamed(traces, path) == Some(i)
  {
  }
}
