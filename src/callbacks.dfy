/** The foreground events-request scheduler of a tab
 *  (lttvwindow_process_pending_requests in
 *  trunk/lttv/lttv/modules/gui/lttvwindow/lttvwindow/callbacks.c), the
 *  re-entry guards of the time managers and stop_processing.
 *
 *  A tab keeps a list of waiting requests (list_out). One call of the
 *  scheduler picks the waiting requests to serve (list_in), computes
 *  the end criteria of one chunk, lets the traceset reader process at
 *  most that chunk, charges the events read to every served request,
 *  retires the finished ones and puts the others back, at the end of the
 *  waiting list, to resume from the current position. Requests are
 *  values; the reader is a parameter. */
module Callbacks {
  import opened Wrappers
  import opened LttTime
  import TC = TraceContext
  import WT = WindowTraces
  import TB = TimeBar

  // ---------------------------------------------------------------------
  // Requests
  // ---------------------------------------------------------------------

  /** An EventsRequest without its hooks: the viewer that owns it, whether
   *  its before-request hooks have run, where it starts (a time, or a
   *  saved position that wins over it) and where it ends (a time, a
   *  number of events, a saved position, or the viewer's stop flag). */
  datatype EventsRequest = EventsRequest(
    owner: nat,
    servicing: bool,
    startTime: Time,
    startPosition: Option<TC.Position>,
    endTime: Time,
    numEvents: nat,
    endPosition: Option<TC.Position>,
    stopFlag: bool)

  function StartOf(r: EventsRequest): Time { r.startTime }
  function EndOf(r: EventsRequest): Time { r.endTime }
  function StartPositionOf(r: EventsRequest): Option<TC.Position> { r.startPosition }
  function EndPositionOf(r: EventsRequest): Option<TC.Position> { r.endPosition }

  // ---------------------------------------------------------------------
  // Earliest times
  // ---------------------------------------------------------------------

  /** The scans of steps 1.1.1 and 3.1: starting from t, each key time of
   *  rs, left to right, replaces the kept time when strictly earlier. */
  function EarliestFrom(t: Time, rs: seq<EventsRequest>, key: EventsRequest -> Time): Time
    decreases |rs|
  {
    if |rs| == 0 then t else Min(key(rs[|rs| - 1]), EarliestFrom(t, rs[..|rs| - 1], key))
  }

  /** The scan kept the earliest of t and the key times, and it is one of
   *  them. */
  lemma {:induction false} EarliestFromIsMinimum(t: Time, rs: seq<EventsRequest>, key: EventsRequest -> Time)
    ensures LessEq(EarliestFrom(t, rs, key), t)
    ensures forall i :: 0 <= i < |rs| ==> LessEq(EarliestFrom(t, rs, key), key(rs[i]))
    ensures EarliestFrom(t, rs, key) == t || exists i :: 0 <= i < |rs| && key(rs[i]) == EarliestFrom(t, rs, key)
    decreases |rs|
  {
    if |rs| > 0 {
      var p := rs[..|rs| - 1];
      EarliestFromIsMinimum(t, p, key);
      var m := EarliestFrom(t, rs, key);
      var m' := EarliestFrom(t, p, key);
      assert LessEq(m, m');
      CompareTransitive(m, m', t);
      forall i | 0 <= i < |rs| - 1
        ensures LessEq(m, key(rs[i]))
      {
        assert rs[i] == p[i];
        CompareTransitive(m, m', key(rs[i]));
      }
      if m != key(rs[|rs| - 1]) && m != t {
        var j :| 0 <= j < |p| && key(p[j]) == m';
        assert key(rs[j]) == m;
      }
    }
  }

  /** The earliest key time of a non-empty list. */
  function Earliest(rs: seq<EventsRequest>, key: EventsRequest -> Time): Time
    requires |rs| > 0
  {
    EarliestFrom(key(rs[0]), rs[1..], key)
  }

  lemma EarliestIsMinimum(rs: seq<EventsRequest>, key: EventsRequest -> Time)
    requires |rs| > 0
    ensures forall i :: 0 <= i < |rs| ==> LessEq(Earliest(rs, key), key(rs[i]))
    ensures exists i :: 0 <= i < |rs| && key(rs[i]) == Earliest(rs, key)
  {
    var q := rs[1..];
    EarliestFromIsMinimum(key(rs[0]), q, key);
    forall i | 1 <= i < |rs|
      ensures LessEq(Earliest(rs, key), key(rs[i]))
    {
      assert rs[i] == q[i - 1];
    }
    if Earliest(rs, key) != key(rs[0]) {
      var j :| 0 <= j < |q| && key(q[j]) == Earliest(rs, key);
      assert key(rs[j + 1]) == Earliest(rs, key);
    }
  }

  lemma EarliestSnoc(rs: seq<EventsRequest>, x: EventsRequest, key: EventsRequest -> Time)
    requires |rs| > 0
    ensures Earliest(rs + [x], key) == Min(key(x), Earliest(rs, key))
  {
    var q := (rs + [x])[1..];
    assert q[..|q| - 1] == rs[1..];
  }

  // ---------------------------------------------------------------------
  // 1.1.1: the time requests with the lowest start time
  // ---------------------------------------------------------------------

  /** The requests of rs, in order, that start at time t. */
  function AtTime(rs: seq<EventsRequest>, t: Time): seq<EventsRequest>
    decreases |rs|
  {
    if |rs| == 0 then []
    else AtTime(rs[..|rs| - 1], t) + (if rs[|rs| - 1].startTime == t then [rs[|rs| - 1]] else [])
  }

  lemma {:induction false} AtTimeIn(rs: seq<EventsRequest>, t: Time)
    ensures forall x :: x in AtTime(rs, t) <==> x in rs && x.startTime == t
    decreases |rs|
  {
    if |rs| > 0 {
      var p := rs[..|rs| - 1];
      var y := rs[|rs| - 1];
      AtTimeIn(p, t);
      assert rs == p + [y];
      assert AtTime(rs, t) == AtTime(p, t) + (if y.startTime == t then [y] else []);
    }
  }

  lemma {:induction false} AtTimeCount(rs: seq<EventsRequest>, t: Time)
    ensures multiset(AtTime(rs, t)) <= multiset(rs)
    decreases |rs|
  {
    if |rs| > 0 {
      var p := rs[..|rs| - 1];
      var y := rs[|rs| - 1];
      AtTimeCount(p, t);
      assert rs == p + [y];
      assert multiset(rs) == multiset(p) + multiset{y};
      assert multiset(AtTime(rs, t)) == multiset(AtTime(p, t)) + multiset(if y.startTime == t then [y] else []);
    }
  }

  /** AtTime keeps exactly the requests starting at t, each at most as
   *  often as rs has it; with none of them it is empty. */
  lemma AtTimeMembers(rs: seq<EventsRequest>, t: Time)
    ensures forall x :: x in AtTime(rs, t) <==> x in rs && x.startTime == t
    ensures multiset(AtTime(rs, t)) <= multiset(rs)
    ensures (forall x :: x in rs ==> x.startTime != t) ==> AtTime(rs, t) == []
  {
    AtTimeIn(rs, t);
    AtTimeCount(rs, t);
    var a := AtTime(rs, t);
    if |a| > 0 {
      assert a[0] in a;
    }
  }

  /** ltime: the waiting requests whose start time is the earliest. */
  function LowestTime(out: seq<EventsRequest>): seq<EventsRequest>
    requires |out| > 0
  {
    AtTime(out, Earliest(out, StartOf))
  }

  /** ltime holds exactly the waiting requests that start no later than
   *  any other, each as often as in the waiting list at most. */
  lemma LowestTimeExactly(out: seq<EventsRequest>)
    requires |out| > 0
    ensures forall x :: x in LowestTime(out) <==>
      x in out && forall y :: y in out ==> LessEq(x.startTime, y.startTime)
    ensures multiset(LowestTime(out)) <= multiset(out)
  {
    var m := Earliest(out, StartOf);
    EarliestIsMinimum(out, StartOf);
    AtTimeMembers(out, m);
    forall x | x in out && (forall y :: y in out ==> LessEq(x.startTime, y.startTime))
      ensures x in LowestTime(out)
    {
      var j :| 0 <= j < |out| && StartOf(out[j]) == m;
      assert LessEq(x.startTime, out[j].startTime);
      var i :| 0 <= i < |out| && out[i] == x;
      assert LessEq(m, StartOf(out[i]));
    }
    forall x | x in LowestTime(out)
      ensures forall y :: y in out ==> LessEq(x.startTime, y.startTime)
    {
      forall y | y in out
        ensures LessEq(x.startTime, y.startTime)
      {
        var i :| 0 <= i < |out| && out[i] == y;
        assert LessEq(m, StartOf(out[i]));
      }
    }
  }

  lemma LowestTimeHead(out: seq<EventsRequest>)
    requires |out| > 0
    ensures |LowestTime(out)| > 0
    ensures LowestTime(out)[0].startTime == Earliest(out, StartOf)
  {
    var m := Earliest(out, StartOf);
    EarliestIsMinimum(out, StartOf);
    AtTimeMembers(out, m);
    var j :| 0 <= j < |out| && StartOf(out[j]) == m;
    assert out[j] in LowestTime(out);
    assert LowestTime(out)[0] in LowestTime(out);
  }

  /** One step of the ltime scan: an equal start time joins ltime, an
   *  earlier one starts a new ltime, a later one is passed over. */
  lemma LowestTimeSnoc(rs: seq<EventsRequest>, x: EventsRequest)
    requires |rs| > 0
    ensures var c := Compare(Earliest(rs, StartOf), x.startTime);
      LowestTime(rs + [x]) ==
        if c == 0 then LowestTime(rs) + [x] else if c > 0 then [x] else LowestTime(rs)
  {
    var m := Earliest(rs, StartOf);
    EarliestSnoc(rs, x, StartOf);
    assert (rs + [x])[..|rs|] == rs;
    var c := Compare(m, x.startTime);
    if c > 0 {
      EarliestIsMinimum(rs, StartOf);
      AtTimeMembers(rs, x.startTime);
      forall y | y in rs
        ensures y.startTime != x.startTime
      {
        var i :| 0 <= i < |rs| && rs[i] == y;
        assert LessEq(m, StartOf(rs[i]));
      }
    }
  }

  /** lttvwindow_process_pending_requests, step 1.1.1. */
  method FindLowestTime(out: seq<EventsRequest>) returns (ltime: seq<EventsRequest>)
    requires |out| > 0
    ensures ltime == LowestTime(out)
  {
    ltime := [out[0]];
    assert out[..1] == [out[0]];
    assert Earliest([out[0]], StartOf) == out[0].startTime;
    assert [out[0]][..0] == [];
    assert AtTime([out[0]], out[0].startTime) == [out[0]];
    var i := 1;
    while i < |out|
      invariant 1 <= i <= |out|
      invariant ltime == LowestTime(out[..i])
    {
      LowestTimeHead(out[..i]);
      var x := out[i];
      var comp := Compare(ltime[0].startTime, x.startTime);
      if comp == 0 {
        ltime := ltime + [x];
      } else if comp > 0 {
        ltime := [x];
      }
      LowestTimeSnoc(out[..i], x);
      assert out[..i + 1] == out[..i] + [x];
      i := i + 1;
    }
    assert out[..i] == out;
  }

  // ---------------------------------------------------------------------
  // 1.1.2: the position requests with the lowest position
  // ---------------------------------------------------------------------

  /** The comparison of step 1.1.2: pos_pos_compare when both requests
   *  have a start position, and "smaller" (-1) otherwise. */
  function PositionCompare(l: EventsRequest, x: EventsRequest): int
  {
    if l.startPosition.Some? && x.startPosition.Some?
    then TC.PosPosCompareOf(l.startPosition.value, x.startPosition.value)
    else -1
  }

  /** lpos: the scan of step 1.1.2 over the waiting list, which starts
   *  from the first request and compares every later one with the head
   *  of what it keeps. */
  function LowestPosition(rs: seq<EventsRequest>): (l: seq<EventsRequest>)
    requires |rs| > 0
    ensures |l| > 0
    decreases |rs|
  {
    if |rs| == 1 then [rs[0]]
    else
      var l := LowestPosition(rs[..|rs| - 1]);
      var x := rs[|rs| - 1];
      var comp := PositionCompare(l[0], x);
      if comp == 0 then l + [x] else if comp > 0 then [x] else l
  }

  /** lpos is drawn from the waiting list; when it holds more than one
   *  request, all of them have a start position comparing equal to the
   *  first one's. */
  lemma {:induction false} LowestPositionCount(rs: seq<EventsRequest>)
    requires |rs| > 0
    ensures multiset(LowestPosition(rs)) <= multiset(rs)
    decreases |rs|
  {
    if |rs| > 1 {
      var p := rs[..|rs| - 1];
      var x := rs[|rs| - 1];
      LowestPositionCount(p);
      assert rs == p + [x];
      assert multiset(rs) == multiset(p) + multiset{x};
    }
  }

  lemma {:induction false} LowestPositionEqual(rs: seq<EventsRequest>)
    requires |rs| > 0
    ensures var l := LowestPosition(rs);
      |l| > 1 ==> forall k :: 0 <= k < |l| ==> l[k].startPosition.Some?
    ensures var l := LowestPosition(rs);
      forall k :: 0 < k < |l| ==>
        TC.PosPosCompareOf(l[0].startPosition.value, l[k].startPosition.value) == 0
    decreases |rs|
  {
    if |rs| > 1 {
      var p := rs[..|rs| - 1];
      LowestPositionEqual(p);
    }
  }

  /** lpos is drawn from the waiting list; when it holds more than one
   *  request, all of them have a start position comparing equal to the
   *  first one's. */
  lemma LowestPositionShares(rs: seq<EventsRequest>)
    requires |rs| > 0
    ensures multiset(LowestPosition(rs)) <= multiset(rs)
    ensures var l := LowestPosition(rs);
      |l| > 1 ==> forall k :: 0 <= k < |l| ==> l[k].startPosition.Some?
    ensures var l := LowestPosition(rs);
      forall k :: 0 < k < |l| ==>
        TC.PosPosCompareOf(l[0].startPosition.value, l[k].startPosition.value) == 0
  {
    LowestPositionCount(rs);
    LowestPositionEqual(rs);
  }

  /** When the first waiting request has no start position, no position
   *  request is ever compared, and lpos is that request alone. */
  lemma {:induction false} LowestPositionTimeFirst(rs: seq<EventsRequest>)
    requires |rs| > 0 && rs[0].startPosition.None?
    ensures LowestPosition(rs) == [rs[0]]
    decreases |rs|
  {
    if |rs| > 1 {
      var p := rs[..|rs| - 1];
      assert p[0] == rs[0];
      LowestPositionTimeFirst(p);
    }
  }

  /** lttvwindow_process_pending_requests, step 1.1.2. */
  method FindLowestPosition(out: seq<EventsRequest>) returns (lpos: seq<EventsRequest>)
    requires |out| > 0
    ensures lpos == LowestPosition(out)
  {
    lpos := [out[0]];
    assert out[..1] == [out[0]];
    var i := 1;
    while i < |out|
      invariant 1 <= i <= |out|
      invariant lpos == LowestPosition(out[..i])
    {
      var x := out[i];
      var comp: int;
      if lpos[0].startPosition != None && x.startPosition != None {
        comp := TC.PosPosCompare(lpos[0].startPosition.value, x.startPosition.value);
      } else {
        comp := -1;
      }
      if comp == 0 {
        lpos := lpos + [x];
      } else if comp > 0 {
        lpos := [x];
      }
      assert out[..i + 1][..i] == out[..i];
      i := i + 1;
    }
    assert out[..i] == out;
  }

  // ---------------------------------------------------------------------
  // 1.1.3 / 1.1.4: the requests to serve
  // ---------------------------------------------------------------------

  /** Steps 1.1.3 and 1.1.4: lpos is served when its head has a start
   *  position whose time is before ltime's start time, ltime otherwise. */
  function Selected(out: seq<EventsRequest>): (s: seq<EventsRequest>)
    requires |out| > 0
    ensures |s| > 0
  {
    LowestTimeHead(out);
    var ltime := LowestTime(out);
    var lpos := LowestPosition(out);
    if lpos[0].startPosition.Some? && Less(lpos[0].startPosition.value.timestamp, ltime[0].startTime)
    then lpos else ltime
  }

  /** The served requests come from the waiting list. Either they are the
   *  requests with the earliest start time, or they are position requests
   *  whose position time is before every waiting start time. */
  lemma SelectedChoice(out: seq<EventsRequest>)
    requires |out| > 0
    ensures multiset(Selected(out)) <= multiset(out)
    ensures var s := Selected(out);
      s == LowestTime(out) ||
      (s == LowestPosition(out) && s[0].startPosition.Some? &&
       forall y :: y in out ==> Less(s[0].startPosition.value.timestamp, y.startTime))
  {
    LowestTimeExactly(out);
    LowestTimeHead(out);
    LowestPositionShares(out);
    var s := Selected(out);
    if s != LowestTime(out) {
      var ltime := LowestTime(out);
      assert ltime[0] in ltime;
      forall y | y in out
        ensures Less(s[0].startPosition.value.timestamp, y.startTime)
      {
        CompareTransitive(s[0].startPosition.value.timestamp, ltime[0].startTime, y.startTime);
      }
    }
  }

  /** g_slist_remove: the first element equal to x is unlinked. */
  function RemoveFirst(xs: seq<EventsRequest>, x: EventsRequest): seq<EventsRequest>
    decreases |xs|
  {
    if |xs| == 0 then []
    else if xs[0] == x then xs[1..]
    else [xs[0]] + RemoveFirst(xs[1..], x)
  }

  lemma {:induction false} RemoveFirstCount(xs: seq<EventsRequest>, x: EventsRequest)
    ensures multiset(RemoveFirst(xs, x)) == multiset(xs) - multiset{x}
    decreases |xs|
  {
    if |xs| > 0 {
      assert xs == [xs[0]] + xs[1..];
      if xs[0] != x {
        RemoveFirstCount(xs[1..], x);
      }
    }
  }

  /** Every element of ys removed from xs in turn. */
  function RemoveEach(xs: seq<EventsRequest>, ys: seq<EventsRequest>): seq<EventsRequest>
    decreases |ys|
  {
    if |ys| == 0 then xs else RemoveFirst(RemoveEach(xs, ys[..|ys| - 1]), ys[|ys| - 1])
  }

  lemma {:induction false} RemoveEachCount(xs: seq<EventsRequest>, ys: seq<EventsRequest>)
    ensures multiset(RemoveEach(xs, ys)) == multiset(xs) - multiset(ys)
    decreases |ys|
  {
    if |ys| > 0 {
      var p := ys[..|ys| - 1];
      var y := ys[|ys| - 1];
      RemoveEachCount(xs, p);
      RemoveFirstCount(RemoveEach(xs, p), y);
      assert ys == p + [y];
      assert multiset(ys) == multiset(p) + multiset{y};
      MultisetMinusTwice(multiset(xs), multiset(p), multiset{y});
    }
  }

  lemma MultisetMinusTwice(a: multiset<EventsRequest>, b: multiset<EventsRequest>, c: multiset<EventsRequest>)
    ensures (a - b) - c == a - (b + c)
  {
    forall x
      ensures ((a - b) - c)[x] == (a - (b + c))[x]
    {
    }
  }

  /** Moving the served requests to list_in loses and duplicates nothing:
   *  together with what stays waiting they are the old waiting list. */
  lemma MoveConserves(out: seq<EventsRequest>)
    requires |out| > 0
    ensures multiset(Selected(out)) + multiset(RemoveEach(out, Selected(out))) == multiset(out)
    ensures |RemoveEach(out, Selected(out))| == |out| - |Selected(out)|
  {
    SelectedChoice(out);
    RemoveEachCount(out, Selected(out));
    assert |multiset(RemoveEach(out, Selected(out)))| == |RemoveEach(out, Selected(out))|;
  }

  /** The add-and-remove loops of steps 1.1.3 and 1.1.4. */
  method Move(out: seq<EventsRequest>, chosen: seq<EventsRequest>) returns (listIn: seq<EventsRequest>, listOut: seq<EventsRequest>)
    ensures listIn == chosen && listOut == RemoveEach(out, chosen)
  {
    listIn := [];
    listOut := out;
    var k := 0;
    while k < |chosen|
      invariant 0 <= k <= |chosen|
      invariant listIn == chosen[..k] && listOut == RemoveEach(out, chosen[..k])
    {
      listIn := listIn + [chosen[k]];
      listOut := RemoveFirst(listOut, chosen[k]);
      assert chosen[..k + 1][..k] == chosen[..k];
      k := k + 1;
    }
    assert chosen[..k] == chosen;
  }

  /** Step 1.3: every served request not yet servicing is now servicing
   *  (its before-request hooks are not modelled). */
  function Begun(rs: seq<EventsRequest>): (r: seq<EventsRequest>)
    ensures |r| == |rs|
    ensures forall i :: 0 <= i < |rs| ==> r[i] == rs[i].(servicing := true)
  {
    seq(|rs|, i requires 0 <= i < |rs| => rs[i].(servicing := true))
  }

  method Begin(listIn: seq<EventsRequest>) returns (r: seq<EventsRequest>)
    ensures r == Begun(listIn)
  {
    r := listIn;
    var k := 0;
    while k < |r|
      invariant 0 <= k <= |r| == |listIn|
      invariant forall j :: 0 <= j < k ==> r[j] == listIn[j].(servicing := true)
      invariant forall j :: k <= j < |r| ==> r[j] == listIn[j]
    {
      if !r[k].servicing {
        r := r[k := r[k].(servicing := true)];
      }
      k := k + 1;
    }
  }

  // ---------------------------------------------------------------------
  // 3: the end criteria of a chunk
  // ---------------------------------------------------------------------

  /** Step 3.1: the lowest end time of the served requests, lowered to any
   *  earlier start time of a waiting request. */
  function ChunkEndTime(listIn: seq<EventsRequest>, listOut: seq<EventsRequest>): Time
    requires |listIn| > 0
  {
    EarliestFrom(Earliest(listIn, EndOf), listOut, StartOf)
  }

  /** The chunk ends no later than any served request's end time and any
   *  waiting request's start time, and at one of those times. */
  lemma ChunkEndTimeIsMinimum(listIn: seq<EventsRequest>, listOut: seq<EventsRequest>)
    requires |listIn| > 0
    ensures forall x :: x in listIn ==> LessEq(ChunkEndTime(listIn, listOut), x.endTime)
    ensures forall y :: y in listOut ==> LessEq(ChunkEndTime(listIn, listOut), y.startTime)
    ensures (exists x :: x in listIn && x.endTime == ChunkEndTime(listIn, listOut)) ||
            (exists y :: y in listOut && y.startTime == ChunkEndTime(listIn, listOut))
  {
    var e := Earliest(listIn, EndOf);
    var t := ChunkEndTime(listIn, listOut);
    EarliestIsMinimum(listIn, EndOf);
    EarliestFromIsMinimum(e, listOut, StartOf);
    forall x | x in listIn
      ensures LessEq(t, x.endTime)
    {
      var i :| 0 <= i < |listIn| && listIn[i] == x;
      CompareTransitive(t, e, EndOf(listIn[i]));
    }
    forall y | y in listOut
      ensures LessEq(t, y.startTime)
    {
      var i :| 0 <= i < |listOut| && listOut[i] == y;
      assert LessEq(t, StartOf(listOut[i]));
    }
    if t == e {
      var i :| 0 <= i < |listIn| && EndOf(listIn[i]) == e;
      assert listIn[i] in listIn;
    } else {
      var i :| 0 <= i < |listOut| && StartOf(listOut[i]) == t;
      assert listOut[i] in listOut;
    }
  }

  /** The scan of step 3.2.1: starting from n, each event count of rs
   *  replaces the kept one when strictly smaller. */
  function FewestFrom(n: nat, rs: seq<EventsRequest>): nat
    decreases |rs|
  {
    if |rs| == 0 then n
    else
      var m := FewestFrom(n, rs[..|rs| - 1]);
      if rs[|rs| - 1].numEvents < m then rs[|rs| - 1].numEvents else m
  }

  lemma {:induction false} FewestFromIsMinimum(n: nat, rs: seq<EventsRequest>)
    ensures FewestFrom(n, rs) <= n
    ensures forall i :: 0 <= i < |rs| ==> FewestFrom(n, rs) <= rs[i].numEvents
    ensures FewestFrom(n, rs) == n || exists i :: 0 <= i < |rs| && rs[i].numEvents == FewestFrom(n, rs)
    decreases |rs|
  {
    if |rs| > 0 {
      var p := rs[..|rs| - 1];
      FewestFromIsMinimum(n, p);
      assert forall i :: 0 <= i < |p| ==> rs[i] == p[i];
      if FewestFrom(n, rs) != n && FewestFrom(n, rs) == FewestFrom(n, p) {
        var j :| 0 <= j < |p| && p[j].numEvents == FewestFrom(n, p);
        assert rs[j].numEvents == FewestFrom(n, rs);
      }
    }
  }

  /** Step 3.2: MIN(CHUNK_NUM_EVENTS, the fewest events a served request
   *  still wants). */
  function ChunkEvents(listIn: seq<EventsRequest>, chunkNumEvents: nat): nat
    requires |listIn| > 0
  {
    var m := FewestFrom(listIn[0].numEvents, listIn[1..]);
    if chunkNumEvents < m then chunkNumEvents else m
  }

  /** The event budget is at most the chunk size and at most what any
   *  served request still wants, and it is one of those numbers. */
  lemma ChunkEventsIsMinimum(listIn: seq<EventsRequest>, chunkNumEvents: nat)
    requires |listIn| > 0
    ensures ChunkEvents(listIn, chunkNumEvents) <= chunkNumEvents
    ensures forall x :: x in listIn ==> ChunkEvents(listIn, chunkNumEvents) <= x.numEvents
    ensures ChunkEvents(listIn, chunkNumEvents) == chunkNumEvents ||
            exists x :: x in listIn && x.numEvents == ChunkEvents(listIn, chunkNumEvents)
  {
    var q := listIn[1..];
    FewestFromIsMinimum(listIn[0].numEvents, q);
    forall x | x in listIn
      ensures ChunkEvents(listIn, chunkNumEvents) <= x.numEvents
    {
      var i :| 0 <= i < |listIn| && listIn[i] == x;
      if i > 0 {
        assert x == q[i - 1];
      }
    }
    var m := FewestFrom(listIn[0].numEvents, q);
    if ChunkEvents(listIn, chunkNumEvents) != chunkNumEvents && m != listIn[0].numEvents {
      var j :| 0 <= j < |q| && q[j].numEvents == m;
      assert q[j] in listIn;
    }
  }

  /** The position step of step 3.3 as it was evidently meant: a missing
   *  position is skipped, a present one replaces a missing or a later
   *  kept position. */
  function LowerPosition(e: Option<TC.Position>, p: Option<TC.Position>): Option<TC.Position>
  {
    if p.None? then e
    else if e.None? then p
    else if TC.PosPosCompareOf(p.value, e.value) < 0 then p
    else e
  }

  function PositionsFrom(e: Option<TC.Position>, rs: seq<EventsRequest>, key: EventsRequest -> Option<TC.Position>): Option<TC.Position>
    decreases |rs|
  {
    if |rs| == 0 then e else LowerPosition(PositionsFrom(e, rs[..|rs| - 1], key), key(rs[|rs| - 1]))
  }

  /** The scan yields a position exactly when one is given, and then one
   *  of the given ones. */
  lemma {:induction false} PositionsFromPresent(e: Option<TC.Position>, rs: seq<EventsRequest>, key: EventsRequest -> Option<TC.Position>)
    ensures PositionsFrom(e, rs, key).None? <==> e.None? && forall i :: 0 <= i < |rs| ==> key(rs[i]).None?
    ensures PositionsFrom(e, rs, key) == e || exists i :: 0 <= i < |rs| && key(rs[i]) == PositionsFrom(e, rs, key)
    decreases |rs|
  {
    if |rs| > 0 {
      var p := rs[..|rs| - 1];
      PositionsFromPresent(e, p, key);
      assert forall i :: 0 <= i < |p| ==> rs[i] == p[i];
      var r := PositionsFrom(e, rs, key);
      if r != e && r != key(rs[|rs| - 1]) {
        var j :| 0 <= j < |p| && key(p[j]) == PositionsFrom(e, p, key);
        assert key(rs[j]) == r;
      }
    }
  }

  /** Step 3.3 with its evident intent: the lowest end position of the
   *  served requests, lowered to any earlier start position of a waiting
   *  request. */
  function ChunkEndPosition(listIn: seq<EventsRequest>, listOut: seq<EventsRequest>): Option<TC.Position>
    requires |listIn| > 0
  {
    PositionsFrom(PositionsFrom(listIn[0].endPosition, listIn[1..], EndPositionOf), listOut, StartPositionOf)
  }

  /** The chunk has an end position exactly when some served request has an
   *  end position or some waiting request a start position, and it is one
   *  of them. */
  lemma ChunkEndPositionPresent(listIn: seq<EventsRequest>, listOut: seq<EventsRequest>)
    requires |listIn| > 0
    ensures ChunkEndPosition(listIn, listOut).None? <==>
      (forall x :: x in listIn ==> x.endPosition.None?) &&
      (forall y :: y in listOut ==> y.startPosition.None?)
    ensures var r := ChunkEndPosition(listIn, listOut);
      r.Some? ==>
        (exists x :: x in listIn && x.endPosition == r) ||
        (exists y :: y in listOut && y.startPosition == r)
  {
    var q := listIn[1..];
    var e := PositionsFrom(listIn[0].endPosition, q, EndPositionOf);
    PositionsFromPresent(listIn[0].endPosition, q, EndPositionOf);
    PositionsFromPresent(e, listOut, StartPositionOf);
    var r := ChunkEndPosition(listIn, listOut);
    if r.None? {
      forall x | x in listIn
        ensures x.endPosition.None?
      {
        var i :| 0 <= i < |listIn| && listIn[i] == x;
        if i > 0 {
          assert x == q[i - 1];
        }
      }
      forall y | y in listOut
        ensures y.startPosition.None?
      {
        var i :| 0 <= i < |listOut| && listOut[i] == y;
        assert StartPositionOf(listOut[i]).None?;
      }
    } else {
      if r == e {
        if e != listIn[0].endPosition {
          var j :| 0 <= j < |q| && EndPositionOf(q[j]) == e;
          assert q[j] in listIn;
        } else {
          assert listIn[0] in listIn;
        }
      } else {
        var j :| 0 <= j < |listOut| && StartPositionOf(listOut[j]) == r;
        assert listOut[j] in listOut;
      }
    }
    if (forall x :: x in listIn ==> x.endPosition.None?) &&
       (forall y :: y in listOut ==> y.startPosition.None?) {
      assert listIn[0] in listIn;
      forall i | 0 <= i < |q|
        ensures EndPositionOf(q[i]).None?
      {
        assert q[i] in listIn;
      }
      forall i | 0 <= i < |listOut|
        ensures StartPositionOf(listOut[i]).None?
      {
        assert listOut[i] in listOut;
      }
    }
  }

  /** The position step of step 3.3 as written: a position replaces the
   *  kept one only when both are present and it is smaller. */
  function LowerAsWritten(e: Option<TC.Position>, p: Option<TC.Position>): Option<TC.Position>
  {
    if p.Some? && e.Some? && TC.PosPosCompareOf(p.value, e.value) < 0 then p else e
  }

  function PositionsFromAsWritten(e: Option<TC.Position>, rs: seq<EventsRequest>, key: EventsRequest -> Option<TC.Position>): Option<TC.Position>
    decreases |rs|
  {
    if |rs| == 0 then e else LowerAsWritten(PositionsFromAsWritten(e, rs[..|rs| - 1], key), key(rs[|rs| - 1]))
  }

  /** Step 3.3 as written: both scans start from the first served request's
   *  end position, and the scan of the waiting list (meant, by its own
   *  comment, to find their lowest start position) reads their end
   *  positions. */
  function EndPositionAsWritten(listIn: seq<EventsRequest>, listOut: seq<EventsRequest>): Option<TC.Position>
    requires |listIn| > 0
  {
    PositionsFromAsWritten(PositionsFromAsWritten(listIn[0].endPosition, listIn[1..], EndPositionOf), listOut, EndPositionOf)
  }

  lemma {:induction false} AsWrittenStaysMissing(rs: seq<EventsRequest>, key: EventsRequest -> Option<TC.Position>)
    ensures PositionsFromAsWritten(None, rs, key) == None
    decreases |rs|
  {
    if |rs| > 0 {
      AsWrittenStaysMissing(rs[..|rs| - 1], key);
    }
  }

  /** As written, when the first served request has no end position the
   *  chunk has none, whatever the other requests' end positions. */
  lemma EndPositionBlockedAsWritten(listIn: seq<EventsRequest>, listOut: seq<EventsRequest>)
    requires |listIn| > 0 && listIn[0].endPosition.None?
    ensures EndPositionAsWritten(listIn, listOut) == None
  {
    AsWrittenStaysMissing(listIn[1..], EndPositionOf);
    AsWrittenStaysMissing(listOut, EndPositionOf);
  }

  /** Two requests served together, the second with an end position: as
   *  written the chunk is not bounded by it, as meant it is. */
  lemma EndPositionMissedAsWritten(a: EventsRequest, b: EventsRequest)
    requires a.endPosition.None? && b.endPosition.Some?
    ensures EndPositionAsWritten([a, b], []) == None
    ensures ChunkEndPosition([a, b], []) == b.endPosition
  {
    EndPositionBlockedAsWritten([a, b], []);
    assert [a, b][1..] == [b];
    assert [b][..0] == [];
    assert PositionsFrom(None, [b], EndPositionOf) == LowerPosition(None, b.endPosition);
  }

  /** A waiting request whose start position is before a served request's
   *  end position: as written the chunk may run past it, as meant it
   *  stops there. */
  lemma StartPositionIgnoredAsWritten(a: EventsRequest, w: EventsRequest)
    requires a.endPosition.Some? && w.startPosition.Some? && w.endPosition.None?
    requires TC.PosPosCompareOf(w.startPosition.value, a.endPosition.value) < 0
    ensures EndPositionAsWritten([a], [w]) == a.endPosition
    ensures ChunkEndPosition([a], [w]) == w.startPosition
  {
    assert [a][1..] == [];
    assert [w][..0] == [];
    assert PositionsFrom(a.endPosition, [a][1..], EndPositionOf) == a.endPosition;
    assert PositionsFrom(a.endPosition, [w], StartPositionOf) == LowerPosition(a.endPosition, w.startPosition);
    assert PositionsFromAsWritten(a.endPosition, [a][1..], EndPositionOf) == a.endPosition;
    assert PositionsFromAsWritten(a.endPosition, [w], EndPositionOf) == LowerAsWritten(a.endPosition, w.endPosition);
  }

  /** Step 3.1, for the served and the waiting requests. */
  method FindEndTime(listIn: seq<EventsRequest>, listOut: seq<EventsRequest>) returns (t: Time)
    requires |listIn| > 0
    ensures t == ChunkEndTime(listIn, listOut)
  {
    t := listIn[0].endTime;
    var k := 1;
    assert listIn[1..1] == [];
    while k < |listIn|
      invariant 1 <= k <= |listIn|
      invariant t == EarliestFrom(listIn[0].endTime, listIn[1..k], EndOf)
    {
      if Compare(listIn[k].endTime, t) < 0 {
        t := listIn[k].endTime;
      }
      assert listIn[1..k + 1][..k - 1] == listIn[1..k];
      k := k + 1;
    }
    assert listIn[1..k] == listIn[1..];
    k := 0;
    ghost var e := t;
    while k < |listOut|
      invariant 0 <= k <= |listOut|
      invariant t == EarliestFrom(e, listOut[..k], StartOf)
    {
      if Compare(listOut[k].startTime, t) < 0 {
        t := listOut[k].startTime;
      }
      assert listOut[..k + 1][..k] == listOut[..k];
      k := k + 1;
    }
    assert listOut[..k] == listOut;
  }

  /** Step 3.2. */
  method FindEndEvents(listIn: seq<EventsRequest>, chunkNumEvents: nat) returns (n: nat)
    requires |listIn| > 0
    ensures n == ChunkEvents(listIn, chunkNumEvents)
  {
    n := listIn[0].numEvents;
    var k := 1;
    assert listIn[1..1] == [];
    while k < |listIn|
      invariant 1 <= k <= |listIn|
      invariant n == FewestFrom(listIn[0].numEvents, listIn[1..k])
    {
      if listIn[k].numEvents < n {
        n := listIn[k].numEvents;
      }
      assert listIn[1..k + 1][..k - 1] == listIn[1..k];
      k := k + 1;
    }
    assert listIn[1..k] == listIn[1..];
    n := if chunkNumEvents < n then chunkNumEvents else n;
  }

  /** Step 3.3, with the corrected scans. */
  method FindEndPosition(listIn: seq<EventsRequest>, listOut: seq<EventsRequest>) returns (p: Option<TC.Position>)
    requires |listIn| > 0
    ensures p == ChunkEndPosition(listIn, listOut)
  {
    p := listIn[0].endPosition;
    var k := 1;
    assert listIn[1..1] == [];
    while k < |listIn|
      invariant 1 <= k <= |listIn|
      invariant p == PositionsFrom(listIn[0].endPosition, listIn[1..k], EndPositionOf)
    {
      p := Lower(p, listIn[k].endPosition);
      assert listIn[1..k + 1][..k - 1] == listIn[1..k];
      k := k + 1;
    }
    assert listIn[1..k] == listIn[1..];
    k := 0;
    ghost var e := p;
    while k < |listOut|
      invariant 0 <= k <= |listOut|
      invariant p == PositionsFrom(e, listOut[..k], StartPositionOf)
    {
      p := Lower(p, listOut[k].startPosition);
      assert listOut[..k + 1][..k] == listOut[..k];
      k := k + 1;
    }
    assert listOut[..k] == listOut;
  }

  /** One position step, with the comparison of the traceset context. */
  method Lower(e: Option<TC.Position>, p: Option<TC.Position>) returns (r: Option<TC.Position>)
    ensures r == LowerPosition(e, p)
  {
    if p == None {
      return e;
    }
    if e == None {
      return p;
    }
    var c := TC.PosPosCompare(p.value, e.value);
    r := if c < 0 then p else e;
  }

  // ---------------------------------------------------------------------
  // 4, 5: the chunk and what follows it
  // ---------------------------------------------------------------------

  /** What lttv_process_traceset_middle leaves behind: the number of events
   *  it read, the time of the current tracefile context (None when the
   *  traceset is exhausted) and the position saved from that state. */
  datatype Outcome = Outcome(count: nat, current: Option<Time>, here: TC.Position)

  /** lttv_process_traceset_middle, given the end time, the number of
   *  events and the end position of the chunk. */
  type Middle = (Time, nat, Option<TC.Position>) -> Outcome

  /** The reader reads no more events than it is allowed. */
  ghost predicate Bounded(middle: Middle)
  {
    forall t, n, p :: middle(t, n, p).count <= n
  }

  /** Every served request wants at least count events. */
  predicate Covered(rs: seq<EventsRequest>, count: nat)
  {
    forall i :: 0 <= i < |rs| ==> count <= rs[i].numEvents
  }

  /** Step 5.1, req.num -= count. */
  function Charged(x: EventsRequest, count: nat): EventsRequest
    requires count <= x.numEvents
  {
    x.(numEvents := x.numEvents - count)
  }

  /** The retirement test of step 5.1: no more events wanted, the viewer
   *  asked to stop, the current time reached the end time, or the current
   *  position is the end position. */
  predicate Finished(x: EventsRequest, current: Time, here: TC.Position)
  {
    x.numEvents == 0 || x.stopFlag || Compare(current, x.endTime) >= 0 ||
    (x.endPosition.Some? && TC.PosPosCompareOf(here, x.endPosition.value) == 0)
  }

  /** The served requests that step 5.1 keeps, charged, in order. */
  function Kept(rs: seq<EventsRequest>, count: nat, current: Time, here: TC.Position): seq<EventsRequest>
    requires Covered(rs, count)
    decreases |rs|
  {
    if |rs| == 0 then []
    else
      var x := Charged(rs[|rs| - 1], count);
      Kept(rs[..|rs| - 1], count, current, here) + (if Finished(x, current, here) then [] else [x])
  }

  /** A request is kept exactly when, charged, it is not finished; nothing
   *  else is added. */
  lemma {:induction false} KeptExactly(rs: seq<EventsRequest>, count: nat, current: Time, here: TC.Position)
    requires Covered(rs, count)
    ensures |Kept(rs, count, current, here)| <= |rs|
    ensures forall y :: y in Kept(rs, count, current, here) <==>
      exists i :: 0 <= i < |rs| && y == Charged(rs[i], count) && !Finished(y, current, here)
    decreases |rs|
  {
    if |rs| > 0 {
      var p := rs[..|rs| - 1];
      KeptExactly(p, count, current, here);
      assert forall i :: 0 <= i < |p| ==> rs[i] == p[i];
      forall y | exists i :: 0 <= i < |rs| && y == Charged(rs[i], count) && !Finished(y, current, here)
        ensures y in Kept(rs, count, current, here)
      {
        var i :| 0 <= i < |rs| && y == Charged(rs[i], count) && !Finished(y, current, here);
        if i < |p| {
          assert y == Charged(p[i], count);
        }
      }
    }
  }

  /** Step 5: past the traceset's end (or with no event left) every served
   *  request is retired; otherwise step 5.1 keeps the unfinished ones. */
  function AfterChunk(rs: seq<EventsRequest>, o: Outcome, spanEnd: Time): seq<EventsRequest>
    requires Covered(rs, o.count)
  {
    if o.current.None? || Compare(o.current.value, spanEnd) > 0 then []
    else Kept(rs, o.count, o.current.value, o.here)
  }

  /** Step B: a request interrupted between chunks resumes from the
   *  current position and no longer has a start time. */
  function Requeued(rs: seq<EventsRequest>, here: TC.Position): (r: seq<EventsRequest>)
    ensures |r| == |rs|
    ensures forall i :: 0 <= i < |rs| ==> r[i] == rs[i].(startPosition := Some(here), startTime := Infinite)
  {
    seq(|rs|, i requires 0 <= i < |rs| => rs[i].(startPosition := Some(here), startTime := Infinite))
  }

  /** Steps 5 and 5.1. */
  method Retire(listIn: seq<EventsRequest>, o: Outcome, spanEnd: Time) returns (kept: seq<EventsRequest>)
    requires Covered(listIn, o.count)
    ensures kept == AfterChunk(listIn, o, spanEnd)
  {
    if o.current == None || Compare(o.current.value, spanEnd) > 0 {
      return [];
    }
    var current := o.current.value;
    kept := [];
    var k := 0;
    while k < |listIn|
      invariant 0 <= k <= |listIn|
      invariant Covered(listIn[..k], o.count)
      invariant kept == Kept(listIn[..k], o.count, current, o.here)
    {
      var x := listIn[k];
      x := x.(numEvents := x.numEvents - o.count);
      var atEnd := false;
      if x.endPosition != None {
        var c := TC.PosPosCompare(o.here, x.endPosition.value);
        atEnd := c == 0;
      }
      if !(x.numEvents == 0 || x.stopFlag || Compare(current, x.endTime) >= 0 || atEnd) {
        kept := kept + [x];
      }
      assert listIn[..k + 1][..k] == listIn[..k];
      k := k + 1;
    }
    assert listIn[..k] == listIn;
  }

  /** Step B: the interrupted requests are appended to the waiting list. */
  method Requeue(kept: seq<EventsRequest>, here: TC.Position, listOut: seq<EventsRequest>) returns (out: seq<EventsRequest>)
    ensures out == listOut + Requeued(kept, here)
  {
    out := listOut;
    var k := 0;
    while k < |kept|
      invariant 0 <= k <= |kept|
      invariant out == listOut + Requeued(kept[..k], here)
    {
      var x := kept[k].(startPosition := Some(here));
      x := x.(startTime := Infinite);
      out := out + [x];
      assert Requeued(kept[..k + 1], here) == Requeued(kept[..k], here) + [x];
      k := k + 1;
    }
    assert kept[..k] == kept;
  }

  // ---------------------------------------------------------------------
  // One servicing step
  // ---------------------------------------------------------------------

  lemma SelectedCovered(out: seq<EventsRequest>, chunkNumEvents: nat, count: nat)
    requires |out| > 0 && count <= ChunkEvents(Begun(Selected(out)), chunkNumEvents)
    ensures Covered(Begun(Selected(out)), count)
  {
    var b := Begun(Selected(out));
    ChunkEventsIsMinimum(b, chunkNumEvents);
    forall i | 0 <= i < |b|
      ensures count <= b[i].numEvents
    {
      assert b[i] in b;
    }
  }

  /** The reader's outcome for the chunk the waiting list out calls for. */
  function ChunkOutcome(out: seq<EventsRequest>, chunkNumEvents: nat, middle: Middle): Outcome
    requires |out| > 0
  {
    var listIn := Begun(Selected(out));
    var listOut := RemoveEach(out, Selected(out));
    middle(ChunkEndTime(listIn, listOut), ChunkEvents(listIn, chunkNumEvents), ChunkEndPosition(listIn, listOut))
  }

  /** The waiting list after steps A and B: the requests not served, then
   *  the served ones that are not finished, charged and set to resume
   *  from the current position. */
  function Serviced(out: seq<EventsRequest>, spanEnd: Time, chunkNumEvents: nat, middle: Middle): seq<EventsRequest>
    requires |out| > 0 && Bounded(middle)
  {
    var listIn := Begun(Selected(out));
    var listOut := RemoveEach(out, Selected(out));
    var o := ChunkOutcome(out, chunkNumEvents, middle);
    SelectedCovered(out, chunkNumEvents, o.count);
    listOut + Requeued(AfterChunk(listIn, o, spanEnd), o.here)
  }

  /** A request put back after a chunk: one of the served requests s,
   *  now servicing, charged count events and still wanting some, not
   *  stopped and before its end time at the current time, and resuming
   *  from the current position. */
  ghost predicate Resumed(y: EventsRequest, s: seq<EventsRequest>, count: nat, current: Time, here: TC.Position)
  {
    y.servicing && y.startTime == Infinite && y.startPosition == Some(here) &&
    y.numEvents > 0 && !y.stopFlag && Less(current, y.endTime) &&
    exists x :: x in s && x.numEvents == y.numEvents + count &&
      y == x.(servicing := true, numEvents := y.numEvents, startTime := Infinite, startPosition := Some(here))
  }

  lemma RequeuedResumed(s: seq<EventsRequest>, count: nat, current: Time, here: TC.Position)
    requires Covered(Begun(s), count)
    ensures var q := Requeued(Kept(Begun(s), count, current, here), here);
      |q| <= |s| && forall k :: 0 <= k < |q| ==> Resumed(q[k], s, count, current, here)
  {
    var b := Begun(s);
    var kept := Kept(b, count, current, here);
    var q := Requeued(kept, here);
    KeptExactly(b, count, current, here);
    forall k | 0 <= k < |q|
      ensures Resumed(q[k], s, count, current, here)
    {
      var y := kept[k];
      assert y in kept;
      var i :| 0 <= i < |b| && y == Charged(b[i], count) && !Finished(y, current, here);
      assert s[i] in s;
    }
  }

  lemma ServicedUnfold(out: seq<EventsRequest>, spanEnd: Time, chunkNumEvents: nat, middle: Middle)
    requires |out| > 0 && Bounded(middle)
    ensures var o := ChunkOutcome(out, chunkNumEvents, middle);
      Covered(Begun(Selected(out)), o.count) &&
      Serviced(out, spanEnd, chunkNumEvents, middle) ==
        RemoveEach(out, Selected(out)) + Requeued(AfterChunk(Begun(Selected(out)), o, spanEnd), o.here)
  {
    SelectedCovered(out, chunkNumEvents, ChunkOutcome(out, chunkNumEvents, middle).count);
  }

  lemma PutBack(rest: seq<EventsRequest>, s: seq<EventsRequest>, o: Outcome, spanEnd: Time)
    requires Covered(Begun(s), o.count)
    ensures var r := rest + Requeued(AfterChunk(Begun(s), o, spanEnd), o.here);
      |r| <= |rest| + |s| && r[..|rest|] == rest &&
      forall k :: |rest| <= k < |r| ==>
        o.current.Some? && Resumed(r[k], s, o.count, o.current.value, o.here)
  {
    var q := Requeued(AfterChunk(Begun(s), o, spanEnd), o.here);
    var r := rest + q;
    assert r[..|rest|] == rest;
    if o.current.Some? && Compare(o.current.value, spanEnd) <= 0 {
      RequeuedResumed(s, o.count, o.current.value, o.here);
      assert forall k :: |rest| <= k < |r| ==> r[k] == q[k - |rest|];
    }
  }

  /** The waiting list never grows. Its first part is the old waiting list
   *  less the served requests; every later request is a served one put
   *  back after the chunk. */
  lemma ServicedShape(out: seq<EventsRequest>, spanEnd: Time, chunkNumEvents: nat, middle: Middle)
    requires |out| > 0 && Bounded(middle)
    ensures var r := Serviced(out, spanEnd, chunkNumEvents, middle);
      var o := ChunkOutcome(out, chunkNumEvents, middle);
      var rest := RemoveEach(out, Selected(out));
      |r| <= |out| && r[..|rest|] == rest &&
      forall k :: |rest| <= k < |r| ==>
        o.current.Some? && Resumed(r[k], Selected(out), o.count, o.current.value, o.here)
  {
    ServicedUnfold(out, spanEnd, chunkNumEvents, middle);
    MoveConserves(out);
    PutBack(RemoveEach(out, Selected(out)), Selected(out), ChunkOutcome(out, chunkNumEvents, middle), spanEnd);
  }

  /** Steps 1 to 5 and B of lttvwindow_process_pending_requests, on the
   *  waiting list out of a traceset with at least one trace. */
  method Service(out: seq<EventsRequest>, spanEnd: Time, chunkNumEvents: nat, middle: Middle) returns (r: seq<EventsRequest>)
    requires |out| > 0 && Bounded(middle)
    ensures r == Serviced(out, spanEnd, chunkNumEvents, middle)
  {
    var ltime := FindLowestTime(out);
    var lpos := FindLowestPosition(out);
    LowestTimeHead(out);
    var chosen := if lpos[0].startPosition != None && Compare(lpos[0].startPosition.value.timestamp, ltime[0].startTime) < 0
      then lpos else ltime;
    var listIn, listOut := Move(out, chosen);
    listIn := Begin(listIn);
    var endTime := FindEndTime(listIn, listOut);
    var endNbEvents := FindEndEvents(listIn, chunkNumEvents);
    var endPosition := FindEndPosition(listIn, listOut);
    var o := middle(endTime, endNbEvents, endPosition);
    SelectedCovered(out, chunkNumEvents, o.count);
    var kept := Retire(listIn, o, spanEnd);
    r := Requeue(kept, o.here, listOut);
  }

  // ---------------------------------------------------------------------
  // 0.1, C: the trace locks
  // ---------------------------------------------------------------------

  ghost predicate Distinct(ts: seq<WT.Trace>)
  {
    forall i, j :: 0 <= i < j < |ts| ==> ts[i] != ts[j]
  }

  ghost function Objects(ts: seq<WT.Trace>): set<WT.Trace>
  {
    set i | 0 <= i < |ts| :: ts[i]
  }

  /** Everything lttvwindowtraces keeps for a trace but its lock. */
  ghost function Attributes(t: WT.Trace): (set<nat>, set<nat>, seq<WT.BackgroundRequest>, seq<WT.BackgroundRequest>, seq<WT.BackgroundNotify>, seq<WT.BackgroundNotify>)
    reads t
  {
    (t.inProgress, t.ready, t.requestsQueue, t.requestsCurrent, t.notifyQueue, t.notifyCurrent)
  }

  /** Step C on the first n traces: each is unlocked. */
  method UnlockFirst(ts: seq<WT.Trace>, n: nat)
    requires Distinct(ts) && n <= |ts|
    modifies Objects(ts)
    ensures forall i :: 0 <= i < n ==> !ts[i].locked
    ensures forall i :: n <= i < |ts| ==> ts[i].locked == old(ts[i].locked)
    ensures forall i :: 0 <= i < |ts| ==> Attributes(ts[i]) == old(Attributes(ts[i]))
  {
    var k := 0;
    while k < n
      invariant 0 <= k <= n
      invariant forall i :: 0 <= i < k ==> !ts[i].locked
      invariant forall i :: k <= i < |ts| ==> ts[i].locked == old(ts[i].locked)
      invariant forall i :: 0 <= i < |ts| ==> Attributes(ts[i]) == old(Attributes(ts[i]))
    {
      var r := ts[k].Unlock();
      k := k + 1;
    }
  }

  /** Step 0.1, with the locks already taken released again when a trace
   *  is locked elsewhere: either every trace was free and is now locked,
   *  or no lock changes. */
  method LockAll(ts: seq<WT.Trace>) returns (ok: bool)
    requires Distinct(ts)
    modifies Objects(ts)
    ensures ok <==> forall i :: 0 <= i < |ts| ==> !old(ts[i].locked)
    ensures ok ==> forall i :: 0 <= i < |ts| ==> ts[i].locked
    ensures !ok ==> forall i :: 0 <= i < |ts| ==> ts[i].locked == old(ts[i].locked)
    ensures forall i :: 0 <= i < |ts| ==> Attributes(ts[i]) == old(Attributes(ts[i]))
  {
    var k := 0;
    while k < |ts|
      invariant 0 <= k <= |ts|
      invariant forall i :: 0 <= i < k ==> !old(ts[i].locked) && ts[i].locked
      invariant forall i :: k <= i < |ts| ==> ts[i].locked == old(ts[i].locked)
      invariant forall i :: 0 <= i < |ts| ==> Attributes(ts[i]) == old(Attributes(ts[i]))
    {
      var r := ts[k].Lock();
      if r != 0 {
        UnlockFirst(ts, k);
        return false;
      }
      k := k + 1;
    }
    return true;
  }

  /** Step 0.1 as written: at the first trace it cannot lock it gives up,
   *  keeping the locks it already took. */
  method LockAllAsWritten(ts: seq<WT.Trace>) returns (ok: bool)
    requires Distinct(ts)
    modifies Objects(ts)
    ensures ok <==> forall i :: 0 <= i < |ts| ==> !old(ts[i].locked)
    ensures ok ==> forall i :: 0 <= i < |ts| ==> ts[i].locked
    ensures !ok ==> exists k :: (0 <= k < |ts| && old(ts[k].locked) &&
      (forall i :: 0 <= i < k ==> !old(ts[i].locked) && ts[i].locked) &&
      (forall i :: k <= i < |ts| ==> ts[i].locked == old(ts[i].locked)))
    ensures forall i :: 0 <= i < |ts| ==> Attributes(ts[i]) == old(Attributes(ts[i]))
  {
    var k := 0;
    while k < |ts|
      invariant 0 <= k <= |ts|
      invariant forall i :: 0 <= i < k ==> !old(ts[i].locked) && ts[i].locked
      invariant forall i :: k <= i < |ts| ==> ts[i].locked == old(ts[i].locked)
      invariant forall i :: 0 <= i < |ts| ==> Attributes(ts[i]) == old(Attributes(ts[i]))
    {
      var r := ts[k].Lock();
      if r != 0 {
        return false;
      }
      k := k + 1;
    }
    return true;
  }

  /** Two traces, the second locked by another window: as written the
   *  scheduler gives up keeping the first one locked, and once the second
   *  is released it still cannot lock the traceset, at every later call. */
  method LockLeakAsWritten() returns (first: bool, second: bool)
    ensures !first && !second
  {
    var a := new WT.Trace("a");
    var b := new WT.Trace("b");
    var r := b.Lock();
    var ts := [a, b];
    assert ts[0] == a && ts[1] == b;
    first := LockAllAsWritten(ts);
    assert a.locked;
    r := b.Unlock();
    second := LockAllAsWritten(ts);
  }

  /** The same two traces with the failed attempt undone: the call after
   *  the release locks the traceset. */
  method LockRetry() returns (first: bool, second: bool)
    ensures !first && second
  {
    var a := new WT.Trace("a");
    var b := new WT.Trace("b");
    var r := b.Lock();
    var ts := [a, b];
    assert ts[0] == a && ts[1] == b;
    first := LockAll(ts);
    assert !a.locked;
    r := b.Unlock();
    second := LockAll(ts);
  }

  // ---------------------------------------------------------------------
  // The tab
  // ---------------------------------------------------------------------

  /** The parts of a Tab the scheduler and the time managers use. */
  class Tab {
    var eventsRequests: seq<EventsRequest>
    var eventsRequestPending: bool
    var stopForeground: bool
    var traceset: seq<WT.Trace>
    var timeSpan: TB.TimeInterval
    var timeWindow: TB.TimeWindow
    var currentTime: Time
    var timeManagerLock: bool
    var currentTimeManagerLock: bool

    constructor (traceset: seq<WT.Trace>, span: TB.TimeInterval, w: TB.TimeWindow, current: Time)
      ensures this.traceset == traceset && timeSpan == span && timeWindow == w && currentTime == current
      ensures eventsRequests == [] && !eventsRequestPending && !stopForeground
      ensures !timeManagerLock && !currentTimeManagerLock
    {
      this.traceset := traceset;
      timeSpan := span;
      timeWindow := w;
      currentTime := current;
      eventsRequests := [];
      eventsRequestPending := false;
      stopForeground := false;
      timeManagerLock := false;
      currentTimeManagerLock := false;
    }

    ghost function Traces(): set<WT.Trace>
      reads this
    {
      Objects(traceset)
    }

    /** The fields the scheduler leaves alone. */
    ghost function Settings(): (bool, seq<WT.Trace>, TB.TimeInterval, TB.TimeWindow, Time, bool, bool)
      reads this
    {
      (stopForeground, traceset, timeSpan, timeWindow, currentTime, timeManagerLock, currentTimeManagerLock)
    }

    /** The fields the time managers leave alone. */
    ghost function Scheduling(): (seq<EventsRequest>, bool, bool, seq<WT.Trace>, TB.TimeInterval)
      reads this
    {
      (eventsRequests, eventsRequestPending, stopForeground, traceset, timeSpan)
    }

    /** lttvwindow_process_pending_requests, one idle call. While viewers
     *  preempt the processing it only asks to be called again. A tab
     *  without traces drops every request and asks not to be called again.
     *  When a trace is locked by another window nothing changes and it
     *  asks to be called again. Otherwise one chunk is served; it asks to
     *  be called again exactly when requests are still waiting, and
     *  clears the pending flag when none is. Every trace lock ends as it
     *  began. */
    method ProcessPendingRequests(preemptCount: nat, chunkNumEvents: nat, middle: Middle) returns (again: bool)
      requires |eventsRequests| > 0 && Distinct(traceset) && Bounded(middle)
      modifies this, Traces()
      ensures Settings() == old(Settings())
      ensures forall i :: 0 <= i < |traceset| ==>
        traceset[i].locked == old(traceset[i].locked) && Attributes(traceset[i]) == old(Attributes(traceset[i]))
      ensures preemptCount > 0 ==>
        again && eventsRequests == old(eventsRequests) && eventsRequestPending == old(eventsRequestPending)
      ensures preemptCount == 0 && |traceset| == 0 ==>
        !again && eventsRequests == [] && !eventsRequestPending
      ensures preemptCount == 0 && (exists i :: 0 <= i < |traceset| && old(traceset[i].locked)) ==>
        again && eventsRequests == old(eventsRequests) && eventsRequestPending == old(eventsRequestPending)
      ensures preemptCount == 0 && |traceset| > 0 && (forall i :: 0 <= i < |traceset| ==> !old(traceset[i].locked)) ==>
        eventsRequests == Serviced(old(eventsRequests), timeSpan.endTime, chunkNumEvents, middle) &&
        (again <==> eventsRequests != []) &&
        eventsRequestPending == (again && old(eventsRequestPending))
    {
      if preemptCount > 0 {
        return true;
      }
      if |traceset| == 0 {
        eventsRequests := [];
        eventsRequestPending := false;
        return false;
      }
      var ok := LockAll(traceset);
      if !ok {
        return true;
      }
      eventsRequests := Service(eventsRequests, timeSpan.endTime, chunkNumEvents, middle);
      UnlockFirst(traceset, |traceset|);
      if eventsRequests == [] {
        eventsRequestPending := false;
        return false;
      }
      return true;
    }

    /** stop_processing: every request of the tab is dropped, without its
     *  end hooks, and foreground processing stops. */
    method StopProcessing()
      modifies this
      ensures eventsRequests == [] && !eventsRequestPending && stopForeground
      ensures traceset == old(traceset) && timeSpan == old(timeSpan)
      ensures timeWindow == old(timeWindow) && currentTime == old(currentTime)
      ensures timeManagerLock == old(timeManagerLock) && currentTimeManagerLock == old(currentTimeManagerLock)
    {
      while eventsRequests != []
        invariant Settings() == old(Settings())
        decreases |eventsRequests|
      {
        eventsRequests := eventsRequests[1..];
      }
      eventsRequestPending := false;
      stopForeground := true;
    }

    /** time_change_manager: while a change is in progress a new one is
     *  ignored; otherwise the window becomes w and the guard is released.
     *  Updating the spin buttons emits their value-changed signals, whose
     *  handlers call back into this manager: that call finds the guard
     *  held. */
    method TimeChangeManager(w: TB.TimeWindow)
      requires Less(w.startTime, w.endTime)
      modifies this
      ensures old(timeManagerLock) ==> timeManagerLock && timeWindow == old(timeWindow)
      ensures !old(timeManagerLock) ==> !timeManagerLock && timeWindow == w
      ensures Scheduling() == old(Scheduling())
      ensures currentTime == old(currentTime) && currentTimeManagerLock == old(currentTimeManagerLock)
      decreases if timeManagerLock then 0 else 1
    {
      if timeManagerLock {
        return;
      }
      timeManagerLock := true;
      TimeChangeManager(w);
      timeWindow := w;
      timeManagerLock := false;
    }

    /** current_time_change_manager: the same guard around the current
     *  time. */
    method CurrentTimeChangeManager(t: Time)
      modifies this
      ensures old(currentTimeManagerLock) ==> currentTimeManagerLock && currentTime == old(currentTime)
      ensures !old(currentTimeManagerLock) ==> !currentTimeManagerLock && currentTime == t
      ensures Scheduling() == old(Scheduling())
      ensures timeWindow == old(timeWindow) && timeManagerLock == old(timeManagerLock)
      decreases if currentTimeManagerLock then 0 else 1
    {
      if currentTimeManagerLock {
        return;
      }
      currentTimeManagerLock := true;
      CurrentTimeChangeManager(t);
      currentTime := t;
      currentTimeManagerLock := false;
    }

    /** on_MEntry1_value_changed: the new start seconds, clamped, through
     *  the time manager. */
    method OnStartSecondsChanged(value: nat)
      requires TB.SpanOk(timeSpan) && Less(timeSpan.startTime, timeSpan.endTime)
      requires TB.WindowIn(timeWindow, timeSpan) && TB.SecondsInSpan(value, timeSpan)
      modifies this
      ensures !old(timeManagerLock) ==> timeWindow == TB.StartSecondsChanged(old(timeWindow), old(timeSpan), value)
      ensures old(timeManagerLock) ==> timeWindow == old(timeWindow)
      ensures timeManagerLock == old(timeManagerLock) && Scheduling() == old(Scheduling())
      ensures currentTime == old(currentTime) && currentTimeManagerLock == old(currentTimeManagerLock)
    {
      var w := TB.StartSecondsChanged(timeWindow, timeSpan, value);
      TimeChangeManager(w);
    }

    /** on_MEntry3_value_changed: the new end seconds, clamped, through the
     *  time manager. */
    method OnEndSecondsChanged(value: nat)
      requires TB.SpanOk(timeSpan) && Less(timeSpan.startTime, timeSpan.endTime)
      requires TB.WindowIn(timeWindow, timeSpan) && TB.SecondsInSpan(value, timeSpan)
      modifies this
      ensures !old(timeManagerLock) ==> timeWindow == TB.EndSecondsChanged(old(timeWindow), old(timeSpan), value)
      ensures old(timeManagerLock) ==> timeWindow == old(timeWindow)
      ensures timeManagerLock == old(timeManagerLock) && Scheduling() == old(Scheduling())
      ensures currentTime == old(currentTime) && currentTimeManagerLock == old(currentTimeManagerLock)
    {
      var w := TB.EndSecondsChanged(timeWindow, timeSpan, value);
      TimeChangeManager(w);
    }

    /** on_MEntry5_value_changed: the new current seconds, clamped, through
     *  the current time manager. */
    method OnCurrentSecondsChanged(value: nat)
      requires TB.SpanOk(timeSpan) && Normal(currentTime) && TB.SecondsInSpan(value, timeSpan)
      modifies this
      ensures !old(currentTimeManagerLock) ==> currentTime == TB.CurrentSecondsChanged(old(currentTime), old(timeSpan), value)
      ensures old(currentTimeManagerLock) ==> currentTime == old(currentTime)
      ensures currentTimeManagerLock == old(currentTimeManagerLock) && Scheduling() == old(Scheduling())
      ensures timeWindow == old(timeWindow) && timeManagerLock == old(timeManagerLock)
    {
      var t := TB.CurrentSecondsChanged(currentTime, timeSpan, value);
      CurrentTimeChangeManager(t);
    }
  }
}
