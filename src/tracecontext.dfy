/** Traceset contexts (lttv/lttv/tracecontext.c): the merge of the
 *  tracefiles' event streams in time order through a priority queue, the
 *  saved positions and their comparison, and the hooks used to seek a number
 *  of events forward or backward.
 *
 *  A tracefile context is identified by its trace's index and its own index
 *  in that trace; the model uses that pair where the C code compares context
 *  pointers. A tracefile is modelled by the times of its events in reading
 *  order and the index of the event it is positioned on; an event position
 *  is that index. */
module TraceContext {
  import opened LttTime
  import opened Wrappers
  import opened CStdlib

  /** G_MAXULONG on an LP64 build: the middle loop reads it as "no limit on
   *  the number of events". */
  const NoEventLimit: nat := 0xFFFF_FFFF_FFFF_FFFF

  /** A tracefile context: the trace and tracefile it reads, the event times
   *  of the tracefile, the index of the current event and the time stamp
   *  that orders the priority queue. */
  datatype Tracefile = Tracefile(traceIndex: nat, index: nat, events: seq<Time>, cur: nat, timestamp: Time)

  /** Two contexts are the same tracefile context. */
  predicate Same(a: Tracefile, b: Tracefile) {
    a.traceIndex == b.traceIndex && a.index == b.index
  }

  /** compare_tracefile: the order of the priority queue, by time stamp, then
   *  tracefile index, then trace index; 0 for the same context. */
  function CompareTracefile(a: Tracefile, b: Tracefile): (c: int)
    ensures c == -1 || c == 0 || c == 1
    ensures c == 0 <==> Same(a, b)
    ensures !Same(a, b) && Less(a.timestamp, b.timestamp) ==> c == -1
    ensures c == -1 ==> LessEq(a.timestamp, b.timestamp)
  {
    if Same(a, b) then 0
    else if Compare(a.timestamp, b.timestamp) != 0 then Compare(a.timestamp, b.timestamp)
    else if a.index < b.index then -1
    else if a.index > b.index then 1
    else if a.traceIndex < b.traceIndex then -1
    else 1
  }

  lemma CompareTracefileAntisymmetric(a: Tracefile, b: Tracefile)
    ensures CompareTracefile(a, b) == -CompareTracefile(b, a)
  {
    CompareAntisymmetric(a.timestamp, b.timestamp);
  }

  /** The queue order is transitive as long as one context is not seen with
   *  two different time stamps. */
  lemma CompareTracefileTransitive(a: Tracefile, b: Tracefile, c: Tracefile)
    requires CompareTracefile(a, b) < 0 && CompareTracefile(b, c) <= 0
    requires Same(a, c) ==> a.timestamp == c.timestamp
    requires Same(b, c) ==> b.timestamp == c.timestamp
    ensures CompareTracefile(a, c) < 0
  {
    if CompareTracefile(b, c) < 0 {
      CompareTransitive(a.timestamp, b.timestamp, c.timestamp);
    }
  }

  /** A tracefile context is well formed when its events are in time order and
   *  before the infinite time, it is on one of them or past the last, and its
   *  time stamp is the time of that event, or infinite past the end. */
  ghost predicate TracefileOk(f: Tracefile) {
    f.cur <= |f.events| &&
    (forall k :: 0 <= k < |f.events| ==> Less(f.events[k], Infinite)) &&
    (forall j, k :: 0 <= j <= k < |f.events| ==> LessEq(f.events[j], f.events[k])) &&
    f.timestamp == (if f.cur < |f.events| then f.events[f.cur] else Infinite)
  }

  ghost predicate FilesOk(files: seq<Tracefile>) {
    (forall i :: 0 <= i < |files| ==> TracefileOk(files[i])) &&
    (forall i, j :: 0 <= i < j < |files| ==> !Same(files[i], files[j]))
  }

  /** The priority queue holds, once each, exactly the contexts whose time
   *  stamp is finite. */
  ghost predicate QueueOk(files: seq<Tracefile>, queue: seq<nat>) {
    (forall k :: 0 <= k < |queue| ==> queue[k] < |files|) &&
    (forall j, k :: 0 <= j < k < |queue| ==> queue[j] != queue[k]) &&
    (forall i :: 0 <= i < |files| ==> (i in queue <==> files[i].timestamp != Infinite))
  }

  /** ltt_tracefile_read followed by the time stamp update of the middle
   *  loop: the next event, or the infinite time at the end of the
   *  tracefile. */
  function ReadNext(f: Tracefile): (r: Tracefile)
    requires f.cur < |f.events|
  {
    f.(cur := f.cur + 1,
       timestamp := if f.cur + 1 < |f.events| then f.events[f.cur + 1] else Infinite)
  }

  lemma ReadNextOk(f: Tracefile)
    requires TracefileOk(f) && f.cur < |f.events|
    ensures TracefileOk(ReadNext(f))
    ensures LessEq(f.timestamp, ReadNext(f).timestamp)
    ensures ReadNext(f).cur == f.cur + 1
  {
    if f.cur + 1 < |f.events| {
      assert LessEq(f.events[f.cur], f.events[f.cur + 1]);
    }
  }

  /** g_tree_remove on the queue. */
  function Remove(q: seq<nat>, x: nat): (r: seq<nat>)
    ensures forall y :: y in r <==> y in q && y != x
    ensures (forall j, k :: 0 <= j < k < |q| ==> q[j] != q[k]) ==>
              (forall j, k :: 0 <= j < k < |r| ==> r[j] != r[k])
  {
    if q == [] then []
    else if q[0] == x then Remove(q[1..], x)
    else
      assert (forall j, k :: 0 <= j < k < |q| ==> q[j] != q[k]) ==> q[0] !in q[1..];
      [q[0]] + Remove(q[1..], x)
  }

  /** Total number of events read from the first n tracefiles. */
  ghost function SumCurTo(files: seq<Tracefile>, n: nat): int
    requires n <= |files|
  {
    if n == 0 then 0 else SumCurTo(files, n - 1) + files[n - 1].cur
  }

  /** Total number of events in the first n tracefiles. */
  ghost function SumLenTo(files: seq<Tracefile>, n: nat): int
    requires n <= |files|
  {
    if n == 0 then 0 else SumLenTo(files, n - 1) + |files[n - 1].events|
  }

  ghost function SumCur(files: seq<Tracefile>): int { SumCurTo(files, |files|) }

  ghost function SumLen(files: seq<Tracefile>): int { SumLenTo(files, |files|) }

  lemma {:induction false} SumsUpdateTo(files: seq<Tracefile>, i: nat, f: Tracefile, n: nat)
    requires i < |files| && f.events == files[i].events && n <= |files|
    ensures SumCurTo(files[i := f], n) == SumCurTo(files, n) + (if i < n then f.cur - files[i].cur else 0)
    ensures SumLenTo(files[i := f], n) == SumLenTo(files, n)
  {
    if n > 0 {
      SumsUpdateTo(files, i, f, n - 1);
    }
  }

  lemma SumsUpdate(files: seq<Tracefile>, i: nat, f: Tracefile)
    requires i < |files| && f.events == files[i].events
    ensures SumCur(files[i := f]) == SumCur(files) + f.cur - files[i].cur
    ensures SumLen(files[i := f]) == SumLen(files)
  {
    SumsUpdateTo(files, i, f, |files|);
  }

  lemma {:induction false} SumCurBoundedTo(files: seq<Tracefile>, n: nat)
    requires n <= |files|
    requires forall i :: 0 <= i < |files| ==> files[i].cur <= |files[i].events|
    ensures SumCurTo(files, n) <= SumLenTo(files, n)
  {
    if n > 0 {
      SumCurBoundedTo(files, n - 1);
    }
  }

  lemma SumCurBounded(files: seq<Tracefile>)
    requires forall i :: 0 <= i < |files| ==> files[i].cur <= |files[i].events|
    ensures SumCur(files) <= SumLen(files)
  {
    SumCurBoundedTo(files, |files|);
  }

  /** One tracefile of a saved position: the context it refers to, whether
   *  that context had an event, and the position of that event. */
  datatype TfPosition = TfPosition(tfc: nat, used: bool, event: nat)

  /** A saved traceset position and its time. */
  datatype Position = Position(tfcp: seq<TfPosition>, timestamp: Time)

  /** Every entry of the position refers to one of n contexts. */
  predicate PositionFor(n: nat, pos: Position) {
    forall k :: 0 <= k < |pos.tfcp| ==> pos.tfcp[k].tfc < n
  }

  /** ltt_event_position_compare on two positions of one tracefile, which
   *  follow the reading order. */
  function EventPositionCompare(a: nat, b: nat): (c: int)
  {
    if a < b then -1 else if a > b then 1 else 0
  }

  /** The per-entry test of lttv_traceset_context_ctx_pos_compare. */
  function EntryCompare(files: seq<Tracefile>, e: TfPosition): int
    requires e.tfc < |files|
  {
    if !e.used then
      (if Less(files[e.tfc].timestamp, Infinite) then -1 else 0)
    else if files[e.tfc].timestamp == Infinite then 1
    else EventPositionCompare(files[e.tfc].cur, e.event)
  }

  /** The first non-zero entry test from entry i on. */
  function EntriesCompare(files: seq<Tracefile>, es: seq<TfPosition>, i: nat): int
    requires forall k :: 0 <= k < |es| ==> es[k].tfc < |files|
    decreases |es| - i
  {
    if i >= |es| then 0
    else if EntryCompare(files, es[i]) != 0 then EntryCompare(files, es[i])
    else EntriesCompare(files, es, i + 1)
  }

  /** lttv_traceset_context_ctx_pos_compare: compares the current state of
   *  the traceset with a saved position. */
  function CtxPosCompareOf(files: seq<Tracefile>, nbTraces: nat, pos: Position): int
    requires PositionFor(|files|, pos)
  {
    if |pos.tfcp| == 0 then (if nbTraces == 0 then 0 else 1)
    else if nbTraces == 0 then -1
    else EntriesCompare(files, pos.tfcp, 0)
  }

  /** The current state agrees with a saved entry. */
  predicate Matches(files: seq<Tracefile>, e: TfPosition)
    requires e.tfc < |files|
  {
    if e.used then files[e.tfc].timestamp != Infinite && files[e.tfc].cur == e.event
    else !Less(files[e.tfc].timestamp, Infinite)
  }

  lemma {:induction false} EntriesCompareZero(files: seq<Tracefile>, es: seq<TfPosition>, i: nat)
    requires forall k :: 0 <= k < |es| ==> es[k].tfc < |files|
    ensures EntriesCompare(files, es, i) == 0 <==> forall k :: i <= k < |es| ==> Matches(files, es[k])
    decreases |es| - i
  {
    if i < |es| {
      EntriesCompareZero(files, es, i + 1);
    }
  }

  /** The state is at a saved position exactly when every entry agrees with
   *  it; an empty position is reached only by an empty traceset. */
  lemma CtxPosCompareZero(files: seq<Tracefile>, nbTraces: nat, pos: Position)
    requires PositionFor(|files|, pos)
    ensures CtxPosCompareOf(files, nbTraces, pos) == 0 <==>
      ((|pos.tfcp| == 0) == (nbTraces == 0)) &&
      forall k :: 0 <= k < |pos.tfcp| ==> Matches(files, pos.tfcp[k])
  {
    EntriesCompareZero(files, pos.tfcp, 0);
  }

  /** What lttv_traceset_context_position_save writes into the entries of
   *  a position for the contexts of the traceset. */
  ghost predicate Snapshot(files: seq<Tracefile>, pos: Position) {
    |files| <= |pos.tfcp| &&
    forall i :: 0 <= i < |files| ==>
      pos.tfcp[i].tfc == i &&
      pos.tfcp[i].used == (files[i].timestamp != Infinite) &&
      (pos.tfcp[i].used ==> pos.tfcp[i].event == files[i].cur)
  }

  /** A position saved from a well-formed state compares equal to that
   *  state. */
  lemma SnapshotCompares(files: seq<Tracefile>, nbTraces: nat, pos: Position)
    requires FilesOk(files) && Snapshot(files, pos) && |pos.tfcp| == |files|
    requires (|files| == 0) == (nbTraces == 0)
    ensures CtxPosCompareOf(files, nbTraces, pos) == 0
  {
    forall k | 0 <= k < |pos.tfcp| ensures Matches(files, pos.tfcp[k]) {
      assert TracefileOk(files[k]);
    }
    CtxPosCompareZero(files, nbTraces, pos);
  }

  /** The inner loop of lttv_traceset_context_pos_pos_compare for an entry
   *  of the first position that had an event. */
  function InnerUsed(e: TfPosition, es: seq<TfPosition>, j: nat): int
    decreases |es| - j
  {
    if j >= |es| then 0
    else if e.tfc == es[j].tfc then
      (var r := if es[j].used then EventPositionCompare(e.event, es[j].event) else -1;
       if r != 0 then r else InnerUsed(e, es, j + 1))
    else InnerUsed(e, es, j + 1)
  }

  /** The inner loop for an entry of the first position without an event. */
  function InnerUnused(e: TfPosition, es: seq<TfPosition>, j: nat): int
    decreases |es| - j
  {
    if j >= |es| then 0
    else if e.tfc == es[j].tfc && es[j].used then 1
    else InnerUnused(e, es, j + 1)
  }

  function Inner(e: TfPosition, es: seq<TfPosition>): int {
    if e.used then InnerUsed(e, es, 0) else InnerUnused(e, es, 0)
  }

  /** The outer loop, from entry i of the first position on. */
  function Outer(es1: seq<TfPosition>, es2: seq<TfPosition>, i: nat): int
    decreases |es1| - i
  {
    if i >= |es1| then 0
    else if Inner(es1[i], es2) != 0 then Inner(es1[i], es2)
    else Outer(es1, es2, i + 1)
  }

  /** lttv_traceset_context_pos_pos_compare. */
  function PosPosCompareOf(p1: Position, p2: Position): int {
    if p1.timestamp == Infinite then (if p2.timestamp == Infinite then 0 else 1)
    else if p2.timestamp == Infinite then -1
    else Outer(p1.tfcp, p2.tfcp, 0)
  }

  /** lttv_traceset_context_pos_pos_compare: a position at the end of the
   *  traceset (infinite time) is after every other and equal to another
   *  such; otherwise the first entry of p1 whose context differs decides. */
  method PosPosCompare(p1: Position, p2: Position) returns (r: int)
    ensures r == PosPosCompareOf(p1, p2)
    ensures p1.timestamp == Infinite ==> r == (if p2.timestamp == Infinite then 0 else 1)
    ensures p1.timestamp != Infinite && p2.timestamp == Infinite ==> r == -1
  {
    if p1.timestamp == Infinite {
      return if p2.timestamp == Infinite then 0 else 1;
    }
    if p2.timestamp == Infinite {
      return -1;
    }
    var i := 0;
    while i < |p1.tfcp|
      invariant 0 <= i <= |p1.tfcp|
      invariant Outer(p1.tfcp, p2.tfcp, i) == Outer(p1.tfcp, p2.tfcp, 0)
    {
      var e1 := p1.tfcp[i];
      r := 0;
      var j := 0;
      if e1.used {
        while j < |p2.tfcp|
          invariant 0 <= j <= |p2.tfcp|
          invariant InnerUsed(e1, p2.tfcp, j) == InnerUsed(e1, p2.tfcp, 0)
        {
          var e2 := p2.tfcp[j];
          if e1.tfc == e2.tfc {
            r := if e2.used then EventPositionCompare(e1.event, e2.event) else -1;
            if r != 0 {
              return;
            }
          }
          j := j + 1;
        }
      } else {
        while j < |p2.tfcp|
          invariant 0 <= j <= |p2.tfcp|
          invariant InnerUnused(e1, p2.tfcp, j) == InnerUnused(e1, p2.tfcp, 0)
        {
          var e2 := p2.tfcp[j];
          if e1.tfc == e2.tfc && e2.used {
            return 1;
          }
          j := j + 1;
        }
      }
      i := i + 1;
    }
    r := 0;
  }

  /** Two positions agree: same contexts in the same order, same "used"
   *  flags, same events where used, and no context twice. */
  ghost predicate Agree(p: Position, q: Position) {
    |p.tfcp| == |q.tfcp| &&
    (p.timestamp == Infinite <==> q.timestamp == Infinite) &&
    (forall k :: 0 <= k < |p.tfcp| ==>
       p.tfcp[k].tfc == q.tfcp[k].tfc && p.tfcp[k].used == q.tfcp[k].used &&
       (p.tfcp[k].used ==> p.tfcp[k].event == q.tfcp[k].event)) &&
    (forall j, k :: 0 <= j < k < |q.tfcp| ==> q.tfcp[j].tfc != q.tfcp[k].tfc)
  }

  lemma {:induction false} InnerUsedZero(e: TfPosition, es: seq<TfPosition>, j: nat)
    requires forall k :: j <= k < |es| && es[k].tfc == e.tfc ==> es[k].used && es[k].event == e.event
    ensures InnerUsed(e, es, j) == 0
    decreases |es| - j
  {
    if j < |es| {
      InnerUsedZero(e, es, j + 1);
    }
  }

  lemma {:induction false} InnerUnusedZero(e: TfPosition, es: seq<TfPosition>, j: nat)
    requires forall k :: j <= k < |es| && es[k].tfc == e.tfc ==> !es[k].used
    ensures InnerUnused(e, es, j) == 0
    decreases |es| - j
  {
    if j < |es| {
      InnerUnusedZero(e, es, j + 1);
    }
  }

  lemma {:induction false} OuterZero(p: Position, q: Position, i: nat)
    requires Agree(p, q)
    ensures Outer(p.tfcp, q.tfcp, i) == 0
    decreases |p.tfcp| - i
  {
    if i < |p.tfcp| {
      var e := p.tfcp[i];
      assert forall k :: 0 <= k < |q.tfcp| && q.tfcp[k].tfc == e.tfc ==> k == i;
      if e.used {
        InnerUsedZero(e, q.tfcp, 0);
      } else {
        InnerUnusedZero(e, q.tfcp, 0);
      }
      OuterZero(p, q, i + 1);
    }
  }

  /** Agreeing positions compare equal; in particular a position with no
   *  context twice compares equal to itself. */
  lemma AgreeingComparesEqual(p: Position, q: Position)
    requires Agree(p, q)
    ensures PosPosCompareOf(p, q) == 0
  {
    OuterZero(p, q, 0);
  }

  /** The length test at the head of lttv_traceset_context_position_copy, as
   *  written: it compares the source's length with itself. */
  predicate CopyGuardAsWritten(dest: Position, src: Position) {
    |src.tfcp| == |src.tfcp|
  }

  /** The test lets through a destination shorter than the source, whose
   *  entries the copy loop then writes past the end of. */
  lemma CopyGuardAdmitsShortDestination()
    ensures exists dest: Position, src: Position ::
      CopyGuardAsWritten(dest, src) && |dest.tfcp| < |src.tfcp|
  {
    var src := Position([TfPosition(0, true, 0)], Zero);
    var dest := Position([], Zero);
    assert CopyGuardAsWritten(dest, src) && |dest.tfcp| < |src.tfcp|;
  }

  /** lttv_traceset_context_position_copy, with the length test it evidently
   *  means (the two positions have as many entries). Entries without an
   *  event keep the destination's event field. */
  method CopyPosition(dest: Position, src: Position) returns (r: Position)
    requires |dest.tfcp| == |src.tfcp|
    ensures |r.tfcp| == |src.tfcp| && r.timestamp == src.timestamp
    ensures forall k :: 0 <= k < |r.tfcp| ==>
      r.tfcp[k].tfc == src.tfcp[k].tfc && r.tfcp[k].used == src.tfcp[k].used &&
      r.tfcp[k].event == (if src.tfcp[k].used then src.tfcp[k].event else dest.tfcp[k].event)
  {
    var entries := dest.tfcp;
    var i := 0;
    while i < |src.tfcp|
      invariant 0 <= i <= |src.tfcp| && |entries| == |src.tfcp|
      invariant forall k :: 0 <= k < i ==>
        entries[k].tfc == src.tfcp[k].tfc && entries[k].used == src.tfcp[k].used &&
        entries[k].event == (if src.tfcp[k].used then src.tfcp[k].event else dest.tfcp[k].event)
      invariant forall k :: i <= k < |entries| ==> entries[k] == dest.tfcp[k]
    {
      var s := src.tfcp[i];
      var event := if s.used then s.event else entries[i].event;
      entries := entries[i := TfPosition(s.tfc, s.used, event)];
      i := i + 1;
    }
    r := Position(entries, src.timestamp);
  }

  /** A copy compares equal to its source. */
  lemma CopyComparesEqual(dest: Position, src: Position, r: Position)
    requires |r.tfcp| == |src.tfcp| && r.timestamp == src.timestamp
    requires forall k :: 0 <= k < |r.tfcp| ==>
      r.tfcp[k].tfc == src.tfcp[k].tfc && r.tfcp[k].used == src.tfcp[k].used &&
      (src.tfcp[k].used ==> r.tfcp[k].event == src.tfcp[k].event)
    requires forall j, k :: 0 <= j < k < |src.tfcp| ==> src.tfcp[j].tfc != src.tfcp[k].tfc
    ensures PosPosCompareOf(r, src) == 0
  {
    AgreeingComparesEqual(r, src);
  }

  /** The first event at or after time t (ltt_tracefile_seek_time on a
   *  tracefile whose events are in time order), or the end. */
  function FirstAtOrAfter(events: seq<Time>, t: Time): (k: nat)
    ensures k <= |events|
    ensures forall j :: 0 <= j < k ==> Less(events[j], t)
    ensures k < |events| ==> LessEq(t, events[k])
  {
    if events == [] then 0
    else if LessEq(t, events[0]) then 0
    else 1 + FirstAtOrAfter(events[1..], t)
  }

  /** The time span of a traceset: its earliest trace start and its latest
   *  trace end, or zero for both when it has no trace. */
  method ComputeTimeSpan(spans: seq<(Time, Time)>) returns (start: Time, end: Time)
    ensures |spans| == 0 ==> start == Zero && end == Zero
    ensures forall i :: 0 <= i < |spans| ==> LessEq(start, spans[i].0) && LessEq(spans[i].1, end)
    ensures |spans| > 0 ==> (exists i :: 0 <= i < |spans| && start == spans[i].0)
    ensures |spans| > 0 ==> (exists i :: 0 <= i < |spans| && end == spans[i].1)
  {
    start, end := Zero, Zero;
    var i := 0;
    while i < |spans|
      invariant 0 <= i <= |spans|
      invariant i == 0 ==> start == Zero && end == Zero
      invariant forall k :: 0 <= k < i ==> LessEq(start, spans[k].0) && LessEq(spans[k].1, end)
      invariant i > 0 ==> (exists k :: 0 <= k < i && start == spans[k].0)
      invariant i > 0 ==> (exists k :: 0 <= k < i && end == spans[k].1)
    {
      var (s, e) := spans[i];
      if i == 0 {
        start, end := s, e;
      } else {
        if s.sec < start.sec || (s.sec == start.sec && s.nsec < start.nsec) {
          start := s;
        }
        if e.sec > end.sec || (e.sec == end.sec && e.nsec > end.nsec) {
          end := e;
        }
      }
      i := i + 1;
    }
  }

  /** A traceset context: its tracefile contexts, in trace order, and the
   *  priority queue of those that have an event to deliver. */
  class TracesetContext {
    var files: seq<Tracefile>
    var queue: seq<nat>
    /** The number of traces in the traceset. */
    const nbTraces: nat

    ghost predicate Valid()
      reads this
    {
      FilesOk(files) && QueueOk(files, queue) && ((|files| == 0) == (nbTraces == 0))
    }

    /** A context whose tracefiles are positioned as given, with the queue
     *  built as lttv_process_trace_seek_time leaves it. */
    constructor (nbTraces: nat, files: seq<Tracefile>)
      requires FilesOk(files) && ((|files| == 0) == (nbTraces == 0))
      ensures Valid() && this.files == files && this.nbTraces == nbTraces
    {
      var q: seq<nat> := [];
      var i := 0;
      while i < |files|
        invariant 0 <= i <= |files|
        invariant forall k :: 0 <= k < |q| ==> q[k] < i
        invariant forall j, k :: 0 <= j < k < |q| ==> q[j] != q[k]
        invariant forall k :: 0 <= k < i ==> (k in q <==> files[k].timestamp != Infinite)
      {
        if files[i].timestamp != Infinite {
          q := q + [i];
        }
        i := i + 1;
      }
      this.files := files;
      this.queue := q;
      this.nbTraces := nbTraces;
    }

    /** get_first over the queue: the context that compares lowest, hence
     *  one with the earliest time stamp. */
    method First() returns (r: nat)
      requires Valid() && |queue| > 0
      ensures r in queue && r < |files|
      ensures forall k :: 0 <= k < |queue| ==> CompareTracefile(files[r], files[queue[k]]) <= 0
      ensures forall k :: 0 <= k < |queue| ==> LessEq(files[r].timestamp, files[queue[k]].timestamp)
    {
      r := queue[0];
      var i := 1;
      while i < |queue|
        invariant 1 <= i <= |queue| && r in queue
        invariant forall k :: 0 <= k < i ==> CompareTracefile(files[r], files[queue[k]]) <= 0
      {
        var c := queue[i];
        if CompareTracefile(files[c], files[r]) < 0 {
          forall k | 0 <= k < i
            ensures CompareTracefile(files[c], files[queue[k]]) <= 0
          {
            CompareTracefileTransitive(files[c], files[r], files[queue[k]]);
          }
          r := c;
        } else {
          CompareTracefileAntisymmetric(files[c], files[r]);
        }
        i := i + 1;
      }
      forall k | 0 <= k < |queue|
        ensures LessEq(files[r].timestamp, files[queue[k]].timestamp)
      {
        if CompareTracefile(files[r], files[queue[k]]) == 0 {
          assert r == queue[k];
        }
      }
    }

    /** lttv_traceset_context_ctx_pos_compare. */
    method CtxPosCompare(pos: Position) returns (r: int)
      requires PositionFor(|files|, pos)
      ensures r == CtxPosCompareOf(files, nbTraces, pos)
    {
      if |pos.tfcp| == 0 {
        return if nbTraces == 0 then 0 else 1;
      }
      if nbTraces == 0 {
        return -1;
      }
      var i := 0;
      while i < |pos.tfcp|
        invariant 0 <= i <= |pos.tfcp|
        invariant EntriesCompare(files, pos.tfcp, i) == EntriesCompare(files, pos.tfcp, 0)
      {
        var e := pos.tfcp[i];
        r := 0;
        if !e.used {
          if Less(files[e.tfc].timestamp, Infinite) {
            r := -1;
          }
        } else {
          if files[e.tfc].timestamp == Infinite {
            r := 1;
          } else {
            r := EventPositionCompare(files[e.tfc].cur, e.event);
          }
        }
        if r != 0 {
          return;
        }
        i := i + 1;
      }
      r := 0;
    }

    /** lttv_traceset_context_position_save into a position with an entry
     *  for each context: the events of the contexts that have one, and the
     *  earliest of their time stamps, or the infinite time. */
    method SavePosition(pos: Position) returns (r: Position)
      requires Valid() && |files| <= |pos.tfcp|
      ensures Snapshot(files, r) && |r.tfcp| == |pos.tfcp|
      ensures forall i :: 0 <= i < |files| && !r.tfcp[i].used ==> r.tfcp[i].event == pos.tfcp[i].event
      ensures forall i :: |files| <= i < |r.tfcp| ==> r.tfcp[i] == pos.tfcp[i]
      ensures forall i :: 0 <= i < |files| && files[i].timestamp != Infinite ==>
        LessEq(r.timestamp, files[i].timestamp)
      ensures r.timestamp == Infinite || exists i :: 0 <= i < |files| && r.timestamp == files[i].timestamp
      ensures (r.timestamp == Infinite) == (forall i :: 0 <= i < |files| ==> files[i].timestamp == Infinite)
    {
      var entries := pos.tfcp;
      var time := Infinite;
      var i := 0;
      while i < |files|
        invariant 0 <= i <= |files| && |entries| == |pos.tfcp|
        invariant Snapshot(files[..i], Position(entries, time))
        invariant forall k :: 0 <= k < i && !entries[k].used ==> entries[k].event == pos.tfcp[k].event
        invariant forall k :: i <= k < |entries| ==> entries[k] == pos.tfcp[k]
        invariant forall k :: 0 <= k < i && files[k].timestamp != Infinite ==> LessEq(time, files[k].timestamp)
        invariant time == Infinite || exists k :: 0 <= k < i && time == files[k].timestamp
        invariant (time == Infinite) == (forall k :: 0 <= k < i ==> files[k].timestamp == Infinite)
      {
        var f := files[i];
        assert TracefileOk(f);
        if f.timestamp != Infinite {
          entries := entries[i := TfPosition(i, true, f.cur)];
          if Less(f.timestamp, time) {
            time := f.timestamp;
          }
        } else {
          entries := entries[i := TfPosition(i, false, entries[i].event)];
        }
        i := i + 1;
      }
      assert files[..i] == files;
      r := Position(entries, time);
    }

    /** Takes a context off the queue, reads its next event and puts it back
     *  unless its tracefile is finished. */
    method Advance(i: nat)
      requires Valid() && i in queue
      modifies this
      ensures Valid()
      ensures i < |old(files)| && old(files[i]).cur < |old(files[i]).events|
      ensures files == old(files)[i := ReadNext(old(files[i]))]
      ensures forall q :: q in queue <==>
        (q in old(queue) && q != i) || (q == i && files[i].timestamp != Infinite)
    {
      var f := files[i];
      assert TracefileOk(f);
      ReadNextOk(f);
      var g := ReadNext(f);
      RequeueOk(files, queue, i, g);
      queue := Requeue(queue, i, g.timestamp != Infinite);
      files := files[i := g];
    }

    /** The delivery of the first event of the queue by the middle loop. */
    method Deliver(first: nat, end: Time, ghost times: seq<Time>, ghost f0: seq<Tracefile>, ghost count: nat)
      requires Valid() && first in queue && first < |files|
      requires forall k :: 0 <= k < |queue| ==> LessEq(files[first].timestamp, files[queue[k]].timestamp)
      requires Less(files[first].timestamp, end) && TimesOk(times, end, files, queue)
      requires Progressed(f0, files) && multiset(times) == Delivered(f0, files)
      modifies this
      requires Consumed(f0, files, count)
      ensures Valid() && Progressed(f0, files)
      ensures Consumed(f0, files, count + 1)
      ensures TimesOk(times + [old(files[first].timestamp)], end, files, queue)
      ensures multiset(times + [old(files[first].timestamp)]) == Delivered(f0, files)
    {
      ghost var before, q0 := files, queue;
      assert TracefileOk(before[first]);
      Advance(first);
      ReadNextSince(f0[first], before[first]);
      DeliveredUpdate(f0, before, first, files[first], before[first].timestamp);
      SumsUpdate(before, first, files[first]);
      SumCurBounded(files);
      DeliveredStep(times, before[first].timestamp, end, before, files, q0, queue, first);
      ProgressedStep(f0, before, first, files);
    }

    /** lttv_process_traceset_middle: delivers the events of the traceset in
     *  queue order to the hook, whose k-th answer is hook(k), until the
     *  traceset ends, the hook asks to stop, nbEvents events were delivered,
     *  the end position is reached or the next event is not before end.
     *  The ghost result lists the delivered event times: exactly the times
     *  of the events the contexts read, in time order. */
    method Middle(end: Time, nbEvents: nat, endPos: Option<Position>, hook: nat -> bool)
      returns (count: nat, ghost times: seq<Time>)
      requires Valid()
      requires endPos.Some? ==> PositionFor(|files|, endPos.value)
      modifies this
      ensures Valid() && Progressed(old(files), files)
      ensures Consumed(old(files), files, count)
      ensures |times| == count && TimesOk(times, end, files, queue)
      ensures multiset(times) == Delivered(old(files), files)
      ensures forall k :: 0 <= k < count - 1 ==> !hook(k)
      ensures nbEvents != NoEventLimit ==> count <= nbEvents
      ensures queue == [] || (count > 0 && hook(count - 1)) || Stopped(end, nbEvents, endPos, count)
    {
      count := 0;
      times := [];
      var lastRet := false;
      var stop := false;
      ghost var f0 := files;
      SumCurBounded(files);
      DeliveredNothing(files);
      while !stop
        invariant Inv(f0, end, times, count)
        invariant HookAnswers(hook, count, lastRet)
        invariant nbEvents != NoEventLimit ==> count <= nbEvents
        invariant stop ==> queue == [] || lastRet || Stopped(end, nbEvents, endPos, count)
        decreases SumLen(f0) - SumCur(f0) - count, if stop then 0 else 1
      {
        ghost var next;
        stop, next := Step(end, nbEvents, endPos, count, lastRet, f0, times);
        if !stop {
          NoStopYet(hook, count, lastRet);
          lastRet := hook(count);
          count := count + 1;
          times := next;
        }
      }
    }

    /** The invariant of the middle loop after count events were delivered
     *  at the given times since the state f0. */
    ghost predicate Inv(f0: seq<Tracefile>, end: Time, times: seq<Time>, count: nat)
      reads this
    {
      Valid() && Progressed(f0, files) && Consumed(f0, files, count) &&
      |times| == count && TimesOk(times, end, files, queue) && multiset(times) == Delivered(f0, files)
    }

    /** One turn of the middle loop: the stop test, then the delivery of the
     *  first event of the queue; next is times with that event's time
     *  appended. */
    method Step(end: Time, nbEvents: nat, endPos: Option<Position>, count: nat, lastRet: bool,
                ghost f0: seq<Tracefile>, ghost times: seq<Time>)
      returns (stop: bool, ghost next: seq<Time>)
      requires Inv(f0, end, times, count)
      requires endPos.Some? ==> PositionFor(|files|, endPos.value)
      modifies this
      ensures stop ==> (files == old(files) && queue == old(queue) &&
                        (queue == [] || lastRet || Stopped(end, nbEvents, endPos, count)))
      ensures !stop ==> (|next| == |times| + 1 && next[..|times|] == times &&
                         Inv(f0, end, next, count + 1) && !lastRet &&
                         (nbEvents != NoEventLimit ==> count < nbEvents) && |files| == |old(files)|)
    {
      next := times;
      if |queue| == 0 {
        return true, next;
      }
      var first := First();
      stop := StopBefore(first, end, nbEvents, endPos, count, lastRet);
      if !stop {
        next := times + [files[first].timestamp];
        Deliver(first, end, times, f0, count);
        assert next[..|times|] == times;
      }
    }

    /** The reasons other than the hook's answer for which the middle loop
     *  stops with events left in the queue. */
    ghost predicate Stopped(end: Time, nbEvents: nat, endPos: Option<Position>, count: nat)
      reads this
    {
      (nbEvents != NoEventLimit && count >= nbEvents) ||
      (endPos.Some? && PositionFor(|files|, endPos.value) &&
       CtxPosCompareOf(files, nbTraces, endPos.value) == 0) ||
      (forall q :: q in queue && q < |files| ==> LessEq(end, files[q].timestamp))
    }

    /** The stop test of the middle loop, made before the first event of
     *  the queue is delivered. */
    method StopBefore(first: nat, end: Time, nbEvents: nat, endPos: Option<Position>, count: nat, lastRet: bool)
      returns (stop: bool)
      requires Valid() && first in queue && first < |files|
      requires forall k :: 0 <= k < |queue| ==> LessEq(files[first].timestamp, files[queue[k]].timestamp)
      requires endPos.Some? ==> PositionFor(|files|, endPos.value)
      ensures stop ==> lastRet || Stopped(end, nbEvents, endPos, count)
      ensures !stop ==> !lastRet && (nbEvents != NoEventLimit ==> count < nbEvents) && Less(files[first].timestamp, end)
    {
      var reached := false;
      if endPos.Some? {
        var c := CtxPosCompare(endPos.value);
        reached := c == 0;
      }
      stop := lastRet || (count >= nbEvents && nbEvents != NoEventLimit) || reached
              || Compare(end, files[first].timestamp) <= 0;
      if Compare(end, files[first].timestamp) <= 0 {
        forall q | q in queue ensures LessEq(end, files[q].timestamp) {
          var k :| 0 <= k < |queue| && queue[k] == q;
        }
      }
    }

    /** lttv_process_trace_seek_time for the contexts of one trace: each is
     *  moved to its first event at or after start and queued if it has
     *  one. */
    method SeekTraceTime(trace: nat, start: Time)
      requires Valid()
      modifies this
      ensures Valid() && |files| == |old(files)|
      ensures forall i :: 0 <= i < |files| ==>
        files[i] == if old(files[i]).traceIndex == trace then SeekedTo(old(files[i]), start) else old(files[i])
      ensures forall q :: q in queue && files[q].traceIndex == trace ==> LessEq(start, files[q].timestamp)
    {
      var i := 0;
      while i < |files|
        invariant 0 <= i <= |files| == |old(files)|
        invariant Valid()
        invariant forall k :: 0 <= k < |files| ==>
          files[k] == if k < i && old(files[k]).traceIndex == trace then SeekedTo(old(files[k]), start) else old(files[k])
      {
        var f := files[i];
        if f.traceIndex == trace {
          var g := SeekedTo(f, start);
          SeekedToOk(f, start);
          RequeueOk(files, queue, i, g);
          queue := Requeue(queue, i, g.timestamp != Infinite);
          files := files[i := g];
        }
        i := i + 1;
      }
      forall q | q in queue && files[q].traceIndex == trace
        ensures LessEq(start, files[q].timestamp)
      {
        SeekedToOk(old(files[q]), start);
      }
    }

    /** lttv_process_traceset_seek_n_forward: skips n events accepted by the
     *  filters, check(k) and accepted(k) being the check handler's and the
     *  filters' verdicts on the k-th event delivered. The result is the
     *  number of events skipped; it falls short of n only when the traceset
     *  ends, the check handler stops the seek or G_MAXUINT events were
     *  delivered. */
    method SeekNForward(n: nat, check: nat -> bool, accepted: nat -> bool) returns (found: nat, ghost count: nat)
      requires Valid()
      modifies this
      ensures Valid()
      ensures n == 0 ==> found == 0 && files == old(files) && queue == old(queue)
      ensures Consumed(old(files), files, count)
      ensures found == Accepted(check, accepted, count) && found <= n
      ensures found < n ==> queue == [] || (count > 0 && check(count - 1)) || count == MaxUInt
    {
      if n == 0 {
        count := 0;
        SumCurBounded(files);
        return 0, 0;
      }
      var hook := (k: nat) => ForwardStops(n, check, accepted, k);
      var c, times := Middle(Infinite, MaxUInt, None, hook);
      count := c;
      forall k: nat | k + 1 < c ensures !ForwardStops(n, check, accepted, k) {
        assert !hook(k);
      }
      found := Accepted(check, accepted, c);
      ForwardBound(n, check, accepted, count);
      if found < n && queue != [] {
        var q := queue[0];
        assert TracefileOk(files[q]);
        assert !LessEq(Infinite, files[q].timestamp);
      }
    }
  }

  /** The contexts are the same, each one read further or as far. */
  ghost predicate Progressed(f0: seq<Tracefile>, f: seq<Tracefile>) {
    |f| == |f0| &&
    forall i :: 0 <= i < |f| ==>
      f[i].traceIndex == f0[i].traceIndex && f[i].index == f0[i].index &&
      f[i].events == f0[i].events && f0[i].cur <= f[i].cur
  }

  /** The event times a context has read since it was f0. */
  ghost function ReadSince(f0: Tracefile, f: Tracefile): seq<Time> {
    if f0.cur <= f.cur <= |f.events| then f.events[f0.cur..f.cur] else []
  }

  /** The event times each context has read since the state f0. */
  ghost function Reads(f0: seq<Tracefile>, f: seq<Tracefile>): (r: seq<seq<Time>>)
    requires |f0| == |f|
    ensures |r| == |f| && forall i :: 0 <= i < |f| ==> r[i] == ReadSince(f0[i], f[i])
  {
    seq(|f|, i requires 0 <= i < |f| => ReadSince(f0[i], f[i]))
  }

  /** All the times of a sequence of time sequences. */
  ghost function Bag(rs: seq<seq<Time>>): multiset<Time>
  {
    if rs == [] then multiset{} else Bag(rs[..|rs| - 1]) + multiset(rs[|rs| - 1])
  }

  /** The event times the contexts have read since the state f0. */
  ghost function Delivered(f0: seq<Tracefile>, f: seq<Tracefile>): multiset<Time>
    requires |f0| == |f|
  {
    Bag(Reads(f0, f))
  }

  lemma {:induction false} BagOfEmpty(rs: seq<seq<Time>>)
    requires forall i :: 0 <= i < |rs| ==> rs[i] == []
    ensures Bag(rs) == multiset{}
  {
    if rs != [] {
      BagOfEmpty(rs[..|rs| - 1]);
    }
  }

  lemma {:induction false} BagAppend(rs: seq<seq<Time>>, i: nat, t: Time)
    requires i < |rs|
    ensures Bag(rs[i := rs[i] + [t]]) == Bag(rs) + multiset{t}
  {
    var n := |rs| - 1;
    var us := rs[i := rs[i] + [t]];
    if i == n {
      assert us[..n] == rs[..n];
    } else {
      assert us[..n] == rs[..n][i := rs[i] + [t]];
      BagAppend(rs[..n], i, t);
    }
  }

  /** Nothing has been read since the present state. */
  lemma DeliveredNothing(f: seq<Tracefile>)
    ensures Delivered(f, f) == multiset{}
  {
    var rs := Reads(f, f);
    forall i | 0 <= i < |rs| ensures rs[i] == [] {
      assert rs[i] == ReadSince(f[i], f[i]);
    }
    BagOfEmpty(rs);
  }

  /** Reading the next event adds its time to what the context has read. */
  lemma ReadNextSince(f0: Tracefile, f: Tracefile)
    requires f0.cur <= f.cur < |f.events| && TracefileOk(f)
    ensures ReadSince(f0, ReadNext(f)) == ReadSince(f0, f) + [f.timestamp]
  {
    assert f.events[f0.cur..f.cur + 1] == f.events[f0.cur..f.cur] + [f.events[f.cur]];
  }

  /** One context reading one more event adds its time to what the
   *  contexts have read. */
  lemma DeliveredUpdate(f0: seq<Tracefile>, before: seq<Tracefile>, i: nat, g: Tracefile, t: Time)
    requires |f0| == |before| && i < |before|
    requires ReadSince(f0[i], g) == ReadSince(f0[i], before[i]) + [t]
    ensures Delivered(f0, before[i := g]) == Delivered(f0, before) + multiset{t}
  {
    var rs := Reads(f0, before);
    assert Reads(f0, before[i := g]) == rs[i := rs[i] + [t]];
    BagAppend(rs, i, t);
  }

  /** The delivered event times are in order, before end, and not after any
   *  queued time stamp. */
  ghost predicate TimesOk(times: seq<Time>, end: Time, files: seq<Tracefile>, queue: seq<nat>)
    requires forall k :: 0 <= k < |queue| ==> queue[k] < |files|
  {
    (forall j, k :: 0 <= j <= k < |times| ==> LessEq(times[j], times[k])) &&
    (forall k :: 0 <= k < |times| ==> Less(times[k], end)) &&
    (forall k, q :: 0 <= k < |times| && q in queue ==> LessEq(times[k], files[q].timestamp))
  }

  /** The queue with context i taken off and put back when it has an event. */
  function Requeue(queue: seq<nat>, i: nat, finite: bool): seq<nat> {
    Remove(queue, i) + (if finite then [i] else [])
  }

  lemma RequeueOk(files: seq<Tracefile>, queue: seq<nat>, i: nat, g: Tracefile)
    requires FilesOk(files) && QueueOk(files, queue) && i < |files|
    requires TracefileOk(g) && Same(g, files[i])
    ensures FilesOk(files[i := g])
    ensures QueueOk(files[i := g], Requeue(queue, i, g.timestamp != Infinite))
    ensures forall q :: q in Requeue(queue, i, g.timestamp != Infinite) <==>
      (q in queue && q != i) || (q == i && g.timestamp != Infinite)
  {
    var f := files[i := g];
    forall a, b | 0 <= a < b < |f| ensures !Same(f[a], f[b]) {
      assert !Same(files[a], files[b]);
    }
    var r := Remove(queue, i);
    var q := Requeue(queue, i, g.timestamp != Infinite);
    assert i !in r;
    assert forall k :: 0 <= k < |q| ==> q[k] in queue || q[k] == i;
    forall a, b | 0 <= a < b < |q| ensures q[a] != q[b] {
      if b >= |r| {
        assert q[a] in r;
      }
    }
    forall k | 0 <= k < |f| ensures k in q <==> f[k].timestamp != Infinite {
      if k != i {
        assert k in queue <==> files[k].timestamp != Infinite;
      }
    }
  }

  /** After count calls, the hook answered FALSE to all but perhaps the
   *  last, and lastRet is its last answer. */
  ghost predicate HookAnswers(hook: nat -> bool, count: nat, lastRet: bool) {
    lastRet == (count > 0 && hook(count - 1)) &&
    forall k :: 0 <= k < count - 1 ==> !hook(k)
  }

  /** count events were read since f0. */
  ghost predicate Consumed(f0: seq<Tracefile>, f: seq<Tracefile>, count: nat) {
    SumLen(f) == SumLen(f0) && SumCur(f) == SumCur(f0) + count && SumCur(f) <= SumLen(f)
  }

  lemma NoStopYet(hook: nat -> bool, count: nat, lastRet: bool)
    requires HookAnswers(hook, count, lastRet) && !lastRet
    ensures HookAnswers(hook, count + 1, hook(count))
  {
  }

  lemma ProgressedStep(f0: seq<Tracefile>, before: seq<Tracefile>, i: nat, after: seq<Tracefile>)
    requires Progressed(f0, before) && i < |before| && before[i].cur < |before[i].events|
    requires after == before[i := ReadNext(before[i])]
    ensures Progressed(f0, after)
  {
  }

  /** One step of the middle loop keeps the delivered times in order, before
   *  end and below every queued time stamp. */
  lemma DeliveredStep(times: seq<Time>, t: Time, end: Time, before: seq<Tracefile>, after: seq<Tracefile>,
                      q0: seq<nat>, q1: seq<nat>, first: nat)
    requires forall k :: 0 <= k < |q0| ==> q0[k] < |before|
    requires TimesOk(times, end, before, q0)
    requires first < |before| && first in q0 && t == before[first].timestamp && Less(t, end)
    requires forall k :: 0 <= k < |q0| ==> LessEq(t, before[q0[k]].timestamp)
    requires TracefileOk(before[first]) && before[first].cur < |before[first].events|
    requires after == before[first := ReadNext(before[first])]
    requires forall k :: 0 <= k < |q1| ==> q1[k] < |after|
    requires forall q :: q in q1 <==> (q in q0 && q != first) || (q == first && after[first].timestamp != Infinite)
    ensures TimesOk(times + [t], end, after, q1)
  {
    ReadNextOk(before[first]);
    forall q | q in q1 ensures LessEq(t, after[q].timestamp) {
      if q != first {
        var k :| 0 <= k < |q0| && q0[k] == q;
      }
    }
    forall k | 0 <= k < |times| ensures LessEq(times[k], t) {
      assert LessEq(times[k], before[first].timestamp);
    }
  }

  /** A context moved to its first event at or after t. */
  function SeekedTo(f: Tracefile, t: Time): (r: Tracefile) {
    var k := FirstAtOrAfter(f.events, t);
    f.(cur := k, timestamp := if k < |f.events| then f.events[k] else Infinite)
  }

  lemma SeekedToOk(f: Tracefile, t: Time)
    requires TracefileOk(f)
    ensures TracefileOk(SeekedTo(f, t))
    ensures SeekedTo(f, t).timestamp != Infinite ==> LessEq(t, SeekedTo(f, t).timestamp)
    ensures forall j :: 0 <= j < SeekedTo(f, t).cur ==> Less(f.events[j], t)
  {}

  /** The number of the first k delivered events that the seek-forward hook
   *  counts: those the check handler lets through and the filters accept. */
  function Accepted(check: nat -> bool, accepted: nat -> bool, k: nat): nat
  {
    if k == 0 then 0
    else Accepted(check, accepted, k - 1) + (if !check(k - 1) && accepted(k - 1) then 1 else 0)
  }

  /** The answer of seek_forward_event_hook to the k-th event when it
   *  answered FALSE to all earlier ones. */
  function ForwardStops(n: nat, check: nat -> bool, accepted: nat -> bool, k: nat): bool
  {
    check(k) || (accepted(k) && Accepted(check, accepted, k) + 1 >= n)
  }

  lemma {:induction false} AcceptedBelow(n: nat, check: nat -> bool, accepted: nat -> bool, k: nat)
    requires n >= 1
    requires forall j :: 0 <= j < k ==> !ForwardStops(n, check, accepted, j)
    ensures Accepted(check, accepted, k) < n
  {
    if k > 0 {
      AcceptedBelow(n, check, accepted, k - 1);
      assert !ForwardStops(n, check, accepted, k - 1);
    }
  }

  /** Seeking forward never skips more than n events, and skips exactly n
   *  when the hook stopped the read on an event the check handler let
   *  through. */
  lemma ForwardBound(n: nat, check: nat -> bool, accepted: nat -> bool, count: nat)
    requires n >= 1
    requires forall k :: 0 <= k < count - 1 ==> !ForwardStops(n, check, accepted, k)
    ensures Accepted(check, accepted, count) <= n
    ensures count > 0 && ForwardStops(n, check, accepted, count - 1) && !check(count - 1) ==>
      Accepted(check, accepted, count) == n
  {
    if count > 0 {
      AcceptedBelow(n, check, accepted, count - 1);
    }
  }

  /** The slot after first in a circular array of len positions. */
  function NextSlot(first: nat, len: nat): nat {
    if first + 1 >= len then 0 else first + 1
  }

  /** The slot reached from slot 0 after k saved events. */
  function SlotAfter(len: nat, k: nat): nat {
    if k == 0 then 0 else NextSlot(SlotAfter(len, k - 1), len)
  }

  /** The circular array used by the backward seek is filled in order: the
   *  k-th saved event goes to slot k mod len. */
  lemma {:induction false} SlotAfterIsMod(len: nat, k: nat)
    requires len >= 1
    ensures SlotAfter(len, k) == k % len
  {
    if k > 0 {
      SlotAfterIsMod(len, k - 1);
      ModStep(k - 1, len);
    }
  }

  lemma ModStep(m: nat, len: nat)
    requires len >= 1
    ensures (m + 1) % len == if m % len + 1 >= len then 0 else m % len + 1
  {
    var q, r := m / len, m % len;
    var d, s := (m + 1) / len, (m + 1) % len;
    assert (d - q) * len == r + 1 - s;
    MulSign(len, d - q);
    if r + 1 >= len {
      MulSign(len, d - q - 1);
      assert (d - q - 1) * len == (d - q) * len - len;
    }
  }

  /** The state of lttv_process_traceset_seek_n_backward that its event hook
   *  updates: a circular array of saved positions, the slot of the oldest,
   *  the number found (at most n) and the number of events seen. */
  class SeekBackData {
    var firstEvent: nat
    var eventsFound: nat
    var slots: seq<Position>
    var rawEventCount: nat
    const n: nat

    ghost predicate Valid()
      reads this
    {
      firstEvent < |slots| && eventsFound <= n
    }

    /** A ring of n new slots, none of them found yet. */
    constructor (n: nat, blank: Position)
      requires n >= 1
      ensures Valid() && this.n == n && firstEvent == 0 && eventsFound == 0 && rawEventCount == 0
      ensures slots == seq(n, _ => blank)
    {
      this.n := n;
      firstEvent := 0;
      eventsFound := 0;
      rawEventCount := 0;
      slots := seq(n, _ => blank);
    }

    /** seek_back_event_hook: unless the check handler stops the read, saves
     *  the current position of ctx over the oldest one when the filters
     *  accept the event, and never asks the read to stop otherwise. */
    method Hook(ctx: TracesetContext, stopRequested: bool, accepted: bool) returns (stop: bool)
      requires Valid() && ctx.Valid() && |ctx.files| <= |slots[firstEvent].tfcp|
      modifies this
      ensures Valid() && stop == stopRequested && |slots| == old(|slots|)
      ensures stopRequested || !accepted ==>
        firstEvent == old(firstEvent) && eventsFound == old(eventsFound) && slots == old(slots)
      ensures rawEventCount == old(rawEventCount) + (if stopRequested then 0 else 1)
      ensures !stopRequested && accepted ==>
        firstEvent == NextSlot(old(firstEvent), |slots|) &&
        eventsFound == (if old(eventsFound) + 1 < n then old(eventsFound) + 1 else n) &&
        Snapshot(ctx.files, slots[old(firstEvent)]) &&
        forall k :: 0 <= k < |slots| && k != old(firstEvent) ==> slots[k] == old(slots[k])
    {
      if stopRequested {
        return true;
      }
      rawEventCount := rawEventCount + 1;
      if !accepted {
        return false;
      }
      var pos := ctx.SavePosition(slots[firstEvent]);
      slots := slots[firstEvent := pos];
      if firstEvent >= |slots| - 1 {
        firstEvent := 0;
      } else {
        firstEvent := firstEvent + 1;
      }
      eventsFound := if n < eventsFound + 1 then n else eventsFound + 1;
      return false;
    }

    /** The end of a round of seek_n_backward that found fewer than n
     *  events: the ring keeps its first n - eventsFound slots and the next
     *  round fills it from slot 0. */
    method Shrink()
      requires Valid() && eventsFound < n && n - eventsFound <= |slots|
      modifies this
      ensures eventsFound == old(eventsFound) && rawEventCount == old(rawEventCount)
      ensures Valid() && firstEvent == 0 && slots == old(slots)[..n - old(eventsFound)]
    {
      slots := slots[..n - eventsFound];
      firstEvent := 0;
    }
  }

  /** The state of lttv_process_traceset_seek_n_forward that its event hook
   *  updates. check(k) and accepted(k) are the check handler's and the
   *  filters' verdicts on the k-th event seen. */
  class SeekForwardData {
    var eventCount: nat
    var rawEventCount: nat
    const n: nat
    const check: nat -> bool
    const accepted: nat -> bool

    /** The counter holds the events counted so far, and the check handler
     *  has not stopped the read. */
    ghost predicate Valid()
      reads this
    {
      eventCount == Accepted(check, accepted, rawEventCount) &&
      forall k :: 0 <= k < rawEventCount ==> !check(k)
    }

    constructor (n: nat, check: nat -> bool, accepted: nat -> bool)
      ensures Valid() && eventCount == 0 && rawEventCount == 0
      ensures this.n == n && this.check == check && this.accepted == accepted
    {
      this.n := n;
      this.check := check;
      this.accepted := accepted;
      eventCount := 0;
      rawEventCount := 0;
    }

    /** seek_forward_event_hook: its answer is ForwardStops of the event
     *  count so far. */
    method Hook() returns (stop: bool)
      requires Valid()
      modifies this
      ensures stop == ForwardStops(n, check, accepted, old(rawEventCount))
      ensures !check(old(rawEventCount)) ==> Valid() && rawEventCount == old(rawEventCount) + 1
      ensures check(old(rawEventCount)) ==> eventCount == old(eventCount) && rawEventCount == old(rawEventCount)
    {
      if check(rawEventCount) {
        return true;
      }
      var k := rawEventCount;
      rawEventCount := rawEventCount + 1;
      if !accepted(k) {
        return false;
      }
      eventCount := eventCount + 1;
      stop := eventCount >= n;
      forall j | 0 <= j < rawEventCount ensures !check(j) {
        if j < k {
        }
      }
    }
  }

  /** A marker of the requested name and the names of its fields. */
  datatype Marker = Marker(id: nat, fieldNames: seq<nat>)

  /** A trace hook: its channel, marker id and the indices in the marker of
   *  the requested fields. */
  datatype TraceHook = TraceHook(channel: nat, id: nat, fields: seq<nat>)

  /** The requested fields: the field quarks up to the first 0. */
  function Requested(fields: seq<nat>): (r: seq<nat>)
    ensures r <= fields && 0 !in r
    ensures |r| < |fields| ==> fields[|r|] == 0
  {
    if fields == [] || fields[0] == 0 then [] else [fields[0]] + Requested(fields[1..])
  }

  /** The marker has every requested field. */
  predicate HasAll(m: Marker, req: seq<nat>) {
    forall k :: 0 <= k < |req| ==> req[k] in m.fieldNames
  }

  /** idx locates the requested fields in the marker, each at its first
   *  occurrence. */
  predicate Locates(m: Marker, req: seq<nat>, idx: seq<nat>) {
    |idx| == |req| &&
    forall k :: 0 <= k < |idx| ==>
      idx[k] < |m.fieldNames| && m.fieldNames[idx[k]] == req[k] &&
      forall j :: 0 <= j < idx[k] ==> m.fieldNames[j] != req[k]
  }

  /** The markers that have every requested field, in order. */
  function Complete(markers: seq<Marker>, req: seq<nat>): (r: seq<Marker>)
  {
    if markers == [] then []
    else (if HasAll(markers[0], req) then [markers[0]] else []) + Complete(markers[1..], req)
  }

  /** The kept markers have every requested field, and none is kept exactly
   *  when no marker has them all, which is when lttv_trace_find_hook
   *  returns 1 for an existing channel. */
  lemma {:induction false} CompleteProps(markers: seq<Marker>, req: seq<nat>)
    ensures forall k :: 0 <= k < |Complete(markers, req)| ==> HasAll(Complete(markers, req)[k], req)
    ensures |Complete(markers, req)| == 0 <==> forall k :: 0 <= k < |markers| ==> !HasAll(markers[k], req)
  {
    if markers != [] {
      CompleteProps(markers[1..], req);
      var head := if HasAll(markers[0], req) then [markers[0]] else [];
      assert Complete(markers, req) == head + Complete(markers[1..], req);
      if |Complete(markers[1..], req)| == 0 && !HasAll(markers[0], req) {
        forall k | 0 <= k < |markers| ensures !HasAll(markers[k], req) {
          if k > 0 {
            assert markers[k] == markers[1..][k - 1];
          }
        }
      }
      if forall k :: 0 <= k < |markers| ==> !HasAll(markers[k], req) {
        forall k | 0 <= k < |markers[1..]| ensures !HasAll(markers[1..][k], req) {
          assert markers[1..][k] == markers[k + 1];
        }
      }
    }
  }

  /** The loop of lttv_trace_find_hook over the fields of a marker: the
   *  first field with the given name. */
  method FindField(names: seq<nat>, name: nat) returns (r: Option<nat>)
    ensures r.Some? ==> (r.value < |names| && names[r.value] == name &&
                         forall j :: 0 <= j < r.value ==> names[j] != name)
    ensures r.None? ==> name !in names
  {
    var j := 0;
    while j < |names|
      invariant 0 <= j <= |names|
      invariant forall i :: 0 <= i < j ==> names[i] != name
    {
      if names[j] == name {
        return Some(j);
      }
      j := j + 1;
    }
    return None;
  }

  /** The loop of lttv_trace_find_hook over the requested fields for one
   *  marker. */
  method FindFields(m: Marker, fields: seq<nat>) returns (r: Option<seq<nat>>)
    ensures r.Some? <==> HasAll(m, Requested(fields))
    ensures r.Some? ==> Locates(m, Requested(fields), r.value)
  {
    ghost var req := Requested(fields);
    var idx: seq<nat> := [];
    var f := 0;
    while f < |fields| && fields[f] != 0
      invariant 0 <= f <= |fields| && f <= |req| && fields[..f] == req[..f]
      invariant Locates(m, req[..f], idx)
      invariant HasAll(m, req[..f])
    {
      assert fields[f] == req[f];
      var found := FindField(m.fieldNames, fields[f]);
      if found.None? {
        return None;
      }
      assert req[..f + 1] == req[..f] + [req[f]];
      assert fields[..f + 1] == fields[..f] + [fields[f]];
      idx := idx + [found.value];
      f := f + 1;
    }
    assert f == |req| && req[..f] == req;
    r := Some(idx);
  }

  /** added holds, in order, one hook on the channel for each marker of ms,
   *  locating the requested fields. */
  ghost predicate HooksFor(channel: nat, ms: seq<Marker>, req: seq<nat>, added: seq<TraceHook>) {
    |added| == |ms| &&
    forall k :: 0 <= k < |added| ==>
      added[k].channel == channel && added[k].id == ms[k].id && Locates(ms[k], req, added[k].fields)
  }

  /** lttv_trace_find_hook: appends to hooks one trace hook for every marker
   *  of the requested name that has all the requested fields; returns 1 when
   *  the channel or the marker does not exist or no hook was added, else 0. */
  method FindHook(channelFound: bool, channel: nat, markers: seq<Marker>, fields: seq<nat>, hooks: seq<TraceHook>)
    returns (ret: int, out: seq<TraceHook>)
    ensures |out| >= |hooks| && out[..|hooks|] == hooks
    ensures ret == 0 || ret == 1
    ensures ret == 0 <==> channelFound && |out| > |hooks|
    ensures !channelFound ==> out == hooks
    ensures channelFound ==> HooksFor(channel, Complete(markers, Requested(fields)), Requested(fields), out[|hooks|..])
  {
    out := hooks;
    if !channelFound || |markers| == 0 {
      assert out[|hooks|..] == [];
      return 1, out;
    }
    ghost var req := Requested(fields);
    ghost var added: seq<TraceHook> := [];
    var i := 0;
    while i < |markers|
      invariant 0 <= i <= |markers| && out == hooks + added
      invariant HooksFor(channel, Complete(markers[..i], req), req, added)
    {
      CompleteSnoc(markers, i, req);
      var r := FindFields(markers[i], fields);
      if r.Some? {
        var h := TraceHook(channel, markers[i].id, r.value);
        HooksForSnoc(channel, Complete(markers[..i], req), req, added, markers[i], h);
        out := out + [h];
        added := added + [h];
      }
      i := i + 1;
    }
    assert markers[..i] == markers && out[|hooks|..] == added;
    ret := if |out| == |hooks| then 1 else 0;
  }

  lemma HooksForSnoc(channel: nat, ms: seq<Marker>, req: seq<nat>, added: seq<TraceHook>, m: Marker, h: TraceHook)
    requires HooksFor(channel, ms, req, added)
    requires h.channel == channel && h.id == m.id && Locates(m, req, h.fields)
    ensures HooksFor(channel, ms + [m], req, added + [h])
  {
  }

  lemma CompleteSnoc(markers: seq<Marker>, i: nat, req: seq<nat>)
    requires i < |markers|
    ensures Complete(markers[..i + 1], req) ==
      Complete(markers[..i], req) + (if HasAll(markers[i], req) then [markers[i]] else [])
  {
    assert markers[..i + 1] == markers[..i] + [markers[i]];
    CompleteAppend(markers[..i], [markers[i]], req);
  }

  lemma {:induction false} CompleteAppend(a: seq<Marker>, b: seq<Marker>, req: seq<nat>)
    ensures Complete(a + b, req) == Complete(a, req) + Complete(b, req)
  {
    if a == [] {
      assert a + b == b;
    } else {
      assert (a + b)[0] == a[0] && (a + b)[1..] == a[1..] + b;
      CompleteAppend(a[1..], b, req);
    }
  }
}
