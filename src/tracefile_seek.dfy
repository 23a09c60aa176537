/** Time-based positioning in a tracefile, as trunk/lttv/ltt/tracefile.c
 *  does it in ltt_tracefile_seek_time and ltt_tracefile_time_span_get /
 *  group_time_span_get / ltt_trace_time_span_get.  Here a block is seen
 *  through its begin and end timestamps (from the sub-buffer header) and
 *  the times of the events ltt_tracefile_read returns from it, in order. */
module TracefileSeek {
  import opened LttTime
  import opened Wrappers
  import opened CStdlib

  datatype BlockTimes = BlockTimes(begin: Time, end: Time, events: seq<Time>)

  /** All events of the given blocks, in reading order. */
  function Flatten(blocks: seq<BlockTimes>): (r: seq<Time>)
  {
    if |blocks| == 0 then [] else Flatten(blocks[..|blocks| - 1]) + blocks[|blocks| - 1].events
  }

  /** A block's events lie within its header timestamps, in order. */
  predicate BlockWellFormed(b: BlockTimes) {
    && LessEq(b.begin, b.end)
    && (forall k :: 0 <= k < |b.events| ==> LessEq(b.begin, b.events[k]) && LessEq(b.events[k], b.end))
    && (forall k, m :: 0 <= k < m < |b.events| ==> LessEq(b.events[k], b.events[m]))
  }

  /** The tracer writes blocks one after the other: a block ends no later
   *  than the next one begins (they may touch). */
  predicate WellFormed(blocks: seq<BlockTimes>) {
    && (forall i :: 0 <= i < |blocks| ==> BlockWellFormed(blocks[i]))
    && (forall i :: 0 < i < |blocks| ==> LessEq(blocks[i - 1].end, blocks[i].begin))
  }

  /** Every time in s is before t. */
  predicate AllBefore(s: seq<Time>, t: Time) {
    forall k :: 0 <= k < |s| ==> Less(s[k], t)
  }

  lemma {:induction false} FlattenPrefix(blocks: seq<BlockTimes>, i: nat)
    requires i < |blocks|
    ensures Flatten(blocks[..i + 1]) == Flatten(blocks[..i]) + blocks[i].events
  {
    assert blocks[..i + 1][..i] == blocks[..i];
  }

  /** The events of the first i blocks are the first events of the trace. */
  lemma {:induction false} FlattenIsPrefix(blocks: seq<BlockTimes>, i: nat)
    requires i <= |blocks|
    ensures Flatten(blocks[..i]) <= Flatten(blocks)
    decreases |blocks| - i
  {
    if i < |blocks| {
      FlattenPrefix(blocks, i);
      FlattenIsPrefix(blocks, i + 1);
    } else {
      assert blocks[..i] == blocks;
    }
  }

  /** Block ends increase along the tracefile. */
  lemma {:induction false} EndsIncrease(blocks: seq<BlockTimes>, j: nat, k: nat)
    requires WellFormed(blocks) && j <= k < |blocks|
    ensures LessEq(blocks[j].end, blocks[k].end)
    decreases k - j
  {
    if j < k {
      EndsIncrease(blocks, j + 1, k);
      assert BlockWellFormed(blocks[j + 1]);
      CompareTransitive(blocks[j].end, blocks[j + 1].begin, blocks[j + 1].end);
      CompareTransitive(blocks[j].end, blocks[j + 1].end, blocks[k].end);
    }
  }

  /** Every event of the first i blocks is at or before the end of block
   *  i - 1. */
  lemma {:induction false} EventsUpToEnd(blocks: seq<BlockTimes>, i: nat, t: Time)
    requires WellFormed(blocks) && 0 < i <= |blocks| && Less(blocks[i - 1].end, t)
    ensures AllBefore(Flatten(blocks[..i]), t)
  {
    if i > 1 {
      assert LessEq(blocks[i - 2].end, blocks[i - 1].begin);
      assert BlockWellFormed(blocks[i - 1]);
      CompareTransitive(blocks[i - 2].end, blocks[i - 1].begin, blocks[i - 1].end);
      CompareTransitive(blocks[i - 2].end, blocks[i - 1].end, t);
      EventsUpToEnd(blocks, i - 1, t);
    } else {
      assert blocks[..0] == [];
    }
    FlattenPrefix(blocks, i - 1);
    var b := blocks[i - 1];
    assert BlockWellFormed(b);
    forall k | 0 <= k < |b.events|
      ensures Less(b.events[k], t)
    {
      CompareTransitive(b.events[k], b.end, t);
    }
  }

  /** Every event of the trace is at or after the first block's begin. */
  lemma {:induction false} EventsFromBegin(blocks: seq<BlockTimes>, i: nat)
    requires WellFormed(blocks) && 0 < i <= |blocks|
    ensures forall k :: 0 <= k < |Flatten(blocks[..i])| ==>
              LessEq(blocks[0].begin, Flatten(blocks[..i])[k])
  {
    FlattenPrefix(blocks, i - 1);
    if i > 1 {
      EventsFromBegin(blocks, i - 1);
      EndsIncrease(blocks, 0, i - 2);
      assert BlockWellFormed(blocks[0]);
      CompareTransitive(blocks[0].begin, blocks[0].end, blocks[i - 2].end);
      CompareTransitive(blocks[0].begin, blocks[i - 2].end, blocks[i - 1].begin);
    } else {
      assert blocks[..0] == [];
    }
    var b := blocks[i - 1];
    assert BlockWellFormed(b);
    forall k | 0 <= k < |b.events|
      ensures LessEq(blocks[0].begin, b.events[k])
    {
      CompareTransitive(blocks[0].begin, b.begin, b.events[k]);
    }
  }

  /** The events before a block that begins before t are all before t. */
  lemma BeforeBlock(blocks: seq<BlockTimes>, i: nat, t: Time)
    requires WellFormed(blocks) && i < |blocks| && Less(blocks[i].begin, t)
    ensures AllBefore(Flatten(blocks[..i]), t)
  {
    if i > 0 {
      CompareTransitive(blocks[i - 1].end, blocks[i].begin, t);
      EventsUpToEnd(blocks, i, t);
    } else {
      assert blocks[..0] == [];
    }
  }

  datatype Status = Success | Range | Fatal

  const UInt32Modulus: nat := 0x1_0000_0000

  /** The block search of ltt_tracefile_seek_time as written, once the
   *  out-of-span cases are excluded: high, low and block_num are unsigned
   *  32-bit, and a block_num past the last block fails map_block's
   *  assertion (None).  Some(b) is the block whose events are then
   *  scanned. */
  function SearchAsWritten(blocks: seq<BlockTimes>, t: Time, low: nat, high: nat): (r: Option<nat>)
    requires |blocks| < 0x7FFF_FFFF && low <= |blocks|
    requires high < |blocks| || high == UInt32Modulus - 1
    ensures r.Some? ==> r.value < |blocks|
    decreases if low <= high < |blocks| then high - low + 2 else 1
  {
    MidpointInRange(low, high, |blocks|);
    var blockNum := Midpoint(low, high);
    if blockNum >= |blocks| then None
    else if high == low then Some(blockNum)
    else if Less(t, blocks[blockNum].begin) then
      SearchAsWritten(blocks, t, low, Predecessor(blockNum))
    else if Less(blocks[blockNum].end, t) then
      SearchAsWritten(blocks, t, blockNum + 1, high)
    else Some(blockNum)
  }

  /** block_num = (high - low) / 2 + low in unsigned 32-bit arithmetic. */
  function Midpoint(low: nat, high: nat): nat
  {
    (((high - low) % UInt32Modulus) / 2 + low) % UInt32Modulus
  }

  /** high = block_num - 1 in unsigned 32-bit arithmetic. */
  function Predecessor(b: nat): (r: nat)
    requires b < UInt32Modulus
    ensures b >= 1 ==> r == b - 1
    ensures b == 0 ==> r == UInt32Modulus - 1
  {
    if b >= 1 then ModInRange(b - 1, UInt32Modulus); (b - 1) % UInt32Modulus
    else (b - 1) % UInt32Modulus
  }

  /** A probe inside the blocks only happens with low <= high, and lies
   *  between them, strictly below high when they differ; with high below
   *  low or high wrapped to 2^32 - 1 it lands past any block. */
  lemma MidpointInRange(low: nat, high: nat, n: nat)
    requires n < 0x7FFF_FFFF && low <= n && (high < n || high == UInt32Modulus - 1)
    ensures Midpoint(low, high) < n ==>
      low <= high < n && low <= Midpoint(low, high) <= high &&
      (high != low ==> Midpoint(low, high) < high)
  {
    if low <= high {
      ModInRange(high - low, UInt32Modulus);
      ModInRange((high - low) / 2 + low, UInt32Modulus);
    } else {
      ModBelowZero(UInt32Modulus + high - low, UInt32Modulus);
      ModInRange((UInt32Modulus + high - low) / 2 + low, UInt32Modulus);
    }
  }

  /** Four blocks with a gap between the second and the third: a time in
   *  that gap makes high drop below low, high - low wraps around, and the
   *  search aborts on map_block's assertion although the third block holds
   *  the first event after that time. */
  lemma GapAborts()
    ensures WellFormed(GapExample())
    ensures SearchAsWritten(GapExample(), Time(35, 0), 0, 3).None?
    ensures LessEq(Time(35, 0), GapExample()[2].events[0])
  {
    var blocks := GapExample();
    GapExampleWellFormed();
    var t := Time(35, 0);
    GapFirstProbe(blocks, t);
    GapSecondProbe(blocks, t);
    GapWrapAround(blocks, t);
  }

  /** The first probe, block 1, ends before t: the search moves right. */
  lemma GapFirstProbe(blocks: seq<BlockTimes>, t: Time)
    requires blocks == GapExample() && t == Time(35, 0)
    ensures SearchAsWritten(blocks, t, 0, 3) == SearchAsWritten(blocks, t, 2, 3)
  {
    assert Midpoint(0, 3) == 1;
    assert !Less(t, blocks[1].begin) && Less(blocks[1].end, t);
  }

  /** The second probe, block 2, begins after t: high drops to 1. */
  lemma GapSecondProbe(blocks: seq<BlockTimes>, t: Time)
    requires blocks == GapExample() && t == Time(35, 0)
    ensures SearchAsWritten(blocks, t, 2, 3) == SearchAsWritten(blocks, t, 2, 1)
  {
    assert Midpoint(2, 3) == 2;
    assert Less(t, blocks[2].begin);
  }

  /** With high below low, high - low wraps and the probe is past the end. */
  lemma GapWrapAround(blocks: seq<BlockTimes>, t: Time)
    requires blocks == GapExample() && t == Time(35, 0)
    ensures SearchAsWritten(blocks, t, 2, 1).None?
  {
    assert Midpoint(2, 1) == 0x8000_0001;
  }

  lemma GapExampleWellFormed()
    ensures WellFormed(GapExample())
  {
    var blocks := GapExample();
    forall i | 0 <= i < |blocks|
      ensures BlockWellFormed(blocks[i])
    {
      var b := blocks[i];
      assert |b.events| == 2 && b.events[0] == b.begin && b.events[1] == b.end;
    }
  }

  /** Three touching blocks: the first probe, block 1, begins at t, so the
   *  source scans from block 1 and skips the event at t that ends block
   *  0. */
  lemma TouchingBlocksSkipAsWritten()
    ensures WellFormed(TouchExample())
    ensures SearchAsWritten(TouchExample(), Time(10, 0), 0, 2) == Some(1)
    ensures TouchExample()[0].events[1] == Time(10, 0)
    ensures !AllBefore(Flatten(TouchExample()[..1]), Time(10, 0))
  {
    var blocks := TouchExample();
    forall i | 0 <= i < |blocks|
      ensures BlockWellFormed(blocks[i])
    {
      var b := blocks[i];
      assert |b.events| == 2 && b.events[0] == b.begin && b.events[1] == b.end;
    }
    assert Midpoint(0, 2) == 1;
    assert blocks[..1] == [blocks[0]] && blocks[..1][..0] == [];
    assert Flatten(blocks[..1])[1] == Time(10, 0);
  }

  function TouchExample(): seq<BlockTimes>
  {
    [BlockTimes(Time(0, 0), Time(10, 0), [Time(0, 0), Time(10, 0)]),
     BlockTimes(Time(10, 0), Time(20, 0), [Time(10, 0), Time(20, 0)]),
     BlockTimes(Time(20, 0), Time(30, 0), [Time(20, 0), Time(30, 0)])]
  }

  function GapExample(): seq<BlockTimes>
  {
    [BlockTimes(Time(0, 0), Time(10, 0), [Time(0, 0), Time(10, 0)]),
     BlockTimes(Time(20, 0), Time(30, 0), [Time(20, 0), Time(30, 0)]),
     BlockTimes(Time(40, 0), Time(50, 0), [Time(40, 0), Time(50, 0)]),
     BlockTimes(Time(60, 0), Time(70, 0), [Time(60, 0), Time(70, 0)])]
  }

  /** The tracefile as the seek sees it: the mapped block, the number of
   *  its events already read, and the time of the current event. */
  class TimeCursor {
    const blocks: seq<BlockTimes>
    var index: nat
    var next: nat
    var eventTime: Time

    ghost predicate Valid()
      reads this
    {
      index < |blocks| && next <= |blocks[index].events|
    }

    /** Number of events read before the cursor's position. */
    ghost function Consumed(): nat
      reads this
      requires Valid()
    {
      |Flatten(blocks[..index])| + next
    }

    constructor (blocks: seq<BlockTimes>)
      requires |blocks| > 0
      ensures Valid() && this.blocks == blocks && index == 0 && next == 0
    {
      this.blocks := blocks;
      index := 0;
      next := 0;
      eventTime := Zero;
    }

    /** map_block: the next read returns the block's first event. */
    method MapBlock(i: nat)
      requires i < |blocks|
      modifies this
      ensures Valid() && index == i && next == 0 && eventTime == old(eventTime)
    {
      index := i;
      next := 0;
    }

    /** ltt_tracefile_read at event granularity: the next event in reading
     *  order, crossing into the following blocks, or ERANGE (Range) when
     *  the last block is exhausted. */
    method Read() returns (r: Status)
      requires Valid()
      modifies this
      ensures Valid() && r != Fatal
      ensures r == Success ==>
                Consumed() == old(Consumed()) + 1 && Consumed() <= |Flatten(blocks)|
                && eventTime == Flatten(blocks)[Consumed() - 1]
      ensures r == Range ==>
                Consumed() == old(Consumed()) == |Flatten(blocks)| && eventTime == old(eventTime)
    {
      var more := SkipExhausted();
      if !more {
        return Range;
      }
      eventTime := blocks[index].events[next];
      next := next + 1;
      FlattenPrefix(blocks, index);
      FlattenIsPrefix(blocks, index + 1);
      assert Flatten(blocks[..index + 1])[Consumed() - 1] == eventTime;
      r := Success;
    }

    /** The block crossing of ltt_tracefile_read: exhausted blocks are left
     *  for the next one until an unread event is found or the last block
     *  is exhausted. */
    method SkipExhausted() returns (more: bool)
      requires Valid()
      modifies this
      ensures Valid() && Consumed() == old(Consumed()) && eventTime == old(eventTime)
      ensures more ==> next < |blocks[index].events|
      ensures !more ==> Consumed() == |Flatten(blocks)|
    {
      ghost var before := Consumed();
      while next == |blocks[index].events|
        invariant Valid() && Consumed() == before && eventTime == old(eventTime)
        decreases |blocks| - index
      {
        if index == |blocks| - 1 {
          assert blocks[..index + 1] == blocks;
          FlattenPrefix(blocks, index);
          return false;
        }
        FlattenPrefix(blocks, index);
        MapBlock(index + 1);
      }
      return true;
    }

    /** The sequential part of ltt_tracefile_seek_time: read until an event
     *  is at or after t. */
    method Scan(t: Time) returns (r: Status)
      requires Valid() && Consumed() <= |Flatten(blocks)|
      requires AllBefore(Flatten(blocks)[..Consumed()], t)
      modifies this
      ensures Valid() && r != Fatal
      ensures r == Success ==> FirstAtOrAfter(t)
      ensures r == Range ==> AllBefore(Flatten(blocks), t)
    {
      while true
        invariant Valid() && Consumed() <= |Flatten(blocks)|
        invariant AllBefore(Flatten(blocks)[..Consumed()], t)
        decreases |Flatten(blocks)| - Consumed()
      {
        ghost var all := Flatten(blocks);
        ghost var c0 := Consumed();
        r := Read();
        if r == Range {
          assert all[..Consumed()] == all;
          return;
        }
        assert Consumed() - 1 == c0;
        if LessEq(t, eventTime) {
          return;
        }
        assert all[..Consumed()] == all[..Consumed() - 1] + [eventTime];
      }
    }

    /** The current event is the first of the tracefile at or after t. */
    ghost predicate FirstAtOrAfter(t: Time)
      reads this
      requires Valid()
    {
      && 0 < Consumed() <= |Flatten(blocks)|
      && eventTime == Flatten(blocks)[Consumed() - 1]
      && LessEq(t, eventTime)
      && AllBefore(Flatten(blocks)[..Consumed() - 1], t)
    }

    /** ltt_tracefile_seek_time: the first event at or after t, or ERANGE
     *  when there is none.  The block search uses the corrected bounds: when
     *  t falls between two blocks, high drops below low and the scan starts
     *  at block low, the first block after t; and a block that begins at t
     *  sends the search lower, so that events at t at the end of the block
     *  before it are not skipped. */
    method SeekTime(t: Time) returns (r: Status)
      requires Valid() && WellFormed(blocks)
      modifies this
      ensures Valid() && r != Fatal
      ensures r == Success ==> FirstAtOrAfter(t)
      ensures r == Range ==> AllBefore(Flatten(blocks), t)
    {
      MapBlock(0);
      if LessEq(t, blocks[0].begin) {
        assert blocks[..0] == [];
        r := Read();
        if r == Success {
          EventsFromBegin(blocks, |blocks|);
          assert blocks[..|blocks|] == blocks;
          CompareTransitive(t, blocks[0].begin, eventTime);
        } else {
          assert Flatten(blocks) == [];
        }
        return;
      }
      var last := |blocks| - 1;
      MapBlock(last);
      if Less(blocks[last].end, t) {
        EventsUpToEnd(blocks, |blocks|, t);
        assert blocks[..|blocks|] == blocks;
        return Range;
      }
      r := SearchBlocks(t);
    }

    /** The block search of ltt_tracefile_seek_time once t is known to lie
     *  after the first block's begin and not after the last block's end. */
    method SearchBlocks(t: Time) returns (r: Status)
      requires Valid() && WellFormed(blocks)
      requires !Less(blocks[|blocks| - 1].end, t)
      modifies this
      ensures Valid() && r != Fatal
      ensures r == Success ==> FirstAtOrAfter(t)
      ensures r == Range ==> AllBefore(Flatten(blocks), t)
    {
      var last := |blocks| - 1;
      var high: int := last;
      var low: int := 0;
      assert blocks[..0] == [];
      while true
        invariant 0 <= low <= high + 1 && high < |blocks| && low < |blocks|
        invariant AllBefore(Flatten(blocks[..low]), t)
        invariant Valid()
        invariant !Less(blocks[last].end, t)
        decreases high - low + 1
      {
        if high < low {
          MapBlock(low);
          r := ScanFromBlock(t);
          return;
        }
        var blockNum := (high - low) / 2 + low;
        MapBlock(blockNum);
        if high == low {
          r := ScanFromBlock(t);
          return;
        } else if LessEq(t, blocks[blockNum].begin) {
          high := blockNum - 1;
        } else if Less(blocks[blockNum].end, t) {
          EventsUpToEnd(blocks, blockNum + 1, t);
          if blockNum == last {
            assert false;
          }
          low := blockNum + 1;
        } else {
          BeforeBlock(blocks, blockNum, t);
          r := ScanFromBlock(t);
          return;
        }
      }
    }

    /** Scan from the start of the mapped block. */
    method ScanFromBlock(t: Time) returns (r: Status)
      requires Valid() && next == 0 && AllBefore(Flatten(blocks[..index]), t)
      modifies this
      ensures Valid() && r != Fatal
      ensures r == Success ==> FirstAtOrAfter(t)
      ensures r == Range ==> AllBefore(Flatten(blocks), t)
    {
      FlattenIsPrefix(blocks, index);
      assert Flatten(blocks)[..Consumed()] == Flatten(blocks[..index]);
      r := Scan(t);
    }

    /** ltt_tracefile_time_span_get: the first block's begin and the last
     *  block's end.  On a well-formed tracefile every event lies between
     *  the two. */
    method TimeSpan() returns (start: Time, end: Time)
      requires Valid()
      modifies this
      ensures Valid()
      ensures start == blocks[0].begin && end == blocks[|blocks| - 1].end
    {
      MapBlock(0);
      start := blocks[index].begin;
      MapBlock(|blocks| - 1);
      end := blocks[index].end;
    }
  }

  /** The span of a tracefile bounds all its events. */
  lemma SpanBoundsEvents(blocks: seq<BlockTimes>, t: Time)
    requires WellFormed(blocks) && |blocks| > 0
    requires Less(blocks[|blocks| - 1].end, t)
    ensures AllBefore(Flatten(blocks), t)
    ensures forall k :: 0 <= k < |Flatten(blocks)| ==> LessEq(blocks[0].begin, Flatten(blocks)[k])
  {
    EventsUpToEnd(blocks, |blocks|, t);
    EventsFromBegin(blocks, |blocks|);
    assert blocks[..|blocks|] == blocks;
  }

  /** What ltt_trace_time_span_get needs of a tracefile: whether its CPU is
   *  online and its span. */
  datatype TracefileSpan = TracefileSpan(cpuOnline: bool, start: Time, end: Time)

  /** The earliest start of the online tracefiles, ltt_time_infinite when
   *  there is none. */
  function MinStart(group: seq<TracefileSpan>): (r: Time)
  {
    if |group| == 0 then Infinite
    else
      var rest := MinStart(group[..|group| - 1]);
      var tf := group[|group| - 1];
      if tf.cpuOnline && Compare(rest, tf.start) > 0 then tf.start else rest
  }

  /** The latest end of the online tracefiles, ltt_time_zero when there is
   *  none. */
  function MaxEnd(group: seq<TracefileSpan>): (r: Time)
  {
    if |group| == 0 then Zero
    else
      var rest := MaxEnd(group[..|group| - 1]);
      var tf := group[|group| - 1];
      if tf.cpuOnline && Compare(rest, tf.end) < 0 then tf.end else rest
  }

  /** The minimum start is at or before every online start, and is one of
   *  them unless there is none. */
  lemma {:induction false} MinStartIsMinimum(group: seq<TracefileSpan>)
    ensures forall i :: 0 <= i < |group| && group[i].cpuOnline ==> LessEq(MinStart(group), group[i].start)
    ensures MinStart(group) == Infinite
            || exists i :: 0 <= i < |group| && group[i].cpuOnline && MinStart(group) == group[i].start
  {
    if |group| > 0 {
      var init := group[..|group| - 1];
      MinStartIsMinimum(init);
      var m := MinStart(init);
      forall i | 0 <= i < |group| && group[i].cpuOnline
        ensures LessEq(MinStart(group), group[i].start)
      {
        if i < |group| - 1 {
          assert group[i] == init[i];
          CompareTransitive(MinStart(group), m, group[i].start);
        }
      }
      if MinStart(group) != Infinite && MinStart(group) == m {
        var i :| 0 <= i < |init| && init[i].cpuOnline && m == init[i].start;
        assert group[i] == init[i];
      }
    }
  }

  lemma {:induction false} MaxEndIsMaximum(group: seq<TracefileSpan>)
    ensures forall i :: 0 <= i < |group| && group[i].cpuOnline ==> LessEq(group[i].end, MaxEnd(group))
    ensures MaxEnd(group) == Zero
            || exists i :: 0 <= i < |group| && group[i].cpuOnline && MaxEnd(group) == group[i].end
  {
    if |group| > 0 {
      var init := group[..|group| - 1];
      MaxEndIsMaximum(init);
      var m := MaxEnd(init);
      forall i | 0 <= i < |group| && group[i].cpuOnline
        ensures LessEq(group[i].end, MaxEnd(group))
      {
        if i < |group| - 1 {
          assert group[i] == init[i];
          CompareTransitive(group[i].end, m, MaxEnd(group));
        }
      }
      if MaxEnd(group) != Zero && MaxEnd(group) == m {
        var i :| 0 <= i < |init| && init[i].cpuOnline && m == init[i].end;
        assert group[i] == init[i];
      }
    }
  }

  /** ltt_trace_time_span_get over the tracefile groups: the span of all
   *  online tracefiles. */
  method TraceTimeSpan(groups: seq<seq<TracefileSpan>>) returns (start: Time, end: Time)
    ensures start == MinStart(Concat(groups)) && end == MaxEnd(Concat(groups))
  {
    start := Infinite;
    end := Zero;
    var g := 0;
    while g < |groups|
      invariant 0 <= g <= |groups|
      invariant start == MinStart(Concat(groups[..g])) && end == MaxEnd(Concat(groups[..g]))
    {
      start, end := GroupTimeSpan(Concat(groups[..g]), groups[g], start, end);
      assert groups[..g + 1][..g] == groups[..g];
      g := g + 1;
    }
    assert groups[..g] == groups;
  }

  /** group_time_span_get: the span so far, over the tracefiles before this
   *  group, extended by the online tracefiles of the group. */
  method GroupTimeSpan(ghost before: seq<TracefileSpan>, group: seq<TracefileSpan>,
                       start0: Time, end0: Time) returns (start: Time, end: Time)
    requires start0 == MinStart(before) && end0 == MaxEnd(before)
    ensures start == MinStart(before + group) && end == MaxEnd(before + group)
  {
    start, end := start0, end0;
    var i := 0;
    assert before + group[..0] == before;
    while i < |group|
      invariant 0 <= i <= |group|
      invariant start == MinStart(before + group[..i])
      invariant end == MaxEnd(before + group[..i])
    {
      var tf := group[i];
      assert (before + group[..i + 1])[..|before + group[..i]|] == before + group[..i];
      if tf.cpuOnline {
        if Compare(start, tf.start) > 0 { start := tf.start; }
        if Compare(end, tf.end) < 0 { end := tf.end; }
      }
      i := i + 1;
    }
    assert group[..i] == group;
  }

  /** The tracefiles of all groups, in order. */
  function Concat(groups: seq<seq<TracefileSpan>>): seq<TracefileSpan>
  {
    if |groups| == 0 then [] else Concat(groups[..|groups| - 1]) + groups[|groups| - 1]
  }
}
