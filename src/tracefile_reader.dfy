/** Reading a tracefile event by event, as trunk/lttv/ltt/tracefile.c does:
 *  the mapped block and the current event are fields of LttTracefile that
 *  map_block, ltt_seek_next_event, ltt_tracefile_read_update_event and
 *  ltt_update_event_size update in place. */
module TracefileReader {
  import opened Wrappers
  import opened ByteOrder
  import opened EventHeader

  /** A block of the tracefile as map_block finds it: its bytes (starting
   *  with the sub-buffer header) and the header fields map_block copies. */
  datatype Block = Block(content: seq<Byte>, cycleCountBegin: nat, lostSize: nat)

  /** The fields of LttEvent this model follows.  offset and data are byte
   *  positions in the mapped block (the C code keeps data as a pointer). */
  datatype Event = Event(
    block: nat, offset: nat, timestamp: nat, eventId: nat, eventSize: nat,
    tsc: nat, data: nat, dataSize: int)

  /** Outcome of an operation: g_error terminates the program, which is
   *  Fatal here. */
  datatype Status = Success | Range | Fatal

  /** buf_size - lost_size in guint arithmetic. */
  function Limit(bufSize: nat, lostSize: nat): (l: nat)
    ensures l < UInt32Modulus
    ensures lostSize <= bufSize < UInt32Modulus ==> l == bufSize - lostSize
  {
    (bufSize - lostSize) % UInt32Modulus
  }

  /** ltt_seek_next_event on an event: the new offset and ERANGE (Range)
   *  exactly when it is the end of the block's data. */
  function SeekNext(e: Event, headerSize: nat, limit: nat): (r: (Status, nat))
    ensures e.offset == 0 ==> r.1 == headerSize && r.0 != Fatal
    ensures e.offset != 0 && e.dataSize < 0 ==> r.0 == Fatal
    ensures e.offset != 0 && e.dataSize >= 0 ==> r.1 == e.data + e.dataSize
    ensures r.0 == Range <==> r.0 != Fatal && r.1 == limit
    ensures e.offset != 0 && r.0 == Success ==> r.1 < limit
    ensures e.offset != 0 && e.dataSize >= 0 && r.1 > limit ==> r.0 == Fatal
  {
    if e.offset == 0 then
      (if headerSize == limit then Range else Success, headerSize)
    else if e.dataSize < 0 then (Fatal, e.offset)
    else
      var next := e.data + e.dataSize as nat;
      (if next == limit then Range else if next < limit then Success else Fatal, next)
  }

  /** ltt_update_event_size's check: a G_MAXUINT event size (no size in the
   *  header) takes the computed data size, truncated to the guint field; a
   *  size that still differs from the data size is fatal. */
  function SettleSize(eventSize: nat, dataSize: int): (r: Option<nat>)
    ensures r.Some? ==> r.value == dataSize
    ensures r.Some? <==>
      (eventSize == dataSize || (eventSize == GMaxUInt && 0 <= dataSize < UInt32Modulus))
  {
    var size := if eventSize == GMaxUInt then dataSize % UInt32Modulus else eventSize;
    if size == dataSize then Some(size) else None
  }

  /** The event after its header has been decoded. */
  function DecodedEvent(e: Event, h: Header, tsc: nat): Event
  {
    e.(timestamp := h.timestamp, eventId := h.eventId, eventSize := h.eventSize,
       tsc := tsc, data := h.data)
  }

  class Tracefile {
    const reverseBo: bool
    const bufSize: nat
    const bufferHeaderSize: nat
    /** The blocks of the file, the source of map_block's mmap. */
    const blocks: seq<Block>
    /** The payload size that ltt_update_event_size obtains from the marker
     *  description (marker_update_fields_offsets or the metadata string
     *  lengths), given the block, event id and data position. */
    const payloadSize: (nat, nat, nat) -> int

    var index: nat
    var head: seq<Byte>
    var lostSize: nat
    var bufferTsc: nat
    var event: Event

    ghost predicate Valid()
      reads this
    {
      && index < |blocks|
      && head == blocks[index].content
      && lostSize == blocks[index].lostSize
      && bufferTsc < UInt64Modulus
      && event.block == index
      && forall i :: 0 <= i < |blocks| ==> blocks[i].cycleCountBegin < UInt64Modulus
    }

    /** buf_size - lost_size of the mapped block. */
    function CurrentLimit(): nat
      reads this
    {
      Limit(bufSize, lostSize)
    }

    /** A block holding no event: the first seek lands on its end. */
    predicate EmptyBlock(i: nat)
      requires i < |blocks|
    {
      Limit(bufSize, blocks[i].lostSize) == bufferHeaderSize
    }

    /** ltt_tracefile_open maps the first block. */
    constructor (reverseBo: bool, bufSize: nat, bufferHeaderSize: nat,
                 blocks: seq<Block>, payloadSize: (nat, nat, nat) -> int)
      requires |blocks| > 0
      requires forall i :: 0 <= i < |blocks| ==> blocks[i].cycleCountBegin < UInt64Modulus
      ensures Valid() && index == 0 && event.offset == 0
      ensures this.reverseBo == reverseBo && this.bufSize == bufSize
      ensures this.bufferHeaderSize == bufferHeaderSize
      ensures this.blocks == blocks && this.payloadSize == payloadSize
    {
      this.reverseBo := reverseBo;
      this.bufSize := bufSize;
      this.bufferHeaderSize := bufferHeaderSize;
      this.blocks := blocks;
      this.payloadSize := payloadSize;
      index := 0;
      head := blocks[0].content;
      lostSize := blocks[0].lostSize;
      bufferTsc := blocks[0].cycleCountBegin;
      event := Event(0, 0, 0, 0, 0, blocks[0].cycleCountBegin, 0, 0);
    }

    /** map_block: the block's bytes become the buffer, its begin cycle
     *  count the buffer TSC, and the current event points at offset 0 so
     *  the next read finds the block's first event. */
    method MapBlock(i: nat)
      requires Valid() && i < |blocks|
      modifies this
      ensures Valid() && index == i
      ensures bufferTsc == blocks[i].cycleCountBegin
      ensures event == old(event).(block := i, offset := 0, tsc := blocks[i].cycleCountBegin)
    {
      index := i;
      head := blocks[i].content;
      lostSize := blocks[i].lostSize;
      bufferTsc := blocks[i].cycleCountBegin;
      event := event.(block := i, offset := 0, tsc := bufferTsc);
    }

    /** ltt_seek_next_event. */
    method SeekNextEvent() returns (r: Status)
      requires Valid()
      modifies this
      ensures Valid()
      ensures (r, event.offset) == SeekNext(old(event), bufferHeaderSize, CurrentLimit())
      ensures event == old(event).(offset := event.offset)
      ensures unchanged(this`index, this`head, this`lostSize, this`bufferTsc)
    {
      r := Success;
      if event.offset == 0 {
        event := event.(offset := event.offset + bufferHeaderSize);
        if event.offset == CurrentLimit() {
          r := Range;
        }
        return;
      }
      if event.dataSize < 0 {
        return Fatal;
      }
      event := event.(offset := event.data + event.dataSize as nat);
      if event.offset == CurrentLimit() {
        return Range;
      }
      if event.offset > CurrentLimit() {
        r := Fatal;
      }
    }

    /** ltt_tracefile_read_seek: seek the next event, moving on to the next
     *  block each time the current one is exhausted.  On success the event
     *  is the successor ltt_seek_next_event finds in the same block, or the
     *  first event after the header of a later block; it lies below the
     *  block's limit unless the header alone passes it. */
    method ReadSeek() returns (r: Status)
      requires Valid()
      modifies this
      ensures Valid() && old(index) <= index
      ensures r == Range ==> index == |blocks| - 1 && event.offset == CurrentLimit()
      ensures r == Success ==> event.offset != CurrentLimit()
      ensures r == Success ==>
        event.offset < CurrentLimit() || (event.offset == bufferHeaderSize && CurrentLimit() < bufferHeaderSize)
      ensures r == Success && index == old(index) ==>
        event == old(event).(offset := SeekNext(old(event), bufferHeaderSize, CurrentLimit()).1)
      ensures r == Success && index != old(index) ==>
        event == old(event).(block := index, offset := bufferHeaderSize, tsc := blocks[index].cycleCountBegin)
      ensures index == old(index) ==> bufferTsc == old(bufferTsc)
      ensures index != old(index) ==> bufferTsc == blocks[index].cycleCountBegin
      ensures forall j :: old(index) < j < index ==> EmptyBlock(j)
    {
      ghost var start := index;
      ghost var first := event;
      ghost var tsc0 := bufferTsc;
      while true
        invariant Valid() && start <= index
        invariant forall j :: start < j < index ==> EmptyBlock(j)
        invariant index == start ==> event == first && bufferTsc == tsc0
        invariant index != start ==>
          event == first.(block := index, offset := 0, tsc := blocks[index].cycleCountBegin) &&
          bufferTsc == blocks[index].cycleCountBegin
        decreases |blocks| - index
      {
        r := SeekNextEvent();
        if r == Fatal {
          return;
        }
        if r == Range {
          if index == |blocks| - 1 {
            return;
          }
          if index != start {
            assert EmptyBlock(index);
          }
          MapBlock(index + 1);
        } else {
          return;
        }
      }
    }

    /** ltt_update_event_size with the payload size of the marker
     *  description (alignment 0 leaves data in place). */
    method UpdateEventSize() returns (r: Status)
      requires Valid()
      modifies this
      ensures Valid()
      ensures var size := payloadSize(index, old(event).eventId, old(event).data);
              var settled := SettleSize(old(event).eventSize, size);
              && (r == Success <==> settled.Some?)
              && event.dataSize == size
              && (settled.Some? ==> event.eventSize == settled.value)
              && event == old(event).(dataSize := size, eventSize := event.eventSize)
      ensures r != Range
      ensures unchanged(this`index, this`head, this`lostSize, this`bufferTsc)
    {
      var size := payloadSize(index, event.eventId, event.data);
      event := event.(dataSize := size);
      if event.eventSize == GMaxUInt {
        event := event.(eventSize := size % UInt32Modulus);
      }
      r := if event.dataSize != event.eventSize then Fatal else Success;
    }

    /** The header decoding part of ltt_tracefile_read_update_event: pos
     *  walks the header from the event offset; a header that runs past the
     *  block is an invalid read, Fatal here. */
    method DecodeEvent() returns (r: Status)
      requires Valid()
      modifies this
      ensures Valid()
      ensures var h := DecodeHeader(reverseBo, head, old(event).offset);
              && (r == Success <==> h.Some?)
              && (h.Some? ==> bufferTsc == BufferTsc(old(bufferTsc), h.value)
                              && event == DecodedEvent(old(event), h.value, bufferTsc))
      ensures r != Range
      ensures r == Fatal ==> unchanged(this)
      ensures unchanged(this`index, this`head, this`lostSize)
    {
      PowersOf256();
      var pos := event.offset;
      var word := ReadField(reverseBo, head, pos, 4);
      if word.None? {
        return Fatal;
      }
      var compactId := word.value / TscNextBit;
      var timestamp := word.value % TscNextBit;
      pos := pos + 4;
      var eventId := compactId;
      var eventSize := GMaxUInt;
      var tsc := bufferTsc;
      var full: Option<nat> := None;
      if compactId == IdSizeTsc || compactId == IdSize {
        var id := ReadField(reverseBo, head, pos, 2);
        if id.None? {
          return Fatal;
        }
        eventId := id.value;
        pos := pos + 2;
        var size := ReadSize(reverseBo, head, pos);
        if size.None? {
          return Fatal;
        }
        eventSize := size.value.0;
        pos := size.value.1;
        if compactId == IdSizeTsc {
          var t := ReadField(reverseBo, head, pos, 8);
          if t.None? {
            return Fatal;
          }
          tsc := t.value;
          full := t;
          pos := pos + 8;
        }
      } else if compactId == IdOnly {
        var id := ReadField(reverseBo, head, pos, 2);
        if id.None? {
          return Fatal;
        }
        eventId := id.value;
        pos := pos + 2;
      }
      var h := Header(compactId, timestamp, eventId, eventSize, full, pos);
      assert DecodeHeader(reverseBo, head, event.offset) == Some(h);
      if compactId != IdSizeTsc {
        tsc := NextTsc(tsc, timestamp);
        NextTscLowBits(bufferTsc, timestamp);
      }
      bufferTsc := tsc;
      event := DecodedEvent(event, h, tsc);
      r := Success;
    }

    /** ltt_tracefile_read_update_event: decode the header at the current
     *  offset, then settle the event size. */
    method ReadUpdateEvent() returns (r: Status)
      requires Valid()
      modifies this
      ensures Valid() && r != Range
      ensures var h := DecodeHeader(reverseBo, head, old(event).offset);
              && (h.None? ==> r == Fatal)
              && (h.Some? ==>
                    && bufferTsc == BufferTsc(old(bufferTsc), h.value)
                    && event.tsc == bufferTsc
                    && event.timestamp == h.value.timestamp
                    && event.eventId == h.value.eventId
                    && event.data == h.value.data
                    && event.offset == old(event).offset
                    && event.dataSize == payloadSize(index, h.value.eventId, h.value.data)
                    && (r == Success <==>
                          SettleSize(h.value.eventSize, payloadSize(index, h.value.eventId, h.value.data)).Some?)
                    && (r == Success ==> event.eventSize == event.dataSize))
      ensures unchanged(this`index, this`head, this`lostSize)
    {
      r := DecodeEvent();
      if r == Success {
        r := UpdateEventSize();
      }
    }

    /** ltt_tracefile_read: seek the next event, then decode it.  On
     *  success the event is the one ReadSeek reaches, with the header
     *  decoded there, the TSC rebuilt from the buffer TSC of its block and
     *  the size settled to the payload size. */
    method Read() returns (r: Status)
      requires Valid()
      modifies this
      ensures Valid() && old(index) <= index
      ensures r == Range ==> index == |blocks| - 1
      ensures forall j :: old(index) < j < index ==> EmptyBlock(j)
      ensures r == Success && index == old(index) ==>
        event.offset == SeekNext(old(event), bufferHeaderSize, CurrentLimit()).1
      ensures r == Success && index != old(index) ==> event.offset == bufferHeaderSize
      ensures r == Success ==>
        event.offset < CurrentLimit() || (event.offset == bufferHeaderSize && CurrentLimit() < bufferHeaderSize)
      ensures r == Success ==>
        var h := DecodeHeader(reverseBo, head, event.offset);
        var tsc0 := if index == old(index) then old(bufferTsc) else blocks[index].cycleCountBegin;
        && h.Some?
        && bufferTsc == BufferTsc(tsc0, h.value)
        && event.tsc == bufferTsc
        && event.timestamp == h.value.timestamp
        && event.eventId == h.value.eventId
        && event.data == h.value.data
        && event.dataSize == payloadSize(index, h.value.eventId, h.value.data)
        && event.eventSize == event.dataSize
    {
      r := ReadSeek();
      if r != Success {
        return;
      }
      r := ReadUpdateEvent();
    }
  }
}
