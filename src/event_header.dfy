/** The compact event header of trunk/lttv/ltt/tracefile.c
 *  (ltt_tracefile_read_update_event): a 32-bit word holding a 5-bit event id
 *  above a 27-bit truncated TSC, followed for the reserved ids 29, 30 and 31
 *  by an extended id, an event size and (id 29 only) the full 64-bit TSC.
 *  Alignment is that of a packed trace (ltt_align returns 0). */
module EventHeader {
  import opened Wrappers
  import opened ByteOrder

  /** tscbits and tsc_mask_next_bit of trace format 2.3. */
  const TscBits: nat := 27
  const TscNextBit: nat := 0x800_0000
  const UInt16Modulus: nat := 0x1_0000
  const UInt32Modulus: nat := 0x1_0000_0000
  const UInt64Modulus: nat := 0x1_0000_0000_0000_0000
  /** G_MAXUINT: the "size not in the header" marker. */
  const GMaxUInt: nat := 0xFFFF_FFFF
  /** The 16-bit size escape meaning "a 32-bit size follows". */
  const LargeSize: nat := 0xFFFF

  /** LTT_RFLAG_ID_SIZE_TSC, LTT_RFLAG_ID_SIZE and LTT_RFLAG_ID. */
  const IdSizeTsc: nat := 29
  const IdSize: nat := 30
  const IdOnly: nat := 31

  lemma PowersOf256()
    ensures Pow256(2) == UInt16Modulus
    ensures Pow256(4) == UInt32Modulus
    ensures Pow256(8) == UInt64Modulus
  {
    assert Pow256(4) == 256 * 256 * Pow256(2);
    assert Pow256(8) == 256 * 256 * 256 * 256 * Pow256(4);
  }

  /** A decoded header.  compactId is the 5-bit id of the header word,
   *  eventId the id after the extended id has replaced it, fullTsc the
   *  64-bit TSC an id-29 header carries, data the position just past the
   *  header (where the payload starts). */
  datatype Header = Header(
    compactId: nat, timestamp: nat, eventId: nat, eventSize: nat,
    fullTsc: Option<nat>, data: nat)

  /** An n-byte unsigned field at position p, None when it runs past the
   *  end of the buffer. */
  function ReadField(reverse: bool, s: seq<Byte>, p: nat, n: nat): (r: Option<nat>)
    ensures r.Some? <==> p + n <= |s|
    ensures r.Some? ==> r.value < Pow256(n)
  {
    if p + n <= |s| then Some(GetUInt(reverse, s[p..p + n])) else None
  }

  /** The size field of ids 29 and 30: 16 bits, or the escape 0xFFFF and
   *  32 bits.  Returns the size and the position after it. */
  function ReadSize(reverse: bool, s: seq<Byte>, p: nat): (r: Option<(nat, nat)>)
    ensures r.Some? ==> r.value.0 < UInt32Modulus
    ensures r.Some? ==> r.value.1 == p + 2 || r.value.1 == p + 6
  {
    PowersOf256();
    var small := ReadField(reverse, s, p, 2);
    if small.None? then None
    else if small.value != LargeSize then Some((small.value, p + 2))
    else
      var large := ReadField(reverse, s, p + 2, 4);
      if large.None? then None else Some((large.value, p + 6))
  }

  /** The header at position pos, None when it does not fit in the buffer. */
  function DecodeHeader(reverse: bool, s: seq<Byte>, pos: nat): (r: Option<Header>)
    ensures r.Some? ==> r.value.compactId < 32 && r.value.timestamp < TscNextBit
    ensures r.Some? ==> pos + 4 <= r.value.data <= |s|
  {
    PowersOf256();
    var word := ReadField(reverse, s, pos, 4);
    if word.None? then None
    else DecodeExtended(reverse, s, pos + 4, word.value / TscNextBit, word.value % TscNextBit)
  }

  /** The part of the header after the 32-bit word, selected by its id. */
  function DecodeExtended(reverse: bool, s: seq<Byte>, p: nat, compactId: nat, timestamp: nat)
    : (r: Option<Header>)
    requires p <= |s|
    ensures r.Some? ==> r.value.compactId == compactId && r.value.timestamp == timestamp
    ensures r.Some? ==> p <= r.value.data <= |s|
    ensures r.Some? ==> (r.value.fullTsc.Some? <==> compactId == IdSizeTsc)
  {
    if compactId == IdSizeTsc || compactId == IdSize then
      var id := ReadField(reverse, s, p, 2);
      if id.None? then None
      else
        var size := ReadSize(reverse, s, p + 2);
        if size.None? then None
        else if compactId == IdSize then
          Some(Header(compactId, timestamp, id.value, size.value.0, None, size.value.1))
        else
          var tsc := ReadField(reverse, s, size.value.1, 8);
          if tsc.None? then None
          else Some(Header(compactId, timestamp, id.value, size.value.0, tsc, size.value.1 + 8))
    else if compactId == IdOnly then
      var id := ReadField(reverse, s, p, 2);
      if id.None? then None
      else Some(Header(compactId, timestamp, id.value, GMaxUInt, None, p + 2))
    else Some(Header(compactId, timestamp, compactId, GMaxUInt, None, p))
  }

  /** Headers a tracer can write: every field fits its width, the size is
   *  G_MAXUINT exactly when the header has no size field, and data is the
   *  header length. */
  predicate WellFormed(h: Header) {
    && h.compactId < 32 && h.timestamp < TscNextBit
    && (h.fullTsc.Some? <==> h.compactId == IdSizeTsc)
    && (h.fullTsc.Some? ==> h.fullTsc.value < UInt64Modulus)
    && (if h.compactId < IdSizeTsc then h.eventId == h.compactId
        else h.eventId < UInt16Modulus)
    && (if h.compactId == IdSizeTsc || h.compactId == IdSize then h.eventSize < UInt32Modulus
        else h.eventSize == GMaxUInt)
    && h.data == |EncodeHeader(false, h)|
  }

  function EncodeSize(reverse: bool, size: nat): (s: seq<Byte>)
  {
    if size < LargeSize then Encode(reverse, size, 2)
    else Encode(reverse, LargeSize, 2) + Encode(reverse, size, 4)
  }

  /** The bytes of a header, in the given byte order. */
  function EncodeHeader(reverse: bool, h: Header): (s: seq<Byte>)
  {
    Encode(reverse, h.compactId * TscNextBit + h.timestamp, 4) + EncodeExtended(reverse, h)
  }

  /** The bytes after the header word. */
  function EncodeExtended(reverse: bool, h: Header): (s: seq<Byte>)
  {
    if h.compactId == IdSizeTsc then
      Encode(reverse, h.eventId, 2) + EncodeSize(reverse, h.eventSize)
        + Encode(reverse, if h.fullTsc.Some? then h.fullTsc.value else 0, 8)
    else if h.compactId == IdSize then
      Encode(reverse, h.eventId, 2) + EncodeSize(reverse, h.eventSize)
    else if h.compactId == IdOnly then
      Encode(reverse, h.eventId, 2)
    else []
  }

  /** Reading back a field written at position |pre|. */
  lemma ReadEncoded(reverse: bool, pre: seq<Byte>, v: nat, n: nat, rest: seq<Byte>)
    requires v < Pow256(n)
    ensures ReadField(reverse, pre + Encode(reverse, v, n) + rest, |pre|, n) == Some(v)
  {
    var s := pre + Encode(reverse, v, n) + rest;
    assert s[|pre|..|pre| + n] == Encode(reverse, v, n);
    EncodeRoundTrip(reverse, v, n);
  }

  lemma ReadEncodedSize(reverse: bool, pre: seq<Byte>, size: nat, rest: seq<Byte>)
    requires size < UInt32Modulus
    ensures ReadSize(reverse, pre + EncodeSize(reverse, size) + rest, |pre|)
         == Some((size, |pre| + |EncodeSize(reverse, size)|))
  {
    PowersOf256();
    var s := pre + EncodeSize(reverse, size) + rest;
    if size < LargeSize {
      ReadEncoded(reverse, pre, size, 2, rest);
    } else {
      var e2 := Encode(reverse, LargeSize, 2);
      var e4 := Encode(reverse, size, 4);
      assert s == pre + e2 + (e4 + rest);
      ReadEncoded(reverse, pre, LargeSize, 2, e4 + rest);
      assert s == (pre + e2) + e4 + rest;
      ReadEncoded(reverse, pre + e2, size, 4, rest);
    }
  }

  /** The word of a well-formed header splits back into its id and
   *  truncated TSC. */
  lemma WordSplits(compactId: nat, timestamp: nat)
    requires timestamp < TscNextBit
    ensures (compactId * TscNextBit + timestamp) / TscNextBit == compactId
    ensures (compactId * TscNextBit + timestamp) % TscNextBit == timestamp
  {
  }

  /** Decoding what was encoded gives the header back, whatever follows it
   *  in the buffer. */
  lemma DecodeEncode(reverse: bool, h: Header, rest: seq<Byte>)
    requires WellFormed(h)
    ensures DecodeHeader(reverse, EncodeHeader(reverse, h) + rest, 0) == Some(h)
  {
    PowersOf256();
    WordSplits(h.compactId, h.timestamp);
    var w := h.compactId * TscNextBit + h.timestamp;
    var word := Encode(reverse, w, 4);
    var s := EncodeHeader(reverse, h) + rest;
    assert s == word + EncodeExtended(reverse, h) + rest;
    DecodeWord(reverse, s, w, EncodeExtended(reverse, h) + rest);
    DecodeEncodeExtended(reverse, word, h, rest);
  }

  /** The 32-bit word at the start splits into the compact id and the
   *  timestamp. */
  lemma DecodeWord(reverse: bool, s: seq<Byte>, w: nat, tail: seq<Byte>)
    requires w < Pow256(4) && s == Encode(reverse, w, 4) + tail
    ensures DecodeHeader(reverse, s, 0) == DecodeExtended(reverse, s, 4, w / TscNextBit, w % TscNextBit)
  {
    assert s == [] + Encode(reverse, w, 4) + tail;
    ReadEncoded(reverse, [], w, 4, tail);
  }

  lemma DecodeEncodeExtended(reverse: bool, word: seq<Byte>, h: Header, rest: seq<Byte>)
    requires WellFormed(h) && |word| == 4
    ensures DecodeExtended(reverse, word + EncodeExtended(reverse, h) + rest, 4,
                           h.compactId, h.timestamp) == Some(h)
  {
    assert |EncodeHeader(reverse, h)| == |EncodeHeader(false, h)|;
    if h.compactId == IdSizeTsc || h.compactId == IdSize {
      ExtendedWithSize(reverse, word, h.compactId, h.timestamp, h.eventId, h.eventSize,
                       h.fullTsc, rest);
    } else if h.compactId == IdOnly {
      PowersOf256();
      ReadEncoded(reverse, word, h.eventId, 2, rest);
    }
  }

  /** Ids 29 and 30: extended id, size, and for 29 the full TSC. */
  lemma ExtendedWithSize(reverse: bool, word: seq<Byte>, compactId: nat, timestamp: nat,
                         eventId: nat, eventSize: nat, fullTsc: Option<nat>, rest: seq<Byte>)
    requires |word| == 4 && (compactId == IdSizeTsc || compactId == IdSize)
    requires eventId < UInt16Modulus && eventSize < UInt32Modulus
    requires fullTsc.Some? <==> compactId == IdSizeTsc
    requires fullTsc.Some? ==> fullTsc.value < UInt64Modulus
    ensures var h := Header(compactId, timestamp, eventId, eventSize, fullTsc, 0);
            var e := EncodeExtended(reverse, h);
            DecodeExtended(reverse, word + e + rest, 4, compactId, timestamp)
              == Some(h.(data := 4 + |e|))
  {
    PowersOf256();
    var h := Header(compactId, timestamp, eventId, eventSize, fullTsc, 0);
    var s := word + EncodeExtended(reverse, h) + rest;
    var id := Encode(reverse, eventId, 2);
    var size := EncodeSize(reverse, eventSize);
    var tail := if compactId == IdSizeTsc then Encode(reverse, fullTsc.value, 8) + rest else rest;
    assert s == word + id + (size + tail);
    ReadEncoded(reverse, word, eventId, 2, size + tail);
    assert s == (word + id) + size + tail;
    ReadEncodedSize(reverse, word + id, eventSize, tail);
    if compactId == IdSizeTsc {
      assert s == (word + id + size) + Encode(reverse, fullTsc.value, 8) + rest;
      ReadEncoded(reverse, word + id + size, fullTsc.value, 8, rest);
    }
  }

  /** The low TscBits bits of a TSC held in 64 bits. */
  function LowBits(tsc: nat): (r: nat)
    ensures r < TscNextBit
  {
    tsc % TscNextBit
  }

  /** tsc & ~tsc_mask: the TSC with its low TscBits bits cleared. */
  function HighBits(tsc: nat): (r: nat)
    ensures r % TscNextBit == 0 && r + LowBits(tsc) == tsc
  {
    tsc - LowBits(tsc)
  }

  /** The 64-bit TSC rebuilt from the previous one and a truncated
   *  timestamp: the high bits are kept, and advanced by
   *  tsc_mask_next_bit (modulo 2^64) when the low bits went backwards.
   *  The C code combines the two halves with |, which is + here because the
   *  high part has its low bits clear. */
  function NextTsc(tsc: nat, timestamp: nat): (r: nat)
    requires timestamp < TscNextBit
  {
    if timestamp < LowBits(tsc) then (HighBits(tsc) + TscNextBit) % UInt64Modulus + timestamp
    else HighBits(tsc) + timestamp
  }

  /** The high part plus one increment still fits in 65 bits' worth of
   *  range: at most 2^64, reached only when the high bits are all ones. */
  lemma HighBitsRoom(tsc: nat)
    requires tsc < UInt64Modulus
    ensures HighBits(tsc) + TscNextBit <= UInt64Modulus
  {
    var k := HighBits(tsc) / TscNextBit;
    assert HighBits(tsc) == k * TscNextBit;
    assert k < 0x20_0000_0000;
  }

  /** Adding a timestamp to a multiple of tsc_mask_next_bit sets the low
   *  bits to that timestamp. */
  lemma LowBitsOfSum(k: nat, timestamp: nat)
    requires timestamp < TscNextBit
    ensures LowBits(k * TscNextBit + timestamp) == timestamp
  {
  }

  /** The rebuilt TSC carries the event's truncated timestamp in its low
   *  bits and stays within 64 bits. */
  lemma NextTscLowBits(tsc: nat, timestamp: nat)
    requires tsc < UInt64Modulus && timestamp < TscNextBit
    ensures LowBits(NextTsc(tsc, timestamp)) == timestamp
    ensures NextTsc(tsc, timestamp) < UInt64Modulus
  {
    HighBitsRoom(tsc);
    var h := HighBits(tsc);
    var k := h / TscNextBit;
    assert h == k * TscNextBit;
    if timestamp < LowBits(tsc) {
      if h + TscNextBit == UInt64Modulus {
        assert NextTsc(tsc, timestamp) == timestamp;
      } else {
        assert NextTsc(tsc, timestamp) == (k + 1) * TscNextBit + timestamp;
        LowBitsOfSum(k + 1, timestamp);
        assert (k + 1) < 0x20_0000_0000;
      }
    } else {
      LowBitsOfSum(k, timestamp);
    }
  }

  /** Away from the top of the 64-bit range, the rebuilt TSC is the unique
   *  value in [tsc, tsc + tsc_mask_next_bit) whose low bits are the event's
   *  timestamp: the TSC never goes backwards and advances by less than one
   *  wrap of the truncated counter. */
  lemma NextTscIsNearestAfter(tsc: nat, timestamp: nat, x: nat)
    requires tsc < UInt64Modulus && timestamp < TscNextBit
    requires HighBits(tsc) + TscNextBit < UInt64Modulus
    ensures tsc <= NextTsc(tsc, timestamp) < tsc + TscNextBit
    ensures tsc <= x < tsc + TscNextBit && LowBits(x) == timestamp
            ==> x == NextTsc(tsc, timestamp)
  {
    var h := HighBits(tsc);
    var r := NextTsc(tsc, timestamp);
    if timestamp < LowBits(tsc) {
      assert (h + TscNextBit) % UInt64Modulus == h + TscNextBit;
    }
    assert r == h + timestamp || r == h + TscNextBit + timestamp;
    if tsc <= x < tsc + TscNextBit && LowBits(x) == timestamp {
      var q := x / TscNextBit;
      assert x == q * TscNextBit + timestamp;
      var k := h / TscNextBit;
      assert h == k * TscNextBit;
      assert k * TscNextBit + timestamp <= x + LowBits(tsc);
      assert q == k || q == k + 1;
    }
  }

  /** At the top of the 64-bit range the increment wraps: the rebuilt TSC
   *  is the bare timestamp. */
  lemma NextTscWraps(tsc: nat, timestamp: nat)
    requires tsc < UInt64Modulus && timestamp < LowBits(tsc)
    requires HighBits(tsc) + TscNextBit == UInt64Modulus
    ensures NextTsc(tsc, timestamp) == timestamp < tsc
  {
  }

  /** The TSC of the buffer after an event header, as the C code computes
   *  it: the test for "no extended timestamp" looks at event_id after the
   *  extended id of ids 29, 30 and 31 has overwritten it. */
  function BufferTscAsWritten(tsc: nat, h: Header): (r: nat)
    requires h.timestamp < TscNextBit
  {
    var t := if h.fullTsc.Some? then h.fullTsc.value else tsc;
    if h.eventId != IdSizeTsc then NextTsc(t, h.timestamp) else t
  }

  /** The TSC of the buffer after an event header, as intended: the full
   *  TSC of an id-29 header, otherwise the previous TSC advanced to the
   *  truncated timestamp. */
  function BufferTsc(tsc: nat, h: Header): (r: nat)
    requires h.timestamp < TscNextBit
  {
    if h.fullTsc.Some? then h.fullTsc.value else NextTsc(tsc, h.timestamp)
  }

  /** The intended rule: an event without an extended TSC gets a TSC whose
   *  low bits are its own timestamp, and an id-29 event gets its full TSC. */
  lemma BufferTscCarriesTimestamp(tsc: nat, h: Header)
    requires tsc < UInt64Modulus && WellFormed(h)
    ensures h.fullTsc.None? ==> LowBits(BufferTsc(tsc, h)) == h.timestamp
    ensures h.fullTsc.Some? ==> BufferTsc(tsc, h) == h.fullTsc.value
    ensures BufferTsc(tsc, h) < UInt64Modulus
  {
    if h.fullTsc.None? { NextTscLowBits(tsc, h.timestamp); }
  }

  /** An event with extended id 29 in a header of kind 31 (or 30) carries no
   *  full TSC, yet the code as written skips the TSC update for it: its
   *  TSC is the previous event's, with the wrong low bits. */
  lemma ExtendedId29KeepsStaleTsc()
    ensures var h := Header(IdOnly, 5, IdSizeTsc, GMaxUInt, None, 6);
            WellFormed(h)
            && BufferTscAsWritten(TscNextBit + 100, h) == TscNextBit + 100
            && LowBits(BufferTscAsWritten(TscNextBit + 100, h)) != h.timestamp
            && BufferTsc(TscNextBit + 100, h) == 2 * TscNextBit + 5
  {
    var h := Header(IdOnly, 5, IdSizeTsc, GMaxUInt, None, 6);
    assert |EncodeHeader(false, h)| == 6;
  }
}
