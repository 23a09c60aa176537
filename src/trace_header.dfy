/** Sub-buffer header checks of trunk/lttv/ltt/tracefile.c
 *  (parse_trace_header) and the generic integer field readers
 *  (ltt_get_int, ltt_get_uint). */
module TraceHeader {
  import opened LttTime
  import opened Wrappers
  import opened ByteOrder
  import opened CStdlib

  /** LTT_MAGIC_NUMBER and its byte-reversed form; ltt/ltt-private.h is not
   *  part of this model, the values are those of the LTT 2.x format. */
  const LttMagicNumber: nat := 0x00D6_B7ED
  const LttRevMagicNumber: nat := 0xEDB7_D600

  /** The fields of ltt_subbuffer_header that parse_trace_header reads.  The
   *  start time fields are 64-bit values already converted to host order. */
  datatype SubbufferHeader = SubbufferHeader(
    magicNumber: nat, majorVersion: nat, minorVersion: nat,
    startTimeSec: nat, startTimeUsec: nat)

  /** What a successful parse stores in the tracefile and the trace. */
  datatype TracefileFormat = TracefileFormat(
    reverseBo: bool, tscBits: nat, eventBits: nat,
    tscMask: nat, tscMaskNextBit: nat, startTime: Time)

  /** parse_trace_header: None is the "bad tracefile" return value 1. */
  function ParseTraceHeader(h: SubbufferHeader): (r: Option<TracefileFormat>)
    ensures r.Some? <==>
      (h.magicNumber == LttMagicNumber || h.magicNumber == LttRevMagicNumber)
      && h.majorVersion == 2 && h.minorVersion == 3
    ensures r.Some? ==> r.value.reverseBo == (h.magicNumber == LttRevMagicNumber)
    ensures r.Some? ==> r.value.tscBits + r.value.eventBits == 32
    ensures r.Some? ==> r.value.tscMask + 1 == r.value.tscMaskNextBit == 0x800_0000
    ensures r.Some? ==> r.value.startTime == Time(h.startTimeSec, h.startTimeUsec * 1000)
  {
    var reverseBo :=
      if h.magicNumber == LttMagicNumber then Some(false)
      else if h.magicNumber == LttRevMagicNumber then Some(true)
      else None;
    if reverseBo.None? then None
    else if h.majorVersion == 0 || h.majorVersion == 1 then None
    else if h.majorVersion == 2 then
      if h.minorVersion == 3 then
        var tscBits := 27;
        Pow2Of27();
        Some(TracefileFormat(reverseBo.value, tscBits, 5,
                             Pow2(tscBits) - 1, Pow2(tscBits),
                             Time(h.startTimeSec, h.startTimeUsec * 1000)))
      else None
    else None
  }

  function Pow2(n: nat): (p: nat)
    ensures p >= 1
  {
    if n == 0 then 1 else 2 * Pow2(n - 1)
  }

  /** 1 << 27, the tsc_mask_next_bit of format 2.3. */
  lemma Pow2Of27()
    ensures Pow2(27) == 0x800_0000
  {
    Pow2Bytes(3);
    Pow2Split(24, 3);
  }

  lemma {:induction false} Pow2Bytes(n: nat)
    ensures Pow2(8 * n) == Pow256(n)
  {
    if n > 0 {
      Pow2Bytes(n - 1);
      Pow2Split(8, 8 * (n - 1));
    }
  }

  lemma {:induction false} Pow2Split(a: nat, b: nat)
    ensures Pow2(a + b) == Pow2(a) * Pow2(b)
  {
    if a > 0 { Pow2Split(a - 1, b); }
  }

  /** The reversed magic number is the native one with its bytes swapped, so
   *  a trace from the other byte order reads as LTT_REV_MAGIC_NUMBER. */
  lemma ReversedMagicIsSwapped()
    ensures GetUInt(true, Encode(false, LttMagicNumber, 4)) == LttRevMagicNumber
  {
    var s := Encode(false, LttMagicNumber, 4);
    assert s == [0xED, 0xB7, 0xD6, 0x00];
    var r := Reverse(s);
    assert r == [0x00, 0xD6, 0xB7, 0xED] by {
      assert Reverse(s[3..]) == [0x00];
      assert Reverse(s[2..]) == [0x00, 0xD6];
      assert Reverse(s[1..]) == [0x00, 0xD6, 0xB7];
    }
    assert LittleEndian(r[3..]) == 0xED;
    assert LittleEndian(r[2..]) == 0xB7 + 256 * 0xED;
    assert LittleEndian(r[1..]) == 0xD6 + 256 * (0xB7 + 256 * 0xED);
  }

  /** Width in bytes that ltt_get_int/ltt_get_uint read for a size: the
   *  default branch reads 64 bits. */
  function FieldWidth(size: int): (w: nat)
    ensures w in {1, 2, 4, 8}
  {
    if size == 1 || size == 2 || size == 4 then size else 8
  }

  /** Half the range of a field of the given width: 2^(8*bytes-1). */
  function Half(bytes: nat): (h: nat)
    requires bytes > 0
    ensures 2 * h == Pow256(bytes)
  {
    128 * Pow256(bytes - 1)
  }

  /** Two's complement reading of an unsigned value of the given width. */
  function Signed(v: nat, bytes: nat): (r: int)
    requires v < Pow256(bytes) && bytes > 0
    ensures -(Half(bytes) as int) <= r < Half(bytes)
  {
    if v >= Half(bytes) then v - Pow256(bytes) else v
  }

  /** ltt_get_int: a signed field, sign-extended to 64 bits. */
  function GetInt(reverse: bool, size: int, data: seq<Byte>): (r: int)
    requires |data| >= FieldWidth(size)
    ensures -(Half(FieldWidth(size)) as int) <= r < Half(FieldWidth(size))
  {
    var w := FieldWidth(size);
    Signed(GetUInt(reverse, data[..w]), w)
  }

  const UInt64Modulus: nat := 0x1_0000_0000_0000_0000

  /** ltt_get_uint as written: the one-byte case dereferences a gint8, so
   *  bytes 0x80..0xFF are sign-extended into the guint64 result. */
  function GetUIntAsWritten(reverse: bool, size: int, data: seq<Byte>): (r: nat)
    requires |data| >= FieldWidth(size)
  {
    var w := FieldWidth(size);
    if w == 1 then GetInt(reverse, 1, data) % UInt64Modulus
    else GetUInt(reverse, data[..w])
  }

  /** ltt_get_uint as intended: an unsigned field of the given width. */
  function GetUIntField(reverse: bool, size: int, data: seq<Byte>): (r: nat)
    requires |data| >= FieldWidth(size)
    ensures r < Pow256(FieldWidth(size))
  {
    GetUInt(reverse, data[..FieldWidth(size)])
  }

  /** The byte 0xFF read as an unsigned one-byte field comes out as 2^64-1. */
  lemma GetUIntSignExtends()
    ensures GetUIntAsWritten(false, 1, [0xFF]) == UInt64Modulus - 1
    ensures GetUIntField(false, 1, [0xFF]) == 255
  {
    assert [0xFF as Byte][..1] == [0xFF];
  }

  /** The signed and unsigned readers agree modulo 2^(8*width): they read the
   *  same bits. */
  lemma GetIntAgreesWithGetUInt(reverse: bool, size: int, data: seq<Byte>)
    requires |data| >= FieldWidth(size)
    ensures GetInt(reverse, size, data) % Pow256(FieldWidth(size)) == GetUIntField(reverse, size, data)
    ensures GetInt(reverse, size, data) >= 0 <==>
            GetUIntField(reverse, size, data) < Half(FieldWidth(size))
  {
    var w := FieldWidth(size);
    var v, p := GetUIntField(reverse, size, data), Pow256(w);
    assert GetInt(reverse, size, data) == Signed(v, w);
    SignedModulo(v, w);
  }

  /** A two's complement reading is the unsigned value modulo 2^(8*bytes),
   *  and is negative exactly when the value is in the upper half. */
  lemma SignedModulo(v: nat, bytes: nat)
    requires v < Pow256(bytes) && bytes > 0
    ensures Signed(v, bytes) % Pow256(bytes) == v
    ensures Signed(v, bytes) >= 0 <==> v < Half(bytes)
  {
    var p := Pow256(bytes);
    if v >= Half(bytes) {
      assert Signed(v, bytes) == v - p;
      ModBelowZero(v, p);
    } else {
      assert Signed(v, bytes) == v;
      ModInRange(v, p);
    }
  }
}
