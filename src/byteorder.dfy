/** Fixed-width unsigned fields read from a trace buffer, in the host byte
 *  order (little-endian) or reversed, as ltt_get_uint16/32/64 do. */
module ByteOrder {
  newtype Byte = b: int | 0 <= b < 256

  function Pow256(n: nat): (p: nat)
    ensures p >= 1
  {
    if n == 0 then 1 else 256 * Pow256(n - 1)
  }

  /** Little-endian value of a byte string. */
  function LittleEndian(s: seq<Byte>): (v: nat)
    ensures v < Pow256(|s|)
  {
    if |s| == 0 then 0 else s[0] as nat + 256 * LittleEndian(s[1..])
  }

  function Reverse(s: seq<Byte>): (r: seq<Byte>)
    ensures |r| == |s|
  {
    if |s| == 0 then [] else Reverse(s[1..]) + [s[0]]
  }

  /** ltt_get_uintN: the bytes as stored, swapped when the trace was written
   *  with the other byte order. */
  function GetUInt(reverse: bool, s: seq<Byte>): (v: nat)
    ensures v < Pow256(|s|)
  {
    if reverse then LittleEndian(Reverse(s)) else LittleEndian(s)
  }

  /** The n little-endian bytes of v (v taken modulo 256^n). */
  function EncodeLittleEndian(v: nat, n: nat): (s: seq<Byte>)
    ensures |s| == n
  {
    if n == 0 then [] else [(v % 256) as Byte] + EncodeLittleEndian(v / 256, n - 1)
  }

  lemma {:induction false} LittleEndianRoundTrip(v: nat, n: nat)
    requires v < Pow256(n)
    ensures LittleEndian(EncodeLittleEndian(v, n)) == v
  {
    if n > 0 {
      var s := EncodeLittleEndian(v, n);
      assert s[1..] == EncodeLittleEndian(v / 256, n - 1);
      LittleEndianRoundTrip(v / 256, n - 1);
    }
  }

  lemma {:induction false} ReverseReverse(s: seq<Byte>)
    ensures Reverse(Reverse(s)) == s
  {
    if |s| > 0 {
      ReverseAppend(Reverse(s[1..]), [s[0]]);
      ReverseReverse(s[1..]);
      assert [s[0]] + s[1..] == s;
    }
  }

  lemma {:induction false} ReverseAppend(a: seq<Byte>, b: seq<Byte>)
    ensures Reverse(a + b) == Reverse(b) + Reverse(a)
  {
    if |a| == 0 {
      assert a + b == b;
    } else {
      assert (a + b)[1..] == a[1..] + b;
      ReverseAppend(a[1..], b);
    }
  }

  /** Writing a value in either byte order and reading it back in the same
   *  order gives the value. */
  function Encode(reverse: bool, v: nat, n: nat): (s: seq<Byte>)
    ensures |s| == n
  {
    if reverse then Reverse(EncodeLittleEndian(v, n)) else EncodeLittleEndian(v, n)
  }

  lemma EncodeRoundTrip(reverse: bool, v: nat, n: nat)
    requires v < Pow256(n)
    ensures GetUInt(reverse, Encode(reverse, v, n)) == v
  {
    LittleEndianRoundTrip(v, n);
    if reverse { ReverseReverse(EncodeLittleEndian(v, n)); }
  }
}
