/** The C library conversions the LTTV code relies on (strtol, strtoul,
 *  strtoull, atoi, atol), on an LP64 platform: long is 64 bits, int is 32
 *  bits.  Strings are the characters before the terminating NUL. */
module CStdlib {
  import opened Wrappers

  const LongMax: int := 0x7FFF_FFFF_FFFF_FFFF
  const LongMin: int := -0x8000_0000_0000_0000
  const ULongMax: nat := 0xFFFF_FFFF_FFFF_FFFF
  const IntMax: int := 0x7FFF_FFFF
  const IntMin: int := -0x8000_0000
  const UIntModulus: nat := 0x1_0000_0000
  const ULongModulus: nat := 0x1_0000_0000_0000_0000

  predicate IsDigit(c: char) { '0' <= c <= '9' }

  /** isspace in the C locale. */
  predicate IsSpace(c: char) {
    c == ' ' || c == '\t' || c == '\n' || c == '\r' || c == 11 as char || c == 12 as char
  }

  function DigitValue(c: char): nat
    requires IsDigit(c)
  {
    c as int - '0' as int
  }

  function DigitChar(d: nat): (c: char)
    requires d < 10
    ensures IsDigit(c) && DigitValue(c) == d
  {
    ('0' as int + d) as char
  }

  predicate AllDigits(s: seq<char>) { forall i :: 0 <= i < |s| ==> IsDigit(s[i]) }

  /** Length of the longest prefix of s made of decimal digits. */
  function DigitRun(s: seq<char>): (n: nat)
    ensures n <= |s| && AllDigits(s[..n])
    ensures n < |s| ==> !IsDigit(s[n])
  {
    if |s| == 0 || !IsDigit(s[0]) then 0
    else
      var n := 1 + DigitRun(s[1..]);
      assert s[..n] == [s[0]] + s[1..][..n - 1];
      n
  }

  /** Value of a digit string, most significant digit first. */
  function DecimalValue(s: seq<char>): nat
    requires AllDigits(s)
  {
    if |s| == 0 then 0 else DecimalValue(s[..|s| - 1]) * 10 + DigitValue(s[|s| - 1])
  }

  /** The decimal spelling of n, without leading zeros. */
  function Decimal(n: nat): (s: seq<char>)
    ensures |s| > 0 && AllDigits(s)
  {
    if n < 10 then [DigitChar(n)] else Decimal(n / 10) + [DigitChar(n % 10)]
  }

  lemma {:induction false} DecimalRoundTrip(n: nat)
    ensures DecimalValue(Decimal(n)) == n
  {
    if n >= 10 {
      var s := Decimal(n);
      assert s[..|s| - 1] == Decimal(n / 10);
      DecimalRoundTrip(n / 10);
    }
  }

  /** Number of leading isspace characters. */
  function SpaceRun(s: seq<char>): (n: nat)
    ensures n <= |s|
    ensures n < |s| ==> !IsSpace(s[n])
    ensures forall i :: 0 <= i < n ==> IsSpace(s[i])
  {
    if |s| == 0 || !IsSpace(s[0]) then 0 else 1 + SpaceRun(s[1..])
  }

  /** What strto(u)l(l) reads in base 10: optional white space, an optional
   *  sign, then a maximal run of digits.  end is the number of characters
   *  consumed, 0 when there is no digit at all (endptr == nptr). */
  datatype Scan = Scan(negative: bool, magnitude: nat, end: nat)

  function ScanInteger(s: seq<char>): (r: Scan)
    ensures r.end <= |s|
    ensures r.end == 0 ==> r.magnitude == 0
  {
    var w := SpaceRun(s);
    var signed := w < |s| && (s[w] == '+' || s[w] == '-');
    var start := if signed then w + 1 else w;
    var n := DigitRun(s[start..]);
    if n == 0 then Scan(false, 0, 0)
    else Scan(signed && s[w] == '-', DecimalValue(s[start..][..n]), start + n)
  }

  /** strtol: the value saturates at LONG_MIN / LONG_MAX. */
  function StrToL(s: seq<char>): (r: (int, nat))
    ensures LongMin <= r.0 <= LongMax && r.1 <= |s|
  {
    var sc := ScanInteger(s);
    var v: int := if sc.negative then
               (if sc.magnitude > -LongMin then LongMin else 0 - sc.magnitude as int)
             else
               (if sc.magnitude > LongMax then LongMax else sc.magnitude);
    (v, sc.end)
  }

  /** strtoul / strtoull (both 64 bits here): a value beyond ULONG_MAX
   *  saturates, and a leading '-' negates modulo 2^64. */
  function StrToUL(s: seq<char>): (r: (nat, nat))
    ensures r.0 <= ULongMax && r.1 <= |s|
  {
    var sc := ScanInteger(s);
    (ULongValue(sc.negative, sc.magnitude), sc.end)
  }

  /** What strtoul returns for a digit run worth magnitude, read after an
   *  optional '-'. */
  function ULongValue(negative: bool, magnitude: nat): (v: nat)
    ensures v <= ULongMax
    ensures magnitude <= ULongMax && !negative ==> v == magnitude
  {
    if magnitude > ULongMax then ULongMax
    else if negative && magnitude > 0 then ULongModulus - magnitude
    else magnitude
  }

  /** atol is strtol without the end pointer. */
  function Atol(s: seq<char>): int { StrToL(s).0 }

  /** atoi: glibc computes (int) strtol(s, NULL, 10), which keeps the low 32
   *  bits as a two's complement int. */
  function Atoi(s: seq<char>): (r: int)
    ensures IntMin <= r <= IntMax
  {
    var v := StrToL(s).0 % UIntModulus;
    if v > IntMax then v - UIntModulus else v
  }

  /** A decimal numeral followed by a non-digit (or nothing) is read back
   *  exactly by strtoul; the parser consumes precisely its digits. */
  lemma {:induction false} DigitRunOfDecimal(n: nat, rest: seq<char>)
    requires |rest| == 0 || !IsDigit(rest[0])
    ensures DigitRun(Decimal(n) + rest) == |Decimal(n)|
    ensures (Decimal(n) + rest)[..|Decimal(n)|] == Decimal(n)
  {
    DigitRunPrefix(Decimal(n), rest);
  }

  lemma {:induction false} DigitRunPrefix(d: seq<char>, rest: seq<char>)
    requires AllDigits(d)
    requires |rest| == 0 || !IsDigit(rest[0])
    ensures DigitRun(d + rest) == |d|
    ensures (d + rest)[..|d|] == d
  {
    if |d| > 0 {
      assert (d + rest)[1..] == d[1..] + rest;
      DigitRunPrefix(d[1..], rest);
    }
  }

  lemma StrToULOfDecimal(n: nat, rest: seq<char>)
    requires n <= ULongMax
    requires |rest| == 0 || !IsDigit(rest[0])
    ensures StrToUL(Decimal(n) + rest) == (n, |Decimal(n)|)
  {
    var s := Decimal(n) + rest;
    assert !IsSpace(s[0]) && s[0] != '+' && s[0] != '-';
    assert s[0..] == s;
    DigitRunOfDecimal(n, rest);
    DecimalRoundTrip(n);
  }

  lemma StrToLOfDecimal(n: nat, rest: seq<char>)
    requires n <= LongMax
    requires |rest| == 0 || !IsDigit(rest[0])
    ensures StrToL(Decimal(n) + rest) == (n, |Decimal(n)|)
  {
    var s := Decimal(n) + rest;
    assert !IsSpace(s[0]) && s[0] != '+' && s[0] != '-';
    assert s[0..] == s;
    DigitRunOfDecimal(n, rest);
    DecimalRoundTrip(n);
  }

  /** A string that starts with neither white space, a sign nor a digit has
   *  no number in it for strtol/strtoul. */
  lemma NoNumber(s: seq<char>)
    requires |s| == 0 || (!IsSpace(s[0]) && !IsDigit(s[0]) && s[0] != '+' && s[0] != '-')
    ensures StrToL(s) == (0, 0) && StrToUL(s) == (0, 0)
  {
    if |s| > 0 { assert s[0..] == s; }
  }

  /** Where a left-to-right strtoul pass stands: in the leading white space,
   *  just after the sign, or inside the digits with the value read so far. */
  datatype ScanPhase = Blanks | Signed(negative: bool) | InDigits(negative: bool, value: nat)

  function PhaseRank(p: ScanPhase): nat
  {
    match p
    case Blanks => 2
    case Signed(_) => 1
    case InDigits(_, _) => 0
  }

  /** strtoul on s from index i, one character at a time: None when no digit
   *  is read (the end pointer stays where it started), else the value. */
  function ScanULong(s: seq<char>, i: nat, p: ScanPhase): Option<nat>
    decreases if i <= |s| then |s| - i else 0, PhaseRank(p)
  {
    match p
    case Blanks =>
      if i < |s| && IsSpace(s[i]) then ScanULong(s, i + 1, Blanks)
      else if i < |s| && (s[i] == '+' || s[i] == '-') then ScanULong(s, i + 1, Signed(s[i] == '-'))
      else ScanULong(s, i, Signed(false))
    case Signed(negative) =>
      if i < |s| && IsDigit(s[i]) then ScanULong(s, i + 1, InDigits(negative, DigitValue(s[i])))
      else None
    case InDigits(negative, v) =>
      if i < |s| && IsDigit(s[i]) then ScanULong(s, i + 1, InDigits(negative, v * 10 + DigitValue(s[i])))
      else Some(ULongValue(negative, v))
  }

  /** The one-pass reading agrees with strtoul on the characters from i
   *  (none when i is past the end). */
  lemma ScanULongIsStrToUL(s: seq<char>, i: nat)
    ensures ScanULong(s, i, Blanks) ==
              var x := StrToUL(if i <= |s| then s[i..] else []);
              if x.1 == 0 then None else Some(x.0)
  {
    if i <= |s| {
      ScanBlanks(s, i);
    } else {
      assert ScanULong(s, i, Blanks) == ScanULong(s, i, Signed(false));
    }
  }

  lemma {:induction false} ScanBlanks(s: seq<char>, i: nat)
    requires i <= |s|
    ensures ScanULong(s, i, Blanks) ==
              var x := StrToUL(s[i..]);
              if x.1 == 0 then None else Some(x.0)
    decreases |s| - i
  {
    var t := s[i..];
    if i < |s| && IsSpace(s[i]) {
      ScanBlanks(s, i + 1);
      assert t[1..] == s[i + 1..];
      StrToULSkipsSpace(t);
    } else if i < |s| && (s[i] == '+' || s[i] == '-') {
      ScanSigned(s, i + 1, s[i] == '-');
      assert t[1..] == s[i + 1..];
    } else {
      ScanSigned(s, i, false);
      assert t[0..] == t;
    }
  }

  /** strtoul skips one leading white-space character without changing the
   *  value or whether a digit was found. */
  lemma StrToULSkipsSpace(t: seq<char>)
    requires |t| > 0 && IsSpace(t[0])
    ensures StrToUL(t).0 == StrToUL(t[1..]).0
    ensures StrToUL(t).1 == 0 <==> StrToUL(t[1..]).1 == 0
  {
    var u := t[1..];
    var w := SpaceRun(t);
    assert w == 1 + SpaceRun(u);
    assert w < |t| ==> t[w] == u[w - 1];
    var start := if w < |t| && (t[w] == '+' || t[w] == '-') then w + 1 else w;
    assert t[start..] == u[start - 1..];
  }

  lemma ScanSigned(s: seq<char>, i: nat, negative: bool)
    requires i <= |s|
    ensures ScanULong(s, i, Signed(negative)) ==
              var d := DigitRun(s[i..]);
              if d == 0 then None else Some(ULongValue(negative, DecimalValue(s[i..][..d])))
  {
    var d := DigitRun(s[i..]);
    if d > 0 {
      assert s[i..][0] == s[i];
      assert s[i..i + 1] == [s[i]];
      assert DecimalValue(s[i..i + 1]) == DigitValue(s[i]) by {
        assert s[i..i + 1][..0] == [];
      }
      ScanDigits(s, i, i + 1, negative);
    }
  }

  lemma {:induction false} ScanDigits(s: seq<char>, start: nat, i: nat, negative: bool)
    requires start < i <= |s|
    requires i <= start + DigitRun(s[start..])
    requires AllDigits(s[start..i])
    ensures ScanULong(s, i, InDigits(negative, DecimalValue(s[start..i]))) ==
              Some(ULongValue(negative, DecimalValue(s[start..][..DigitRun(s[start..])])))
    decreases |s| - i
  {
    var d := DigitRun(s[start..]);
    if i < start + d {
      assert s[start..][i - start] == s[i];
      var next := s[start..i + 1];
      assert next[..|next| - 1] == s[start..i];
      assert AllDigits(next);
      ScanDigits(s, start, i + 1, negative);
    } else {
      assert s[start..][..d] == s[start..i];
      assert i < |s| ==> s[start..][d] == s[i];
    }
  }

  /** Euclidean remainders by a positive modulus near the range. */
  lemma ModInRange(v: int, p: int)
    requires 0 <= v < p
    ensures v % p == v
  {
    MulSign(p, v / p);
  }

  lemma ModBelowZero(v: int, p: int)
    requires 0 <= v < p
    ensures (v - p) % p == v
  {
    MulSign(p, (v - p) / p);
  }

  /** A multiple of a positive p is at least p or at most -p unless it is
   *  zero. */
  lemma MulSign(p: int, d: int)
    requires p > 0
    ensures d >= 1 ==> p * d >= p
    ensures d <= -1 ==> p * d <= -p
  {
  }

  /** strchr: the index of the first c in s, None for NULL. */
  function IndexOf(s: string, c: char): (r: Option<nat>)
    ensures r.Some? ==> r.value < |s| && s[r.value] == c && c !in s[..r.value]
    ensures r.None? <==> c !in s
  {
    if |s| == 0 then None
    else if s[0] == c then Some(0)
    else
      match IndexOf(s[1..], c)
      case None => None
      case Some(k) =>
        assert s[..k + 1] == [s[0]] + s[1..][..k];
        Some(k + 1)
  }

  /** The first c is the one at i when none comes before it. */
  lemma {:induction false} IndexOfFirst(s: string, c: char, i: nat)
    requires i < |s| && s[i] == c && c !in s[..i]
    ensures IndexOf(s, c) == Some(i)
  {
    if i > 0 {
      assert s[0] == s[..i][0];
      assert s[1..][..i - 1] == s[1..i];
      assert c !in s[1..][..i - 1] by {
        forall k | 0 <= k < i - 1 ensures s[1..][k] != c {
          assert s[1..][k] == s[..i][k + 1];
        }
      }
      IndexOfFirst(s[1..], c, i - 1);
    }
  }
}
