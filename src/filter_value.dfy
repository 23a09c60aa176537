/** The values of simple expressions in trunk/lttv/lttv/lttv/filter.c:
 *  lttv_simple_expression_assign_value turns the text after the operator
 *  into the union member the field's comparison reads.  g_quark_from_string
 *  is the parameter intern: the quark table is not part of this model. */
module FilterValue {
  import opened Wrappers
  import opened LttTime
  import opened CStdlib
  import opened FilterField
  import opened FilterOps

  /** The conversions of C's assignment of an int to guint and guint64. */
  function AsGuint(x: int): (r: UInt32)
    ensures 0 <= x < UInt32Modulus ==> r == x
  {
    x % 0x1_0000_0000
  }

  function AsGuint64(x: int): (r: UInt64)
    ensures 0 <= x < UInt64Modulus ==> r == x
  {
    x % 0x1_0000_0000_0000_0000
  }

  /** The time the LttTime case reads from value: seconds before the one
   *  dot and nanoseconds after it, or whole seconds when there is no dot;
   *  None for the FALSE return on a second dot.  Each part goes through
   *  atoi into an unsigned long. */
  function TimeValue(value: string): (r: Option<Time>)
  {
    match IndexOf(value, '.')
    case None => Some(Time(AsGuint64(Atoi(value)), 0))
    case Some(d) =>
      if '.' in value[d + 1..] then None
      else Some(Time(AsGuint64(Atoi(value[..d])), AsGuint64(Atoi(value[d + 1..]))))
  }

  /** The character loop of the LttTime case: a buffer of the characters
   *  since the last dot, the seconds read at the first dot, and the FALSE
   *  return at a second one. */
  method ParseTimeValue(value: string) returns (r: Option<Time>)
    ensures r == TimeValue(value)
  {
    var v: string := "";
    var isDouble := false;
    var sec: nat := 0;
    var i := 0;
    ghost var dot := 0;
    while i < |value|
      invariant 0 <= i <= |value|
      invariant !isDouble ==> '.' !in value[0..i] && v == value[0..i]
      invariant isDouble ==>
        IndexOf(value, '.') == Some(dot) && dot < i && '.' !in value[dot + 1..i] &&
        v == value[dot + 1..i] && sec == AsGuint64(Atoi(value[..dot]))
    {
      if value[i] == '.' {
        if isDouble {
          TimeValueSecondDot(value, dot, i);
          return None;
        }
        IndexOfFirst(value, '.', i);
        dot := i;
        isDouble := true;
        sec := AsGuint64(Atoi(v));
        v := "";
      } else {
        if isDouble {
          NoDotExtends(value, dot + 1, i);
        } else {
          NoDotExtends(value, 0, i);
        }
        v := v + [value[i]];
      }
      i := i + 1;
    }
    assert value[..i] == value;
    if isDouble {
      TimeValueOneDot(value, dot);
      r := Some(Time(sec, AsGuint64(Atoi(v))));
    } else {
      TimeValueNoDot(value);
      r := Some(Time(AsGuint64(Atoi(v)), 0));
    }
  }

  /** One more character that is not a dot. */
  lemma NoDotExtends(value: string, j: nat, i: nat)
    requires j <= i < |value| && '.' !in value[j..i] && value[i] != '.'
    ensures '.' !in value[j..i + 1] && value[j..i + 1] == value[j..i] + [value[i]]
  {
    assert value[j..i + 1] == value[j..i] + [value[i]];
  }

  lemma TimeValueNoDot(value: string)
    requires '.' !in value
    ensures TimeValue(value) == Some(Time(AsGuint64(Atoi(value)), 0))
  {
  }

  lemma TimeValueOneDot(value: string, dot: nat)
    requires IndexOf(value, '.') == Some(dot) && '.' !in value[dot + 1..]
    ensures TimeValue(value) == Some(Time(AsGuint64(Atoi(value[..dot])), AsGuint64(Atoi(value[dot + 1..]))))
  {
  }

  lemma TimeValueSecondDot(value: string, dot: nat, i: nat)
    requires IndexOf(value, '.') == Some(dot) && dot < i < |value| && value[i] == '.'
    ensures TimeValue(value) == None
  {
    assert value[dot + 1..][i - dot - 1] == value[i];
  }

  /** The EVENT_NAME case: "channel.event" split at its first dot, or an
   *  event name alone with quark 0 for the channel. */
  function EventNameValue(value: string, intern: string -> Quark): (v: FieldValue)
    ensures v.VQuarks?
  {
    match IndexOf(value, '.')
    case Some(d) => VQuarks(intern(value[..d]), intern(value[d + 1..]))
    case None => VQuarks(0, intern(value))
  }

  /** assign_value as written: the quark fields intern the text, EVENT_TSC
   *  and the guint fields take atoi of it, the time fields the parse above;
   *  FALSE with the value unchanged on a second dot and on the fields
   *  without a value type. */
  function AssignValueAsWritten(f: Field, value: string, intern: string -> Quark,
                                current: FieldValue): (r: (bool, FieldValue))
  {
    if f == EventTsc then (true, VUInt64(AsGuint64(Atoi(value))))
    else AssignValue(f, value, intern, current)
  }

  /** assign_value with the 64-bit cycle count read as the unsigned 64-bit
   *  number its comment says it is (strtoull) rather than through an int. */
  function AssignValue(f: Field, value: string, intern: string -> Quark,
                       current: FieldValue): (r: (bool, FieldValue))
    ensures !r.0 ==> r.1 == current
    ensures r.0 ==> KindOf(f).Some? && ValueOfKind(r.1, KindOf(f).value)
    ensures KindOf(f).None? ==> !r.0
  {
    match KindOf(f)
    case None => (false, current)
    case Some(KQuark) => (true, VQuark(intern(value)))
    case Some(KQuarks) => (true, EventNameValue(value, intern))
    case Some(KUInt64) => (true, VUInt64(StrToUL(value).0))
    case Some(KUInt) => (true, VUInt(AsGuint(Atoi(value))))
    case Some(KTime) =>
      match TimeValue(value)
      case None => (false, current)
      case Some(t) => (true, VTime(t))
  }

  /** The numeric cases of assign_value, on any text. */
  lemma UIntValue(f: Field, s: string, intern: string -> Quark, current: FieldValue)
    requires KindOf(f) == Some(KUInt)
    ensures AssignValue(f, s, intern, current) == (true, VUInt(AsGuint(Atoi(s))))
  {
  }

  /** The cycle count: strtoull in the model, atoi as written. */
  lemma TscValues(s: string, intern: string -> Quark, current: FieldValue)
    ensures AssignValue(EventTsc, s, intern, current) == (true, VUInt64(StrToUL(s).0))
    ensures AssignValueAsWritten(EventTsc, s, intern, current) == (true, VUInt64(AsGuint64(Atoi(s))))
  {
  }

  /** atoi of a decimal numeral below 2^32: the number, or the number
   *  minus 2^32 once it no longer fits an int. */
  lemma AtoiOfDecimal(n: nat)
    requires n < 0x1_0000_0000
    ensures Atoi(Decimal(n)) == if n <= IntMax then n else n - 0x1_0000_0000
  {
    assert Decimal(n) + [] == Decimal(n);
    StrToLOfDecimal(n, []);
  }

  /** Every unsigned 32-bit number written in decimal reads back as
   *  itself into a guint field, through atoi's wrap to int and back. */
  lemma UIntValueRoundTrip(f: Field, n: UInt32, intern: string -> Quark, current: FieldValue)
    requires KindOf(f) == Some(KUInt)
    ensures AssignValue(f, Decimal(n), intern, current) == (true, VUInt(n))
  {
    UIntValue(f, Decimal(n), intern, current);
    GuintOfAtoi(n);
  }

  /** atoi and the conversion to guint undo each other on a decimal numeral. */
  lemma GuintOfAtoi(n: UInt32)
    ensures AsGuint(Atoi(Decimal(n))) == n
  {
    AtoiOfDecimal(n);
    if n <= IntMax {
      ModInRange(n, 0x1_0000_0000);
    } else {
      ModBelowZero(n, 0x1_0000_0000);
    }
  }

  /** Every unsigned 64-bit number reads back as itself into the cycle
   *  count. */
  lemma TscValueRoundTrip(n: UInt64, intern: string -> Quark, current: FieldValue)
    ensures AssignValue(EventTsc, Decimal(n), intern, current) == (true, VUInt64(n))
  {
    TscValues(Decimal(n), intern, current);
    assert Decimal(n) + [] == Decimal(n);
    StrToULOfDecimal(n, []);
  }

  /** As written, a cycle count from 2^31 to 2^32 - 1 goes through a
   *  negative int and becomes a number near 2^64. */
  lemma TscValueWrapsAsWritten(n: nat, intern: string -> Quark, current: FieldValue)
    requires 0x8000_0000 <= n < 0x1_0000_0000
    ensures AssignValueAsWritten(EventTsc, Decimal(n), intern, current) ==
            (true, VUInt64(n + 0xFFFF_FFFF_0000_0000))
    ensures n + 0xFFFF_FFFF_0000_0000 != n
  {
    TscValues(Decimal(n), intern, current);
    AtoiOfDecimal(n);
    ModInRange(n + 0xFFFF_FFFF_0000_0000, 0x1_0000_0000_0000_0000);
    assert n - 0x1_0000_0000 == n + 0xFFFF_FFFF_0000_0000 - 0x1_0000_0000_0000_0000;
    ModBelowZero(n + 0xFFFF_FFFF_0000_0000, 0x1_0000_0000_0000_0000);
    assert AsGuint64(Atoi(Decimal(n))) == n + 0xFFFF_FFFF_0000_0000;
  }

  /** The two halves of an event name value. */
  lemma EventNameValueSplit(channel: string, name: string, intern: string -> Quark)
    requires '.' !in channel
    ensures EventNameValue(channel + "." + name, intern) == VQuarks(intern(channel), intern(name))
    ensures '.' !in name ==> EventNameValue(name, intern) == VQuarks(0, intern(name))
  {
    var s := channel + "." + name;
    assert s[..|channel|] == channel;
    IndexOfFirst(s, '.', |channel|);
    assert s[|channel| + 1..] == name;
  }

  /** Seconds, and seconds and nanoseconds, written in decimal read back as
   *  the time they spell when atoi keeps them (up to INT_MAX). */
  lemma TimeValueRoundTrip(sec: nat, nsec: nat)
    requires sec <= IntMax && nsec <= IntMax
    ensures TimeValue(Decimal(sec)) == Some(Time(sec, 0))
    ensures TimeValue(Decimal(sec) + "." + Decimal(nsec)) == Some(Time(sec, nsec))
  {
    AtoiOfDecimal(sec);
    AtoiOfDecimal(nsec);
    assert '.' !in Decimal(sec) by {
      forall k | 0 <= k < |Decimal(sec)| ensures Decimal(sec)[k] != '.' {
        assert IsDigit(Decimal(sec)[k]);
      }
    }
    assert '.' !in Decimal(nsec) by {
      forall k | 0 <= k < |Decimal(nsec)| ensures Decimal(nsec)[k] != '.' {
        assert IsDigit(Decimal(nsec)[k]);
      }
    }
    var s := Decimal(sec) + "." + Decimal(nsec);
    assert s[..|Decimal(sec)|] == Decimal(sec);
    IndexOfFirst(s, '.', |Decimal(sec)|);
    assert s[|Decimal(sec)| + 1..] == Decimal(nsec);
  }

  /** A second dot is refused and leaves the value as it was. */
  lemma TimeValueTwoDots(f: Field, a: string, b: string, c: string,
                         intern: string -> Quark, current: FieldValue)
    requires KindOf(f) == Some(KTime) && '.' !in a
    ensures AssignValue(f, a + "." + b + "." + c, intern, current) == (false, current)
  {
    var s := a + "." + b + "." + c;
    assert s[..|a|] == a;
    IndexOfFirst(s, '.', |a|);
    var i := |a| + 1 + |b|;
    assert s[i] == '.' && s[|a| + 1..][i - |a| - 1] == s[i];
  }
}
