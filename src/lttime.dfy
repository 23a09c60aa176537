/** The LttTime value: seconds and nanoseconds, both unsigned in C.
 *  ltt/time.h is not part of this model; its inline helpers are restated
 *  here as LTTV defines them (lexicographic compare, add with carry,
 *  subtract with borrow, the zero and infinite constants). */
module LttTime {
  const NanosecondsPerSecond: nat := 1_000_000_000
  /** G_MAXUINT on the platforms LTTV targets. */
  const MaxUInt: nat := 0xFFFF_FFFF

  datatype Time = Time(sec: nat, nsec: nat)

  const Zero: Time := Time(0, 0)
  /** ltt_time_infinite: { G_MAXUINT, NANOSECONDS_PER_SECOND }. */
  const Infinite: Time := Time(MaxUInt, NanosecondsPerSecond)

  /** A time whose nanosecond part is in range. */
  predicate Normal(t: Time) { t.nsec < NanosecondsPerSecond }

  /** ltt_time_compare: -1, 0 or 1, ordering by seconds then nanoseconds. */
  function Compare(t1: Time, t2: Time): (c: int)
    ensures c == 0 <==> t1 == t2
    ensures c == -1 || c == 0 || c == 1
    ensures c < 0 <==> t1.sec < t2.sec || (t1.sec == t2.sec && t1.nsec < t2.nsec)
  {
    if t1.sec > t2.sec then 1
    else if t1.sec < t2.sec then -1
    else if t1.nsec > t2.nsec then 1
    else if t1.nsec < t2.nsec then -1
    else 0
  }

  predicate Less(t1: Time, t2: Time) { Compare(t1, t2) < 0 }
  predicate LessEq(t1: Time, t2: Time) { Compare(t1, t2) <= 0 }

  lemma CompareAntisymmetric(t1: Time, t2: Time)
    ensures Compare(t1, t2) == -Compare(t2, t1)
  {}

  lemma CompareTransitive(t1: Time, t2: Time, t3: Time)
    requires LessEq(t1, t2) && LessEq(t2, t3)
    ensures LessEq(t1, t3)
    ensures Less(t1, t2) || Less(t2, t3) ==> Less(t1, t3)
  {}

  /** LTT_TIME_MIN / LTT_TIME_MAX. */
  function Min(t1: Time, t2: Time): (r: Time)
    ensures LessEq(r, t1) && LessEq(r, t2) && (r == t1 || r == t2)
  {
    if Compare(t1, t2) < 0 then t1 else t2
  }

  function Max(t1: Time, t2: Time): (r: Time)
    ensures LessEq(t1, r) && LessEq(t2, r) && (r == t1 || r == t2)
  {
    if Compare(t1, t2) > 0 then t1 else t2
  }

  /** ltt_time_add: nanoseconds are summed and one carry is propagated. */
  function Add(t1: Time, t2: Time): (r: Time)
    ensures r.sec * NanosecondsPerSecond + r.nsec
         == (t1.sec + t2.sec) * NanosecondsPerSecond + t1.nsec + t2.nsec
    ensures Normal(t1) && Normal(t2) ==> Normal(r)
  {
    var n := t1.nsec + t2.nsec;
    if n >= NanosecondsPerSecond then Time(t1.sec + t2.sec + 1, n - NanosecondsPerSecond)
    else Time(t1.sec + t2.sec, n)
  }

  /** ltt_time_sub: one borrow from the seconds when the nanoseconds of t1
   *  are smaller.  The unsigned C fields are only meaningful when t2 <= t1. */
  function Sub(t1: Time, t2: Time): (r: Time)
    requires LessEq(t2, t1) && t2.nsec <= NanosecondsPerSecond
    ensures r.sec * NanosecondsPerSecond + r.nsec
         == (t1.sec - t2.sec) * NanosecondsPerSecond + t1.nsec - t2.nsec
    ensures Normal(t1) && Normal(t2) ==> Normal(r)
  {
    if t1.nsec < t2.nsec then Time(t1.sec - t2.sec - 1, t1.nsec + NanosecondsPerSecond - t2.nsec)
    else Time(t1.sec - t2.sec, t1.nsec - t2.nsec)
  }

  /** The total nanosecond count of a normal time is order-preserving. */
  function Nanos(t: Time): nat { t.sec * NanosecondsPerSecond + t.nsec }

  lemma NanosMonotonic(t1: Time, t2: Time)
    requires Normal(t1) && Normal(t2)
    ensures Less(t1, t2) <==> Nanos(t1) < Nanos(t2)
  {
    if t1.sec < t2.sec {
      calc {
        Nanos(t1);
      < (t1.sec + 1) * NanosecondsPerSecond;
      <= t2.sec * NanosecondsPerSecond;
      <= Nanos(t2);
      }
    } else if t1.sec > t2.sec {
      calc {
        Nanos(t2);
      < (t2.sec + 1) * NanosecondsPerSecond;
      <= t1.sec * NanosecondsPerSecond;
      <= Nanos(t1);
      }
    }
  }

  /** Adding a width and taking the difference again gives the width back. */
  lemma SubAdd(t: Time, w: Time)
    requires Normal(t) && Normal(w)
    ensures LessEq(t, Add(t, w)) && Sub(Add(t, w), t) == w
  {
    NanosMonotonic(Add(t, w), t);
  }
}
