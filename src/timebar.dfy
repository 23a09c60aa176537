/** The time bar of a tab in the main window's callbacks: the numbers a
 *  pasted clipboard text is read as, the clamping of the start, end and
 *  current time entries to the trace span, and the window SetTraceset
 *  computes for a new traceset.  The spin buttons, the scrollbar and
 *  ltt_time_to_double are not part of this model. */
module TimeBar {
  import opened Wrappers
  import opened LttTime
  import opened CStdlib

  /** CLIP_BUF, the size of the buffer a clipboard text is copied to. */
  const ClipBuf: nat := 256

  /** lttvwindow_default_time_width. */
  const DefaultTimeWidth: Time := Time(1, 0)

  /** The C string a text is: it ends at its first NUL. */
  function CText(text: string): (c: string)
    ensures '\0' !in c && |c| <= |text| && c == text[..|c|]
    ensures '\0' !in text ==> c == text
  {
    match IndexOf(text, '\0')
    case None => text
    case Some(i) => text[..i]
  }

  /** strncpy(buffer, text, CLIP_BUF): the text cut to CLIP_BUF characters,
   *  or padded with NULs up to them. */
  function ClipBuffer(text: string): (b: seq<char>)
    ensures |b| == ClipBuf
  {
    var c := CText(text);
    if |c| >= ClipBuf then c[..ClipBuf] else c + seq(ClipBuf - |c|, _ => '\0')
  }

  /** The slots of the copy: the C string, then NULs. */
  lemma ClipBufferAt(text: string)
    ensures forall k :: 0 <= k < ClipBuf ==>
              ClipBuffer(text)[k] == if k < |CText(text)| then CText(text)[k] else '\0'
  {
  }

  /** The "remove leading junk" loop: the first digit from p on, stopping
   *  at the last slot of the buffer. */
  function SkipJunk(b: seq<char>, p: nat): (q: nat)
    requires |b| == ClipBuf && p < ClipBuf
    ensures p <= q < ClipBuf
    ensures q < ClipBuf - 1 ==> IsDigit(b[q])
    decreases ClipBuf - p
  {
    if !IsDigit(b[p]) && p < ClipBuf - 1 then SkipJunk(b, p + 1) else p
  }

  /** The "read all the first number" loop: the end of the digits from p,
   *  stopping at the last slot of the buffer. */
  function RunEnd(b: seq<char>, p: nat): (q: nat)
    requires |b| == ClipBuf && p < ClipBuf
    ensures p <= q < ClipBuf
    ensures q < ClipBuf - 1 ==> !IsDigit(b[q])
    decreases ClipBuf - p
  {
    if IsDigit(b[p]) && p < ClipBuf - 1 then RunEnd(b, p + 1) else p
  }

  /** One number of the text: what strtoul makes of the digits after the
   *  junk from p (the NUL written at their end stops it there), and that
   *  end.  RunValueIsStrToUL shows the value is strtoul's. */
  function NumberAt(b: seq<char>, p: nat): (r: (nat, nat))
    requires |b| == ClipBuf && p < ClipBuf
    ensures p <= r.1 < ClipBuf
  {
    var s := SkipJunk(b, p);
    var e := RunEnd(b, s);
    RunDigits(b, s);
    assert AllDigits(b[s..e]);
    (RunValue(b[s..e]), e)
  }

  lemma {:induction false} RunDigits(b: seq<char>, p: nat)
    requires |b| == ClipBuf && p < ClipBuf
    ensures forall k :: p <= k < RunEnd(b, p) ==> IsDigit(b[k])
    decreases ClipBuf - p
  {
    if IsDigit(b[p]) && p < ClipBuf - 1 {
      RunDigits(b, p + 1);
    }
  }

  /** strtoul of a digit run: its decimal value, saturated at ULONG_MAX. */
  function RunValue(d: string): nat
    requires AllDigits(d)
  {
    ULongValue(false, DecimalValue(d))
  }

  lemma RunValueIsStrToUL(d: string)
    requires AllDigits(d)
    ensures StrToUL(d).0 == RunValue(d)
  {
    if |d| > 0 {
      assert !IsSpace(d[0]) && d[0] != '+' && d[0] != '-';
      DigitRunPrefix(d, []);
      assert d + [] == d && d[0..] == d && d[..|d|] == d;
    } else {
      NoNumber(d);
    }
  }

  /** The ptr++ past the NUL ending a number, as written: one past the last
   *  slot once the number ran to it. */
  function NextAsWritten(e: nat): nat { e + 1 }

  /** The step past the NUL that stays inside the buffer. */
  function Next(e: nat): (q: nat)
    requires e < ClipBuf
    ensures e <= q < ClipBuf
    ensures e < ClipBuf - 1 ==> q == NextAsWritten(e)
  {
    if e < ClipBuf - 1 then e + 1 else e
  }

  /** One time of the text from p: seconds, the step past the NUL that
   *  ended them, nanoseconds; and where the nanoseconds end. */
  function TimeAt(b: seq<char>, p: nat): (r: (Time, nat))
    requires |b| == ClipBuf && p < ClipBuf
    ensures p <= r.1 < ClipBuf
  {
    var n1 := NumberAt(b, p);
    var n2 := NumberAt(b, Next(n1.1));
    (Time(n1.0, n2.0), n2.1)
  }

  /** MEventBox1b_receive (and 3b, 5b, 8): seconds and nanoseconds, the
   *  first two digit runs of the text. */
  function ClipTime(text: string): Time
  {
    TimeAt(ClipBuffer(text), 0).0
  }

  /** MEventBox1a_receive: start and end of a window, the first four digit
   *  runs; the third scan starts on the NUL that ended the second number. */
  function ClipWindow(text: string): (Time, Time)
  {
    WindowOfBuffer(ClipBuffer(text))
  }

  function WindowOfBuffer(b: seq<char>): (Time, Time)
    requires |b| == ClipBuf
  {
    var t1 := TimeAt(b, 0);
    (t1.0, TimeAt(b, t1.1).0)
  }

  lemma {:induction false} SkipOverJunk(b: seq<char>, p: nat)
    requires |b| == ClipBuf && p < ClipBuf
    requires forall k :: p <= k < ClipBuf - 1 ==> !IsDigit(b[k])
    ensures SkipJunk(b, p) == ClipBuf - 1
    decreases ClipBuf - p
  {
    if p < ClipBuf - 1 {
      SkipOverJunk(b, p + 1);
    }
  }

  /** As written, a text with no digit at all (an empty one, say) leaves
   *  the first scan on the last slot, and the ptr++ after it points one
   *  past the buffer: the next loop reads buffer[CLIP_BUF] and the last
   *  store writes it. */
  lemma ClipOverrunAsWritten()
    ensures NumberAt(ClipBuffer(""), 0).1 == ClipBuf - 1
    ensures NextAsWritten(NumberAt(ClipBuffer(""), 0).1) == ClipBuf
    ensures Next(NumberAt(ClipBuffer(""), 0).1) < ClipBuf
  {
    var b := ClipBuffer("");
    assert CText("") == "";
    ClipBufferAt("");
    SkipOverJunk(b, 0);
  }

  lemma {:induction false} SkipTo(b: seq<char>, p: nat, s: nat)
    requires |b| == ClipBuf && p <= s < ClipBuf - 1 && IsDigit(b[s])
    requires forall k :: p <= k < s ==> !IsDigit(b[k])
    ensures SkipJunk(b, p) == s
    decreases s - p
  {
    if p < s {
      SkipTo(b, p + 1, s);
    }
  }

  lemma {:induction false} RunTo(b: seq<char>, p: nat, e: nat)
    requires |b| == ClipBuf && p <= e < ClipBuf - 1 && !IsDigit(b[e])
    requires forall k :: p <= k < e ==> IsDigit(b[k])
    ensures RunEnd(b, p) == e
    decreases e - p
  {
    if p < e {
      RunTo(b, p + 1, e);
    }
  }

  /** The characters of d stand in t from s on. */
  ghost predicate DigitsAt(t: seq<char>, s: nat, d: string)
  {
    s + |d| <= |t| && forall i :: 0 <= i < |d| ==> t[s + i] == d[i]
  }

  lemma SliceDigitsAt(t: seq<char>, s: nat, d: string)
    requires s + |d| <= |t| && t[s..s + |d|] == d
    ensures DigitsAt(t, s, d)
  {
    forall i | 0 <= i < |d| ensures t[s + i] == d[i] {
      assert t[s..s + |d|][i] == t[s + i];
    }
  }

  /** A run of digits after some junk is read back whole. */
  lemma NumberAtDigits(b: seq<char>, p: nat, s: nat, d: string)
    requires |b| == ClipBuf && |d| > 0 && AllDigits(d)
    requires p <= s && s + |d| < ClipBuf - 1
    requires forall k :: p <= k < s ==> !IsDigit(b[k])
    requires DigitsAt(b, s, d) && !IsDigit(b[s + |d|])
    ensures NumberAt(b, p) == (RunValue(d), s + |d|)
  {
    assert b[s + 0] == d[0];
    SkipTo(b, p, s);
    forall k | s <= k < s + |d| ensures IsDigit(b[k]) {
      assert b[s + (k - s)] == d[k - s];
    }
    RunTo(b, s, s + |d|);
    assert b[s..s + |d|] == d;
  }

  /** A decimal numeral is a run of digits that reads back as its number. */
  lemma DecimalDigits(n: nat)
    requires n <= ULongMax
    ensures |Decimal(n)| > 0 && AllDigits(Decimal(n)) && '\0' !in Decimal(n)
    ensures RunValue(Decimal(n)) == n
  {
    DecimalRoundTrip(n);
  }

  /** A text joined from two parts around a separator. */
  lemma Joined(x: string, sep: char, y: string)
    ensures var t := x + [sep] + y;
            t[..|x|] == x && t[|x|] == sep && t[|x| + 1..] == y &&
            ('\0' !in x && '\0' !in y && sep != '\0' ==> '\0' !in t)
  {
    var t := x + [sep] + y;
    assert t[|x| + 1..] == y;
  }

  /** The copy of a text without NULs shorter than the buffer. */
  lemma ShortBuffer(text: string)
    requires '\0' !in text && |text| < ClipBuf
    ensures forall k :: 0 <= k < |text| ==> ClipBuffer(text)[k] == text[k]
    ensures ClipBuffer(text)[|text|] == '\0'
  {
    assert CText(text) == text;
    ClipBufferAt(text);
  }

  /** Seconds and nanoseconds written "sec.nsec" read back as that time. */
  lemma ClipTimeRoundTrip(sec: nat, nsec: nat)
    requires sec <= ULongMax && nsec <= ULongMax
    requires |Decimal(sec)| + |Decimal(nsec)| < ClipBuf - 2
    ensures ClipTime(Decimal(sec) + "." + Decimal(nsec)) == Time(sec, nsec)
  {
    var d1, d2 := Decimal(sec), Decimal(nsec);
    DecimalDigits(sec);
    DecimalDigits(nsec);
    var text := d1 + "." + d2;
    Joined(d1, '.', d2);
    SliceDigitsAt(text, 0, d1);
    SliceDigitsAt(text, |d1| + 1, d2);
    var buf := ClipBuffer(text);
    ShortBuffer(text);
    BufferDigitsAt(buf, text, 0, d1);
    BufferDigitsAt(buf, text, |d1| + 1, d2);
    TimeInBuffer(buf, 0, 0, d1, d2);
  }

  /** Where the four numbers of a window text lie. */
  lemma WindowLayout(a: string, b: string, c: string, d: string)
    requires '\0' !in a && '\0' !in b && '\0' !in c && '\0' !in d
    ensures var text := a + "." + b + " " + c + "." + d;
            var p1 := |a| + 1;
            var q := p1 + |b|;
            var p3 := q + 1 + |c| + 1;
            '\0' !in text && |text| == p3 + |d| &&
            DigitsAt(text, 0, a) && text[|a|] == '.' &&
            DigitsAt(text, p1, b) && text[q] == ' ' &&
            DigitsAt(text, q + 1, c) && text[q + 1 + |c|] == '.' &&
            DigitsAt(text, p3, d)
  {
    var t1, t2 := a + "." + b, c + "." + d;
    Joined(a, '.', b);
    Joined(c, '.', d);
    var text := t1 + " " + t2;
    assert text == a + "." + b + " " + c + "." + d;
    Joined(t1, ' ', t2);
    var p1, p2 := |a| + 1, |t1| + 1;
    var p3 := p2 + |c| + 1;
    assert text[0..|a|] == text[..|t1|][0..|a|];
    assert text[p1..p1 + |b|] == text[..|t1|][p1..];
    assert text[p2..p2 + |c|] == text[p2..][..|c|];
    assert text[p3..p3 + |d|] == text[p2..][|c| + 1..];
    assert text[p2 + |c|] == text[p2..][|c|];
    SliceDigitsAt(text, 0, a);
    SliceDigitsAt(text, p1, b);
    SliceDigitsAt(text, p2, c);
    SliceDigitsAt(text, p3, d);
  }

  /** The four numbers of a text laid out as a window. */
  lemma WindowFromLayout(text: string, a: string, b: string, c: string, d: string)
    requires |a| > 0 && AllDigits(a) && |b| > 0 && AllDigits(b)
    requires |c| > 0 && AllDigits(c) && |d| > 0 && AllDigits(d)
    requires |a| + |b| + |c| + |d| < ClipBuf - 4
    requires var p1 := |a| + 1;
             var q := p1 + |b|;
             var p3 := q + 1 + |c| + 1;
             '\0' !in text && |text| == p3 + |d| &&
             DigitsAt(text, 0, a) && text[|a|] == '.' &&
             DigitsAt(text, p1, b) && text[q] == ' ' &&
             DigitsAt(text, q + 1, c) && text[q + 1 + |c|] == '.' &&
             DigitsAt(text, p3, d)
    ensures ClipWindow(text) == (Time(RunValue(a), RunValue(b)), Time(RunValue(c), RunValue(d)))
  {
    var q := |a| + 1 + |b|;
    var r := q + 1 + |c|;
    var buf := ClipBuffer(text);
    ShortBuffer(text);
    BufferDigitsAt(buf, text, 0, a);
    BufferDigitsAt(buf, text, |a| + 1, b);
    BufferDigitsAt(buf, text, q + 1, c);
    BufferDigitsAt(buf, text, r + 1, d);
    assert !IsDigit(buf[|a|]) && !IsDigit(buf[q]) && !IsDigit(buf[r]) && !IsDigit(buf[r + 1 + |d|]);
    WindowInBuffer(buf, a, b, c, d);
  }

  /** The four numbers of a buffer laid out as a window. */
  lemma WindowInBuffer(buf: seq<char>, a: string, b: string, c: string, d: string)
    requires |buf| == ClipBuf
    requires |a| > 0 && AllDigits(a) && |b| > 0 && AllDigits(b)
    requires |c| > 0 && AllDigits(c) && |d| > 0 && AllDigits(d)
    requires |a| + |b| + |c| + |d| < ClipBuf - 4
    requires var q := |a| + 1 + |b|;
             var r := q + 1 + |c|;
             DigitsAt(buf, 0, a) && !IsDigit(buf[|a|]) &&
             DigitsAt(buf, |a| + 1, b) && !IsDigit(buf[q]) &&
             DigitsAt(buf, q + 1, c) && !IsDigit(buf[r]) &&
             DigitsAt(buf, r + 1, d) && !IsDigit(buf[r + 1 + |d|])
    ensures WindowOfBuffer(buf) == (Time(RunValue(a), RunValue(b)), Time(RunValue(c), RunValue(d)))
  {
    var q := |a| + 1 + |b|;
    TimeInBuffer(buf, 0, 0, a, b);
    TimeInBuffer(buf, q, q + 1, c, d);
    WindowOfTimes(buf, q, Time(RunValue(a), RunValue(b)), Time(RunValue(c), RunValue(d)));
  }

  lemma WindowOfTimes(b: seq<char>, e: nat, t1: Time, t2: Time)
    requires |b| == ClipBuf && e < ClipBuf
    requires TimeAt(b, 0) == (t1, e) && TimeAt(b, e).0 == t2
    ensures WindowOfBuffer(b) == (t1, t2)
  {
  }

  /** The digits of a short text stand at the same places in its copy. */
  lemma BufferDigitsAt(buf: seq<char>, text: string, s: nat, d: string)
    requires |text| <= |buf| && forall k :: 0 <= k < |text| ==> buf[k] == text[k]
    requires DigitsAt(text, s, d)
    ensures DigitsAt(buf, s, d)
  {
    forall i | 0 <= i < |d| ensures buf[s + i] == d[i] {
      assert text[s + i] == d[i];
    }
  }

  /** A time "x.y" of a buffer, from p right at it or on the one character
   *  before it. */
  lemma TimeInBuffer(buf: seq<char>, p: nat, s: nat, x: string, y: string)
    requires |buf| == ClipBuf && |x| > 0 && AllDigits(x) && |y| > 0 && AllDigits(y)
    requires p < ClipBuf && (s == p || (s == p + 1 && !IsDigit(buf[p])))
    requires s + |x| + 1 + |y| < ClipBuf - 1
    requires DigitsAt(buf, s, x) && !IsDigit(buf[s + |x|])
    requires DigitsAt(buf, s + |x| + 1, y) && !IsDigit(buf[s + |x| + 1 + |y|])
    ensures TimeAt(buf, p) == (Time(RunValue(x), RunValue(y)), s + |x| + 1 + |y|)
  {
    NumberAtDigits(buf, p, s, x);
    NumberAtDigits(buf, s + |x| + 1, s + |x| + 1, y);
  }

  /** A window written "sec.nsec sec.nsec" reads back as its two times. */
  lemma ClipWindowRoundTrip(s1: nat, n1: nat, s2: nat, n2: nat)
    requires s1 <= ULongMax && n1 <= ULongMax && s2 <= ULongMax && n2 <= ULongMax
    requires |Decimal(s1)| + |Decimal(n1)| + |Decimal(s2)| + |Decimal(n2)| < ClipBuf - 4
    ensures ClipWindow(Decimal(s1) + "." + Decimal(n1) + " " + Decimal(s2) + "." + Decimal(n2))
         == (Time(s1, n1), Time(s2, n2))
  {
    var a, b, c, d := Decimal(s1), Decimal(n1), Decimal(s2), Decimal(n2);
    DecimalDigits(s1);
    DecimalDigits(n1);
    DecimalDigits(s2);
    DecimalDigits(n2);
    WindowLayout(a, b, c, d);
    WindowFromLayout(a + "." + b + " " + c + "." + d, a, b, c, d);
  }

  /** The digits of buf and b agree from p on, up to the last slot: equal
   *  characters, or two that are not digits (a NUL written over a
   *  separator). */
  ghost predicate Agrees(buf: seq<char>, b: seq<char>, p: nat)
    requires |buf| == ClipBuf && |b| == ClipBuf
  {
    forall k :: p <= k < ClipBuf - 1 ==> buf[k] == b[k] || (!IsDigit(buf[k]) && !IsDigit(b[k]))
  }

  /** The "remove leading junk" loop on the buffer. */
  method SkipLoop(buf: array<char>, p: nat, ghost b: seq<char>) returns (s: nat)
    requires buf.Length == ClipBuf && |b| == ClipBuf && p < ClipBuf
    requires Agrees(buf[..], b, p)
    ensures s == SkipJunk(b, p)
  {
    s := p;
    while !IsDigit(buf[s]) && s < ClipBuf - 1
      invariant p <= s < ClipBuf && SkipJunk(b, s) == SkipJunk(b, p)
      decreases ClipBuf - s
    {
      s := s + 1;
    }
  }

  /** The "read all the first number" loop on the buffer. */
  method RunLoop(buf: array<char>, s: nat, ghost b: seq<char>) returns (e: nat)
    requires buf.Length == ClipBuf && |b| == ClipBuf && s < ClipBuf
    requires Agrees(buf[..], b, s)
    ensures e == RunEnd(b, s)
    ensures forall k :: s <= k < e ==> buf[k] == b[k] && IsDigit(b[k])
  {
    e := s;
    while IsDigit(buf[e]) && e < ClipBuf - 1
      invariant s <= e < ClipBuf && RunEnd(b, e) == RunEnd(b, s)
      invariant forall k :: s <= k < e ==> buf[k] == b[k] && IsDigit(b[k])
      decreases ClipBuf - e
    {
      e := e + 1;
    }
  }

  /** The two scans of one number on the buffer, strtoul of the digits and
   *  the NUL stored at their end; b is the buffer as strncpy left it. */
  method ScanNumber(buf: array<char>, p: nat, ghost b: seq<char>) returns (v: nat, e: nat)
    requires buf.Length == ClipBuf && |b| == ClipBuf && p < ClipBuf
    requires Agrees(buf[..], b, p)
    modifies buf
    ensures (v, e) == NumberAt(b, p)
    ensures Agrees(buf[..], b, e)
  {
    var s := SkipLoop(buf, p, b);
    e := RunLoop(buf, s, b);
    var digits := buf[s..e];
    assert digits == b[s..e] && AllDigits(digits);
    RunValueIsStrToUL(digits);
    v := StrToUL(digits).0;
    buf[e] := '\0';
  }

  /** Where the copy loop stops (the buffer is full, the text ended or a
   *  NUL came), the copy holds the text before it and NULs after. */
  lemma CopiedPrefix(text: string, i: nat)
    requires i <= ClipBuf && i <= |text| && '\0' !in text[..i]
    requires i == ClipBuf || i == |text| || text[i] == '\0'
    ensures forall k :: 0 <= k < i ==> ClipBuffer(text)[k] == text[k]
    ensures forall k :: i <= k < ClipBuf ==> ClipBuffer(text)[k] == '\0'
  {
    var c := CText(text);
    ClipBufferAt(text);
    match IndexOf(text, '\0')
    case None =>
      assert c == text;
    case Some(j) =>
      assert c == text[..j];
  }

  /** The strncpy of the text into a fresh buffer. */
  method CopyText(text: string) returns (buf: array<char>)
    ensures fresh(buf) && buf.Length == ClipBuf && buf[..] == ClipBuffer(text)
  {
    buf := new char[ClipBuf];
    var i := 0;
    while i < ClipBuf && i < |text| && text[i] != '\0'
      invariant 0 <= i <= ClipBuf && i <= |text| && '\0' !in text[..i]
      invariant forall k :: 0 <= k < i ==> buf[k] == text[k]
    {
      buf[i] := text[i];
      i := i + 1;
    }
    CopiedPrefix(text, i);
    while i < ClipBuf
      invariant 0 <= i <= ClipBuf
      invariant forall k :: 0 <= k < i ==> buf[k] == ClipBuffer(text)[k]
    {
      buf[i] := '\0';
      i := i + 1;
    }
  }

  /** MEventBox1b_receive with the step that stays inside the buffer; a
   *  NULL text is ignored. */
  method ReceiveTime(text: Option<string>) returns (r: Option<Time>)
    ensures text.None? <==> r.None?
    ensures text.Some? ==> r == Some(ClipTime(text.value))
  {
    if text.None? {
      return None;
    }
    var buf := CopyText(text.value);
    ghost var b := buf[..];
    var sec, e1 := ScanNumber(buf, 0, b);
    var nsec, e2 := ScanNumber(buf, Next(e1), b);
    r := Some(Time(sec, nsec));
  }

  /** MEventBox1a_receive with the same step. */
  method ReceiveWindow(text: Option<string>) returns (r: Option<(Time, Time)>)
    ensures text.None? <==> r.None?
    ensures text.Some? ==> r == Some(ClipWindow(text.value))
  {
    if text.None? {
      return None;
    }
    var buf := CopyText(text.value);
    ghost var b := buf[..];
    var ssec, e1 := ScanNumber(buf, 0, b);
    var snsec, e2 := ScanNumber(buf, Next(e1), b);
    var esec, e3 := ScanNumber(buf, e2, b);
    var ensec, e4 := ScanNumber(buf, Next(e3), b);
    r := Some((Time(ssec, snsec), Time(esec, ensec)));
  }

  // The time entries

  datatype TimeInterval = TimeInterval(startTime: Time, endTime: Time)

  /** A TimeWindow without its floating-point copy of the width. */
  datatype TimeWindow = TimeWindow(startTime: Time, timeWidth: Time, endTime: Time)

  /** A trace span of normal times, not reversed. */
  predicate SpanOk(span: TimeInterval)
  {
    Normal(span.startTime) && Normal(span.endTime) && LessEq(span.startTime, span.endTime)
  }

  /** The window time_change_manager accepts (start before end), inside
   *  the span, with its width the difference of its ends. */
  predicate WindowIn(w: TimeWindow, span: TimeInterval)
  {
    Normal(w.startTime) && Normal(w.endTime) &&
    LessEq(span.startTime, w.startTime) && Less(w.startTime, w.endTime) &&
    LessEq(w.endTime, span.endTime) && w.timeWidth == Sub(w.endTime, w.startTime)
  }

  /** The seconds a spin button accepts: its range is the span's seconds. */
  predicate SecondsInSpan(value: nat, span: TimeInterval)
  {
    span.startTime.sec <= value <= span.endTime.sec
  }

  /** tv_nsec - 1 on an unsigned long. */
  function ULongPred(n: nat): nat { if n == 0 then ULongMax else n - 1 }

  /** One nanosecond before and after a time. */
  function Before(t: Time): (r: Time)
    requires Normal(t) && t != Zero
    ensures Normal(r) && Less(r, t) && Nanos(r) + 1 == Nanos(t)
  {
    if t.nsec > 0 then Time(t.sec, t.nsec - 1) else Time(t.sec - 1, NanosecondsPerSecond - 1)
  }

  function After(t: Time): (r: Time)
    requires Normal(t)
    ensures Normal(r) && Less(t, r) && Nanos(r) == Nanos(t) + 1
  {
    if t.nsec < NanosecondsPerSecond - 1 then Time(t.sec, t.nsec + 1) else Time(t.sec + 1, 0)
  }

  /** The start nanoseconds of on_MEntry1_value_changed as written: below
   *  the span start they are raised to it, past the span end they become
   *  the end's nanoseconds minus one, unsigned. */
  function ClampStartAsWritten(st: Time, span: TimeInterval): Time
  {
    if st.sec == span.startTime.sec then
      if st.sec == span.endTime.sec then
        var n := if st.nsec > span.endTime.nsec then ULongPred(span.endTime.nsec) else st.nsec;
        Time(st.sec, if n < span.startTime.nsec then span.startTime.nsec else n)
      else Time(st.sec, if st.nsec < span.startTime.nsec then span.startTime.nsec else st.nsec)
    else if st.sec == span.endTime.sec then
      Time(st.sec, if st.nsec > span.endTime.nsec then ULongPred(span.endTime.nsec) else st.nsec)
    else st
  }

  /** On the span's last second, a start equal to the span end is kept:
   *  the window that follows has no width, which time_change_manager
   *  asserts against. */
  lemma StartClampKeepsSpanEndAsWritten()
    ensures ClampStartAsWritten(Time(3, 7), TimeInterval(Time(1, 0), Time(3, 7))) == Time(3, 7)
  {
  }

  /** When the span ends on a whole second, the clamp wraps the
   *  nanoseconds to ULONG_MAX: a start after the span end. */
  lemma StartClampWrapsAsWritten()
    ensures ClampStartAsWritten(Time(3, 7), TimeInterval(Time(1, 0), Time(3, 0))) == Time(3, ULongMax)
    ensures Less(Time(3, 0), Time(3, ULongMax))
  {
  }

  /** The clamp as its comment means it: a start at or after the span end
   *  becomes the last nanosecond before it. */
  function ClampStart(st: Time, span: TimeInterval): (r: Time)
    requires SpanOk(span) && Less(span.startTime, span.endTime) && Normal(st)
    requires SecondsInSpan(st.sec, span)
    ensures Normal(r) && LessEq(span.startTime, r) && Less(r, span.endTime)
    ensures LessEq(span.startTime, st) && Less(st, span.endTime) ==> r == st
  {
    if st.sec == span.startTime.sec then
      if st.sec == span.endTime.sec then
        var n := if st.nsec >= span.endTime.nsec then Before(span.endTime) else st;
        if n.nsec < span.startTime.nsec then Time(n.sec, span.startTime.nsec) else n
      else if st.nsec < span.startTime.nsec then Time(st.sec, span.startTime.nsec) else st
    else if st.sec == span.endTime.sec then
      if st.nsec >= span.endTime.nsec then Before(span.endTime) else st
    else st
  }

  /** The clamp only differs from the source on a start at or after the
   *  span end. */
  lemma ClampStartAgrees(st: Time, span: TimeInterval)
    requires SpanOk(span) && Less(span.startTime, span.endTime) && Normal(st)
    requires SecondsInSpan(st.sec, span) && Less(Time(st.sec, st.nsec), span.endTime)
    ensures ClampStart(st, span) == ClampStartAsWritten(st, span)
  {
  }

  /** A positive width moves a time forward. */
  lemma AddPositive(t: Time, w: Time)
    requires Normal(t) && Normal(w) && w != Zero
    ensures Less(t, Add(t, w))
  {
    NanosMonotonic(t, Add(t, w));
  }

  /** Taking a positive width off a time no smaller than it moves it back. */
  lemma SubPositive(t: Time, w: Time)
    requires Normal(t) && Normal(w) && w != Zero && LessEq(w, t)
    ensures Less(Sub(t, w), t)
  {
    NanosMonotonic(Sub(t, w), t);
    NanosMonotonic(w, t);
  }

  /** The width of a window is not zero. */
  lemma WidthPositive(w: TimeWindow, span: TimeInterval)
    requires WindowIn(w, span)
    ensures Normal(w.timeWidth) && w.timeWidth != Zero
  {
    NanosMonotonic(w.startTime, w.endTime);
  }

  /** on_MEntry1_value_changed: the start gets the new seconds and clamped
   *  nanoseconds; a start at or after the end pushes the end to the start
   *  plus the old width, or the span end if sooner; the width is the
   *  difference. */
  function StartSecondsChanged(w: TimeWindow, span: TimeInterval, value: nat): (r: TimeWindow)
    requires SpanOk(span) && Less(span.startTime, span.endTime)
    requires WindowIn(w, span) && SecondsInSpan(value, span)
    ensures WindowIn(r, span)
    ensures r.startTime == ClampStart(w.startTime.(sec := value), span)
    ensures Less(r.startTime, w.endTime) ==> r.endTime == w.endTime
    ensures !Less(r.startTime, w.endTime) ==> r.endTime == Min(Add(r.startTime, w.timeWidth), span.endTime)
  {
    var st := ClampStart(w.startTime.(sec := value), span);
    var e := if Compare(st, w.endTime) >= 0 then Min(Add(st, w.timeWidth), span.endTime) else w.endTime;
    WidthPositive(w, span);
    AddPositive(st, w.timeWidth);
    TimeWindow(st, Sub(e, st), e)
  }

  /** The end nanoseconds of on_MEntry3_value_changed as written: past the
   *  span end they become its nanoseconds, below the span start its
   *  nanoseconds plus one. */
  function ClampEndAsWritten(et: Time, span: TimeInterval): Time
  {
    if et.sec == span.startTime.sec then
      if et.sec == span.endTime.sec then
        var n := if et.nsec > span.endTime.nsec then span.endTime.nsec else et.nsec;
        Time(et.sec, if n < span.startTime.nsec then span.startTime.nsec + 1 else n)
      else Time(et.sec, if et.nsec < span.startTime.nsec then span.startTime.nsec + 1 else et.nsec)
    else if et.sec == span.endTime.sec then
      Time(et.sec, if et.nsec > span.endTime.nsec then span.endTime.nsec else et.nsec)
    else et
  }

  /** On the span's first second, an end equal to the span start is kept:
   *  the start is then pushed back to it and the window has no width. */
  lemma EndClampKeepsSpanStartAsWritten()
    ensures ClampEndAsWritten(Time(1, 4), TimeInterval(Time(1, 4), Time(3, 0))) == Time(1, 4)
  {
  }

  /** The end clamp with a strict bound at the span start: an end at or
   *  before it becomes the first nanosecond after it. */
  function ClampEnd(et: Time, span: TimeInterval): (r: Time)
    requires SpanOk(span) && Less(span.startTime, span.endTime) && Normal(et)
    requires SecondsInSpan(et.sec, span)
    ensures Normal(r) && Less(span.startTime, r) && LessEq(r, span.endTime)
    ensures Less(span.startTime, et) && LessEq(et, span.endTime) ==> r == et
  {
    if et.sec == span.startTime.sec then
      if et.sec == span.endTime.sec then
        var n := if et.nsec > span.endTime.nsec then span.endTime else et;
        if n.nsec <= span.startTime.nsec then After(span.startTime) else n
      else if et.nsec <= span.startTime.nsec then After(span.startTime) else et
    else if et.sec == span.endTime.sec then
      if et.nsec > span.endTime.nsec then span.endTime else et
    else et
  }

  /** The clamp only differs from the source on an end at or before the
   *  span start. */
  lemma ClampEndAgrees(et: Time, span: TimeInterval)
    requires SpanOk(span) && Less(span.startTime, span.endTime) && Normal(et)
    requires SecondsInSpan(et.sec, span) && Less(span.startTime, et)
    ensures ClampEnd(et, span) == ClampEndAsWritten(et, span)
  {
  }

  /** on_MEntry3_value_changed: the end gets the new seconds and clamped
   *  nanoseconds; an end at or before the start pulls the start to the
   *  end minus the old width, or the span start if later; the width is
   *  the difference. */
  function EndSecondsChanged(w: TimeWindow, span: TimeInterval, value: nat): (r: TimeWindow)
    requires SpanOk(span) && Less(span.startTime, span.endTime)
    requires WindowIn(w, span) && SecondsInSpan(value, span)
    ensures WindowIn(r, span)
    ensures r.endTime == ClampEnd(w.endTime.(sec := value), span)
    ensures Less(w.startTime, r.endTime) ==> r.startTime == w.startTime
    ensures !Less(w.startTime, r.endTime) && LessEq(w.timeWidth, r.endTime) ==>
      r.startTime == Max(Sub(r.endTime, w.timeWidth), span.startTime)
    ensures !Less(w.startTime, r.endTime) && Less(r.endTime, w.timeWidth) ==> r.startTime == span.startTime
  {
    var e := ClampEnd(w.endTime.(sec := value), span);
    WidthPositive(w, span);
    var back := if LessEq(w.timeWidth, e) then Sub(e, w.timeWidth) else Zero;
    assert LessEq(w.timeWidth, e) ==> Less(back, e) by {
      if LessEq(w.timeWidth, e) {
        SubPositive(e, w.timeWidth);
      }
    }
    var st := if Compare(w.startTime, e) >= 0 then Max(back, span.startTime) else w.startTime;
    TimeWindow(st, Sub(e, st), e)
  }

  /** ltt_time_sub on unsigned long fields: the nanoseconds borrow one
   *  second, and both fields wrap modulo 2^64 when t2 is later than t1. */
  function SubAsWritten(t1: Time, t2: Time): (r: Time)
    ensures LessEq(t2, t1) && Normal(t1) && Normal(t2) && t1.sec <= ULongMax ==> r == Sub(t1, t2)
    ensures Less(t1, t2) && Normal(t1) && Normal(t2) && t1.sec <= ULongMax && t2.sec <= ULongMax ==>
      r.sec == ULongModulus + t1.sec - t2.sec - (if t1.nsec < t2.nsec then 1 else 0)
  {
    var borrow := if t1.nsec < t2.nsec then 1 else 0;
    Time((t1.sec - t2.sec - borrow) % ULongModulus, (t1.nsec - t2.nsec + borrow * NanosecondsPerSecond) % ULongModulus)
  }

  /** on_MEntry3_value_changed as written: the pulled-back start is
   *  `end - width` on unsigned fields, which wraps when the new end is
   *  earlier than the width. */
  function EndSecondsChangedAsWritten(w: TimeWindow, span: TimeInterval, value: nat): TimeWindow
  {
    var e := ClampEndAsWritten(w.endTime.(sec := value), span);
    var st := if Compare(w.startTime, e) >= 0 then Max(SubAsWritten(e, w.timeWidth), span.startTime) else w.startTime;
    TimeWindow(st, SubAsWritten(e, st), e)
  }

  /** An end second below the window width: the start wraps to 2^64 - 30
   *  seconds, after the end, so time_change_manager's assertion that the
   *  start is before the end fails.  The corrected window starts at the
   *  span start. */
  lemma EndBeforeWidthWrapsAsWritten()
    ensures var span := TimeInterval(Time(1, 0), Time(100, 0));
      var r := EndSecondsChangedAsWritten(TimeWindow(Time(50, 0), Time(50, 0), Time(100, 0)), span, 20);
      r.startTime == Time(ULongModulus - 30, 0) && r.endTime == Time(20, 0) && !Less(r.startTime, r.endTime)
    ensures var span := TimeInterval(Time(1, 0), Time(100, 0));
      var r := EndSecondsChanged(TimeWindow(Time(50, 0), Time(50, 0), Time(100, 0)), span, 20);
      r.startTime == Time(1, 0) && r.endTime == Time(20, 0)
  {
  }

  /** Away from the clamp's span-start case and the wrap, the corrected
   *  window is the source's. */
  lemma EndSecondsChangedAgrees(w: TimeWindow, span: TimeInterval, value: nat)
    requires SpanOk(span) && Less(span.startTime, span.endTime) && span.endTime.sec <= ULongMax
    requires WindowIn(w, span) && SecondsInSpan(value, span)
    requires Less(span.startTime, w.endTime.(sec := value))
    requires LessEq(w.timeWidth, ClampEnd(w.endTime.(sec := value), span))
    ensures EndSecondsChanged(w, span, value) == EndSecondsChangedAsWritten(w, span, value)
  {
    var e := ClampEnd(w.endTime.(sec := value), span);
    ClampEndAgrees(w.endTime.(sec := value), span);
    assert e == ClampEndAsWritten(w.endTime.(sec := value), span);
    var r := EndSecondsChanged(w, span, value);
    assert LessEq(r.startTime, e);
  }

  /** on_MEntry5_value_changed: the current time gets the new seconds, and
   *  on the span's first and last seconds its nanoseconds are clamped to
   *  the span's. */
  function CurrentSecondsChanged(cur: Time, span: TimeInterval, value: nat): (r: Time)
    requires SpanOk(span) && Normal(cur) && SecondsInSpan(value, span)
    ensures Normal(r) && r.sec == value
    ensures LessEq(span.startTime, r) && LessEq(r, span.endTime)
    ensures value != span.startTime.sec && value != span.endTime.sec ==> r.nsec == cur.nsec
    ensures LessEq(span.startTime, Time(value, cur.nsec)) && LessEq(Time(value, cur.nsec), span.endTime) ==>
      r == Time(value, cur.nsec)
  {
    var c := cur.(sec := value);
    if c.sec == span.startTime.sec then
      if c.sec == span.endTime.sec then
        var n := if c.nsec > span.endTime.nsec then span.endTime.nsec else c.nsec;
        Time(c.sec, if n < span.startTime.nsec then span.startTime.nsec else n)
      else Time(c.sec, if c.nsec < span.startTime.nsec then span.startTime.nsec else c.nsec)
    else if c.sec == span.endTime.sec then
      Time(c.sec, if c.nsec > span.endTime.nsec then span.endTime.nsec else c.nsec)
    else c
  }

  /** The window and current time SetTraceset computes as written: a
   *  window outside the span starts at the span start, with the default
   *  width when that is shorter than the span (or the span is empty),
   *  else with the span's end time as its width. */
  function ResetWindowAsWritten(w: TimeWindow, cur: Time, span: TimeInterval): (TimeWindow, Time)
    requires SpanOk(span)
  {
    if Less(w.startTime, span.startTime) || Less(span.endTime, w.endTime) then
      var width :=
        if Less(DefaultTimeWidth, Sub(span.endTime, span.startTime)) || span.endTime == span.startTime
        then DefaultTimeWidth else span.endTime;
      (TimeWindow(span.startTime, width, Add(span.startTime, width)), span.startTime)
    else (w, cur)
  }

  /** As written, a trace shorter than the default width gets a window as
   *  wide as its end time, reaching far past the span. */
  lemma ResetOvershootsAsWritten()
    ensures var span := TimeInterval(Time(100, 0), Time(100, 5));
            var r := ResetWindowAsWritten(TimeWindow(Zero, Time(1, 0), Time(1, 0)), Zero, span);
            r.0.endTime == Time(200, 5) && Less(span.endTime, r.0.endTime)
  {
  }

  /** The reset with the span's length as the width of a short trace. */
  function ResetWindow(w: TimeWindow, cur: Time, span: TimeInterval): (r: (TimeWindow, Time))
    requires SpanOk(span)
    ensures !Less(w.startTime, span.startTime) && !Less(span.endTime, w.endTime) ==> r == (w, cur)
  {
    if Less(w.startTime, span.startTime) || Less(span.endTime, w.endTime) then
      var width :=
        if Less(DefaultTimeWidth, Sub(span.endTime, span.startTime)) || span.endTime == span.startTime
        then DefaultTimeWidth else Sub(span.endTime, span.startTime);
      (TimeWindow(span.startTime, width, Add(span.startTime, width)), span.startTime)
    else (w, cur)
  }

  /** A window outside a non-empty span is reset to one inside it that
   *  starts at the span start, with the current time there too; it covers
   *  the whole span when the span is no longer than the default width. */
  lemma ResetFitsSpan(w: TimeWindow, cur: Time, span: TimeInterval)
    requires SpanOk(span) && Less(span.startTime, span.endTime)
    requires Less(w.startTime, span.startTime) || Less(span.endTime, w.endTime)
    ensures var r := ResetWindow(w, cur, span);
            WindowIn(r.0, span) && r.0.startTime == span.startTime && r.1 == span.startTime &&
            (LessEq(Sub(span.endTime, span.startTime), DefaultTimeWidth) ==> r.0.endTime == span.endTime)
  {
    var len := Sub(span.endTime, span.startTime);
    var r := ResetWindow(w, cur, span);
    SubAdd(span.startTime, len);
    assert Add(span.startTime, len) == span.endTime by {
      NanosMonotonic(Add(span.startTime, len), span.endTime);
      NanosMonotonic(span.endTime, Add(span.startTime, len));
    }
    if Less(DefaultTimeWidth, len) {
      SubAdd(span.startTime, DefaultTimeWidth);
      AddPositive(span.startTime, DefaultTimeWidth);
      NanosMonotonic(DefaultTimeWidth, len);
      NanosMonotonic(Add(span.startTime, DefaultTimeWidth), span.endTime);
    } else {
      NanosMonotonic(span.startTime, span.endTime);
    }
  }
}
