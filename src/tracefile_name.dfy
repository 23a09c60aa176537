/** Tracefile name parsing of trunk/lttv/ltt/tracefile.c
 *  (get_tracefile_name_number).  A kernel tracefile is named
 *  "<channel>_<cpu>", optionally as "flight-<channel>_<cpu>"; a userspace
 *  tracefile, whose name has no '_', is ".../.../<name>-<tid>.<pgid>.<creation>".
 *  The C code blanks the two '.' separators of the userspace form in place. */
module TracefileName {
  import opened CStdlib
  import opened Wrappers

  datatype TracefileName =
    | PerCpu(name: seq<char>, num: nat)
    | Userspace(name: seq<char>, tid: nat, pgid: nat, creation: nat)

  const FlightPrefix: seq<char> := "flight-"

  /** The leading-'/' loop runs while i < len-1, so it never skips the last
   *  character.  (For an empty name the unsigned len-1 is huge, but the
   *  loop stops at once on the terminating NUL.) */
  function SkipSlashes(s: seq<char>): (k: nat)
    ensures k <= |s| && (|s| > 0 ==> k < |s|)
    ensures forall i :: 0 <= i < k ==> s[i] == '/'
    ensures k < |s| - 1 ==> s[k] != '/'
  {
    if |s| <= 1 || s[0] != '/' then 0 else 1 + SkipSlashes(s[1..])
  }

  /** Index of the last occurrence of c, or -1. */
  function LastIndexOf(s: seq<char>, c: char): (j: int)
    ensures -1 <= j < |s|
    ensures j >= 0 ==> s[j] == c
    ensures forall k :: j < k < |s| ==> s[k] != c
  {
    if |s| == 0 then -1
    else if s[|s| - 1] == c then |s| - 1
    else LastIndexOf(s[..|s| - 1], c)
  }

  /** The forward search loop of the C code: the first index at or after i
   *  holding c, |s| when there is none, and i itself when i is already past
   *  the end. */
  function FindFrom(s: seq<char>, c: char, i: nat): (j: nat)
    ensures j >= i
    ensures i <= |s| ==> j <= |s|
    ensures i >= |s| ==> j == i
    ensures j < |s| ==> s[j] == c
    ensures forall k :: i <= k < j && k < |s| ==> s[k] != c
    decreases |s| - i
  {
    if i >= |s| || s[i] == c then i else FindFrom(s, c, i + 1)
  }

  /** The characters from index i, empty when i is past the end. */
  function Tail(s: seq<char>, i: nat): seq<char> { if i <= |s| then s[i..] else [] }

  function StripFlight(name: seq<char>): seq<char>
  {
    if |name| >= |FlightPrefix| && name[..|FlightPrefix|] == FlightPrefix
    then name[|FlightPrefix|..] else name
  }

  /** Index of the '-' that precedes the tid, after the first two '/'. */
  function DashIndex(n: seq<char>): nat
  {
    var i1 := FindFrom(n, '/', 0) + 1;
    var i2 := FindFrom(n, '/', i1) + 1;
    FindFrom(n, '-', i2)
  }

  /** Blank the character at j when j is inside s. */
  function BlankAt(s: seq<char>, j: nat): (r: seq<char>)
    ensures |r| == |s|
  {
    if j < |s| then s[j := ' '] else s
  }

  /** The userspace branch on the name n left after the leading '/': the
   *  parsed fields and the buffer with its '.' separators blanked.  Each
   *  stage takes the position its predecessor found as a parameter. */
  function UserspaceFields(n: seq<char>): (r: (Option<TracefileName>, seq<char>))
    ensures |r.1| == |n|
  {
    UserspaceFrom(n, DashIndex(n))
  }

  function UserspaceFrom(n: seq<char>, dash: nat): (r: (Option<TracefileName>, seq<char>))
    ensures |r.1| == |n|
  {
    if dash >= |n| then (None, n) else TidField(n, n, dash + 1)
  }

  /** Blank the '.' ending the tid, then read the tid. */
  function TidField(name: seq<char>, n: seq<char>, tidStart: nat): (r: (Option<TracefileName>, seq<char>))
    ensures |r.1| == |n|
  {
    var dot1 := FindFrom(n, '.', tidStart);
    TidRead(name, BlankAt(n, dot1), tidStart, dot1)
  }

  function TidRead(name: seq<char>, n1: seq<char>, tidStart: nat, dot1: nat): (r: (Option<TracefileName>, seq<char>))
    ensures |r.1| == |n1|
  {
    var tid := ReadField(n1, tidStart);
    if tid.None? then (None, n1) else PgidField(name, n1, dot1 + 1, tid.value)
  }

  /** Blank the '.' ending the pgid, then read the pgid and the creation. */
  function PgidField(name: seq<char>, n1: seq<char>, pgidStart: nat, tid: nat): (r: (Option<TracefileName>, seq<char>))
    ensures |r.1| == |n1|
  {
    var dot2 := FindFrom(n1, '.', pgidStart);
    PgidRead(name, BlankAt(n1, dot2), pgidStart, tid, dot2)
  }

  function PgidRead(name: seq<char>, n2: seq<char>, pgidStart: nat, tid: nat, dot2: nat): (r: (Option<TracefileName>, seq<char>))
    ensures r.1 == n2
  {
    (ReadCreation(n2, dot2 + 1, name, tid, ReadField(n2, pgidStart)), n2)
  }

  /** The per-CPU branch: n[u] is the last '_'. */
  function PerCpuFields(n: seq<char>, u: nat): (r: Option<TracefileName>)
    requires u < |n| && n[u] == '_'
    requires forall k :: u < k < |n| ==> n[k] != '_'
    ensures r.Some? ==> r.value.PerCpu? && r.value.num < UIntModulus
  {
    var (cpu, e) := StrToL(n[u + 1..]);
    if e == 0 || cpu == LongMin || cpu == LongMax then None
    else Some(PerCpu(StripFlight(n[..u]), cpu % UIntModulus))
  }

  /** get_tracefile_name_number on the whole name: the result (None is the
   *  return value -1) and the name buffer as the function leaves it. */
  function NameNumber(s: seq<char>): (r: (Option<TracefileName>, seq<char>))
    ensures |r.1| == |s|
  {
    var k := SkipSlashes(s);
    var n := s[k..];
    var u := LastIndexOf(n, '_');
    if u == -1 then
      var (res, n') := UserspaceFields(n);
      (res, s[..k] + n')
    else (PerCpuFields(n, u), s)
  }

  /** The C function: index loops over a mutable character buffer. */
  method GetTracefileNameNumber(raw: array<char>) returns (r: Option<TracefileName>)
    modifies raw
    ensures (r, raw[..]) == NameNumber(old(raw[..]))
  {
    ghost var s := raw[..];
    var k := SkipLeadingSlashes(raw);
    var u := FindLastUnderscore(raw, k);
    if u >= 0 {
      NameNumberPerCpu(s, k, u);
      r := PerCpuFields(raw[k..], u);
    } else {
      NameNumberUserspace(s, k);
      r := ParseUserspace(raw, k);
      JoinAt(raw[..], k);
    }
  }

  lemma NameNumberPerCpu(s: seq<char>, k: nat, u: int)
    requires k == SkipSlashes(s) && u == LastIndexOf(s[k..], '_') && u >= 0
    ensures NameNumber(s) == (PerCpuFields(s[k..], u), s)
  {
  }

  lemma NameNumberUserspace(s: seq<char>, k: nat)
    requires k == SkipSlashes(s) && LastIndexOf(s[k..], '_') == -1
    ensures NameNumber(s) == (UserspaceFields(s[k..]).0, s[..k] + UserspaceFields(s[k..]).1)
  {
  }

  lemma JoinAt(s: seq<char>, k: nat)
    requires k <= |s|
    ensures s == s[..k] + s[k..]
  {
  }

  method SkipLeadingSlashes(raw: array<char>) returns (k: nat)
    ensures k == SkipSlashes(raw[..])
  {
    ghost var s := raw[..];
    k := 0;
    while k < raw.Length - 1 && raw[k] == '/'
      invariant 0 <= k <= raw.Length && (raw.Length > 0 ==> k < raw.Length)
      invariant SkipSlashes(s) == k + SkipSlashes(s[k..])
      decreases raw.Length - k
    {
      assert s[k..][1..] == s[k + 1..];
      k := k + 1;
    }
  }

  /** The backward search for the last '_', -1 when there is none. */
  method FindLastUnderscore(raw: array<char>, k: nat) returns (i: int)
    requires k <= raw.Length
    ensures i == LastIndexOf(raw[k..], '_')
  {
    ghost var n := raw[k..];
    i := raw.Length - k - 1;
    assert n[..i + 1] == n;
    while i >= 0 && raw[k + i] != '_'
      invariant -1 <= i < |n|
      invariant LastIndexOf(n, '_') == LastIndexOf(n[..i + 1], '_')
    {
      assert n[..i + 1][..i] == n[..i];
      i := i - 1;
    }
  }

  /** The userspace branch: everything before offset k is left alone. */
  method ParseUserspace(raw: array<char>, k: nat) returns (r: Option<TracefileName>)
    requires k <= raw.Length
    modifies raw
    ensures r == UserspaceFields(old(raw[k..])).0
    ensures raw[k..] == UserspaceFields(old(raw[k..])).1
    ensures raw[..k] == old(raw[..k])
  {
    var name := raw[k..];
    var j := FindIndex(raw, k, '/', 0);
    j := FindIndex(raw, k, '/', j + 1);
    var dash := FindIndex(raw, k, '-', j + 1);
    assert dash == DashIndex(name);
    if dash >= raw.Length - k {
      UserspaceNoDash(name, dash);
      return None;
    }
    r := ReadUserspaceFields(raw, k, dash, name);
  }

  /** The tid, pgid and creation fields after the '-' at index dash. */
  method ReadUserspaceFields(raw: array<char>, k: nat, dash: nat, name: seq<char>)
    returns (r: Option<TracefileName>)
    requires k <= raw.Length && name == raw[k..]
    requires dash == DashIndex(name) && dash < |name|
    modifies raw
    ensures r == UserspaceFields(name).0 && raw[k..] == UserspaceFields(name).1
    ensures raw[..k] == old(raw[..k])
  {
    var tid, dot1;
    ghost var n1;
    tid, dot1, n1 := BlankAndRead(raw, k, dash + 1, name);
    if tid.None? {
      UserspaceBadTid(name, dash, n1, dot1);
      return None;
    }
    r := ReadPgidAndCreation(raw, k, dash, name, tid.value, dot1, n1);
  }

  /** The pgid and creation fields, once the tid has been read. */
  method ReadPgidAndCreation(raw: array<char>, k: nat, dash: nat, name: seq<char>, tid: nat,
                             dot1: nat, ghost n1: seq<char>)
    returns (r: Option<TracefileName>)
    requires k <= raw.Length && n1 == raw[k..]
    requires dash == DashIndex(name) && dash < |name|
    requires dot1 == FindFrom(name, '.', dash + 1) && n1 == BlankAt(name, dot1)
    requires ReadField(n1, dash + 1) == Some(tid)
    modifies raw
    ensures r == UserspaceFields(name).0 && raw[k..] == UserspaceFields(name).1
    ensures raw[..k] == old(raw[..k])
  {
    var pgid, dot2;
    ghost var n2;
    pgid, dot2, n2 := BlankAndRead(raw, k, dot1 + 1, n1);
    UserspaceComplete(name, dash, n1, dot1, tid, n2, dot2);
    r := ReadCreation(raw[k..], dot2 + 1, name, tid, pgid);
  }

  lemma UserspaceNoDash(n: seq<char>, dash: nat)
    requires dash == DashIndex(n) && dash >= |n|
    ensures UserspaceFields(n).0 == None && UserspaceFields(n).1 == n
  {
    UserspaceAt(n, dash);
  }

  lemma UserspaceBadTid(n: seq<char>, dash: nat, n1: seq<char>, dot1: nat)
    requires dash == DashIndex(n) && dash < |n|
    requires dot1 == FindFrom(n, '.', dash + 1) && n1 == BlankAt(n, dot1)
    requires ReadField(n1, dash + 1).None?
    ensures UserspaceFields(n).0 == None && UserspaceFields(n).1 == n1
  {
    UserspaceAt(n, dash);
    TidAt(n, n, dash + 1, n1, dot1);
  }

  lemma UserspaceComplete(n: seq<char>, dash: nat, n1: seq<char>, dot1: nat, tid: nat,
                          n2: seq<char>, dot2: nat)
    requires dash == DashIndex(n) && dash < |n|
    requires dot1 == FindFrom(n, '.', dash + 1) && n1 == BlankAt(n, dot1)
    requires ReadField(n1, dash + 1) == Some(tid)
    requires dot2 == FindFrom(n1, '.', dot1 + 1) && n2 == BlankAt(n1, dot2)
    ensures UserspaceFields(n).0 == ReadCreation(n2, dot2 + 1, n, tid, ReadField(n2, dot1 + 1))
    ensures UserspaceFields(n).1 == n2
    ensures ReadField(n2, dot1 + 1).Some? && ReadField(n2, dot2 + 1).Some? ==>
              UserspaceFields(n).0 == Some(Userspace(n, tid, ReadField(n2, dot1 + 1).value, ReadField(n2, dot2 + 1).value))
  {
    UserspaceToTid(n, dash, n1, dot1);
    TidToPgid(n, n1, dash + 1, dot1, tid, n2, dot2);
  }

  lemma UserspaceToTid(n: seq<char>, dash: nat, n1: seq<char>, dot1: nat)
    requires dash == DashIndex(n) && dash < |n|
    requires dot1 == FindFrom(n, '.', dash + 1) && n1 == BlankAt(n, dot1)
    ensures UserspaceFields(n) == TidRead(n, n1, dash + 1, dot1)
  {
    UserspaceAt(n, dash);
    TidAt(n, n, dash + 1, n1, dot1);
  }

  lemma TidToPgid(n: seq<char>, n1: seq<char>, tidStart: nat, dot1: nat, tid: nat,
                  n2: seq<char>, dot2: nat)
    requires ReadField(n1, tidStart) == Some(tid)
    requires dot2 == FindFrom(n1, '.', dot1 + 1) && n2 == BlankAt(n1, dot2)
    ensures TidRead(n, n1, tidStart, dot1) == PgidRead(n, n2, dot1 + 1, tid, dot2)
  {
    PgidAt(n, n1, dot1 + 1, tid, n2, dot2);
  }

  lemma UserspaceAt(n: seq<char>, dash: nat)
    requires dash == DashIndex(n)
    ensures UserspaceFields(n) == UserspaceFrom(n, dash)
  {}

  lemma TidAt(name: seq<char>, n: seq<char>, tidStart: nat, n1: seq<char>, dot1: nat)
    requires dot1 == FindFrom(n, '.', tidStart) && n1 == BlankAt(n, dot1)
    ensures TidField(name, n, tidStart) == TidRead(name, n1, tidStart, dot1)
  {}

  lemma PgidAt(name: seq<char>, n1: seq<char>, pgidStart: nat, tid: nat, n2: seq<char>, dot2: nat)
    requires dot2 == FindFrom(n1, '.', pgidStart) && n2 == BlankAt(n1, dot2)
    ensures PgidField(name, n1, pgidStart, tid) == PgidRead(name, n2, pgidStart, tid, dot2)
  {}

  /** One numeric field: strtoul from index from, with its two failure
   *  checks (no digit read, ULONG_MAX). */
  function ReadField(n: seq<char>, from: nat): Option<nat>
  {
    var x := ScanULong(n, from, Blanks);
    if x.None? || x.value == ULongMax then None else x
  }

  /** ReadField is strtoul on the characters from index from, rejected when
   *  the end pointer did not move or the value is ULONG_MAX. */
  lemma ReadFieldIsStrToUL(n: seq<char>, from: nat)
    ensures ReadField(n, from) ==
              var x := StrToUL(Tail(n, from));
              if x.1 == 0 || x.0 == ULongMax then None else Some(x.0)
  {
    ScanULongIsStrToUL(n, from);
  }

  /** The last field, read from the twice-blanked buffer. */
  function ReadCreation(n2: seq<char>, from: nat, name: seq<char>, tid: nat, pgid: Option<nat>): Option<TracefileName>
  {
    if pgid.None? then None
    else
      var creation := ReadField(n2, from);
      if creation.None? then None
      else Some(Userspace(name, tid, pgid.value, creation.value))
  }

  /** Search the next '.' from index from, blank it, and read the number
   *  that starts at from; cur is the name part on entry. */
  method BlankAndRead(raw: array<char>, k: nat, from: nat, ghost cur: seq<char>)
    returns (v: Option<nat>, dot: nat, ghost after: seq<char>)
    requires k <= raw.Length && cur == raw[k..]
    modifies raw
    ensures raw[..k] == old(raw[..k]) && after == raw[k..]
    ensures dot == FindFrom(cur, '.', from)
    ensures after == BlankAt(cur, dot)
    ensures v == ReadField(after, from)
  {
    dot := FindIndex(raw, k, '.', from);
    if dot < raw.Length - k { raw[k + dot] := ' '; }
    after := raw[k..];
    v := ReadField(raw[k..], from);
  }

  /** The first index at or after from where the name starting at offset k
   *  holds c, or the name's length. */
  method FindIndex(raw: array<char>, k: nat, c: char, from: nat) returns (j: nat)
    requires k <= raw.Length
    ensures j == FindFrom(raw[k..], c, from)
  {
    j := from;
    while j < raw.Length - k && raw[k + j] != c
      invariant j >= from
      invariant FindFrom(raw[k..], c, from) == FindFrom(raw[k..], c, j)
      decreases raw.Length - k - j
    {
      j := j + 1;
    }
  }

  // ---------------------------------------------------------------------
  // Round trips: the names LTT writes are parsed back into their parts.

  function Slashes(m: nat): (s: seq<char>)
    ensures |s| == m && forall i :: 0 <= i < m ==> s[i] == '/'
  {
    if m == 0 then [] else Slashes(m - 1) + ['/']
  }

  lemma {:induction false} SkipSlashesOver(m: nat, rest: seq<char>)
    requires |rest| > 0 && rest[0] != '/'
    ensures SkipSlashes(Slashes(m) + rest) == m
    ensures (Slashes(m) + rest)[m..] == rest
  {
    if m > 0 {
      var s := Slashes(m) + rest;
      assert s[1..] == Slashes(m - 1) + rest by {
        assert Slashes(m) == ['/'] + Slashes(m - 1) by { SlashesCons(m); }
      }
      SkipSlashesOver(m - 1, rest);
    }
  }

  lemma {:induction false} SlashesCons(m: nat)
    requires m > 0
    ensures Slashes(m) == ['/'] + Slashes(m - 1)
  {
    if m > 1 { SlashesCons(m - 1); }
  }

  lemma DecimalHasNo(n: nat, c: char)
    requires !IsDigit(c)
    ensures forall i :: 0 <= i < |Decimal(n)| ==> Decimal(n)[i] != c
  {
  }

  /** A kernel tracefile "<channel>_<cpu>" (any number of leading '/')
   *  gives back the channel, without a "flight-" prefix, and the cpu; the
   *  buffer is left as it was. */
  lemma PerCpuRoundTrip(m: nat, channel: seq<char>, cpu: nat)
    requires |channel| == 0 || channel[0] != '/'
    requires forall i :: 0 <= i < |channel| ==> channel[i] != '_'
    requires cpu < LongMax
    ensures NameNumber(Slashes(m) + channel + "_" + Decimal(cpu))
         == (Some(PerCpu(StripFlight(channel), cpu % UIntModulus)), Slashes(m) + channel + "_" + Decimal(cpu))
  {
    var n := channel + "_" + Decimal(cpu);
    assert Slashes(m) + channel + "_" + Decimal(cpu) == Slashes(m) + n;
    assert n[0] != '/';
    SkipSlashesOver(m, n);
    DecimalHasNo(cpu, '_');
    assert n[|channel|] == '_';
    assert LastIndexOf(n, '_') == |channel|;
    PerCpuFieldsOf(channel, cpu);
  }

  lemma PerCpuFieldsOf(channel: seq<char>, cpu: nat)
    requires forall i :: 0 <= i < |channel| ==> channel[i] != '_'
    requires cpu < LongMax
    ensures forall k :: |channel| < k < |channel + "_" + Decimal(cpu)| ==>
              (channel + "_" + Decimal(cpu))[k] != '_'
    ensures PerCpuFields(channel + "_" + Decimal(cpu), |channel|)
         == Some(PerCpu(StripFlight(channel), cpu % UIntModulus))
  {
    var n := channel + "_" + Decimal(cpu);
    DecimalHasNo(cpu, '_');
    assert n[|channel| + 1..] == Decimal(cpu) + [];
    StrToLOfDecimal(cpu, []);
    assert n[..|channel|] == channel;
  }

  /** The first occurrence of c at or after i is found. */
  lemma {:induction false} FindFromAt(s: seq<char>, c: char, i: nat, j: nat)
    requires i <= j < |s| && s[j] == c
    requires forall k :: i <= k < j ==> s[k] != c
    ensures FindFrom(s, c, i) == j
    decreases j - i
  {
    if i < j { FindFromAt(s, c, i + 1, j); }
  }

  /** A field "<v>.<rest>" at index start: its '.' is found and blanked, and
   *  the field reads back as v. */
  lemma FieldAt(s: seq<char>, start: nat, v: nat, rest: seq<char>, dot: nat, s1: seq<char>)
    requires start <= |s| && s[start..] == Decimal(v) + "." + rest
    requires v < ULongMax
    requires dot == start + |Decimal(v)| && s1 == BlankAt(s, dot)
    ensures FindFrom(s, '.', start) == dot
    ensures ReadField(s1, start) == Some(v)
    ensures dot + 1 <= |s1| && s1[dot + 1..] == rest
  {
    var d := Decimal(v);
    FieldDot(s, start, d, rest);
    FieldBlank(s, start, d, rest);
    FieldRead(s1, start, v, [' '] + rest);
  }

  lemma FieldDot(s: seq<char>, start: nat, d: seq<char>, rest: seq<char>)
    requires start <= |s| && s[start..] == d + "." + rest && AllDigits(d)
    ensures FindFrom(s, '.', start) == start + |d|
  {
    var dot := start + |d|;
    forall k | start <= k < dot
      ensures s[k] != '.'
    {
      assert s[k] == s[start..][k - start] == d[k - start];
    }
    assert s[dot] == s[start..][|d|] == '.';
    FindFromAt(s, '.', start, dot);
  }

  lemma FieldBlank(s: seq<char>, start: nat, d: seq<char>, rest: seq<char>)
    requires start <= |s| && s[start..] == d + "." + rest
    ensures BlankAt(s, start + |d|)[start..] == d + ([' '] + rest)
    ensures BlankAt(s, start + |d|)[start + |d| + 1..] == rest
  {
    var dot := start + |d|;
    assert s[dot + 1..] == s[start..][|d| + 1..] == rest;
  }

  lemma FieldRead(s: seq<char>, start: nat, v: nat, rest: seq<char>)
    requires start <= |s| && s[start..] == Decimal(v) + rest
    requires |rest| == 0 || !IsDigit(rest[0])
    requires v < ULongMax
    ensures ReadField(s, start) == Some(v)
  {
    StrToULOfDecimal(v, rest);
    ReadFieldIsStrToUL(s, start);
  }

  /** The last field "<v>" reads back as v. */
  lemma LastFieldAt(s: seq<char>, start: nat, v: nat)
    requires start <= |s| && s[start..] == Decimal(v)
    requires v < ULongMax
    ensures ReadField(s, start) == Some(v)
  {
    assert s[start..] == Decimal(v) + [];
    FieldRead(s, start, v, []);
  }

  /** The path part "<a>/<b>/<c>" of a userspace name puts the '-' right
   *  after it. */
  lemma DashOf(a: seq<char>, b: seq<char>, c: seq<char>, rest: seq<char>)
    requires '/' !in a && '/' !in b && '-' !in c
    requires |rest| > 0 && rest[0] == '-'
    ensures DashIndex(a + "/" + b + "/" + c + rest) == |a| + |b| + |c| + 2
  {
    var n := a + "/" + b + "/" + c + rest;
    forall k | 0 <= k < |a| ensures n[k] != '/' { assert n[k] == a[k]; }
    FindFromAt(n, '/', 0, |a|);
    forall k | |a| + 1 <= k < |a| + 1 + |b| ensures n[k] != '/' { assert n[k] == b[k - |a| - 1]; }
    FindFromAt(n, '/', |a| + 1, |a| + 1 + |b|);
    var i2 := |a| + |b| + 2;
    forall k | i2 <= k < i2 + |c| ensures n[k] != '-' { assert n[k] == c[k - i2]; }
    assert n[i2 + |c|] == rest[0];
    FindFromAt(n, '-', i2, i2 + |c|);
  }

  /** A userspace tracefile "<a>/<b>/<c>-<tid>.<pgid>.<creation>" gives
   *  back its three numbers, under its own full name. */
  lemma UserspaceRoundTrip(a: seq<char>, b: seq<char>, c: seq<char>, tid: nat, pgid: nat, creation: nat)
    requires '/' !in a && '/' !in b && '-' !in c
    requires tid < ULongMax && pgid < ULongMax && creation < ULongMax
    ensures var n := a + "/" + b + "/" + c + "-" + Decimal(tid) + "." + Decimal(pgid) + "." + Decimal(creation);
            UserspaceFields(n).0 == Some(Userspace(n, tid, pgid, creation))
  {
    var t, p, q := Decimal(tid), Decimal(pgid), Decimal(creation);
    var n := a + "/" + b + "/" + c + "-" + t + "." + p + "." + q;
    var dash := UserspaceLayout(a, b, c, t, p, q);
    UserspaceOf(n, dash, tid, pgid, creation);
  }

  /** Where the '-' of a userspace name is, and what follows it. */
  lemma UserspaceLayout(a: seq<char>, b: seq<char>, c: seq<char>, t: seq<char>, p: seq<char>, q: seq<char>)
    returns (dash: nat)
    requires '/' !in a && '/' !in b && '-' !in c
    ensures var n := a + "/" + b + "/" + c + "-" + t + "." + p + "." + q;
            dash == DashIndex(n) && dash < |n| && n[dash + 1..] == t + "." + (p + "." + q)
  {
    Reassociate(a, b, c, t, p, q);
    DashOf(a, b, c, "-" + (t + "." + (p + "." + q)));
    dash := |a| + |b| + |c| + 2;
  }

  lemma Reassociate(a: seq<char>, b: seq<char>, c: seq<char>, t: seq<char>, p: seq<char>, q: seq<char>)
    ensures var n := a + "/" + b + "/" + c + "-" + t + "." + p + "." + q;
            n == a + "/" + b + "/" + c + ("-" + (t + "." + (p + "." + q))) &&
            n[|a| + |b| + |c| + 3..] == t + "." + (p + "." + q)
  {
    var x := a + "/" + b + "/" + c;
    var n := a + "/" + b + "/" + c + "-" + t + "." + p + "." + q;
    assert n == x + ("-" + (t + "." + (p + "." + q)));
    assert n[|x| + 1..] == t + "." + (p + "." + q);
  }

  /** The three fields after the '-' at index dash read back. */
  lemma UserspaceOf(n: seq<char>, dash: nat, tid: nat, pgid: nat, creation: nat)
    requires dash == DashIndex(n) && dash < |n|
    requires n[dash + 1..] == Decimal(tid) + "." + (Decimal(pgid) + "." + Decimal(creation))
    requires tid < ULongMax && pgid < ULongMax && creation < ULongMax
    ensures UserspaceFields(n).0 == Some(Userspace(n, tid, pgid, creation))
  {
    var dot1 := dash + 1 + |Decimal(tid)|;
    var n1 := BlankAt(n, dot1);
    var dot2 := dot1 + 1 + |Decimal(pgid)|;
    var n2 := BlankAt(n1, dot2);
    ThreeFields(n, dash, tid, pgid, creation, dot1, n1, dot2, n2);
    UserspaceComplete(n, dash, n1, dot1, tid, n2, dot2);
  }

  lemma ThreeFields(n: seq<char>, dash: nat, tid: nat, pgid: nat, creation: nat,
                    dot1: nat, n1: seq<char>, dot2: nat, n2: seq<char>)
    requires dash < |n|
    requires n[dash + 1..] == Decimal(tid) + "." + (Decimal(pgid) + "." + Decimal(creation))
    requires tid < ULongMax && pgid < ULongMax && creation < ULongMax
    requires dot1 == dash + 1 + |Decimal(tid)| && n1 == BlankAt(n, dot1)
    requires dot2 == dot1 + 1 + |Decimal(pgid)| && n2 == BlankAt(n1, dot2)
    ensures dot1 == FindFrom(n, '.', dash + 1) && ReadField(n1, dash + 1) == Some(tid)
    ensures dot2 == FindFrom(n1, '.', dot1 + 1) && ReadField(n2, dot1 + 1) == Some(pgid)
    ensures ReadField(n2, dot2 + 1) == Some(creation)
  {
    FieldAt(n, dash + 1, tid, Decimal(pgid) + "." + Decimal(creation), dot1, n1);
    LastTwoFields(n1, dot1, pgid, creation, dot2, n2);
  }

  lemma LastTwoFields(n1: seq<char>, dot1: nat, pgid: nat, creation: nat, dot2: nat, n2: seq<char>)
    requires dot1 + 1 <= |n1| && n1[dot1 + 1..] == Decimal(pgid) + "." + Decimal(creation)
    requires pgid < ULongMax && creation < ULongMax
    requires dot2 == dot1 + 1 + |Decimal(pgid)| && n2 == BlankAt(n1, dot2)
    ensures dot2 == FindFrom(n1, '.', dot1 + 1) && ReadField(n2, dot1 + 1) == Some(pgid)
    ensures ReadField(n2, dot2 + 1) == Some(creation)
  {
    FieldAt(n1, dot1 + 1, pgid, Decimal(creation), dot2, n2);
    LastFieldAt(n2, dot2 + 1, creation);
  }

  // ---------------------------------------------------------------------
  // The '-' guard.  The C code rejects the name only when the index of the
  // '-' equals the length; with fewer than two '/' the two increments
  // after the '/' searches carry the index past the end, and the field
  // reads start beyond the terminating NUL.

  /** The guard as written: reject only when the index equals the length. */
  predicate DashGuardRejectsAsWritten(n: seq<char>)
  {
    DashIndex(n) == |n|
  }

  /** A name without '/' slips through the guard with the index two past
   *  its end; "metadata" is one. */
  lemma DashGuardOvershoot(n: seq<char>)
    requires '/' !in n
    ensures !DashGuardRejectsAsWritten(n)
    ensures DashIndex(n) == |n| + 2
  {
    FindFromNone(n, '/', 0);
  }

  lemma DashGuardMetadata()
    ensures !DashGuardRejectsAsWritten("metadata")
  {
    DashGuardOvershoot("metadata");
  }

  lemma {:induction false} FindFromNone(s: seq<char>, c: char, i: nat)
    requires c !in s
    ensures FindFrom(s, c, i) == if i <= |s| then |s| else i
    decreases |s| - i
  {
    if i < |s| {
      assert s[i] in s;
      FindFromNone(s, c, i + 1);
    }
  }

  /** The guard the model uses rejects every index at or past the end, so a
   *  name with fewer than two '/' or no '-' after them is refused and no
   *  field is read outside the name. */
  lemma UserspaceNeedsDash(n: seq<char>)
    ensures DashIndex(n) >= |n| ==> UserspaceFields(n) == (None, n)
    ensures UserspaceFields(n).0.Some? ==> DashIndex(n) < |n| && '-' in n
  {
    UserspaceAt(n, DashIndex(n));
    if DashIndex(n) < |n| {
      assert n[DashIndex(n)] == '-';
    }
  }
}
