/** The field paths of the filter language of trunk/lttv/lttv/lttv/filter.c:
 *  the order-keeping pointer-array removal, the field a dotted path names
 *  (lttv_simple_expression_assign_field) and the structure a field belongs
 *  to (lttv_struct_type).  filter.h is not part of this model: the fields
 *  and structure kinds are the names the C code switches on. */
module FilterField {
  import opened Wrappers

  /** ltt_g_ptr_array_remove_index_slow on the sequence of the array's
   *  elements: element index leaves, the others keep their order. */
  function RemovedAt<T>(s: seq<T>, index: nat): (r: seq<T>)
    requires index < |s|
    ensures |r| == |s| - 1
    ensures forall k :: 0 <= k < index ==> r[k] == s[k]
    ensures forall k :: index <= k < |r| ==> r[k] == s[k + 1]
  {
    s[..index] + s[index + 1..]
  }

  /** Putting the removed element back at its place gives the array back. */
  lemma RemovedAtReinsert<T>(s: seq<T>, index: nat)
    requires index < |s|
    ensures RemovedAt(s, index)[..index] + [s[index]] + RemovedAt(s, index)[index..] == s
  {
    var r := RemovedAt(s, index);
    var back := r[..index] + [s[index]] + r[index..];
    assert |back| == |s|;
    forall k | 0 <= k < |s| ensures back[k] == s[k] {
      if k > index { assert back[k] == r[k - 1]; }
    }
  }

  /** ltt_g_ptr_array_remove_index_slow on a GPtrArray whose first len slots
   *  hold its elements: NULL (None) on an empty array; otherwise the element
   *  at index, the later ones shifted down one slot and the length reduced
   *  by one.  The last slot keeps its old pointer, now beyond the length. */
  method RemoveIndexSlow<T>(a: array<T>, len: nat, index: nat) returns (ptr: Option<T>, newLen: nat)
    requires len <= a.Length
    requires len == 0 || index < len
    modifies a
    ensures len == 0 ==> ptr == None && newLen == 0 && a[..] == old(a[..])
    ensures len > 0 ==> ptr == Some(old(a[index])) && newLen == len - 1
    ensures len > 0 ==> a[..newLen] == RemovedAt(old(a[..len]), index)
    ensures len > 0 ==> a[newLen..] == old(a[newLen..])
  {
    if len == 0 {
      return None, 0;
    }
    ptr := Some(a[index]);
    var i := index;
    while i < len - 1
      invariant index <= i <= len - 1
      invariant forall k :: 0 <= k < index ==> a[k] == old(a[k])
      invariant forall k :: index <= k < i ==> a[k] == old(a[k + 1])
      invariant forall k :: i <= k < a.Length ==> a[k] == old(a[k])
    {
      a[i] := a[i + 1];
      i := i + 1;
    }
    newLen := len - 1;
    assert a[..newLen] == RemovedAt(old(a[..len]), index);
  }

  /** The fields of a simple expression (LTTV_FILTER_UNDEFINED ...
   *  LTTV_FILTER_EVENT_FIELD). */
  datatype Field =
    | Undefined
    | TraceName | TracefileName
    | StatePid | StatePpid | StateCreationTime | StateInsertionTime
    | StateProcessName | StateThreadBrand | StateExecutionMode
    | StateExecutionSubmode | StateProcessStatus | StateCpu
    | EventName | EventSubname | EventCategory | EventTime | EventTsc
    | EventTargetPid | EventField

  /** The structures a field is read from (LttvStructType). */
  datatype StructType = TraceStruct | TracefileStruct | EventStruct | StateStruct

  /** lttv_struct_type: None stands for the -1 of an unknown field. */
  function StructTypeOf(f: Field): (r: Option<StructType>)
    ensures r.None? <==> f == Undefined
  {
    match f
    case Undefined => None
    case TraceName => Some(TraceStruct)
    case TracefileName => Some(TracefileStruct)
    case StatePid | StatePpid | StateCreationTime | StateInsertionTime
       | StateProcessName | StateThreadBrand | StateExecutionMode
       | StateExecutionSubmode | StateProcessStatus | StateCpu => Some(StateStruct)
    case EventName | EventSubname | EventCategory | EventTime | EventTsc
       | EventTargetPid | EventField => Some(EventStruct)
  }

  /** tolower in the C locale. */
  function ToLowerAscii(c: char): (r: char)
    ensures 'A' <= c <= 'Z' ==> r as int == c as int + 32
    ensures !('A' <= c <= 'Z') ==> r == c
  {
    if 'A' <= c <= 'Z' then (c as int + 32) as char else c
  }

  /** A string with every ASCII capital lowered. */
  function Lowered(s: string): (r: string)
    ensures |r| == |s| && forall k :: 0 <= k < |s| ==> r[k] == ToLowerAscii(s[k])
  {
    seq(|s|, k requires 0 <= k < |s| => ToLowerAscii(s[k]))
  }

  /** !g_strcasecmp(a, b): equal once both are lowered.  Against the
   *  lower-case names of the filter language this is Lowered(a) == name,
   *  which is how the tests below are written. */
  predicate SameIgnoringCase(a: string, b: string)
  {
    Lowered(a) == Lowered(b)
  }

  predicate NoCapitals(s: string)
  {
    forall k :: 0 <= k < |s| ==> !('A' <= s[k] <= 'Z')
  }

  lemma LoweredNoCapitals(s: string)
    requires NoCapitals(s)
    ensures Lowered(s) == s
  {
  }

  /** Comparing with a lower-case name ignores case on the other side only. */
  lemma SameIgnoringCaseAsLowered(a: string, name: string)
    requires NoCapitals(name)
    ensures SameIgnoringCase(a, name) <==> Lowered(a) == name
  {
    LoweredNoCapitals(name);
  }

  /** The field named by the second component under "trace". */
  function TraceField(second: string, current: Field): Field
  {
    if second == "name" then TraceName else current
  }

  function TracefileField(second: string, current: Field): Field
  {
    if second == "name" then TracefileName else current
  }

  function StateField(second: string, current: Field): Field
  {
    if second == "pid" then StatePid
    else if second == "ppid" then StatePpid
    else if second == "creation_time" then StateCreationTime
    else if second == "insertion_time" then StateInsertionTime
    else if second == "process_name" then StateProcessName
    else if second == "thread_brand" then StateThreadBrand
    else if second == "execution_mode" then StateExecutionMode
    else if second == "execution_submode" then StateExecutionSubmode
    else if second == "process_status" then StateProcessStatus
    else if second == "cpu" then StateCpu
    else current
  }

  function EventSubfield(second: string, current: Field): Field
  {
    if second == "name" then EventName
    else if second == "subname" then EventSubname
    else if second == "category" then EventCategory
    else if second == "time" then EventTime
    else if second == "tsc" then EventTsc
    else if second == "target_pid" then EventTargetPid
    else if second == "field" then EventField
    else current
  }

  /** What assign_field leaves: the g_assert on the emptied path failed
   *  (FieldAbort), or its verdict, the expression's field and the path. */
  datatype FieldResult = FieldAbort | FieldDone(ok: bool, field: Field, rest: seq<string>)

  /** The field a path of at least two components names, starting from the
   *  field the expression already has. */
  function NamedField(path: seq<string>, current: Field): Field
    requires |path| >= 2
  {
    var first, second := Lowered(path[0]), Lowered(path[1]);
    if first == "trace" then TraceField(second, current)
    else if first == "traceset" then current
    else if first == "tracefile" || first == "channel" then TracefileField(second, current)
    else if first == "state" then StateField(second, current)
    else if first == "event" then EventSubfield(second, current)
    else current
  }

  /** How many components assign_field removes from a path of at least two
   *  as written: "traceset" leaves its second one in the array, and
   *  "event.field" removes a third when there is one. */
  function RemovedAsWritten(path: seq<string>): (n: nat)
    requires |path| >= 2
    ensures 1 <= n <= |path| && n <= 3
  {
    if Lowered(path[0]) == "traceset" then 1
    else if Lowered(path[0]) == "event" && Lowered(path[1]) == "field" then
      (if |path| >= 3 then 3 else 2)
    else 2
  }

  /** The same count with the second component of "traceset" removed too,
   *  as every other branch does. */
  function Removed(path: seq<string>): (n: nat)
    requires |path| >= 2
    ensures 2 <= n <= |path| && n <= 3
  {
    if Lowered(path[0]) == "event" && Lowered(path[1]) == "field" then
      (if |path| >= 3 then 3 else 2)
    else 2
  }

  /** lttv_simple_expression_assign_field as written: FALSE with the path
   *  untouched when it has fewer than two components; an abort when
   *  components are left after the ones the field consumed; otherwise an
   *  empty path and TRUE exactly when a field is set. */
  function AssignFieldAsWritten(path: seq<string>, current: Field): (r: FieldResult)
  {
    if |path| < 2 then FieldDone(false, current, path)
    else if RemovedAsWritten(path) < |path| then FieldAbort
    else
      var f := NamedField(path, current);
      FieldDone(f != Undefined, f, [])
  }

  /** assign_field with the "traceset" branch consuming its second
   *  component: that path is refused instead of aborting. */
  function AssignField(path: seq<string>, current: Field): (r: FieldResult)
    ensures |path| < 2 ==> r == FieldDone(false, current, path)
    ensures |path| >= 2 ==> (r.FieldAbort? <==> Removed(path) < |path|)
    ensures r.FieldDone? && |path| >= 2 ==>
      r.rest == [] && r.field == NamedField(path, current) && (r.ok <==> r.field != Undefined)
  {
    if |path| < 2 then FieldDone(false, current, path)
    else if Removed(path) < |path| then FieldAbort
    else
      var f := NamedField(path, current);
      FieldDone(f != Undefined, f, [])
  }

  /** "traceset.name" aborts the program as written; the path is refused
   *  once the second component is consumed. */
  lemma TracesetPathAborts()
    ensures AssignFieldAsWritten(["traceset", "name"], Undefined) == FieldAbort
    ensures AssignField(["traceset", "name"], Undefined) == FieldDone(false, Undefined, [])
  {
    LoweredNoCapitals("traceset");
    LoweredNoCapitals("name");
  }

  /** Away from "traceset" the two agree. */
  lemma AssignFieldAgrees(path: seq<string>, current: Field)
    requires |path| < 2 || Lowered(path[0]) != "traceset"
    ensures AssignFieldAsWritten(path, current) == AssignField(path, current)
  {
  }

  /** The canonical path of each field: "trace.name", "state.pid", ... */
  function PathOf(f: Field): (p: seq<string>)
    ensures |p| == 2
  {
    match f
    case Undefined => ["", ""]
    case TraceName => ["trace", "name"]
    case TracefileName => ["channel", "name"]
    case StatePid => ["state", "pid"]
    case StatePpid => ["state", "ppid"]
    case StateCreationTime => ["state", "creation_time"]
    case StateInsertionTime => ["state", "insertion_time"]
    case StateProcessName => ["state", "process_name"]
    case StateThreadBrand => ["state", "thread_brand"]
    case StateExecutionMode => ["state", "execution_mode"]
    case StateExecutionSubmode => ["state", "execution_submode"]
    case StateProcessStatus => ["state", "process_status"]
    case StateCpu => ["state", "cpu"]
    case EventName => ["event", "name"]
    case EventSubname => ["event", "subname"]
    case EventCategory => ["event", "category"]
    case EventTime => ["event", "time"]
    case EventTsc => ["event", "tsc"]
    case EventTargetPid => ["event", "target_pid"]
    case EventField => ["event", "field"]
  }

  /** Every field is reached by its canonical path, from a fresh simple
   *  expression, with TRUE and an emptied path; its first component names
   *  the structure lttv_struct_type gives. */
  lemma {:induction false} PathOfRoundTrip(f: Field)
    requires f != Undefined
    ensures AssignField(PathOf(f), Undefined) == FieldDone(true, f, [])
    ensures StructTypeOf(f) == Some(StructOfComponent(PathOf(f)[0]))
  {
    var p := PathOf(f);
    PathLowered(f);
    assert Removed(p) == 2;
    NamedFieldOfPath(f);
  }

  /** The canonical paths are in lower case already. */
  lemma PathLowered(f: Field)
    requires f != Undefined
    ensures Lowered(PathOf(f)[0]) == PathOf(f)[0] && Lowered(PathOf(f)[1]) == PathOf(f)[1]
  {
    match f
    case TraceName | TracefileName => PathLoweredTraces(f);
    case StatePid | StatePpid | StateCreationTime | StateInsertionTime
       | StateProcessName | StateThreadBrand => PathLoweredProcess(f);
    case StateExecutionMode | StateExecutionSubmode | StateProcessStatus | StateCpu => PathLoweredModes(f);
    case EventName | EventSubname | EventCategory | EventTime => PathLoweredEvents(f);
    case EventTsc | EventTargetPid | EventField => PathLoweredEventData(f);
  }

  lemma PathLoweredTraces(f: Field)
    requires f.TraceName? || f.TracefileName?
    ensures Lowered(PathOf(f)[0]) == PathOf(f)[0] && Lowered(PathOf(f)[1]) == PathOf(f)[1]
  {
    match f
    case TraceName => LoweredNoCapitals("trace"); LoweredNoCapitals("name");
    case TracefileName => LoweredNoCapitals("channel"); LoweredNoCapitals("name");
  }

  lemma PathLoweredProcess(f: Field)
    requires f.StatePid? || f.StatePpid? || f.StateCreationTime? || f.StateInsertionTime?
          || f.StateProcessName? || f.StateThreadBrand?
    ensures Lowered(PathOf(f)[0]) == PathOf(f)[0] && Lowered(PathOf(f)[1]) == PathOf(f)[1]
  {
    match f
    case StatePid => LoweredNoCapitals("state"); LoweredNoCapitals("pid");
    case StatePpid => LoweredNoCapitals("state"); LoweredNoCapitals("ppid");
    case StateCreationTime => LoweredNoCapitals("state"); LoweredNoCapitals("creation_time");
    case StateInsertionTime => LoweredNoCapitals("state"); LoweredNoCapitals("insertion_time");
    case StateProcessName => LoweredNoCapitals("state"); LoweredNoCapitals("process_name");
    case StateThreadBrand => LoweredNoCapitals("state"); LoweredNoCapitals("thread_brand");
  }

  lemma PathLoweredModes(f: Field)
    requires f.StateExecutionMode? || f.StateExecutionSubmode? || f.StateProcessStatus? || f.StateCpu?
    ensures Lowered(PathOf(f)[0]) == PathOf(f)[0] && Lowered(PathOf(f)[1]) == PathOf(f)[1]
  {
    match f
    case StateExecutionMode => LoweredNoCapitals("state"); LoweredNoCapitals("execution_mode");
    case StateExecutionSubmode => LoweredNoCapitals("state"); LoweredNoCapitals("execution_submode");
    case StateProcessStatus => LoweredNoCapitals("state"); LoweredNoCapitals("process_status");
    case StateCpu => LoweredNoCapitals("state"); LoweredNoCapitals("cpu");
  }

  lemma PathLoweredEvents(f: Field)
    requires f.EventName? || f.EventSubname? || f.EventCategory? || f.EventTime?
    ensures Lowered(PathOf(f)[0]) == PathOf(f)[0] && Lowered(PathOf(f)[1]) == PathOf(f)[1]
  {
    match f
    case EventName => LoweredNoCapitals("event"); LoweredNoCapitals("name");
    case EventSubname => LoweredNoCapitals("event"); LoweredNoCapitals("subname");
    case EventCategory => LoweredNoCapitals("event"); LoweredNoCapitals("category");
    case EventTime => LoweredNoCapitals("event"); LoweredNoCapitals("time");
  }

  lemma PathLoweredEventData(f: Field)
    requires f.EventTsc? || f.EventTargetPid? || f.EventField?
    ensures Lowered(PathOf(f)[0]) == PathOf(f)[0] && Lowered(PathOf(f)[1]) == PathOf(f)[1]
  {
    match f
    case EventTsc => LoweredNoCapitals("event"); LoweredNoCapitals("tsc");
    case EventTargetPid => LoweredNoCapitals("event"); LoweredNoCapitals("target_pid");
    case EventField => LoweredNoCapitals("event"); LoweredNoCapitals("field");
  }

  /** The canonical path names its field, one structure at a time. */
  lemma NamedFieldOfPath(f: Field)
    requires f != Undefined
    ensures NamedField([Lowered(PathOf(f)[0]), Lowered(PathOf(f)[1])], Undefined) == f
  {
    PathLowered(f);
    if StructTypeOf(f) == Some(StateStruct) {
      StateFieldOfPath(f);
    } else if StructTypeOf(f) == Some(EventStruct) {
      EventFieldOfPath(f);
    }
  }

  lemma StateFieldOfPath(f: Field)
    requires StructTypeOf(f) == Some(StateStruct)
    ensures StateField(PathOf(f)[1], Undefined) == f
  {
  }

  lemma EventFieldOfPath(f: Field)
    requires StructTypeOf(f) == Some(EventStruct)
    ensures EventSubfield(PathOf(f)[1], Undefined) == f
  {
  }

  /** The structure the first component of a canonical path stands for. */
  function StructOfComponent(first: string): StructType
  {
    if first == "trace" then TraceStruct
    else if first == "channel" then TracefileStruct
    else if first == "state" then StateStruct
    else EventStruct
  }
}
