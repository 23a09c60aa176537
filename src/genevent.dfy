/** The type rules of the event code generator (trunk/attic/genevent/
 *  genevent.c): which type descriptors have a size fixed at compile time,
 *  which need local size variables, how the base name of a generated
 *  identifier is composed in a PATH_MAX buffer, the alignment expression
 *  emitted per type, the parameter list of a logging function, the output
 *  file names and the argument check of main. The printers write to a FILE;
 *  here they return the text they would write. */
module GenEvent {
  import opened Wrappers

  /** PATH_MAX, the size of every name buffer. */
  const PathMax: nat := 4096

  /** EINVAL on Linux. */
  const EInval: int := 22

  datatype TypeKind =
    | IntFixed | UIntFixed | Char | UChar | Short | UShort | Int | UInt | Float | Pointer
    | Long | ULong | SizeT | SSizeT | OffT | Enum | Union | String | Sequence | Struct | Array
    | NoType

  /** A type_descriptor_t: its kind, its name when it is a named type, and
   *  its fields (the members of a struct or union, the element of an array
   *  or sequence at index 0). */
  datatype TypeDescriptor = TypeDescriptor(kind: TypeKind, typeName: Option<string>, fields: seq<FieldDescriptor>)
  datatype FieldDescriptor = FieldDescriptor(name: string, fieldType: TypeDescriptor)

  /** The kinds the switches list together with the C integer types. */
  predicate IsBasic(k: TypeKind) {
    k in {IntFixed, UIntFixed, Char, UChar, Short, UShort, Int, UInt, Float, Pointer,
          Long, ULong, SizeT, SSizeT, OffT, Enum}
  }

  /** The parser gives every array and sequence its element field. */
  ghost predicate WellFormed(td: TypeDescriptor)
    decreases td
  {
    ((td.kind == Array || td.kind == Sequence) ==> |td.fields| > 0) &&
    forall i :: 0 <= i < |td.fields| ==> WellFormed(td.fields[i].fieldType)
  }

  // ---------------------------------------------------------------------
  // Fixed size and locals
  // ---------------------------------------------------------------------

  /** has_type_fixed_size: Some(true) for a fixed size, Some(false) for a
   *  variable length, None where the C code fails its assertion on a type
   *  of kind NONE. A struct is decided by its first field that is not of
   *  fixed size, in order. */
  function FixedSize(td: TypeDescriptor): Option<bool>
    requires WellFormed(td)
    decreases td, 1
  {
    match td.kind
    case String => Some(false)
    case Sequence => Some(false)
    case Struct => FieldsFixedSize(td, 0)
    case Array => FixedSize(td.fields[0].fieldType)
    case NoType => None
    case _ => Some(true)
  }

  /** The loop over the fields of a struct from index i. */
  function FieldsFixedSize(td: TypeDescriptor, i: nat): Option<bool>
    requires WellFormed(td) && i <= |td.fields|
    decreases td, 0, |td.fields| - i
  {
    if i == |td.fields| then Some(true)
    else match FixedSize(td.fields[i].fieldType)
      case Some(true) => FieldsFixedSize(td, i + 1)
      case other => other
  }

  /** No type of kind NONE occurs in the descriptor. */
  ghost predicate NoNoType(td: TypeDescriptor)
    decreases td
  {
    td.kind != NoType && forall i :: 0 <= i < |td.fields| ==> NoNoType(td.fields[i].fieldType)
  }

  /** The size rule stated on its own: strings and sequences vary, a struct
   *  is fixed when all its fields are, an array when its element is, and
   *  everything else is fixed. */
  ghost predicate Fixed(td: TypeDescriptor)
    requires WellFormed(td)
    decreases td
  {
    match td.kind
    case String => false
    case Sequence => false
    case Struct => forall i :: 0 <= i < |td.fields| ==> Fixed(td.fields[i].fieldType)
    case Array => Fixed(td.fields[0].fieldType)
    case _ => true
  }

  /** On descriptors without NONE, has_type_fixed_size decides the rule. */
  lemma {:induction false} FixedSizeDecides(td: TypeDescriptor)
    requires WellFormed(td) && NoNoType(td)
    ensures FixedSize(td) == Some(Fixed(td))
    decreases td, 1
  {
    match td.kind
    case Struct => FieldsFixedSizeDecides(td, 0);
    case Array => FixedSizeDecides(td.fields[0].fieldType);
    case _ =>
  }

  lemma {:induction false} FieldsFixedSizeDecides(td: TypeDescriptor, i: nat)
    requires WellFormed(td) && NoNoType(td) && i <= |td.fields|
    ensures FieldsFixedSize(td, i) == Some(forall j :: i <= j < |td.fields| ==> Fixed(td.fields[j].fieldType))
    decreases td, 0, |td.fields| - i
  {
    if i < |td.fields| {
      FixedSizeDecides(td.fields[i].fieldType);
      FieldsFixedSizeDecides(td, i + 1);
    }
  }

  /** has_type_fixed_size as the C code runs it: a switch, with a loop
   *  over the fields of a struct that stops at the first one that is not
   *  of fixed size. */
  method HasTypeFixedSize(td: TypeDescriptor) returns (r: Option<bool>)
    requires WellFormed(td)
    ensures r == FixedSize(td)
    decreases td
  {
    match td.kind {
      case String => r := Some(false);
      case Sequence => r := Some(false);
      case Struct =>
        var i := 0;
        while i < |td.fields|
          invariant 0 <= i <= |td.fields|
          invariant FieldsFixedSize(td, 0) == FieldsFixedSize(td, i)
        {
          var f := HasTypeFixedSize(td.fields[i].fieldType);
          if f != Some(true) {
            return f;
          }
          i := i + 1;
        }
        r := Some(true);
      case Array => r := HasTypeFixedSize(td.fields[0].fieldType);
      case NoType => r := None;
      case _ => r := Some(true);
    }
  }

  /** has_type_local: whether the write function needs the local size and
   *  from variables; 1 for the basic kinds and, after an error message,
   *  for NONE. */
  function HasTypeLocal(k: TypeKind): (r: bool)
    ensures r <==> IsBasic(k) || k == NoType
  {
    match k
    case String => false
    case Sequence => false
    case Struct => false
    case Union => false
    case Array => false
    case _ => true
  }

  /** A type written through locals always has a fixed size; a union has a
   *  fixed size without locals. */
  lemma LocalsOnlyForFixed(td: TypeDescriptor)
    requires WellFormed(td) && td.kind != NoType
    ensures HasTypeLocal(td.kind) ==> FixedSize(td) == Some(true)
    ensures td.kind == Union ==> !HasTypeLocal(td.kind) && FixedSize(td) == Some(true)
  {
  }

  // ---------------------------------------------------------------------
  // Bounded string buffers
  // ---------------------------------------------------------------------

  function Min(a: nat, b: nat): nat { if a < b then a else b }

  /** The text a char[PATH_MAX] holds of s: at most PATH_MAX - 1 characters
   *  and the terminator. */
  function Truncated(s: string): (r: string)
    ensures |r| < PathMax && |r| <= |s| && r == s[..|r|]
    ensures |s| < PathMax ==> r == s
  {
    s[..Min(|s|, PathMax - 1)]
  }

  /** The index at which strncat(dest, src, n) writes its terminator, on a
   *  destination holding destLen characters. */
  function StrncatTerminator(destLen: nat, srcLen: nat, n: nat): nat {
    destLen + Min(srcLen, n)
  }

  /** The bound the generator passes to strncat, as written. */
  function StrncatBoundAsWritten(destLen: nat): int {
    PathMax - destLen
  }

  /** The bound that leaves room for the terminator. */
  function StrncatBound(destLen: nat): (n: nat)
    requires destLen < PathMax
    ensures StrncatTerminator(destLen, n + 1, n) < PathMax
  {
    PathMax - 1 - destLen
  }

  /** strncpy(buf, src, PATH_MAX), as written, terminates buf only when src
   *  is shorter than PATH_MAX. */
  function StrncpyTerminatedAsWritten(srcLen: nat): bool {
    srcLen < PathMax
  }

  /** As written, appending a name of PATH_MAX characters to an empty
   *  buffer puts its terminator at index PATH_MAX, one past the end of the
   *  char[PATH_MAX]; copying such a type name leaves no terminator. */
  lemma StrncatOverrunsAsWritten()
    ensures StrncatBoundAsWritten(0) == PathMax
    ensures StrncatTerminator(0, PathMax, StrncatBoundAsWritten(0) as nat) == PathMax
    ensures !StrncpyTerminatedAsWritten(PathMax)
  {
  }

  /** strncat with the bound corrected: the result always fits. */
  function Strncat(dest: string, src: string): (r: string)
    requires |dest| < PathMax
    ensures |r| < PathMax
    ensures |dest| + |src| < PathMax ==> r == dest + src
  {
    dest + src[..Min(|src|, StrncatBound(|dest|))]
  }

  /** Appending into the buffer is appending and then truncating. */
  lemma StrncatTruncates(dest: string, src: string)
    requires |dest| < PathMax
    ensures Strncat(dest, src) == Truncated(dest + src)
  {
    var k := Min(|src|, StrncatBound(|dest|));
    assert (dest + src)[..|dest| + k] == dest + src[..k];
  }

  lemma TruncatedAppend(x: string, y: string)
    ensures Truncated(Truncated(x) + y) == Truncated(x + y)
  {
    if |x| >= PathMax - 1 {
      assert (x + y)[..PathMax - 1] == x[..PathMax - 1];
    } else {
      assert Truncated(x) == x;
    }
  }

  // ---------------------------------------------------------------------
  // Base names
  // ---------------------------------------------------------------------

  /** Whether an unnamed type's base name puts "_" between the nest name
   *  and the field name: the nest name is not empty and does not already
   *  end in '_', and the field name is not empty. */
  predicate NeedsSeparator(nest: string, field: string) {
    |nest| != 0 && nest[|nest| - 1] != '_' && |field| != 0
  }

  /** The naming rule: a named type uses its name; an unnamed one joins the
   *  nest name and the field name. */
  function ComposedName(td: TypeDescriptor, nest: string, field: string): string {
    if td.typeName.Some? then td.typeName.value
    else nest + (if NeedsSeparator(nest, field) then "_" else "") + field
  }

  /** The base name print_type, print_type_alignment, print_type_write and
   *  the other printers build in their char basename[PATH_MAX], with the
   *  corrected bounds. */
  function BaseName(td: TypeDescriptor, nest: string, field: string): (r: string)
    requires |nest| < PathMax
    ensures r == Truncated(ComposedName(td, nest, field))
  {
    if td.typeName.Some? then Truncated(td.typeName.value)
    else
      var b := if NeedsSeparator(nest, field) then Strncat(nest, "_") else nest;
      BaseNameUnnamed(td, nest, field, b);
      Strncat(b, field)
  }

  lemma BaseNameUnnamed(td: TypeDescriptor, nest: string, field: string, b: string)
    requires |nest| < PathMax && td.typeName.None?
    requires b == if NeedsSeparator(nest, field) then Strncat(nest, "_") else nest
    ensures |b| < PathMax && Strncat(b, field) == Truncated(ComposedName(td, nest, field))
  {
    if NeedsSeparator(nest, field) {
      StrncatTruncates(nest, "_");
      StrncatTruncates(b, field);
      TruncatedAppend(nest + "_", field);
    } else {
      StrncatTruncates(nest, field);
      assert nest + "" + field == nest + field;
    }
  }

  /** A base name that fits the buffer is the rule's name, and a named
   *  type's name does not depend on where it is nested. */
  lemma BaseNameFits(td: TypeDescriptor, nest: string, field: string)
    requires |nest| < PathMax && |ComposedName(td, nest, field)| < PathMax
    ensures BaseName(td, nest, field) == ComposedName(td, nest, field)
    ensures td.typeName.Some? ==> BaseName(td, nest, field) == BaseName(td, "", "")
  {
  }

  /** Nesting never doubles the separator: a nest name ending in '_' is
   *  followed directly by the field name. */
  lemma NoDoubleSeparator(td: TypeDescriptor, nest: string, field: string)
    requires td.typeName.None? && |nest| > 0 && nest[|nest| - 1] == '_'
    ensures ComposedName(td, nest, field) == nest + field
  {
    assert nest + "" + field == nest + field;
  }

  // ---------------------------------------------------------------------
  // Alignment expressions
  // ---------------------------------------------------------------------

  /** print_type_alignment, as written, with typeText for what print_type
   *  prints for a basic type. An empty field name selects the object
   *  branch, where the ARRAY case falls through into STRING; None is the
   *  error return for NONE. */
  function TypeAlignmentAsWritten(td: TypeDescriptor, nest: string, field: string,
                                  objPrefix: string, typeText: string): Option<string>
    requires |nest| < PathMax
  {
    var b := BaseName(td, nest, field);
    if field == "" && td.kind == Array then
      Some("lttng_get_alignment_array_" + b + "(" + objPrefix + ")" + "sizeof(char)")
    else TypeAlignment(td, nest, field, objPrefix, typeText)
  }

  /** print_type_alignment with the ARRAY case of the object branch ending
   *  in its own break. */
  function TypeAlignment(td: TypeDescriptor, nest: string, field: string,
                         objPrefix: string, typeText: string): (r: Option<string>)
    requires |nest| < PathMax
    ensures r.None? <==> td.kind == NoType
  {
    var b := BaseName(td, nest, field);
    var isObject := field == "";
    match td.kind
    case Sequence =>
      Some("lttng_get_alignment_sequence_" + b + (if isObject then "(" + objPrefix else "(&" + objPrefix + field) + ")")
    case Struct =>
      Some("lttng_get_alignment_struct_" + b + (if isObject then "(" + objPrefix else "(&" + objPrefix + field) + ")")
    case Union =>
      Some("lttng_get_alignment_union_" + b + (if isObject then "(" + objPrefix else "(&" + objPrefix + field) + ")")
    case Array =>
      Some("lttng_get_alignment_array_" + b + "(" + objPrefix + field + ")")
    case String => Some("sizeof(char)")
    case NoType => None
    case _ => Some("sizeof(" + typeText + ")")
  }

  /** As written, the alignment of an array object is two expressions run
   *  together; corrected, it is the array call alone, the same text the
   *  field branch gives. */
  lemma ArrayAlignmentFallThrough(td: TypeDescriptor, nest: string, objPrefix: string, typeText: string)
    requires |nest| < PathMax && td.kind == Array
    ensures TypeAlignmentAsWritten(td, nest, "", objPrefix, typeText).value ==
            TypeAlignment(td, nest, "", objPrefix, typeText).value + "sizeof(char)"
    ensures TypeAlignmentAsWritten(td, nest, "", objPrefix, typeText) != TypeAlignment(td, nest, "", objPrefix, typeText)
    ensures TypeAlignment(td, nest, "", objPrefix, typeText) ==
            Some("lttng_get_alignment_array_" + BaseName(td, nest, "") + "(" + objPrefix + ")")
  {
    var a := TypeAlignment(td, nest, "", objPrefix, typeText).value;
    assert "lttng_get_alignment_array_" + BaseName(td, nest, "") + "(" + objPrefix + "" + ")" ==
           "lttng_get_alignment_array_" + BaseName(td, nest, "") + "(" + objPrefix + ")";
    assert |a + "sizeof(char)"| != |a|;
  }

  /** Every other kind gets the same alignment both ways. */
  lemma AlignmentAgreesElsewhere(td: TypeDescriptor, nest: string, field: string, objPrefix: string, typeText: string)
    requires |nest| < PathMax && (td.kind != Array || field != "")
    ensures TypeAlignmentAsWritten(td, nest, field, objPrefix, typeText) == TypeAlignment(td, nest, field, objPrefix, typeText)
  {
  }

  // ---------------------------------------------------------------------
  // Logging function parameters
  // ---------------------------------------------------------------------

  const TwoTabs: string := "\t\t"
  const DestTraceParam: string := "struct ltt_trace_struct *dest_trace"
  const TracefileIndexParam: string := "unsigned int tracefile_index"

  /** The parameters of trace_<event>: the destination trace when the event
   *  supports per-trace tracing, the tracefile index when it supports
   *  per-tracefile tracing, then one argument per field as print_arg
   *  writes it. */
  function Parameters(perTrace: bool, perTracefile: bool, args: seq<string>): seq<string> {
    (if perTrace then [TwoTabs + DestTraceParam] else []) +
    (if perTracefile then [TracefileIndexParam] else []) + args
  }

  /** ps joined by ",\n". */
  function Joined(ps: seq<string>): string {
    if |ps| == 0 then ""
    else if |ps| == 1 then ps[0]
    else Joined(ps[..|ps| - 1]) + ",\n" + ps[|ps| - 1]
  }

  /** The text between the parentheses: the joined parameters, or "void"
   *  when there are none. */
  function ParameterText(perTrace: bool, perTracefile: bool, args: seq<string>): string {
    var ps := Parameters(perTrace, perTracefile, args);
    if |ps| == 0 then TwoTabs + "void" else Joined(ps)
  }

  /** The parameter loop of print_event_logging_function: a separator before
   *  every parameter but the first, tracked by has_argument. The FILE is
   *  modelled by the text returned. */
  method PrintParameters(perTrace: bool, perTracefile: bool, args: seq<string>) returns (text: string)
    ensures text == ParameterText(perTrace, perTracefile, args)
  {
    var hasArgument := false;
    ghost var done: seq<string> := [];
    text := "";
    if perTrace {
      text := TwoTabs + DestTraceParam;
      hasArgument := true;
      done := [TwoTabs + DestTraceParam];
    }
    if perTracefile {
      if hasArgument {
        text := text + ",\n";
      }
      text := text + TracefileIndexParam;
      hasArgument := true;
      done := done + [TracefileIndexParam];
    }
    ghost var head := done;
    assert Parameters(perTrace, perTracefile, args) == head + args;
    for j := 0 to |args|
      invariant done == head + args[..j]
      invariant hasArgument <==> |done| > 0
      invariant text == Joined(done)
    {
      if hasArgument {
        text := text + ",\n";
      }
      text := text + args[j];
      hasArgument := true;
      assert (done + [args[j]])[..|done|] == done;
      done := done + [args[j]];
      assert args[..j + 1] == args[..j] + [args[j]];
    }
    assert args[..|args|] == args;
    if !hasArgument {
      text := TwoTabs + "void";
    }
  }

  /** "void" appears exactly when there is no parameter at all, for any
   *  arguments other than the text "void" itself (print_arg always writes
   *  a type followed by a parameter name). */
  lemma VoidIffNoParameters(perTrace: bool, perTracefile: bool, args: seq<string>)
    requires forall i :: 0 <= i < |args| ==> args[i] != TwoTabs + "void"
    ensures ParameterText(perTrace, perTracefile, args) == TwoTabs + "void" <==>
            !perTrace && !perTracefile && |args| == 0
  {
    var ps := Parameters(perTrace, perTracefile, args);
    var v := TwoTabs + "void";
    if |ps| == 1 {
      if perTrace {
        assert ps[0] == TwoTabs + DestTraceParam && |ps[0]| != |v|;
      } else if perTracefile {
        assert ps[0] == TracefileIndexParam && |ps[0]| != |v|;
      } else {
        assert ps[0] == args[0];
      }
    } else if |ps| > 1 {
      var j := Joined(ps[..|ps| - 1]);
      assert Joined(ps) == j + ",\n" + ps[|ps| - 1];
      assert Joined(ps)[|j|] == ',';
      assert forall k :: 0 <= k < |v| ==> v[k] != ',';
    }
  }

  /** The joined text begins with the first parameter. */
  lemma {:induction false} JoinedStart(ps: seq<string>)
    requires |ps| > 0
    ensures |Joined(ps)| >= |ps[0]| && Joined(ps)[..|ps[0]|] == ps[0]
  {
    if |ps| > 1 {
      JoinedStart(ps[..|ps| - 1]);
      var j := Joined(ps[..|ps| - 1]);
      assert ps[..|ps| - 1][0] == ps[0];
      assert (j + ",\n" + ps[|ps| - 1])[..|ps[0]|] == j[..|ps[0]|];
    }
  }

  // ---------------------------------------------------------------------
  // Output files and arguments
  // ---------------------------------------------------------------------

  /** The name of an output file in print_log_header and the other header
   *  and loader printers: a prefix such as "ltt-facility-", the facility
   *  name, "_" and the architecture when the facility has one, and a
   *  suffix such as ".h", appended into a char[PATH_MAX]. */
  function OutputFileName(prefix: string, name: string, arch: Option<string>, suffix: string): (r: string)
    requires |prefix| < PathMax
    ensures r == Truncated(prefix + name + (if arch.Some? then "_" + arch.value else "") + suffix)
  {
    var f := Strncat(prefix, name);
    StrncatTruncates(prefix, name);
    var g := if arch.Some? then Strncat(Strncat(f, "_"), arch.value) else f;
    OutputFileNameArch(prefix, name, arch, f, g);
    StrncatTruncates(g, suffix);
    TruncatedAppend(prefix + name + (if arch.Some? then "_" + arch.value else ""), suffix);
    Strncat(g, suffix)
  }

  lemma OutputFileNameArch(prefix: string, name: string, arch: Option<string>, f: string, g: string)
    requires |prefix| < PathMax && f == Truncated(prefix + name)
    requires g == if arch.Some? then Strncat(Strncat(f, "_"), arch.value) else f
    ensures |g| < PathMax && g == Truncated(prefix + name + (if arch.Some? then "_" + arch.value else ""))
  {
    if arch.Some? {
      var h := Strncat(f, "_");
      StrncatTruncates(f, "_");
      TruncatedAppend(prefix + name, "_");
      StrncatTruncates(h, arch.value);
      TruncatedAppend(prefix + name + "_", arch.value);
      assert prefix + name + "_" + arch.value == prefix + name + ("_" + arch.value);
    } else {
      assert prefix + name + "" == prefix + name;
    }
  }

  /** The main header of a facility: ltt-facility-<name>[_<arch>].h. */
  lemma LogHeaderName(name: string, arch: string)
    requires |name| + |arch| < 100
    ensures OutputFileName("ltt-facility-", name, None, ".h") == "ltt-facility-" + name + ".h"
    ensures OutputFileName("ltt-facility-", name, Some(arch), ".h") == "ltt-facility-" + name + "_" + arch + ".h"
  {
    assert "ltt-facility-" + name + "" + ".h" == "ltt-facility-" + name + ".h";
    assert "ltt-facility-" + name + ("_" + arch) + ".h" == "ltt-facility-" + name + "_" + arch + ".h";
  }

  /** check_args: EINVAL without a file argument, -1 (stop, exit 0) for
   *  "-h", 0 to go on. */
  function CheckArgs(argv: seq<string>): (r: int)
    ensures r == EInval <==> |argv| < 2
    ensures r == -1 <==> |argv| >= 2 && argv[1] == "-h"
    ensures r == 0 <==> |argv| >= 2 && argv[1] != "-h"
  {
    if |argv| < 2 then EInval
    else if argv[1] == "-h" then -1
    else 0
  }

  /** What main makes of check_args: Some(status) to exit, None to open
   *  the facility file argv[1]. */
  function MainExit(argv: seq<string>): (r: Option<int>)
    ensures r.None? <==> |argv| >= 2 && argv[1] != "-h"
    ensures |argv| >= 2 && argv[1] == "-h" ==> r == Some(0)
  {
    var err := CheckArgs(argv);
    if err > 0 then Some(err) else if err < 0 then Some(0) else None
  }

  /** The help request and a missing argument both stop the program, with
   *  different statuses. */
  lemma HelpAndMissingDiffer(prog: string)
    ensures MainExit([prog]) == Some(EInval)
    ensures MainExit([prog, "-h"]) == Some(0)
  {
  }
}
