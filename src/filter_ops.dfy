/** The operators of the filter language of trunk/lttv/lttv/lttv/filter.c:
 *  the comparison each field gets for each operator
 *  (lttv_simple_expression_assign_operator) and the comparison functions
 *  (lttv_apply_op_*), which read the field through a pointer and the
 *  expression's value through the LttvFieldValue union. */
module FilterOps {
  import opened Wrappers
  import opened LttTime
  import opened FilterField

  const UInt32Modulus: nat := 0x1_0000_0000
  const UInt64Modulus: nat := 0x1_0000_0000_0000_0000

  type UInt32 = n: nat | n < UInt32Modulus
  type UInt64 = n: nat | n < UInt64Modulus

  /** A GQuark: 0 stands for no string. */
  type Quark = UInt32

  /** LttvExpressionOp. */
  datatype FieldOp = Eq | Ne | Lt | Le | Gt | Ge

  /** The operator that holds exactly when op does not. */
  function Negated(op: FieldOp): (r: FieldOp)
    ensures r != op
  {
    match op
    case Eq => Ne
    case Ne => Eq
    case Lt => Ge
    case Ge => Lt
    case Le => Gt
    case Gt => Le
  }

  /** The lttv_apply_op_* function se->op points to: on one quark, on a
   *  (channel, event) pair of quarks, on guint64, on guint, on LttTime. */
  datatype Comparison =
    | QuarkEq | QuarkNe
    | QuarksEq | QuarksNe
    | UInt64Cmp(op: FieldOp)
    | UIntCmp(op: FieldOp)
    | TimeCmp(op: FieldOp)

  /** The union member of se->value last written; Unset is the
   *  uninitialised union of lttv_simple_expression_new. */
  datatype FieldValue =
    | Unset
    | VQuark(q: Quark)
    | VQuarks(channel: Quark, name: Quark)
    | VUInt64(n: UInt64)
    | VUInt(u: UInt32)
    | VTime(t: Time)

  /** What lttv_filter_tree_parse_branch points the operator at. */
  datatype Operand =
    | OQuark(q: Quark)
    | OQuarks(channel: Quark, name: Quark)
    | OUInt64(n: UInt64)
    | OUInt(u: UInt32)
    | OTime(t: Time)

  /** Two GQuarks side by side read as one guint64, the first one in the
   *  low half (a little-endian host). */
  function Packed(low: Quark, high: Quark): (r: UInt64)
    ensures r % UInt32Modulus == low && r / UInt32Modulus == high
  {
    low + high * UInt32Modulus
  }

  lemma PackedInjective(a: Quark, b: Quark, c: Quark, d: Quark)
    ensures Packed(a, b) == Packed(c, d) <==> a == c && b == d
  {
  }

  /** The guint64 an operator of the uint64 family reads at the operand. */
  function OperandAsUInt64(x: Operand): (r: Option<UInt64>)
    ensures x.OUInt64? ==> r == Some(x.n)
    ensures x.OQuarks? ==> r == Some(Packed(x.channel, x.name))
  {
    match x
    case OUInt64(n) => Some(n)
    case OQuarks(a, b) => Some(Packed(a, b))
    case _ => None
  }

  /** v2.v_uint64: the union's first eight bytes, defined when they were
   *  last written as a guint64 or as the two quarks. */
  function ValueAsUInt64(v: FieldValue): (r: Option<UInt64>)
    ensures v.VUInt64? ==> r == Some(v.n)
    ensures v.VQuarks? ==> r == Some(Packed(v.channel, v.name))
  {
    match v
    case VUInt64(n) => Some(n)
    case VQuarks(a, b) => Some(Packed(a, b))
    case _ => None
  }

  /** The unsigned comparisons (*r OP v2.v_uint / v_uint64). */
  function CompareUnsigned(op: FieldOp, a: nat, b: nat): (r: bool)
  {
    match op
    case Eq => a == b
    case Ne => a != b
    case Lt => a < b
    case Le => a <= b
    case Gt => a > b
    case Ge => a >= b
  }

  /** The LttTime comparisons, on the -1/0/1 of ltt_time_compare: == 0,
   *  != 0, == -1, < 1, == 1 and > -1. */
  function CompareTimes(op: FieldOp, a: Time, b: Time): (r: bool)
  {
    var c := Compare(a, b);
    match op
    case Eq => c == 0
    case Ne => c != 0
    case Lt => c == -1
    case Le => c < 1
    case Gt => c == 1
    case Ge => c > -1
  }

  /** One lttv_apply_op_* call.  None stands for an operator reading a
   *  union member the value was not written as (an uninitialised read). */
  function ApplyOp(c: Comparison, x: Operand, v: FieldValue): (r: Option<bool>)
  {
    match c
    case QuarkEq => if x.OQuark? && v.VQuark? then Some(x.q == v.q) else None
    case QuarkNe => if x.OQuark? && v.VQuark? then Some(x.q != v.q) else None
    case QuarksEq =>
      if x.OQuarks? && v.VQuarks? then
        Some((x.channel == 0 || x.channel == v.channel) && x.name == v.name)
      else None
    case QuarksNe =>
      if x.OQuarks? && v.VQuarks? then
        Some(!((x.channel == 0 || x.channel == v.channel) && x.name == v.name))
      else None
    case UInt64Cmp(op) =>
      var a, b := OperandAsUInt64(x), ValueAsUInt64(v);
      if a.Some? && b.Some? then Some(CompareUnsigned(op, a.value, b.value)) else None
    case UIntCmp(op) => if x.OUInt? && v.VUInt? then Some(CompareUnsigned(op, x.u, v.u)) else None
    case TimeCmp(op) => if x.OTime? && v.VTime? then Some(CompareTimes(op, x.t, v.t)) else None
  }

  /** The comparison for the negated operator, family by family. */
  function NegatedComparison(c: Comparison): (r: Comparison)
    ensures r != c
  {
    match c
    case QuarkEq => QuarkNe
    case QuarkNe => QuarkEq
    case QuarksEq => QuarksNe
    case QuarksNe => QuarksEq
    case UInt64Cmp(op) => UInt64Cmp(Negated(op))
    case UIntCmp(op) => UIntCmp(Negated(op))
    case TimeCmp(op) => TimeCmp(Negated(op))
  }

  /** Negating twice gives the operator back. */
  lemma NegationInvolutive(op: FieldOp, c: Comparison)
    ensures Negated(Negated(op)) == op
    ensures NegatedComparison(NegatedComparison(c)) == c
  {
  }

  /** Each operator and its negation: defined on the same inputs, and of
   *  opposite results there (ne_quarks is the exact negation of eq_quarks,
   *  ge of lt, and so on). */
  lemma NegationComplements(c: Comparison, x: Operand, v: FieldValue)
    ensures ApplyOp(c, x, v).Some? <==> ApplyOp(NegatedComparison(c), x, v).Some?
    ensures ApplyOp(c, x, v).Some? ==>
      ApplyOp(NegatedComparison(c), x, v).value == !ApplyOp(c, x, v).value
  {
  }

  /** The LttTime comparisons are the order of LttTime. */
  lemma TimeComparisonsAreOrder(a: Time, b: Time)
    ensures ApplyOp(TimeCmp(Eq), OTime(a), VTime(b)) == Some(a == b)
    ensures ApplyOp(TimeCmp(Lt), OTime(a), VTime(b)) == Some(Less(a, b))
    ensures ApplyOp(TimeCmp(Le), OTime(a), VTime(b)) == Some(LessEq(a, b))
    ensures ApplyOp(TimeCmp(Gt), OTime(a), VTime(b)) == Some(Less(b, a))
    ensures ApplyOp(TimeCmp(Ge), OTime(a), VTime(b)) == Some(LessEq(b, a))
  {
    CompareAntisymmetric(a, b);
  }

  /** eq_quarks: an event on a tracefile with no name (quark 0) matches on
   *  the event name alone; otherwise the channel must match too.  A value
   *  written without a channel (q[0] == 0) therefore matches only events
   *  of such tracefiles. */
  lemma QuarksMatching(channel: Quark, name: Quark, v: FieldValue)
    requires v.VQuarks?
    ensures ApplyOp(QuarksEq, OQuarks(0, name), v) == Some(name == v.name)
    ensures channel != 0 ==>
      ApplyOp(QuarksEq, OQuarks(channel, name), v) == Some(channel == v.channel && name == v.name)
  {
  }

  /** The numeric kind of the value a field is compared with. */
  datatype Kind = KQuark | KQuarks | KUInt64 | KUInt | KTime

  /** The fields that take strings (as quarks), the channel.event pair,
   *  the 64-bit cycle count, unsigned ints and times. */
  function KindOf(f: Field): (r: Option<Kind>)
    ensures r.None? <==> f in {Undefined, EventCategory, EventField}
  {
    match f
    case TraceName | TracefileName | StateProcessName | StateThreadBrand
       | EventSubname | StateExecutionMode | StateExecutionSubmode
       | StateProcessStatus => Some(KQuark)
    case EventName => Some(KQuarks)
    case EventTsc => Some(KUInt64)
    case StateCpu | StatePid | StatePpid | EventTargetPid => Some(KUInt)
    case StateCreationTime | StateInsertionTime | EventTime => Some(KTime)
    case Undefined | EventCategory | EventField => None
  }

  /** lttv_simple_expression_assign_operator as written: the EVENT_NAME
   *  case has no break, so its = and != go on to the EVENT_TSC case and
   *  leave the uint64 comparison in se->op.  None is the FALSE return, with
   *  se->op left as it was. */
  function AssignOperatorAsWritten(f: Field, op: FieldOp): (r: Option<Comparison>)
  {
    if f == EventName && op !in {Eq, Ne} then None
    else if f == EventName then Some(UInt64Cmp(op))
    else AssignOperator(f, op)
  }

  /** assign_operator with the EVENT_NAME case ending in a break: a
   *  string-like field takes only = and != , the numeric and time fields
   *  all six operators, and the other fields none. */
  function AssignOperator(f: Field, op: FieldOp): (r: Option<Comparison>)
    ensures KindOf(f) in {Some(KQuark), Some(KQuarks)} ==> (r.Some? <==> op in {Eq, Ne})
    ensures KindOf(f) in {Some(KUInt64), Some(KUInt), Some(KTime)} ==> r.Some?
    ensures KindOf(f).None? ==> r.None?
  {
    match KindOf(f)
    case None => None
    case Some(KQuark) => if op == Eq then Some(QuarkEq) else if op == Ne then Some(QuarkNe) else None
    case Some(KQuarks) => if op == Eq then Some(QuarksEq) else if op == Ne then Some(QuarksNe) else None
    case Some(KUInt64) => Some(UInt64Cmp(op))
    case Some(KUInt) => Some(UIntCmp(op))
    case Some(KTime) => Some(TimeCmp(op))
  }

  /** The shape of operand parse_branch hands over for a field of a kind. */
  predicate OperandOfKind(x: Operand, k: Kind)
  {
    match k
    case KQuark => x.OQuark?
    case KQuarks => x.OQuarks?
    case KUInt64 => x.OUInt64?
    case KUInt => x.OUInt?
    case KTime => x.OTime?
  }

  /** The union member assign_value writes for a field of a kind. */
  predicate ValueOfKind(v: FieldValue, k: Kind)
  {
    match k
    case KQuark => v.VQuark?
    case KQuarks => v.VQuarks?
    case KUInt64 => v.VUInt64?
    case KUInt => v.VUInt?
    case KTime => v.VTime?
  }

  /** The comparison chosen for a field reads the operand and the value as
   *  the members they were written as: the result is always defined. */
  lemma AssignedOperatorIsDefined(f: Field, op: FieldOp, x: Operand, v: FieldValue)
    requires KindOf(f).Some? && AssignOperator(f, op).Some?
    requires OperandOfKind(x, KindOf(f).value) && ValueOfKind(v, KindOf(f).value)
    ensures ApplyOp(AssignOperator(f, op).value, x, v).Some?
  {
  }

  /** The fall-through leaves event.name=... comparing the packed pair with
   *  no channel wildcard: an event on an unnamed tracefile is rejected by
   *  the uint64 comparison while the quarks comparison accepts it.  On a
   *  named tracefile the two agree. */
  lemma EventNameFallThrough(name: Quark, channel: Quark, v: FieldValue)
    requires v.VQuarks? && v.channel != 0
    ensures AssignOperatorAsWritten(EventName, Eq) == Some(UInt64Cmp(Eq))
    ensures AssignOperator(EventName, Eq) == Some(QuarksEq)
    ensures ApplyOp(UInt64Cmp(Eq), OQuarks(0, v.name), v) == Some(false)
    ensures ApplyOp(QuarksEq, OQuarks(0, v.name), v) == Some(true)
    ensures channel != 0 ==>
      ApplyOp(UInt64Cmp(Eq), OQuarks(channel, name), v) == ApplyOp(QuarksEq, OQuarks(channel, name), v)
    ensures channel != 0 ==>
      ApplyOp(UInt64Cmp(Ne), OQuarks(channel, name), v) == ApplyOp(QuarksNe, OQuarks(channel, name), v)
  {
    PackedInjective(0, v.name, v.channel, v.name);
    PackedInjective(channel, name, v.channel, v.name);
  }

  /** Apart from event.name the two assignments agree. */
  lemma AssignOperatorAgrees(f: Field, op: FieldOp)
    requires f != EventName || op !in {Eq, Ne}
    ensures AssignOperatorAsWritten(f, op) == AssignOperator(f, op)
  {
  }
}
