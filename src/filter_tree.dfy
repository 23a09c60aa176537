/** The filter trees of trunk/lttv/lttv/lttv/filter.c and their evaluation
 *  against one event: lttv_filter_tree_parse walks a tree in order, cuts
 *  off the right branch of an OR whose left is true and of an AND whose
 *  left is false, and lttv_filter_tree_parse_branch applies one simple
 *  expression to the structure its field belongs to. */
module FilterTree {
  import opened Wrappers
  import opened LttTime
  import opened FilterField
  import opened FilterOps

  /** The node operators (LTTV_LOGICAL_OR = 1, AND = 2, NOT = 4, XOR = 8);
   *  NoOp is the 0 of a fresh tree. */
  datatype LogicalOp = NoOp | Or | And | Not | Xor

  /** LttvSimpleExpression: the field, the comparison se->op points to
   *  (None for NULL) and the value. */
  datatype SimpleExpression = SimpleExpression(field: Field, cmp: Option<Comparison>, value: FieldValue)

  /** LTTV_TREE_IDLE, LTTV_TREE_LEAF or LTTV_TREE_NODE with its child. */
  datatype Child = Idle | Leaf(se: SimpleExpression) | Node(t: Tree)

  datatype Tree = Tree(node: LogicalOp, left: Child, right: Child)

  /** The part of an LttvProcessState the filter reads. */
  datatype ProcessInfo = ProcessInfo(
    pid: UInt32, ppid: UInt32, creationTime: Time, insertionTime: Time,
    name: Quark, brand: Quark, mode: Quark, submode: Quark, status: Quark, cpu: UInt32)

  /** An event: the marker name its id maps to (None when
   *  marker_get_info_from_id finds nothing), its time and cycle count. */
  datatype EventInfo = EventInfo(markerName: Option<Quark>, time: Time, tsc: UInt64)

  /** A tracefile context: its CPU, the target pid the state computes for
   *  its event, and the running process per CPU of its trace state. */
  datatype ContextInfo = ContextInfo(cpu: nat, targetPid: UInt32, running: seq<ProcessInfo>)

  /** The arguments of lttv_filter_tree_parse; None stands for NULL. */
  datatype Input = Input(
    event: Option<EventInfo>, tracefileName: Option<Quark>, traceName: Option<Quark>,
    context: Option<ContextInfo>, state: Option<ProcessInfo>, traceRunning: Option<seq<ProcessInfo>>)

  /** The process state a tree is evaluated against: with a tracefile
   *  context, the process running on its CPU in the given trace state (or
   *  the context's own); otherwise the state passed in.  None stands for a
   *  CPU beyond the running-process array. */
  function ResolveState(inp: Input): (r: Option<Option<ProcessInfo>>)
    ensures inp.context.None? ==> r == Some(inp.state)
  {
    var ts := if inp.traceRunning.Some? then inp.traceRunning
              else if inp.context.Some? then Some(inp.context.value.running)
              else None;
    if inp.context.Some? && ts.Some? then
      (if inp.context.value.cpu < |ts.value| then Some(Some(ts.value[inp.context.value.cpu]))
       else None)
    else Some(inp.state)
  }

  /** Calls se->op on an operand; a NULL operator is undefined (None). */
  function Apply(se: SimpleExpression, x: Operand): (r: Option<bool>)
    ensures se.cmp.None? ==> r.None?
  {
    if se.cmp.None? then None else ApplyOp(se.cmp.value, x, se.value)
  }

  /** The state field a simple expression reads. */
  function StateOperand(f: Field, p: ProcessInfo): Operand
  {
    match f
    case StatePid => OUInt(p.pid)
    case StatePpid => OUInt(p.ppid)
    case StateCreationTime => OTime(p.creationTime)
    case StateInsertionTime => OTime(p.insertionTime)
    case StateProcessName => OQuark(p.name)
    case StateThreadBrand => OQuark(p.brand)
    case StateExecutionMode => OQuark(p.mode)
    case StateExecutionSubmode => OQuark(p.submode)
    case StateProcessStatus => OQuark(p.status)
    case _ => OUInt(p.cpu)
  }

  /** lttv_filter_tree_parse_branch: TRUE when the structure the field
   *  belongs to is NULL; event.category, event.field and an undefined
   *  field are TRUE too.  The event-name cases reach the tracefile through
   *  the context and abort on a missing marker: None. */
  function ParseBranch(se: SimpleExpression, inp: Input, state: Option<ProcessInfo>): (r: Option<bool>)
    ensures (StructTypeOf(se.field) == Some(StateStruct) && state.None?) ==> r == Some(true)
    ensures se.field in {Undefined, EventCategory, EventField} ==> r == Some(true)
  {
    match se.field
    case TraceName =>
      if inp.traceName.None? then Some(true) else Apply(se, OQuark(inp.traceName.value))
    case TracefileName =>
      if inp.tracefileName.None? then Some(true) else Apply(se, OQuark(inp.tracefileName.value))
    case StatePid | StatePpid | StateCreationTime | StateInsertionTime | StateProcessName
       | StateThreadBrand | StateExecutionMode | StateExecutionSubmode | StateProcessStatus
       | StateCpu =>
      if state.None? then Some(true) else Apply(se, StateOperand(se.field, state.value))
    case EventName =>
      if inp.event.None? then Some(true)
      else if inp.context.None? || inp.tracefileName.None? || inp.event.value.markerName.None? then None
      else Apply(se, OQuarks(inp.tracefileName.value, inp.event.value.markerName.value))
    case EventSubname =>
      if inp.event.None? then Some(true)
      else if inp.context.None? || inp.event.value.markerName.None? then None
      else Apply(se, OQuark(inp.event.value.markerName.value))
    case EventTime =>
      if inp.event.None? then Some(true) else Apply(se, OTime(inp.event.value.time))
    case EventTsc =>
      if inp.event.None? then Some(true) else Apply(se, OUInt64(inp.event.value.tsc))
    case EventTargetPid =>
      if inp.context.None? then Some(true) else Apply(se, OUInt(inp.context.value.targetPid))
    case Undefined | EventCategory | EventField => Some(true)
  }

  /** The switch at the end of lttv_filter_tree_parse as written: a NOT
   *  node negates a leaf child, but yields TRUE over a subtree. */
  function CombineAsWritten(node: LogicalOp, left: Child, right: Child, l: bool, r: bool): (v: bool)
  {
    match node
    case Or => l || r
    case And => l && r
    case Not => if left.Leaf? then !l else if right.Leaf? then !r else true
    case Xor => l != r
    case NoOp => r
  }

  /** The same switch with a NOT node negating its child, leaf or subtree. */
  function Combine(node: LogicalOp, left: Child, right: Child, l: bool, r: bool): (v: bool)
    ensures node == Not && !left.Idle? ==> v == !l
    ensures node == Not && left.Idle? && !right.Idle? ==> v == !r
    ensures node != Not ==> v == CombineAsWritten(node, left, right, l, r)
  {
    match node
    case Or => l || r
    case And => l && r
    case Not => if !left.Idle? then !l else if !right.Idle? then !r else true
    case Xor => l != r
    case NoOp => r
  }

  /** The subtrees of a tree do not get the state passed in nor the trace
   *  state: both are NULL in the recursive calls. */
  function ForChildren(inp: Input): Input
  {
    inp.(state := None, traceRunning := None)
  }

  /** One child: FALSE for an idle one (the initial lresult/rresult). */
  function EvalChild(c: Child, inp: Input, state: Option<ProcessInfo>): (r: Option<bool>)
    decreases c
  {
    match c
    case Idle => Some(false)
    case Leaf(se) => ParseBranch(se, inp, state)
    case Node(t) => EvalTree(t, ForChildren(inp))
  }

  /** lttv_filter_tree_parse; None stands for a crash or an undefined read
   *  somewhere on the way. */
  function EvalTree(t: Tree, inp: Input): (r: Option<bool>)
    decreases t
  {
    var st := ResolveState(inp);
    if st.None? then None
    else
      var l := EvalChild(t.left, inp, st.value);
      if l.None? then None
      else if t.node == Or && l.value then Some(true)
      else if t.node == And && !l.value then Some(false)
      else
        var r := EvalChild(t.right, inp, st.value);
        if r.None? then None
        else Some(Combine(t.node, t.left, t.right, l.value, r.value))
  }

  /** The reference semantics: both children evaluated, then combined. */
  function StrictEvalTree(t: Tree, inp: Input): (r: Option<bool>)
    decreases t
  {
    var st := ResolveState(inp);
    if st.None? then None
    else
      var l := StrictEvalChild(t.left, inp, st.value);
      var r := StrictEvalChild(t.right, inp, st.value);
      if l.None? || r.None? then None
      else Some(Combine(t.node, t.left, t.right, l.value, r.value))
  }

  function StrictEvalChild(c: Child, inp: Input, state: Option<ProcessInfo>): (r: Option<bool>)
    decreases c
  {
    match c
    case Idle => Some(false)
    case Leaf(se) => ParseBranch(se, inp, state)
    case Node(t) => StrictEvalTree(t, ForChildren(inp))
  }

  /** The cut-offs never change a result that the strict semantics
   *  defines: an OR with a true left is true and an AND with a false left
   *  is false whatever the right branch gives. */
  lemma {:induction false} CutoffsAgree(t: Tree, inp: Input)
    requires StrictEvalTree(t, inp).Some?
    ensures EvalTree(t, inp) == StrictEvalTree(t, inp)
    decreases t
  {
    var st := ResolveState(inp);
    ChildCutoffsAgree(t.left, inp, st.value);
    ChildCutoffsAgree(t.right, inp, st.value);
  }

  lemma {:induction false} ChildCutoffsAgree(c: Child, inp: Input, state: Option<ProcessInfo>)
    requires StrictEvalChild(c, inp, state).Some?
    ensures EvalChild(c, inp, state) == StrictEvalChild(c, inp, state)
    decreases c
  {
    match c
    case Idle =>
    case Leaf(se) =>
    case Node(t) => CutoffsAgree(t, ForChildren(inp));
  }

  /** The short circuits hold even when the right branch would crash. */
  lemma ShortCircuits(t: Tree, inp: Input)
    requires ResolveState(inp).Some?
    ensures t.node == Or && EvalChild(t.left, inp, ResolveState(inp).value) == Some(true) ==>
      EvalTree(t, inp) == Some(true)
    ensures t.node == And && EvalChild(t.left, inp, ResolveState(inp).value) == Some(false) ==>
      EvalTree(t, inp) == Some(false)
  {
  }

  /** A NOT node built over a parenthesised subexpression (its child on the
   *  right, as lttv_filter_update builds "!(...)"): as written it is TRUE
   *  whatever the subexpression gives; the corrected switch negates it. */
  lemma NotOverSubtree(sub: Tree, l: bool, r: bool)
    ensures CombineAsWritten(Not, Idle, Node(sub), l, r) == true
    ensures Combine(Not, Idle, Node(sub), l, r) == !r
    ensures CombineAsWritten(Not, Idle, Leaf(SimpleExpression(Undefined, None, Unset)), l, r) == !r
  {
  }

  /** A NOT node over a leaf negates what the leaf gives. */
  lemma NotNegatesLeaf(se: SimpleExpression, inp: Input)
    requires inp.context.None?
    ensures EvalTree(Tree(Not, Idle, Leaf(se)), inp) ==
      (match ParseBranch(se, inp, inp.state) case None => None case Some(b) => Some(!b))
    ensures EvalTree(Tree(Not, Leaf(se), Idle), inp) ==
      (match ParseBranch(se, inp, inp.state) case None => None case Some(b) => Some(!b))
  {
  }

  /** Without a tracefile context, a state field compared at the top of
   *  the tree reads the state passed in, while inside a subtree it finds
   *  no state and is TRUE. */
  lemma NestedStateIsNull(se: SimpleExpression, inp: Input)
    requires inp.context.None? && StructTypeOf(se.field) == Some(StateStruct)
    ensures EvalTree(Tree(NoOp, Idle, Leaf(se)), inp) == ParseBranch(se, inp, inp.state)
    ensures EvalTree(Tree(NoOp, Idle, Node(Tree(NoOp, Idle, Leaf(se)))), inp) == Some(true)
  {
    var inner := Tree(NoOp, Idle, Leaf(se));
    assert EvalTree(inner, ForChildren(inp)) == Some(true);
  }

  /** The right-spine end of a tree, where lttv_filter_update attaches the
   *  next expression, is open: the spine runs through nodes only and ends
   *  in an idle right child. */
  predicate SpineOpen(t: Tree)
    decreases t
  {
    match t.right
    case Idle => true
    case Leaf(_) => false
    case Node(s) => SpineOpen(s)
  }

  /** Attaches c as the right child at the end of the spine. */
  function AttachRight(t: Tree, c: Child): (r: Tree)
    requires SpineOpen(t)
    ensures r.node == t.node && r.left == t.left
    ensures c.Node? && SpineOpen(c.t) ==> SpineOpen(r)
    ensures c.Leaf? ==> !SpineOpen(r)
    decreases t
  {
    match t.right
    case Idle => t.(right := c)
    case Node(s) => t.(right := Node(AttachRight(s, c)))
  }

  /** A tree is the chain of nodes along its spine followed by what was
   *  attached last: attaching twice is attaching into the first
   *  attachment. */
  lemma {:induction false} AttachTwice(t: Tree, s: Tree, c: Child)
    requires SpineOpen(t) && SpineOpen(s)
    ensures SpineOpen(AttachRight(t, Node(s)))
    ensures AttachRight(AttachRight(t, Node(s)), c) == AttachRight(t, Node(AttachRight(s, c)))
    decreases t
  {
    match t.right
    case Idle =>
    case Node(u) => AttachTwice(u, s, c);
  }
}
