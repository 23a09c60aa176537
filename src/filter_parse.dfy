/** The expression parser of trunk/lttv/lttv/lttv/filter.c
 *  (lttv_filter_update) and the filter object it updates
 *  (lttv_filter_new, lttv_filter_append_expression,
 *  lttv_filter_clear_expression).  The parser reads the expression once,
 *  left to right, keeping a stack of trees (one per open parenthesis), the
 *  last closed subtree, the field component and pending spaces being
 *  read, the field path and the simple expression being built.  Trees are
 *  values here: attaching at the end of the right spine of the stack's top
 *  replaces that top, which is what the in-place pointer updates amount to
 *  since no tree is shared. */
module FilterParse {
  import opened Wrappers
  import opened FilterField
  import opened FilterOps
  import opened FilterValue
  import opened FilterTree
  import opened CStdlib

  /** The character at k, or the terminating NUL at and after the end. */
  function CharAt(s: string, k: nat): (c: char)
    ensures k < |s| ==> c == s[k]
  {
    if k < |s| then s[k] else '\0'
  }

  /** A fresh lttv_simple_expression_new. */
  const NewExpression: SimpleExpression := SimpleExpression(Undefined, None, Unset)

  /** The loop state of lttv_filter_update. */
  datatype Parser = Parser(
    i: nat, nesting: int, not: bool, quotes: bool,
    stack: seq<Tree>, subtree: Option<Tree>,
    component: string, spaces: string, path: seq<string>,
    se: SimpleExpression)

  /** The state before the first character: the stack holds the main tree. */
  const Start: Parser :=
    Parser(0, 0, false, false, [Tree(NoOp, Idle, Idle)], None, "", "", [], NewExpression)

  /** What the loop maintains: one tree per open parenthesis above the main
   *  tree, and every tree on the stack open at the end of its right spine,
   *  so the spine walks never meet a leaf. */
  ghost predicate Valid(p: Parser)
  {
    p.nesting >= 0 && |p.stack| == p.nesting + 1 &&
    forall k :: 0 <= k < |p.stack| ==> SpineOpen(p.stack[k])
  }

  lemma StartValid()
    ensures Valid(Start)
  {
  }

  /** The parse: still running, FALSE (Rejected), a failed g_assert
   *  (Aborted) or the tree that becomes filter->head. */
  datatype Outcome = Running(p: Parser) | Rejected | Aborted | Built(head: Tree)

  function ReplaceTop(stack: seq<Tree>, t: Tree): (r: seq<Tree>)
    requires |stack| > 0
    ensures |r| == |stack| && r[..|r| - 1] == stack[..|stack| - 1] && Top(r) == t
  {
    stack[..|stack| - 1] + [t]
  }

  function Top(stack: seq<Tree>): Tree
    requires |stack| > 0
  {
    stack[|stack| - 1]
  }

  /** The three assignments of a simple expression the parser calls:
   *  assign_field on the path, assign_operator and assign_value (the parser
   *  ignores the boolean each returns besides the expression it updates).
   *  The parser is stated for any three; Parse fixes them to the model's. */
  datatype Assigners = Assigners(
    assignField: (seq<string>, Field) -> FieldResult,
    assignOperator: (Field, FieldOp) -> Option<Comparison>,
    assignValue: (Field, string, FieldValue) -> FieldValue)

  function AssignersOf(intern: string -> Quark): (asg: Assigners)
    ensures forall path, current :: asg.assignField(path, current) == AssignField(path, current)
    ensures forall f, op :: asg.assignOperator(f, op) == AssignOperator(f, op)
    ensures forall f, v, current :: asg.assignValue(f, v, current) == AssignValue(f, v, intern, current).1
  {
    Assigners((path, current) => AssignField(path, current),
              (f, op) => AssignOperator(f, op),
              (f, v, current) => AssignValue(f, v, intern, current).1)
  }

  /** The simple expression closed by a logical operator, a parenthesis or
   *  the end: its value assigned from the component read (the return of
   *  assign_value is ignored). */
  function ClosedExpression(p: Parser, asg: Assigners): (se: SimpleExpression)
    ensures se.field == p.se.field && se.cmp == p.se.cmp
  {
    p.se.(value := asg.assignValue(p.se.field, p.component, p.se.value))
  }

  /** What a logical operator, a closing parenthesis or the end attaches:
   *  the pending subtree, or a leaf with the simple expression, after which
   *  the buffers and the simple expression start afresh. */
  function Operand(p: Parser, asg: Assigners): (r: (Child, Parser))
    ensures p.subtree.Some? ==> r == (Node(p.subtree.value), p.(subtree := None))
    ensures p.subtree.None? ==>
      r == (Leaf(ClosedExpression(p, asg)), p.(component := "", spaces := "", se := NewExpression))
  {
    if p.subtree.Some? then (Node(p.subtree.value), p.(subtree := None))
    else (Leaf(ClosedExpression(p, asg)), p.(component := "", spaces := "", se := NewExpression))
  }

  /** '&', '|' or '^': a node of that operator at the end of the top's
   *  spine, its left child the operand (under a NOT node after a '!'). */
  function LogicalStep(p: Parser, op: LogicalOp, asg: Assigners): (r: Parser)
    requires Valid(p)
    ensures Valid(r) && r.i == p.i + 1 && r.nesting == p.nesting && !r.not
  {
    var (child, q) := Operand(p, asg);
    var left := if p.not then Node(Tree(Not, child, Idle)) else child;
    var t := AttachRight(Top(p.stack), Node(Tree(op, left, Idle)));
    var r := q.(stack := ReplaceTop(p.stack, t), not := false, i := p.i + 1);
    assert forall k :: 0 <= k < |r.stack| - 1 ==> r.stack[k] == p.stack[k];
    r
  }

  /** '(', '[' or '{': a new tree on the stack, its right child a NOT node
   *  after a '!'. */
  function OpenStep(p: Parser): (r: Parser)
    requires Valid(p)
    ensures Valid(r) && r.i == p.i + 1 && r.nesting == p.nesting + 1 && !r.not
  {
    var t := if p.not then Tree(NoOp, Idle, Node(Tree(Not, Idle, Idle))) else Tree(NoOp, Idle, Idle);
    p.(nesting := p.nesting + 1, stack := p.stack + [t], not := false, i := p.i + 1)
  }

  /** ')', ']' or '}': FALSE when nothing is open; otherwise the operand at
   *  the end of the top's spine (under a NOT node after a '!'), and the top
   *  leaves the stack to become the pending subtree. */
  function CloseStep(p: Parser, asg: Assigners): (r: Outcome)
    requires Valid(p)
    ensures r.Rejected? <==> p.nesting == 0
    ensures r.Running? ==> Valid(r.p) && r.p.i == p.i + 1 && r.p.nesting == p.nesting - 1
    ensures !r.Aborted? && !r.Built?
  {
    if p.nesting - 1 < 0 || |p.stack| < 2 then Rejected
    else
      var (child, q) := Operand(p, asg);
      var attached := if p.not then Node(Tree(Not, Idle, child)) else child;
      var closed := AttachRight(Top(p.stack), attached);
      var r := q.(nesting := p.nesting - 1, stack := p.stack[..|p.stack| - 1],
                  subtree := Some(closed), not := false, i := p.i + 1);
      assert forall k :: 0 <= k < |r.stack| ==> r.stack[k] == p.stack[k];
      Running(r)
  }

  /** The component read so far joins the path, assign_field runs on it,
   *  and the buffers start afresh; a failed g_assert in assign_field aborts. */
  function FieldStep(p: Parser, asg: Assigners): (r: Outcome)
    requires Valid(p)
    ensures r.Running? ==> Valid(r.p) && r.p.i == p.i && r.p.nesting == p.nesting && r.p.stack == p.stack
    ensures !r.Rejected? && !r.Built?
  {
    match asg.assignField(p.path + [p.component], p.se.field)
    case FieldAbort => Aborted
    case FieldDone(_, f, rest) =>
      Running(p.(path := rest, se := p.se.(field := f), component := "", spaces := ""))
  }

  /** assign_operator: se->op set, or left as it was on FALSE. */
  function WithOperator(p: Parser, op: FieldOp, next: nat, asg: Assigners): (r: Parser)
    ensures r.stack == p.stack && r.nesting == p.nesting && r.i == next
    ensures r.se.field == p.se.field && r.se.value == p.se.value
  {
    match asg.assignOperator(p.se.field, op)
    case None => p.(i := next)
    case Some(c) => p.(se := p.se.(cmp := Some(c)), i := next)
  }

  /** A comparison operator: the field, then the operator; next is the
   *  index after it. */
  function ComparisonStep(p: Parser, op: FieldOp, next: nat, asg: Assigners): (r: Outcome)
    requires Valid(p) && next > p.i
    ensures r.Running? ==> Valid(r.p) && r.p.i == next
    ensures !r.Rejected? && !r.Built?
  {
    var o := FieldStep(p, asg);
    if o.Running? then Running(WithOperator(o.p, op, next, asg)) else o
  }

  /** Appends a character to the component after the pending spaces. */
  function Append(p: Parser, c: char, next: nat): (r: Parser)
    ensures r.component == p.component + p.spaces + [c] && r.spaces == "" && r.i == next
    ensures r == p.(component := p.component + p.spaces + [c], spaces := "", i := next)
  {
    p.(component := p.component + p.spaces + [c], spaces := "", i := next)
  }

  /** Inside quotes as written: a backslash before a quote keeps the
   *  quote, and the closing quote also takes the character after it into
   *  the component, so that character is never parsed (at the end of the
   *  expression that character is the terminating NUL, which ends the
   *  component's text). */
  function QuoteStepAsWritten(s: string, p: Parser): (r: Parser)
    requires p.i < |s| && p.quotes
  {
    if s[p.i] == '\\' && CharAt(s, p.i + 1) == '"' then Append(p, '"', p.i + 2)
    else if s[p.i] == '"' then
      (if p.i + 1 < |s| then Append(p.(quotes := false), s[p.i + 1], p.i + 2)
       else p.(quotes := false, component := p.component + p.spaces, spaces := "", i := p.i + 2))
    else Append(p, s[p.i], p.i + 1)
  }

  /** Inside quotes, with the closing quote only ending the quoted text. */
  function QuoteStep(s: string, p: Parser): (r: Parser)
    requires p.i < |s| && p.quotes
    ensures r.stack == p.stack && r.nesting == p.nesting && r.i > p.i && r.path == p.path
    ensures r.quotes <==> s[p.i] != '"'
    ensures s[p.i] == '"' ==> r == p.(quotes := false, i := p.i + 1)
  {
    if s[p.i] == '\\' && CharAt(s, p.i + 1) == '"' then Append(p, '"', p.i + 2)
    else if s[p.i] == '"' then p.(quotes := false, i := p.i + 1)
    else Append(p, s[p.i], p.i + 1)
  }

  predicate Opening(c: char)
  {
    c == '(' || c == '[' || c == '{'
  }

  predicate Closing(c: char)
  {
    c == ')' || c == ']' || c == '}'
  }

  predicate Connective(c: char)
  {
    c == '&' || c == '|' || c == '^'
  }

  function ConnectiveOf(c: char): (op: LogicalOp)
    requires Connective(c)
    ensures op in {And, Or, Xor}
  {
    if c == '&' then And else if c == '|' then Or else Xor
  }

  /** The comparison operators start with '<', '>', '=', or '!' before '='. */
  predicate StartsComparison(s: string, i: nat)
    requires i < |s|
  {
    s[i] == '<' || s[i] == '>' || s[i] == '=' || (s[i] == '!' && CharAt(s, i + 1) == '=')
  }

  /** The comparison operator at i and the number of characters it takes. */
  function ComparisonAt(s: string, i: nat): (r: (FieldOp, nat))
    requires i < |s| && StartsComparison(s, i)
    ensures 1 <= r.1 <= 2
  {
    var two := CharAt(s, i + 1) == '=';
    if s[i] == '!' then (Ne, 2)
    else if s[i] == '<' then (if two then (Le, 2) else (Lt, 1))
    else if s[i] == '>' then (if two then (Ge, 2) else (Gt, 1))
    else (Eq, 1)
  }

  /** One turn of the loop of lttv_filter_update at character p.i. */
  function Step(s: string, p: Parser, asg: Assigners): (r: Outcome)
    requires Valid(p) && p.i < |s|
    ensures r.Running? ==> Valid(r.p) && r.p.i > p.i
    ensures !r.Built?
  {
    if p.quotes then Running(QuoteStep(s, p))
    else
      var c := s[p.i];
      var next := p.i + 1;
      if Connective(c) then Running(LogicalStep(p, ConnectiveOf(c), asg))
      else if StartsComparison(s, p.i) then
        ComparisonStep(p, ComparisonAt(s, p.i).0, p.i + ComparisonAt(s, p.i).1, asg)
      else if c == '!' then Running(p.(not := true, i := next))
      else if Opening(c) then Running(OpenStep(p))
      else if Closing(c) then CloseStep(p, asg)
      else if c == '.' then
        (if p.se.field == Undefined then
           Running(p.(path := p.path + [p.component], component := "", spaces := "", i := next))
         else Running(p.(component := p.component + ".", i := next)))
      else if c == ' ' then
        (if |p.component| == 0 then Running(p.(i := next))
         else Running(p.(spaces := p.spaces + " ", i := next)))
      else if c == '\n' then Running(p.(i := next))
      else if c == '"' then Running(p.(quotes := true, i := next))
      else Running(Append(p, c, next))
  }

  /** After the loop: FALSE with a parenthesis still open; otherwise the
   *  last operand closes the main tree, and a path that still holds
   *  components fails the g_assert. */
  function Finish(p: Parser, asg: Assigners): (r: Outcome)
    requires Valid(p)
    ensures r.Rejected? <==> p.nesting > 0
    ensures r.Aborted? <==> p.nesting == 0 && p.path != []
    ensures !r.Running?
  {
    if p.nesting > 0 then Rejected
    else if |p.stack| != 1 then Rejected
    else
      var child := Operand(p, asg).0;
      var attached := if p.not then Node(Tree(Not, Idle, child)) else child;
      var head := AttachRight(p.stack[0], attached);
      if p.path != [] then Aborted else Built(head)
  }

  /** The loop from state p to the end of the expression. */
  function Run(s: string, p: Parser, asg: Assigners): (r: Outcome)
    requires Valid(p)
    ensures !r.Running?
    decreases |s| - p.i, 1
  {
    if p.i >= |s| then Finish(p, asg) else Continue(s, p.i, Step(s, p, asg), asg)
  }

  /** The loop after the step at index i: on while the parser runs. */
  function Continue(s: string, i: nat, o: Outcome, asg: Assigners): (r: Outcome)
    requires i < |s| && (o.Running? ==> Valid(o.p) && o.p.i > i)
    ensures !r.Running?
    decreases |s| - i, 0
  {
    if o.Running? then Run(s, o.p, asg) else o
  }

  /** lttv_filter_update's parse of an expression. */
  function Parse(s: string, intern: string -> Quark): (r: Outcome)
    ensures !r.Running?
  {
    StartValid();
    Run(s, Start, AssignersOf(intern))
  }

  /** With nothing open the stack holds only the main tree: the length
   *  checks beside the nesting checks never decide anything. */
  lemma StackFollowsNesting(p: Parser)
    requires Valid(p)
    ensures p.nesting == 0 <==> |p.stack| == 1
    ensures p.nesting >= 1 <==> |p.stack| >= 2
  {
  }

  /** A closing parenthesis with none open makes the update return FALSE. */
  lemma UnbalancedCloseRejected(s: string, p: Parser, asg: Assigners)
    requires Valid(p) && p.i < |s| && !p.quotes && p.nesting == 0 && Closing(s[p.i])
    ensures Run(s, p, asg) == Rejected
  {
  }

  /** A parenthesis still open at the end makes it return FALSE. */
  lemma OpenAtEndRejected(s: string, p: Parser, asg: Assigners)
    requires Valid(p) && p.i >= |s| && p.nesting > 0
    ensures Run(s, p, asg) == Rejected
  {
  }

  /** The first parse steps of "(": one tree more on the stack; at the end
   *  of the expression it is still open. */
  lemma OpenParenRejected(intern: string -> Quark)
    ensures Parse("(", intern) == Rejected
    ensures Parse(")", intern) == Rejected
  {
    var asg := AssignersOf(intern);
    StartValid();
    var q := OpenStep(Start);
    assert Step("(", Start, asg) == Running(q);
    assert Run("(", q, asg) == Finish(q, asg);
    assert Step(")", Start, asg) == Rejected;
  }

  /** A character the loop only appends to the field component. */
  predicate Plain(c: char)
  {
    !Connective(c) && c != '!' && !Opening(c) && !Closing(c) &&
    c != '<' && c != '>' && c != '=' && c != '.' && c != ' ' && c != '\n' && c != '"'
  }

  predicate AllPlain(t: string)
  {
    forall j :: 0 <= j < |t| ==> Plain(t[j])
  }

  /** One plain character outside quotes is appended. */
  lemma PlainStep(s: string, p: Parser, asg: Assigners)
    requires Valid(p) && !p.quotes && p.i < |s| && Plain(s[p.i])
    ensures Step(s, p, asg) == Running(Append(p, s[p.i], p.i + 1))
    ensures Valid(Append(p, s[p.i], p.i + 1))
    ensures Run(s, p, asg) == Run(s, Append(p, s[p.i], p.i + 1), asg)
  {
  }

  /** A run of plain characters outside quotes only grows the component. */
  lemma {:induction false} PlainRun(s: string, p: Parser, t: string, asg: Assigners)
    requires Valid(p) && !p.quotes && p.spaces == "" && AllPlain(t)
    requires p.i + |t| <= |s| && s[p.i..p.i + |t|] == t
    ensures Valid(p.(component := p.component + t, i := p.i + |t|))
    ensures Run(s, p, asg) == Run(s, p.(component := p.component + t, i := p.i + |t|), asg)
    decreases |t|
  {
    if |t| == 0 {
      assert p.component + t == p.component;
      assert p.(component := p.component + t, i := p.i + |t|) == p;
    } else {
      assert s[p.i] == t[0];
      var q := Append(p, t[0], p.i + 1);
      PlainStep(s, p, asg);
      assert s[q.i..q.i + |t[1..]|] == t[1..];
      PlainRun(s, q, t[1..], asg);
      assert q.component + t[1..] == p.component + t;
      assert q.(component := q.component + t[1..], i := q.i + |t[1..]|) ==
             p.(component := p.component + t, i := p.i + |t|);
    }
  }

  /** The text of each comparison operator. */
  function OperatorText(op: FieldOp): (r: string)
    ensures 1 <= |r| <= 2 && !Plain(r[0])
  {
    match op
    case Eq => "="
    case Ne => "!="
    case Lt => "<"
    case Le => "<="
    case Gt => ">"
    case Ge => ">="
  }

  /** The operator text before a plain character is one comparison step. */
  lemma OperatorStep(s: string, p: Parser, op: FieldOp, asg: Assigners)
    requires Valid(p) && !p.quotes
    requires p.i + |OperatorText(op)| < |s| && s[p.i..p.i + |OperatorText(op)|] == OperatorText(op)
    requires Plain(s[p.i + |OperatorText(op)|])
    ensures Step(s, p, asg) == ComparisonStep(p, op, p.i + |OperatorText(op)|, asg)
  {
    assert s[p.i] == OperatorText(op)[0];
    if |OperatorText(op)| == 2 {
      assert s[p.i + 1] == OperatorText(op)[1];
    }
  }

  /** One step of the loop is one step of Run. */
  lemma RunStep(s: string, p: Parser, q: Parser, asg: Assigners)
    requires Valid(p) && p.i < |s| && Step(s, p, asg) == Running(q)
    ensures Valid(q) && Run(s, p, asg) == Run(s, q, asg)
  {
  }

  /** A dot in the field part ends a component of the path. */
  lemma DotStep(s: string, p: Parser, asg: Assigners)
    requires Valid(p) && !p.quotes && p.i < |s| && s[p.i] == '.' && p.se.field == Undefined
    ensures Step(s, p, asg) ==
      Running(p.(path := p.path + [p.component], component := "", spaces := "", i := p.i + 1))
  {
  }

  lemma DigitsArePlain(t: string)
    requires AllDigits(t)
    ensures AllPlain(t)
  {
  }

  /** Plain characters to the end of the expression, then the end. */
  lemma PlainTail(s: string, p: Parser, t: string, asg: Assigners)
    requires Valid(p) && !p.quotes && p.spaces == "" && AllPlain(t)
    requires p.i + |t| == |s| && s[p.i..] == t
    ensures Valid(p.(component := p.component + t, i := |s|))
    ensures Run(s, p, asg) == Finish(p.(component := p.component + t, i := |s|), asg)
  {
    PlainRun(s, p, t, asg);
  }

  /** The state after a one-component field and an operator: assign_field
   *  leaves the component in the path. */
  lemma ComparisonPrefix(s: string, a: string, op: FieldOp, asg: Assigners) returns (q: Parser)
    requires AllPlain(a) && |a| + |OperatorText(op)| < |s|
    requires s[..|a|] == a && s[|a|..|a| + |OperatorText(op)|] == OperatorText(op)
    requires Plain(s[|a| + |OperatorText(op)|])
    requires asg.assignField([a], Undefined) == FieldDone(false, Undefined, [a])
    ensures Valid(q) && Run(s, Start, asg) == Run(s, q, asg)
    ensures q == Start.(path := [a], se := q.se, i := |a| + |OperatorText(op)|)
  {
    StartValid();
    assert s[0..|a|] == a && "" + a == a;
    PlainRun(s, Start, a, asg);
    var p1 := Start.(component := a, i := |a|);
    OperatorStep(s, p1, op, asg);
    assert [] + [a] == [a];
    var o := ComparisonStep(p1, op, |a| + |OperatorText(op)|, asg);
    q := o.p;
    RunStep(s, p1, q, asg);
  }

  /** The parse of a one-component field compared with a plain value. */
  lemma SingleComponentRun(s: string, a: string, op: FieldOp, v: string, asg: Assigners)
    requires AllPlain(a) && AllPlain(v) && |v| > 0 && s == a + OperatorText(op) + v
    requires asg.assignField([a], Undefined) == FieldDone(false, Undefined, [a])
    ensures Run(s, Start, asg) == Aborted
  {
    var k := |a| + |OperatorText(op)|;
    assert s[..|a|] == a && s[|a|..k] == OperatorText(op) && s[k..] == v && s[k] == v[0];
    var q := ComparisonPrefix(s, a, op, asg);
    PlainTail(s, q, v, asg);
  }

  /** A field path of one component ("pid=1") stays in the path, and the
   *  g_assert after the loop aborts. */
  lemma SingleComponentAborts(a: string, op: FieldOp, v: string, intern: string -> Quark)
    requires AllPlain(a) && AllPlain(v) && |v| > 0
    ensures Parse(a + OperatorText(op) + v, intern) == Aborted
  {
    SingleComponentRun(a + OperatorText(op) + v, a, op, v, AssignersOf(intern));
  }

  /** The state after the field path "a.b" of a simple expression. */
  lemma PathPrefix(s: string, a: string, b: string, asg: Assigners) returns (q: Parser)
    requires AllPlain(a) && AllPlain(b) && |a| + 1 + |b| <= |s|
    requires s[..|a|] == a && s[|a|] == '.' && s[|a| + 1..|a| + 1 + |b|] == b
    ensures Valid(q) && Run(s, Start, asg) == Run(s, q, asg)
    ensures q == Start.(path := [a], component := b, i := |a| + 1 + |b|)
  {
    StartValid();
    assert s[0..|a|] == a && "" + a == a;
    PlainRun(s, Start, a, asg);
    var p1 := Start.(component := a, i := |a|);
    DotStep(s, p1, asg);
    var p2 := Start.(path := [a], i := |a| + 1);
    assert [] + [a] == [a];
    RunStep(s, p1, p2, asg);
    PlainRun(s, p2, b, asg);
    q := Start.(path := [a], component := b, i := |a| + 1 + |b|);
    assert p2.(component := p2.component + b, i := p2.i + |b|) == q;
  }

  /** The leaf a field f, an operator and a value text v give. */
  function ClosedLeaf(f: Field, op: FieldOp, v: string, asg: Assigners): Child
  {
    Leaf(SimpleExpression(f, asg.assignOperator(f, op), asg.assignValue(f, v, Unset)))
  }

  /** The operator after a field path "a.b" naming the field f. */
  lemma OperatorAfterPath(s: string, q: Parser, a: string, b: string, f: Field, op: FieldOp,
                          asg: Assigners) returns (r: Parser)
    requires q == Start.(path := [a], component := b, i := q.i) && Valid(q)
    requires asg.assignField([a, b], Undefined) == FieldDone(true, f, [])
    requires q.i + |OperatorText(op)| < |s| && s[q.i..q.i + |OperatorText(op)|] == OperatorText(op)
    requires Plain(s[q.i + |OperatorText(op)|])
    ensures Valid(r) && Run(s, q, asg) == Run(s, r, asg)
    ensures r == Start.(se := SimpleExpression(f, asg.assignOperator(f, op), Unset), i := q.i + |OperatorText(op)|)
  {
    OperatorStep(s, q, op, asg);
    assert [a] + [b] == [a, b];
    r := Start.(se := SimpleExpression(f, asg.assignOperator(f, op), Unset), i := q.i + |OperatorText(op)|);
    RunStep(s, q, r, asg);
  }

  /** The value after the operator, to the end of the expression. */
  lemma ValueTail(s: string, r: Parser, v: string, asg: Assigners)
    requires r == Start.(se := r.se, i := r.i) && Valid(r)
    requires AllPlain(v) && r.i + |v| == |s| && s[r.i..] == v
    ensures Run(s, r, asg) == Built(Tree(NoOp, Idle, Leaf(r.se.(value := asg.assignValue(r.se.field, v, r.se.value)))))
  {
    PlainTail(s, r, v, asg);
    assert "" + v == v;
  }

  lemma OperatorAndValue(s: string, q: Parser, a: string, b: string, op: FieldOp, v: string,
                         f: Field, asg: Assigners)
    requires q == Start.(path := [a], component := b, i := q.i) && Valid(q)
    requires AllPlain(v) && |v| > 0 && q.i <= |s| && s[q.i..] == OperatorText(op) + v
    requires asg.assignField([a, b], Undefined) == FieldDone(true, f, [])
    ensures Run(s, q, asg) == Built(Tree(NoOp, Idle, ClosedLeaf(f, op, v, asg)))
  {
    var m := q.i + |OperatorText(op)|;
    assert s[q.i..m] == OperatorText(op) && s[m..] == v && s[m] == v[0];
    var r := OperatorAfterPath(s, q, a, b, f, op, asg);
    assert r.i == m;
    assert r == Start.(se := r.se, i := r.i);
    ValueTail(s, r, v, asg);
    assert r.se.(value := asg.assignValue(r.se.field, v, r.se.value)) ==
           SimpleExpression(f, asg.assignOperator(f, op), asg.assignValue(f, v, Unset));
  }

  /** A simple expression "a.b", an operator and a plain value v parse to
   *  the main tree with one leaf: the field a.b names, the operator
   *  assign_operator gives it, and the value read from v. */
  lemma SimpleExpressionParse(s: string, a: string, b: string, op: FieldOp, v: string,
                              f: Field, asg: Assigners)
    requires AllPlain(a) && AllPlain(b) && AllPlain(v) && |v| > 0
    requires s == a + "." + b + OperatorText(op) + v
    requires asg.assignField([a, b], Undefined) == FieldDone(true, f, [])
    ensures Run(s, Start, asg) == Built(Tree(NoOp, Idle, ClosedLeaf(f, op, v, asg)))
  {
    SimpleExpressionText(s, a, b, OperatorText(op), v);
    var q := PathPrefix(s, a, b, asg);
    OperatorAndValue(s, q, a, b, op, v, f, asg);
  }

  /** The pieces of the text "a.b" followed by the rest. */
  lemma SimpleExpressionText(s: string, a: string, b: string, o: string, v: string)
    requires s == a + "." + b + o + v
    ensures s[..|a|] == a && s[|a|] == '.' && s[|a| + 1..|a| + 1 + |b|] == b
    ensures s[|a| + 1 + |b|..] == o + v
  {
  }

  /** A guint field compared with a decimal number reads back the field,
   *  the operator and the number. */
  lemma UIntComparisonRoundTrip(a: string, b: string, f: Field, op: FieldOp, n: UInt32,
                                intern: string -> Quark)
    requires AllPlain(a) && AllPlain(b)
    requires AssignField([a, b], Undefined) == FieldDone(true, f, [])
    requires KindOf(f) == Some(KUInt)
    ensures Parse(a + "." + b + OperatorText(op) + Decimal(n), intern) ==
            Built(Tree(NoOp, Idle, Leaf(SimpleExpression(f, Some(UIntCmp(op)), VUInt(n)))))
  {
    var asg := AssignersOf(intern);
    DigitsArePlain(Decimal(n));
    SimpleExpressionParse(a + "." + b + OperatorText(op) + Decimal(n), a, b, op, Decimal(n), f, asg);
    UIntValueRoundTrip(f, n, intern, Unset);
    assert ClosedLeaf(f, op, Decimal(n), asg) == Leaf(SimpleExpression(f, Some(UIntCmp(op)), VUInt(n)));
  }

  /** "state.pid=1" reads as the process id equal to 1, and likewise for
   *  every operator and every unsigned 32-bit number. */
  lemma PidComparisonRoundTrip(op: FieldOp, n: UInt32, intern: string -> Quark)
    ensures Parse("state.pid" + OperatorText(op) + Decimal(n), intern) ==
            Built(Tree(NoOp, Idle, Leaf(SimpleExpression(StatePid, Some(UIntCmp(op)), VUInt(n)))))
  {
    PidPath();
    PidText(OperatorText(op), Decimal(n));
    UIntComparisonRoundTrip("state", "pid", StatePid, op, n, intern);
  }

  /** The path "state.pid" names the process id, a guint field. */
  lemma PidPath()
    ensures AllPlain("state") && AllPlain("pid")
    ensures AssignField(["state", "pid"], Undefined) == FieldDone(true, StatePid, [])
    ensures KindOf(StatePid) == Some(KUInt)
  {
    PathOfRoundTrip(StatePid);
  }

  lemma PidText(o: string, v: string)
    ensures "state" + "." + "pid" + o + v == "state.pid" + o + v
  {
    assert "state" + "." + "pid" == "state.pid";
  }

  /** The character after a closing quote: as written it joins the quoted
   *  value (in "\"k\"&x" the '&' becomes part of the value "k&"), while the
   *  corrected step leaves it to be parsed as an operator. */
  lemma ClosingQuoteSwallows(p: Parser)
    requires p.i == 2 && p.quotes && p.component == "k" && p.spaces == ""
    ensures QuoteStepAsWritten("\"k\"&x", p).component == "k&"
    ensures QuoteStepAsWritten("\"k\"&x", p).i == 4
    ensures QuoteStep("\"k\"&x", p) == p.(quotes := false, i := 3)
    ensures "\"k\"&x"[3] == '&'
  {
  }

  /** Away from a closing quote the two quote steps agree. */
  lemma QuoteStepAgrees(s: string, p: Parser)
    requires p.i < |s| && p.quotes && s[p.i] != '"'
    ensures QuoteStepAsWritten(s, p) == QuoteStep(s, p)
  {
  }

  /** lttv_filter_update's answer: TRUE with a new head, FALSE, or the
   *  program aborted by a g_assert. */
  datatype Verdict = Accepted | Refused | Abort

  function VerdictOf(o: Outcome): Verdict
  {
    match o
    case Built(_) => Accepted
    case Aborted => Abort
    case _ => Refused
  }

  /** The expression append_expression stores: the old one and the new one
   *  joined by '&', or the new one alone. */
  function Joined(previous: Option<string>, e: string): (r: string)
    ensures previous.Some? ==> r == previous.value + "&" + e
    ensures previous.None? ==> r == e
  {
    if previous.Some? then previous.value + "&" + e else e
  }

  /** An LttvFilter: the expression text and the tree built from it. */
  class Filter {
    var expression: Option<string>
    var head: Option<Tree>

    /** lttv_filter_new: no expression, no tree. */
    constructor()
      ensures expression == None && head == None
    {
      expression := None;
      head := None;
    }

    /** lttv_filter_update: FALSE with nothing changed when there is no
     *  expression; otherwise the old tree is dropped and the head becomes
     *  the parsed tree, or stays NULL when the parse fails. */
    method Update(intern: string -> Quark) returns (v: Verdict)
      modifies this
      ensures expression == old(expression)
      ensures old(expression).None? ==> v == Refused && head == old(head)
      ensures old(expression).Some? ==> v == VerdictOf(Parse(old(expression).value, intern))
      ensures old(expression).Some? ==>
        head == (if Parse(old(expression).value, intern).Built?
                 then Some(Parse(old(expression).value, intern).head) else None)
    {
      if expression.None? {
        return Refused;
      }
      var s := expression.value;
      head := None;
      var asg := AssignersOf(intern);
      StartValid();
      var p := Start;
      var o: Outcome := Running(p);
      while o.Running? && p.i < |s|
        invariant o.Running? ==> o.p == p && Valid(p) && Run(s, p, asg) == Parse(s, intern)
        invariant !o.Running? ==> o == Parse(s, intern)
        decreases |s| - p.i, if o.Running? then 1 else 0
      {
        o := Step(s, p, asg);
        if o.Running? {
          p := o.p;
        }
      }
      if o.Running? {
        o := Finish(p, asg);
      }
      assert o == Parse(s, intern);
      v := VerdictOf(o);
      if o.Built? {
        head := Some(o.head);
      }
    }

    /** lttv_filter_append_expression: FALSE for a NULL or empty
     *  expression, with nothing changed; otherwise the expression becomes
     *  the join and the filter is updated. */
    method AppendExpression(e: Option<string>, intern: string -> Quark) returns (v: Verdict)
      modifies this
      ensures (e.None? || e.value == "") ==> v == Refused && expression == old(expression) && head == old(head)
      ensures e.Some? && e.value != "" ==>
        expression == Some(Joined(old(expression), e.value)) &&
        v == VerdictOf(Parse(Joined(old(expression), e.value), intern))
      ensures e.Some? && e.value != "" ==>
        head == (if Parse(Joined(old(expression), e.value), intern).Built?
                 then Some(Parse(Joined(old(expression), e.value), intern).head) else None)
    {
      if e.None? || e.value == "" {
        return Refused;
      }
      expression := Some(Joined(expression, e.value));
      v := Update(intern);
    }

    /** lttv_filter_clear_expression: the expression goes, the tree stays. */
    method ClearExpression()
      modifies this
      ensures expression == None && head == old(head)
    {
      expression := None;
    }
  }
}
