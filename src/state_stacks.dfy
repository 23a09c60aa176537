/** The stacks of trunk/lttv/lttv/lttv/state.c: the per-process execution
 *  stack (push_state, pop_state, lttv_state_pop_state_cleanup), the
 *  per-CPU, per-IRQ and per-block-device mode stacks
 *  (cpu_/irq_/bdev_{set_base,push,pop}_mode) and the user-space function
 *  call stack (push_function, pop_function).  The GArrays, which the C code
 *  resizes in place, are sequences here; the top of a stack is its last
 *  element. */
module StateStacks {
  import opened LttTime
  import opened Wrappers

  /** The execution modes (LTTV_STATE_USER_MODE ... LTTV_STATE_MODE_UNKNOWN). */
  datatype ExecutionMode = UserMode | Syscall | Trap | Irq | SoftIrq | ModeUnknown

  /** The process statuses (LTTV_STATE_UNNAMED ... LTTV_STATE_DEAD). */
  datatype ProcessStatus = Unnamed | WaitFork | WaitCpu | Exit | Zombie | Wait | Run | Dead

  /** A submode is a quark; quarks are kept as the strings they intern. */
  type Submode = string

  const SubmodeNone: Submode := "NONE"
  const SubmodeUnknown: Submode := "UNKNOWN"

  /** One LttvExecutionState. */
  datatype ExecutionState = ExecutionState(
    t: ExecutionMode, n: Submode, entry: Time, change: Time,
    cumCpuTime: Time, s: ProcessStatus)

  /** The mode of the resources (LTTV_CPU_*, LTTV_IRQ_*, LTTV_BDEV_*). */
  datatype CpuMode = CpuUnknown | CpuIdle | CpuBusy | CpuIrq | CpuSoftIrq | CpuTrap
  datatype IrqMode = IrqUnknown | IrqIdle | IrqBusy
  datatype BdevMode = BdevUnknown | BdevIdle | BdevBusyReading | BdevBusyWriting

  function Top<T>(s: seq<T>): T
    requires |s| > 0
  {
    s[|s| - 1]
  }

  /** push_state: a new top of mode t and submode n, entered and changed
   *  now, with no CPU time yet, and the status of the previous top. */
  function PushState(stack: seq<ExecutionState>, t: ExecutionMode, n: Submode, now: Time)
    : (r: seq<ExecutionState>)
    requires |stack| > 0
    ensures |r| == |stack| + 1
    ensures r[..|stack|] == stack
    ensures Top(r).t == t && Top(r).n == n
    ensures Top(r).entry == now && Top(r).change == now && Top(r).cumCpuTime == Zero
    ensures Top(r).s == Top(stack).s
  {
    stack + [ExecutionState(t, n, now, now, Zero, Top(stack).s)]
  }

  /** Drops the top of a stack of depth two or more and marks the new top
   *  as changed now. */
  function DropTop(stack: seq<ExecutionState>, now: Time): (r: seq<ExecutionState>)
    requires |stack| >= 2
    ensures |r| == |stack| - 1
    ensures r[..|r| - 1] == stack[..|stack| - 2]
    ensures Top(r) == stack[|stack| - 2].(change := now)
  {
    stack[..|stack| - 2] + [stack[|stack| - 2].(change := now)]
  }

  /** pop_state: ignored when the top is not of mode t or is the last
   *  state; otherwise the top is dropped. */
  function PopState(stack: seq<ExecutionState>, t: ExecutionMode, now: Time)
    : (r: seq<ExecutionState>)
    requires |stack| > 0
    ensures |r| > 0
    ensures Top(stack).t != t || |stack| == 1 ==> r == stack
    ensures Top(stack).t == t && |stack| > 1 ==>
      |r| == |stack| - 1 && r[..|r| - 1] == stack[..|stack| - 2] &&
      Top(r) == stack[|stack| - 2].(change := now)
  {
    if Top(stack).t != t then stack
    else if |stack| == 1 then stack
    else DropTop(stack, now)
  }

  /** lttv_state_pop_state_cleanup: 1 and no change on a stack of depth
   *  one, whatever the mode of its top; otherwise 0 and the top dropped. */
  function PopStateCleanup(stack: seq<ExecutionState>, now: Time)
    : (r: (seq<ExecutionState>, int))
    requires |stack| > 0
    ensures r.1 == 1 <==> |stack| == 1
    ensures r.1 in {0, 1}
    ensures r.1 == 1 ==> r.0 == stack
    ensures r.1 == 0 ==> r.0 == DropTop(stack, now)
  {
    if |stack| == 1 then (stack, 1) else (DropTop(stack, now), 0)
  }

  /** A pop of the mode just pushed gives back the stack below it, apart
   *  from the change time of its top. */
  lemma PopAfterPush(stack: seq<ExecutionState>, t: ExecutionMode, n: Submode,
                     now: Time, later: Time)
    requires |stack| > 0
    ensures PopState(PushState(stack, t, n, now), t, later) ==
            stack[..|stack| - 1] + [Top(stack).(change := later)]
  {
    var pushed := PushState(stack, t, n, now);
    assert pushed[..|pushed| - 2] == stack[..|stack| - 1];
  }

  /** Popping a mode other than the top's leaves the stack as it was: a pop
   *  never removes a state of another mode. */
  lemma PopOtherModeIgnored(stack: seq<ExecutionState>, t: ExecutionMode, n: Submode,
                            now: Time, u: ExecutionMode, later: Time)
    requires |stack| > 0 && u != t
    ensures PopState(PushState(stack, t, n, now), u, later) == PushState(stack, t, n, now)
  {
  }

  /** cpu_set_base_mode and its IRQ and block-device twins: the stack
   *  becomes the one state m. */
  function SetBaseMode<M>(m: M): (r: seq<M>)
    ensures |r| == 1 && r[0] == m
  {
    [m]
  }

  /** cpu_push_mode and its twins: m on top of an unchanged stack. */
  function PushMode<M>(stack: seq<M>, m: M): (r: seq<M>)
    ensures |r| == |stack| + 1 && r[..|stack|] == stack && Top(r) == m
  {
    stack + [m]
  }

  /** cpu_pop_mode and its twins: a stack of depth one or less becomes the
   *  one state unknown; a deeper stack loses its top. */
  function PopMode<M>(stack: seq<M>, unknown: M): (r: seq<M>)
    ensures |r| > 0
    ensures |stack| <= 1 ==> r == [unknown]
    ensures |stack| > 1 ==> r == stack[..|stack| - 1]
  {
    if |stack| <= 1 then SetBaseMode(unknown) else stack[..|stack| - 1]
  }

  /** Popping what was pushed onto a non-empty stack gives it back; pushed
   *  onto an empty stack, the pop leaves the unknown state instead. */
  lemma PopModeAfterPush<M>(stack: seq<M>, m: M, unknown: M)
    ensures |stack| > 0 ==> PopMode(PushMode(stack, m), unknown) == stack
    ensures |stack| == 0 ==> PopMode(PushMode(stack, m), unknown) == [unknown]
  {
  }

  /** n pops bring any stack down to the single unknown state once n is at
   *  least its depth: the mode stacks bottom out and never empty. */
  function PopModes<M>(stack: seq<M>, unknown: M, n: nat): seq<M>
    decreases n
  {
    if n == 0 then stack else PopModes(PopMode(stack, unknown), unknown, n - 1)
  }

  lemma {:induction false} PopModesBottomOut<M>(stack: seq<M>, unknown: M, n: nat)
    requires n > 0 && n >= |stack|
    ensures PopModes(stack, unknown, n) == [unknown]
    decreases n
  {
    if n > 1 {
      PopModesBottomOut(PopMode(stack, unknown), unknown, n - 1);
    }
  }

  /** The user-space function call stack and the current function. */
  datatype FunctionStack = FunctionStack(calls: seq<nat>, current: nat)

  /** push_function: funcptr on top, and it is the current function. */
  function PushFunction(f: FunctionStack, funcptr: nat): (r: FunctionStack)
    ensures r.calls == f.calls + [funcptr] && r.current == funcptr
  {
    FunctionStack(f.calls + [funcptr], funcptr)
  }

  /** pop_function as written: when the stack has one call the new current
   *  function is read at index depth - 2, which as an unsigned index lies
   *  past the end: None stands for that out-of-bounds read. */
  function PopFunctionAsWritten(f: FunctionStack, funcptr: nat): (r: Option<FunctionStack>)
  {
    if f.current != funcptr then Some(f)
    else if |f.calls| == 0 then Some(f)
    else if |f.calls| - 2 < 0 then None
    else Some(FunctionStack(f.calls[..|f.calls| - 1], f.calls[|f.calls| - 2]))
  }

  /** pop_function as intended: the stack loses its top and the current
   *  function becomes the new top, or 0 (the convention of
   *  lttv_state_create_process) once the stack is empty. */
  function PopFunction(f: FunctionStack, funcptr: nat): (r: FunctionStack)
    ensures f.current != funcptr || |f.calls| == 0 ==> r == f
    ensures f.current == funcptr && |f.calls| > 0 ==>
      r.calls == f.calls[..|f.calls| - 1] &&
      r.current == (if |r.calls| == 0 then 0 else Top(r.calls))
  {
    if f.current != funcptr || |f.calls| == 0 then f
    else
      var calls := f.calls[..|f.calls| - 1];
      FunctionStack(calls, if |calls| == 0 then 0 else Top(calls))
  }

  /** Well-kept function stacks: the current function is the top, or 0. */
  ghost predicate CurrentIsTop(f: FunctionStack)
  {
    f.current == if |f.calls| == 0 then 0 else Top(f.calls)
  }

  /** A push and the pop of the same function cancel out on a well-kept
   *  stack, and both keep the current function on top. */
  lemma PushPopFunction(f: FunctionStack, funcptr: nat)
    requires CurrentIsTop(f)
    ensures CurrentIsTop(PushFunction(f, funcptr))
    ensures PopFunction(PushFunction(f, funcptr), funcptr) == f
  {
    assert (f.calls + [funcptr])[..|f.calls|] == f.calls;
  }

  lemma PopFunctionKeepsCurrentOnTop(f: FunctionStack, funcptr: nat)
    requires CurrentIsTop(f)
    ensures CurrentIsTop(PopFunction(f, funcptr))
  {
  }

  /** Popping the only function of the stack: the code as written reads out
   *  of bounds, the intended result is the empty stack with function 0. */
  lemma PopLastFunctionOverreads()
    ensures PopFunctionAsWritten(FunctionStack([7], 7), 7).None?
    ensures PopFunction(FunctionStack([7], 7), 7) == FunctionStack([], 0)
  {
  }

  /** Away from the one-call case the two agree. */
  lemma PopFunctionAgrees(f: FunctionStack, funcptr: nat)
    requires !(f.current == funcptr && |f.calls| == 1)
    ensures PopFunctionAsWritten(f, funcptr) == Some(PopFunction(f, funcptr))
  {
  }
}
