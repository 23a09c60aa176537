/** The dependency analysis module (lttv/modules/text/depanalysis.c): each
 *  process keeps a bounded stack of low-level states (running, in a system
 *  call, in an interrupt, preempted, ...) and derives from its top a
 *  high-level state (running, blocked, interrupted, ...) whose changes are
 *  recorded in a history; the history is searched by time, and the summary
 *  sorts episodes by length.
 *
 *  The delayed-processing stack of sstack.c is not part of this model; a
 *  push item is modelled as the record it carries. A process is identified
 *  by its pid where the C code keeps a pointer. */
module DepAnalysis {
  import opened LttTime
  import opened Wrappers
  import opened CStdlib

  /** PROCESS_STATE_STACK_SIZE. */
  const ProcessStateStackSize: nat := 10

  /** The base of the pids given to the per-CPU swapper processes. */
  const SwapperPidBase: nat := 2000000

  // ---------------------------------------------------------------------
  // Low-level and high-level states
  // ---------------------------------------------------------------------

  datatype LlevKind = LUnknown | LRunning | LSyscall | LIrq | LSoftIrq | LTrap | LPreempted

  /** What a system call is known to be doing, with the quark of the file. */
  datatype SyscallSubstate = SyscallUndefined | SyscallOpen(filename: nat) | SyscallRead(filename: nat) | SyscallPoll(filename: nat)

  /** The private data of a low-level state, by kind. */
  datatype LlevPrivate =
    | NoLlevPrivate
    | SyscallInfo(syscallId: int, substate: SyscallSubstate)
    | IrqInfo(irq: int)
    | SoftIrqInfo(softirq: int)
    | PreemptedInfo(prevState: int)

  /** A struct process_state of the low-level stack. */
  datatype LlevState = LlevState(bstate: LlevKind, priv: LlevPrivate, timeBegin: Time, timeEnd: Time)

  /** The private data has the layout its kind's size_priv allocates. */
  predicate PrivateFits(s: LlevState) {
    match s.bstate
    case LSyscall => s.priv.SyscallInfo?
    case LIrq => s.priv.IrqInfo?
    case LSoftIrq => s.priv.SoftIrqInfo?
    case LPreempted => s.priv.PreemptedInfo?
    case _ => true
  }

  datatype HlevKind = HUnknown | HRunning | HBlocked | HInterruptedIrq | HInterruptedSoftIrq
                    | HInterruptedCpu | HInterruptedPostBlock

  datatype BlockedSubstate = BlockedUndefined | BlockedOpen(filename: nat) | BlockedRead(filename: nat) | BlockedPoll(filename: nat)

  /** The private data of a high-level state. A blocked state records the
   *  system call it blocked in (-1 for user space), whether a trap is above
   *  that call, what the call was doing, and the low-level stack below the
   *  top when it was entered. */
  datatype HlevPrivate =
    | NoHlevPrivate
    | BlockedInfo(syscallId: int, trap: bool, substate: BlockedSubstate, entry: seq<LlevState>)
    | IrqHInfo(irq: int)
    | SoftIrqHInfo(softirq: int)

  datatype HlevState = HlevState(bstate: HlevKind, priv: HlevPrivate, timeBegin: Time, timeEnd: Time)

  /** find_pos_in_stack on the stack entries 0..stack_current: the highest
   *  index whose state has kind lls, or -1. */
  function PosInStack(stack: seq<LlevState>, lls: LlevKind): (r: int)
    ensures -1 <= r < |stack|
    ensures r >= 0 ==> stack[r].bstate == lls
    ensures forall j :: r < j < |stack| ==> stack[j].bstate != lls
  {
    if |stack| == 0 then -1
    else if stack[|stack| - 1].bstate == lls then |stack| - 1
    else PosInStack(stack[..|stack| - 1], lls)
  }

  /** The high-level state the top of the low-level stack stands for. */
  function HlevKindOf(top: LlevState): HlevKind
    requires PrivateFits(top)
  {
    match top.bstate
    case LRunning => HRunning
    case LTrap => HRunning
    case LSyscall => HRunning
    case LIrq => HInterruptedIrq
    case LSoftIrq => HInterruptedSoftIrq
    case LPreempted =>
      if top.priv.prevState == 0 then HInterruptedCpu
      else if top.priv.prevState == -1 then HInterruptedPostBlock
      else HBlocked
    case LUnknown => HUnknown
  }

  /** The blocked substate a system call's substate gives. */
  function BlockedSubstateOf(s: SyscallSubstate): BlockedSubstate {
    match s
    case SyscallUndefined => BlockedUndefined
    case SyscallOpen(f) => BlockedOpen(f)
    case SyscallRead(f) => BlockedRead(f)
    case SyscallPoll(f) => BlockedPoll(f)
  }

  ghost predicate StackFits(stack: seq<LlevState>) {
    forall i :: 0 <= i < |stack| ==> PrivateFits(stack[i])
  }

  /** The private data update_hlev_state gives to a new high-level state of
   *  kind k entered on the given non-empty low-level stack. */
  function HlevPrivateFor(k: HlevKind, stack: seq<LlevState>): (p: HlevPrivate)
    requires |stack| > 0 && StackFits(stack) && k == HlevKindOf(stack[|stack| - 1])
    ensures k == HBlocked ==> p.BlockedInfo? && p.entry == stack[..|stack| - 1]
    ensures k == HBlocked ==> p.trap == (PosInStack(stack, LTrap) > PosInStack(stack, LSyscall))
    ensures k == HInterruptedIrq ==> p == IrqHInfo(stack[|stack| - 1].priv.irq)
    ensures k == HInterruptedSoftIrq ==> p == SoftIrqHInfo(stack[|stack| - 1].priv.softirq)
  {
    match k
    case HBlocked =>
      var sp := PosInStack(stack, LSyscall);
      var tp := PosInStack(stack, LTrap);
      if sp >= 0 then
        BlockedInfo(stack[sp].priv.syscallId, tp > sp, BlockedSubstateOf(stack[sp].priv.substate), stack[..|stack| - 1])
      else
        BlockedInfo(-1, tp > sp, BlockedUndefined, stack[..|stack| - 1])
    case HInterruptedIrq =>
      var ip := PosInStack(stack, LIrq);
      IrqHInfo(stack[ip].priv.irq)
    case HInterruptedSoftIrq =>
      var sp := PosInStack(stack, LSoftIrq);
      SoftIrqHInfo(stack[sp].priv.softirq)
    case _ => NoHlevPrivate
  }

  /** update_hlev_state as a transition of the current high-level state and
   *  the history, on a non-empty low-level stack at time t. An unchanged
   *  high-level state is left alone. Otherwise the current state ends at
   *  t, joins the history unless it lasted no time, and a new state of the
   *  kind the top stands for begins at t. The end time of the new state is
   *  not set by the C code; the model puts Zero there. */
  function HlevStep(cur: HlevState, history: seq<HlevState>, stack: seq<LlevState>, t: Time): (r: (HlevState, seq<HlevState>))
    requires |stack| > 0 && StackFits(stack)
    ensures r.0.bstate == HlevKindOf(stack[|stack| - 1])
    ensures cur.bstate == HlevKindOf(stack[|stack| - 1]) ==> r == (cur, history)
    ensures cur.bstate != HlevKindOf(stack[|stack| - 1]) ==>
      r.0.timeBegin == t && r.0.priv == HlevPrivateFor(r.0.bstate, stack) &&
      r.1 == history + (if cur.timeBegin != t then [cur.(timeEnd := t)] else [])
    ensures forall e :: e in r.1 && e !in history ==> e.timeBegin != e.timeEnd && e.timeEnd == t
  {
    var k := HlevKindOf(stack[|stack| - 1]);
    if cur.bstate == k then (cur, history)
    else
      var ended := cur.(timeEnd := t);
      (HlevState(k, HlevPrivateFor(k, stack), t, Zero),
       if Compare(ended.timeBegin, ended.timeEnd) != 0 then history + [ended] else history)
  }

  /** No entry of the history lasted no time. */
  ghost predicate NoEmptyEpisode(history: seq<HlevState>) {
    forall i :: 0 <= i < |history| ==> history[i].timeBegin != history[i].timeEnd
  }

  /** The transition keeps zero-length episodes out of the history, and keeps
   *  the history ordered by end time when time does not go backwards. */
  lemma HlevStepKeepsHistory(cur: HlevState, history: seq<HlevState>, stack: seq<LlevState>, t: Time)
    requires |stack| > 0 && StackFits(stack)
    requires NoEmptyEpisode(history)
    requires EndsSorted(history)
    requires |history| > 0 ==> Less(history[|history| - 1].timeEnd, t)
    ensures NoEmptyEpisode(HlevStep(cur, history, stack, t).1)
    ensures EndsSorted(HlevStep(cur, history, stack, t).1)
  {
    var r := HlevStep(cur, history, stack, t);
    if |r.1| > |history| {
      assert r.1 == history + [cur.(timeEnd := t)];
      forall i, j | 0 <= i < j < |r.1|
        ensures Less(r.1[i].timeEnd, r.1[j].timeEnd)
      {
        if j == |history| {
          if i < |history| - 1 {
            CompareTransitive(history[i].timeEnd, history[|history| - 1].timeEnd, t);
          }
        }
      }
    }
  }

  // ---------------------------------------------------------------------
  // The per-process state
  // ---------------------------------------------------------------------

  /** The stack old_process_pop_llev_state leaves: the top removed or, when
   *  that empties the stack, a fresh RUNNING state (after a system call) or
   *  UNKNOWN state beginning when the popped state ended. */
  function Popped(stack: seq<LlevState>, pstate: LlevState): (r: seq<LlevState>)
    ensures |r| >= 1
    ensures |stack| > 1 ==> r == stack[..|stack| - 1]
    ensures |stack| <= 1 ==> r == [Refill(pstate)]
  {
    if |stack| > 1 then stack[..|stack| - 1] else [Refill(pstate)]
  }

  /** The state pushed on an emptied stack; its end time is not set by the
   *  C code and is Zero here. */
  function Refill(pstate: LlevState): (s: LlevState)
    ensures s.bstate == (if pstate.bstate == LSyscall then LRunning else LUnknown)
    ensures s.timeBegin == pstate.timeEnd && PrivateFits(s)
  {
    LlevState(if pstate.bstate == LSyscall then LRunning else LUnknown, NoLlevPrivate, pstate.timeEnd, Zero)
  }

  /** A pop undoes a push on a non-empty stack. */
  lemma PopUndoesPush(stack: seq<LlevState>, s: LlevState, pstate: LlevState)
    requires |stack| > 0
    ensures Popped(stack + [s], pstate) == stack
  {
    assert (stack + [s])[..|stack|] == stack;
  }

  /** A pop always leaves a non-empty stack, so the high-level state can be
   *  computed after it. */
  lemma PoppedFits(stack: seq<LlevState>, pstate: LlevState)
    requires StackFits(stack)
    ensures StackFits(Popped(stack, pstate)) && |Popped(stack, pstate)| > 0
  {
  }

  /** A struct process of the analysis. The llev_state_stack array holds the
   *  states 0..stackCurrent; stackCurrent is -1 for an empty stack. */
  class Process {
    const pid: int
    const slots: array<LlevState>
    var stackCurrent: int
    var hlevState: HlevState
    var hlevHistory: seq<HlevState>

    ghost predicate Valid()
      reads this, slots
    {
      slots.Length == ProcessStateStackSize && -1 <= stackCurrent < ProcessStateStackSize &&
      forall i :: 0 <= i <= stackCurrent ==> PrivateFits(slots[i])
    }

    /** The low-level stack, bottom first. */
    function Stack(): (s: seq<LlevState>)
      reads this, slots
      requires Valid()
      ensures |s| == stackCurrent + 1 && StackFits(s)
    {
      slots[..stackCurrent + 1]
    }

    /** get_or_init_process_info for a newly seen process: an empty stack,
     *  an UNKNOWN high-level state from the time of the event and an empty
     *  history. The stack slots are allocated but not set; `blank` stands
     *  for their content. */
    constructor (pid: int, t: Time, blank: LlevState)
      ensures Valid() && fresh(slots)
      ensures this.pid == pid && Stack() == []
      ensures hlevState == HlevState(HUnknown, NoHlevPrivate, t, Zero) && hlevHistory == []
    {
      this.pid := pid;
      slots := new LlevState[ProcessStateStackSize](_ => blank);
      stackCurrent := -1;
      hlevState := HlevState(HUnknown, NoHlevPrivate, t, Zero);
      hlevHistory := [];
    }

    /** find_pos_in_stack: scan down from the top. */
    method FindPosInStack(lls: LlevKind) returns (r: int)
      requires Valid()
      ensures r == PosInStack(Stack(), lls)
    {
      ghost var st := Stack();
      r := stackCurrent;
      assert st[..r + 1] == st;
      while r >= 0
        invariant -1 <= r <= stackCurrent
        invariant PosInStack(st, lls) == PosInStack(st[..r + 1], lls)
        decreases r + 1
      {
        assert slots[r] == st[r] == st[..r + 1][r];
        if slots[r].bstate == lls {
          return;
        }
        assert st[..r + 1][..r] == st[..r];
        r := r - 1;
      }
    }

    /** old_process_push_llev_state: the new state goes on top; a stack that
     *  is already full makes the analysis abort. */
    method Push(pstate: LlevState) returns (aborted: bool)
      requires Valid() && PrivateFits(pstate)
      modifies this, slots
      ensures Valid()
      ensures aborted <==> old(stackCurrent) + 1 >= ProcessStateStackSize
      ensures !aborted ==> Stack() == old(Stack()) + [pstate]
      ensures aborted ==> Stack() == old(Stack())
      ensures hlevState == old(hlevState) && hlevHistory == old(hlevHistory)
    {
      if stackCurrent + 1 >= ProcessStateStackSize {
        return true;
      }
      stackCurrent := stackCurrent + 1;
      slots[stackCurrent] := pstate;
      aborted := false;
      assert Stack() == old(Stack()) + [pstate];
    }

    /** old_process_pop_llev_state. */
    method Pop(pstate: LlevState)
      requires Valid()
      modifies this, slots
      ensures Valid()
      ensures Stack() == Popped(old(Stack()), pstate)
      ensures hlevState == old(hlevState) && hlevHistory == old(hlevHistory)
    {
      if stackCurrent >= 0 {
        stackCurrent := stackCurrent - 1;
      }
      if stackCurrent == -1 {
        var aborted := Push(Refill(pstate));
      } else {
        assert Stack() == old(Stack())[..|old(Stack())| - 1];
      }
    }

    /** update_hlev_state at time t. */
    method UpdateHlevState(t: Time)
      requires Valid() && stackCurrent >= 0
      modifies this
      ensures Valid() && Stack() == old(Stack())
      ensures (hlevState, hlevHistory) == HlevStep(old(hlevState), old(hlevHistory), Stack(), t)
    {
      var top := slots[stackCurrent];
      var k := HlevKindOf(top);
      if hlevState.bstate == k {
        return;
      }
      var ended := hlevState.(timeEnd := t);
      if Compare(ended.timeBegin, ended.timeEnd) != 0 {
        hlevHistory := hlevHistory + [ended];
      }
      var priv := NewPrivate(k);
      hlevState := HlevState(k, priv, t, Zero);
    }

    /** The private data of the new high-level state, read from the stack. */
    method NewPrivate(k: HlevKind) returns (p: HlevPrivate)
      requires Valid() && stackCurrent >= 0 && k == HlevKindOf(slots[stackCurrent])
      ensures p == HlevPrivateFor(k, Stack())
    {
      assert Stack()[|Stack()| - 1] == slots[stackCurrent];
      match k
      case HBlocked =>
        var sp := FindPosInStack(LSyscall);
        var tp := FindPosInStack(LTrap);
        var entry := slots[..stackCurrent];
        assert entry == Stack()[..|Stack()| - 1];
        if sp >= 0 {
          p := BlockedInfo(slots[sp].priv.syscallId, tp > sp, BlockedSubstateOf(slots[sp].priv.substate), entry);
        } else {
          p := BlockedInfo(-1, tp > sp, BlockedUndefined, entry);
        }
      case HInterruptedIrq =>
        var ip := FindPosInStack(LIrq);
        p := IrqHInfo(slots[ip].priv.irq);
      case HInterruptedSoftIrq =>
        var ip := FindPosInStack(LSoftIrq);
        p := SoftIrqHInfo(slots[ip].priv.softirq);
      case _ =>
        p := NoHlevPrivate;
    }
  }

  /** prepare_push_item: the delayed-stack item for a push of state st at
   *  time t. A system call waits for its pop before it is processed, since
   *  what it does depends on the states pushed above it. */
  datatype PushItem = PushItem(waitForPop: bool, pid: int, bstate: LlevKind, timeBegin: Time)

  function PreparePushItem(pid: int, st: LlevKind, t: Time): (item: PushItem)
    ensures item.waitForPop <==> st == LSyscall
    ensures item.pid == pid && item.bstate == st && item.timeBegin == t
  {
    PushItem(st == LSyscall, pid, st, t)
  }

  // ---------------------------------------------------------------------
  // Searching the history
  // ---------------------------------------------------------------------

  /** The end times of the history strictly increase. */
  ghost predicate EndsSorted(history: seq<HlevState>) {
    forall i, j :: 0 <= i < j < |history| ==> Less(history[i].timeEnd, history[j].timeEnd)
  }

  /** The first state of the history ending after t, or the length of the
   *  history when there is none. */
  function FirstEndingAfter(history: seq<HlevState>, t: Time): (i: nat)
    ensures i <= |history|
    ensures i < |history| ==> Less(t, history[i].timeEnd)
    ensures forall j :: 0 <= j < i ==> !Less(t, history[j].timeEnd)
  {
    if |history| == 0 then 0
    else if Less(t, history[0].timeEnd) then 0
    else 1 + FirstEndingAfter(history[1..], t)
  }

  /** The test dicho_search_state_ending_after makes on over =
   *  len - 1 before searching, as written: it gives up on a history of one
   *  state. */
  function EmptyGuardAsWritten(len: nat): bool {
    len - 1 < 1
  }

  /** The test as intended: give up on an empty history only. */
  function EmptyGuard(len: nat): (r: bool)
    ensures r <==> len == 0
  {
    len - 1 < 0
  }

  /** A history of one state that ends after t has a match at index 0, which
   *  the written test refuses to return. */
  lemma GuardRejectsSingleState(s: HlevState, t: Time)
    requires Less(t, s.timeEnd)
    ensures EmptyGuardAsWritten(|[s]|) && !EmptyGuard(|[s]|)
    ensures FirstEndingAfter([s], t) == 0
  {
  }

  /** dicho_search_state_ending_after, with the empty-history test as
   *  intended: -1 when no state ends after t, otherwise the index just
   *  after the last state ending at or before t, found by bisection. On a
   *  history sorted by end time this is the first state ending after t. */
  method DichoSearch(history: seq<HlevState>, t: Time) returns (r: int)
    ensures r == -1 <==> |history| == 0 || !Less(t, history[|history| - 1].timeEnd)
    ensures r != -1 ==> 0 <= r < |history| && (r == 0 || !Less(t, history[r - 1].timeEnd))
    ensures r != -1 && EndsSorted(history) ==> r == FirstEndingAfter(history, t)
  {
    var under := 0;
    var over := |history| - 1;
    if EmptyGuard(|history|) {
      return -1;
    }
    if Compare(history[over].timeEnd, t) <= 0 {
      return -1;
    }
    if Compare(history[under].timeEnd, t) >= 1 {
      FirstIsFirst(history, t, 0);
      return under;
    }
    while true
      invariant 0 <= under < over < |history|
      invariant !Less(t, history[under].timeEnd) && Less(t, history[over].timeEnd)
      decreases over - under
    {
      var dicho := (under + over) / 2;
      var result := Compare(history[dicho].timeEnd, t);
      if result == -1 {
        under := dicho;
      } else if result == 1 {
        over := dicho;
      } else {
        if EndsSorted(history) {
          FirstIsFirst(history, t, dicho + 1);
        }
        return dicho + 1;
      }
      if over - under == 1 {
        if EndsSorted(history) {
          FirstIsFirst(history, t, over);
        }
        return over;
      }
    }
  }

  /** On a sorted history, an index whose state ends after t while the one
   *  before does not is the first ending after t. */
  lemma FirstIsFirst(history: seq<HlevState>, t: Time, i: nat)
    requires i < |history| && Less(t, history[i].timeEnd)
    requires i == 0 || !Less(t, history[i - 1].timeEnd)
    requires i == 0 || EndsSorted(history)
    ensures FirstEndingAfter(history, t) == i
  {
    var f := FirstEndingAfter(history, t);
    if f < i {
      assert Less(t, history[f].timeEnd);
      if f < i - 1 {
        CompareTransitive(t, history[f].timeEnd, history[i - 1].timeEnd);
      }
      assert false;
    }
  }

  // ---------------------------------------------------------------------
  // Episodes, pids and command-line times
  // ---------------------------------------------------------------------

  ghost predicate Episode(s: HlevState) {
    LessEq(s.timeBegin, s.timeEnd) && Normal(s.timeBegin) && Normal(s.timeEnd)
  }

  function Duration(s: HlevState): Time
    requires Episode(s)
  {
    Sub(s.timeEnd, s.timeBegin)
  }

  /** compare_states_length: the order that sorts episodes longest first. */
  function CompareStatesLength(a: HlevState, b: HlevState): (c: int)
    requires Episode(a) && Episode(b)
    ensures c == -1 || c == 0 || c == 1
    ensures c < 0 <==> Nanos(Duration(a)) > Nanos(Duration(b))
    ensures c == 0 <==> Nanos(Duration(a)) == Nanos(Duration(b))
  {
    NanosMonotonic(Duration(b), Duration(a));
    NanosMonotonic(Duration(a), Duration(b));
    Compare(Duration(b), Duration(a))
  }

  /** The order is antisymmetric, as the sort requires. */
  lemma CompareStatesLengthAntisymmetric(a: HlevState, b: HlevState)
    requires Episode(a) && Episode(b)
    ensures CompareStatesLength(a, b) == -CompareStatesLength(b, a)
  {
    CompareAntisymmetric(Duration(a), Duration(b));
  }

  /** differentiate_swappers: pid 0 stands for the swapper of each CPU, which
   *  gets a pid of its own above SwapperPidBase. */
  function DifferentiateSwappers(pid: int, cpu: nat): (r: int)
    ensures pid != 0 ==> r == pid
    ensures pid == 0 ==> r == SwapperPidBase + cpu
  {
    if pid == 0 then pid + cpu + SwapperPidBase else pid
  }

  /** Swappers of different CPUs get different pids, and a swapper never
   *  takes the pid of a process numbered below SwapperPidBase. */
  lemma SwappersDistinct(cpu1: nat, cpu2: nat, pid: int)
    ensures cpu1 != cpu2 ==> DifferentiateSwappers(0, cpu1) != DifferentiateSwappers(0, cpu2)
    ensures 0 < pid < SwapperPidBase ==> DifferentiateSwappers(pid, cpu2) != DifferentiateSwappers(0, cpu1)
  {
  }

  /** ltt_time_from_string: seconds before the first dot and nanoseconds
   *  after it, each read by atol and stored in an unsigned long; without a
   *  dot, whole seconds. The C code writes a NUL over the dot, so the string
   *  it leaves is returned too. */
  function TimeFromString(s: string): (r: (Time, string))
    ensures '.' !in s ==> r == (Time(Atol(s) % ULongModulus, 0), s)
    ensures '.' in s ==> r.1 == s[..IndexOf(s, '.').value] && '.' !in r.1
  {
    match IndexOf(s, '.')
    case None => (Time(Atol(s) % ULongModulus, 0), s)
    case Some(d) => (Time(Atol(s[..d]) % ULongModulus, Atol(s[d + 1..]) % ULongModulus), s[..d])
  }

  /** A time written as seconds, a dot and nanoseconds is read back. */
  lemma TimeFromStringRoundTrip(sec: nat, nsec: nat)
    requires sec <= LongMax && nsec <= LongMax
    ensures TimeFromString(Decimal(sec) + "." + Decimal(nsec)).0 == Time(sec, nsec)
    ensures TimeFromString(Decimal(sec)).0 == Time(sec, 0)
  {
    var d := Decimal(sec);
    NoDotInDecimal(sec);
    DotSplit(d, Decimal(nsec));
    AtolOfDecimal(sec);
    AtolOfDecimal(nsec);
  }

  lemma NoDotInDecimal(n: nat)
    ensures '.' !in Decimal(n)
  {
    var d := Decimal(n);
    forall k | 0 <= k < |d| ensures d[k] != '.' {
      assert IsDigit(d[k]);
    }
  }

  /** Splitting at the only dot. */
  lemma DotSplit(a: string, b: string)
    requires '.' !in a
    ensures IndexOf(a + "." + b, '.') == Some(|a|)
    ensures (a + "." + b)[..|a|] == a && (a + "." + b)[|a| + 1..] == b
  {
    var s := a + "." + b;
    assert s[..|a|] == a;
    IndexOfFirst(s, '.', |a|);
    assert s[|a| + 1..] == b;
  }

  /** atol of a decimal numeral that fits a long, kept by the unsigned
   *  long it is stored in. */
  lemma AtolOfDecimal(n: nat)
    requires n <= LongMax
    ensures Atol(Decimal(n)) % ULongModulus == n
  {
    assert Decimal(n) + "" == Decimal(n);
    StrToLOfDecimal(n, "");
    ModInRange(n, ULongModulus);
  }
}
