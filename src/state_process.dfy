/** Process records of trunk/lttv/lttv/lttv/state.c: the key of the process
 *  table (process_hash, process_equal), a freshly created process
 *  (lttv_state_create_process, lttv_state_find_process_or_create), the
 *  status an outgoing process takes at a scheduler switch (schedchange),
 *  and the search for the closest saved state
 *  (lttv_state_traceset_seek_time_closest). */
module StateProcess {
  import opened LttTime
  import opened Wrappers
  import opened CStdlib
  import opened StateStacks

  /** Process types (LTTV_STATE_USER_THREAD, LTTV_STATE_KERNEL_THREAD). */
  datatype ProcessType = UserThread | KernelThread

  /** One LttvProcessState.  The usertrace pointer is not modelled. */
  datatype Process = Process(
    pid: nat, tgid: nat, ppid: nat, cpu: nat, name: string, brand: string,
    ptype: ProcessType, creationTime: Time, insertionTime: Time, pidTime: string,
    freeEvents: nat, executionStack: seq<ExecutionState>, userStack: FunctionStack)

  /** What process_equal tells apart: the pid, and for pid 0 (one swapper
   *  per CPU) the CPU as well. */
  datatype ProcessKey = PidKey(pid: nat) | SwapperKey(cpu: nat)

  function KeyOf(pid: nat, cpu: nat): ProcessKey
  {
    if pid == 0 then SwapperKey(cpu) else PidKey(pid)
  }

  /** process_equal. */
  predicate ProcessEqual(a: Process, b: Process)
  {
    if a.pid != b.pid then false
    else if a.pid == 0 && a.cpu != b.cpu then false
    else true
  }

  /** Two processes are equal for the table exactly when their keys are. */
  lemma ProcessEqualIsKeyEquality(a: Process, b: Process)
    ensures ProcessEqual(a, b) <==> KeyOf(a.pid, a.cpu) == KeyOf(b.pid, b.cpu)
  {
  }

  /** process_equal is an equivalence, as a hash table needs it to be. */
  lemma ProcessEqualIsEquivalence(a: Process, b: Process, c: Process)
    ensures ProcessEqual(a, a)
    ensures ProcessEqual(a, b) ==> ProcessEqual(b, a)
    ensures ProcessEqual(a, b) && ProcessEqual(b, c) ==> ProcessEqual(a, c)
  {
  }

  /** process_hash on a 32-bit guint pid. */
  function ProcessHash(pid: bv32): (h: bv32)
  {
    (pid >> 8) ^ (pid >> 4) ^ (pid >> 2) ^ pid
  }

  /** A pid as the guint the hash works on. */
  function PidBits(pid: nat): bv32
    requires pid < 0x1_0000_0000
  {
    pid as bv32
  }

  /** The hash reads the pid alone, so processes that process_equal
   *  identifies hash alike. */
  lemma HashRespectsEqual(a: Process, b: Process)
    requires a.pid < 0x1_0000_0000 && b.pid < 0x1_0000_0000
    requires ProcessEqual(a, b)
    ensures ProcessHash(PidBits(a.pid)) == ProcessHash(PidBits(b.pid))
  {
    assert a.pid == b.pid;
  }

  /** The swappers of all CPUs share the one bucket of pid 0. */
  lemma SwappersShareBucket()
    ensures ProcessHash(0) == 0
    ensures ProcessHash(1) == 1 && ProcessHash(4) == 5 && ProcessHash(256) == 337
  {
  }

  /** "%d" of a guint: the value as a 32-bit int. */
  function IntDecimal(v: nat): (s: string)
    requires v < UIntModulus
    ensures |s| > 0
  {
    if v <= IntMax then Decimal(v) else "-" + Decimal(UIntModulus - v)
  }

  /** The pid_time quark of lttv_state_create_process: "%d-%lu.%lu" of the
   *  pid and the creation time. */
  function PidTime(pid: nat, creationTime: Time): string
    requires pid < UIntModulus
  {
    IntDecimal(pid) + "-" + Decimal(creationTime.sec) + "." + Decimal(creationTime.nsec)
  }

  /** lttv_state_create_process: the record inserted into the table.  A
   *  process with no parent gets ppid 0 and creation time 0; its insertion
   *  time is now either way. */
  function NewProcess(parent: Option<Process>, cpu: nat, pid: nat, tgid: nat,
                      name: string, now: Time): (p: Process)
    requires pid < UIntModulus
    ensures p.pid == pid && p.tgid == tgid && p.cpu == cpu && p.name == name
    ensures p.ppid == (if parent.Some? then parent.value.pid else 0)
    ensures p.creationTime == (if parent.Some? then now else Zero)
    ensures p.insertionTime == now && p.freeEvents == 0
    ensures p.executionStack ==
      [ExecutionState(UserMode, SubmodeNone, now, now, Zero, Run),
       ExecutionState(Syscall, SubmodeNone, now, now, Zero, WaitFork)]
    ensures p.userStack == FunctionStack([], 0)
  {
    var creation := if parent.Some? then now else Zero;
    Process(pid, tgid, if parent.Some? then parent.value.pid else 0, cpu, name, "",
            UserThread, creation, now, PidTime(pid, creation), 0,
            [ExecutionState(UserMode, SubmodeNone, now, now, Zero, Run),
             ExecutionState(Syscall, SubmodeNone, now, now, Zero, WaitFork)],
            FunctionStack([], 0))
  }

  /** The process lttv_state_find_process_or_create (and the initial state
   *  of each CPU) creates for an unknown pid: no parent, no name, and a
   *  single state of unknown mode and status. */
  function UnknownProcess(cpu: nat, pid: nat, now: Time): (p: Process)
    requires pid < UIntModulus
    ensures p.pid == pid && p.cpu == cpu && p.tgid == 0 && p.ppid == 0 && p.name == ""
    ensures p.creationTime == Zero && p.insertionTime == now && p.freeEvents == 0
    ensures p.executionStack == [ExecutionState(ModeUnknown, SubmodeNone, now, now, Zero, Unnamed)]
  {
    var p := NewProcess(None, cpu, pid, 0, "", now);
    p.(executionStack := [p.executionStack[0].(t := ModeUnknown, s := Unnamed)])
  }

  /** The invariant kept on every execution stack: never empty, and the
   *  unknown mode only at the bottom (nothing ever pushes it). */
  ghost predicate StackWellFormed(stack: seq<ExecutionState>)
  {
    |stack| > 0 && forall i :: 0 < i < |stack| ==> stack[i].t != ModeUnknown
  }

  lemma NewProcessesWellFormed(parent: Option<Process>, cpu: nat, pid: nat, tgid: nat,
                               name: string, now: Time)
    requires pid < UIntModulus
    ensures StackWellFormed(NewProcess(parent, cpu, pid, tgid, name, now).executionStack)
    ensures StackWellFormed(UnknownProcess(cpu, pid, now).executionStack)
  {
  }

  /** Pushes of known modes and every pop keep the invariant. */
  lemma PushPopKeepWellFormed(stack: seq<ExecutionState>, t: ExecutionMode, n: Submode, now: Time)
    requires StackWellFormed(stack) && t != ModeUnknown
    ensures StackWellFormed(PushState(stack, t, n, now))
    ensures StackWellFormed(PopState(stack, t, now))
  {
    var r := PopState(stack, t, now);
    if Top(stack).t == t && |stack| > 1 {
      forall i | 0 < i < |r| ensures r[i].t != ModeUnknown {
        if i < |r| - 1 { assert r[i] == stack[..|stack| - 2][i]; }
      }
    }
  }

  /** On a well-formed stack an unknown top is the only state, which is
   *  why the assertion of schedchange on pid 0 cannot fail. */
  lemma UnknownTopIsAlone(stack: seq<ExecutionState>)
    requires StackWellFormed(stack) && Top(stack).t == ModeUnknown
    ensures |stack| == 1
  {
  }

  /** The status schedchange gives the process scheduled out: ZOMBIE after
   *  EXIT, otherwise WAIT_CPU when it was still runnable (state 0) and
   *  WAIT when it was not. */
  function OutgoingStatus(s: ProcessStatus, stateOut: int): (r: ProcessStatus)
    ensures s == Exit ==> r == Zombie
    ensures s != Exit ==> (r == WaitCpu <==> stateOut == 0)
    ensures s != Exit ==> (r == Wait <==> stateOut != 0)
  {
    if s == Exit then Zombie else if stateOut == 0 then WaitCpu else Wait
  }

  /** The state values 32 (EXIT_DEAD) and 64 (TASK_DEAD) of sched.h. */
  predicate IsDeadState(stateOut: int) { stateOut == 32 || stateOut == 64 }

  /** The base of the CPU mode stack after a switch to pid_in whose top
   *  state has mode t: idle for the swapper, busy otherwise, with the trap
   *  mode on top when the incoming process is in a trap. */
  function ScheduledCpuModes(pidIn: nat, t: ExecutionMode): (r: seq<CpuMode>)
    ensures pidIn == 0 ==> r == [CpuIdle]
    ensures pidIn != 0 && t == Trap ==> r == [CpuBusy, CpuTrap]
    ensures pidIn != 0 && t != Trap ==> r == [CpuBusy]
  {
    if pidIn == 0 then SetBaseMode(CpuIdle)
    else if t == Trap then PushMode(SetBaseMode(CpuBusy), CpuTrap)
    else SetBaseMode(CpuBusy)
  }

  /** The process with its top state replaced. */
  function SetTop(p: Process, e: ExecutionState): (r: Process)
    requires |p.executionStack| > 0
    ensures |r.executionStack| == |p.executionStack| && Top(r.executionStack) == e
    ensures r.executionStack[..|r.executionStack| - 1] == p.executionStack[..|p.executionStack| - 1]
    ensures r == p.(executionStack := r.executionStack)
  {
    p.(executionStack := p.executionStack[..|p.executionStack| - 1] + [e])
  }

  /** Changing the top of a well-formed stack to a state of the same mode
   *  keeps it well formed. */
  lemma SetTopKeepsWellFormed(p: Process, e: ExecutionState)
    requires StackWellFormed(p.executionStack) && e.t == Top(p.executionStack).t
    ensures StackWellFormed(SetTop(p, e).executionStack)
  {
    var r := SetTop(p, e).executionStack;
    forall i | 0 < i < |r| ensures r[i].t != ModeUnknown {
      if i < |r| - 1 { assert r[i] == r[..|r| - 1][i]; }
    }
  }

  /** One call of exit_process: the first call only counts the event, the
   *  second removes the process (None). */
  function ExitStep(p: Process): (r: Option<Process>)
    ensures r.None? <==> p.freeEvents >= 1
    ensures r.Some? ==> r.value == p.(freeEvents := p.freeEvents + 1)
  {
    if p.freeEvents + 1 < 2 then Some(p.(freeEvents := p.freeEvents + 1)) else None
  }

  /** A process is freed after both the scheduler's dead-state switch and
   *  the free event have been seen, in either order: never after one. */
  lemma FreedOnSecondExit(p: Process)
    requires p.freeEvents == 0
    ensures ExitStep(p).Some?
    ensures ExitStep(ExitStep(p).value).None?
  {
  }

  /** What schedchange does to the process scheduled out: None when it is
   *  removed from the table.  The swapper still in the unknown mode is only
   *  known to be in a waiting system call when it is itself switched out. */
  function ScheduleOut(p: Process, pidOut: nat, stateOut: int, now: Time): (r: Option<Process>)
    requires StackWellFormed(p.executionStack)
    ensures p.pid == 0 && Top(p.executionStack).t == ModeUnknown ==>
      r.Some? && (pidOut != 0 ==> r.value == p) &&
      (pidOut == 0 ==> r.value == p.(executionStack := [
         Top(p.executionStack).(t := Syscall, s := Wait, change := now, entry := now)]))
    ensures !(p.pid == 0 && Top(p.executionStack).t == ModeUnknown) ==>
      (r.None? <==> IsDeadState(stateOut) && p.freeEvents >= 1) &&
      (r.Some? ==>
        |r.value.executionStack| == |p.executionStack| &&
        r.value.executionStack[..|p.executionStack| - 1] == p.executionStack[..|p.executionStack| - 1] &&
        Top(r.value.executionStack) == Top(p.executionStack).(
          s := if IsDeadState(stateOut) then Dead else OutgoingStatus(Top(p.executionStack).s, stateOut),
          change := now) &&
        r.value.freeEvents == (if IsDeadState(stateOut) then p.freeEvents + 1 else p.freeEvents))
    ensures r.Some? ==>
      StackWellFormed(r.value.executionStack) && r.value.pid == p.pid && r.value.cpu == p.cpu
  {
    var top := Top(p.executionStack);
    if p.pid == 0 && top.t == ModeUnknown then
      if pidOut == 0 then
        UnknownTopIsAlone(p.executionStack);
        Some(SetTop(p, top.(t := Syscall, s := Wait, change := now, entry := now)))
      else Some(p)
    else
      var p1 := SetTop(p, top.(s := OutgoingStatus(top.s, stateOut), change := now));
      if IsDeadState(stateOut) then
        match ExitStep(p1)
        case None => None
        case Some(p2) => Some(SetTop(p2, Top(p2.executionStack).(s := Dead, change := now)))
      else Some(p1)
  }

  /** The incoming process after schedchange: running, on this CPU. */
  function ScheduleIn(q: Process, cpu: nat, now: Time): (r: Process)
    requires |q.executionStack| > 0
    ensures |r.executionStack| == |q.executionStack|
    ensures r.cpu == cpu && Top(r.executionStack).s == Run && Top(r.executionStack).change == now
    ensures Top(r.executionStack).t == Top(q.executionStack).t
    ensures r.executionStack[..|r.executionStack| - 1] == q.executionStack[..|q.executionStack| - 1]
  {
    SetTop(q, Top(q.executionStack).(s := Run, change := now)).(cpu := cpu)
  }

  /** lttv_state_find_process_or_create on a table given as a map: the
   *  process under the key of (pid, cpu), or a new unknown one. */
  function FindOrUnknown(table: map<ProcessKey, Process>, cpu: nat, pid: nat, now: Time): (p: Process)
    requires pid < UIntModulus
    ensures KeyOf(pid, cpu) in table ==> p == table[KeyOf(pid, cpu)]
    ensures KeyOf(pid, cpu) !in table ==> p == UnknownProcess(cpu, pid, now)
  {
    if KeyOf(pid, cpu) in table then table[KeyOf(pid, cpu)] else UnknownProcess(cpu, pid, now)
  }

  ghost predicate SortedTimes(times: seq<Time>)
  {
    forall i, j :: 0 <= i < j < |times| ==> LessEq(times[i], times[j])
  }

  /** C integer division of a value known to be at least -1 by 2
   *  (truncation toward zero). */
  function HalfTowardZero(x: int): int
  {
    if x >= 0 then x / 2 else -((-x) / 2)
  }

  /** The binary search of lttv_state_traceset_seek_time_closest over the
   *  times of the saved states: the position of the last saved state
   *  strictly before t, or -1 when there is none. */
  method ClosestSavedState(times: seq<Time>, t: Time) returns (minPos: int)
    requires |times| <= IntMax
    ensures -1 <= minPos < |times|
    ensures minPos >= 0 ==> Less(times[minPos], t)
    ensures SortedTimes(times) && minPos + 1 < |times| ==> !Less(times[minPos + 1], t)
    ensures SortedTimes(times) && minPos == -1 ==> forall i :: 0 <= i < |times| ==> !Less(times[i], t)
  {
    minPos := -1;
    var maxPos := |times| - 1;
    var midPos := HalfTowardZero(maxPos);
    while minPos < maxPos
      invariant -1 <= minPos <= maxPos < |times|
      invariant minPos < maxPos ==> midPos == (minPos + maxPos + 1) / 2
      invariant minPos >= 0 ==> Less(times[minPos], t)
      invariant maxPos + 1 < |times| ==> !Less(times[maxPos + 1], t)
      decreases maxPos - minPos
    {
      if Less(times[midPos], t) {
        minPos := midPos;
      } else {
        maxPos := midPos - 1;
      }
      midPos := HalfTowardZero(minPos + maxPos + 1);
    }
    if SortedTimes(times) && minPos == -1 && |times| > 0 {
      forall i | 0 <= i < |times| ensures !Less(times[i], t) {
        CompareTransitive(times[0], times[0], times[i]);
        if Less(times[i], t) {
          CompareTransitive(times[0], times[i], t);
        }
      }
    }
  }

  /** What seek_time_closest does for one trace. */
  datatype SeekPlan = RestoreSaved(index: nat) | RestoreInitAndSeek(to: Time)

  /** A time before the last recomputed state restores the closest earlier
   *  saved state, or the initial state at time 0 when there is none; a
   *  later time restores the initial state and seeks straight to t. */
  method SeekTimeClosest(times: seq<Time>, maxRecomputed: Time, t: Time) returns (plan: SeekPlan)
    requires |times| <= IntMax
    ensures !Less(t, maxRecomputed) ==> plan == RestoreInitAndSeek(t)
    ensures plan.RestoreSaved? ==> plan.index < |times| && Less(times[plan.index], t)
    ensures SortedTimes(times) && plan.RestoreSaved? && plan.index + 1 < |times| ==>
      !Less(times[plan.index + 1], t)
    ensures Less(t, maxRecomputed) && plan.RestoreInitAndSeek? ==>
      plan.to == Zero && (SortedTimes(times) ==> forall i :: 0 <= i < |times| ==> !Less(times[i], t))
  {
    if Less(t, maxRecomputed) {
      var minPos := ClosestSavedState(times, t);
      if minPos != -1 {
        plan := RestoreSaved(minPos);
      } else {
        plan := RestoreInitAndSeek(Zero);
      }
    } else {
      plan := RestoreInitAndSeek(t);
    }
  }
}
