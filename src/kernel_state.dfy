/** The trace state of trunk/lttv/lttv/lttv/state.c and the event handlers
 *  that update it: scheduler switches, system calls, traps, IRQs, soft
 *  IRQs, block device requests and user-space function calls.  The hash
 *  table of processes is a map from the key process_equal compares; the
 *  running_process array holds keys into it. */
module KernelState {
  import opened LttTime
  import opened Wrappers
  import opened CStdlib
  import opened StateStacks
  import opened StateTables
  import opened StateProcess

  /** One LttvCPUState: its mode stack and the last IRQ, soft IRQ and trap
   *  it entered (-1 for none). */
  datatype CpuState = CpuState(modeStack: seq<CpuMode>, lastIrq: int, lastSoftIrq: int, lastTrap: int)

  /** The record kept under a key: it is the process of that key, its pid
   *  is a guint and its execution stack is well formed. */
  ghost predicate ProcessOk(k: ProcessKey, p: Process)
  {
    KeyOf(p.pid, p.cpu) == k && p.pid < UIntModulus && StackWellFormed(p.executionStack)
  }

  /** The incoming process stays under its key once it runs on cpu. */
  lemma ScheduleInKeepsProcessOk(k: ProcessKey, q: Process, pid: nat, cpu: nat, now: Time)
    requires ProcessOk(k, q) && k == KeyOf(pid, cpu)
    ensures ProcessOk(k, ScheduleIn(q, cpu, now))
  {
    SetTopKeepsWellFormed(q, Top(q.executionStack).(s := Run, change := now));
  }

  /** Every process of the table sits under its own key. */
  ghost predicate ProcessesOk(m: map<ProcessKey, Process>)
  {
    forall k :: k in m ==> ProcessOk(k, m[k])
  }

  /** Storing a well-formed process keeps the table well-formed. */
  lemma ProcessesOkUpdate(m: map<ProcessKey, Process>, k: ProcessKey, p: Process)
    requires ProcessesOk(m) && ProcessOk(k, p)
    ensures ProcessesOk(m[k := p])
  {
  }

  lemma UpdateTwice(m: map<ProcessKey, Process>, k: ProcessKey, a: Process, b: Process)
    ensures m[k := a][k := b] == m[k := b]
  {
  }

  /** The per-CPU part of restore_init_state: one swapper per CPU and the
   *  CPU states with nothing running in any mode. */
  method SwapperTables(nbCpus: nat, start: Time)
    returns (procs: map<ProcessKey, Process>, run: seq<ProcessKey>, cpus: seq<CpuState>)
    ensures |run| == nbCpus && |cpus| == nbCpus
    ensures forall c :: 0 <= c < nbCpus ==>
      run[c] == SwapperKey(c) && run[c] in procs &&
      procs[run[c]] == UnknownProcess(c, 0, start) &&
      cpus[c] == CpuState([], -1, -1, -1)
    ensures procs.Keys == set c | 0 <= c < nbCpus :: SwapperKey(c)
    ensures ProcessesOk(procs)
  {
    procs, run, cpus := map[], [], [];
    var i := 0;
    while i < nbCpus
      invariant i <= nbCpus && |run| == i && |cpus| == i
      invariant forall c :: 0 <= c < i ==>
        run[c] == SwapperKey(c) && run[c] in procs &&
        procs[run[c]] == UnknownProcess(c, 0, start) &&
        cpus[c] == CpuState([], -1, -1, -1)
      invariant procs.Keys == set c | 0 <= c < i :: SwapperKey(c)
      invariant ProcessesOk(procs)
    {
      NewProcessesWellFormed(None, i, 0, 0, "", start);
      procs := procs[SwapperKey(i) := UnknownProcess(i, 0, start)];
      run := run + [SwapperKey(i)];
      cpus := cpus + [CpuState([], -1, -1, -1)];
      i := i + 1;
    }
  }

  /** The last ids of a CPU are -1 or index the tables. */
  ghost predicate LastIdsOk(c: CpuState, nbIrqs: nat, nbSoftIrqs: nat, nbTraps: nat)
  {
    -1 <= c.lastIrq < nbIrqs && -1 <= c.lastSoftIrq < nbSoftIrqs && -1 <= c.lastTrap < nbTraps
  }

  /** restore_init_state's reset of one CPU: only a CPU with a mode stack
   *  has it emptied and its last ids cleared. */
  function ResetCpu(c: CpuState): (r: CpuState)
    ensures r.modeStack == []
    ensures |c.modeStack| > 0 ==> r.lastIrq == -1 && r.lastSoftIrq == -1 && r.lastTrap == -1
    ensures c.modeStack == [] ==> r == c
  {
    if |c.modeStack| > 0 then CpuState([], -1, -1, -1) else c
  }

  /** Resetting CPUs keeps their last ids within the tables. */
  lemma ResetKeepsLastIds(cpus: seq<CpuState>, cs: seq<CpuState>, nbIrqs: nat, nbSoftIrqs: nat, nbTraps: nat)
    requires forall c :: 0 <= c < |cpus| ==> LastIdsOk(cpus[c], nbIrqs, nbSoftIrqs, nbTraps)
    requires |cs| == |cpus| && forall c :: 0 <= c < |cs| ==> cs[c] == ResetCpu(cpus[c])
    ensures forall c :: 0 <= c < |cs| ==> LastIdsOk(cs[c], nbIrqs, nbSoftIrqs, nbTraps)
  {
  }

  /** The reset loops of restore_init_state over the CPU, IRQ, soft IRQ
   *  and trap tables. */
  method ResetTables(cpus: seq<CpuState>, irqs: seq<seq<IrqMode>>, softs: seq<SoftIrqState>, traps: seq<TrapState>)
    returns (cs: seq<CpuState>, iqs: seq<seq<IrqMode>>, ss: seq<SoftIrqState>, ts: seq<TrapState>)
    ensures |cs| == |cpus| && forall c :: 0 <= c < |cs| ==> cs[c] == ResetCpu(cpus[c])
    ensures |iqs| == |irqs| && forall i :: 0 <= i < |iqs| ==> iqs[i] == []
    ensures |ss| == |softs| && forall i :: 0 <= i < |ss| ==> ss[i] == SoftIrqState(0, 0)
    ensures |ts| == |traps| && forall i :: 0 <= i < |ts| ==> ts[i] == TrapState(0)
  {
    cs, iqs, ss, ts := cpus, irqs, softs, traps;
    for c := 0 to |cs|
      invariant |cs| == |cpus| && forall k :: 0 <= k < |cs| ==> cs[k] == if k < c then ResetCpu(cpus[k]) else cpus[k]
    {
      if |cs[c].modeStack| > 0 {
        cs := cs[c := CpuState([], -1, -1, -1)];
      }
    }
    for i := 0 to |iqs|
      invariant |iqs| == |irqs| && forall k :: 0 <= k < i ==> iqs[k] == []
    {
      if |iqs[i]| > 0 {
        iqs := iqs[i := []];
      }
    }
    for i := 0 to |ss|
      invariant |ss| == |softs| && forall k :: 0 <= k < i ==> ss[k] == SoftIrqState(0, 0)
    {
      ss := ss[i := SoftIrqState(0, 0)];
    }
    for i := 0 to |ts|
      invariant |ts| == |traps| && forall k :: 0 <= k < i ==> ts[k] == TrapState(0)
    {
      ts := ts[i := TrapState(0)];
    }
  }

  class TraceState {
    var processes: map<ProcessKey, Process>
    var running: seq<ProcessKey>
    var cpuStates: seq<CpuState>
    var irqStates: seq<seq<IrqMode>>
    var softIrqStates: seq<SoftIrqState>
    var trapStates: seq<TrapState>
    var bdevStates: map<nat, seq<BdevMode>>
    var syscallNames: seq<string>
    var trapNames: seq<string>
    var irqNames: seq<string>
    var softIrqNames: seq<string>

    ghost predicate Valid()
      reads this
    {
      |running| == |cpuStates| &&
      ProcessesOk(processes) &&
      |irqNames| == |irqStates| && |softIrqNames| == |softIrqStates| &&
      |trapNames| == |trapStates| &&
      (forall c :: 0 <= c < |cpuStates| ==>
        LastIdsOk(cpuStates[c], |irqStates|, |softIrqStates|, |trapStates|))
    }

    /** The tables an event about processes leaves alone. */
    twostate predicate ResourcesUnchanged()
      reads this
    {
      irqStates == old(irqStates) && softIrqStates == old(softIrqStates) &&
      trapStates == old(trapStates) && bdevStates == old(bdevStates) &&
      syscallNames == old(syscallNames) && trapNames == old(trapNames) &&
      irqNames == old(irqNames) && softIrqNames == old(softIrqNames)
    }

    /** The state init creates for a trace of nbCpus CPUs, then resets with
     *  restore_init_state: the name tables create_name_tables builds
     *  (given here) size the IRQ, soft IRQ and trap tables; each CPU runs
     *  its own swapper, created as an unknown process at the start time,
     *  and has an empty mode stack and no last IRQ, soft IRQ or trap; no
     *  IRQ is busy, no soft IRQ pending or running, no trap running and
     *  no block device known. */
    constructor (nbCpus: nat, start: Time, syscallNames: seq<string>, trapNames: seq<string>,
                 irqNames: seq<string>, softIrqNames: seq<string>)
      ensures Valid()
      ensures |running| == nbCpus
      ensures forall c :: 0 <= c < nbCpus ==>
        running[c] == SwapperKey(c) && running[c] in processes &&
        processes[running[c]] == UnknownProcess(c, 0, start) &&
        cpuStates[c] == CpuState([], -1, -1, -1)
      ensures processes.Keys == set c | 0 <= c < nbCpus :: SwapperKey(c)
      ensures this.syscallNames == syscallNames && this.trapNames == trapNames
      ensures this.irqNames == irqNames && this.softIrqNames == softIrqNames
      ensures |irqStates| == |irqNames| && forall i :: 0 <= i < |irqStates| ==> irqStates[i] == []
      ensures |softIrqStates| == |softIrqNames| &&
        forall i :: 0 <= i < |softIrqStates| ==> softIrqStates[i] == SoftIrqState(0, 0)
      ensures |trapStates| == |trapNames| && forall i :: 0 <= i < |trapStates| ==> trapStates[i] == TrapState(0)
      ensures bdevStates == map[]
    {
      var procs, run, cpus := SwapperTables(nbCpus, start);
      processes, running, cpuStates := procs, run, cpus;
      irqStates := seq(|irqNames|, i => []);
      softIrqStates := seq(|softIrqNames|, i => SoftIrqState(0, 0));
      trapStates := seq(|trapNames|, i => TrapState(0));
      bdevStates := map[];
      this.syscallNames, this.trapNames, this.irqNames, this.softIrqNames :=
        syscallNames, trapNames, irqNames, softIrqNames;
    }

    /** restore_init_state on an existing state: the table sizes are kept
     *  and their entries reset in place.  Each CPU runs a new swapper; a
     *  CPU whose mode stack is not empty has it emptied and its last IRQ,
     *  soft IRQ and trap cleared, the others keep theirs; IRQ stacks are
     *  emptied, soft IRQs are neither pending nor running, traps run
     *  nothing, and the block devices are forgotten. */
    method RestoreInitState(start: Time)
      requires Valid()
      modifies this
      ensures Valid()
      ensures |running| == |cpuStates| == |old(cpuStates)|
      ensures forall c :: 0 <= c < |running| ==>
        running[c] == SwapperKey(c) && running[c] in processes &&
        processes[running[c]] == UnknownProcess(c, 0, start)
      ensures processes.Keys == set c | 0 <= c < |running| :: SwapperKey(c)
      ensures forall c :: 0 <= c < |cpuStates| ==> cpuStates[c] == ResetCpu(old(cpuStates[c]))
      ensures |irqStates| == |old(irqStates)| && forall i :: 0 <= i < |irqStates| ==> irqStates[i] == []
      ensures |softIrqStates| == |old(softIrqStates)| &&
        forall i :: 0 <= i < |softIrqStates| ==> softIrqStates[i] == SoftIrqState(0, 0)
      ensures |trapStates| == |old(trapStates)| && forall i :: 0 <= i < |trapStates| ==> trapStates[i] == TrapState(0)
      ensures bdevStates == map[]
      ensures syscallNames == old(syscallNames) && trapNames == old(trapNames)
      ensures irqNames == old(irqNames) && softIrqNames == old(softIrqNames)
    {
      var procs, run, _ := SwapperTables(|cpuStates|, start);
      var cs, iqs, ss, ts := ResetTables(cpuStates, irqStates, softIrqStates, trapStates);
      ResetKeepsLastIds(cpuStates, cs, |irqStates|, |softIrqStates|, |trapStates|);
      processes, running := procs, run;
      cpuStates, irqStates, softIrqStates, trapStates := cs, iqs, ss, ts;
      bdevStates := map[];
    }

    /** expand_syscall_table. */
    method ExpandSyscallTable(id: nat)
      requires Valid()
      modifies this
      ensures Valid()
      ensures syscallNames ==
        ExpandedNames(old(syscallNames), CheckExpand(|old(syscallNames)|, id), "syscall")
      ensures processes == old(processes) && running == old(running) && cpuStates == old(cpuStates)
      ensures irqStates == old(irqStates) && softIrqStates == old(softIrqStates)
      ensures trapStates == old(trapStates) && bdevStates == old(bdevStates)
      ensures trapNames == old(trapNames) && irqNames == old(irqNames) &&
              softIrqNames == old(softIrqNames)
    {
      var newNb := CheckExpand(|syscallNames|, id);
      if newNb == |syscallNames| {
        assert ExpandedNames(syscallNames, newNb, "syscall") == syscallNames;
        return;
      }
      syscallNames := FillNameTable(syscallNames, newNb, "syscall");
    }

    /** expand_trap_table, with nb_traps updated after the copy as in the
     *  IRQ and soft IRQ variants; the new entries run nothing. */
    method ExpandTrapTable(id: nat)
      requires Valid()
      modifies this
      ensures Valid()
      ensures trapNames == ExpandedNames(old(trapNames), CheckExpand(|old(trapNames)|, id), "trap")
      ensures trapStates == Grown(old(trapStates), CheckExpand(|old(trapStates)|, id), TrapState(0))
      ensures processes == old(processes) && running == old(running) && cpuStates == old(cpuStates)
      ensures irqStates == old(irqStates) && softIrqStates == old(softIrqStates)
      ensures bdevStates == old(bdevStates) && syscallNames == old(syscallNames)
      ensures irqNames == old(irqNames) && softIrqNames == old(softIrqNames)
    {
      var newNb := CheckExpand(|trapNames|, id);
      if newNb == |trapNames| {
        assert ExpandedNames(trapNames, newNb, "trap") == trapNames;
        assert Grown(trapStates, newNb, TrapState(0)) == trapStates;
        return;
      }
      trapNames := FillNameTable(trapNames, newNb, "trap");
      trapStates := GrowTable(trapStates, newNb, TrapState(0));
    }

    /** expand_irq_table: new IRQs get empty mode stacks. */
    method ExpandIrqTable(id: nat)
      requires Valid()
      modifies this
      ensures Valid()
      ensures irqNames == ExpandedNames(old(irqNames), CheckExpand(|old(irqNames)|, id), "irq")
      ensures irqStates == Grown(old(irqStates), CheckExpand(|old(irqStates)|, id), [])
      ensures processes == old(processes) && running == old(running) && cpuStates == old(cpuStates)
      ensures softIrqStates == old(softIrqStates) && trapStates == old(trapStates)
      ensures bdevStates == old(bdevStates) && syscallNames == old(syscallNames)
      ensures trapNames == old(trapNames) && softIrqNames == old(softIrqNames)
    {
      var newNb := CheckExpand(|irqNames|, id);
      if newNb == |irqNames| {
        assert ExpandedNames(irqNames, newNb, "irq") == irqNames;
        assert Grown(irqStates, newNb, []) == irqStates;
        return;
      }
      irqNames := FillNameTable(irqNames, newNb, "irq");
      irqStates := GrowTable(irqStates, newNb, []);
    }

    /** expand_soft_irq_table, with pending cleared as well as running in
     *  the new entries. */
    method ExpandSoftIrqTable(id: nat)
      requires Valid()
      modifies this
      ensures Valid()
      ensures softIrqNames ==
        ExpandedNames(old(softIrqNames), CheckExpand(|old(softIrqNames)|, id), "softirq")
      ensures softIrqStates ==
        Grown(old(softIrqStates), CheckExpand(|old(softIrqStates)|, id), SoftIrqState(0, 0))
      ensures processes == old(processes) && running == old(running) && cpuStates == old(cpuStates)
      ensures irqStates == old(irqStates) && trapStates == old(trapStates)
      ensures bdevStates == old(bdevStates) && syscallNames == old(syscallNames)
      ensures trapNames == old(trapNames) && irqNames == old(irqNames)
    {
      var newNb := CheckExpand(|softIrqNames|, id);
      if newNb == |softIrqNames| {
        assert ExpandedNames(softIrqNames, newNb, "softirq") == softIrqNames;
        assert Grown(softIrqStates, newNb, SoftIrqState(0, 0)) == softIrqStates;
        return;
      }
      softIrqNames := FillNameTable(softIrqNames, newNb, "softirq");
      softIrqStates := GrowTable(softIrqStates, newNb, SoftIrqState(0, 0));
    }

    /** Replaces the record of the process running on cpu. */
    method SetRunning(cpu: nat, p: Process)
      requires Valid() && cpu < |running| && ProcessOk(running[cpu], p)
      modifies this
      ensures Valid()
      ensures processes == old(processes)[old(running[cpu]) := p]
      ensures running == old(running) && cpuStates == old(cpuStates) && ResourcesUnchanged()
    {
      processes := processes[running[cpu] := p];
    }

    /** push_state on the process running on cpu. */
    method PushRunningState(cpu: nat, t: ExecutionMode, n: Submode, now: Time)
      requires Valid() && cpu < |running| && running[cpu] in processes && t != ModeUnknown
      modifies this
      ensures Valid()
      ensures processes == old(processes)[old(running[cpu]) := old(processes[running[cpu]]).(
        executionStack := PushState(old(processes[running[cpu]].executionStack), t, n, now))]
      ensures running == old(running) && cpuStates == old(cpuStates) && ResourcesUnchanged()
    {
      var p := processes[running[cpu]];
      PushPopKeepWellFormed(p.executionStack, t, n, now);
      SetRunning(cpu, p.(executionStack := PushState(p.executionStack, t, n, now)));
    }

    /** pop_state on the process running on cpu. */
    method PopRunningState(cpu: nat, t: ExecutionMode, now: Time)
      requires Valid() && cpu < |running| && running[cpu] in processes && t != ModeUnknown
      modifies this
      ensures Valid()
      ensures processes == old(processes)[old(running[cpu]) := old(processes[running[cpu]]).(
        executionStack := PopState(old(processes[running[cpu]].executionStack), t, now))]
      ensures running == old(running) && cpuStates == old(cpuStates) && ResourcesUnchanged()
    {
      var p := processes[running[cpu]];
      PushPopKeepWellFormed(p.executionStack, t, SubmodeNone, now);
      SetRunning(cpu, p.(executionStack := PopState(p.executionStack, t, now)));
    }

    /** lttv_state_create_process: the new record is inserted under its key,
     *  replacing any process of the same key. */
    method CreateProcess(parent: Option<Process>, cpu: nat, pid: nat, tgid: nat,
                         name: string, now: Time) returns (k: ProcessKey)
      requires Valid() && pid < UIntModulus
      modifies this
      ensures Valid()
      ensures k == KeyOf(pid, cpu)
      ensures processes == old(processes)[k := NewProcess(parent, cpu, pid, tgid, name, now)]
      ensures running == old(running) && cpuStates == old(cpuStates) && ResourcesUnchanged()
    {
      NewProcessesWellFormed(parent, cpu, pid, tgid, name, now);
      k := KeyOf(pid, cpu);
      processes := processes[k := NewProcess(parent, cpu, pid, tgid, name, now)];
    }

    /** lttv_state_find_process_or_create: the process under the key of
     *  (pid, cpu), created as an unknown process when there is none. */
    method FindProcessOrCreate(cpu: nat, pid: nat, now: Time) returns (k: ProcessKey)
      requires Valid() && pid < UIntModulus
      modifies this
      ensures Valid()
      ensures k == KeyOf(pid, cpu) && k in processes
      ensures processes == old(processes)[k := FindOrUnknown(old(processes), cpu, pid, now)]
      ensures running == old(running) && cpuStates == old(cpuStates) && ResourcesUnchanged()
    {
      k := KeyOf(pid, cpu);
      if k !in processes {
        k := CreateProcess(None, cpu, pid, 0, "", now);
        var p := processes[k];
        NewProcessesWellFormed(None, cpu, pid, 0, "", now);
        processes := processes[k := p.(executionStack := [p.executionStack[0].(t := ModeUnknown, s := Unnamed)])];
      }
    }

    /** exit_process: 0 while only one of the two closing events has been
     *  seen, 1 once the process has been removed. */
    method ExitProcess(k: ProcessKey) returns (r: int)
      requires Valid() && k in processes
      modifies this
      ensures Valid()
      ensures r in {0, 1}
      ensures r == 1 <==> ExitStep(old(processes[k])).None?
      ensures r == 1 ==> processes == old(processes) - {k}
      ensures r == 0 ==> processes == old(processes)[k := ExitStep(old(processes[k])).value]
      ensures running == old(running) && cpuStates == old(cpuStates) && ResourcesUnchanged()
    {
      var p := processes[k];
      p := p.(freeEvents := p.freeEvents + 1);
      if p.freeEvents < 2 {
        processes := processes[k := p];
        return 0;
      }
      processes := processes - {k};
      return 1;
    }

    /** The tables after schedchange, before the CPU mode is reset: the
     *  outgoing process updated or removed, then the incoming one found or
     *  created and made running. */
    ghost function AfterScheduleOut(table: map<ProcessKey, Process>, k: ProcessKey,
                                    pidOut: nat, stateOut: int, now: Time)
      : map<ProcessKey, Process>
    {
      if k in table && StackWellFormed(table[k].executionStack) then
        match ScheduleOut(table[k], pidOut, stateOut, now)
        case None => table - {k}
        case Some(p) => table[k := p]
      else table
    }

    /** The first half of schedchange: the process scheduled out of cpu
     *  takes its new status, and is removed or marked dead when it has
     *  exited. */
    method ScheduleOutRunning(cpu: nat, pidOut: nat, stateOut: int, now: Time)
      requires Valid() && cpu < |running|
      modifies this
      ensures Valid()
      ensures processes == AfterScheduleOut(old(processes), old(running[cpu]), pidOut, stateOut, now)
      ensures running == old(running) && cpuStates == old(cpuStates) && ResourcesUnchanged()
    {
      var k := running[cpu];
      if k !in processes {
        return;
      }
      var p := processes[k];
      var top := Top(p.executionStack);
      if p.pid == 0 && top.t == ModeUnknown {
        if pidOut == 0 {
          UnknownTopIsAlone(p.executionStack);
          SetRunning(cpu, SetTop(p, top.(t := Syscall, s := Wait, change := now, entry := now)));
        }
        return;
      }
      ghost var before := processes;
      var p1 := SetTop(p, top.(s := OutgoingStatus(top.s, stateOut), change := now));
      SetTopKeepsWellFormed(p, top.(s := OutgoingStatus(top.s, stateOut), change := now));
      SetRunning(cpu, p1);
      if IsDeadState(stateOut) {
        ghost var mid := processes;
        var removed := ExitProcess(k);
        if removed == 0 {
          var p2 := processes[k];
          assert p2 == ExitStep(p1).value;
          SetTopKeepsWellFormed(p2, Top(p2.executionStack).(s := Dead, change := now));
          SetRunning(cpu, SetTop(p2, Top(p2.executionStack).(s := Dead, change := now)));
          assert processes == before[k := SetTop(p2, Top(p2.executionStack).(s := Dead, change := now))];
        } else {
          assert processes == mid - {k} == before - {k};
        }
      } else {
        assert processes == before[k := p1];
      }
    }

    /** schedchange: after the process scheduled out is dealt with, the
     *  process of pid_in becomes the running one with status RUN, and the
     *  CPU is idle for the swapper and busy (in a trap, if the process is)
     *  otherwise. */
    method Schedchange(cpu: nat, pidOut: nat, pidIn: nat, stateOut: int, now: Time)
      requires Valid() && cpu < |running| && pidIn < UIntModulus
      modifies this
      ensures Valid()
      ensures running == old(running)[cpu := KeyOf(pidIn, cpu)]
      ensures processes ==
        (var mid := AfterScheduleOut(old(processes), old(running[cpu]), pidOut, stateOut, now);
         mid[KeyOf(pidIn, cpu) := ScheduleIn(FindOrUnknown(mid, cpu, pidIn, now), cpu, now)])
      ensures KeyOf(pidIn, cpu) in processes
      ensures cpuStates == old(cpuStates)[cpu := old(cpuStates[cpu]).(modeStack :=
        ScheduledCpuModes(pidIn, Top(processes[KeyOf(pidIn, cpu)].executionStack).t))]
      ensures ResourcesUnchanged()
    {
      ScheduleOutRunning(cpu, pidOut, stateOut, now);
      var kin := ScheduleInRunning(cpu, pidIn, now);
      SetCpuModes(cpu, ScheduledCpuModes(pidIn, Top(processes[kin].executionStack).t));
    }

    /** Replaces the mode stack of cpu (cpu_set_base_mode, cpu_push_mode). */
    method SetCpuModes(cpu: nat, modes: seq<CpuMode>)
      requires Valid() && cpu < |cpuStates|
      modifies this
      ensures Valid()
      ensures cpuStates == old(cpuStates)[cpu := old(cpuStates[cpu]).(modeStack := modes)]
      ensures processes == old(processes) && running == old(running) && ResourcesUnchanged()
    {
      cpuStates := cpuStates[cpu := cpuStates[cpu].(modeStack := modes)];
    }

    /** The second half of schedchange: the process of pid_in, found or
     *  created, runs on cpu with status RUN. */
    method ScheduleInRunning(cpu: nat, pidIn: nat, now: Time) returns (kin: ProcessKey)
      requires Valid() && cpu < |running| && pidIn < UIntModulus
      modifies this
      ensures Valid()
      ensures kin == KeyOf(pidIn, cpu) && kin in processes
      ensures running == old(running)[cpu := kin]
      ensures processes ==
        old(processes)[kin := ScheduleIn(FindOrUnknown(old(processes), cpu, pidIn, now), cpu, now)]
      ensures cpuStates == old(cpuStates) && ResourcesUnchanged()
    {
      kin := FindProcessOrCreate(cpu, pidIn, now);
      ghost var found := processes;
      SwitchRunning(cpu, kin);
      var pin := processes[kin];
      ScheduleInKeepsProcessOk(kin, pin, pidIn, cpu, now);
      var next := ScheduleIn(pin, cpu, now);
      SetRunning(cpu, next);
      UpdateTwice(old(processes), kin, found[kin], next);
    }

    /** The process under key k becomes the one running on cpu. */
    method SwitchRunning(cpu: nat, k: ProcessKey)
      requires Valid() && cpu < |running|
      modifies this
      ensures Valid()
      ensures running == old(running)[cpu := k]
      ensures processes == old(processes) && cpuStates == old(cpuStates) && ResourcesUnchanged()
    {
      running := running[cpu := k];
    }

    /** syscall_entry: the table covers the system call, and a process other
     *  than the swapper enters it. */
    method SyscallEntry(cpu: nat, syscall: nat, now: Time)
      requires Valid() && cpu < |running| && running[cpu] in processes && syscall <= IntMax
      modifies this
      ensures Valid()
      ensures syscallNames ==
        ExpandedNames(old(syscallNames), CheckExpand(|old(syscallNames)|, syscall), "syscall")
      ensures old(processes[running[cpu]]).pid == 0 ==> processes == old(processes)
      ensures old(processes[running[cpu]]).pid != 0 ==>
        processes == old(processes)[old(running[cpu]) := old(processes[running[cpu]]).(
          executionStack := PushState(old(processes[running[cpu]].executionStack),
                                      Syscall, syscallNames[syscall], now))]
      ensures running == old(running) && cpuStates == old(cpuStates)
      ensures irqStates == old(irqStates) && softIrqStates == old(softIrqStates)
      ensures trapStates == old(trapStates) && bdevStates == old(bdevStates)
      ensures trapNames == old(trapNames) && irqNames == old(irqNames) &&
              softIrqNames == old(softIrqNames)
    {
      ExpandSyscallTable(syscall);
      var submode := syscallNames[syscall];
      if processes[running[cpu]].pid != 0 {
        PushRunningState(cpu, Syscall, submode, now);
      }
    }

    /** syscall_exit: a process other than the swapper leaves its call. */
    method SyscallExit(cpu: nat, now: Time)
      requires Valid() && cpu < |running| && running[cpu] in processes
      modifies this
      ensures Valid()
      ensures old(processes[running[cpu]]).pid == 0 ==> processes == old(processes)
      ensures old(processes[running[cpu]]).pid != 0 ==>
        processes == old(processes)[old(running[cpu]) := old(processes[running[cpu]]).(
          executionStack := PopState(old(processes[running[cpu]].executionStack), Syscall, now))]
      ensures running == old(running) && cpuStates == old(cpuStates) && ResourcesUnchanged()
    {
      if processes[running[cpu]].pid != 0 {
        PopRunningState(cpu, Syscall, now);
      }
    }

    /** trap_entry: the process enters the trap, the CPU goes into trap
     *  mode, and one more CPU runs the trap. */
    method TrapEntry(cpu: nat, trap: nat, now: Time)
      requires Valid() && cpu < |running| && running[cpu] in processes && trap <= IntMax
      modifies this
      ensures Valid()
      ensures trapNames == ExpandedNames(old(trapNames), CheckExpand(|old(trapNames)|, trap), "trap")
      ensures trapStates ==
        (var g := Grown(old(trapStates), CheckExpand(|old(trapStates)|, trap), TrapState(0));
         g[trap := TrapState(g[trap].running + 1)])
      ensures processes == old(processes)[old(running[cpu]) := old(processes[running[cpu]]).(
        executionStack := PushState(old(processes[running[cpu]].executionStack),
                                    Trap, trapNames[trap], now))]
      ensures cpuStates == old(cpuStates)[cpu := old(cpuStates[cpu]).(
        modeStack := PushMode(old(cpuStates[cpu].modeStack), CpuTrap), lastTrap := trap)]
      ensures running == old(running)
      ensures irqStates == old(irqStates) && softIrqStates == old(softIrqStates)
      ensures bdevStates == old(bdevStates) && syscallNames == old(syscallNames)
      ensures irqNames == old(irqNames) && softIrqNames == old(softIrqNames)
    {
      ExpandTrapTable(trap);
      PushRunningState(cpu, Trap, trapNames[trap], now);
      cpuStates := cpuStates[cpu := cpuStates[cpu].(
        modeStack := PushMode(cpuStates[cpu].modeStack, CpuTrap), lastTrap := trap)];
      trapStates := trapStates[trap := TrapState(trapStates[trap].running + 1)];
    }

    /** trap_exit: the process leaves the trap, the CPU pops its mode, and
     *  the last trap of the CPU has one fewer CPU running it. */
    method TrapExit(cpu: nat, now: Time)
      requires Valid() && cpu < |running| && running[cpu] in processes
      modifies this
      ensures Valid()
      ensures processes == old(processes)[old(running[cpu]) := old(processes[running[cpu]]).(
        executionStack := PopState(old(processes[running[cpu]].executionStack), Trap, now))]
      ensures cpuStates == old(cpuStates)[cpu := old(cpuStates[cpu]).(
        modeStack := PopMode(old(cpuStates[cpu].modeStack), CpuUnknown))]
      ensures (var trap := old(cpuStates[cpu].lastTrap);
        trapStates == if trap != -1 && old(trapStates[trap].running) > 0
                      then old(trapStates)[trap := TrapState(old(trapStates[trap].running) - 1)]
                      else old(trapStates))
      ensures running == old(running)
      ensures irqStates == old(irqStates) && softIrqStates == old(softIrqStates)
      ensures bdevStates == old(bdevStates) && syscallNames == old(syscallNames)
      ensures trapNames == old(trapNames) && irqNames == old(irqNames) &&
              softIrqNames == old(softIrqNames)
    {
      var trap := cpuStates[cpu].lastTrap;
      PopRunningState(cpu, Trap, now);
      cpuStates := cpuStates[cpu := cpuStates[cpu].(modeStack := PopMode(cpuStates[cpu].modeStack, CpuUnknown))];
      if trap != -1 {
        if trapStates[trap].running > 0 {
          trapStates := trapStates[trap := TrapState(trapStates[trap].running - 1)];
        }
      }
    }

    /** irq_entry: the process is interrupted, the CPU goes into IRQ mode
     *  and the IRQ becomes busy. */
    method IrqEntry(cpu: nat, irq: nat, now: Time)
      requires Valid() && cpu < |running| && running[cpu] in processes && irq <= IntMax
      modifies this
      ensures Valid()
      ensures irqNames == ExpandedNames(old(irqNames), CheckExpand(|old(irqNames)|, irq), "irq")
      ensures irqStates ==
        (var g := Grown(old(irqStates), CheckExpand(|old(irqStates)|, irq), []);
         g[irq := PushMode(g[irq], IrqBusy)])
      ensures processes == old(processes)[old(running[cpu]) := old(processes[running[cpu]]).(
        executionStack := PushState(old(processes[running[cpu]].executionStack),
                                    Irq, irqNames[irq], now))]
      ensures cpuStates == old(cpuStates)[cpu := old(cpuStates[cpu]).(
        modeStack := PushMode(old(cpuStates[cpu].modeStack), CpuIrq), lastIrq := irq)]
      ensures running == old(running)
      ensures softIrqStates == old(softIrqStates) && trapStates == old(trapStates)
      ensures bdevStates == old(bdevStates) && syscallNames == old(syscallNames)
      ensures trapNames == old(trapNames) && softIrqNames == old(softIrqNames)
    {
      ExpandIrqTable(irq);
      PushRunningState(cpu, Irq, irqNames[irq], now);
      cpuStates := cpuStates[cpu := cpuStates[cpu].(
        modeStack := PushMode(cpuStates[cpu].modeStack, CpuIrq), lastIrq := irq)];
      irqStates := irqStates[irq := PushMode(irqStates[irq], IrqBusy)];
    }

    /** irq_exit: the process leaves the IRQ and the mode stacks of the CPU
     *  and of its last IRQ are popped. */
    method IrqExit(cpu: nat, now: Time)
      requires Valid() && cpu < |running| && running[cpu] in processes
      modifies this
      ensures Valid()
      ensures processes == old(processes)[old(running[cpu]) := old(processes[running[cpu]]).(
        executionStack := PopState(old(processes[running[cpu]].executionStack), Irq, now))]
      ensures cpuStates == old(cpuStates)[cpu := old(cpuStates[cpu]).(
        modeStack := PopMode(old(cpuStates[cpu].modeStack), CpuUnknown))]
      ensures (var irq := old(cpuStates[cpu].lastIrq);
        irqStates == if irq != -1 then old(irqStates)[irq := PopMode(old(irqStates[irq]), IrqUnknown)]
                     else old(irqStates))
      ensures running == old(running)
      ensures softIrqStates == old(softIrqStates) && trapStates == old(trapStates)
      ensures bdevStates == old(bdevStates) && syscallNames == old(syscallNames)
      ensures trapNames == old(trapNames) && irqNames == old(irqNames) &&
              softIrqNames == old(softIrqNames)
    {
      PopRunningState(cpu, Irq, now);
      cpuStates := cpuStates[cpu := cpuStates[cpu].(modeStack := PopMode(cpuStates[cpu].modeStack, CpuUnknown))];
      var irq := cpuStates[cpu].lastIrq;
      if irq != -1 {
        irqStates := irqStates[irq := PopMode(irqStates[irq], IrqUnknown)];
      }
    }

    /** soft_irq_raise, with the table expanded first: the soft IRQ becomes
     *  pending (raises do not accumulate). */
    method SoftIrqRaise(softirq: nat)
      requires Valid() && softirq <= IntMax
      modifies this
      ensures Valid()
      ensures softIrqStates == StateTables.SoftIrqRaise(old(softIrqStates), softirq)
      ensures softIrqNames ==
        ExpandedNames(old(softIrqNames), CheckExpand(|old(softIrqNames)|, softirq), "softirq")
      ensures processes == old(processes) && running == old(running) && cpuStates == old(cpuStates)
      ensures irqStates == old(irqStates) && trapStates == old(trapStates)
      ensures bdevStates == old(bdevStates) && syscallNames == old(syscallNames)
      ensures trapNames == old(trapNames) && irqNames == old(irqNames)
    {
      ExpandSoftIrqTable(softirq);
      softIrqStates := softIrqStates[softirq := softIrqStates[softirq].(pending := 1)];
    }

    /** soft_irq_entry: the process and the CPU enter the soft IRQ, which
     *  is no longer pending and has one more CPU running it. */
    method SoftIrqEntry(cpu: nat, softirq: nat, now: Time)
      requires Valid() && cpu < |running| && running[cpu] in processes && softirq <= IntMax
      modifies this
      ensures Valid()
      ensures softIrqNames ==
        ExpandedNames(old(softIrqNames), CheckExpand(|old(softIrqNames)|, softirq), "softirq")
      ensures softIrqStates ==
        (var g := Grown(old(softIrqStates), CheckExpand(|old(softIrqStates)|, softirq), SoftIrqState(0, 0));
         g[softirq := SoftIrqState(if g[softirq].pending > 0 then g[softirq].pending - 1 else 0,
                                   g[softirq].running + 1)])
      ensures processes == old(processes)[old(running[cpu]) := old(processes[running[cpu]]).(
        executionStack := PushState(old(processes[running[cpu]].executionStack),
                                    SoftIrq, softIrqNames[softirq], now))]
      ensures cpuStates == old(cpuStates)[cpu := old(cpuStates[cpu]).(
        modeStack := PushMode(old(cpuStates[cpu].modeStack), CpuSoftIrq), lastSoftIrq := softirq)]
      ensures running == old(running)
      ensures irqStates == old(irqStates) && trapStates == old(trapStates)
      ensures bdevStates == old(bdevStates) && syscallNames == old(syscallNames)
      ensures trapNames == old(trapNames) && irqNames == old(irqNames)
    {
      ExpandSoftIrqTable(softirq);
      PushRunningState(cpu, SoftIrq, softIrqNames[softirq], now);
      cpuStates := cpuStates[cpu := cpuStates[cpu].(
        modeStack := PushMode(cpuStates[cpu].modeStack, CpuSoftIrq), lastSoftIrq := softirq)];
      var st := softIrqStates[softirq];
      if st.pending > 0 {
        st := st.(pending := st.pending - 1);
      }
      softIrqStates := softIrqStates[softirq := st.(running := st.running + 1)];
    }

    /** soft_irq_exit: the process leaves the soft IRQ, the last soft IRQ of
     *  the CPU has one fewer CPU running it, and the CPU pops its mode. */
    method SoftIrqExit(cpu: nat, now: Time)
      requires Valid() && cpu < |running| && running[cpu] in processes
      modifies this
      ensures Valid()
      ensures processes == old(processes)[old(running[cpu]) := old(processes[running[cpu]]).(
        executionStack := PopState(old(processes[running[cpu]].executionStack), SoftIrq, now))]
      ensures (var softirq := old(cpuStates[cpu].lastSoftIrq);
        softIrqStates == if softirq != -1 && old(softIrqStates[softirq].running) > 0
          then old(softIrqStates)[softirq := old(softIrqStates[softirq]).(
                 running := old(softIrqStates[softirq].running) - 1)]
          else old(softIrqStates))
      ensures cpuStates == old(cpuStates)[cpu := old(cpuStates[cpu]).(
        modeStack := PopMode(old(cpuStates[cpu].modeStack), CpuUnknown))]
      ensures running == old(running)
      ensures irqStates == old(irqStates) && trapStates == old(trapStates)
      ensures bdevStates == old(bdevStates) && syscallNames == old(syscallNames)
      ensures trapNames == old(trapNames) && irqNames == old(irqNames) &&
              softIrqNames == old(softIrqNames)
    {
      var softirq := cpuStates[cpu].lastSoftIrq;
      PopRunningState(cpu, SoftIrq, now);
      if softirq != -1 {
        if softIrqStates[softirq].running > 0 {
          softIrqStates := softIrqStates[softirq := softIrqStates[softirq].(
            running := softIrqStates[softirq].running - 1)];
        }
      }
      cpuStates := cpuStates[cpu := cpuStates[cpu].(modeStack := PopMode(cpuStates[cpu].modeStack, CpuUnknown))];
    }

    /** The mode stack of a block device, an empty one for a device not
     *  seen before (get_hashed_bdevstate). */
    function BdevStack(devcode: nat): seq<BdevMode>
      reads this
    {
      if devcode in bdevStates then bdevStates[devcode] else []
    }

    /** bdev_request_issue: the device is busy reading (operation 0) or
     *  writing. */
    method BdevRequestIssue(devcode: nat, oper: nat)
      requires Valid()
      modifies this
      ensures Valid()
      ensures bdevStates == old(bdevStates)[devcode :=
        PushMode(old(BdevStack(devcode)), if oper == 0 then BdevBusyReading else BdevBusyWriting)]
      ensures processes == old(processes) && running == old(running) && cpuStates == old(cpuStates)
      ensures irqStates == old(irqStates) && softIrqStates == old(softIrqStates)
      ensures trapStates == old(trapStates) && syscallNames == old(syscallNames)
      ensures trapNames == old(trapNames) && irqNames == old(irqNames) &&
              softIrqNames == old(softIrqNames)
    {
      var stack := BdevStack(devcode);
      if oper == 0 {
        bdevStates := bdevStates[devcode := PushMode(stack, BdevBusyReading)];
      } else {
        bdevStates := bdevStates[devcode := PushMode(stack, BdevBusyWriting)];
      }
    }

    /** bdev_request_complete: the device pops its mode. */
    method BdevRequestComplete(devcode: nat)
      requires Valid()
      modifies this
      ensures Valid()
      ensures bdevStates == old(bdevStates)[devcode := PopMode(old(BdevStack(devcode)), BdevUnknown)]
      ensures |bdevStates[devcode]| > 0
      ensures processes == old(processes) && running == old(running) && cpuStates == old(cpuStates)
      ensures irqStates == old(irqStates) && softIrqStates == old(softIrqStates)
      ensures trapStates == old(trapStates) && syscallNames == old(syscallNames)
      ensures trapNames == old(trapNames) && irqNames == old(irqNames) &&
              softIrqNames == old(softIrqNames)
    {
      bdevStates := bdevStates[devcode := PopMode(BdevStack(devcode), BdevUnknown)];
    }

    /** function_entry: push_function on the running process. */
    method FunctionEntry(cpu: nat, funcptr: nat)
      requires Valid() && cpu < |running| && running[cpu] in processes
      modifies this
      ensures Valid()
      ensures processes == old(processes)[old(running[cpu]) := old(processes[running[cpu]]).(
        userStack := PushFunction(old(processes[running[cpu]].userStack), funcptr))]
      ensures running == old(running) && cpuStates == old(cpuStates) && ResourcesUnchanged()
    {
      var p := processes[running[cpu]];
      SetRunning(cpu, p.(userStack := PushFunction(p.userStack, funcptr)));
    }

    /** function_exit: pop_function on the running process, with the
     *  current function 0 once its call stack is empty. */
    method FunctionExit(cpu: nat, funcptr: nat)
      requires Valid() && cpu < |running| && running[cpu] in processes
      modifies this
      ensures Valid()
      ensures processes == old(processes)[old(running[cpu]) := old(processes[running[cpu]]).(
        userStack := PopFunction(old(processes[running[cpu]].userStack), funcptr))]
      ensures running == old(running) && cpuStates == old(cpuStates) && ResourcesUnchanged()
    {
      var p := processes[running[cpu]];
      SetRunning(cpu, p.(userStack := PopFunction(p.userStack, funcptr)));
    }
  }
}
