/** The growable per-id tables of trunk/lttv/lttv/lttv/state.c: the growth
 *  policy (check_expand), the default names (fill_name_table) and the resource
 *  state tables of traps, IRQs and soft IRQs (expand_*_table). */
module StateTables {
  import opened Wrappers
  import opened CStdlib
  import opened StateStacks

  /** check_expand: the new size of a table of nb entries that must hold
   *  index id.  Both parameters are ints (the function has no prototype). */
  function CheckExpand(nb: nat, id: int): (r: nat)
    ensures r > id && r >= nb
  {
    if nb > id then nb else if id + 1 > nb * 2 then id + 1 else nb * 2
  }

  /** A table is left alone exactly when it already holds id; otherwise it
   *  at least doubles, and in every case it then holds id. */
  lemma CheckExpandGrowth(nb: nat, id: int)
    ensures CheckExpand(nb, id) > id
    ensures CheckExpand(nb, id) >= nb
    ensures CheckExpand(nb, id) == nb <==> nb > id
    ensures nb <= id ==> CheckExpand(nb, id) >= 2 * nb && CheckExpand(nb, id) >= id + 1
    ensures nb <= id ==> CheckExpand(nb, id) == id + 1 || CheckExpand(nb, id) == 2 * nb
  {
  }

  /** Expanding again for the same id changes nothing. */
  lemma CheckExpandIdempotent(nb: nat, id: int)
    ensures CheckExpand(CheckExpand(nb, id), id) == CheckExpand(nb, id)
  {
    CheckExpandGrowth(nb, id);
  }

  /** The name fill_name_table gives entry i: "<def> <i>". */
  function DefaultName(def: string, i: nat): (r: string)
    ensures |r| > |def| + 1 && r[..|def| + 1] == def + " "
  {
    def + " " + Decimal(i)
  }

  /** The default names of one table are all different. */
  lemma DefaultNamesDistinct(def: string, i: nat, j: nat)
    requires i != j
    ensures DefaultName(def, i) != DefaultName(def, j)
  {
    var a, b := DefaultName(def, i), DefaultName(def, j);
    assert a[|def| + 1..] == Decimal(i);
    assert b[|def| + 1..] == Decimal(j);
    DecimalRoundTrip(i);
    DecimalRoundTrip(j);
  }

  /** A name table grown to newNb entries, the new ones named by default. */
  function ExpandedNames(table: seq<string>, newNb: nat, def: string): (r: seq<string>)
    requires |table| <= newNb
    ensures |r| == newNb && r[..|table|] == table
    ensures forall i :: |table| <= i < newNb ==> r[i] == DefaultName(def, i)
  {
    table + seq(newNb - |table|, j requires 0 <= j => DefaultName(def, |table| + j))
  }

  /** expand_name_table followed by fill_name_table: the old names are
   *  copied, and entries nb to newNb - 1 get their default names. */
  method FillNameTable(table: seq<string>, newNb: nat, def: string) returns (r: seq<string>)
    requires |table| <= newNb
    ensures |r| == newNb && r[..|table|] == table
    ensures forall i :: |table| <= i < newNb ==> r[i] == DefaultName(def, i)
    ensures r == ExpandedNames(table, newNb, def)
  {
    r := table;
    var i := |table|;
    while i < newNb
      invariant |table| <= i <= newNb && |r| == i
      invariant r[..|table|] == table
      invariant forall k :: |table| <= k < i ==> r[k] == DefaultName(def, k)
    {
      r := r + [DefaultName(def, i)];
      i := i + 1;
    }
  }

  /** A table grown to newNb entries, the new ones set to init. */
  function Grown<T>(table: seq<T>, newNb: nat, init: T): (r: seq<T>)
    requires |table| <= newNb
    ensures |r| == newNb && r[..|table|] == table
    ensures forall i :: |table| <= i < newNb ==> r[i] == init
  {
    table + seq(newNb - |table|, _ => init)
  }

  /** The copy and initialisation loop of expand_irq_table and
   *  expand_soft_irq_table: old entries kept, new ones set to init, and the
   *  size updated last. */
  method GrowTable<T>(table: seq<T>, newNb: nat, init: T) returns (r: seq<T>)
    requires |table| <= newNb
    ensures r == Grown(table, newNb, init)
  {
    r := table;
    var i := |table|;
    while i < newNb
      invariant |table| <= i <= newNb && |r| == i
      invariant r[..|table|] == table
      invariant forall k :: |table| <= k < i ==> r[k] == init
    {
      r := r + [init];
      i := i + 1;
    }
  }

  /** A trap entry: the number of CPUs now running it. */
  datatype TrapState = TrapState(running: nat)

  /** A soft IRQ entry: raised-but-not-run flag and running count. */
  datatype SoftIrqState = SoftIrqState(pending: nat, running: nat)

  /** expand_trap_table as written: nb_traps is set to new_nb before the
   *  copy, so the copy reads new_nb entries from a table of nb (the excess
   *  comes from the memory after it, beyond) and the initialisation loop,
   *  which runs from nb_traps, does nothing. */
  function TrapStatesAsWritten(table: seq<TrapState>, newNb: nat, beyond: seq<TrapState>)
    : (r: seq<TrapState>)
    requires |table| + |beyond| == newNb
  {
    var copied := table + beyond;
    var nbTraps := newNb;
    copied + seq(newNb - nbTraps, _ => TrapState(0))
  }

  /** The soft IRQ table of expand_soft_irq_table as written: only running
   *  is set, so pending holds whatever the fresh allocation held. */
  function SoftIrqStatesAsWritten(table: seq<SoftIrqState>, newNb: nat, garbage: seq<nat>)
    : (r: seq<SoftIrqState>)
    requires |table| + |garbage| == newNb
  {
    table + seq(|garbage|, j requires 0 <= j < |garbage| => SoftIrqState(garbage[j], 0))
  }

  /** With memory holding a running count of 5 after the old table, a new
   *  trap entry starts at 5 running instead of 0, and a new soft IRQ entry
   *  starts pending. */
  lemma ExpansionLeavesGarbage()
    ensures TrapStatesAsWritten([], 1, [TrapState(5)]) == [TrapState(5)]
    ensures Grown([], 1, TrapState(0)) == [TrapState(0)]
    ensures SoftIrqStatesAsWritten([], 1, [5]) == [SoftIrqState(5, 0)]
    ensures Grown([], 1, SoftIrqState(0, 0)) == [SoftIrqState(0, 0)]
  {
    assert TrapStatesAsWritten([], 1, [TrapState(5)]) == [TrapState(5)] + [];
  }

  /** Whatever the memory beyond holds, the as-written expansions agree with
   *  the intended ones exactly when it holds the initial values. */
  lemma AsWrittenAgreesOnlyOnZeros(table: seq<TrapState>, beyond: seq<TrapState>)
    ensures TrapStatesAsWritten(table, |table| + |beyond|, beyond) ==
              Grown(table, |table| + |beyond|, TrapState(0))
            <==> forall j :: 0 <= j < |beyond| ==> beyond[j] == TrapState(0)
  {
    var n := |table| + |beyond|;
    var a, g := TrapStatesAsWritten(table, n, beyond), Grown(table, n, TrapState(0));
    if a == g {
      forall j | 0 <= j < |beyond| ensures beyond[j] == TrapState(0) {
        assert a[|table| + j] == beyond[j];
      }
    }
    if forall j :: 0 <= j < |beyond| ==> beyond[j] == TrapState(0) {
      forall i | 0 <= i < n ensures a[i] == g[i] {
        if i >= |table| { assert a[i] == beyond[i - |table|]; }
      }
    }
  }

  /** soft_irq_raise as written: pending is set at index softirq with no
   *  check against the table size; None stands for the out-of-bounds write
   *  when the table does not hold softirq. */
  function SoftIrqRaiseAsWritten(table: seq<SoftIrqState>, softirq: nat)
    : (r: Option<seq<SoftIrqState>>)
  {
    if softirq < |table| then Some(table[softirq := table[softirq].(pending := 1)])
    else None
  }

  /** soft_irq_raise as intended: the table is expanded as soft_irq_entry
   *  does (expand_soft_irq_table) before pending is set. */
  function SoftIrqRaise(table: seq<SoftIrqState>, softirq: nat): (r: seq<SoftIrqState>)
    ensures |r| == CheckExpand(|table|, softirq) && softirq < |r|
    ensures r[softirq].pending == 1
    ensures forall i :: 0 <= i < |r| && i != softirq ==>
      r[i] == if i < |table| then table[i] else SoftIrqState(0, 0)
  {
    CheckExpandGrowth(|table|, softirq);
    var g := Grown(table, CheckExpand(|table|, softirq), SoftIrqState(0, 0));
    g[softirq := g[softirq].(pending := 1)]
  }

  /** A raise of a soft IRQ the table does not hold yet writes out of
   *  bounds; the intended raise grows the table and marks it pending. */
  lemma RaiseBeyondTable()
    ensures SoftIrqRaiseAsWritten([SoftIrqState(0, 0)], 3).None?
    ensures SoftIrqRaise([SoftIrqState(0, 0)], 3) ==
            [SoftIrqState(0, 0), SoftIrqState(0, 0), SoftIrqState(0, 0), SoftIrqState(1, 0)]
  {
    var r := SoftIrqRaise([SoftIrqState(0, 0)], 3);
    assert CheckExpand(1, 3) == 4;
    assert r[0] == SoftIrqState(0, 0) && r[1] == SoftIrqState(0, 0);
    assert r[2] == SoftIrqState(0, 0) && r[3] == SoftIrqState(1, 0);
  }

  /** Within the table the two agree. */
  lemma SoftIrqRaiseAgrees(table: seq<SoftIrqState>, softirq: nat)
    requires softirq < |table|
    ensures SoftIrqRaiseAsWritten(table, softirq) == Some(SoftIrqRaise(table, softirq))
  {
    CheckExpandGrowth(|table|, softirq);
    var g := Grown(table, |table|, SoftIrqState(0, 0));
    assert g == table;
  }
}
