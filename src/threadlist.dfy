/** The Xenomai thread list of the xenoltt viewer
 *  (lttng-xenomai/LinuxTraceToolkitViewer-0.8.61-xenoltt/lttv/modules/gui/
 *  xenoltt/xenoltt_threadlist.c): the row order of the list, the hash and
 *  the equality of the thread keys, and the bookkeeping of adding,
 *  removing and clearing threads. The GLib hash table is a sequence of
 *  entries in insertion order, searched with the hash and the equality;
 *  a HashedThreadData is known by a number; pixmaps are not modelled. */
module XenoThreadList {
  import opened Wrappers
  import opened LttTime

  // ---------------------------------------------------------------------
  // Row order
  // ---------------------------------------------------------------------

  /** A row of the list store, the columns thread_sort_func reads: the
   *  HashedThreadData it belongs to, name quark, priority, period, CPU,
   *  birth seconds and nanoseconds, trace number. */
  datatype Row = Row(data: nat, name: nat, prio: nat, period: nat, cpu: bv32,
                     birthSec: nat, birthNsec: nat, trace: nat)

  /** The order by birth seconds, birth nanoseconds, then trace number. */
  function BirthOrder(a: Row, b: Row): int
  {
    if a.birthSec > b.birthSec then 1
    else if a.birthSec < b.birthSec then -1
    else if a.birthNsec > b.birthNsec then 1
    else if a.birthNsec < b.birthNsec then -1
    else if a.trace > b.trace then 1
    else if a.trace < b.trace then -1
    else 0
  }

  /** thread_sort_func as written: its priority test runs only when both
   *  priorities are 0. */
  function SortAsWritten(a: Row, b: Row): int
  {
    if a.prio == 0 && b.prio == 0 && a.prio > b.prio then -1
    else if a.prio == 0 && b.prio == 0 && a.prio < b.prio then 1
    else BirthOrder(a, b)
  }

  /** As written the priority never decides: the order is the birth order. */
  lemma SortIgnoresPriorityAsWritten(a: Row, b: Row)
    ensures SortAsWritten(a, b) == BirthOrder(a, b)
  {
  }

  /** Two threads born together in one trace, with priorities 5 and 1, are
   *  equal for the list's order as written. */
  lemma SortTiesPrioritiesAsWritten()
    ensures var a := Row(0, 0, 5, 0, 0, 10, 0, 0);
            var b := Row(1, 0, 1, 0, 0, 10, 0, 0);
            SortAsWritten(a, b) == 0 && SortAsWritten(b, a) == 0
  {
  }

  /** thread_sort_func with its "Order by PRIORITY" step applied: a higher
   *  priority sorts first, then the birth order. */
  function Sort(a: Row, b: Row): int
  {
    if a.prio > b.prio then -1
    else if a.prio < b.prio then 1
    else BirthOrder(a, b)
  }

  /** The rank a row has for the intended order. */
  predicate SameRank(a: Row, b: Row)
  {
    a.prio == b.prio && a.birthSec == b.birthSec && a.birthNsec == b.birthNsec && a.trace == b.trace
  }

  /** The intended order is a total preorder fit for GtkTreeSortable: it
   *  is antisymmetric, ties exactly the rows of one rank, is transitive,
   *  and puts a higher priority first. */
  lemma SortIsOrder(a: Row, b: Row, c: Row)
    ensures Sort(a, b) == -Sort(b, a)
    ensures Sort(a, b) == 0 <==> SameRank(a, b)
    ensures Sort(a, b) <= 0 && Sort(b, c) <= 0 ==> Sort(a, c) <= 0
    ensures a.prio > b.prio ==> Sort(a, b) < 0
  {
  }

  /** The birth order, which the list uses as written, is a total
   *  preorder too. */
  lemma BirthOrderIsOrder(a: Row, b: Row, c: Row)
    ensures BirthOrder(a, b) == -BirthOrder(b, a)
    ensures BirthOrder(a, b) == 0 <==> a.birthSec == b.birthSec && a.birthNsec == b.birthNsec && a.trace == b.trace
    ensures BirthOrder(a, b) <= 0 && BirthOrder(b, c) <= 0 ==> BirthOrder(a, c) <= 0
  {
  }

  // ---------------------------------------------------------------------
  // Thread keys
  // ---------------------------------------------------------------------

  /** A XenoThreadInfo, the key of the hash table: the thread's address,
   *  its CPU, its birth time and its trace number. */
  datatype ThreadInfo = ThreadInfo(address: bv32, cpu: bv32, birth: Time, traceNum: nat)

  /** The key threadlist_add and threadlist_remove build: the CPU is kept
   *  only for address 0. */
  function KeyOf(address: bv32, cpu: bv32, birth: Time, traceNum: nat): ThreadInfo
  {
    ThreadInfo(address, if address == 0 then cpu else 0, birth, traceNum)
  }

  /** The keys KeyOf builds. */
  predicate Normalized(k: ThreadInfo)
  {
    k.address != 0 ==> k.cpu == 0
  }

  /** thread_list_hash_fct. */
  function Hash(k: ThreadInfo): bv32
  {
    ((k.address >> 8) ^ (k.address >> 4) ^ (k.address >> 2) ^ k.address) ^ k.cpu
  }

  /** thread_list_equ_fct as written: every test that fails clears the
   *  result, and one of them fails for every key of address 0. */
  function EqualAsWritten(a: ThreadInfo, b: ThreadInfo): bool
  {
    var r0 := true;
    var r1 := if a.address != b.address then false else r0;
    var r2 := if a.address == 0 then false else r1;
    var r3 := if a.address == 0 && a.cpu != b.cpu then false else r2;
    var r4 := if Compare(a.birth, b.birth) != 0 then false else r3;
    if a.traceNum != b.traceNum then false else r4
  }

  /** As written, keys are equal exactly when they have one non-zero
   *  address, one birth and one trace: the CPU test is dead. */
  lemma EqualAsWrittenExactly(a: ThreadInfo, b: ThreadInfo)
    ensures EqualAsWritten(a, b) <==>
      a.address == b.address && a.address != 0 && a.birth == b.birth && a.traceNum == b.traceNum
    ensures EqualAsWritten(a, b) == EqualAsWritten(a, b.(cpu := 0))
  {
  }

  /** As written, a key of address 0 is not equal to itself. */
  lemma EqualIrreflexiveAsWritten(k: ThreadInfo)
    requires k.address == 0
    ensures !EqualAsWritten(k, k)
  {
  }

  /** thread_list_equ_fct with the address-0 test it evidently meant: a
   *  key of address 0 is equal to one of the same CPU. */
  function Equal(a: ThreadInfo, b: ThreadInfo): bool
  {
    a.address == b.address && (a.address != 0 || a.cpu == b.cpu) &&
    Compare(a.birth, b.birth) == 0 && a.traceNum == b.traceNum
  }

  /** The corrected equality is an equivalence, and the hash agrees with
   *  it on the keys KeyOf builds. */
  lemma EqualIsEquivalence(a: ThreadInfo, b: ThreadInfo, c: ThreadInfo)
    ensures Equal(a, a)
    ensures Equal(a, b) ==> Equal(b, a)
    ensures Equal(a, b) && Equal(b, c) ==> Equal(a, c)
    ensures Normalized(a) && Normalized(b) && Equal(a, b) ==> Hash(a) == Hash(b)
  {
  }

  /** Without the CPU in the key, two idle threads of different CPUs,
   *  born together, would be one thread. */
  lemma IdleCpusDiffer(birth: Time, traceNum: nat)
    ensures !Equal(KeyOf(0, 0, birth, traceNum), KeyOf(0, 1, birth, traceNum))
    ensures Equal(KeyOf(7, 0, birth, traceNum), KeyOf(7, 1, birth, traceNum))
  {
  }

  // ---------------------------------------------------------------------
  // The hash table
  // ---------------------------------------------------------------------

  /** A key of the hash table and its HashedThreadData. */
  datatype Entry = Entry(key: ThreadInfo, data: nat)

  /** What g_hash_table_lookup accepts: the same hash and an equal key. */
  predicate Matches(stored: ThreadInfo, k: ThreadInfo)
  {
    Hash(stored) == Hash(k) && Equal(stored, k)
  }

  /** g_hash_table_lookup: the first entry whose key matches k. */
  function FindEntry(es: seq<Entry>, k: ThreadInfo): (r: Option<nat>)
    ensures r.Some? ==> r.value < |es| && Matches(es[r.value].key, k)
    ensures r.None? <==> forall j :: 0 <= j < |es| ==> !Matches(es[j].key, k)
    decreases |es|
  {
    if |es| == 0 then None
    else if Matches(es[0].key, k) then Some(0)
    else
      var r := FindEntry(es[1..], k);
      if r.Some? then Some(r.value + 1) else None
  }

  /** The lookup with the equality as written. */
  function FindEntryAsWritten(es: seq<Entry>, k: ThreadInfo): (r: Option<nat>)
    ensures r.None? <==> forall j :: 0 <= j < |es| ==> !(Hash(es[j].key) == Hash(k) && EqualAsWritten(es[j].key, k))
    decreases |es|
  {
    if |es| == 0 then None
    else if Hash(es[0].key) == Hash(k) && EqualAsWritten(es[0].key, k) then Some(0)
    else
      var r := FindEntryAsWritten(es[1..], k);
      if r.Some? then Some(r.value + 1) else None
  }

  /** As written an idle thread, once added, is never found again: the
   *  removal of any address-0 key reports it absent. */
  lemma IdleNeverFoundAsWritten(es: seq<Entry>, k: ThreadInfo)
    requires k.address == 0
    ensures FindEntryAsWritten(es, k) == None
  {
  }

  /** With the corrected equality an added idle thread is found. */
  lemma IdleFound(es: seq<Entry>, k: ThreadInfo, d: nat)
    requires forall j :: 0 <= j < |es| ==> !Matches(es[j].key, k)
    ensures FindEntry(es + [Entry(k, d)], k) == Some(|es|)
  {
    var r := FindEntry(es + [Entry(k, d)], k);
    EqualIsEquivalence(k, k, k);
    assert (es + [Entry(k, d)])[|es|] == Entry(k, d);
    assert r.Some?;
    assert forall j :: 0 <= j < |es| ==> (es + [Entry(k, d)])[j] == es[j];
    FirstMatch(es + [Entry(k, d)], k);
  }

  /** FindEntry returns the first matching entry. */
  lemma {:induction false} FirstMatch(es: seq<Entry>, k: ThreadInfo)
    ensures var r := FindEntry(es, k);
      r.Some? ==> forall j :: 0 <= j < r.value ==> !Matches(es[j].key, k)
    decreases |es|
  {
    if |es| > 0 && !Matches(es[0].key, k) {
      FirstMatch(es[1..], k);
      var r := FindEntry(es, k);
      if r.Some? {
        forall j | 0 <= j < r.value
          ensures !Matches(es[j].key, k)
        {
          if j > 0 {
            assert es[j] == es[1..][j - 1];
          }
        }
      }
    }
  }

  /** g_hash_table_insert: an entry with a matching key gets the new data
   *  and keeps its key; otherwise the entry is added. */
  function Inserted(es: seq<Entry>, k: ThreadInfo, d: nat): seq<Entry>
  {
    var f := FindEntry(es, k);
    if f.Some? then es[f.value := Entry(es[f.value].key, d)] else es + [Entry(k, d)]
  }

  /** The entries without entry i. */
  function RemoveAt(es: seq<Entry>, i: nat): (r: seq<Entry>)
    requires i < |es|
    ensures |r| == |es| - 1
    ensures forall j :: 0 <= j < i ==> r[j] == es[j]
    ensures forall j :: i <= j < |r| ==> r[j] == es[j + 1]
  {
    es[..i] + es[i + 1..]
  }

  /** The rows without those of HashedThreadData d. */
  function RowsWithout(rows: seq<Row>, d: nat): (r: seq<Row>)
    ensures forall x :: x in r <==> x in rows && x.data != d
    decreases |rows|
  {
    if |rows| == 0 then []
    else RowsWithout(rows[..|rows| - 1], d) + (if rows[|rows| - 1].data == d then [] else [rows[|rows| - 1]])
  }

  /** The current_hash_data slots, by trace number and CPU (None when the
   *  array is not allocated; a missing slot is NULL). */
  type Slots = Option<map<(nat, bv32), nat>>

  /** A slot holding d becomes NULL. */
  function ClearSlot(c: Slots, s: (nat, bv32), d: nat): (r: Slots)
    ensures r.None? <==> c.None?
    ensures r.Some? ==> forall t :: t in r.value <==> t in c.value && !(t == s && c.value[s] == d)
    ensures r.Some? ==> forall t :: t in r.value ==> r.value[t] == c.value[t]
  {
    if c.Some? && s in c.value && c.value[s] == d then Some(c.value - {s}) else c
  }

  /** What remove_hash_item does to the rows and slots for each entry of
   *  es, in turn. */
  function RowsCleared(rows: seq<Row>, es: seq<Entry>): seq<Row>
    decreases |es|
  {
    if |es| == 0 then rows else RowsWithout(RowsCleared(rows, es[..|es| - 1]), es[|es| - 1].data)
  }

  function SlotsCleared(c: Slots, es: seq<Entry>): Slots
    decreases |es|
  {
    if |es| == 0 then c
    else
      var e := es[|es| - 1];
      ClearSlot(SlotsCleared(c, es[..|es| - 1]), (e.key.traceNum, e.key.cpu), e.data)
  }

  /** The loop of threadlist_clear: remove_hash_item for each entry of es
   *  in turn, on the rows and the slots. */
  method ClearEntries(rows: seq<Row>, slots: Slots, es: seq<Entry>) returns (rs: seq<Row>, sl: Slots)
    ensures rs == RowsCleared(rows, es) && sl == SlotsCleared(slots, es)
  {
    rs, sl := rows, slots;
    var k := 0;
    while k < |es|
      invariant 0 <= k <= |es|
      invariant rs == RowsCleared(rows, es[..k])
      invariant sl == SlotsCleared(slots, es[..k])
    {
      var e := es[k];
      rs := RowsWithout(rs, e.data);
      sl := ClearSlot(sl, (e.key.traceNum, e.key.cpu), e.data);
      assert es[..k + 1][..k] == es[..k];
      k := k + 1;
    }
    assert es[..k] == es;
  }

  /** After clearing, no row of a cleared entry is left, and every other
   *  row stays. */
  lemma {:induction false} RowsClearedExactly(rows: seq<Row>, es: seq<Entry>)
    ensures forall x :: x in RowsCleared(rows, es) <==>
      x in rows && forall j :: 0 <= j < |es| ==> x.data != es[j].data
    decreases |es|
  {
    if |es| > 0 {
      var p := es[..|es| - 1];
      RowsClearedExactly(rows, p);
      assert forall j :: 0 <= j < |p| ==> es[j] == p[j];
    }
  }

  // ---------------------------------------------------------------------
  // The thread list
  // ---------------------------------------------------------------------

  /** A ThreadList without its widgets and pixmaps. */
  class ThreadList {
    var entries: seq<Entry>
    var rows: seq<Row>
    var numberOfThread: nat
    var cellHeight: nat
    var currentHashData: Slots
    /** The HashedThreadData the next g_new returns. */
    var nextData: nat

    /** Keys are as KeyOf builds them and no two are equal; the counter
     *  counts at least the entries (it counts the adds, and an add of a
     *  present key replaces the entry's data). */
    ghost predicate Valid()
      reads this
    {
      numberOfThread >= |entries| &&
      (forall i :: 0 <= i < |entries| ==> Normalized(entries[i].key)) &&
      (forall i, j :: 0 <= i < j < |entries| ==> !Equal(entries[i].key, entries[j].key)) &&
      (forall i :: 0 <= i < |entries| ==> entries[i].data < nextData)
    }

    /** threadlist_construct: an empty list. */
    constructor (cellHeight: nat)
      ensures Valid() && entries == [] && rows == [] && numberOfThread == 0
      ensures this.cellHeight == cellHeight && currentHashData == None
    {
      entries := [];
      rows := [];
      numberOfThread := 0;
      this.cellHeight := cellHeight;
      currentHashData := None;
      nextData := 0;
    }

    /** threadlist_add: the key keeps the CPU only for address 0, the new
     *  data goes into the table and a row to the list, the counter grows
     *  by one and the height is the cell height times the counter. Adding
     *  a thread not yet in the list keeps the counter exact. */
    method Add(address: bv32, prio: nat, cpu: bv32, period: nat, birth: Time, traceNum: nat, name: nat)
        returns (r: int, height: nat, info: ThreadInfo, data: nat)
      requires Valid() && cellHeight != 0
      modifies this
      ensures Valid()
      ensures info == KeyOf(address, cpu, birth, traceNum) && info.cpu == (if address == 0 then cpu else 0)
      ensures data == old(nextData) && nextData == old(nextData) + 1
      ensures entries == Inserted(old(entries), info, data)
      ensures rows == old(rows) + [Row(data, name, prio, period, cpu, birth.sec, birth.nsec, traceNum)]
      ensures numberOfThread == old(numberOfThread) + 1
      ensures r == 0 && height == cellHeight * numberOfThread && height != 0
      ensures cellHeight == old(cellHeight) && currentHashData == old(currentHashData)
      ensures FindEntry(old(entries), info).None? ==>
        |entries| == old(|entries|) + 1
    {
      info := KeyOf(address, cpu, birth, traceNum);
      data := nextData;
      nextData := nextData + 1;
      rows := rows + [Row(data, name, prio, period, cpu, birth.sec, birth.nsec, traceNum)];
      InsertKeepsKeys(entries, info, data, nextData);
      entries := Inserted(entries, info, data);
      numberOfThread := numberOfThread + 1;
      height := cellHeight * numberOfThread;
      r := 0;
    }

    /** threadlist_remove: 1, and nothing changes, when no entry matches
     *  the key; otherwise the entry and its row go, the counter drops by
     *  one, the current_hash_data slot of the trace and CPU holding its
     *  data becomes NULL, and the key is no longer found. */
    method Remove(address: bv32, cpu: bv32, birth: Time, traceNum: nat) returns (r: int)
      requires Valid()
      modifies this
      ensures Valid()
      ensures var f := FindEntry(old(entries), KeyOf(address, cpu, birth, traceNum));
        f.None? ==> (r == 1 && entries == old(entries) && rows == old(rows) &&
                     numberOfThread == old(numberOfThread) && currentHashData == old(currentHashData))
      ensures var f := FindEntry(old(entries), KeyOf(address, cpu, birth, traceNum));
        f.Some? ==> (r == 0 && entries == RemoveAt(old(entries), f.value) &&
                     rows == RowsWithout(old(rows), old(entries)[f.value].data) &&
                     numberOfThread == old(numberOfThread) - 1 &&
                     currentHashData == ClearSlot(old(currentHashData), (traceNum, cpu), old(entries)[f.value].data))
      ensures FindEntry(entries, KeyOf(address, cpu, birth, traceNum)).None?
      ensures cellHeight == old(cellHeight) && nextData == old(nextData)
    {
      var k := KeyOf(address, cpu, birth, traceNum);
      var f := FindEntry(entries, k);
      if f == None {
        return 1;
      }
      var d := entries[f.value].data;
      rows := RowsWithout(rows, d);
      RemoveKeepsKeys(entries, f.value, k, nextData);
      entries := RemoveAt(entries, f.value);
      currentHashData := ClearSlot(currentHashData, (traceNum, cpu), d);
      numberOfThread := numberOfThread - 1;
      r := 0;
    }

    /** threadlist_clear: every entry goes, with its row and its matching
     *  current_hash_data slot, and the counter is 0 again. */
    method Clear()
      requires Valid()
      modifies this
      ensures Valid() && entries == [] && numberOfThread == 0
      ensures rows == RowsCleared(old(rows), old(entries))
      ensures currentHashData == SlotsCleared(old(currentHashData), old(entries))
      ensures cellHeight == old(cellHeight) && nextData == old(nextData)
    {
      rows, currentHashData := ClearEntries(rows, currentHashData, entries);
      entries := [];
      numberOfThread := 0;
    }
  }

  /** An insertion keeps the keys normalized and pairwise unequal when the
   *  new key is built by KeyOf. */
  lemma InsertKeepsKeys(es: seq<Entry>, k: ThreadInfo, d: nat, next: nat)
    requires Normalized(k) && d < next
    requires forall i :: 0 <= i < |es| ==> Normalized(es[i].key)
    requires forall i, j :: 0 <= i < j < |es| ==> !Equal(es[i].key, es[j].key)
    requires forall i :: 0 <= i < |es| ==> es[i].data < next
    ensures var r := Inserted(es, k, d);
      |r| <= |es| + 1 && (FindEntry(es, k).None? ==> |r| == |es| + 1) &&
      (forall i :: 0 <= i < |r| ==> Normalized(r[i].key)) &&
      (forall i, j :: 0 <= i < j < |r| ==> !Equal(r[i].key, r[j].key)) &&
      (forall i :: 0 <= i < |r| ==> r[i].data < next)
  {
    var f := FindEntry(es, k);
    if f.Some? {
      ReplaceKeepsKeys(es, f.value, d, next);
    } else {
      AppendKeepsKeys(es, k, d, next);
    }
  }

  /** Replacing the data of entry i keeps the keys valid. */
  lemma ReplaceKeepsKeys(es: seq<Entry>, i: nat, d: nat, next: nat)
    requires i < |es| && d < next
    requires forall a :: 0 <= a < |es| ==> Normalized(es[a].key)
    requires forall a, b :: 0 <= a < b < |es| ==> !Equal(es[a].key, es[b].key)
    requires forall a :: 0 <= a < |es| ==> es[a].data < next
    ensures var r := es[i := Entry(es[i].key, d)];
      (forall a :: 0 <= a < |r| ==> Normalized(r[a].key)) &&
      (forall a, b :: 0 <= a < b < |r| ==> !Equal(r[a].key, r[b].key)) &&
      (forall a :: 0 <= a < |r| ==> r[a].data < next)
  {
    var r := es[i := Entry(es[i].key, d)];
    assert forall a :: 0 <= a < |r| ==> r[a].key == es[a].key;
  }

  /** Appending a key no entry matches keeps the keys valid. */
  lemma AppendKeepsKeys(es: seq<Entry>, k: ThreadInfo, d: nat, next: nat)
    requires Normalized(k) && d < next
    requires FindEntry(es, k).None?
    requires forall a :: 0 <= a < |es| ==> Normalized(es[a].key)
    requires forall a, b :: 0 <= a < b < |es| ==> !Equal(es[a].key, es[b].key)
    requires forall a :: 0 <= a < |es| ==> es[a].data < next
    ensures var r := es + [Entry(k, d)];
      (forall a :: 0 <= a < |r| ==> Normalized(r[a].key)) &&
      (forall a, b :: 0 <= a < b < |r| ==> !Equal(r[a].key, r[b].key)) &&
      (forall a :: 0 <= a < |r| ==> r[a].data < next)
  {
    var r := es + [Entry(k, d)];
    forall a | 0 <= a < |es|
      ensures !Equal(r[a].key, k)
    {
      assert r[a] == es[a];
      NoMatchNotEqual(es[a].key, k);
    }
  }

  /** Between keys KeyOf builds, equal keys hash alike: a key that does
   *  not match is not equal. */
  lemma NoMatchNotEqual(x: ThreadInfo, k: ThreadInfo)
    requires Normalized(x) && Normalized(k) && !Matches(x, k)
    ensures !Equal(x, k)
  {
    EqualIsEquivalence(x, k, k);
  }

  /** A removal keeps the keys valid. */
  lemma RemoveKeepsKeys(es: seq<Entry>, i: nat, k: ThreadInfo, next: nat)
    requires i < |es| && Matches(es[i].key, k)
    requires forall a :: 0 <= a < |es| ==> Normalized(es[a].key)
    requires forall a, b :: 0 <= a < b < |es| ==> !Equal(es[a].key, es[b].key)
    requires forall a :: 0 <= a < |es| ==> es[a].data < next
    ensures var r := RemoveAt(es, i);
      (forall a :: 0 <= a < |r| ==> Normalized(r[a].key)) &&
      (forall a, b :: 0 <= a < b < |r| ==> !Equal(r[a].key, r[b].key)) &&
      (forall a :: 0 <= a < |r| ==> r[a].data < next) &&
      FindEntry(r, k).None?
  {
    RemoveKeepsUnequal(es, i);
    RemoveLeavesNoMatch(es, i, k);
  }

  /** A removal keeps the keys pairwise unequal. */
  lemma RemoveKeepsUnequal(es: seq<Entry>, i: nat)
    requires i < |es|
    requires forall a, b :: 0 <= a < b < |es| ==> !Equal(es[a].key, es[b].key)
    ensures var r := RemoveAt(es, i);
      forall a, b :: 0 <= a < b < |r| ==> !Equal(r[a].key, r[b].key)
  {
    var r := RemoveAt(es, i);
    forall a, b | 0 <= a < b < |r|
      ensures !Equal(r[a].key, r[b].key)
    {
      var a' := if a < i then a else a + 1;
      var b' := if b < i then b else b + 1;
      assert r[a] == es[a'] && r[b] == es[b'];
    }
  }

  /** Once the entry equal to k is removed, no entry matches k. */
  lemma RemoveLeavesNoMatch(es: seq<Entry>, i: nat, k: ThreadInfo)
    requires i < |es| && Equal(es[i].key, k)
    requires forall a, b :: 0 <= a < b < |es| ==> !Equal(es[a].key, es[b].key)
    ensures FindEntry(RemoveAt(es, i), k).None?
  {
    var r := RemoveAt(es, i);
    forall a | 0 <= a < |r|
      ensures !Equal(r[a].key, k)
    {
      var a' := if a < i then a else a + 1;
      assert r[a] == es[a'];
      OtherKeyDiffers(es, i, a', k);
    }
    NoEqualNoEntry(r, k);
  }

  /** No entry equal to k: none matches it. */
  lemma NoEqualNoEntry(es: seq<Entry>, k: ThreadInfo)
    requires forall a :: 0 <= a < |es| ==> !Equal(es[a].key, k)
    ensures FindEntry(es, k).None?
  {
  }

  /** In a table of pairwise unequal keys, only entry i matches a key
   *  entry i matches. */
  lemma OtherKeyDiffers(es: seq<Entry>, i: nat, a: nat, k: ThreadInfo)
    requires i < |es| && a < |es| && a != i && Equal(es[i].key, k)
    requires forall x, y :: 0 <= x < y < |es| ==> !Equal(es[x].key, es[y].key)
    ensures !Equal(es[a].key, k)
  {
    EqualIsEquivalence(es[i].key, k, es[a].key);
    EqualIsEquivalence(es[a].key, k, es[i].key);
    EqualIsEquivalence(es[a].key, es[i].key, es[i].key);
    assert a < i ==> !Equal(es[a].key, es[i].key);
    assert i < a ==> !Equal(es[i].key, es[a].key);
  }
}
