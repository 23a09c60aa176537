/** Network-trace synchronisation (lttv/lttv/sync.c): the predicates on TCP
 *  packets and connections, the hash used to index connections, the time
 *  difference of two timevals, the graph membership test, and the step of
 *  the packet matching algorithm that pairs a send event with the matching
 *  receive event and collects acknowledged packets.
 *
 *  The header sync.h, which declares the field widths, is not part of this
 *  model: the connection addresses are taken as 32-bit and the ports as
 *  16-bit values, and the remaining header fields as unbounded naturals. */
module Sync {
  import opened Wrappers
  import opened CStdlib

  /** UINT_MAX: the predecessor of a trace that is not on a shortest path. */
  const UIntMax: nat := 0xFFFF_FFFF

  // ---------------------------------------------------------------------
  // Connections and packets
  // ---------------------------------------------------------------------

  /** A TCP connection seen from one side: source and destination address
   *  and port. */
  datatype ConnectionKey = ConnectionKey(saddr: bv32, daddr: bv32, source: bv16, dest: bv16)

  /** The same connection seen from the other side. */
  function Reversed(k: ConnectionKey): ConnectionKey {
    ConnectionKey(k.daddr, k.saddr, k.dest, k.source)
  }

  /** The IP and TCP header fields the trace records for a packet. */
  datatype Header = Header(connKey: ConnectionKey, totLen: nat, ihl: nat, seqNo: nat,
                           ackSeq: nat, doff: nat, ack: nat, rst: nat, syn: nat, fin: nat)

  /** connectionKeyEqual: field-by-field comparison, which is equality of
   *  keys. */
  function ConnectionKeyEqual(a: ConnectionKey, b: ConnectionKey): (r: bool)
    ensures r <==> a == b
  {
    a.saddr == b.saddr && a.daddr == b.daddr && a.source == b.source && a.dest == b.dest
  }

  /** connectionEqual: the same connection in either direction. */
  function ConnectionEqual(a: ConnectionKey, b: ConnectionKey): (r: bool)
    ensures r <==> a == b || a == Reversed(b)
  {
    if a.saddr == b.saddr && a.daddr == b.daddr && a.source == b.source && a.dest == b.dest then true
    else a.saddr == b.daddr && a.daddr == b.saddr && a.source == b.dest && a.dest == b.source
  }

  /** connectionEqual is an equivalence, as the connection hash table
   *  requires of its equality function. */
  lemma ConnectionEqualIsEquivalence(a: ConnectionKey, b: ConnectionKey, c: ConnectionKey)
    ensures ConnectionEqual(a, a)
    ensures ConnectionEqual(a, b) ==> ConnectionEqual(b, a)
    ensures ConnectionEqual(a, b) && ConnectionEqual(b, c) ==> ConnectionEqual(a, c)
  {
    assert Reversed(Reversed(c)) == c;
    assert Reversed(Reversed(a)) == a;
  }

  /** connectionHash: the XOR of addresses and ports, folded twice. */
  function ConnectionHash(k: ConnectionKey): bv32 {
    Fold(Mix(k))
  }

  /** The XOR of both ends of the connection. */
  function Mix(k: ConnectionKey): bv32 {
    Xor(End(k.saddr, k.source), End(k.daddr, k.dest))
  }

  function Xor(u: bv32, v: bv32): bv32 {
    u ^ v
  }

  /** One end of the connection: its address XOR its port. */
  function End(addr: bv32, port: bv16): bv32 {
    addr ^ (port as bv32)
  }

  /** The two folding steps of connectionHash. */
  function Fold(x: bv32): bv32 {
    var y := x ^ (x >> 16);
    y ^ (y >> 8)
  }

  /** Keys equal under connectionEqual hash to the same value, so both
   *  directions of a connection land in the same bucket. */
  lemma ConnectionHashRespectsEqual(a: ConnectionKey, b: ConnectionKey)
    requires ConnectionEqual(a, b)
    ensures ConnectionHash(a) == ConnectionHash(b)
  {
    if a != b {
      MixReversed(b);
    }
  }

  lemma MixReversed(k: ConnectionKey)
    ensures Mix(Reversed(k)) == Mix(k)
  {
    XorCommutes(End(k.saddr, k.source), End(k.daddr, k.dest));
  }

  lemma XorCommutes(u: bv32, v: bv32)
    ensures Xor(u, v) == Xor(v, u)
  {
  }

  /** netEventPacketEqual: the key of the unmatched-event tables compares
   *  the connection and every header field, which is equality of headers. */
  function NetEventPacketEqual(a: Header, b: Header): (r: bool)
    ensures r <==> a == b
  {
    ConnectionKeyEqual(a.connKey, b.connKey) && a.totLen == b.totLen && a.ihl == b.ihl &&
    a.seqNo == b.seqNo && a.ackSeq == b.ackSeq && a.doff == b.doff && a.ack == b.ack &&
    a.rst == b.rst && a.syn == b.syn && a.fin == b.fin
  }

  /** isAck: the ACK flag is set. */
  predicate IsAck(h: Header) {
    h.ack == 1
  }

  /** isAcking: `ack` travels on the reversed connection of `acked` and
   *  acknowledges a sequence number beyond the start of `acked`. */
  function IsAcking(ack: Header, acked: Header): (r: bool)
    ensures r <==> ack.connKey == Reversed(acked.connKey) && ack.ackSeq > acked.seqNo
  {
    acked.connKey.saddr == ack.connKey.daddr && acked.connKey.daddr == ack.connKey.saddr &&
    acked.connKey.source == ack.connKey.dest && acked.connKey.dest == ack.connKey.source &&
    ack.ackSeq > acked.seqNo
  }

  /** An acknowledgement is looked up under its own key: the acknowledged
   *  packet is on the same connection, in the other direction. */
  lemma IsAckingSameConnection(ack: Header, acked: Header)
    requires IsAcking(ack, acked)
    ensures ConnectionEqual(ack.connKey, acked.connKey)
    ensures ConnectionEqual(acked.connKey, ack.connKey)
    ensures ConnectionHash(ack.connKey) == ConnectionHash(acked.connKey)
  {
    ConnectionEqualIsEquivalence(ack.connKey, acked.connKey, acked.connKey);
    ConnectionHashRespectsEqual(ack.connKey, acked.connKey);
  }

  /** The TCP payload length: total length less the IP and TCP headers,
   *  which are counted in 32-bit words. */
  function Payload(h: Header): int {
    h.totLen - h.ihl * 4 - h.doff * 4
  }

  /** needsAck: a packet that advances the sequence number (SYN, FIN or a
   *  payload) must be acknowledged. */
  function NeedsAck(h: Header): (r: bool)
    ensures r <==> h.syn != 0 || h.fin != 0 || Payload(h) > 0
    ensures h.syn == 0 && h.fin == 0 && h.totLen <= 4 * (h.ihl + h.doff) ==> !r
  {
    h.syn != 0 || h.fin != 0 || h.totLen - h.ihl * 4 - h.doff * 4 > 0
  }

  // ---------------------------------------------------------------------
  // Elapsed time
  // ---------------------------------------------------------------------

  /** A struct timeval. */
  datatype Timeval = Timeval(sec: int, usec: int)

  function Micros(t: Timeval): int {
    t.sec * 1000000 + t.usec
  }

  /** The value timeDiff leaves in `end`: the difference, borrowing one
   *  second when the microseconds would go negative. */
  function Elapsed(end: Timeval, start: Timeval): (r: Timeval)
    ensures Micros(r) == Micros(end) - Micros(start)
    ensures 0 <= end.usec < 1000000 && 0 <= start.usec < 1000000 ==> 0 <= r.usec < 1000000
  {
    if end.usec >= start.usec then Timeval(end.sec - start.sec, end.usec - start.usec)
    else Timeval(end.sec - start.sec - 1, end.usec - start.usec + 1000000)
  }

  /** The elapsed time is the unique normalised timeval of the difference. */
  lemma ElapsedUnique(end: Timeval, start: Timeval, t: Timeval)
    requires 0 <= end.usec < 1000000 && 0 <= start.usec < 1000000
    requires 0 <= t.usec < 1000000 && Micros(t) == Micros(end) - Micros(start)
    ensures t == Elapsed(end, start)
  {
    var r := Elapsed(end, start);
    assert 1000000 * (t.sec - r.sec) == r.usec - t.usec;
    MulSign(1000000, t.sec - r.sec);
  }

  /** A struct timeval that timeDiff overwrites. */
  class TimevalBox {
    var sec: int
    var usec: int

    constructor (sec: int, usec: int)
      ensures this.sec == sec && this.usec == usec
    {
      this.sec := sec;
      this.usec := usec;
    }

    /** timeDiff(end = this, start): store end - start in this. */
    method TimeDiff(start: TimevalBox)
      modifies this
      ensures Timeval(sec, usec) == Elapsed(Timeval(old(sec), old(usec)), Timeval(old(start.sec), old(start.usec)))
    {
      if usec >= start.usec {
        sec := sec - start.sec;
        usec := usec - start.usec;
      } else {
        sec := sec - start.sec - 1;
        usec := usec - start.usec + 1000000;
      }
    }
  }

  // ---------------------------------------------------------------------
  // Synchronisation graphs
  // ---------------------------------------------------------------------

  /** A group of traces linked by exchanges: the predecessor of each trace on
   *  the shortest path from the reference trace. */
  datatype Graph = Graph(previousVertex: seq<nat>, reference: nat)

  /** graphTraceCompare: 0 when the trace belongs to the graph, as its
   *  reference or through a predecessor. */
  function GraphTraceCompare(g: Graph, traceNum: nat): (r: int)
    requires traceNum < |g.previousVertex|
    ensures r == 0 || r == 1
    ensures r == 0 <==> g.previousVertex[traceNum] != UIntMax || g.reference == traceNum
  {
    if g.previousVertex[traceNum] != UIntMax then 0
    else if g.reference == traceNum then 0
    else 1
  }

  /** g_queue_find_custom with graphTraceCompare: the first graph holding the
   *  trace, or the length of the list when none does. */
  function FindGraph(graphs: seq<Graph>, traceNum: nat): (i: nat)
    requires forall j :: 0 <= j < |graphs| ==> traceNum < |graphs[j].previousVertex|
    ensures i <= |graphs|
    ensures i < |graphs| ==> GraphTraceCompare(graphs[i], traceNum) == 0
    ensures forall j :: 0 <= j < i ==> GraphTraceCompare(graphs[j], traceNum) == 1
  {
    if |graphs| == 0 then 0
    else if GraphTraceCompare(graphs[0], traceNum) == 0 then 0
    else 1 + FindGraph(graphs[1..], traceNum)
  }

  /** The reference trace of a graph is always found in it. */
  lemma ReferenceFound(graphs: seq<Graph>, i: nat)
    requires i < |graphs|
    requires forall j :: 0 <= j < |graphs| ==> graphs[i].reference < |graphs[j].previousVertex|
    ensures FindGraph(graphs, graphs[i].reference) <= i
  {
    var t := graphs[i].reference;
    assert GraphTraceCompare(graphs[i], t) == 0;
  }

  // ---------------------------------------------------------------------
  // Packet matching
  // ---------------------------------------------------------------------

  /** A send (dev_hard_start_xmit) or receive (tcpv4_rcv) event: the trace it
   *  was recorded in and its cycle count. */
  datatype NetEvent = NetEvent(trace: nat, tsc: nat)

  datatype Direction = Out | In

  function Opposite(dir: Direction): Direction {
    if dir == Out then In else Out
  }

  /** A packet: its header, its receive and send events when seen, and the
   *  packets it acknowledges. */
  datatype Packet = Packet(header: Header, inE: Option<NetEvent>, outE: Option<NetEvent>, acks: seq<Packet>)

  /** A packet with both of its events. */
  predicate Complete(p: Packet) {
    p.inE.Some? && p.outE.Some?
  }

  /** The packets waiting for an acknowledgement on one connection. */
  datatype UnAckedList = UnAckedList(key: ConnectionKey, packets: seq<Packet>)

  /** One sample of the least-squares fit between the sending trace `ni` and
   *  the receiving trace `nj`: the cycle counts of an acknowledged packet
   *  and of its acknowledgement. The fit arithmetic itself is in floating
   *  point and is not part of this model. */
  datatype Sample = Sample(ni: nat, nj: nat, ackedOut: nat, ackedIn: nat, ackOut: nat, ackIn: nat)

  /** g_hash_table_lookup on the unAcked table: the list whose key is the
   *  same connection, or the length of the table when there is none. */
  function FindList(lists: seq<UnAckedList>, k: ConnectionKey): (j: nat)
    ensures j <= |lists|
    ensures j < |lists| ==> ConnectionEqual(lists[j].key, k)
    ensures forall i :: 0 <= i < j ==> !ConnectionEqual(lists[i].key, k)
  {
    if |lists| == 0 then 0
    else if ConnectionEqual(lists[0].key, k) then 0
    else 1 + FindList(lists[1..], k)
  }

  /** The packets of a list that `ack` acknowledges, in list order. */
  function AckedBy(ps: seq<Packet>, ack: Header): seq<Packet> {
    if |ps| == 0 then []
    else (if IsAcking(ack, ps[0].header) then [ps[0]] else []) + AckedBy(ps[1..], ack)
  }

  /** The packets of a list that `ack` does not acknowledge, in list order. */
  function NotAckedBy(ps: seq<Packet>, ack: Header): seq<Packet> {
    if |ps| == 0 then []
    else (if IsAcking(ack, ps[0].header) then [] else [ps[0]]) + NotAckedBy(ps[1..], ack)
  }

  /** g_queue_find_custom with packetAckCompare: the first packet that `ack`
   *  acknowledges, or the length of the list. */
  function FirstAcked(ps: seq<Packet>, ack: Header): (i: nat)
    ensures i <= |ps|
    ensures i < |ps| ==> IsAcking(ack, ps[i].header)
    ensures forall j :: 0 <= j < i ==> !IsAcking(ack, ps[j].header)
  {
    if |ps| == 0 then 0
    else if IsAcking(ack, ps[0].header) then 0
    else 1 + FirstAcked(ps[1..], ack)
  }

  /** Splitting a list by an acknowledgement keeps every packet exactly
   *  once. */
  lemma {:induction false} AckedBySplits(ps: seq<Packet>, ack: Header)
    ensures multiset(AckedBy(ps, ack)) + multiset(NotAckedBy(ps, ack)) == multiset(ps)
  {
    if |ps| > 0 {
      AckedBySplits(ps[1..], ack);
      assert ps == [ps[0]] + ps[1..];
    }
  }

  /** The packets taken by an acknowledgement are acknowledged by it, the
   *  others are not. */
  lemma {:induction false} AckedByMembers(ps: seq<Packet>, ack: Header)
    ensures forall p :: p in AckedBy(ps, ack) ==> p in ps && IsAcking(ack, p.header)
    ensures forall p :: p in NotAckedBy(ps, ack) ==> p in ps && !IsAcking(ack, p.header)
  {
    if |ps| > 0 {
      AckedByMembers(ps[1..], ack);
    }
  }

  /** Settling moves the acknowledged packets of the connection's list out of
   *  the table and keeps the others. */
  lemma SettleConserves(lists: seq<UnAckedList>, ack: Header)
    requires FindList(lists, ack.connKey) < |lists|
    ensures var j := FindList(lists, ack.connKey);
      multiset(Settle(lists, ack)[j].packets) + multiset(AcksOf(lists, ack)) == multiset(lists[j].packets)
    ensures !IsAck(ack) ==> AcksOf(lists, ack) == [] && Settle(lists, ack) == lists
  {
    var j := FindList(lists, ack.connKey);
    if IsAck(ack) {
      AckedBySplits(lists[j].packets, ack);
    }
  }

  /** A list with no acknowledged packet is left whole. */
  lemma {:induction false} NoneAcked(ps: seq<Packet>, ack: Header)
    requires FirstAcked(ps, ack) == |ps|
    ensures AckedBy(ps, ack) == []
    ensures NotAckedBy(ps, ack) == ps
  {
    if |ps| > 0 {
      assert FirstAcked(ps[1..], ack) == |ps[1..]|;
      NoneAcked(ps[1..], ack);
    }
  }

  /** Deleting the first acknowledged packet moves it from the front of the
   *  acknowledged packets and keeps the rest. */
  lemma {:induction false} DeleteFirstAcked(ps: seq<Packet>, ack: Header, i: nat)
    requires i == FirstAcked(ps, ack) && i < |ps|
    ensures AckedBy(ps, ack) == [ps[i]] + AckedBy(ps[..i] + ps[i + 1..], ack)
    ensures NotAckedBy(ps, ack) == NotAckedBy(ps[..i] + ps[i + 1..], ack)
  {
    if i == 0 {
      assert ps[..0] + ps[1..] == ps[1..];
    } else {
      var tail := ps[1..];
      assert FirstAcked(tail, ack) == i - 1;
      DeleteFirstAcked(tail, ack, i - 1);
      assert ps[..i] + ps[i + 1..] == [ps[0]] + (tail[..i - 1] + tail[i..]);
    }
  }

  /** Every packet of every unAcked list has both of its events and belongs
   *  to the list's connection. */
  ghost predicate ListsOk(lists: seq<UnAckedList>) {
    forall j, p :: 0 <= j < |lists| && p in lists[j].packets ==>
      Complete(p) && ConnectionEqual(p.header.connKey, lists[j].key)
  }

  /** The unAcked table holds one list per connection. */
  ghost predicate KeysDistinct(lists: seq<UnAckedList>) {
    forall i, j :: 0 <= i < j < |lists| ==> !ConnectionEqual(lists[i].key, lists[j].key)
  }

  /** The unAcked table after `ack` took its acknowledged packets out of its
   *  connection's list. */
  function Settle(lists: seq<UnAckedList>, ack: Header): (r: seq<UnAckedList>)
    ensures |r| == |lists|
    ensures forall i :: 0 <= i < |r| ==> r[i].key == lists[i].key
  {
    var j := FindList(lists, ack.connKey);
    if IsAck(ack) && j < |lists| then lists[j := lists[j].(packets := NotAckedBy(lists[j].packets, ack))]
    else lists
  }

  /** The packets `ack` acknowledges, in the order they were sent. */
  function AcksOf(lists: seq<UnAckedList>, ack: Header): seq<Packet> {
    var j := FindList(lists, ack.connKey);
    if IsAck(ack) && j < |lists| then AckedBy(lists[j].packets, ack) else []
  }

  /** The unAcked table after a packet joined its connection's list, which is
   *  created when the connection has none. */
  function Enqueue(lists: seq<UnAckedList>, p: Packet): (r: seq<UnAckedList>)
    ensures FindList(r, p.header.connKey) < |r|
    ensures |r[FindList(r, p.header.connKey)].packets| > 0
    ensures r[FindList(r, p.header.connKey)].packets[|r[FindList(r, p.header.connKey)].packets| - 1] == p
  {
    var j := FindList(lists, p.header.connKey);
    if j < |lists| then
      var r := lists[j := lists[j].(packets := lists[j].packets + [p])];
      assert FindList(r, p.header.connKey) == j by { FindListSameKeys(lists, r, p.header.connKey); }
      r
    else
      var r := lists + [UnAckedList(p.header.connKey, [p])];
      assert FindList(r, p.header.connKey) == j by { FindListAppend(lists, UnAckedList(p.header.connKey, [p]), p.header.connKey); }
      r
  }

  lemma {:induction false} FindListSameKeys(a: seq<UnAckedList>, b: seq<UnAckedList>, k: ConnectionKey)
    requires |a| == |b| && forall i :: 0 <= i < |a| ==> a[i].key == b[i].key
    ensures FindList(a, k) == FindList(b, k)
  {
    if |a| > 0 {
      FindListSameKeys(a[1..], b[1..], k);
    }
  }

  lemma {:induction false} FindListAppend(a: seq<UnAckedList>, l: UnAckedList, k: ConnectionKey)
    requires FindList(a, k) == |a| && ConnectionEqual(l.key, k)
    ensures FindList(a + [l], k) == |a|
  {
    if |a| > 0 {
      assert (a + [l])[1..] == a[1..] + [l];
      assert FindList(a[1..], k) == |a[1..]|;
      FindListAppend(a[1..], l, k);
    }
  }

  /** The sample an acknowledgement gives, when the exchange runs between two
   *  different traces in the expected directions: the acknowledged packet
   *  went from trace ni to trace nj and its acknowledgement came back. */
  function SampleOf(acked: Packet, ack: Packet): (s: Option<Sample>)
    requires Complete(acked) && Complete(ack)
    ensures s.Some? <==> acked.outE.value.trace == ack.inE.value.trace &&
                         acked.inE.value.trace == ack.outE.value.trace &&
                         acked.outE.value.trace != acked.inE.value.trace
    ensures s.Some? ==> s.value.ni != s.value.nj
  {
    if acked.outE.value.trace != ack.inE.value.trace || acked.inE.value.trace != ack.outE.value.trace then None
    else if acked.outE.value.trace == acked.inE.value.trace then None
    else Some(Sample(acked.outE.value.trace, acked.inE.value.trace,
                     acked.outE.value.tsc, acked.inE.value.tsc, ack.outE.value.tsc, ack.inE.value.tsc))
  }

  /** The packet formed when an event meets its companion of the opposite
   *  direction. */
  function Paired(dir: Direction, h: Header, e: NetEvent, companion: NetEvent): (p: Packet)
    ensures Complete(p) && p.header == h && p.acks == []
    ensures dir == Out ==> p.outE == Some(e) && p.inE == Some(companion)
    ensures dir == In ==> p.inE == Some(e) && p.outE == Some(companion)
  {
    if dir == Out then Packet(h, Some(companion), Some(e), [])
    else Packet(h, Some(e), Some(companion), [])
  }

  /** Settling keeps the invariant of the unAcked table. */
  lemma SettleOk(lists: seq<UnAckedList>, ack: Header)
    requires ListsOk(lists) && KeysDistinct(lists)
    ensures ListsOk(Settle(lists, ack)) && KeysDistinct(Settle(lists, ack))
    ensures forall p :: p in AcksOf(lists, ack) ==> Complete(p) && IsAcking(ack, p.header)
  {
    var j := FindList(lists, ack.connKey);
    if IsAck(ack) && j < |lists| {
      AckedByMembers(lists[j].packets, ack);
    }
  }

  /** Queueing a complete packet keeps the invariant of the unAcked table. */
  lemma EnqueueOk(lists: seq<UnAckedList>, p: Packet)
    requires ListsOk(lists) && KeysDistinct(lists) && Complete(p)
    ensures ListsOk(Enqueue(lists, p)) && KeysDistinct(Enqueue(lists, p))
  {
    var j := FindList(lists, p.header.connKey);
    var r := Enqueue(lists, p);
    ConnectionEqualIsEquivalence(p.header.connKey, p.header.connKey, p.header.connKey);
    if j == |lists| {
      forall i | 0 <= i < |lists|
        ensures !ConnectionEqual(lists[i].key, p.header.connKey)
      {
      }
      forall i, k | 0 <= i < k < |r|
        ensures !ConnectionEqual(r[i].key, r[k].key)
      {
        if k == |lists| {
          assert r[k].key == p.header.connKey;
        }
      }
    } else {
      forall q | q in r[j].packets
        ensures Complete(q) && ConnectionEqual(q.header.connKey, r[j].key)
      {
        if q == p {
          ConnectionEqualIsEquivalence(lists[j].key, p.header.connKey, p.header.connKey);
        }
      }
    }
  }

  /** The state of the matching algorithm: the send and receive events still
   *  waiting for their companion, indexed by packet header; the packets
   *  waiting for an acknowledgement, one list per connection; and the fit
   *  samples taken so far. */
  class SyncState {
    var unMatchedOutE: map<Header, NetEvent>
    var unMatchedInE: map<Header, NetEvent>
    var unAcked: seq<UnAckedList>
    var samples: seq<Sample>

    ghost predicate Valid()
      reads this
    {
      ListsOk(unAcked) && KeysDistinct(unAcked)
    }

    constructor ()
      ensures Valid()
      ensures unMatchedOutE == map[] && unMatchedInE == map[] && unAcked == [] && samples == []
    {
      unMatchedOutE := map[];
      unMatchedInE := map[];
      unAcked := [];
      samples := [];
    }

    /** The table of unmatched events of one direction. */
    function Unmatched(dir: Direction): map<Header, NetEvent>
      reads this
    {
      if dir == Out then unMatchedOutE else unMatchedInE
    }

    /** matchEvents: an event of direction `dir` for a packet with header
     *  `h`. Without an unmatched companion of the opposite direction, the
     *  event waits in its own table. Otherwise the companion leaves its
     *  table and the packet is complete: if it acknowledges data, the
     *  packets it acknowledges leave the unAcked table and the last of them
     *  gives a fit sample; if it needs an acknowledgement itself, it joins
     *  its connection's unAcked list. */
    method MatchEvents(e: NetEvent, dir: Direction, h: Header)
      requires Valid()
      modifies this
      ensures Valid()
      ensures h !in old(Unmatched(Opposite(dir))) ==>
        Unmatched(dir) == old(Unmatched(dir))[h := e] &&
        Unmatched(Opposite(dir)) == old(Unmatched(Opposite(dir))) &&
        unAcked == old(unAcked) && samples == old(samples)
      ensures h in old(Unmatched(Opposite(dir))) ==>
        Unmatched(Opposite(dir)) == old(Unmatched(Opposite(dir))) - {h} &&
        Unmatched(dir) == old(Unmatched(dir)) &&
        Matched(old(unAcked), old(samples), Paired(dir, h, e, old(Unmatched(Opposite(dir)))[h]), unAcked, samples)
    {
      if h in Unmatched(Opposite(dir)) {
        var companion := Unmatched(Opposite(dir))[h];
        if dir == Out {
          unMatchedInE := unMatchedInE - {h};
        } else {
          unMatchedOutE := unMatchedOutE - {h};
        }
        var packet := Paired(dir, h, e, companion);
        Acknowledge(packet);
      } else {
        if dir == Out {
          unMatchedOutE := unMatchedOutE[h := e];
        } else {
          unMatchedInE := unMatchedInE[h := e];
        }
      }
    }

    /** The part of matchEvents that follows the pairing of `packet`. */
    method Acknowledge(packet: Packet)
      requires Valid() && Complete(packet) && packet.acks == []
      modifies this
      ensures Valid()
      ensures unMatchedOutE == old(unMatchedOutE) && unMatchedInE == old(unMatchedInE)
      ensures Matched(old(unAcked), old(samples), packet, unAcked, samples)
    {
      var h := packet.header;
      var acks := TakeAcks(h);
      var p := packet.(acks := acks);
      RecordSample(acks, p);
      if NeedsAck(h) {
        Queue(p);
      }
    }

    /** The loop of matchEvents over the unAcked list of the connection of
     *  `ack`, when `ack` is an acknowledgement. Every packet taken out of
     *  the list has both of its events, so the branches of the loop for a
     *  packet missing one of them are never taken. */
    method TakeAcks(ack: Header) returns (acks: seq<Packet>)
      requires Valid()
      modifies this
      ensures Valid()
      ensures unAcked == Settle(old(unAcked), ack)
      ensures acks == AcksOf(old(unAcked), ack)
      ensures forall p :: p in acks ==> Complete(p) && IsAcking(ack, p.header)
      ensures unMatchedOutE == old(unMatchedOutE) && unMatchedInE == old(unMatchedInE)
      ensures samples == old(samples)
    {
      SettleOk(unAcked, ack);
      var j := FindList(unAcked, ack.connKey);
      if IsAck(ack) && j < |unAcked| {
        var kept;
        kept, acks := DeleteAcked(unAcked[j].packets, ack);
        unAcked := unAcked[j := unAcked[j].(packets := kept)];
      } else {
        acks := [];
      }
    }

    /** The offset calculation of matchEvents: the last acknowledged packet
     *  and its acknowledgement give a sample of the fit. */
    method RecordSample(acks: seq<Packet>, p: Packet)
      requires Complete(p)
      modifies this
      ensures samples == old(samples) + SampleFrom(acks, p)
      ensures unAcked == old(unAcked)
      ensures unMatchedOutE == old(unMatchedOutE) && unMatchedInE == old(unMatchedInE)
    {
      if |acks| > 0 && Complete(acks[|acks| - 1]) {
        var s := SampleOf(acks[|acks| - 1], p);
        if s.Some? {
          samples := samples + [s.value];
        }
      }
    }

    /** A packet that needs an acknowledgement joins its connection's
     *  unAcked list. */
    method Queue(p: Packet)
      requires Valid() && Complete(p)
      modifies this
      ensures Valid()
      ensures unAcked == Enqueue(old(unAcked), p)
      ensures samples == old(samples)
      ensures unMatchedOutE == old(unMatchedOutE) && unMatchedInE == old(unMatchedInE)
    {
      EnqueueOk(unAcked, p);
      unAcked := Enqueue(unAcked, p);
    }
  }

  /** The loop of matchEvents that deletes, one at a time, the first packet
   *  of a list that `ack` acknowledges and collects it: what stays is the
   *  packets `ack` does not acknowledge and what is collected is the others,
   *  each in list order. */
  method DeleteAcked(ps0: seq<Packet>, ack: Header) returns (ps: seq<Packet>, acks: seq<Packet>)
    ensures ps == NotAckedBy(ps0, ack)
    ensures acks == AckedBy(ps0, ack)
  {
    ps := ps0;
    acks := [];
    var i := FirstAcked(ps, ack);
    while i < |ps|
      invariant i == FirstAcked(ps, ack)
      invariant NotAckedBy(ps, ack) == NotAckedBy(ps0, ack)
      invariant acks + AckedBy(ps, ack) == AckedBy(ps0, ack)
      decreases |ps|
    {
      var acked := ps[i];
      DeleteFirstAcked(ps, ack, i);
      ps := ps[..i] + ps[i + 1..];
      acks := acks + [acked];
      i := FirstAcked(ps, ack);
    }
    NoneAcked(ps, ack);
  }

  /** The unAcked table and the samples after a paired packet was processed:
   *  the packets it acknowledges leave the table, the last of them gives a
   *  sample when the exchange is well formed, and the packet joins the table
   *  when it needs an acknowledgement. */
  ghost predicate Matched(lists0: seq<UnAckedList>, samples0: seq<Sample>, packet: Packet,
                          lists: seq<UnAckedList>, samples: seq<Sample>)
    requires Complete(packet)
  {
    var acks := AcksOf(lists0, packet.header);
    var p := packet.(acks := acks);
    var settled := Settle(lists0, packet.header);
    (lists == if NeedsAck(packet.header) then Enqueue(settled, p) else settled) &&
    samples == samples0 + SampleFrom(acks, p)
  }

  /** The sample the last of the acknowledged packets gives, if any. */
  function SampleFrom(acks: seq<Packet>, p: Packet): (r: seq<Sample>)
    requires Complete(p)
    ensures |r| <= 1
    ensures |r| == 1 ==> |acks| > 0 && r[0].ni != r[0].nj
  {
    if |acks| > 0 && Complete(acks[|acks| - 1]) && SampleOf(acks[|acks| - 1], p).Some? then
      [SampleOf(acks[|acks| - 1], p).value]
    else []
  }
}
