/** Receive-queue tables: which lcore polls which (port, queue). */
module QueueTypes {

  const MAX_RX_QUEUE_PER_LCORE: nat := 16
  const MAX_PORT_QCONF: nat := 256
  // RTE_MAX_LCORE and RTE_MAX_ETHPORTS come from the DPDK build; these are its defaults.
  const RTE_MAX_LCORE: nat := 128
  const RTE_MAX_ETHPORTS: nat := 32

  type uint16 = x: int | 0 <= x < 0x1_0000
  type uint32 = x: int | 0 <= x < 0x1_0000_0000

  /** struct port_queue_conf */
  datatype PortQueue = PortQueue(port: uint16, queue: uint16)

  /** struct lcore_qconf: a fixed array of slots of which the first `nrxq` are in use. */
  datatype QconfRecord = QconfRecord(nrxq: nat, slots: seq<PortQueue>) {
    predicate Fits() {
      |slots| == MAX_RX_QUEUE_PER_LCORE && nrxq <= MAX_RX_QUEUE_PER_LCORE
    }

    /** The queues in use; slots past `nrxq` may hold leftovers nobody reads. */
    function Active(): seq<PortQueue>
      requires Fits()
    {
      slots[..nrxq]
    }
  }

  function EmptyRecord(): QconfRecord {
    QconfRecord(0, seq(MAX_RX_QUEUE_PER_LCORE, i => PortQueue(0, 0)))
  }

  type Qconf = c: QconfRecord | c.Fits() witness EmptyRecord()

  type QTable = t: seq<Qconf> | |t| == RTE_MAX_LCORE
    witness seq<Qconf>(RTE_MAX_LCORE, i => EmptyRecord())

  function EmptyTable(): QTable {
    seq<Qconf>(RTE_MAX_LCORE, i => EmptyRecord())
  }

  /** The queue lists of a table, one per lcore. */
  type Lists = seq<seq<PortQueue>>

  function ListsOf(t: seq<Qconf>): (lists: Lists)
    ensures |lists| == |t|
    ensures forall i :: 0 <= i < |t| ==> lists[i] == t[i].Active()
  {
    seq(|t|, i requires 0 <= i < |t| => t[i].Active())
  }

  /** All entries of the lists, in lcore order. */
  function Listed(lists: Lists): seq<PortQueue> {
    if lists == [] then [] else Listed(lists[..|lists| - 1]) + lists[|lists| - 1]
  }

  /** No (port, queue) is listed for two different lcores. */
  ghost predicate Exclusive(lists: Lists) {
    Compatible(lists, lists)
  }

  /** An lcore reading its list in `a` and another reading its own in `b` never share a queue. */
  ghost predicate Compatible(a: Lists, b: Lists) {
    forall i, j, pq :: 0 <= i < |a| && 0 <= j < |b| && i != j && pq in a[i] ==> pq !in b[j]
  }

  /** The entries of one port are the queue ids 0..n-1, each exactly once. */
  ghost predicate PortHasExactly(entries: seq<PortQueue>, p: uint16, n: nat) {
    forall q: uint16 :: multiset(entries)[PortQueue(p, q)] == if q < n then 1 else 0
  }

  /** Every port's queue ids are 0..n-1 for some n, without duplicate or gap. */
  ghost predicate Dense(entries: seq<PortQueue>) {
    forall p: uint16 :: PortDense(entries, p)
  }

  ghost predicate PortDense(entries: seq<PortQueue>, p: uint16) {
    exists n: nat :: PortHasExactly(entries, p, n)
  }

  lemma ListedSnoc(lists: Lists, list: seq<PortQueue>)
    ensures Listed(lists + [list]) == Listed(lists) + list
  {
    assert (lists + [list])[..|lists|] == lists;
  }

  lemma {:induction false} ListedAppend(a: Lists, b: Lists)
    ensures Listed(a + b) == Listed(a) + Listed(b)
  {
    if b == [] {
      assert a + b == a;
    } else {
      var init, last := b[..|b| - 1], b[|b| - 1];
      ListedAppend(a, init);
      ListedSnoc(a + init, last);
      assert a + b == (a + init) + [last];
    }
  }

  lemma {:induction false} ListedEmpty(lists: Lists)
    requires forall i :: 0 <= i < |lists| ==> lists[i] == []
    ensures Listed(lists) == []
  {
    if lists != [] {
      ListedEmpty(lists[..|lists| - 1]);
    }
  }

  /** An entry listed at two places is counted at least twice. */
  lemma {:induction false} ListedCountsTwice(lists: Lists, i: nat, j: nat, pq: PortQueue)
    requires i < j < |lists| && pq in lists[i] && pq in lists[j]
    ensures multiset(Listed(lists))[pq] >= 2
  {
    var left, right := lists[..j], lists[j..];
    ListedAppend(left, right);
    assert lists == left + right;
    ListedHolds(left, i, pq);
    ListedHolds(right, 0, pq);
  }

  lemma {:induction false} ListedHolds(lists: Lists, i: nat, pq: PortQueue)
    requires i < |lists| && pq in lists[i]
    ensures pq in Listed(lists)
    ensures multiset(Listed(lists))[pq] >= 1
  {
    if i < |lists| - 1 {
      ListedHolds(lists[..|lists| - 1], i, pq);
    }
  }

  lemma DenseHoldsOnce(entries: seq<PortQueue>, pq: PortQueue)
    requires Dense(entries)
    ensures multiset(entries)[pq] <= 1
  {
    assert PortDense(entries, pq.port);
    var n: nat :| PortHasExactly(entries, pq.port, n);
    assert multiset(entries)[PortQueue(pq.port, pq.queue)] <= 1;
  }

  /** Density forbids sharing: what rib_check accepts keeps every queue on one lcore. */
  lemma DenseIsExclusive(lists: Lists)
    requires Dense(Listed(lists))
    ensures Exclusive(lists)
  {
    forall i, j, pq | 0 <= i < |lists| && 0 <= j < |lists| && i != j && pq in lists[i]
      ensures pq !in lists[j]
    {
      if pq in lists[j] {
        DenseHoldsOnce(Listed(lists), pq);
        ListedCountsTwice(lists, if i < j then i else j, if i < j then j else i, pq);
      }
    }
  }
}
