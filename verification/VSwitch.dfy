/** The virtual switch of the tap handler: tap ports, and one port for every polled queue with a ring. */
module VSwitch {
  import opened Sequences
  import opened QueueTypes

  const VSWITCH_PORT_SIZE: nat := 16

  datatype Kind = Unused | DpdkLcore | LinuxTap

  /** A ring by its address; 0 is NULL. */
  type Ring = nat

  /** struct vswitch_port, without its name. */
  datatype Port = Port(id: nat, kind: Kind, sockfd: int, lcore: nat, dpdkPort: int, dpdkQueue: int, up: Ring,
                       down: Ring)

  const ZeroPort := Port(0, Unused, 0, 0, 0, 0, 0, 0)

  /** The ring tables, by port and queue. */
  datatype Rings = Rings(up: PortQueue -> Ring, down: PortQueue -> Ring)

  /** The ports that are no DPDK ports, in order. */
  function Kept(ports: seq<Port>): (r: seq<Port>)
    ensures |r| <= |ports|
  {
    if ports == [] then []
    else if ports[0].kind == DpdkLcore then Kept(ports[1..])
    else [ports[0]] + Kept(ports[1..])
  }

  /** A queue and the lcore that polls it. */
  datatype Polled = Polled(lcore: nat, pq: PortQueue)

  function PolledBy(lcore: nat, list: seq<PortQueue>, rings: Rings): seq<Polled> {
    if list == [] then []
    else
      var init, last := list[..|list| - 1], list[|list| - 1];
      PolledBy(lcore, init, rings) + if rings.up(last) == 0 then [] else [Polled(lcore, last)]
  }

  /** The queues with a ring, by lcore and list order. */
  function Ringed(lists: Lists, rings: Rings): seq<Polled> {
    if lists == [] then []
    else Ringed(lists[..|lists| - 1], rings) + PolledBy(|lists| - 1, lists[|lists| - 1], rings)
  }

  /** The port at index k shows the polled queue; its socket is whatever the slot held. */
  predicate ShowsQueue(p: Port, k: nat, q: Polled, rings: Rings) {
    p == Port(k, DpdkLcore, p.sockfd, q.lcore, q.pq.port, q.pq.queue, rings.up(q.pq), rings.down(q.pq))
  }

  /** What an update makes of the ports: those kept, then the ringed queues up to the limit. */
  ghost predicate Updated(was: seq<Port>, now: seq<Port>, limit: nat, qs: seq<Polled>, rings: Rings) {
    var kept := Kept(was);
    && kept <= now
    && |now| == (if |kept| + |qs| <= limit then |kept| + |qs| else limit)
    && forall k :: |kept| <= k < |now| ==> ShowsQueue(now[k], k, qs[k - |kept|], rings)
  }

  lemma KeptCons(p: Port, ports: seq<Port>)
    ensures Kept([p] + ports) == if p.kind == DpdkLcore then Kept(ports) else [p] + Kept(ports)
  {
    assert ([p] + ports)[1..] == ports;
  }

  /** One pass of the compaction, from the back. */
  lemma CompactStep(was: seq<Port>, now: seq<Port>, i: nat)
    requires i < |was| && now == was[..i + 1] + Kept(was[i + 1..])
    ensures now[i] == was[i]
    ensures was[..i] + Kept(was[i..]) == if was[i].kind == DpdkLcore then now[..i] + now[i + 1..] else now
  {
    assert was[i..] == [was[i]] + was[i + 1..];
    KeptCons(was[i], was[i + 1..]);
    assert now[i + 1..] == Kept(was[i + 1..]);
    assert was[..i + 1] == was[..i] + [was[i]];
  }

  lemma RingedSnoc(lists: Lists, n: nat, rings: Rings)
    requires n < |lists|
    ensures Ringed(lists[..n + 1], rings) == Ringed(lists[..n], rings) + PolledBy(n, lists[n], rings)
  {
    assert lists[..n + 1][..n] == lists[..n];
  }

  lemma PolledSnoc(lcore: nat, list: seq<PortQueue>, i: nat, rings: Rings)
    requires i < |list|
    ensures PolledBy(lcore, list[..i + 1], rings)
         == PolledBy(lcore, list[..i], rings) + if rings.up(list[i]) == 0 then [] else [Polled(lcore, list[i])]
  {
    assert list[..i + 1][..i] == list[..i];
  }

  lemma UpdatedSnoc(was: seq<Port>, now: seq<Port>, now': seq<Port>, limit: nat, qs: seq<Polled>, q: Polled,
                    rings: Rings)
    requires Updated(was, now, limit, qs, rings) && |now| <= limit
    requires if |now| == limit then now' == now
      else |now'| == |now| + 1 && now'[..|now|] == now && ShowsQueue(now'[|now|], |now|, q, rings)
    ensures Updated(was, now', limit, qs + [q], rings)
  {
    var n := |Kept(was)|;
    forall k | n <= k < |now'| ensures ShowsQueue(now'[k], k, (qs + [q])[k - n], rings) {
      assert k < |now| ==> now'[k] == now'[..|now|][k] && ShowsQueue(now[k], k, qs[k - n], rings);
    }
  }

  /** Keeping works port by port, in order. */
  lemma {:induction false} KeptAppend(a: seq<Port>, b: seq<Port>)
    ensures Kept(a + b) == Kept(a) + Kept(b)
  {
    if a == [] {
      assert a + b == b;
    } else {
      KeptAppend(a[1..], b);
      assert a + b == [a[0]] + (a[1..] + b);
      KeptCons(a[0], a[1..] + b);
    }
  }

  /** The ringed queues are those some lcore lists and that have an up ring. */
  lemma {:induction false} RingedIff(lists: Lists, rings: Rings, q: Polled)
    ensures q in Ringed(lists, rings) <==> q.lcore < |lists| && q.pq in lists[q.lcore] && rings.up(q.pq) != 0
  {
    if lists != [] {
      var n := |lists| - 1;
      RingedIff(lists[..n], rings, q);
      PolledIff(n, lists[n], rings, q);
    }
  }

  lemma {:induction false} PolledIff(lcore: nat, list: seq<PortQueue>, rings: Rings, q: Polled)
    ensures q in PolledBy(lcore, list, rings) <==> q.lcore == lcore && q.pq in list && rings.up(q.pq) != 0
  {
    if list != [] {
      PolledIff(lcore, list[..|list| - 1], rings, q);
    }
  }

  /** They stand by lcore, then by place in its list. */
  lemma {:induction false} RingedInOrder(lists: Lists, rings: Rings, n: nat)
    requires n <= |lists|
    ensures Ringed(lists[..n], rings) <= Ringed(lists, rings)
    decreases |lists| - n
  {
    if n < |lists| {
      RingedInOrder(lists, rings, n + 1);
      RingedSnoc(lists, n, rings);
    } else {
      assert lists[..n] == lists;
    }
  }

  lemma {:induction false} PolledInOrder(lcore: nat, list: seq<PortQueue>, rings: Rings, n: nat)
    requires n <= |list|
    ensures PolledBy(lcore, list[..n], rings) <= PolledBy(lcore, list, rings)
    decreases |list| - n
  {
    if n < |list| {
      PolledInOrder(lcore, list, rings, n + 1);
      PolledSnoc(lcore, list, n, rings);
    } else {
      assert list[..n] == list;
    }
  }

  /** What a port shows after an update: the queue of an lcore that polls it, and that queue's own two rings. */
  lemma PortShowsItsRings(was: seq<Port>, now: seq<Port>, limit: nat, lists: Lists, rings: Rings, k: nat)
    requires Updated(was, now, limit, Ringed(lists, rings), rings) && k < |now|
    ensures now[k].kind == DpdkLcore ==> exists q: PortQueue ::
      && now[k].lcore < |lists| && q in lists[now[k].lcore]
      && now[k].dpdkPort == q.port && now[k].dpdkQueue == q.queue
      && now[k].up == rings.up(q) != 0 && now[k].down == rings.down(q)
  {
    if k < |Kept(was)| {
      var i := KeptFrom(was, k);
      assert now[k] == Kept(was)[k];
    } else {
      var q := Ringed(lists, rings)[k - |Kept(was)|];
      assert ShowsQueue(now[k], k, q, rings);
      RingedIff(lists, rings, q);
    }
  }

  // ---------------------------------------------------------------- what follows

  /** Every port's id is its index. */
  predicate Numbered(ports: seq<Port>) {
    forall k :: 0 <= k < |ports| ==> ports[k].id == k
  }

  predicate TapsFirst(ports: seq<Port>) {
    forall i, j :: 0 <= i < j < |ports| && ports[j].kind != DpdkLcore ==> ports[i].kind != DpdkLcore
  }

  lemma {:induction false} KeptPrefix(ports: seq<Port>, n: nat)
    requires n <= |ports| && (forall k :: 0 <= k < n ==> ports[k].kind != DpdkLcore)
    requires forall k :: n <= k < |ports| ==> ports[k].kind == DpdkLcore
    ensures Kept(ports) == ports[..n]
  {
    if n > 0 {
      KeptPrefix(ports[1..], n - 1);
      assert ports[..n] == [ports[0]] + ports[1..][..n - 1];
    } else if ports != [] {
      KeptPrefix(ports[1..], 0);
    }
  }

  /** Where a kept port was. */
  lemma {:induction false} KeptFrom(ports: seq<Port>, k: nat) returns (i: nat)
    requires k < |Kept(ports)|
    ensures k <= i < |ports| && Kept(ports)[k] == ports[i] && ports[i].kind != DpdkLcore
    ensures i == k ==> forall j :: 0 <= j < k ==> ports[j].kind != DpdkLcore
  {
    if ports[0].kind == DpdkLcore {
      var j := KeptFrom(ports[1..], k);
      i := 1 + j;
    } else if k == 0 {
      i := 0;
    } else {
      var j := KeptFrom(ports[1..], k - 1);
      i := 1 + j;
    }
  }

  lemma {:induction false} TapPrefix(ports: seq<Port>) returns (n: nat)
    requires TapsFirst(ports)
    ensures n <= |ports| && forall k :: 0 <= k < |ports| ==> (ports[k].kind != DpdkLcore <==> k < n)
  {
    if ports == [] || ports[|ports| - 1].kind != DpdkLcore {
      n := |ports|;
    } else {
      n := TapPrefix(ports[..|ports| - 1]);
    }
  }

  /** Where a port that is kept goes. */
  lemma {:induction false} KeptTo(ports: seq<Port>, j: nat) returns (k: nat)
    requires j < |ports| && ports[j].kind != DpdkLcore
    ensures k < |Kept(ports)| && Kept(ports)[k] == ports[j]
  {
    if j == 0 {
      k := 0;
    } else {
      k := KeptTo(ports[1..], j - 1);
      if ports[0].kind != DpdkLcore {
        k := k + 1;
      }
    }
  }

  /**
   * Ids are indices after an update exactly when the ports that are kept came before all DPDK
   * ports: the compaction moves ports but does not number them anew.
   */
  lemma NumberedAfterIff(was: seq<Port>, now: seq<Port>, limit: nat, qs: seq<Polled>, rings: Rings)
    requires Numbered(was) && Updated(was, now, limit, qs, rings)
    ensures Numbered(now) <==> TapsFirst(was)
  {
    if TapsFirst(was) {
      var n := TapPrefix(was);
      KeptPrefix(was, n);
      forall k | 0 <= k < |now| ensures now[k].id == k {
        if k >= n {
          assert ShowsQueue(now[k], k, qs[k - n], rings);
        } else {
          assert now[k] == Kept(was)[k] == was[k];
        }
      }
    }
    if Numbered(now) {
      forall i, j | 0 <= i < j < |was| && was[j].kind != DpdkLcore ensures was[i].kind != DpdkLcore {
        var k := KeptTo(was, j);
        assert now[k].id == k;
        var x := KeptFrom(was, k);
      }
    }
  }

  /** The tap ports still come first, so ids stay indices over any number of updates. */
  lemma UpdateKeepsTapsFirst(was: seq<Port>, now: seq<Port>, limit: nat, qs: seq<Polled>, rings: Rings)
    requires Numbered(was) && TapsFirst(was) && Updated(was, now, limit, qs, rings)
    ensures Numbered(now) && TapsFirst(now)
  {
    NumberedAfterIff(was, now, limit, qs, rings);
    forall k | |Kept(was)| <= k < |now| ensures now[k].kind == DpdkLcore {
      assert ShowsQueue(now[k], k, qs[k - |Kept(was)|], rings);
    }
    forall k | 0 <= k < |Kept(was)| ensures now[k].kind != DpdkLcore {
      var x := KeptFrom(was, k);
      assert now[k] == Kept(was)[k];
    }
  }

  function Queues(qs: seq<Polled>): (r: seq<PortQueue>)
    ensures |r| == |qs| && forall k :: 0 <= k < |qs| ==> r[k] == qs[k].pq
  {
    seq(|qs|, k requires 0 <= k < |qs| => qs[k].pq)
  }

  lemma QueuesAppend(a: seq<Polled>, b: seq<Polled>)
    ensures Queues(a + b) == Queues(a) + Queues(b)
  {
  }

  lemma {:induction false} PolledAtMost(lcore: nat, list: seq<PortQueue>, rings: Rings, pq: PortQueue)
    ensures multiset(Queues(PolledBy(lcore, list, rings)))[pq] <= multiset(list)[pq]
  {
    if list != [] {
      var init, last := list[..|list| - 1], list[|list| - 1];
      PolledAtMost(lcore, init, rings, pq);
      QueuesAppend(PolledBy(lcore, init, rings), [Polled(lcore, last)]);
      assert Queues([Polled(lcore, last)]) == [last];
      assert list == init + [last];
      assert PolledBy(lcore, init, rings) + [] == PolledBy(lcore, init, rings);
    }
  }

  lemma {:induction false} RingedAtMost(lists: Lists, rings: Rings, pq: PortQueue)
    ensures multiset(Queues(Ringed(lists, rings)))[pq] <= multiset(Listed(lists))[pq]
  {
    if lists != [] {
      var init, n := lists[..|lists| - 1], |lists| - 1;
      RingedAtMost(init, rings, pq);
      PolledAtMost(n, lists[n], rings, pq);
      QueuesAppend(Ringed(init, rings), PolledBy(n, lists[n], rings));
    }
  }

  /** From an accepted queue table, no two ports of the switch lead to the same queue's rings. */
  lemma NoQueueTwice(was: seq<Port>, now: seq<Port>, limit: nat, lists: Lists, rings: Rings, i: nat, j: nat)
    requires Updated(was, now, limit, Ringed(lists, rings), rings) && Dense(Listed(lists))
    requires |Kept(was)| <= i < j < |now|
    ensures now[i].dpdkPort != now[j].dpdkPort || now[i].dpdkQueue != now[j].dpdkQueue
  {
    var n, qs := |Kept(was)|, Ringed(lists, rings);
    assert ShowsQueue(now[i], i, qs[i - n], rings) && ShowsQueue(now[j], j, qs[j - n], rings);
    forall pq ensures multiset(Queues(qs))[pq] <= 1 {
      RingedAtMost(lists, rings, pq);
      DenseHoldsOnce(Listed(lists), pq);
    }
    SingleIsDistinct(Queues(qs));
    assert Queues(qs)[i - n] != Queues(qs)[j - n];
  }

  // ---------------------------------------------------------------- the switch

  class VSwitch {
    const limit: nat
    var size: nat
    const port: array<Port>

    ghost predicate Valid()
      reads this
    {
      size <= limit == port.Length
    }

    constructor ()
      ensures Valid() && limit == 16 && size == 0 && fresh(port)
    {
      limit := VSWITCH_PORT_SIZE;
      size := 0;
      port := new Port[VSWITCH_PORT_SIZE](_ => ZeroPort);
    }

    /** Drop port i: the ports behind it move up, or the last one is cleared. */
    method Remove(i: nat)
      requires Valid() && i < size
      modifies this`size, port
      ensures Valid() && size == old(size) - 1 && port[..size] == old(port[..i] + port[i + 1..size])
    {
      if i + 1 < size {
        forall k | i <= k < size - 1 {
          port[k] := port[k + 1];
        }
      } else {
        port[i] := ZeroPort;
      }
      size := size - 1;
    }

    /** The backward loop that removes the DPDK ports. */
    method RemoveDpdkPorts()
      requires Valid()
      modifies this`size, port
      ensures Valid() && port[..size] == Kept(old(port[..size])) && size <= old(size)
    {
      ghost var was := port[..size];
      var i: nat := size;
      while i > 0
        invariant i <= size <= |was| && Valid()
        invariant port[..size] == was[..i] + Kept(was[i..])
      {
        i := i - 1;
        ghost var before := port[..size];
        CompactStep(was, before, i);
        if port[i].kind == DpdkLcore {
          Remove(i);
          assert port[..size] == before[..i] + before[i + 1..];
        }
      }
      assert was[0..] == was && was[..0] == [];
    }

    /** A port for one polled queue, if there is room. */
    method AppendOne(lcore: nat, pq: PortQueue, rings: Rings, ghost was: seq<Port>, ghost before: seq<Polled>)
      requires Valid() && Updated(was, port[..size], limit, before, rings)
      modifies this`size, port
      ensures Valid() && Updated(was, port[..size], limit, before + [Polled(lcore, pq)], rings)
    {
      if size < limit {
        port[size] := port[size].(id := size, kind := DpdkLcore, dpdkPort := pq.port, dpdkQueue := pq.queue,
                                  lcore := lcore, up := rings.up(pq), down := rings.down(pq));
        size := size + 1;
        assert port[..size][..size - 1] == old(port[..size]);
      }
      UpdatedSnoc(was, old(port[..size]), port[..size], limit, before, Polled(lcore, pq), rings);
    }

    /** The queues of one lcore: a port for each that has a ring. */
    method AppendQueues(lcore: nat, conf: Qconf, rings: Rings, ghost was: seq<Port>, ghost before: seq<Polled>)
      requires Valid() && Updated(was, port[..size], limit, before, rings)
      modifies this`size, port
      ensures Valid() && Updated(was, port[..size], limit, before + PolledBy(lcore, conf.Active(), rings), rings)
    {
      ghost var list, qs := conf.Active(), before;
      assert before + [] == before;
      for i := 0 to conf.nrxq
        invariant Valid() && qs == before + PolledBy(lcore, list[..i], rings)
        invariant Updated(was, port[..size], limit, qs, rings)
      {
        var pq := conf.slots[i];
        PolledSnoc(lcore, list, i, rings);
        if rings.up(pq) != 0 {
          AppendOne(lcore, pq, rings, was, qs);
          qs := qs + [Polled(lcore, pq)];
        }
      }
      assert list[..conf.nrxq] == list;
    }

    /** vswitch_port_update */
    method Update(table: QTable, rings: Rings)
      requires Valid()
      modifies this`size, port
      ensures Valid()
      ensures Updated(old(port[..size]), port[..size], limit, Ringed(ListsOf(table), rings), rings)
    {
      ghost var was, lists, qs := port[..size], ListsOf(table), [];
      RemoveDpdkPorts();
      for lcore := 0 to RTE_MAX_LCORE
        invariant Valid() && qs == Ringed(lists[..lcore], rings)
        invariant Updated(was, port[..size], limit, qs, rings)
      {
        RingedSnoc(lists, lcore, rings);
        AppendQueues(lcore, table[lcore], rings, was, qs);
        qs := qs + PolledBy(lcore, lists[lcore], rings);
      }
      assert lists[..RTE_MAX_LCORE] == lists;
    }
  }
}
