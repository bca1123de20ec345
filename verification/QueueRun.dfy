/** Runs of the operator's command on a table that need not be in step with the rib. */
module QueueRun {
  import opened Option
  import opened QueueTypes
  import opened Sequences
  import QueueConfig
  import opened RibManager
  import opened QueueMove

  // ---------------------------------------------------------------- which tables are accepted

  /** What rib_check sees of a rib and a table: a row the table leaves empty keeps the rib's queues. */
  function Seen(rib: Lists, table: Lists, lcoreCount: nat): (r: Lists)
    requires lcoreCount <= |rib| && lcoreCount <= |table|
    ensures |r| == lcoreCount
    ensures forall i :: 0 <= i < lcoreCount ==> r[i] == if table[i] != [] then table[i] else rib[i]
  {
    seq(lcoreCount, i requires 0 <= i < lcoreCount => if table[i] != [] then table[i] else rib[i])
  }

  lemma SeenIsMerged(rib: Option<Info>, table: QTable, lcoreCount: nat)
    requires lcoreCount <= RTE_MAX_LCORE
    ensures ListsOf(Merge(Create(rib).qconf, table, lcoreCount)[..lcoreCount])
         == Seen(QueueLists(rib), ListsOf(table), lcoreCount)
  {
    var merged := ListsOf(Merge(Create(rib).qconf, table, lcoreCount)[..lcoreCount]);
    var seen := Seen(QueueLists(rib), ListsOf(table), lcoreCount);
    forall i | 0 <= i < lcoreCount ensures merged[i] == seen[i] {
      MergedRow(rib, table, lcoreCount, i);
    }
  }

  /** No lcore the table leaves empty keeps a queue that the table gives to another. */
  ghost predicate NoneKept(rib: Lists, table: Lists, lcoreCount: nat)
    requires lcoreCount <= |rib| && lcoreCount <= |table|
  {
    forall a, b, q :: 0 <= a < lcoreCount && 0 <= b < lcoreCount && table[a] == [] && q in rib[a] ==> q !in table[b]
  }

  /** With a queue, all lower ones of its port. */
  ghost predicate NoGap(entries: seq<PortQueue>) {
    forall q: PortQueue, r: uint16 :: q in entries && r < q.queue ==> PortQueue(q.port, r) in entries
  }

  /** The first id from q on that a port does not have. */
  function FirstMissing(entries: seq<PortQueue>, p: uint16, q: nat): (n: nat)
    requires q <= 0x1_0000
    ensures q <= n <= 0x1_0000 && (n < 0x1_0000 ==> PortQueue(p, n) !in entries)
    ensures forall r: uint16 :: q <= r < n ==> PortQueue(p, r) in entries
    decreases 0x1_0000 - q
  {
    if q == 0x1_0000 || PortQueue(p, q) !in entries then q else FirstMissing(entries, p, q + 1)
  }

  /** Dense means: nothing twice, and no gap. */
  lemma DenseIffOnceWithoutGap(entries: seq<PortQueue>)
    ensures Dense(entries) <==> (forall q :: multiset(entries)[q] <= 1) && NoGap(entries)
  {
    if Dense(entries) {
      forall q ensures multiset(entries)[q] <= 1 {
        DenseHoldsOnce(entries, q);
      }
      forall q: PortQueue, r: uint16 | q in entries && r < q.queue ensures PortQueue(q.port, r) in entries {
        assert PortDense(entries, q.port);
        var n: nat :| PortHasExactly(entries, q.port, n);
        assert multiset(entries)[PortQueue(q.port, q.queue)] >= 1;
        assert multiset(entries)[PortQueue(q.port, r)] == 1;
      }
    }
    if (forall q :: multiset(entries)[q] <= 1) && NoGap(entries) {
      forall p: uint16 ensures PortDense(entries, p) {
        OnceIsPortDense(entries, p);
      }
    }
  }

  lemma NoneAboveMissing(entries: seq<PortQueue>, p: uint16, n: uint16, r: uint16)
    requires NoGap(entries) && PortQueue(p, n) !in entries && n <= r
    ensures PortQueue(p, r) !in entries
  {
    assert n < r ==> PortQueue(p, r).queue == r && PortQueue(p, r).port == p;
  }

  lemma OnceIsPortDense(entries: seq<PortQueue>, p: uint16)
    requires (forall q :: multiset(entries)[q] <= 1) && NoGap(entries)
    ensures PortDense(entries, p)
  {
    var n := FirstMissing(entries, p, 0);
    forall r: uint16 ensures multiset(entries)[PortQueue(p, r)] == if r < n then 1 else 0 {
      if r < n {
        assert PortQueue(p, r) in entries;
      } else {
        NoneAboveMissing(entries, p, n, r);
      }
    }
    assert PortHasExactly(entries, p, n);
  }

  /** Rows without repetition that share nothing list everything once. */
  lemma {:induction false} OnceInAll(lists: Lists, q: PortQueue)
    requires QueueConfig.DuplicateFree(lists)
    ensures multiset(Listed(lists))[q] <= 1
    ensures multiset(Listed(lists))[q] == 1 ==> exists l :: 0 <= l < |lists| && q in lists[l]
  {
    if lists != [] {
      var n := |lists| - 1;
      var init := lists[..n];
      assert QueueConfig.DuplicateFree(init) by {
        assert forall i :: 0 <= i < n ==> init[i] == lists[i];
      }
      OnceInAll(init, q);
      assert Distinct(lists[n]);
      DistinctIsSingle(lists[n]);
      if q in lists[n] {
        assert forall l :: 0 <= l < n ==> q !in init[l];
      }
      if multiset(Listed(init))[q] == 1 {
        var l :| 0 <= l < n && q in init[l];
        assert q in lists[l];
      }
    }
  }

  lemma SeenIsDuplicateFree(rib: Lists, table: Lists, lcoreCount: nat)
    requires lcoreCount <= |rib| && lcoreCount <= |table|
    requires QueueConfig.DuplicateFree(rib) && QueueConfig.DuplicateFree(table) && NoneKept(rib, table, lcoreCount)
    ensures QueueConfig.DuplicateFree(Seen(rib, table, lcoreCount))
  {
    var seen := Seen(rib, table, lcoreCount);
    forall a, b, q | 0 <= a < lcoreCount && 0 <= b < lcoreCount && a != b && q in seen[a] ensures q !in seen[b] {
      assert q in rib[a] ==> q !in rib[b];
      assert q in table[a] ==> q !in table[b];
      if table[a] == [] && table[b] != [] {
        assert q !in table[b];
      } else if table[a] != [] && table[b] == [] {
        assert q in table[a];
      }
    }
  }

  lemma KeptIsListedTwice(rib: Lists, table: Lists, lcoreCount: nat)
    requires lcoreCount <= |rib| && lcoreCount <= |table| && !NoneKept(rib, table, lcoreCount)
    ensures !Dense(Listed(Seen(rib, table, lcoreCount)))
  {
    var a, b, q :| 0 <= a < lcoreCount && 0 <= b < lcoreCount && table[a] == [] && q in rib[a] && q in table[b];
    TwiceIsNotDense(Seen(rib, table, lcoreCount), a, b, q);
  }

  /**
   * Which tables are accepted, in step with the rib or not: those that give away no queue kept by
   * an lcore they leave empty, and with which the ports have no gap.
   */
  lemma MessageIsAcceptedIff(rib: Option<Info>, table: QTable, lcoreCount: nat)
    requires lcoreCount <= RTE_MAX_LCORE && Sound(rib, lcoreCount) && QueueConfig.DuplicateFree(ListsOf(table))
    ensures Apply(rib, Qconf(table), lcoreCount).Some?
       <==> && NoneKept(QueueLists(rib), ListsOf(table), lcoreCount)
            && NoGap(Listed(Seen(QueueLists(rib), ListsOf(table), lcoreCount)))
  {
    var seen := Seen(QueueLists(rib), ListsOf(table), lcoreCount);
    SeenIsMerged(rib, table, lcoreCount);
    DenseIffOnceWithoutGap(Listed(seen));
    if NoneKept(QueueLists(rib), ListsOf(table), lcoreCount) {
      SoundIsDuplicateFree(rib, lcoreCount);
      SeenIsDuplicateFree(QueueLists(rib), ListsOf(table), lcoreCount);
      forall q ensures multiset(Listed(seen))[q] <= 1 {
        OnceInAll(seen, q);
      }
    } else {
      KeptIsListedTwice(QueueLists(rib), ListsOf(table), lcoreCount);
    }
  }

  lemma SoundIsDuplicateFree(rib: Option<Info>, lcoreCount: nat)
    requires lcoreCount <= RTE_MAX_LCORE && Sound(rib, lcoreCount)
    ensures QueueConfig.DuplicateFree(QueueLists(rib))
  {
    SoundIsExclusive(rib, lcoreCount);
    var lists := QueueLists(rib);
    DenseIsDuplicateFree(lists[..lcoreCount]);
    forall i | 0 <= i < |lists| ensures Distinct(lists[i]) {
      if i < lcoreCount {
        assert lists[i] == lists[..lcoreCount][i];
      }
    }
  }

  // ---------------------------------------------------------------- a command that stays rejected

  /** Lcore a has no queue in the table, but keeps q in the rib, and the table gives q to another. */
  ghost predicate Blocked(rib: Lists, table: Lists, lcoreCount: nat, a: nat, q: PortQueue)
    requires lcoreCount <= |rib| && lcoreCount <= |table|
  {
    && a < lcoreCount && q in rib[a] && table[a] == []
    && exists b :: 0 <= b < lcoreCount && b != a && q in table[b]
  }

  lemma BlockedIsRejected(rib: Option<Info>, table: QTable, lcoreCount: nat, a: nat, q: PortQueue)
    requires lcoreCount <= RTE_MAX_LCORE && Blocked(QueueLists(rib), ListsOf(table), lcoreCount, a, q)
    ensures Apply(rib, Qconf(table), lcoreCount).None?
  {
    var b :| 0 <= b < lcoreCount && b != a && q in ListsOf(table)[b];
    assert table[a].nrxq == |table[a].Active()|;
    MovingLastQueueIsRejected(rib, table, lcoreCount, a, b, q);
  }

  /** The command gives a a queue, or takes q to where the message does not show it. */
  predicate Unblocks(table: Lists, lcoreCount: nat, a: nat, q: PortQueue, to: nat, pq: PortQueue)
    requires to < |table|
  {
    to == a || (pq == q && (to >= lcoreCount || (q !in table[to] && |table[to]| >= MAX_RX_QUEUE_PER_LCORE)))
  }

  /** Exactly the other commands leave the block in place. */
  lemma StaysBlockedIff(rib: Lists, table: Lists, lcoreCount: nat, a: nat, q: PortQueue, to: nat, pq: PortQueue)
    requires lcoreCount <= |rib| && lcoreCount <= |table| && QueueConfig.DuplicateFree(table) && to < |table|
    requires Blocked(rib, table, lcoreCount, a, q)
    ensures Blocked(rib, QueueConfig.SetQueue(table, to, pq), lcoreCount, a, q)
       <==> !Unblocks(table, lcoreCount, a, q, to, pq)
  {
    var after := QueueConfig.SetQueue(table, to, pq);
    QueueConfig.SetQueueMovesOneQueue(table, to, pq);
    var b :| 0 <= b < lcoreCount && b != a && q in table[b];
    if to != a && pq == q {
      assert forall l :: 0 <= l < |table| && l != to ==> q !in after[l];
    } else if to != a {
      OthersStay(table, to, pq, b, q);
    }
  }

  lemma OthersStay(table: Lists, to: nat, pq: PortQueue, b: nat, q: PortQueue)
    requires QueueConfig.DuplicateFree(table) && to < |table| && b < |table| && q in table[b] && q != pq
    ensures q in QueueConfig.SetQueue(table, to, pq)[b]
  {
    QueueConfig.RemoveScanOfDistinct(table[b], pq);
    QueueConfig.WithoutMembers(table[b], pq);
  }

  datatype Command = Command(to: nat, pq: PortQueue)

  /** The tables and ribs along a run of commands: each changes the table and sends it. */
  ghost predicate IsRun(cmds: seq<Command>, tables: seq<QTable>, ribs: seq<Option<Info>>, lcoreCount: nat)
    requires lcoreCount <= RTE_MAX_LCORE
  {
    && |tables| == |ribs| == |cmds| + 1
    && forall k :: 0 <= k < |cmds| ==> IsStep(cmds[k], tables[k], tables[k + 1], ribs[k], ribs[k + 1], lcoreCount)
  }

  ghost predicate IsStep(cmd: Command, table: QTable, table': QTable, rib: Option<Info>, rib': Option<Info>,
                         lcoreCount: nat)
    requires lcoreCount <= RTE_MAX_LCORE
  {
    && cmd.to < RTE_MAX_LCORE && ListsOf(table') == QueueConfig.SetQueue(ListsOf(table), cmd.to, cmd.pq)
    && rib' == RibAfter(rib, table', lcoreCount)
  }

  /** Once blocked, every command is rejected until one unblocks, whatever else the commands do. */
  lemma {:induction false} StaysRejected(cmds: seq<Command>, tables: seq<QTable>, ribs: seq<Option<Info>>,
                                         lcoreCount: nat,
                                         a: nat, q: PortQueue, n: nat)
    requires lcoreCount <= RTE_MAX_LCORE && IsRun(cmds, tables, ribs, lcoreCount) && n <= |cmds|
    requires QueueConfig.DuplicateFree(ListsOf(tables[0]))
    requires Blocked(QueueLists(ribs[0]), ListsOf(tables[0]), lcoreCount, a, q)
    requires forall k :: 0 <= k < n ==>
      cmds[k].to < RTE_MAX_LCORE && !Unblocks(ListsOf(tables[k]), lcoreCount, a, q, cmds[k].to, cmds[k].pq)
    ensures ribs[n] == ribs[0] && QueueConfig.DuplicateFree(ListsOf(tables[n]))
    ensures Blocked(QueueLists(ribs[n]), ListsOf(tables[n]), lcoreCount, a, q)
    ensures forall k :: 0 <= k < n ==> Apply(ribs[k], Qconf(tables[k + 1]), lcoreCount).None?
  {
    if n > 0 {
      StaysRejected(cmds, tables, ribs, lcoreCount, a, q, n - 1);
      var cmd := cmds[n - 1];
      assert IsStep(cmd, tables[n - 1], tables[n], ribs[n - 1], ribs[n], lcoreCount);
      StaysBlockedIff(QueueLists(ribs[n - 1]), ListsOf(tables[n - 1]), lcoreCount, a, q, cmd.to, cmd.pq);
      QueueConfig.SetQueueMovesOneQueue(ListsOf(tables[n - 1]), cmd.to, cmd.pq);
      BlockedIsRejected(ribs[n - 1], tables[n], lcoreCount, a, q);
    }
  }

  /** The rejected move of a's only queue to an lcore with room is such a block. */
  lemma RejectedMoveBlocks(rib: Option<Info>, before: QTable, after: QTable, lcoreCount: nat, a: nat, b: nat,
                           q: PortQueue)
    requires lcoreCount <= RTE_MAX_LCORE && Sound(rib, lcoreCount) && InStep(rib, before)
    requires a < lcoreCount && b < lcoreCount && a != b && QueueLists(rib)[a] == [q]
    requires |QueueLists(rib)[b]| < MAX_RX_QUEUE_PER_LCORE
    requires ListsOf(after) == QueueConfig.SetQueue(ListsOf(before), b, q)
    ensures Blocked(QueueLists(rib), ListsOf(after), lcoreCount, a, q)
    ensures QueueConfig.DuplicateFree(ListsOf(after))
  {
    SoundIsDuplicateFree(rib, lcoreCount);
    QueueConfig.SetQueueMovesOneQueue(ListsOf(before), b, q);
    assert q in ListsOf(after)[b];
  }

  /** Moving q back repairs it: the table is what it was before, in step with the rib, and accepted. */
  lemma MovingBackRepairs(rib: Option<Info>, before: QTable, after: QTable, back: QTable, lcoreCount: nat,
                          a: nat, b: nat, q: PortQueue)
    requires lcoreCount <= RTE_MAX_LCORE && Sound(rib, lcoreCount) && InStep(rib, before)
    requires a < lcoreCount && b < lcoreCount && a != b && QueueLists(rib)[a] == [q]
    requires ListsOf(after) == QueueConfig.SetQueue(ListsOf(before), b, q)
    requires ListsOf(back) == QueueConfig.SetQueue(ListsOf(after), a, q)
    ensures InStep(rib, back) && Apply(rib, Qconf(back), lcoreCount).Some?
  {
    SoundIsDuplicateFree(rib, lcoreCount);
    MovedAndBack(ListsOf(before), a, b, q);
    InStepIsAccepted(rib, back, lcoreCount);
  }

  lemma MovedAndBack(lists: Lists, a: nat, b: nat, q: PortQueue)
    requires QueueConfig.DuplicateFree(lists) && a < |lists| && b < |lists| && a != b && lists[a] == [q]
    ensures QueueConfig.SetQueue(QueueConfig.SetQueue(lists, b, q), a, q) == lists
  {
    forall i | 0 <= i < |lists|
      ensures QueueConfig.SetQueue(QueueConfig.SetQueue(lists, b, q), a, q)[i] == lists[i]
    {
      BackRow(lists, a, b, q, i);
    }
  }

  lemma BackRow(lists: Lists, a: nat, b: nat, q: PortQueue, i: nat)
    requires QueueConfig.DuplicateFree(lists) && a < |lists| && b < |lists| && a != b && lists[a] == [q] && i < |lists|
    ensures QueueConfig.SetQueue(QueueConfig.SetQueue(lists, b, q), a, q)[i] == lists[i]
  {
    var there := QueueConfig.SetQueue(lists, b, q);
    QueueConfig.SetQueueMovesOneQueue(lists, b, q);
    assert q in lists[a];
    QueueConfig.RemoveScanOfDistinct(there[i], q);
    if i != a {
      assert q !in lists[i];
      QueueConfig.WithoutMembers(lists[i], q);
    }
    assert QueueConfig.RemoveScan([q], q) == [];
  }
}
