/** The operator's queue table and the command that moves one queue to an lcore. */
module QueueConfig {
  import opened QueueTypes
  import opened Sequences

  /** The list without pq, order kept. */
  function Without(s: seq<PortQueue>, pq: PortQueue): seq<PortQueue> {
    if s == [] then []
    else (if s[0] == pq then [] else [s[0]]) + Without(s[1..], pq)
  }

  /**
   * What the command's removal scan leaves: after a removal the index still advances, so the
   * element that slid into the hole is not looked at.
   */
  function RemoveScan(s: seq<PortQueue>, pq: PortQueue): (r: seq<PortQueue>)
    ensures |r| <= |s|
  {
    if s == [] then []
    else if s[0] != pq then [s[0]] + RemoveScan(s[1..], pq)
    else if |s| == 1 then []
    else [s[1]] + RemoveScan(s[2..], pq)
  }

  ghost predicate HasAdjacentPair(s: seq<PortQueue>, pq: PortQueue) {
    exists k :: 0 <= k && k + 1 < |s| && s[k] == pq && s[k + 1] == pq
  }

  /** The command's effect on the lists: remove elsewhere, append to the target if new and room. */
  function SetQueue(lists: Lists, lcore: nat, pq: PortQueue): Lists
    requires lcore < |lists|
  {
    seq(|lists|, i requires 0 <= i < |lists| =>
      if i != lcore then RemoveScan(lists[i], pq)
      else if pq in lists[i] || |lists[i]| >= MAX_RX_QUEUE_PER_LCORE then lists[i]
      else lists[i] + [pq])
  }

  /** Every (port, queue) occurs at most once in the whole table. */
  ghost predicate DuplicateFree(lists: Lists) {
    Exclusive(lists) && forall i :: 0 <= i < |lists| ==> Distinct(lists[i])
  }

  lemma {:induction false} WithoutMembers(s: seq<PortQueue>, pq: PortQueue)
    ensures forall x :: x in Without(s, pq) <==> x in s && x != pq
    ensures pq !in s ==> Without(s, pq) == s
    ensures Distinct(s) ==> Distinct(Without(s, pq))
  {
    if s != [] {
      WithoutMembers(s[1..], pq);
      assert s == [s[0]] + s[1..];
      if Distinct(s) {
        assert Distinct(s[1..]) by {
          forall a, b | 0 <= a < b < |s| - 1 ensures s[1..][a] != s[1..][b] {
            assert s[a + 1] != s[b + 1];
          }
        }
        assert s[0] !in s[1..];
      }
    }
  }

  lemma {:induction false} WithoutSnoc(s: seq<PortQueue>, pq: PortQueue)
    ensures Without(s + [pq], pq) == Without(s, pq)
  {
    if s != [] {
      assert (s + [pq])[1..] == s[1..] + [pq];
      WithoutSnoc(s[1..], pq);
    }
  }

  lemma AdjacentTail(s: seq<PortQueue>, pq: PortQueue)
    requires s != [] && !(|s| > 1 && s[0] == pq && s[1] == pq)
    ensures HasAdjacentPair(s, pq) <==> HasAdjacentPair(s[1..], pq)
  {
    if HasAdjacentPair(s, pq) {
      var k :| 0 <= k && k + 1 < |s| && s[k] == pq && s[k + 1] == pq;
      assert s[1..][k - 1] == pq && s[1..][k] == pq;
    }
    if HasAdjacentPair(s[1..], pq) {
      var k :| 0 <= k && k + 1 < |s| - 1 && s[1..][k] == pq && s[1..][k + 1] == pq;
      assert s[k + 1] == pq && s[k + 2] == pq;
    }
  }

  /** The scan leaves pq behind exactly when two occurrences stand side by side. */
  lemma {:induction false} RemoveScanLeavesPair(s: seq<PortQueue>, pq: PortQueue)
    ensures pq in RemoveScan(s, pq) <==> HasAdjacentPair(s, pq)
    ensures !HasAdjacentPair(s, pq) ==> RemoveScan(s, pq) == Without(s, pq)
  {
    if s == [] {
    } else if s[0] != pq {
      AdjacentTail(s, pq);
      RemoveScanLeavesPair(s[1..], pq);
    } else if |s| > 1 && s[1] != pq {
      AdjacentTail(s, pq);
      AdjacentTail(s[1..], pq);
      assert s[1..][1..] == s[2..];
      RemoveScanLeavesPair(s[2..], pq);
      assert s[1..][0] == s[1];
    } else if |s| > 1 {
      assert s[0] == pq && s[0 + 1] == pq;
    }
  }

  /** The removal scan removes every occurrence iff no two of them are adjacent. */
  lemma RemoveScanIsRemoval(s: seq<PortQueue>, pq: PortQueue)
    ensures RemoveScan(s, pq) == Without(s, pq) <==> !HasAdjacentPair(s, pq)
  {
    RemoveScanLeavesPair(s, pq);
    WithoutMembers(s, pq);
  }

  function Copies(pq: PortQueue, m: nat): seq<PortQueue> {
    if m == 0 then [] else [pq] + Copies(pq, m - 1)
  }

  /** The second of two occurrences slides into the hole of the first and is kept. */
  lemma PairLeavesOne(t: seq<PortQueue>, pq: PortQueue)
    ensures RemoveScan([pq, pq] + t, pq) == [pq] + RemoveScan(t, pq)
  {
    assert ([pq, pq] + t)[2..] == t;
  }

  lemma SingleLeavesNone(rest: seq<PortQueue>, pq: PortQueue)
    requires rest != [] ==> rest[0] != pq
    ensures RemoveScan([pq] + rest, pq) == RemoveScan(rest, pq)
  {
    assert rest != [] ==> ([pq] + rest)[2..] == rest[1..];
  }

  lemma CopiesOfTwoMore(m: nat, rest: seq<PortQueue>, pq: PortQueue)
    ensures Copies(pq, m + 2) + rest == [pq, pq] + (Copies(pq, m) + rest)
  {
    assert Copies(pq, m + 2) == [pq] + Copies(pq, m + 1);
    assert Copies(pq, m + 1) == [pq] + Copies(pq, m);
  }

  lemma {:induction false} RunLeavesHalf(half: nat, odd: nat, rest: seq<PortQueue>, pq: PortQueue)
    requires odd <= 1 && (rest != [] ==> rest[0] != pq)
    ensures RemoveScan(Copies(pq, 2 * half + odd) + rest, pq) == Copies(pq, half) + RemoveScan(rest, pq)
  {
    if half > 0 {
      var m := 2 * (half - 1) + odd;
      RunLeavesHalf(half - 1, odd, rest, pq);
      CopiesOfTwoMore(m, rest, pq);
      PairLeavesOne(Copies(pq, m) + rest, pq);
    } else if odd == 1 {
      assert Copies(pq, 1) == [pq];
      SingleLeavesNone(rest, pq);
    } else {
      assert Copies(pq, 0) + rest == rest;
    }
  }

  /** Of m occurrences in a row the scan leaves m / 2; what stands before and behind is scanned for itself. */
  lemma {:induction false} RemoveScanLeavesHalf(before: seq<PortQueue>, m: nat, rest: seq<PortQueue>, pq: PortQueue)
    requires pq !in before && (rest != [] ==> rest[0] != pq)
    ensures RemoveScan(before + (Copies(pq, m) + rest), pq) == before + (Copies(pq, m / 2) + RemoveScan(rest, pq))
  {
    var run := Copies(pq, m) + rest;
    if before == [] {
      RunLeavesHalf(m / 2, m % 2, rest, pq);
      assert before + run == run;
    } else {
      RemoveScanLeavesHalf(before[1..], m, rest, pq);
      assert (before + run)[1..] == before[1..] + run;
    }
  }

  lemma RemoveScanOfDistinct(s: seq<PortQueue>, pq: PortQueue)
    requires Distinct(s)
    ensures RemoveScan(s, pq) == Without(s, pq)
  {
    RemoveScanIsRemoval(s, pq);
  }

  lemma OtherRow(row: seq<PortQueue>, pq: PortQueue)
    requires Distinct(row)
    ensures var r := RemoveScan(row, pq);
      && Distinct(r) && Without(r, pq) == Without(row, pq) && pq !in r
      && forall x :: x in r ==> x in row
  {
    WithoutMembers(row, pq);
    RemoveScanOfDistinct(row, pq);
    WithoutMembers(Without(row, pq), pq);
  }

  lemma TargetRow(row: seq<PortQueue>, pq: PortQueue)
    requires Distinct(row) && pq !in row
    ensures Distinct(row + [pq]) && Without(row + [pq], pq) == Without(row, pq)
  {
    WithoutSnoc(row, pq);
  }

  lemma SetQueueRow(lists: Lists, lcore: nat, pq: PortQueue, i: nat)
    requires lcore < |lists| && i < |lists| && Distinct(lists[i])
    ensures var row := SetQueue(lists, lcore, pq)[i];
      && Distinct(row)
      && Without(row, pq) == Without(lists[i], pq)
      && (forall x :: x in row ==> x in lists[i] || (x == pq && i == lcore))
      && (pq in row <==> i == lcore && (pq in lists[i] || |lists[i]| < MAX_RX_QUEUE_PER_LCORE))
  {
    if i != lcore {
      OtherRow(lists[i], pq);
    } else if pq !in lists[i] {
      TargetRow(lists[i], pq);
    }
  }

  /**
   * From a duplicate-free table: the table stays duplicate-free, the named queue ends on the
   * target lcore unless that lcore was full without it (then nobody has it), and every other
   * queue keeps its lcore and its place in the order.
   */
  lemma SetQueueMovesOneQueue(lists: Lists, lcore: nat, pq: PortQueue)
    requires lcore < |lists| && DuplicateFree(lists)
    ensures var r := SetQueue(lists, lcore, pq);
      && |r| == |lists|
      && DuplicateFree(r)
      && (forall i :: 0 <= i < |r| ==> Without(r[i], pq) == Without(lists[i], pq))
      && (forall i :: 0 <= i < |r| && i != lcore ==> pq !in r[i])
      && (pq in r[lcore] <==> pq in lists[lcore] || |lists[lcore]| < 16)
  {
    var r := SetQueue(lists, lcore, pq);
    forall i | 0 <= i < |r|
      ensures Distinct(r[i]) && Without(r[i], pq) == Without(lists[i], pq)
      ensures forall x :: x in r[i] ==> x in lists[i] || (x == pq && i == lcore)
      ensures pq in r[i] <==> i == lcore && (pq in lists[i] || |lists[i]| < MAX_RX_QUEUE_PER_LCORE)
    {
      SetQueueRow(lists, lcore, pq, i);
    }
    assert Exclusive(r);
  }

  /** Where the queue ends: last in the target list, unless it is there already or sixteen others are. */
  lemma TargetListIs(lists: Lists, lcore: nat, pq: PortQueue)
    requires lcore < |lists|
    ensures var r := SetQueue(lists, lcore, pq);
      && (pq in lists[lcore] || |lists[lcore]| >= 16 ==> r[lcore] == lists[lcore])
      && (pq !in lists[lcore] && |lists[lcore]| < 16 ==> r[lcore] == lists[lcore] + [pq])
      && forall i :: 0 <= i < |lists| && i != lcore && pq !in lists[i] ==> r[i] == lists[i]
  {
    forall i | 0 <= i < |lists| && i != lcore && pq !in lists[i]
      ensures SetQueue(lists, lcore, pq)[i] == lists[i]
    {
      RemoveScanIsRemoval(lists[i], pq);
      WithoutMembers(lists[i], pq);
    }
  }

  /** The list as the scan leaves it when it has reached index j. */
  function ScanFrom(s: seq<PortQueue>, j: nat, pq: PortQueue): seq<PortQueue> {
    if j < |s| then s[..j] + RemoveScan(s[j..], pq) else s
  }

  lemma ScanFromStep(s: seq<PortQueue>, j: nat, pq: PortQueue)
    requires j < |s|
    ensures s[j] != pq ==> ScanFrom(s, j + 1, pq) == ScanFrom(s, j, pq)
    ensures s[j] == pq ==> ScanFrom(s[..j] + s[j + 1..], j + 1, pq) == ScanFrom(s, j, pq)
  {
    var t := s[j..];
    if s[j] != pq {
      assert t[1..] == s[j + 1..];
      assert s[..j + 1] == s[..j] + [s[j]];
    } else if j + 1 < |s| {
      var shifted := s[..j] + s[j + 1..];
      assert t[2..] == shifted[j + 1..];
      assert shifted[..j + 1] == s[..j] + [t[1]];
    }
  }

  /** memmove of the slots behind j down by one, and one queue fewer. */
  function ShiftDown(q: Qconf, j: nat): (r: Qconf)
    requires j < q.nrxq
    ensures r.Active() == q.Active()[..j] + q.Active()[j + 1..]
  {
    QconfRecord(q.nrxq - 1, q.slots[..j] + q.slots[j + 1..q.nrxq] + q.slots[q.nrxq - 1..])
  }

  /** thread_qconf */
  class ThreadQconf {
    var table: QTable

    ghost function View(): Lists
      reads this
    {
      ListsOf(table)
    }

    constructor ()
      ensures DuplicateFree(View())
    {
      table := EmptyTable();
    }

    /** The removal scan on one lcore's record, shifting the later slots down. */
    static method RemoveFrom(q: Qconf, pq: PortQueue) returns (r: Qconf)
      ensures r.Active() == RemoveScan(q.Active(), pq)
    {
      r := q;
      var j := 0;
      assert q.Active()[0..] == q.Active();
      while j < r.nrxq
        invariant j <= r.nrxq + 1
        invariant ScanFrom(r.Active(), j, pq) == RemoveScan(q.Active(), pq)
        decreases 2 * r.nrxq - j
      {
        ScanFromStep(r.Active(), j, pq);
        if r.slots[j] == pq {
          r := ShiftDown(r, j);
        }
        j := j + 1;
      }
    }

    /** The table update of the command "set thread <lcore> port <port> queue <queue>". */
    method SetThreadLcorePortQueue(lcore: nat, pq: PortQueue)
      requires lcore < RTE_MAX_LCORE
      modifies this
      ensures View() == SetQueue(old(View()), lcore, pq)
    {
      ghost var was := table;
      for i := 0 to RTE_MAX_LCORE
        invariant forall k :: i <= k < RTE_MAX_LCORE ==> table[k] == was[k]
        invariant forall k :: 0 <= k < i && k != lcore ==> table[k].Active() == RemoveScan(was[k].Active(), pq)
        invariant table[lcore] == was[lcore]
      {
        if i != lcore {
          var r := RemoveFrom(table[i], pq);
          table := table[i := r];
        }
      }

      var conf := table[lcore];
      var match_ := false;
      for j := 0 to conf.nrxq
        invariant match_ <==> pq in conf.slots[..j]
      {
        assert conf.slots[..j + 1] == conf.slots[..j] + [conf.slots[j]];
        if conf.slots[j] == pq {
          match_ := true;
        }
      }
      if !match_ && conf.nrxq < MAX_RX_QUEUE_PER_LCORE {
        var r := QconfRecord(conf.nrxq + 1, conf.slots[conf.nrxq := pq]);
        assert r.Active() == conf.Active() + [pq];
        table := table[lcore := r];
      }
    }

    /** Any run of the command, from the empty table on, keeps the table duplicate-free. */
    method Run(commands: seq<(nat, PortQueue)>)
      requires forall k :: 0 <= k < |commands| ==> commands[k].0 < RTE_MAX_LCORE
      requires DuplicateFree(View())
      modifies this
      ensures DuplicateFree(View())
    {
      for k := 0 to |commands|
        invariant DuplicateFree(View())
      {
        SetQueueMovesOneQueue(View(), commands[k].0, commands[k].1);
        SetThreadLcorePortQueue(commands[k].0, commands[k].1);
      }
    }
  }
}
