/** The command and the rib manager together: when does moving a queue between lcores succeed? */
module QueueMove {
  import opened Option
  import opened QueueTypes
  import Sequences
  import QueueConfig
  import RibCheck
  import opened RibManager

  /** Replacing one row changes the count of x by the difference of the rows' counts. */
  lemma {:induction false} ListedUpdate(lists: Lists, i: nat, row: seq<PortQueue>, x: PortQueue)
    requires i < |lists|
    ensures multiset(Listed(lists[i := row]))[x] + multiset(lists[i])[x]
      == multiset(Listed(lists))[x] + multiset(row)[x]
  {
    var n := |lists| - 1;
    var init, last := lists[..n], lists[n];
    ListedSnoc(init, last);
    assert lists == init + [last];
    if i == n {
      ListedSnoc(init, row);
      assert lists[i := row] == init + [row];
    } else {
      ListedUpdate(init, i, row, x);
      assert init[i] == lists[i];
      ListedSnoc(init[i := row], last);
      assert lists[i := row] == init[i := row] + [last];
    }
  }

  lemma {:induction false} WithoutCounts(s: seq<PortQueue>, pq: PortQueue)
    requires Sequences.Distinct(s) && pq in s
    ensures multiset(QueueConfig.Without(s, pq)) + multiset{pq} == multiset(s)
    ensures |QueueConfig.Without(s, pq)| == |s| - 1
  {
    var tail := s[1..];
    assert s == [s[0]] + tail;
    assert Sequences.Distinct(tail) by {
      forall a, b | 0 <= a < b < |tail| ensures tail[a] != tail[b] {
        assert s[a + 1] != s[b + 1];
      }
    }
    if s[0] == pq {
      assert pq !in tail;
      QueueConfig.WithoutMembers(tail, pq);
    } else {
      WithoutCounts(tail, pq);
    }
  }

  /** The operator's table shows exactly what the rib hands out. */
  ghost predicate InStep(rib: Option<Info>, table: QTable) {
    ListsOf(table) == QueueLists(rib)
  }

  lemma {:induction false} RowCounts(lists: Lists, i: nat, x: PortQueue)
    requires i < |lists|
    ensures multiset(lists[i])[x] <= multiset(Listed(lists))[x]
  {
    var n := |lists| - 1;
    if i < n {
      RowCounts(lists[..n], i, x);
    }
  }

  lemma RepeatCounts(s: seq<PortQueue>, a: nat, b: nat)
    requires a < b < |s| && s[a] == s[b]
    ensures multiset(s)[s[a]] >= 2
  {
    assert s == s[..b] + s[b..];
    assert s[a] in s[..b] && s[a] in s[b..];
  }

  lemma DenseIsDuplicateFree(lists: Lists)
    requires Dense(Listed(lists))
    ensures QueueConfig.DuplicateFree(lists)
  {
    DenseIsExclusive(lists);
    forall i, a, b | 0 <= i < |lists| && 0 <= a < b < |lists[i]| ensures lists[i][a] != lists[i][b] {
      if lists[i][a] == lists[i][b] {
        DenseHoldsOnce(Listed(lists), lists[i][a]);
        RowCounts(lists, i, lists[i][a]);
        RepeatCounts(lists[i], a, b);
      }
    }
  }

  /** One list with pq taken out, another with pq appended: still the same queues, so still dense. */
  lemma MoveKeepsDense(lists: Lists, from: nat, to: nat, pq: PortQueue)
    requires Dense(Listed(lists)) && from < |lists| && to < |lists| && from != to && pq in lists[from]
    ensures Dense(Listed(lists[from := QueueConfig.Without(lists[from], pq)][to := lists[to] + [pq]]))
  {
    DenseIsDuplicateFree(lists);
    var rest := QueueConfig.Without(lists[from], pq);
    WithoutCounts(lists[from], pq);
    var moved := lists[from := rest][to := lists[to] + [pq]];
    forall x ensures multiset(Listed(moved))[x] == multiset(Listed(lists))[x] {
      ListedUpdate(lists, from, rest, x);
      ListedUpdate(lists[from := rest], to, lists[to] + [pq], x);
      assert multiset(lists[from])[x] == multiset(rest)[x] + multiset{pq}[x];
      assert multiset(lists[to] + [pq])[x] == multiset(lists[to])[x] + multiset{pq}[x];
    }
    RibCheck.DenseOfPermutation(Listed(lists), Listed(moved));
  }

  /** The rows of the merged table that rib_check sees. */
  lemma MergedRow(rib: Option<Info>, after: QTable, lcoreCount: nat, i: nat)
    requires i < lcoreCount <= RTE_MAX_LCORE
    ensures ListsOf(Merge(Create(rib).qconf, after, lcoreCount)[..lcoreCount])[i]
         == if after[i].nrxq != 0 then after[i].Active() else QueueLists(rib)[i]
  {
  }

  /** The command's effect on each row of a table in step with a sound rib. */
  lemma CommandRow(rib: Option<Info>, before: QTable, after: QTable, lcoreCount: nat, from: nat, to: nat,
                   pq: PortQueue, i: nat)
    requires lcoreCount <= RTE_MAX_LCORE && Sound(rib, lcoreCount) && InStep(rib, before)
    requires from < lcoreCount && to < lcoreCount && from != to && i < lcoreCount
    requires pq in QueueLists(rib)[from] && |QueueLists(rib)[to]| < MAX_RX_QUEUE_PER_LCORE
    requires ListsOf(after) == QueueConfig.SetQueue(ListsOf(before), to, pq)
    ensures after[i].Active() == if i == from then QueueConfig.Without(QueueLists(rib)[from], pq)
                                 else if i == to then QueueLists(rib)[to] + [pq]
                                 else QueueLists(rib)[i]
  {
    var lists := QueueLists(rib)[..lcoreCount];
    DenseIsDuplicateFree(lists);
    assert lists[i] == QueueLists(rib)[i] == ListsOf(before)[i] && lists[from] == QueueLists(rib)[from];
    assert after[i].Active() == QueueConfig.SetQueue(ListsOf(before), to, pq)[i];
    QueueConfig.RemoveScanOfDistinct(lists[i], pq);
    if i != from {
      assert pq in lists[from] && pq !in lists[i];
      QueueConfig.WithoutMembers(lists[i], pq);
    }
  }

  lemma MoveIsAccepted(rib: Option<Info>, before: QTable, after: QTable, lcoreCount: nat, from: nat, to: nat,
                       pq: PortQueue)
    requires lcoreCount <= RTE_MAX_LCORE && Sound(rib, lcoreCount) && InStep(rib, before)
    requires from < lcoreCount && to < lcoreCount && from != to
    requires pq in QueueLists(rib)[from] && |QueueLists(rib)[to]| < MAX_RX_QUEUE_PER_LCORE
    requires ListsOf(after) == QueueConfig.SetQueue(ListsOf(before), to, pq)
    requires |QueueConfig.Without(QueueLists(rib)[from], pq)| > 0
    ensures Acceptable(Merge(Create(rib).qconf, after, lcoreCount), lcoreCount)
  {
    var lists := QueueLists(rib)[..lcoreCount];
    assert lists[from] == QueueLists(rib)[from] && lists[to] == QueueLists(rib)[to];
    MoveKeepsDense(lists, from, to, pq);
    var merged := ListsOf(Merge(Create(rib).qconf, after, lcoreCount)[..lcoreCount]);
    var moved := lists[from := QueueConfig.Without(lists[from], pq)][to := lists[to] + [pq]];
    forall i | 0 <= i < lcoreCount ensures merged[i] == moved[i] {
      MergedRow(rib, after, lcoreCount, i);
      CommandRow(rib, before, after, lcoreCount, from, to, pq, i);
      assert lists[i] == QueueLists(rib)[i];
    }
    assert merged == moved;
  }

  /**
   * With the operator's table in step with a sound rib, the command that moves a queue from one
   * lcore to another with room leads to an accepted message exactly when the source lcore has
   * another queue left: an lcore's last queue cannot be moved away.
   */
  lemma MoveIsAcceptedIffSourceKeepsAQueue(rib: Option<Info>, before: QTable, after: QTable, lcoreCount: nat,
                                           from: nat, to: nat, pq: PortQueue)
    requires lcoreCount <= RTE_MAX_LCORE && Sound(rib, lcoreCount) && InStep(rib, before)
    requires from < lcoreCount && to < lcoreCount && from != to
    requires pq in QueueLists(rib)[from] && |QueueLists(rib)[to]| < MAX_RX_QUEUE_PER_LCORE
    requires ListsOf(after) == QueueConfig.SetQueue(ListsOf(before), to, pq)
    ensures Apply(rib, Qconf(after), lcoreCount).Some? <==> |QueueLists(rib)[from]| > 1
  {
    SourceAfterMove(rib, lcoreCount, from, pq);
    CommandRow(rib, before, after, lcoreCount, from, to, pq, from);
    CommandRow(rib, before, after, lcoreCount, from, to, pq, to);
    if |QueueLists(rib)[from]| == 1 {
      MovingLastQueueIsRejected(rib, after, lcoreCount, from, to, pq);
    } else {
      MoveIsAccepted(rib, before, after, lcoreCount, from, to, pq);
    }
  }

  lemma SourceAfterMove(rib: Option<Info>, lcoreCount: nat, from: nat, pq: PortQueue)
    requires from < lcoreCount <= RTE_MAX_LCORE && Sound(rib, lcoreCount) && pq in QueueLists(rib)[from]
    ensures |QueueConfig.Without(QueueLists(rib)[from], pq)| == |QueueLists(rib)[from]| - 1
  {
    var lists := QueueLists(rib)[..lcoreCount];
    assert lists[from] == QueueLists(rib)[from];
    DenseIsDuplicateFree(lists);
    WithoutCounts(lists[from], pq);
  }

  // ---------------------------------------------------------------- the command in every case

  /** pq would be its port's next queue, or is its port's highest. */
  ghost predicate IsNext(lists: Lists, pq: PortQueue) {
    PortHasExactly(Listed(lists), pq.port, pq.queue)
  }

  ghost predicate IsHighest(lists: Lists, pq: PortQueue) {
    PortHasExactly(Listed(lists), pq.port, pq.queue + 1)
  }

  ghost predicate Unlisted(lists: Lists, pq: PortQueue) {
    forall l :: 0 <= l < |lists| ==> pq !in lists[l]
  }

  lemma {:induction false} UnlistedCounts(lists: Lists, pq: PortQueue)
    requires Unlisted(lists, pq)
    ensures multiset(Listed(lists))[pq] == 0
  {
    if lists != [] {
      assert lists[|lists| - 1] == lists[..|lists|][|lists| - 1];
      UnlistedCounts(lists[..|lists| - 1], pq);
    }
  }

  /** A queue more in some row. */
  lemma AddDenseIff(lists: Lists, to: nat, pq: PortQueue)
    requires Dense(Listed(lists)) && to < |lists| && Unlisted(lists, pq)
    ensures Dense(Listed(lists[to := lists[to] + [pq]])) <==> IsNext(lists, pq)
  {
    var old_, new_ := Listed(lists), Listed(lists[to := lists[to] + [pq]]);
    UnlistedCounts(lists, pq);
    forall x ensures multiset(new_)[x] == multiset(old_)[x] + if x == pq then 1 else 0 {
      ListedUpdate(lists, to, lists[to] + [pq], x);
    }
    OneMoreDenseIff(old_, new_, pq);
  }

  lemma OneMoreDenseIff(old_: seq<PortQueue>, new_: seq<PortQueue>, pq: PortQueue)
    requires Dense(old_) && multiset(old_)[pq] == 0
    requires forall x :: multiset(new_)[x] == multiset(old_)[x] + if x == pq then 1 else 0
    ensures Dense(new_) <==> PortHasExactly(old_, pq.port, pq.queue)
  {
    var p, q := pq.port, pq.queue;
    if PortHasExactly(old_, p, q) {
      forall r: uint16 ensures PortDense(new_, r) {
        assert PortDense(old_, r);
        var n: nat :| PortHasExactly(old_, r, n);
        assert PortHasExactly(new_, r, if r == p then q + 1 else n);
      }
    }
    if Dense(new_) {
      assert PortDense(old_, p) && PortDense(new_, p);
      var n: nat :| PortHasExactly(old_, p, n);
      var m: nat :| PortHasExactly(new_, p, m);
      assert multiset(new_)[PortQueue(p, q)] == 1 && multiset(old_)[PortQueue(p, q)] == 0;
      assert n <= q < m;
      if n < q {
        assert multiset(new_)[PortQueue(p, n)] == multiset(old_)[PortQueue(p, n)];
      }
    }
  }

  /** A queue fewer in some row. */
  lemma RemoveDenseIff(lists: Lists, from: nat, pq: PortQueue)
    requires Dense(Listed(lists)) && from < |lists| && pq in lists[from]
    ensures Dense(Listed(lists[from := QueueConfig.Without(lists[from], pq)])) <==> IsHighest(lists, pq)
  {
    var rest := QueueConfig.Without(lists[from], pq);
    var old_, new_ := Listed(lists), Listed(lists[from := rest]);
    DenseIsDuplicateFree(lists);
    WithoutCounts(lists[from], pq);
    ListedHolds(lists, from, pq);
    DenseHoldsOnce(old_, pq);
    forall x ensures multiset(new_)[x] == multiset(old_)[x] - if x == pq then 1 else 0 {
      ListedUpdate(lists, from, rest, x);
      assert multiset(lists[from])[x] == multiset(rest)[x] + multiset{pq}[x];
    }
    OneFewerDenseIff(old_, new_, pq);
  }

  lemma OneFewerDenseIff(old_: seq<PortQueue>, new_: seq<PortQueue>, pq: PortQueue)
    requires Dense(old_) && multiset(old_)[pq] == 1
    requires forall x :: multiset(new_)[x] == multiset(old_)[x] - if x == pq then 1 else 0
    ensures Dense(new_) <==> PortHasExactly(old_, pq.port, pq.queue + 1)
  {
    var p, q := pq.port, pq.queue;
    if PortHasExactly(old_, p, q + 1) {
      forall r: uint16 ensures PortDense(new_, r) {
        assert PortDense(old_, r);
        var n: nat :| PortHasExactly(old_, r, n);
        assert PortHasExactly(new_, r, if r == p then q else n);
      }
    }
    if Dense(new_) {
      assert PortDense(old_, p) && PortDense(new_, p);
      var n: nat :| PortHasExactly(old_, p, n);
      var m: nat :| PortHasExactly(new_, p, m);
      assert multiset(new_)[PortQueue(p, q)] == 0 && multiset(old_)[PortQueue(p, q)] == 1;
      assert m <= q < n;
      forall r: uint16 ensures multiset(old_)[PortQueue(p, r)] == if r < q + 1 then 1 else 0 {
        if r > q {
          assert multiset(new_)[PortQueue(p, r)] == multiset(old_)[PortQueue(p, r)];
        }
      }
    }
  }

  /** The command gives pq to the target: it exists for the rib, lacks pq, and has room. */
  predicate Adds(lists: Lists, lcoreCount: nat, to: nat, pq: PortQueue)
    requires to < |lists|
  {
    to < lcoreCount && pq !in lists[to] && |lists[to]| < MAX_RX_QUEUE_PER_LCORE
  }

  /** Whether the message that follows a command is accepted, said of the lists before the command. */
  ghost predicate WouldAccept(lists: Lists, lcoreCount: nat, to: nat, pq: PortQueue)
    requires to < |lists| && lcoreCount <= |lists|
  {
    var adds := Adds(lists, lcoreCount, to, pq);
    && (forall l :: 0 <= l < lcoreCount && l != to && pq in lists[l] ==>
          if |lists[l]| > 1 then adds || IsHighest(lists[..lcoreCount], pq) else !adds)
    && (adds && Unlisted(lists[..lcoreCount], pq) ==> IsNext(lists[..lcoreCount], pq))
  }

  /** The table after a command on a table in step with a sound rib, row by row. */
  lemma AnyCommandRow(rib: Option<Info>, before: QTable, after: QTable, lcoreCount: nat, to: nat, pq: PortQueue, i: nat)
    requires lcoreCount <= RTE_MAX_LCORE && Sound(rib, lcoreCount) && InStep(rib, before)
    requires to < RTE_MAX_LCORE && i < RTE_MAX_LCORE
    requires ListsOf(after) == QueueConfig.SetQueue(ListsOf(before), to, pq)
    ensures after[i].nrxq == |after[i].Active()|
    ensures after[i].Active() ==
      var row := QueueLists(rib)[i];
      if i != to then QueueConfig.Without(row, pq)
      else if pq in row || |row| >= MAX_RX_QUEUE_PER_LCORE then row
      else row + [pq]
  {
    var lists := QueueLists(rib);
    assert after[i].Active() == QueueConfig.SetQueue(lists, to, pq)[i];
    if i < lcoreCount {
      DenseIsDuplicateFree(lists[..lcoreCount]);
      assert lists[..lcoreCount][i] == lists[i];
    }
    QueueConfig.RemoveScanOfDistinct(lists[i], pq);
  }

  /** The rows that rib_check gets to see after a command. */
  function SeenRow(row: seq<PortQueue>, isTarget: bool, pq: PortQueue): seq<PortQueue> {
    if isTarget then if pq in row || |row| >= MAX_RX_QUEUE_PER_LCORE then row else row + [pq]
    else if row == [pq] then row
    else QueueConfig.Without(row, pq)
  }

  lemma SeenRows(rib: Option<Info>, before: QTable, after: QTable, lcoreCount: nat, to: nat, pq: PortQueue, i: nat)
    requires lcoreCount <= RTE_MAX_LCORE && Sound(rib, lcoreCount) && InStep(rib, before)
    requires to < RTE_MAX_LCORE && i < lcoreCount
    requires ListsOf(after) == QueueConfig.SetQueue(ListsOf(before), to, pq)
    ensures ListsOf(Merge(Create(rib).qconf, after, lcoreCount)[..lcoreCount])[i]
      == SeenRow(QueueLists(rib)[i], i == to, pq)
  {
    AnyCommandRow(rib, before, after, lcoreCount, to, pq, i);
    MergedRow(rib, after, lcoreCount, i);
    var lists := QueueLists(rib);
    DenseIsDuplicateFree(lists[..lcoreCount]);
    assert lists[..lcoreCount][i] == lists[i];
    WithoutEmpty(lists[i], pq);
  }

  /** Taking pq out of a list leaves nothing exactly when there was nothing else. */
  lemma WithoutEmpty(s: seq<PortQueue>, pq: PortQueue)
    requires Sequences.Distinct(s)
    ensures QueueConfig.Without(s, pq) == [] <==> s == [] || s == [pq]
    ensures pq !in s ==> QueueConfig.Without(s, pq) == s
  {
    QueueConfig.WithoutMembers(s, pq);
    if pq in s {
      WithoutCounts(s, pq);
    }
  }

  function SeenLists(lists: Lists, to: nat, pq: PortQueue): (r: Lists)
    ensures |r| == |lists| && forall i :: 0 <= i < |lists| ==> r[i] == SeenRow(lists[i], i == to, pq)
  {
    seq(|lists|, i requires 0 <= i < |lists| => SeenRow(lists[i], i == to, pq))
  }

  /** Nobody lists pq: the target's row grows, or nothing changes. */
  lemma SeenOfUnlisted(lists: Lists, to: nat, pq: PortQueue)
    requires Dense(Listed(lists)) && Unlisted(lists, pq)
    ensures SeenLists(lists, to, pq)
         == if to < |lists| && |lists[to]| < MAX_RX_QUEUE_PER_LCORE then lists[to := lists[to] + [pq]] else lists
  {
    forall i | 0 <= i < |lists| && i != to ensures SeenRow(lists[i], false, pq) == lists[i] {
      QueueConfig.WithoutMembers(lists[i], pq);
    }
  }

  /** One lcore lists pq: its row shrinks unless pq is all it has, and the target's grows if it has room. */
  lemma SeenOfListed(lists: Lists, to: nat, from: nat, pq: PortQueue)
    requires Dense(Listed(lists)) && from < |lists| && from != to && pq in lists[from]
    ensures var kept := if lists[from] == [pq] then lists else lists[from := QueueConfig.Without(lists[from], pq)];
      SeenLists(lists, to, pq)
        == if to < |lists| && |lists[to]| < MAX_RX_QUEUE_PER_LCORE then kept[to := lists[to] + [pq]] else kept
  {
    DenseIsDuplicateFree(lists);
    forall i | 0 <= i < |lists| && i != from ensures pq !in lists[i] && QueueConfig.Without(lists[i], pq) == lists[i] {
      assert pq in lists[from] && pq !in lists[i];
      QueueConfig.WithoutMembers(lists[i], pq);
    }
  }

  lemma SeenOfTarget(lists: Lists, to: nat, pq: PortQueue)
    requires Dense(Listed(lists)) && to < |lists| && pq in lists[to]
    ensures SeenLists(lists, to, pq) == lists
  {
    DenseIsDuplicateFree(lists);
    forall i | 0 <= i < |lists| && i != to ensures pq !in lists[i] && QueueConfig.Without(lists[i], pq) == lists[i] {
      assert pq in lists[to] && pq !in lists[i];
      QueueConfig.WithoutMembers(lists[i], pq);
    }
  }

  /** Listed twice is not dense. */
  lemma TwiceIsNotDense(lists: Lists, i: nat, j: nat, pq: PortQueue)
    requires i < |lists| && j < |lists| && i != j && pq in lists[i] && pq in lists[j]
    ensures !Dense(Listed(lists))
  {
    if i < j {
      ListedCountsTwice(lists, i, j, pq);
    } else {
      ListedCountsTwice(lists, j, i, pq);
    }
    if Dense(Listed(lists)) {
      DenseHoldsOnce(Listed(lists), pq);
    }
  }

  lemma SeenDenseIff(lists: Lists, to: nat, pq: PortQueue)
    requires Dense(Listed(lists))
    ensures Dense(Listed(SeenLists(lists, to, pq))) <==> SeenAccepted(lists, to, pq)
  {
    if to < |lists| && pq in lists[to] {
      SeenOfTarget(lists, to, pq);
      DenseIsDuplicateFree(lists);
      assert forall l :: 0 <= l < |lists| && l != to ==> pq !in lists[l];
    } else if Unlisted(lists, pq) {
      SeenOfUnlisted(lists, to, pq);
      if to < |lists| {
        AddDenseIff(lists, to, pq);
      }
    } else {
      var from :| 0 <= from < |lists| && pq in lists[from];
      SeenListedIff(lists, to, from, pq);
    }
  }

  /** WouldAccept, on the rows of the lcores the rib knows. */
  ghost predicate SeenAccepted(lists: Lists, to: nat, pq: PortQueue) {
    var adds := to < |lists| && pq !in lists[to] && |lists[to]| < MAX_RX_QUEUE_PER_LCORE;
    && (forall l :: 0 <= l < |lists| && l != to && pq in lists[l] ==>
          if |lists[l]| > 1 then adds || IsHighest(lists, pq) else !adds)
    && (adds && Unlisted(lists, pq) ==> IsNext(lists, pq))
  }

  lemma SeenListedIff(lists: Lists, to: nat, from: nat, pq: PortQueue)
    requires Dense(Listed(lists)) && from < |lists| && from != to && pq in lists[from]
    requires to < |lists| ==> pq !in lists[to]
    ensures Dense(Listed(SeenLists(lists, to, pq))) <==> SeenAccepted(lists, to, pq)
  {
    SeenOfListed(lists, to, from, pq);
    DenseIsDuplicateFree(lists);
    assert forall l :: 0 <= l < |lists| && l != from ==> pq !in lists[l];
    assert !Unlisted(lists, pq);
    var room := to < |lists| && |lists[to]| < MAX_RX_QUEUE_PER_LCORE;
    OneElement(lists[from], pq);
    if lists[from] == [pq] {
      if room {
        TwiceIsNotDense(lists[to := lists[to] + [pq]], from, to, pq);
      }
    } else if room {
      MoveKeepsDense(lists, from, to, pq);
    } else {
      RemoveDenseIff(lists, from, pq);
    }
  }

  lemma OneElement(s: seq<PortQueue>, pq: PortQueue)
    requires pq in s
    ensures |s| > 1 <==> s != [pq]
  {
  }

  /**
   * The command in every case, on a table in step with a sound rib: moving a queue, adding one,
   * naming one where it is, and dropping one because the target is full or unknown to the rib.
   * The message is accepted exactly as the lists before the command say.
   */
  lemma CommandIsAcceptedIff(rib: Option<Info>, before: QTable, after: QTable, lcoreCount: nat, to: nat, pq: PortQueue)
    requires lcoreCount <= RTE_MAX_LCORE && Sound(rib, lcoreCount) && InStep(rib, before) && to < RTE_MAX_LCORE
    requires ListsOf(after) == QueueConfig.SetQueue(ListsOf(before), to, pq)
    ensures Apply(rib, Qconf(after), lcoreCount).Some? <==> WouldAccept(QueueLists(rib), lcoreCount, to, pq)
  {
    var lists := QueueLists(rib)[..lcoreCount];
    var merged := ListsOf(Merge(Create(rib).qconf, after, lcoreCount)[..lcoreCount]);
    forall i | 0 <= i < lcoreCount ensures merged[i] == SeenLists(lists, to, pq)[i] {
      SeenRows(rib, before, after, lcoreCount, to, pq, i);
    }
    assert merged == SeenLists(lists, to, pq);
    SeenDenseIff(lists, to, pq);
    SameAcceptance(QueueLists(rib), lcoreCount, to, pq);
  }

  lemma SameAcceptance(lists: Lists, lcoreCount: nat, to: nat, pq: PortQueue)
    requires to < |lists| && lcoreCount <= |lists|
    ensures SeenAccepted(lists[..lcoreCount], to, pq) <==> WouldAccept(lists, lcoreCount, to, pq)
  {
    var seen := lists[..lcoreCount];
    assert forall l :: 0 <= l < lcoreCount ==> seen[l] == lists[l];
  }

  /** The rib after a message: the new one if it was accepted, the old one if not. */
  ghost function RibAfter(rib: Option<Info>, table: QTable, lcoreCount: nat): Option<Info>
    requires lcoreCount <= RTE_MAX_LCORE
  {
    var next := Apply(rib, Qconf(table), lcoreCount);
    if next.None? then rib else next
  }

  /** A table that shows what a sound rib hands out is accepted, and so a rejected one shows something else. */
  lemma InStepIsAccepted(rib: Option<Info>, table: QTable, lcoreCount: nat)
    requires lcoreCount <= RTE_MAX_LCORE && Sound(rib, lcoreCount) && InStep(rib, table)
    ensures Apply(rib, Qconf(table), lcoreCount).Some?
  {
    var lists := QueueLists(rib)[..lcoreCount];
    var merged := ListsOf(Merge(Create(rib).qconf, table, lcoreCount)[..lcoreCount]);
    forall i | 0 <= i < lcoreCount ensures merged[i] == lists[i] {
      MergedRow(rib, table, lcoreCount, i);
      assert ListsOf(table)[i] == QueueLists(rib)[i];
    }
    assert merged == lists;
  }

  /**
   * Exactly when is the table in step with the rib after a command: the message is accepted, the
   * target is an lcore the rib knows, and no lcore's only queue was dropped. A rejected command
   * has changed the table already.
   */
  lemma StaysInStepIff(rib: Option<Info>, before: QTable, after: QTable, lcoreCount: nat, to: nat, pq: PortQueue)
    requires lcoreCount <= RTE_MAX_LCORE && Sound(rib, lcoreCount) && InStep(rib, before) && to < RTE_MAX_LCORE
    requires ListsOf(after) == QueueConfig.SetQueue(ListsOf(before), to, pq)
    ensures InStep(RibAfter(rib, after, lcoreCount), after)
       <==> && Apply(rib, Qconf(after), lcoreCount).Some? && to < lcoreCount
            && forall l :: 0 <= l < lcoreCount && l != to ==> QueueLists(rib)[l] != [pq]
  {
    if Apply(rib, Qconf(after), lcoreCount).Some? {
      AcceptedInStepIff(rib, before, after, lcoreCount, to, pq);
    } else if InStep(rib, after) {
      InStepIsAccepted(rib, after, lcoreCount);
    }
  }

  lemma AcceptedInStepIff(rib: Option<Info>, before: QTable, after: QTable, lcoreCount: nat, to: nat, pq: PortQueue)
    requires lcoreCount <= RTE_MAX_LCORE && Sound(rib, lcoreCount) && InStep(rib, before) && to < RTE_MAX_LCORE
    requires ListsOf(after) == QueueConfig.SetQueue(ListsOf(before), to, pq)
    requires Apply(rib, Qconf(after), lcoreCount).Some?
    ensures InStep(Apply(rib, Qconf(after), lcoreCount), after)
       <==> to < lcoreCount && forall l :: 0 <= l < lcoreCount && l != to ==> QueueLists(rib)[l] != [pq]
  {
    var next := Apply(rib, Qconf(after), lcoreCount);
    var rows, seen := ListsOf(after), QueueLists(next);
    if InStep(next, after) {
      StepRow(rib, before, after, lcoreCount, to, pq, to);
      assert rows[to] == seen[to];
      forall l | 0 <= l < lcoreCount && l != to ensures QueueLists(rib)[l] != [pq] {
        StepRow(rib, before, after, lcoreCount, to, pq, l);
        assert rows[l] == seen[l];
      }
    }
    if to < lcoreCount && forall l :: 0 <= l < lcoreCount && l != to ==> QueueLists(rib)[l] != [pq] {
      forall i | 0 <= i < RTE_MAX_LCORE ensures rows[i] == seen[i] {
        StepRow(rib, before, after, lcoreCount, to, pq, i);
      }
      assert rows == seen;
    }
  }

  lemma StepRow(rib: Option<Info>, before: QTable, after: QTable, lcoreCount: nat, to: nat, pq: PortQueue, i: nat)
    requires lcoreCount <= RTE_MAX_LCORE && Sound(rib, lcoreCount) && InStep(rib, before) && to < RTE_MAX_LCORE
    requires ListsOf(after) == QueueConfig.SetQueue(ListsOf(before), to, pq)
    requires Apply(rib, Qconf(after), lcoreCount).Some? && i < RTE_MAX_LCORE
    ensures QueueLists(Apply(rib, Qconf(after), lcoreCount))[i] == after[i].Active() <==>
      if i < lcoreCount then i == to || QueueLists(rib)[i] != [pq] else i != to
  {
    AnyCommandRow(rib, before, after, lcoreCount, to, pq, i);
    ApplyLists(rib, Qconf(after), lcoreCount, i);
    if i < lcoreCount {
      DenseIsDuplicateFree(QueueLists(rib)[..lcoreCount]);
      assert QueueLists(rib)[..lcoreCount][i] == QueueLists(rib)[i];
      WithoutEmpty(QueueLists(rib)[i], pq);
    }
  }
}
