/** The validation of a queue table: collect, sort, count (the queue part of rib_check). */
module RibCheck {
  import opened QueueTypes

  /** port_qconf_compare: by port, then by queue. */
  function Compare(a: PortQueue, b: PortQueue): int {
    if a.port < b.port then -1
    else if a.port > b.port then 1
    else if a.queue < b.queue then -1
    else if a.queue > b.queue then 1
    else 0
  }

  ghost predicate Sorted(s: seq<PortQueue>) {
    forall i, j :: 0 <= i < j < |s| ==> Compare(s[i], s[j]) <= 0
  }

  function Insert(s: seq<PortQueue>, x: PortQueue): seq<PortQueue> {
    if s == [] || Compare(s[|s| - 1], x) <= 0 then s + [x]
    else Insert(s[..|s| - 1], x) + [s[|s| - 1]]
  }

  function Sort(s: seq<PortQueue>): seq<PortQueue> {
    if s == [] then [] else Insert(Sort(s[..|s| - 1]), s[|s| - 1])
  }

  lemma {:induction false} InsertPermutes(s: seq<PortQueue>, x: PortQueue)
    ensures multiset(Insert(s, x)) == multiset(s) + multiset{x}
  {
    if s != [] && Compare(s[|s| - 1], x) > 0 {
      InsertPermutes(s[..|s| - 1], x);
      assert s == s[..|s| - 1] + [s[|s| - 1]];
    }
  }

  lemma {:induction false} InsertSorts(s: seq<PortQueue>, x: PortQueue)
    requires Sorted(s)
    ensures Sorted(Insert(s, x))
  {
    if s == [] || Compare(s[|s| - 1], x) <= 0 {
      SortedSnoc(s, x);
    } else {
      var init, last := s[..|s| - 1], s[|s| - 1];
      var r := Insert(init, x);
      InsertSorts(init, x);
      InsertPermutes(init, x);
      forall i | 0 <= i < |r| ensures Compare(r[i], last) <= 0 {
        assert r[i] in multiset(r);
        assert r[i] in multiset(init) || r[i] == x;
        assert r[i] in init ==> exists k :: 0 <= k < |init| && s[k] == r[i];
      }
      SortedSnocAll(r, last);
    }
  }

  lemma SortedSnoc(s: seq<PortQueue>, x: PortQueue)
    requires Sorted(s) && (s != [] ==> Compare(s[|s| - 1], x) <= 0)
    ensures Sorted(s + [x])
  {
    forall i | 0 <= i < |s| ensures Compare(s[i], x) <= 0 {
      assert i < |s| - 1 ==> Compare(s[i], s[|s| - 1]) <= 0;
    }
    SortedSnocAll(s, x);
  }

  lemma SortedSnocAll(s: seq<PortQueue>, x: PortQueue)
    requires Sorted(s) && forall i :: 0 <= i < |s| ==> Compare(s[i], x) <= 0
    ensures Sorted(s + [x])
  {
  }

  lemma {:induction false} SortIsSortedPermutation(s: seq<PortQueue>)
    ensures Sorted(Sort(s)) && multiset(Sort(s)) == multiset(s) && |Sort(s)| == |s|
    ensures forall i, j :: 0 <= i < j < |s| ==>
      var a, b := Sort(s)[i], Sort(s)[j];
      a.port < b.port || (a.port == b.port && a.queue <= b.queue)
  {
    if s != [] {
      var init, last := s[..|s| - 1], s[|s| - 1];
      SortIsSortedPermutation(init);
      InsertSorts(Sort(init), last);
      InsertPermutes(Sort(init), last);
      assert s == init + [last];
    }
    assert |multiset(Sort(s))| == |multiset(s)|;
  }

  /** qsort on the first n cells, seen through its contract: sorted by the comparator, a permutation. */
  method QSort(a: array<PortQueue>, n: nat)
    requires n <= a.Length
    modifies a
    ensures Sorted(a[..n])
    ensures multiset(a[..n]) == multiset(old(a[..n]))
    ensures a[n..] == old(a[n..])
  {
    var s := Sort(a[..n]);
    SortIsSortedPermutation(a[..n]);
    CopyBack(a, s);
  }

  method CopyBack(a: array<PortQueue>, s: seq<PortQueue>)
    requires |s| <= a.Length
    modifies a
    ensures a[..|s|] == s && a[|s|..] == old(a[|s|..])
  {
    for i := 0 to |s|
      invariant forall k :: 0 <= k < i ==> a[k] == s[k]
      invariant forall k :: |s| <= k < a.Length ==> a[k] == old(a[k])
    {
      a[i] := s[i];
    }
  }

  /** The comparator decides equality, so no position after an equal or larger one holds less. */
  lemma SortedPrefixHoldsSmaller(s: seq<PortQueue>, i: nat, x: PortQueue)
    requires Sorted(s) && i < |s| && Compare(x, s[i]) < 0
    ensures multiset(s)[x] == multiset(s[..i])[x]
  {
    assert s == s[..i] + s[i..];
    forall k | i <= k < |s| ensures s[k] != x {
      assert Compare(s[i], s[k]) <= 0 || i == k;
    }
    assert x !in s[i..];
  }

  /** One matching step of the counting loop. */
  lemma CountOne(s: seq<PortQueue>, i: nat, p: uint16, n: nat)
    requires i < |s| && PortHasExactly(s[..i], p, n)
    ensures s[i].port != p ==> PortHasExactly(s[..i + 1], p, n)
    ensures s[i] == PortQueue(p, s[i].queue) && s[i].queue == n ==> PortHasExactly(s[..i + 1], p, n + 1)
  {
    assert s[..i + 1] == s[..i] + [s[i]];
  }

  /** A mismatch of the counting loop is a duplicate or a gap of the whole table. */
  lemma MismatchIsNotDense(s: seq<PortQueue>, i: nat, n: nat)
    requires Sorted(s) && i < |s| && PortHasExactly(s[..i], s[i].port, n) && n != s[i].queue
    ensures !Dense(s)
  {
    var p, q := s[i].port, s[i].queue;
    if Dense(s) {
      DenseHoldsOnce(s, s[i]);
      assert s == s[..i] + [s[i]] + s[i + 1..];
      assert PortDense(s, p);
      var m: nat :| PortHasExactly(s, p, m);
      assert multiset(s)[PortQueue(p, q)] == 1;
      assert n < q < m;
      assert multiset(s)[PortQueue(p, n)] == 1;
      assert multiset(s[..i])[PortQueue(p, n)] == 0;
      SortedPrefixHoldsSmaller(s, i, PortQueue(p, n));
    }
  }

  lemma DenseOfPermutation(s: seq<PortQueue>, t: seq<PortQueue>)
    requires multiset(s) == multiset(t) && Dense(s)
    ensures Dense(t)
  {
    forall p: uint16 ensures PortDense(t, p) {
      assert PortDense(s, p);
      var n: nat :| PortHasExactly(s, p, n);
      assert PortHasExactly(t, p, n);
    }
  }

  /** What the C arrays can hold: at most 256 entries, ports below RTE_MAX_ETHPORTS. */
  ghost predicate FitsArrays(entries: seq<PortQueue>) {
    |entries| <= MAX_PORT_QCONF && forall pq :: pq in entries ==> pq.port < RTE_MAX_ETHPORTS
  }

  /** With at most 16 lcores no table has more entries than the array. */
  lemma {:induction false} SixteenLcoresFit(t: seq<Qconf>)
    ensures |Listed(ListsOf(t))| <= MAX_RX_QUEUE_PER_LCORE * |t|
    ensures |t| <= 16 ==> |Listed(ListsOf(t))| <= MAX_PORT_QCONF
  {
    if t != [] {
      var init := t[..|t| - 1];
      SixteenLcoresFit(init);
      assert ListsOf(t) == ListsOf(init) + [t[|t| - 1].Active()];
      ListedSnoc(ListsOf(init), t[|t| - 1].Active());
    }
  }

  /** Copy one lcore's active entries behind the n entries already in the array. */
  method CollectOne(q: Qconf, a: array<PortQueue>, n: nat) returns (m: nat)
    requires n + q.nrxq <= a.Length
    modifies a
    ensures m == n + q.nrxq && a[..m] == old(a[..n]) + q.Active()
  {
    m := n;
    for i := 0 to q.nrxq
      invariant m == n + i
      invariant a[..n] == old(a[..n])
      invariant a[n..m] == q.slots[..i]
    {
      a[m] := q.slots[i];
      m := m + 1;
    }
    assert a[..m] == a[..n] + a[n..m];
  }

  /** Copy the active entries of the first lcoreSize lcores into a fixed array. */
  method Collect(table: QTable, lcoreSize: nat, a: array<PortQueue>) returns (n: nat)
    requires lcoreSize <= RTE_MAX_LCORE
    requires |Listed(ListsOf(table[..lcoreSize]))| <= a.Length
    modifies a
    ensures n <= a.Length && a[..n] == Listed(ListsOf(table[..lcoreSize]))
  {
    n := 0;
    ghost var lists := ListsOf(table[..lcoreSize]);
    for lcore := 0 to lcoreSize
      invariant n <= a.Length && a[..n] == Listed(lists[..lcore])
    {
      ListedPrefix(lists, lcore);
      n := CollectOne(table[lcore], a, n);
    }
    assert lists[..lcoreSize] == lists;
  }

  lemma ListedPrefix(lists: Lists, i: nat)
    requires i < |lists|
    ensures Listed(lists[..i + 1]) == Listed(lists[..i]) + lists[i]
    ensures |Listed(lists[..i + 1])| <= |Listed(lists)|
  {
    assert lists[..i + 1] == lists[..i] + [lists[i]];
    ListedSnoc(lists[..i], lists[i]);
    assert lists == lists[..i + 1] + lists[i + 1..];
    ListedAppend(lists[..i + 1], lists[i + 1..]);
  }

  /** The counting loop over the sorted entries. */
  method Count(s: seq<PortQueue>) returns (ok: bool)
    requires Sorted(s)
    requires forall i :: 0 <= i < |s| ==> s[i].port < RTE_MAX_ETHPORTS
    ensures ok <==> Dense(s)
  {
    var portNrxq := new nat[RTE_MAX_ETHPORTS](i => 0);
    for i := 0 to |s|
      invariant forall p: uint16 :: p < RTE_MAX_ETHPORTS ==> PortHasExactly(s[..i], p, portNrxq[p])
    {
      var rxq := s[i];
      if portNrxq[rxq.port] != rxq.queue {
        MismatchIsNotDense(s, i, portNrxq[rxq.port]);
        return false;
      }
      forall p: uint16 | p < RTE_MAX_ETHPORTS
        ensures PortHasExactly(s[..i + 1], p, if p == rxq.port then portNrxq[p] + 1 else portNrxq[p])
      {
        CountOne(s, i, p, portNrxq[p]);
      }
      portNrxq[rxq.port] := portNrxq[rxq.port] + 1;
    }
    assert s[..|s|] == s;
    forall p: uint16 ensures PortDense(s, p) {
      assert PortHasExactly(s, p, if p < RTE_MAX_ETHPORTS then portNrxq[p] else 0);
    }
    ok := true;
  }

  /** rib_check accepts exactly the tables whose ports have queue ids 0..n-1, each once. */
  method Check(table: QTable, lcoreSize: nat) returns (ok: bool)
    requires lcoreSize <= RTE_MAX_LCORE
    requires FitsArrays(Listed(ListsOf(table[..lcoreSize])))
    ensures ok <==> Dense(Listed(ListsOf(table[..lcoreSize])))
  {
    var portQconf := new PortQueue[MAX_PORT_QCONF](i => PortQueue(0, 0));
    var size := Collect(table, lcoreSize, portQconf);
    ghost var entries := portQconf[..size];
    QSort(portQconf, size);
    var s := portQconf[..size];
    forall i | 0 <= i < |s| ensures s[i].port < RTE_MAX_ETHPORTS {
      assert s[i] in multiset(s);
      assert s[i] in multiset(entries);
    }
    ok := Count(s);
    if ok {
      DenseOfPermutation(s, entries);
    } else if Dense(entries) {
      DenseOfPermutation(entries, s);
    }
  }
}
