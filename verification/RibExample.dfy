/** A concrete run that goes wrong without its zero rib: two lcores, one port, two queues. */
module RibExample {
  import opened Option
  import opened QueueTypes
  import opened RibManager
  import opened RibProtocol
  import opened RibProgress

  const Q0: PortQueue := PortQueue(0, 0)
  const Q1: PortQueue := PortQueue(0, 1)

  function RecordOf(list: seq<PortQueue>): (r: Qconf)
    requires |list| <= MAX_RX_QUEUE_PER_LCORE
    ensures r.Active() == list
  {
    QconfRecord(|list|, list + seq(MAX_RX_QUEUE_PER_LCORE - |list|, i => Q0))
  }

  /** The table that gives lcores 0 and 1 these lists and all others none. */
  function TableOf(a: seq<PortQueue>, b: seq<PortQueue>): QTable
    requires |a| <= MAX_RX_QUEUE_PER_LCORE && |b| <= MAX_RX_QUEUE_PER_LCORE
  {
    seq<Qconf>(RTE_MAX_LCORE, i requires 0 <= i < RTE_MAX_LCORE => RowOf(a, b, i))
  }

  function RowOf(a: seq<PortQueue>, b: seq<PortQueue>, i: nat): Qconf
    requires |a| <= MAX_RX_QUEUE_PER_LCORE && |b| <= MAX_RX_QUEUE_PER_LCORE
  {
    RecordOf(if i == 0 then a else if i == 1 then b else [])
  }

  /** First lcore 0 polls both queues, then lcore 1 takes over the second. */
  function First(): Msg {
    Qconf(TableOf([Q0, Q1], []))
  }

  function Second(): Msg {
    Qconf(TableOf([Q0], [Q1]))
  }

  lemma PairIsDense(entries: seq<PortQueue>)
    requires entries == [Q0, Q1]
    ensures Dense(entries)
  {
    forall p: uint16 ensures PortDense(entries, p) {
      assert PortHasExactly(entries, p, if p == 0 then 2 else 0);
    }
  }

  lemma MergedLists(prev: QTable, a: seq<PortQueue>, b: seq<PortQueue>)
    requires 0 < |a| <= MAX_RX_QUEUE_PER_LCORE && |b| <= MAX_RX_QUEUE_PER_LCORE
    requires b == [] ==> prev[1].Active() == []
    ensures ListsOf(Merge(prev, TableOf(a, b), 2)[..2]) == [a, b]
    ensures Listed(ListsOf(Merge(prev, TableOf(a, b), 2)[..2])) == a + b
  {
    var lists := ListsOf(Merge(prev, TableOf(a, b), 2)[..2]);
    assert TableOf(a, b)[0].Active() == a && TableOf(a, b)[1].Active() == b;
    assert lists[0] == a && lists[1] == b;
    assert lists == [a, b];
    ListedSnoc([a], b);
    ListedSnoc([], a);
    assert [] + [a] == [a] && [a] + [b] == [a, b];
  }

  lemma FirstIsAccepted()
    ensures Apply(None, First(), 2).Some?
    ensures QueueLists(Apply(None, First(), 2))[0] == [Q0, Q1] && QueueLists(Apply(None, First(), 2))[1] == []
  {
    MergedLists(Create(None).qconf, [Q0, Q1], []);
    PairIsDense([Q0, Q1] + []);
    ApplyLists(None, First(), 2, 0);
    ApplyLists(None, First(), 2, 1);
  }

  lemma SecondIsAccepted(rib: Option<Info>)
    requires rib == Apply(None, First(), 2)
    ensures Apply(rib, Second(), 2).Some? && QueueLists(Apply(rib, Second(), 2))[1] == [Q1]
  {
    MergedLists(Create(rib).qconf, [Q0], [Q1]);
    PairIsDense([Q0] + [Q1]);
    ApplyLists(rib, Second(), 2, 1);
  }

  /** One enabled and buffered step in front of a run. */
  lemma Prepend(s: State, e: Event, rest: seq<Event>)
    requires Enabled(s, e) && Buffered(s, e, 2) && BufferedRun(After(s, e, 2), rest, 2)
    ensures Run(s, [e] + rest, 2) == Run(After(s, e, 2), rest, 2)
    ensures BufferedRun(s, [e] + rest, 2)
  {
    RunStep(s, e, rest, 2);
    assert ([e] + rest)[1..] == rest;
  }

  /** Both workers come online. */
  lemma WorkersStart(s0: State) returns (events: seq<Event>, s: State)
    requires |s0.workers| == 2 && s0.workers[0].Offline? && s0.workers[1].Offline?
    ensures Run(s0, events, 2) == Some(s) && BufferedRun(s0, events, 2)
    ensures s == s0.(workers := [Online, Online])
  {
    var s1 := After(s0, Register(0), 2);
    s := After(s1, Register(1), 2);
    events := [Register(1)] + [];
    Prepend(s1, Register(1), []);
    Prepend(s0, Register(0), events);
    events := [Register(0)] + events;
  }

  /** The zero rib is replaced by the first table's rib; nobody holds up the grace period. */
  lemma ZeroReplaced(s0: State) returns (events: seq<Event>, s: State)
    requires |s0.workers| == 2 && s0.workers[0].Offline? && s0.workers[1].Offline?
    requires s0.writer == Publishing([1, 0]) && s0.global == None
    ensures Run(s0, events, 2) == Some(s) && BufferedRun(s0, events, 2)
    ensures s == s0.(writer := Idle, global := Some(0), reclaimed := s0.reclaimed + [1])
  {
    var s1 := After(s0, Assign, 2);
    var s2 := After(s1, Assign, 2);
    var s3 := After(s2, BeginGrace, 2);
    s := After(s3, EndGrace, 2);
    events := [EndGrace] + [];
    Prepend(s3, EndGrace, []);
    Prepend(s2, BeginGrace, events);
    events := [BeginGrace] + events;
    Prepend(s1, Assign, events);
    events := [Assign] + events;
    Prepend(s0, Assign, events);
    events := [Assign] + events;
  }

  lemma {:induction false} BufferedAppend(s: State, a: seq<Event>, b: seq<Event>)
    requires Run(s, a, 2).Some? && BufferedRun(s, a, 2) && BufferedRun(Run(s, a, 2).value, b, 2)
    ensures BufferedRun(s, a + b, 2)
    decreases |a|
  {
    if a == [] {
      assert a + b == b;
    } else {
      BufferedAppend(After(s, a[0], 2), a[1..], b);
      assert (a + b)[1..] == a[1..] + b;
    }
  }

  /** The first table is published, with its zero rib, and both workers come online. */
  lemma Started() returns (events: seq<Event>, s: State)
    ensures Run(Init(2), events, 2) == Some(s) && BufferedRun(Init(2), events, 2)
    ensures s.writer.Idle? && s.global.Some? && View(s) == Apply(None, First(), 2)
    ensures |s.workers| == 2 && s.workers[0].Online? && s.workers[1].Online?
  {
    FirstIsAccepted();
    var s1 := After(Init(2), Receive(First(), true), 2);
    var publish, s2 := ZeroReplaced(s1);
    var start, s3 := WorkersStart(s2);
    s := s3;
    RunAppend(s1, publish, start, 2);
    BufferedAppend(s1, publish, start);
    Prepend(Init(2), Receive(First(), true), publish + start);
    events := [Receive(First(), true)] + (publish + start);
  }

  /** From the start of the system: the second message without its zero rib puts both workers on queue 1. */
  lemma UnbufferedRunExists() returns (events: seq<Event>)
    ensures Run(Init(2), events, 2).Some? && !OneUserPerQueue(Run(Init(2), events, 2).value)
  {
    var start, s := Started();
    InitInv(2, 2);
    RunKeepsInv(Init(2), start, 2);
    FirstIsAccepted();
    SecondIsAccepted(View(s));
    var more := UnbufferedMoveIsUnsafe(s, TableOf([Q0], [Q1]), 2, 0, 1, Q1);
    RunAppend(Init(2), start, more, 2);
    events := start + more;
  }
}
