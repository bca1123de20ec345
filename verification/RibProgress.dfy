/** The publication protocol cannot get stuck: the workers alone can end every grace period. */
module RibProgress {
  import opened Option
  import opened QueueTypes
  import opened RibManager
  import opened RibProtocol

  predicate OfWorker(e: Event) {
    e.Register? || e.Dereference? || e.StartPoll? || e.EndPoll? || e.Quiesce? || e.Unregister?
  }

  predicate AllOfWorkers(events: seq<Event>) {
    forall k :: 0 <= k < |events| ==> OfWorker(events[k])
  }

  predicate NoReceive(events: seq<Event>) {
    forall k :: 0 <= k < |events| ==> !events[k].Receive?
  }

  /** A grace period waits only for workers that are online; a publishing writer has something to publish. */
  ghost predicate Ready(s: State) {
    && (s.writer.Waiting? ==> forall w :: w in s.writer.pending ==> w < |s.workers| && !s.workers[w].Offline?)
    && (s.writer.Publishing? ==> s.writer.next != [])
  }

  lemma StepKeepsReady(s: State, e: Event, lcoreCount: nat)
    requires lcoreCount <= RTE_MAX_LCORE && Enabled(s, e) && Ready(s)
    ensures Ready(After(s, e, lcoreCount))
  {
  }

  /** Every reachable state is ready. */
  lemma {:induction false} RunKeepsReady(s: State, events: seq<Event>, lcoreCount: nat)
    requires lcoreCount <= RTE_MAX_LCORE && Ready(s) && Run(s, events, lcoreCount).Some?
    ensures Ready(Run(s, events, lcoreCount).value)
    decreases |events|
  {
    if events != [] {
      StepKeepsReady(s, events[0], lcoreCount);
      RunKeepsReady(After(s, events[0], lcoreCount), events[1..], lcoreCount);
    }
  }

  lemma {:induction false} RunAppend(s: State, a: seq<Event>, b: seq<Event>, lcoreCount: nat)
    requires lcoreCount <= RTE_MAX_LCORE && Run(s, a, lcoreCount).Some?
    ensures Run(s, a + b, lcoreCount) == Run(Run(s, a, lcoreCount).value, b, lcoreCount)
    decreases |a|
  {
    if a == [] {
      assert a + b == b;
    } else {
      var t := After(s, a[0], lcoreCount);
      RunAppend(t, a[1..], b, lcoreCount);
      assert a + b == [a[0]] + (a[1..] + b);
      RunStep(s, a[0], a[1..] + b, lcoreCount);
    }
  }

  lemma RunOne(s: State, e: Event, lcoreCount: nat)
    requires lcoreCount <= RTE_MAX_LCORE && Enabled(s, e)
    ensures Run(s, [e], lcoreCount) == Some(After(s, e, lcoreCount))
  {
    RunStep(s, e, [], lcoreCount);
    assert [e] + [] == [e];
  }

  lemma RunTwo(s: State, e: Event, f: Event, lcoreCount: nat)
    requires lcoreCount <= RTE_MAX_LCORE && Enabled(s, e) && Enabled(After(s, e, lcoreCount), f)
    ensures Run(s, [e, f], lcoreCount) == Some(After(After(s, e, lcoreCount), f, lcoreCount))
  {
    RunStep(s, e, [f], lcoreCount);
    RunOne(After(s, e, lcoreCount), f, lcoreCount);
    assert [e] + [f] == [e, f];
  }

  /** A worker the grace period waits for can pass a quiescent state on its own, in at most two steps. */
  lemma WorkerPasses(s: State, w: nat, lcoreCount: nat) returns (events: seq<Event>)
    requires lcoreCount <= RTE_MAX_LCORE && Ready(s) && s.writer.Waiting? && w in s.writer.pending
    ensures AllOfWorkers(events) && Run(s, events, lcoreCount).Some?
    ensures Run(s, events, lcoreCount).value.writer == s.writer.(pending := s.writer.pending - {w})
  {
    if s.workers[w].Online? {
      events := [Dereference(w), Quiesce(w)];
      RunTwo(s, Dereference(w), Quiesce(w), lcoreCount);
    } else if s.workers[w].busy.Some? {
      events := [EndPoll(w), Quiesce(w)];
      RunTwo(s, EndPoll(w), Quiesce(w), lcoreCount);
    } else {
      events := [Quiesce(w)];
      RunOne(s, Quiesce(w), lcoreCount);
    }
  }

  /** From every ready state with a waiting writer some steps of workers alone end the grace period. */
  lemma {:induction false} GracePeriodCanEnd(s: State, lcoreCount: nat) returns (events: seq<Event>)
    requires lcoreCount <= RTE_MAX_LCORE && Ready(s) && s.writer.Waiting?
    ensures AllOfWorkers(events) && Run(s, events, lcoreCount).Some?
    ensures var t := Run(s, events, lcoreCount).value;
      t.writer == s.writer.(pending := {}) && Enabled(t, EndGrace)
    decreases |s.writer.pending|
  {
    if s.writer.pending == {} {
      events := [];
    } else {
      var w :| w in s.writer.pending;
      var first := WorkerPasses(s, w, lcoreCount);
      RunKeepsReady(s, first, lcoreCount);
      var t := Run(s, first, lcoreCount).value;
      var rest := GracePeriodCanEnd(t, lcoreCount);
      RunAppend(s, first, rest, lcoreCount);
      events := first + rest;
    }
  }

  /** How far the writer is from being idle. */
  function Distance(wr: Writer): nat {
    match wr
    case Idle => 0
    case Publishing(next) => 3 * |next|
    case Published(_, next) => 3 * |next| + 2
    case Waiting(_, next, _) => 3 * |next| + 1
  }

  /** One more step of the writer, after the workers' if it is waiting. */
  lemma WriterAdvances(s: State, lcoreCount: nat) returns (events: seq<Event>)
    requires lcoreCount <= RTE_MAX_LCORE && Ready(s) && !s.writer.Idle?
    ensures NoReceive(events) && Run(s, events, lcoreCount).Some?
    ensures Distance(Run(s, events, lcoreCount).value.writer) < Distance(s.writer)
  {
    if s.writer.Publishing? {
      events := [Assign];
      RunOne(s, Assign, lcoreCount);
    } else if s.writer.Published? {
      events := [BeginGrace];
      RunOne(s, BeginGrace, lcoreCount);
    } else {
      var first := GracePeriodCanEnd(s, lcoreCount);
      var t := Run(s, first, lcoreCount).value;
      RunOne(t, EndGrace, lcoreCount);
      RunAppend(s, first, [EndGrace], lcoreCount);
      events := first + [EndGrace];
    }
  }

  /** From every ready state the writer can become idle again without another message: nothing is stuck. */
  lemma {:induction false} WriterCanFinish(s: State, lcoreCount: nat) returns (events: seq<Event>)
    requires lcoreCount <= RTE_MAX_LCORE && Ready(s)
    ensures NoReceive(events) && Run(s, events, lcoreCount).Some?
    ensures Run(s, events, lcoreCount).value.writer.Idle?
    decreases Distance(s.writer)
  {
    if s.writer.Idle? {
      events := [];
    } else {
      var first := WriterAdvances(s, lcoreCount);
      RunKeepsReady(s, first, lcoreCount);
      var rest := WriterCanFinish(Run(s, first, lcoreCount).value, lcoreCount);
      RunAppend(s, first, rest, lcoreCount);
      events := first + rest;
    }
  }

  /** After any run, with any workers, the manager can still finish what it is doing. */
  lemma NoRunGetsStuck(workerCount: nat, events: seq<Event>, lcoreCount: nat) returns (more: seq<Event>)
    requires lcoreCount <= RTE_MAX_LCORE && Run(Init(workerCount), events, lcoreCount).Some?
    ensures NoReceive(more) && Run(Init(workerCount), events + more, lcoreCount).Some?
    ensures Run(Init(workerCount), events + more, lcoreCount).value.writer.Idle?
  {
    RunKeepsReady(Init(workerCount), events, lcoreCount);
    more := WriterCanFinish(Run(Init(workerCount), events, lcoreCount).value, lcoreCount);
    RunAppend(Init(workerCount), events, more, lcoreCount);
  }
}
