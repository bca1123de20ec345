/**
 * The publication protocol: one writer replaces the global rib, any number of workers read it in
 * any interleaving, and a quiescent-state grace period separates replacement from reclamation.
 */
module RibProtocol {
  import opened Option
  import opened QueueTypes
  import opened RibManager

  /**
   * A worker runs on the lcore of its index. Between a dereference and the next quiescent state
   * it reads through its snapshot; `busy` is the (port, queue) whose device queue and rings it is
   * using at this moment.
   */
  datatype Phase =
    | Offline
    | Online
    | Reading(snapshot: Option<nat>, busy: Option<PortQueue>)

  /** Where the writer stands; `next` are the ribs it still has to publish, in order. */
  datatype Writer =
    | Idle
    | Publishing(next: seq<nat>)
    | Published(stale: nat, next: seq<nat>)
    | Waiting(stale: nat, next: seq<nat>, pending: set<nat>)

  /** Ribs are named by allocation order; the content None is the zero rib's NULL rib_info. */
  datatype State = State(
    ribs: seq<Option<Info>>,
    global: Option<nat>,
    reclaimed: seq<nat>,
    rings: set<PortQueue>,
    writer: Writer,
    workers: seq<Phase>,
    history: seq<Msg>)

  /** The zero rib of an accepted QCONF exists only if its allocation succeeded. */
  datatype Event =
    | Receive(msg: Msg, zeroAllocated: bool)
    | Assign
    | BeginGrace
    | EndGrace
    | Register(w: nat)
    | Dereference(w: nat)
    | StartPoll(w: nat, pq: PortQueue)
    | EndPoll(w: nat)
    | Quiesce(w: nat)
    | Unregister(w: nat)

  function Init(workerCount: nat): State {
    State([], None, [], {}, Idle, seq(workerCount, i => Offline), [])
  }

  function View(s: State): Option<Info> {
    if s.global.Some? && s.global.value < |s.ribs| then s.ribs[s.global.value] else None
  }

  function NextOf(wr: Writer): seq<nat> {
    if wr.Idle? then [] else wr.next
  }

  function Resume(next: seq<nat>): Writer {
    if next == [] then Idle else Publishing(next)
  }

  ghost predicate Enabled(s: State, e: Event) {
    match e
    case Receive(_, _) => s.writer.Idle?
    case Assign => s.writer.Publishing? && s.writer.next != []
    case BeginGrace => s.writer.Published?
    case EndGrace => s.writer.Waiting? && s.writer.pending == {}
    case Register(w) => w < |s.workers| && s.workers[w].Offline?
    case Dereference(w) => w < |s.workers| && s.workers[w].Online?
    case StartPoll(w, pq) =>
      && w < |s.workers| && w < RTE_MAX_LCORE
      && s.workers[w].Reading? && s.workers[w].busy.None?
      && s.workers[w].snapshot.Some? && s.workers[w].snapshot.value < |s.ribs|
      && pq in QueueLists(s.ribs[s.workers[w].snapshot.value])[w]
    case EndPoll(w) => w < |s.workers| && s.workers[w].Reading? && s.workers[w].busy.Some?
    case Quiesce(w) => w < |s.workers| && s.workers[w].Reading? && s.workers[w].busy.None?
    case Unregister(w) => w < |s.workers| && s.workers[w].Online?
  }

  /** A worker that passed a quiescent state or left no longer holds up the grace period. */
  function Passed(wr: Writer, w: nat): Writer {
    if wr.Waiting? then wr.(pending := wr.pending - {w}) else wr
  }

  ghost function After(s: State, e: Event, lcoreCount: nat): State
    requires lcoreCount <= RTE_MAX_LCORE && Enabled(s, e)
  {
    match e
    case Receive(msg, zeroAllocated) => AfterReceive(s, msg, zeroAllocated, lcoreCount)
    case Assign =>
      var rest := s.writer.next[1..];
      s.(global := Some(s.writer.next[0]),
         writer := if s.global.None? then Resume(rest) else Published(s.global.value, rest))
    case BeginGrace =>
      var online := set w | 0 <= w < |s.workers| && !s.workers[w].Offline?;
      s.(writer := Waiting(s.writer.stale, s.writer.next, online))
    case EndGrace =>
      s.(reclaimed := s.reclaimed + [s.writer.stale], writer := Resume(s.writer.next))
    case Register(w) => s.(workers := s.workers[w := Online])
    case Dereference(w) => s.(workers := s.workers[w := Reading(s.global, None)])
    case StartPoll(w, pq) => s.(workers := s.workers[w := s.workers[w].(busy := Some(pq))])
    case EndPoll(w) => s.(workers := s.workers[w := s.workers[w].(busy := None)])
    case Quiesce(w) => s.(workers := s.workers[w := Online], writer := Passed(s.writer, w))
    case Unregister(w) => s.(workers := s.workers[w := Offline], writer := Passed(s.writer, w))
  }

  /** An accepted QCONF creates its rings and publishes the zero rib before the new one. */
  ghost function AfterReceive(s: State, msg: Msg, zeroAllocated: bool, lcoreCount: nat): State
    requires lcoreCount <= RTE_MAX_LCORE
  {
    var next := Apply(View(s), msg, lcoreCount);
    var id := |s.ribs|;
    var t := s.(history := s.history + [msg]);
    if next.None? then t
    else if !msg.Qconf? then t.(ribs := s.ribs + [next], writer := Publishing([id]))
    else
      var created := t.(rings := s.rings + set pq | pq in Listed(QueueLists(next)));
      if zeroAllocated then created.(ribs := s.ribs + [next, None], writer := Publishing([id + 1, id]))
      else created.(ribs := s.ribs + [next], writer := Publishing([id]))
  }

  // ---------------------------------------------------------------- invariant

  function One(b: bool): nat {
    if b then 1 else 0
  }

  /** How many places hold rib r: reclaimed, global, awaiting reclamation, awaiting publication. */
  function Places(s: State, r: nat): nat {
    multiset(s.reclaimed)[r] + One(s.global == Some(r)) + One(IsStale(s, r)) + multiset(NextOf(s.writer))[r]
  }

  predicate IsStale(s: State, r: nat) {
    (s.writer.Published? || s.writer.Waiting?) && s.writer.stale == r
  }

  /** Every rib ever allocated for publication is in exactly one place. */
  ghost predicate Conserved(s: State) {
    forall r: nat :: Places(s, r) == One(r < |s.ribs|)
  }

  /** A reader's snapshot is the global rib, or the replaced one whose grace period waits for it. */
  ghost predicate ReadersHeld(s: State) {
    forall w :: 0 <= w < |s.workers| && s.workers[w].Reading? && s.workers[w].snapshot.Some? ==>
      var r := s.workers[w].snapshot.value;
      s.global == Some(r) || (IsStale(s, r) && (s.writer.Waiting? ==> w in s.writer.pending))
  }

  /** A busy worker uses a queue that its snapshot gives its lcore. */
  ghost predicate BusyListed(s: State) {
    forall w :: 0 <= w < |s.workers| && s.workers[w].Reading? && s.workers[w].busy.Some? ==>
      && w < RTE_MAX_LCORE && s.workers[w].snapshot.Some? && s.workers[w].snapshot.value < |s.ribs|
      && s.workers[w].busy.value in QueueLists(s.ribs[s.workers[w].snapshot.value])[w]
  }

  /** The contents still to be seen by anyone, oldest first: replaced, global, to be published. */
  function Chain(s: State): seq<nat> {
    (if s.writer.Published? || s.writer.Waiting? then [s.writer.stale] else [])
    + (if s.global.Some? then [s.global.value] else [])
    + NextOf(s.writer)
  }

  ghost predicate ChainOk(s: State, lcoreCount: nat)
    requires lcoreCount <= RTE_MAX_LCORE
  {
    && (forall k :: 0 <= k < |Chain(s)| ==> RibOk(s, Chain(s)[k], lcoreCount))
    && (forall k :: 0 <= k && k + 1 < |Chain(s)| ==> NoSharing(s, Chain(s)[k], Chain(s)[k + 1]))
  }

  /** A sound rib all of whose queues have their rings. */
  ghost predicate RibOk(s: State, r: nat, lcoreCount: nat)
    requires lcoreCount <= RTE_MAX_LCORE
  {
    r < |s.ribs| && Sound(s.ribs[r], lcoreCount) && forall pq :: pq in Listed(QueueLists(s.ribs[r])) ==> pq in s.rings
  }

  ghost predicate NoSharing(s: State, a: nat, b: nat) {
    a < |s.ribs| && b < |s.ribs| && Compatible(QueueLists(s.ribs[a]), QueueLists(s.ribs[b]))
  }

  /** The newest content is the fold of all messages received so far. */
  ghost predicate Folded(s: State, lcoreCount: nat)
    requires lcoreCount <= RTE_MAX_LCORE
  {
    var c := Chain(s);
    Fold(None, s.history, lcoreCount) ==
      if c == [] then None else if c[|c| - 1] < |s.ribs| then s.ribs[c[|c| - 1]] else None
  }

  ghost predicate Inv(s: State, lcoreCount: nat) {
    && lcoreCount <= RTE_MAX_LCORE && |s.workers| <= RTE_MAX_LCORE
    && (s.writer.Publishing? ==> s.writer.next != [])
    && (s.writer.Published? || s.writer.Waiting? ==> s.global.Some?)
    && Conserved(s)
    && ReadersHeld(s)
    && BusyListed(s)
    && ChainOk(s, lcoreCount)
    && Folded(s, lcoreCount)
  }

  // ---------------------------------------------------------------- what a run guarantees

  /** Two different workers never use the same (port, queue) at the same time. */
  ghost predicate OneUserPerQueue(s: State) {
    forall v, w :: 0 <= v < w < |s.workers| && Uses(s, v) && Uses(s, w) ==>
      s.workers[v].busy != s.workers[w].busy
  }

  predicate Uses(s: State, w: nat) {
    w < |s.workers| && s.workers[w].Reading? && s.workers[w].busy.Some?
  }

  /** Two workers' snapshots never even allow them to use the same (port, queue). */
  ghost predicate SnapshotsDisjoint(s: State) {
    forall v, w, pq :: MayUse(s, v, pq) && MayUse(s, w, pq) ==> v == w
  }

  predicate MayUse(s: State, w: nat, pq: PortQueue) {
    && w < |s.workers| && w < RTE_MAX_LCORE && s.workers[w].Reading?
    && s.workers[w].snapshot.Some? && s.workers[w].snapshot.value < |s.ribs|
    && pq in QueueLists(s.ribs[s.workers[w].snapshot.value])[w]
  }

  ghost predicate NoReclaimedInUse(s: State) {
    forall w :: 0 <= w < |s.workers| && s.workers[w].Reading? && s.workers[w].snapshot.Some?
      ==> s.workers[w].snapshot.value !in s.reclaimed
  }

  ghost predicate ReclaimedOnce(s: State) {
    forall i, j :: 0 <= i < j < |s.reclaimed| ==> s.reclaimed[i] != s.reclaimed[j]
  }

  /** Every queue some snapshot lists has its pair of rings. */
  ghost predicate RingsExist(s: State) {
    forall w, pq :: MayUse(s, w, pq) ==> pq in s.rings
  }

  ghost predicate Safe(s: State, lcoreCount: nat) {
    && OneUserPerQueue(s) && SnapshotsDisjoint(s)
    && NoReclaimedInUse(s) && ReclaimedOnce(s) && Conserved(s)
    && RingsExist(s)
    && (lcoreCount <= RTE_MAX_LCORE && s.writer.Idle? ==> View(s) == Fold(None, s.history, lcoreCount))
  }

  lemma ChainMembers(s: State, lcoreCount: nat, r: nat)
    requires Inv(s, lcoreCount) && (s.global == Some(r) || IsStale(s, r))
    ensures RibOk(s, r, lcoreCount)
    ensures s.global.Some? && IsStale(s, r) ==> NoSharing(s, r, s.global.value)
  {
    var c := Chain(s);
    if IsStale(s, r) {
      assert c[0] == r;
      if s.global.Some? {
        assert c[0 + 1] == s.global.value;
      }
    } else if s.writer.Published? || s.writer.Waiting? {
      assert c[1] == r;
    } else {
      assert c[0] == r;
    }
  }

  lemma ReadersCompatible(s: State, lcoreCount: nat, v: nat, w: nat, pq: PortQueue)
    requires Inv(s, lcoreCount) && MayUse(s, v, pq) && MayUse(s, w, pq)
    ensures v == w && pq in s.rings
  {
    var a, b := s.workers[v].snapshot.value, s.workers[w].snapshot.value;
    ChainMembers(s, lcoreCount, a);
    ChainMembers(s, lcoreCount, b);
    var la, lb := QueueLists(s.ribs[a]), QueueLists(s.ribs[b]);
    ListedHolds(la, v, pq);
    SoundIsExclusive(s.ribs[a], lcoreCount);
    assert a == b || IsStale(s, a) || IsStale(s, b);
    assert Compatible(la, lb) || Compatible(lb, la);
  }

  lemma InvIsSafe(s: State, lcoreCount: nat)
    requires Inv(s, lcoreCount)
    ensures Safe(s, lcoreCount)
  {
    forall v, w, pq | MayUse(s, v, pq) && MayUse(s, w, pq) ensures v == w && pq in s.rings {
      ReadersCompatible(s, lcoreCount, v, w, pq);
    }
    forall v, w | 0 <= v < w < |s.workers| && Uses(s, v) && Uses(s, w)
      ensures s.workers[v].busy != s.workers[w].busy
    {
      assert MayUse(s, v, s.workers[v].busy.value) && MayUse(s, w, s.workers[w].busy.value);
    }
    forall w | 0 <= w < |s.workers| && s.workers[w].Reading? && s.workers[w].snapshot.Some?
      ensures s.workers[w].snapshot.value !in s.reclaimed
    {
      var r := s.workers[w].snapshot.value;
      assert Places(s, r) <= 1;
    }
    forall i, j | 0 <= i < j < |s.reclaimed| ensures s.reclaimed[i] != s.reclaimed[j] {
      var r := s.reclaimed[j];
      assert Places(s, r) <= 1;
      assert s.reclaimed == s.reclaimed[..j] + s.reclaimed[j..];
      assert r in s.reclaimed[j..];
      assert s.reclaimed[i] in s.reclaimed[..j];
    }
    if s.writer.Idle? && s.global.Some? {
      ChainMembers(s, lcoreCount, s.global.value);
      assert Chain(s) == [s.global.value];
    }
  }

  // ---------------------------------------------------------------- preservation

  lemma InitInv(workerCount: nat, lcoreCount: nat)
    requires workerCount <= RTE_MAX_LCORE && lcoreCount <= RTE_MAX_LCORE
    ensures Inv(Init(workerCount), lcoreCount)
  {
  }

  /**
   * Without its zero rib a queue change publishes the new table beside the old one; that is
   * harmless only if no queue goes from one lcore to another.
   */
  ghost predicate Buffered(s: State, e: Event, lcoreCount: nat)
    requires lcoreCount <= RTE_MAX_LCORE
  {
    e.Receive? && e.msg.Qconf? && !e.zeroAllocated && Apply(View(s), e.msg, lcoreCount).Some? ==>
      Compatible(QueueLists(View(s)), QueueLists(Apply(View(s), e.msg, lcoreCount)))
  }

  /** Workers only move themselves: the chain stays as it is. */
  lemma WorkerStepKeepsChain(s: State, t: State, lcoreCount: nat)
    requires lcoreCount <= RTE_MAX_LCORE && ChainOk(s, lcoreCount) && Folded(s, lcoreCount)
    requires Chain(t) == Chain(s) && t.ribs == s.ribs && t.rings == s.rings && t.history == s.history
    ensures ChainOk(t, lcoreCount) && Folded(t, lcoreCount)
  {
    forall k | 0 <= k < |Chain(t)| ensures RibOk(t, Chain(t)[k], lcoreCount) {
      assert RibOk(s, Chain(s)[k], lcoreCount);
    }
    forall k | 0 <= k && k + 1 < |Chain(t)| ensures NoSharing(t, Chain(t)[k], Chain(t)[k + 1]) {
      assert NoSharing(s, Chain(s)[k], Chain(s)[k + 1]);
    }
  }

  lemma SamePlaces(s: State, t: State)
    requires Conserved(s) && |t.ribs| == |s.ribs| && forall r: nat :: Places(t, r) == Places(s, r)
    ensures Conserved(t)
  {
    forall r: nat ensures Places(t, r) == One(r < |t.ribs|) {
      assert Places(s, r) == One(r < |s.ribs|);
    }
  }

  lemma MovesKeepReaders(s: State, e: Event, lcoreCount: nat)
    requires Inv(s, lcoreCount) && Enabled(s, e)
    requires e.Register? || e.Dereference? || e.Quiesce? || e.Unregister?
    ensures ReadersHeld(After(s, e, lcoreCount)) && BusyListed(After(s, e, lcoreCount))
  {
  }

  lemma PollsKeepReaders(s: State, e: Event, lcoreCount: nat)
    requires Inv(s, lcoreCount) && Enabled(s, e)
    requires e.StartPoll? || e.EndPoll?
    ensures ReadersHeld(After(s, e, lcoreCount)) && BusyListed(After(s, e, lcoreCount))
  {
  }

  lemma WorkerKeepsPlaces(s: State, e: Event, lcoreCount: nat)
    requires lcoreCount <= RTE_MAX_LCORE && Conserved(s) && Enabled(s, e)
    requires e.Register? || e.Dereference? || e.StartPoll? || e.EndPoll? || e.Quiesce? || e.Unregister?
    ensures Conserved(After(s, e, lcoreCount)) && Chain(After(s, e, lcoreCount)) == Chain(s)
  {
    var t := After(s, e, lcoreCount);
    assert NextOf(t.writer) == NextOf(s.writer);
    SamePlaces(s, t);
  }

  lemma WorkerKeepsInv(s: State, e: Event, lcoreCount: nat)
    requires Inv(s, lcoreCount) && Enabled(s, e)
    requires e.Register? || e.Dereference? || e.StartPoll? || e.EndPoll? || e.Quiesce? || e.Unregister?
    ensures Inv(After(s, e, lcoreCount), lcoreCount)
  {
    if e.StartPoll? || e.EndPoll? {
      PollsKeepReaders(s, e, lcoreCount);
    } else {
      MovesKeepReaders(s, e, lcoreCount);
    }
    WorkerKeepsPlaces(s, e, lcoreCount);
    WorkerStepKeepsChain(s, After(s, e, lcoreCount), lcoreCount);
  }

  lemma AssignKeepsPlaces(s: State, lcoreCount: nat)
    requires lcoreCount <= RTE_MAX_LCORE && Conserved(s) && Enabled(s, Assign)
    ensures Conserved(After(s, Assign, lcoreCount))
  {
    var t := After(s, Assign, lcoreCount);
    assert s.writer.next == [s.writer.next[0]] + NextOf(t.writer);
    SamePlaces(s, t);
  }

  lemma AssignKeepsReaders(s: State, lcoreCount: nat)
    requires Inv(s, lcoreCount) && Enabled(s, Assign)
    ensures ReadersHeld(After(s, Assign, lcoreCount)) && BusyListed(After(s, Assign, lcoreCount))
  {
  }

  lemma AssignKeepsInv(s: State, lcoreCount: nat)
    requires Inv(s, lcoreCount) && Enabled(s, Assign)
    ensures Inv(After(s, Assign, lcoreCount), lcoreCount)
  {
    AssignKeepsPlaces(s, lcoreCount);
    AssignKeepsReaders(s, lcoreCount);
    AssignKeepsChain(s, lcoreCount);
  }

  lemma AssignChain(s: State, lcoreCount: nat)
    requires lcoreCount <= RTE_MAX_LCORE && Enabled(s, Assign)
    ensures Chain(After(s, Assign, lcoreCount)) == Chain(s)
  {
    assert s.writer.next == [s.writer.next[0]] + s.writer.next[1..];
  }

  lemma AssignKeepsChain(s: State, lcoreCount: nat)
    requires Inv(s, lcoreCount) && Enabled(s, Assign)
    ensures ChainOk(After(s, Assign, lcoreCount), lcoreCount) && Folded(After(s, Assign, lcoreCount), lcoreCount)
  {
    AssignChain(s, lcoreCount);
    WorkerStepKeepsChain(s, After(s, Assign, lcoreCount), lcoreCount);
  }

  lemma BeginGraceKeepsInv(s: State, lcoreCount: nat)
    requires Inv(s, lcoreCount) && Enabled(s, BeginGrace)
    ensures Inv(After(s, BeginGrace, lcoreCount), lcoreCount)
  {
    var t := After(s, BeginGrace, lcoreCount);
    assert Chain(t) == Chain(s);
    WorkerStepKeepsChain(s, t, lcoreCount);
    SamePlaces(s, t);
  }

  /** Dropping the oldest content keeps the chain. */
  lemma ChainTail(s: State, t: State, r: nat, lcoreCount: nat)
    requires lcoreCount <= RTE_MAX_LCORE && ChainOk(s, lcoreCount) && Chain(s) == [r] + Chain(t)
    requires t.ribs == s.ribs && t.rings == s.rings
    ensures ChainOk(t, lcoreCount)
  {
    forall k | 0 <= k < |Chain(t)| ensures RibOk(t, Chain(t)[k], lcoreCount) {
      assert RibOk(s, Chain(s)[k + 1], lcoreCount);
    }
    forall k | 0 <= k && k + 1 < |Chain(t)| ensures NoSharing(t, Chain(t)[k], Chain(t)[k + 1]) {
      assert NoSharing(s, Chain(s)[k + 1], Chain(s)[k + 1 + 1]);
    }
  }

  lemma EndGraceKeepsChain(s: State, lcoreCount: nat)
    requires Inv(s, lcoreCount) && Enabled(s, EndGrace)
    ensures ChainOk(After(s, EndGrace, lcoreCount), lcoreCount) && Folded(After(s, EndGrace, lcoreCount), lcoreCount)
  {
    var t := After(s, EndGrace, lcoreCount);
    assert Chain(s) == [s.writer.stale] + Chain(t);
    ChainTail(s, t, s.writer.stale, lcoreCount);
    assert Chain(t)[|Chain(t)| - 1] == Chain(s)[|Chain(s)| - 1];
  }

  lemma EndGraceKeepsInv(s: State, lcoreCount: nat)
    requires Inv(s, lcoreCount) && Enabled(s, EndGrace)
    ensures Inv(After(s, EndGrace, lcoreCount), lcoreCount)
  {
    var t := After(s, EndGrace, lcoreCount);
    EndGraceKeepsChain(s, lcoreCount);
    SamePlaces(s, t);
  }

  lemma FoldSnoc(msgs: seq<Msg>, msg: Msg, lcoreCount: nat)
    requires lcoreCount <= RTE_MAX_LCORE
    ensures var before, after := Fold(None, msgs, lcoreCount), Apply(Fold(None, msgs, lcoreCount), msg, lcoreCount);
      Fold(None, msgs + [msg], lcoreCount) == if after.None? then before else after
  {
    assert (msgs + [msg])[..|msgs|] == msgs;
  }

  lemma IdleChain(s: State, lcoreCount: nat)
    requires Inv(s, lcoreCount) && s.writer.Idle?
    ensures Chain(s) == if s.global.Some? then [s.global.value] else []
    ensures View(s) == Fold(None, s.history, lcoreCount) && Sound(View(s), lcoreCount)
    ensures forall pq :: pq in Listed(QueueLists(View(s))) ==> pq in s.rings
  {
    if s.global.Some? {
      ChainMembers(s, lcoreCount, s.global.value);
    } else {
      EmptyIsSound(lcoreCount);
      ListedEmpty(QueueLists(None));
    }
  }

  lemma NewRibOk(s: State, e: Event, lcoreCount: nat)
    requires Inv(s, lcoreCount) && Enabled(s, e) && e.Receive?
    requires Apply(View(s), e.msg, lcoreCount).Some?
    ensures RibOk(After(s, e, lcoreCount), |s.ribs|, lcoreCount)
  {
    var next := Apply(View(s), e.msg, lcoreCount);
    IdleChain(s, lcoreCount);
    ApplyKeepsSound(View(s), e.msg, lcoreCount);
    if !e.msg.Qconf? {
      assert QueueLists(next) == QueueLists(View(s));
    }
  }

  lemma OldRibOk(s: State, e: Event, lcoreCount: nat)
    requires Inv(s, lcoreCount) && Enabled(s, e) && e.Receive? && s.global.Some?
    ensures RibOk(After(s, e, lcoreCount), s.global.value, lcoreCount)
    ensures After(s, e, lcoreCount).ribs[s.global.value] == View(s)
  {
    ChainMembers(s, lcoreCount, s.global.value);
  }

  lemma ZeroRibOk(t: State, z: nat, r: nat, lcoreCount: nat)
    requires lcoreCount <= RTE_MAX_LCORE && z < |t.ribs| && r < |t.ribs| && t.ribs[z] == None
    ensures RibOk(t, z, lcoreCount) && NoSharing(t, z, r) && NoSharing(t, r, z)
  {
    EmptyIsSound(lcoreCount);
    ListedEmpty(QueueLists(None));
  }

  lemma OldAndNewRib(s: State, e: Event, lcoreCount: nat)
    requires Inv(s, lcoreCount) && Enabled(s, e) && e.Receive? && Buffered(s, e, lcoreCount)
    requires Apply(View(s), e.msg, lcoreCount).Some? && s.global.Some?
    requires e.msg.Qconf? ==> !e.zeroAllocated
    ensures NoSharing(After(s, e, lcoreCount), s.global.value, |s.ribs|)
  {
    OldRibOk(s, e, lcoreCount);
    SoundIsExclusive(View(s), lcoreCount);
    var next := Apply(View(s), e.msg, lcoreCount);
    if !e.msg.Qconf? {
      assert QueueLists(next) == QueueLists(View(s));
    }
  }

  lemma ChainFrom(t: State, head: Option<nat>, next: seq<nat>, lcoreCount: nat)
    requires lcoreCount <= RTE_MAX_LCORE && next != []
    requires Chain(t) == (if head.Some? then [head.value] else []) + next
    requires head.Some? ==> RibOk(t, head.value, lcoreCount) && NoSharing(t, head.value, next[0])
    requires forall k :: 0 <= k < |next| ==> RibOk(t, next[k], lcoreCount)
    requires forall k :: 0 <= k && k + 1 < |next| ==> NoSharing(t, next[k], next[k + 1])
    ensures ChainOk(t, lcoreCount)
  {
    if head.Some? {
      forall k | 0 <= k < |Chain(t)| ensures RibOk(t, Chain(t)[k], lcoreCount) {
        assert k > 0 ==> Chain(t)[k] == next[k - 1];
      }
      forall k | 0 <= k && k + 1 < |Chain(t)| ensures NoSharing(t, Chain(t)[k], Chain(t)[k + 1]) {
        assert k > 0 ==> NoSharing(t, next[k - 1], next[k - 1 + 1]);
      }
    } else {
      assert Chain(t) == next;
    }
  }

  lemma ReceiveNext(s: State, e: Event, lcoreCount: nat)
    requires lcoreCount <= RTE_MAX_LCORE && Enabled(s, e) && e.Receive? && Apply(View(s), e.msg, lcoreCount).Some?
    ensures var t, id := After(s, e, lcoreCount), |s.ribs|;
      if e.msg.Qconf? && e.zeroAllocated
      then t.writer == Publishing([id + 1, id]) && |t.ribs| == id + 2 && t.ribs[id + 1] == None
      else t.writer == Publishing([id])
  {
  }

  lemma ReceiveShape(s: State, e: Event, lcoreCount: nat)
    requires lcoreCount <= RTE_MAX_LCORE && Enabled(s, e) && e.Receive? && Apply(View(s), e.msg, lcoreCount).Some?
    ensures var t := After(s, e, lcoreCount);
      var withZero := e.msg.Qconf? && e.zeroAllocated;
      && Chain(t) == (if s.global.Some? then [s.global.value] else [])
                     + (if withZero then [|s.ribs| + 1, |s.ribs|] else [|s.ribs|])
      && (withZero ==> |t.ribs| == |s.ribs| + 2 && t.ribs[|s.ribs| + 1] == None)
  {
    ReceiveNext(s, e, lcoreCount);
    PublishingChain(After(s, e, lcoreCount));
  }

  lemma PublishingChain(t: State)
    requires t.writer.Publishing?
    ensures Chain(t) == (if t.global.Some? then [t.global.value] else []) + t.writer.next
  {
  }

  lemma BufferedKeepsChain(t: State, head: Option<nat>, id: nat, lcoreCount: nat)
    requires lcoreCount <= RTE_MAX_LCORE && RibOk(t, id, lcoreCount)
    requires Chain(t) == (if head.Some? then [head.value] else []) + [id + 1, id]
    requires head.Some? ==> RibOk(t, head.value, lcoreCount)
    requires id + 1 < |t.ribs| && t.ribs[id + 1] == None
    ensures ChainOk(t, lcoreCount)
  {
    ZeroRibOk(t, id + 1, id, lcoreCount);
    if head.Some? {
      ZeroRibOk(t, id + 1, head.value, lcoreCount);
    }
    ChainFrom(t, head, [id + 1, id], lcoreCount);
  }

  lemma WithZeroContents(s: State, e: Event, lcoreCount: nat)
    requires Inv(s, lcoreCount) && Enabled(s, e) && e.Receive?
    requires Apply(View(s), e.msg, lcoreCount).Some?
    ensures RibOk(After(s, e, lcoreCount), |s.ribs|, lcoreCount)
    ensures s.global.Some? ==> RibOk(After(s, e, lcoreCount), s.global.value, lcoreCount)
  {
    NewRibOk(s, e, lcoreCount);
    if s.global.Some? {
      OldRibOk(s, e, lcoreCount);
    }
  }

  lemma ReceiveWithZeroKeepsChain(s: State, e: Event, lcoreCount: nat)
    requires Inv(s, lcoreCount) && Enabled(s, e) && e.Receive?
    requires Apply(View(s), e.msg, lcoreCount).Some?
    requires e.msg.Qconf? && e.zeroAllocated
    ensures ChainOk(After(s, e, lcoreCount), lcoreCount)
  {
    WithZeroContents(s, e, lcoreCount);
    WithZeroChain(s, e, lcoreCount);
  }

  lemma WithZeroChain(s: State, e: Event, lcoreCount: nat)
    requires lcoreCount <= RTE_MAX_LCORE && Enabled(s, e) && e.Receive? && e.msg.Qconf? && e.zeroAllocated
    requires Apply(View(s), e.msg, lcoreCount).Some?
    requires RibOk(After(s, e, lcoreCount), |s.ribs|, lcoreCount)
    requires s.global.Some? ==> RibOk(After(s, e, lcoreCount), s.global.value, lcoreCount)
    ensures ChainOk(After(s, e, lcoreCount), lcoreCount)
  {
    ReceiveShape(s, e, lcoreCount);
    BufferedKeepsChain(After(s, e, lcoreCount), s.global, |s.ribs|, lcoreCount);
  }

  lemma ReceiveDirectlyKeepsChain(s: State, e: Event, lcoreCount: nat)
    requires Inv(s, lcoreCount) && Enabled(s, e) && e.Receive? && Buffered(s, e, lcoreCount)
    requires Apply(View(s), e.msg, lcoreCount).Some?
    requires e.msg.Qconf? ==> !e.zeroAllocated
    ensures ChainOk(After(s, e, lcoreCount), lcoreCount)
  {
    NewRibOk(s, e, lcoreCount);
    ReceiveShape(s, e, lcoreCount);
    if s.global.Some? {
      OldRibOk(s, e, lcoreCount);
      OldAndNewRib(s, e, lcoreCount);
    }
    ChainFrom(After(s, e, lcoreCount), s.global, [|s.ribs|], lcoreCount);
  }

  /** The newly published contents: sound, ringed, and free of sharing with their predecessor. */
  lemma ReceiveKeepsChain(s: State, e: Event, lcoreCount: nat)
    requires Inv(s, lcoreCount) && Enabled(s, e) && e.Receive? && Buffered(s, e, lcoreCount)
    requires Apply(View(s), e.msg, lcoreCount).Some?
    ensures ChainOk(After(s, e, lcoreCount), lcoreCount)
  {
    if e.msg.Qconf? && e.zeroAllocated {
      ReceiveWithZeroKeepsChain(s, e, lcoreCount);
    } else {
      ReceiveDirectlyKeepsChain(s, e, lcoreCount);
    }
  }

  lemma ReceiveKeepsPlaces(s: State, e: Event, lcoreCount: nat)
    requires lcoreCount <= RTE_MAX_LCORE && Conserved(s) && Enabled(s, e) && e.Receive?
    ensures Conserved(After(s, e, lcoreCount))
  {
    var t := After(s, e, lcoreCount);
    if Apply(View(s), e.msg, lcoreCount).None? {
      SamePlaces(s, t);
    } else {
      NewPlaces(s, t, |t.ribs| - |s.ribs|);
    }
  }

  lemma NewPlaces(s: State, t: State, count: nat)
    requires Conserved(s) && s.writer.Idle? && t.writer.Publishing?
    requires t.reclaimed == s.reclaimed && t.global == s.global && |t.ribs| == |s.ribs| + count
    requires (count == 1 && t.writer.next == [|s.ribs|]) || (count == 2 && t.writer.next == [|s.ribs| + 1, |s.ribs|])
    ensures Conserved(t)
  {
    forall r: nat ensures Places(t, r) == One(r < |t.ribs|) {
      assert Places(s, r) == One(r < |s.ribs|);
    }
  }

  lemma ReceiveKeepsReaders(s: State, e: Event, lcoreCount: nat)
    requires Inv(s, lcoreCount) && Enabled(s, e) && e.Receive?
    ensures ReadersHeld(After(s, e, lcoreCount)) && BusyListed(After(s, e, lcoreCount))
  {
  }

  lemma NewestFolded(t: State, msgs: seq<Msg>, msg: Msg, id: nat, lcoreCount: nat)
    requires lcoreCount <= RTE_MAX_LCORE && t.history == msgs + [msg]
    requires Chain(t) != [] && Chain(t)[|Chain(t)| - 1] == id && id < |t.ribs|
    requires t.ribs[id].Some? && t.ribs[id] == Apply(Fold(None, msgs, lcoreCount), msg, lcoreCount)
    ensures Folded(t, lcoreCount)
  {
    FoldSnoc(msgs, msg, lcoreCount);
  }

  lemma AcceptedKeepsFold(s: State, e: Event, lcoreCount: nat)
    requires Inv(s, lcoreCount) && Enabled(s, e) && e.Receive? && Apply(View(s), e.msg, lcoreCount).Some?
    ensures Folded(After(s, e, lcoreCount), lcoreCount)
  {
    IdleChain(s, lcoreCount);
    ReceiveShape(s, e, lcoreCount);
    NewestFolded(After(s, e, lcoreCount), s.history, e.msg, |s.ribs|, lcoreCount);
  }

  lemma RejectedKeepsFold(s: State, e: Event, lcoreCount: nat)
    requires Inv(s, lcoreCount) && Enabled(s, e) && e.Receive? && Apply(View(s), e.msg, lcoreCount).None?
    ensures Folded(After(s, e, lcoreCount), lcoreCount)
  {
    IdleChain(s, lcoreCount);
    FoldSnoc(s.history, e.msg, lcoreCount);
    assert Chain(After(s, e, lcoreCount)) == Chain(s);
  }

  lemma ReceiveKeepsInv(s: State, e: Event, lcoreCount: nat)
    requires Inv(s, lcoreCount) && Enabled(s, e) && e.Receive? && Buffered(s, e, lcoreCount)
    ensures Inv(After(s, e, lcoreCount), lcoreCount)
  {
    ReceiveKeepsPlaces(s, e, lcoreCount);
    ReceiveKeepsReaders(s, e, lcoreCount);
    if Apply(View(s), e.msg, lcoreCount).Some? {
      AcceptedKeepsFold(s, e, lcoreCount);
      ReceiveKeepsChain(s, e, lcoreCount);
    } else {
      RejectedKeepsFold(s, e, lcoreCount);
      RejectedKeepsChain(s, e, lcoreCount);
    }
  }

  lemma RejectedKeepsChain(s: State, e: Event, lcoreCount: nat)
    requires Inv(s, lcoreCount) && Enabled(s, e) && e.Receive?
    requires Apply(View(s), e.msg, lcoreCount).None?
    ensures ChainOk(After(s, e, lcoreCount), lcoreCount)
  {
    var t := After(s, e, lcoreCount);
    assert Chain(t) == Chain(s);
    forall k | 0 <= k < |Chain(t)| ensures RibOk(t, Chain(t)[k], lcoreCount) {
      assert RibOk(s, Chain(s)[k], lcoreCount);
    }
    forall k | 0 <= k && k + 1 < |Chain(t)| ensures NoSharing(t, Chain(t)[k], Chain(t)[k + 1]) {
      assert NoSharing(s, Chain(s)[k], Chain(s)[k + 1]);
    }
  }

  /** The invariant is kept by every step whose queue changes are buffered. */
  lemma StepKeepsInv(s: State, e: Event, lcoreCount: nat)
    requires Inv(s, lcoreCount) && Enabled(s, e) && Buffered(s, e, lcoreCount)
    ensures Inv(After(s, e, lcoreCount), lcoreCount)
  {
    match e {
      case Receive(_, _) => ReceiveKeepsInv(s, e, lcoreCount);
      case Assign => AssignKeepsInv(s, lcoreCount);
      case BeginGrace => BeginGraceKeepsInv(s, lcoreCount);
      case EndGrace => EndGraceKeepsInv(s, lcoreCount);
      case _ => WorkerKeepsInv(s, e, lcoreCount);
    }
  }

  // ---------------------------------------------------------------- runs

  /** The state after the events, or None if one of them was not enabled. */
  ghost function Run(s: State, events: seq<Event>, lcoreCount: nat): Option<State>
    requires lcoreCount <= RTE_MAX_LCORE
    decreases |events|
  {
    if events == [] then Some(s)
    else if !Enabled(s, events[0]) then None
    else Run(After(s, events[0], lcoreCount), events[1..], lcoreCount)
  }

  /** Every queue change of the run got its zero rib, or moved no queue between lcores. */
  ghost predicate BufferedRun(s: State, events: seq<Event>, lcoreCount: nat)
    requires lcoreCount <= RTE_MAX_LCORE
    decreases |events|
  {
    events != [] && Enabled(s, events[0]) ==>
      Buffered(s, events[0], lcoreCount) && BufferedRun(After(s, events[0], lcoreCount), events[1..], lcoreCount)
  }

  lemma {:induction false} RunKeepsInv(s: State, events: seq<Event>, lcoreCount: nat)
    requires Inv(s, lcoreCount) && BufferedRun(s, events, lcoreCount)
    requires Run(s, events, lcoreCount).Some?
    ensures Inv(Run(s, events, lcoreCount).value, lcoreCount)
    decreases |events|
  {
    if events != [] {
      StepKeepsInv(s, events[0], lcoreCount);
      RunKeepsInv(After(s, events[0], lcoreCount), events[1..], lcoreCount);
    }
  }

  /**
   * Safety of every interleaving: after any finite sequence of writer and worker steps, with any
   * messages and any number of workers, no two workers share a queue or its rings, no worker's
   * snapshot is reclaimed, no rib is reclaimed twice or lost, every listed queue has its rings,
   * and an idle writer's published rib is the fold of the accepted messages.
   */
  lemma EveryRunIsSafe(workerCount: nat, events: seq<Event>, lcoreCount: nat)
    requires workerCount <= RTE_MAX_LCORE && lcoreCount <= RTE_MAX_LCORE
    requires Run(Init(workerCount), events, lcoreCount).Some?
    requires BufferedRun(Init(workerCount), events, lcoreCount)
    ensures Safe(Run(Init(workerCount), events, lcoreCount).value, lcoreCount)
  {
    InitInv(workerCount, lcoreCount);
    RunKeepsInv(Init(workerCount), events, lcoreCount);
    InvIsSafe(Run(Init(workerCount), events, lcoreCount).value, lcoreCount);
  }

  /** Only its own quiescent state ends a worker's hold on a snapshot. */
  lemma HoldsUntilQuiescent(s: State, e: Event, lcoreCount: nat, w: nat, r: nat)
    requires lcoreCount <= RTE_MAX_LCORE && Enabled(s, e) && e != Quiesce(w)
    requires w < |s.workers| && s.workers[w].Reading? && s.workers[w].snapshot == Some(r)
    ensures var t := After(s, e, lcoreCount);
      w < |t.workers| && t.workers[w].Reading? && t.workers[w].snapshot == Some(r)
  {
  }

  /**
   * A rib a worker holds is reclaimed only after that worker passed a quiescent state: on every
   * path from a state where w holds r to one where r is reclaimed, w reports quiescence.
   */
  lemma {:induction false} ReclaimNeedsQuiescence(s: State, events: seq<Event>, lcoreCount: nat, w: nat, r: nat)
    requires Inv(s, lcoreCount) && BufferedRun(s, events, lcoreCount)
    requires Run(s, events, lcoreCount).Some?
    requires w < |s.workers| && s.workers[w].Reading? && s.workers[w].snapshot == Some(r)
    requires r in Run(s, events, lcoreCount).value.reclaimed
    ensures Quiesce(w) in events
    decreases |events|
  {
    InvIsSafe(s, lcoreCount);
    if events[0] != Quiesce(w) {
      StepKeepsInv(s, events[0], lcoreCount);
      HoldsUntilQuiescent(s, events[0], lcoreCount, w, r);
      ReclaimNeedsQuiescence(After(s, events[0], lcoreCount), events[1..], lcoreCount, w, r);
    }
  }

  lemma RunStep(s: State, e: Event, rest: seq<Event>, lcoreCount: nat)
    requires lcoreCount <= RTE_MAX_LCORE && Enabled(s, e)
    ensures Run(s, [e] + rest, lcoreCount) == Run(After(s, e, lcoreCount), rest, lcoreCount)
  {
    assert ([e] + rest)[1..] == rest;
  }

  lemma TwoPollers(s: State, lcoreCount: nat, a: nat, b: nat, x: nat, y: nat, pq: PortQueue)
    requires lcoreCount <= RTE_MAX_LCORE && a < |s.workers| <= RTE_MAX_LCORE && b < |s.workers| && a != b
    requires s.workers[a] == Reading(Some(x), None) && s.workers[b].Online?
    requires x < |s.ribs| && y < |s.ribs| && s.global == Some(y)
    requires pq in QueueLists(s.ribs[x])[a] && pq in QueueLists(s.ribs[y])[b]
    ensures var end := Run(s, [Dereference(b), StartPoll(a, pq), StartPoll(b, pq)], lcoreCount);
      end.Some? && !OneUserPerQueue(end.value)
  {
    var s1 := After(s, Dereference(b), lcoreCount);
    var s2 := After(s1, StartPoll(a, pq), lcoreCount);
    var s3 := After(s2, StartPoll(b, pq), lcoreCount);
    RunStep(s2, StartPoll(b, pq), [], lcoreCount);
    RunStep(s1, StartPoll(a, pq), [StartPoll(b, pq)], lcoreCount);
    RunStep(s, Dereference(b), [StartPoll(a, pq), StartPoll(b, pq)], lcoreCount);
    assert [Dereference(b)] + [StartPoll(a, pq), StartPoll(b, pq)]
      == [Dereference(b), StartPoll(a, pq), StartPoll(b, pq)];
    assert [StartPoll(a, pq)] + [StartPoll(b, pq)] == [StartPoll(a, pq), StartPoll(b, pq)];
    assert [StartPoll(b, pq)] + [] == [StartPoll(b, pq)];
    assert Uses(s3, if a < b then a else b) && Uses(s3, if a < b then b else a);
  }

  lemma RunThree(s: State, e: Event, f: Event, g: Event, rest: seq<Event>, lcoreCount: nat)
    requires lcoreCount <= RTE_MAX_LCORE && Enabled(s, e) && Enabled(After(s, e, lcoreCount), f)
    requires Enabled(After(After(s, e, lcoreCount), f, lcoreCount), g)
    ensures Run(s, [e] + ([f] + ([g] + rest)), lcoreCount)
         == Run(After(After(After(s, e, lcoreCount), f, lcoreCount), g, lcoreCount), rest, lcoreCount)
  {
    var s1 := After(s, e, lcoreCount);
    RunStep(s, e, [f] + ([g] + rest), lcoreCount);
    RunStep(s1, f, [g] + rest, lcoreCount);
    RunStep(After(s1, f, lcoreCount), g, rest, lcoreCount);
  }

  /**
   * Why the zero rib is needed: if its allocation fails and the accepted table gives a queue of
   * lcore a to lcore b, some interleaving has both workers on that queue at once.
   */
  lemma UnbufferedMoveIsUnsafe(s: State, table: QTable, lcoreCount: nat, a: nat, b: nat, pq: PortQueue)
    returns (events: seq<Event>)
    requires Inv(s, lcoreCount) && s.writer.Idle? && s.global.Some?
    requires a < |s.workers| && b < |s.workers| && a != b && s.workers[a].Online? && s.workers[b].Online?
    requires Apply(View(s), Qconf(table), lcoreCount).Some?
    requires pq in QueueLists(View(s))[a]
    requires pq in QueueLists(Apply(View(s), Qconf(table), lcoreCount))[b]
    ensures Receive(Qconf(table), false) in events
    ensures Run(s, events, lcoreCount).Some? && !OneUserPerQueue(Run(s, events, lcoreCount).value)
  {
    ChainMembers(s, lcoreCount, s.global.value);
    var receive := Receive(Qconf(table), false);
    var s1 := After(s, Dereference(a), lcoreCount);
    var s2 := After(s1, receive, lcoreCount);
    TwoPollers(After(s2, Assign, lcoreCount), lcoreCount, a, b, s.global.value, |s.ribs|, pq);
    var tail := [Dereference(b), StartPoll(a, pq), StartPoll(b, pq)];
    RunThree(s, Dereference(a), receive, Assign, tail, lcoreCount);
    events := [Dereference(a)] + ([receive] + ([Assign] + tail));
    assert events[1] == receive;
  }
}
