/** The routing-information base: one writer copies it, applies a message, validates and publishes. */
module RibManager {
  import opened Option
  import opened QueueTypes
  import RibCheck

  /** struct port_conf: descriptor counts set by message, link and queue counts told by the device. */
  datatype PortConf = PortConf(nbRxd: uint16, nbTxd: uint16, device: DeviceStatus)
  datatype DeviceStatus = DeviceStatus(linkUp: bool, nbRxQueues: uint16)

  type PortTable = t: seq<PortConf> | |t| == RTE_MAX_ETHPORTS witness ZeroPorts()

  function ZeroPorts(): seq<PortConf> {
    seq(RTE_MAX_ETHPORTS, i => PortConf(0, 0, DeviceStatus(false, 0)))
  }

  /** The value of a struct rib_info. */
  datatype Info = Info(ver: uint32, portSize: nat, lcoreSize: nat, port: PortTable, qconf: QTable)

  /** A PORT_STATUS message carries, in the model, what the device answers when it is handled. */
  datatype Message =
    | PortStatus(answers: seq<DeviceStatus>)
    | EthLink
    | Qconf(table: QTable)
    | TxrxDesc(portid: nat, nbRxd: uint16, nbTxd: uint16)
    | Unknown
  {
    /** Port ids fit their arrays. */
    predicate Fits() {
      match this
      case PortStatus(answers) => |answers| <= RTE_MAX_ETHPORTS
      case TxrxDesc(portid, _, _) => portid < RTE_MAX_ETHPORTS
      case _ => true
    }
  }

  type Msg = m: Message | m.Fits() witness EthLink

  /** rib_create: a copy (or zeroes) whose 32-bit version is one higher, wrapping. */
  function Create(prev: Option<Info>): Info {
    match prev
    case None => Info(1, 0, 0, ZeroPorts(), EmptyTable())
    case Some(i) => i.(ver := NextVersion(i.ver))
  }

  function NextVersion(v: uint32): uint32 {
    (v + 1) % 0x1_0000_0000
  }

  /** The first nrxq slots come from the message, the others keep what they held. */
  function MergeRecord(prev: Qconf, msg: Qconf): (r: Qconf)
    ensures r.Active() == msg.Active()
  {
    QconfRecord(msg.nrxq, msg.slots[..msg.nrxq] + prev.slots[msg.nrxq..])
  }

  /** An lcore the message gives no queue keeps its old list. */
  function Merge(prev: QTable, msg: QTable, lcoreCount: nat): QTable {
    seq<Qconf>(RTE_MAX_LCORE, i requires 0 <= i < RTE_MAX_LCORE =>
      if i < lcoreCount && msg[i].nrxq != 0 then MergeRecord(prev[i], msg[i]) else prev[i])
  }

  function UpdatePorts(port: PortTable, answers: seq<DeviceStatus>): PortTable {
    seq(RTE_MAX_ETHPORTS, i requires 0 <= i < RTE_MAX_ETHPORTS =>
      if i < |answers| then port[i].(device := answers[i]) else port[i])
  }

  ghost predicate Acceptable(qconf: QTable, lcoreCount: nat)
    requires lcoreCount <= RTE_MAX_LCORE
  {
    Dense(Listed(ListsOf(qconf[..lcoreCount])))
  }

  /** The merged queue table fits rib_check's fixed arrays. */
  ghost predicate TableFits(prev: Option<Info>, msg: Msg, lcoreCount: nat)
    requires lcoreCount <= RTE_MAX_LCORE
  {
    msg.Qconf? ==>
      RibCheck.FitsArrays(Listed(ListsOf(Merge(Create(prev).qconf, msg.table, lcoreCount)[..lcoreCount])))
  }

  /** The rib a message leads to, or None when the queue table is rejected. */
  ghost function Apply(prev: Option<Info>, msg: Msg, lcoreCount: nat): Option<Info>
    requires lcoreCount <= RTE_MAX_LCORE
  {
    var next := Create(prev);
    match msg
    case PortStatus(answers) =>
      Some(next.(portSize := |answers|, port := UpdatePorts(next.port, answers), lcoreSize := lcoreCount))
    case EthLink => Some(next)
    case Qconf(table) =>
      var merged := Merge(next.qconf, table, lcoreCount);
      if Acceptable(merged, lcoreCount) then Some(next.(lcoreSize := lcoreCount, qconf := merged)) else None
    case TxrxDesc(portid, nbRxd, nbTxd) =>
      Some(next.(port := next.port[portid := next.port[portid].(nbRxd := nbRxd, nbTxd := nbTxd)]))
    case Unknown => Some(next)
  }

  /** What one message publishes, in order; None stands for the empty "zero" rib. */
  ghost function Publications(prev: Option<Info>, msg: Msg, lcoreCount: nat): seq<Option<Info>>
    requires lcoreCount <= RTE_MAX_LCORE
  {
    var next := Apply(prev, msg, lcoreCount);
    if next.None? then [] else if msg.Qconf? then [None, next] else [next]
  }

  /** The fold of a message run; a rejected message leaves the rib as it was. */
  ghost function Fold(start: Option<Info>, msgs: seq<Msg>, lcoreCount: nat): Option<Info>
    requires lcoreCount <= RTE_MAX_LCORE
  {
    if msgs == [] then start
    else
      var before := Fold(start, msgs[..|msgs| - 1], lcoreCount);
      var after := Apply(before, msgs[|msgs| - 1], lcoreCount);
      if after.None? then before else after
  }

  /** How many messages of the run were accepted. */
  ghost function Accepted(start: Option<Info>, msgs: seq<Msg>, lcoreCount: nat): nat
    requires lcoreCount <= RTE_MAX_LCORE
  {
    if msgs == [] then 0
    else
      var init := msgs[..|msgs| - 1];
      var after := Apply(Fold(start, init, lcoreCount), msgs[|msgs| - 1], lcoreCount);
      Accepted(start, init, lcoreCount) + if after.None? then 0 else 1
  }

  ghost function Version(i: Option<Info>): nat {
    if i.None? then 0 else i.value.ver
  }

  /** The queue lists a rib gives to all lcores; a zero rib or no rib gives none. */
  function QueueLists(i: Option<Info>): (lists: Lists)
    ensures |lists| == RTE_MAX_LCORE
  {
    ListsOf(if i.None? then EmptyTable() else i.value.qconf)
  }

  /** What every published rib satisfies: lists only on existing lcores, and dense port by port. */
  ghost predicate Sound(i: Option<Info>, lcoreCount: nat)
    requires lcoreCount <= RTE_MAX_LCORE
  {
    && (forall l :: lcoreCount <= l < RTE_MAX_LCORE ==> QueueLists(i)[l] == [])
    && Dense(Listed(QueueLists(i)[..lcoreCount]))
  }

  lemma ListsOfPrefix(t: QTable, n: nat)
    requires n <= RTE_MAX_LCORE
    ensures ListsOf(t[..n]) == ListsOf(t)[..n]
  {
  }

  lemma SoundIsExclusive(i: Option<Info>, lcoreCount: nat)
    requires lcoreCount <= RTE_MAX_LCORE && Sound(i, lcoreCount)
    ensures Exclusive(QueueLists(i))
  {
    var lists := QueueLists(i);
    DenseIsExclusive(lists[..lcoreCount]);
    forall a, b, pq | 0 <= a < |lists| && 0 <= b < |lists| && a != b && pq in lists[a]
      ensures pq !in lists[b]
    {
      if a < lcoreCount && b < lcoreCount {
        assert pq in lists[..lcoreCount][a];
        assert pq !in lists[..lcoreCount][b];
      }
    }
  }

  lemma EmptyIsSound(lcoreCount: nat)
    requires lcoreCount <= RTE_MAX_LCORE
    ensures Sound(None, lcoreCount)
  {
    var lists := QueueLists(None)[..lcoreCount];
    ListedEmpty(lists);
    forall p: uint16 ensures PortDense([], p) {
      assert PortHasExactly([], p, 0);
    }
  }

  /** Every accepted message leads from a sound rib to a sound rib. */
  lemma ApplyKeepsSound(prev: Option<Info>, msg: Msg, lcoreCount: nat)
    requires lcoreCount <= RTE_MAX_LCORE && Sound(prev, lcoreCount)
    ensures Apply(prev, msg, lcoreCount).Some? ==> Sound(Apply(prev, msg, lcoreCount), lcoreCount)
  {
    var next := Apply(prev, msg, lcoreCount);
    if next.Some? {
      if msg.Qconf? {
        ListsOfPrefix(next.value.qconf, lcoreCount);
        forall l | lcoreCount <= l < RTE_MAX_LCORE ensures QueueLists(next)[l] == [] {
          assert QueueLists(next)[l] == QueueLists(prev)[l];
        }
      } else {
        assert QueueLists(next) == QueueLists(prev);
      }
    }
  }

  /** The published rib is sound after every message run. */
  lemma {:induction false} FoldIsSound(msgs: seq<Msg>, lcoreCount: nat)
    requires lcoreCount <= RTE_MAX_LCORE
    ensures Sound(Fold(None, msgs, lcoreCount), lcoreCount)
  {
    if msgs == [] {
      EmptyIsSound(lcoreCount);
    } else {
      var init := msgs[..|msgs| - 1];
      FoldIsSound(init, lcoreCount);
      ApplyKeepsSound(Fold(None, init, lcoreCount), msgs[|msgs| - 1], lcoreCount);
    }
  }

  lemma AcceptedVersion(prev: Option<Info>, msg: Msg, lcoreCount: nat)
    requires lcoreCount <= RTE_MAX_LCORE
    ensures var next := Apply(prev, msg, lcoreCount);
      next.Some? ==> next.value.ver == (Version(prev) + 1) % 0x1_0000_0000
  {
  }

  lemma ModStep(a: nat, b: nat)
    ensures (a % 0x1_0000_0000 + b) % 0x1_0000_0000 == (a + b) % 0x1_0000_0000
    ensures a < 0x1_0000_0000 ==> a % 0x1_0000_0000 == a
  {
  }

  /** Over any run the version is the number of accepted messages, modulo 2^32. */
  lemma {:induction false} VersionCountsAccepted(start: Option<Info>, msgs: seq<Msg>, lcoreCount: nat)
    requires lcoreCount <= RTE_MAX_LCORE
    ensures Version(Fold(start, msgs, lcoreCount))
         == (Version(start) + Accepted(start, msgs, lcoreCount)) % 0x1_0000_0000
  {
    if msgs == [] {
      ModStep(Version(start), 0);
    } else {
      var init := msgs[..|msgs| - 1];
      VersionCountsAccepted(start, init, lcoreCount);
      AcceptedVersion(Fold(start, init, lcoreCount), msgs[|msgs| - 1], lcoreCount);
      ModStep(Version(start) + Accepted(start, init, lcoreCount), 1);
    }
  }

  /** The message gives this lcore a list of its own. */
  predicate Assigns(msg: Msg, lcore: nat, lcoreCount: nat)
    requires lcore < RTE_MAX_LCORE
  {
    msg.Qconf? && lcore < lcoreCount && msg.table[lcore].nrxq != 0
  }

  /** Message k of the run is accepted by the rib the earlier ones led to. */
  ghost predicate AcceptedAt(start: Option<Info>, msgs: seq<Msg>, lcoreCount: nat, k: nat)
    requires lcoreCount <= RTE_MAX_LCORE && k < |msgs|
  {
    Apply(Fold(start, msgs[..k], lcoreCount), msgs[k], lcoreCount).Some?
  }

  /** One message: the lists named by an accepted QCONF are replaced, every other list is kept. */
  lemma ApplyLists(prev: Option<Info>, msg: Msg, lcoreCount: nat, lcore: nat)
    requires lcoreCount <= RTE_MAX_LCORE && lcore < RTE_MAX_LCORE
    requires Apply(prev, msg, lcoreCount).Some?
    ensures QueueLists(Apply(prev, msg, lcoreCount))[lcore]
         == if Assigns(msg, lcore, lcoreCount) then msg.table[lcore].Active() else QueueLists(prev)[lcore]
    ensures msg.Qconf? ==> Apply(prev, msg, lcoreCount).value.port == Create(prev).port
  {
  }

  /**
   * After any run an lcore's list is the one in the last accepted QCONF naming it, which is
   * message k; with k == -1, no accepted message names it and its first list stands.
   */
  lemma {:induction false} LastAssignmentStands(start: Option<Info>, msgs: seq<Msg>, lcoreCount: nat, lcore: nat,
                                                k: int)
    requires lcoreCount <= RTE_MAX_LCORE && lcore < RTE_MAX_LCORE && -1 <= k < |msgs|
    requires k >= 0 ==> Assigns(msgs[k], lcore, lcoreCount) && AcceptedAt(start, msgs, lcoreCount, k)
    requires forall j :: k < j < |msgs| && AcceptedAt(start, msgs, lcoreCount, j) ==>
      !Assigns(msgs[j], lcore, lcoreCount)
    ensures QueueLists(Fold(start, msgs, lcoreCount))[lcore]
         == if k >= 0 then msgs[k].table[lcore].Active() else QueueLists(start)[lcore]
  {
    if msgs != [] {
      var n := |msgs| - 1;
      var init := msgs[..n];
      if k < n {
        forall j | 0 <= j < n
          ensures AcceptedAt(start, init, lcoreCount, j) == AcceptedAt(start, msgs, lcoreCount, j) && init[j] == msgs[j]
        {
          AcceptedInPrefix(start, msgs, lcoreCount, n, j);
        }
        LastAssignmentStands(start, init, lcoreCount, lcore, k);
      }
      LastMessageLists(start, msgs, lcoreCount, lcore);
    }
  }

  lemma AcceptedInPrefix(start: Option<Info>, msgs: seq<Msg>, lcoreCount: nat, n: nat, j: nat)
    requires lcoreCount <= RTE_MAX_LCORE && j < n <= |msgs|
    ensures AcceptedAt(start, msgs[..n], lcoreCount, j) == AcceptedAt(start, msgs, lcoreCount, j)
  {
    assert msgs[..n][..j] == msgs[..j];
  }

  lemma LastMessageLists(start: Option<Info>, msgs: seq<Msg>, lcoreCount: nat, lcore: nat)
    requires lcoreCount <= RTE_MAX_LCORE && lcore < RTE_MAX_LCORE && msgs != []
    ensures var n := |msgs| - 1;
      QueueLists(Fold(start, msgs, lcoreCount))[lcore]
        == if AcceptedAt(start, msgs, lcoreCount, n) && Assigns(msgs[n], lcore, lcoreCount)
           then msgs[n].table[lcore].Active()
           else QueueLists(Fold(start, msgs[..n], lcoreCount))[lcore]
  {
    var n := |msgs| - 1;
    if AcceptedAt(start, msgs, lcoreCount, n) {
      ApplyLists(Fold(start, msgs[..n], lcoreCount), msgs[n], lcoreCount, lcore);
    }
  }

  /**
   * A consequence of keeping lists that the message leaves empty: moving an lcore's only queue to
   * another lcore is always rejected, because the old owner still lists it after the merge.
   */
  lemma MovingLastQueueIsRejected(prev: Option<Info>, table: QTable, lcoreCount: nat, from: nat, to: nat, pq: PortQueue)
    requires lcoreCount <= RTE_MAX_LCORE && from < lcoreCount && to < lcoreCount && from != to
    requires pq in QueueLists(prev)[from]
    requires table[from].nrxq == 0 && pq in table[to].Active()
    ensures Apply(prev, Qconf(table), lcoreCount).None?
  {
    var next := Apply(prev, Qconf(table), lcoreCount);
    if next.Some? {
      ApplyLists(prev, Qconf(table), lcoreCount, from);
      ApplyLists(prev, Qconf(table), lcoreCount, to);
      ListsOfPrefix(next.value.qconf, lcoreCount);
      var lists := ListsOf(next.value.qconf)[..lcoreCount];
      assert pq in lists[from] && pq in lists[to];
      DenseIsExclusive(lists);
    }
  }

  // ---------------------------------------------------------------- what each message changes

  /** The ports a rib shows; no rib shows zeroes. */
  function PortsOf(i: Option<Info>): PortTable {
    if i.None? then ZeroPorts() else i.value.port
  }

  function PortSize(i: Option<Info>): nat {
    if i.None? then 0 else i.value.portSize
  }

  function LcoreSize(i: Option<Info>): nat {
    if i.None? then 0 else i.value.lcoreSize
  }

  /** A descriptor message gives its port exactly its counts, and changes nothing else. */
  lemma DescriptorsAreSet(prev: Option<Info>, p: nat, rx: uint16, tx: uint16, lcoreCount: nat)
    requires lcoreCount <= RTE_MAX_LCORE && p < RTE_MAX_ETHPORTS
    ensures var next := Apply(prev, TxrxDesc(p, rx, tx), lcoreCount);
      && next.Some?
      && PortsOf(next)[p].nbRxd == rx && PortsOf(next)[p].nbTxd == tx
      && PortsOf(next)[p].device == PortsOf(prev)[p].device
      && (forall i :: 0 <= i < RTE_MAX_ETHPORTS && i != p ==> PortsOf(next)[i] == PortsOf(prev)[i])
      && QueueLists(next) == QueueLists(prev)
      && PortSize(next) == PortSize(prev) && LcoreSize(next) == LcoreSize(prev)
  {
  }

  /** A status message shows each port its own answer, keeps counts and the ports not asked, and sets both sizes. */
  lemma StatusIsShown(prev: Option<Info>, answers: seq<DeviceStatus>, lcoreCount: nat)
    requires lcoreCount <= RTE_MAX_LCORE && |answers| <= RTE_MAX_ETHPORTS
    ensures var next := Apply(prev, PortStatus(answers), lcoreCount);
      && next.Some?
      && (forall i :: 0 <= i < |answers| ==> PortsOf(next)[i] == PortsOf(prev)[i].(device := answers[i]))
      && (forall i :: |answers| <= i < RTE_MAX_ETHPORTS ==> PortsOf(next)[i] == PortsOf(prev)[i])
      && QueueLists(next) == QueueLists(prev)
      && PortSize(next) == |answers| && LcoreSize(next) == lcoreCount
  {
  }

  /** An accepted QCONF keeps all ports; link and unknown messages keep everything but the version. */
  lemma OthersAreKept(prev: Option<Info>, msg: Msg, lcoreCount: nat)
    requires lcoreCount <= RTE_MAX_LCORE && Apply(prev, msg, lcoreCount).Some?
    ensures var next := Apply(prev, msg, lcoreCount);
      && (msg.Qconf?
        ==> PortsOf(next) == PortsOf(prev) && PortSize(next) == PortSize(prev) && LcoreSize(next) == lcoreCount)
      && (msg.EthLink? || msg.Unknown? ==>
            && PortsOf(next) == PortsOf(prev) && QueueLists(next) == QueueLists(prev)
            && PortSize(next) == PortSize(prev) && LcoreSize(next) == LcoreSize(prev))
  {
  }

  /** After any run a port's counts are those of the last message naming it, which is message k, or the first ones. */
  lemma {:induction false} LastDescriptorsStand(start: Option<Info>, msgs: seq<Msg>, lcoreCount: nat, p: nat, k: int)
    requires lcoreCount <= RTE_MAX_LCORE && p < RTE_MAX_ETHPORTS && -1 <= k < |msgs|
    requires k >= 0 ==> msgs[k].TxrxDesc? && msgs[k].portid == p
    requires forall j :: k < j < |msgs| ==> !(msgs[j].TxrxDesc? && msgs[j].portid == p)
    ensures var port := PortsOf(Fold(start, msgs, lcoreCount))[p];
      if k >= 0 then port.nbRxd == msgs[k].nbRxd && port.nbTxd == msgs[k].nbTxd
      else port.nbRxd == PortsOf(start)[p].nbRxd && port.nbTxd == PortsOf(start)[p].nbTxd
  {
    if msgs != [] {
      var n := |msgs| - 1;
      var init := msgs[..n];
      if k < n {
        LastDescriptorsStand(start, init, lcoreCount, p, k);
      }
      OneMoreForPort(Fold(start, init, lcoreCount), msgs[n], lcoreCount, p);
    }
  }

  /** After any run a port shows the last answer given for it, in message k, or the first one. */
  lemma {:induction false} LastStatusStands(start: Option<Info>, msgs: seq<Msg>, lcoreCount: nat, p: nat, k: int)
    requires lcoreCount <= RTE_MAX_LCORE && p < RTE_MAX_ETHPORTS && -1 <= k < |msgs|
    requires k >= 0 ==> msgs[k].PortStatus? && p < |msgs[k].answers|
    requires forall j :: k < j < |msgs| ==> !(msgs[j].PortStatus? && p < |msgs[j].answers|)
    ensures PortsOf(Fold(start, msgs, lcoreCount))[p].device
         == if k >= 0 then msgs[k].answers[p] else PortsOf(start)[p].device
  {
    if msgs != [] {
      var n := |msgs| - 1;
      var init := msgs[..n];
      if k < n {
        LastStatusStands(start, init, lcoreCount, p, k);
      }
      OneMoreForPort(Fold(start, init, lcoreCount), msgs[n], lcoreCount, p);
    }
  }

  lemma OneMoreForPort(prev: Option<Info>, msg: Msg, lcoreCount: nat, p: nat)
    requires lcoreCount <= RTE_MAX_LCORE && p < RTE_MAX_ETHPORTS
    ensures var next := Apply(prev, msg, lcoreCount);
      var after := PortsOf(if next.None? then prev else next)[p];
      && (after.nbRxd == if msg.TxrxDesc? && msg.portid == p then msg.nbRxd else PortsOf(prev)[p].nbRxd)
      && (after.nbTxd == if msg.TxrxDesc? && msg.portid == p then msg.nbTxd else PortsOf(prev)[p].nbTxd)
      && (after.device == if msg.PortStatus? && p < |msg.answers| then msg.answers[p] else PortsOf(prev)[p].device)
  {
  }

  /**
   * What an accepted message publishes: at last the new rib, and in no two consecutive ribs, the
   * one before included, does a queue go from one lcore to another.
   */
  lemma PublicationsNeverHandOver(prev: Option<Info>, msg: Msg, lcoreCount: nat, k: nat)
    requires lcoreCount <= RTE_MAX_LCORE && Sound(prev, lcoreCount) && Apply(prev, msg, lcoreCount).Some?
    ensures var seen := [prev] + Publications(prev, msg, lcoreCount);
      && seen[|seen| - 1] == Apply(prev, msg, lcoreCount)
      && (k + 1 < |seen| ==> Compatible(QueueLists(seen[k]), QueueLists(seen[k + 1])))
  {
    var next := Apply(prev, msg, lcoreCount);
    if msg.Qconf? {
      ZeroIsCompatible(prev);
      ZeroIsCompatible(next);
      assert [prev] + [None, next] == [prev, None, next];
    } else {
      assert QueueLists(next) == QueueLists(prev);
      SoundIsExclusive(prev, lcoreCount);
      assert [prev] + [next] == [prev, next];
    }
  }

  lemma ZeroIsCompatible(i: Option<Info>)
    ensures Compatible(QueueLists(i), QueueLists(None)) && Compatible(QueueLists(None), QueueLists(i))
  {
  }

  /** struct rib_info */
  class RibInfo {
    var ver: uint32
    var portSize: nat
    var lcoreSize: nat
    var port: PortTable
    var qconf: QTable

    ghost function Value(): Info
      reads this
    {
      Info(ver, portSize, lcoreSize, port, qconf)
    }

    /** rib_info_create */
    constructor (prev: RibInfo?)
      ensures Value() == Create(if prev == null then None else Some(prev.Value()))
    {
      if prev == null {
        ver, portSize, lcoreSize, port, qconf := 0, 0, 0, ZeroPorts(), EmptyTable();
      } else {
        ver, portSize, lcoreSize, port, qconf := prev.ver, prev.portSize, prev.lcoreSize, prev.port, prev.qconf;
      }
      new;
      ver := NextVersion(ver);
    }

    /** update_port_status */
    method UpdatePortStatus(answers: seq<DeviceStatus>, lcoreCount: nat)
      requires |answers| <= RTE_MAX_ETHPORTS
      modifies this
      ensures Value() == old(Value()).(portSize := |answers|, lcoreSize := lcoreCount,
                                       port := UpdatePorts(old(port), answers))
    {
      portSize := |answers|;
      ghost var was := port;
      for i := 0 to |answers|
        invariant port == UpdatePorts(was, answers[..i])
        invariant ver == old(ver) && qconf == old(qconf) && portSize == |answers|
      {
        port := port[i := port[i].(device := answers[i])];
      }
      lcoreSize := lcoreCount;
      assert answers[..|answers|] == answers;
    }

    /** The QCONF branch: slot by slot for every lcore the message gives queues. */
    method MergeQueues(msg: QTable, lcoreCount: nat)
      requires lcoreCount <= RTE_MAX_LCORE
      modifies this
      ensures Value() == old(Value()).(lcoreSize := lcoreCount, qconf := Merge(old(qconf), msg, lcoreCount))
    {
      lcoreSize := lcoreCount;
      ghost var was := qconf;
      for i := 0 to lcoreCount
        invariant qconf == Merge(was, msg, i)
        invariant ver == old(ver) && portSize == old(portSize) && port == old(port) && lcoreSize == lcoreCount
      {
        if msg[i].nrxq != 0 {
          var slots := qconf[i].slots;
          for j := 0 to msg[i].nrxq
            invariant slots == msg[i].slots[..j] + was[i].slots[j..]
          {
            slots := slots[j := msg[i].slots[j]];
          }
          var r: Qconf := QconfRecord(msg[i].nrxq, slots);
          qconf := qconf[i := r];
        }
      }
    }
  }

  /** struct rib */
  class Rib {
    var info: RibInfo?

    ghost function Value(): Option<Info>
      reads this, info
    {
      if info == null then None else Some(info.Value())
    }

    /** rib_create */
    constructor Copy(prev: Rib?)
      ensures info != null && fresh(info)
      ensures Value() == Some(Create(if prev == null then None else prev.Value()))
    {
      info := new RibInfo(if prev == null then null else prev.info);
    }

    constructor Zero()
      ensures info == null
    {
      info := null;
    }
  }

  /** The writer side: the global pointer and, as ghosts, what was published and reclaimed. */
  class Manager {
    const lcoreCount: nat
    var current: Rib?
    ghost var published: seq<Option<Info>>
    ghost var reclaimed: seq<Rib>

    ghost predicate Valid() {
      lcoreCount <= RTE_MAX_LCORE
    }

    ghost function View(): Option<Info>
      reads this, current, if current == null then null else current.info
    {
      if current == null then None else current.Value()
    }

    constructor (lcoreCount: nat)
      requires lcoreCount <= RTE_MAX_LCORE
      ensures Valid() && View() == None && current == null && published == [] && reclaimed == []
      ensures this.lcoreCount == lcoreCount
    {
      this.lcoreCount := lcoreCount;
      current := null;
      published, reclaimed := [], [];
    }

    /** rib_replace: publish, then reclaim the predecessor once readers are done with it. */
    method Replace(next: Rib)
      requires next != current
      modifies this, current
      ensures current == next && next.info == old(next.info)
      ensures published == old(published) + [next.Value()]
      ensures reclaimed == old(reclaimed) + if old(current) == null then [] else [old(current)]
    {
      var was := current;
      current := next;
      published := published + [next.Value()];
      if was != null {
        was.info := null;
        reclaimed := reclaimed + [was];
      }
    }

    /** The intermittent state of a queue change: an empty rib that gives no lcore any queue. */
    method PublishZero()
      modifies this, current
      ensures current != null && fresh(current) && current.info == null
      ensures published == old(published) + [None]
      ensures reclaimed == old(reclaimed) + if old(current) == null then [] else [old(current)]
    {
      var zero := new Rib.Zero();
      Replace(zero);
    }

    /**
     * rib_manager_process_message. An accepted message publishes exactly its publications and
     * reclaims the old rib (and the zero rib) in order; a rejected one changes nothing.
     */
    method ProcessMessage(msg: Msg)
      requires Valid()
      requires TableFits(View(), msg, lcoreCount)
      modifies this, current
      ensures published == old(published) + Publications(old(View()), msg, lcoreCount)
      ensures Apply(old(View()), msg, lcoreCount).None? ==>
        current == old(current) && View() == old(View()) && reclaimed == old(reclaimed)
      ensures Apply(old(View()), msg, lcoreCount).Some? ==>
        && View() == Apply(old(View()), msg, lcoreCount)
        && fresh(current)
        && |reclaimed| == |old(reclaimed)| + (if old(current) == null then 0 else 1) + (if msg.Qconf? then 1 else 0)
        && (old(current) != null ==> reclaimed[|old(reclaimed)|] == old(current))
        && current !in reclaimed[|old(reclaimed)|..]
    {
      var next := new Rib.Copy(current);
      match msg {
        case PortStatus(answers) =>
          next.info.UpdatePortStatus(answers, lcoreCount);
        case EthLink =>
        case Qconf(table) =>
          next.info.MergeQueues(table, lcoreCount);
          var ok := RibCheck.Check(next.info.qconf, lcoreCount);
          if !ok {
            return;
          }
          PublishZero();
        case TxrxDesc(portid, nbRxd, nbTxd) =>
          next.info.port := next.info.port[portid := next.info.port[portid].(nbRxd := nbRxd, nbTxd := nbTxd)];
        case Unknown =>
      }
      Replace(next);
    }

    /** The manager's loop over a run of messages: the published rib is their fold. */
    method Run(msgs: seq<Msg>)
      requires Valid()
      requires forall k :: 0 <= k < |msgs| ==> TableFits(Fold(View(), msgs[..k], lcoreCount), msgs[k], lcoreCount)
      modifies this, current
      ensures View() == Fold(old(View()), msgs, lcoreCount)
    {
      ghost var start := View();
      for k := 0 to |msgs|
        invariant View() == Fold(start, msgs[..k], lcoreCount)
        invariant current == old(current) || fresh(current)
      {
        assert msgs[..k + 1][..k] == msgs[..k];
        ProcessMessage(msgs[k]);
      }
      assert msgs[..|msgs|] == msgs;
    }
  }
}
