/** The forwarding table of the tap handler: which port a source address was last seen on. */
module Fdb {
  import opened Sequences

  const FDB_SIZE: nat := 16

  /** An Ethernet address as a number; 0 is the all-zero address that marks a free slot. */
  type Addr = nat

  datatype Entry = Entry(l2addr: Addr, port: int)
  datatype Frame = Frame(src: Addr, port: int)

  predicate Hit(e: Entry, src: Addr) {
    e.l2addr == 0 || e.l2addr == src
  }

  /** The slot a frame goes to: the first that is free or holds its source. */
  function Slot(fdb: seq<Entry>, src: Addr): (j: nat)
    ensures j <= |fdb| && (j < |fdb| ==> Hit(fdb[j], src)) && forall k :: 0 <= k < j ==> !Hit(fdb[k], src)
  {
    if fdb == [] || Hit(fdb[0], src) then 0 else 1 + Slot(fdb[1..], src)
  }

  function Registered(fdb: seq<Entry>, f: Frame): (r: seq<Entry>)
    ensures |r| == |fdb|
  {
    var j := Slot(fdb, f.src);
    if j == |fdb| then fdb else fdb[j := Entry(f.src, f.port)]
  }

  function Blank(): seq<Entry> {
    seq(FDB_SIZE, _ => Entry(0, 0))
  }

  function Run(frames: seq<Frame>): (r: seq<Entry>)
    ensures |r| == 16
  {
    if frames == [] then Blank() else Registered(Run(frames[..|frames| - 1]), frames[|frames| - 1])
  }

  /** The distinct sources of the frames but the zero address, in order of their first frame. */
  function Sources(frames: seq<Frame>): seq<Addr> {
    if frames == [] then []
    else
      var before, src := Sources(frames[..|frames| - 1]), frames[|frames| - 1].src;
      if src == 0 || src in before then before else before + [src]
  }

  /** The port of the last frame from the address. */
  function LastPort(frames: seq<Frame>, a: Addr): int {
    if frames == [] then 0
    else if frames[|frames| - 1].src == a then frames[|frames| - 1].port
    else LastPort(frames[..|frames| - 1], a)
  }

  lemma {:induction false} SourcesHold(frames: seq<Frame>)
    ensures Distinct(Sources(frames)) && 0 !in Sources(frames)
    ensures forall k :: 0 <= k < |frames| && frames[k].src != 0 ==> frames[k].src in Sources(frames)
    ensures forall a :: a in Sources(frames) ==> exists k :: 0 <= k < |frames| && frames[k].src == a
  {
    if frames != [] {
      var init := frames[..|frames| - 1];
      SourcesHold(init);
      forall a | a in Sources(frames) ensures exists k :: 0 <= k < |frames| && frames[k].src == a {
        if a in Sources(init) {
          var k :| 0 <= k < |init| && init[k].src == a;
          assert frames[k].src == a;
        }
      }
      forall k | 0 <= k < |frames| && frames[k].src != 0 ensures frames[k].src in Sources(frames) {
        if k < |init| {
          assert init[k].src in Sources(init);
        }
      }
    }
  }

  /** The reference port is that of the last frame from the address. */
  lemma {:induction false} LastPortIs(frames: seq<Frame>, a: Addr, k: nat)
    requires k < |frames| && frames[k].src == a && forall j :: k < j < |frames| ==> frames[j].src != a
    ensures LastPort(frames, a) == frames[k].port
  {
    if k < |frames| - 1 {
      LastPortIs(frames[..|frames| - 1], a, k);
    }
  }

  /** Sources stand in the order of their first frames. */
  lemma {:induction false} SourcesInOrder(frames: seq<Frame>, n: nat)
    requires n <= |frames|
    ensures Sources(frames[..n]) <= Sources(frames)
    decreases |frames| - n
  {
    if n < |frames| {
      SourcesInOrder(frames, n + 1);
      assert frames[..n + 1][..n] == frames[..n];
    } else {
      assert frames[..n] == frames;
    }
  }

  /** The table holds the first sources that fit, each with its latest port, then free slots. */
  ghost predicate Holds(fdb: seq<Entry>, frames: seq<Frame>) {
    && |fdb| == FDB_SIZE
    && forall j :: 0 <= j < FDB_SIZE ==> SlotHolds(fdb[j], frames, j)
  }

  predicate SlotHolds(e: Entry, frames: seq<Frame>, j: nat) {
    var all := Sources(frames);
    if j < |all| then e == Entry(all[j], LastPort(frames, all[j])) else e.l2addr == 0
  }

  /** How many slots are taken. */
  function Taken(frames: seq<Frame>): (n: nat)
    ensures n <= FDB_SIZE && n <= |Sources(frames)|
  {
    if |Sources(frames)| < FDB_SIZE then |Sources(frames)| else FDB_SIZE
  }

  lemma SlotOfSource(fdb: seq<Entry>, frames: seq<Frame>, src: Addr)
    requires Holds(fdb, frames)
    ensures var n, j := Taken(frames), Slot(fdb, src);
      if j < n then Sources(frames)[j] == src else j == n && forall k :: 0 <= k < n ==> Sources(frames)[k] != src
  {
    SourcesHold(frames);
    var all, n, j := Sources(frames), Taken(frames), Slot(fdb, src);
    forall k | 0 <= k < FDB_SIZE ensures SlotHolds(fdb[k], frames, k) {
    }
    assert forall k :: 0 <= k < n ==> all[k] != 0 && fdb[k].l2addr == all[k];
    if n < FDB_SIZE {
      assert Hit(fdb[n], src);
    }
  }

  lemma FrameHeld(fdb: seq<Entry>, frames: seq<Frame>, f: Frame)
    requires Holds(fdb, frames)
    ensures Holds(Registered(fdb, f), frames + [f])
  {
    var all, all', n := Sources(frames), Sources(frames + [f]), Taken(frames);
    SourcesSnoc(frames, f);
    SourcesHold(frames);
    SlotOfSource(fdb, frames, f.src);
    var j := Slot(fdb, f.src);
    if j == n && n < FDB_SIZE {
      assert f.src !in all;
    }
    forall k | 0 <= k < FDB_SIZE ensures SlotHolds(Registered(fdb, f)[k], frames + [f], k) {
      assert SlotHolds(fdb[k], frames, k);
      if k < |all| {
        LastPortSnoc(frames, f, all[k]);
      }
      LastPortSnoc(frames, f, f.src);
    }
  }

  lemma SourcesSnoc(frames: seq<Frame>, f: Frame)
    ensures Sources(frames + [f])
         == if f.src == 0 || f.src in Sources(frames) then Sources(frames) else Sources(frames) + [f.src]
  {
    assert (frames + [f])[..|frames|] == frames;
  }

  lemma LastPortSnoc(frames: seq<Frame>, f: Frame, a: Addr)
    ensures LastPort(frames + [f], a) == if f.src == a then f.port else LastPort(frames, a)
  {
    assert (frames + [f])[..|frames|] == frames;
  }

  /** After any frames the table holds the first 16 distinct nonzero sources, each on its latest port. */
  lemma {:induction false} RunHolds(frames: seq<Frame>)
    ensures Holds(Run(frames), frames)
  {
    if frames != [] {
      var init, last := frames[..|frames| - 1], frames[|frames| - 1];
      RunHolds(init);
      FrameHeld(Run(init), init, last);
      assert frames == init + [last];
    }
  }

  class Table {
    const fdb: array<Entry>

    constructor ()
      ensures fresh(fdb) && fdb[..] == Run([])
    {
      fdb := new Entry[FDB_SIZE](_ => Entry(0, 0));
    }

    /** tap_handler_register_fdb */
    method Register(f: Frame)
      modifies fdb
      ensures fdb[..] == Registered(old(fdb[..]), f)
    {
      ghost var was := fdb[..];
      for j := 0 to fdb.Length
        invariant fdb[..] == was && j <= Slot(was, f.src)
      {
        SlotFrom(was, f.src, j);
        if fdb[j].l2addr == 0 {
          fdb[j] := Entry(f.src, f.port);
          return;
        }
        if fdb[j].l2addr == f.src {
          fdb[j] := fdb[j].(port := f.port);
          return;
        }
      }
    }

    lemma SlotFrom(fdb: seq<Entry>, src: Addr, j: nat)
      requires j < |fdb| && j <= Slot(fdb, src)
      ensures j == Slot(fdb, src) <==> Hit(fdb[j], src)
    {
    }

    /** Every frame of a run. */
    method RegisterAll(frames: seq<Frame>)
      requires fdb[..] == Run([])
      modifies fdb
      ensures Holds(fdb[..], frames)
    {
      for k := 0 to |frames|
        invariant fdb[..] == Run(frames[..k])
      {
        assert frames[..k + 1][..k] == frames[..k];
        Register(frames[k]);
      }
      assert frames[..|frames|] == frames;
      RunHolds(frames);
    }
  }
}
