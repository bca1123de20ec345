/** Runs of reads and writes laid out by the sender: the pseudo memory is a plain byte map. */
module DmaRun {
  import opened Tlp
  import opened DmaSender
  import opened PsMem
  import opened PsWindow
  import opened PsDevice
  import opened PsReads

  datatype Op =
    | Write(raw: Raw, requester: uint16, tag: byte, addr: uintptr, payload: seq<byte>)
    | Read(raw: Raw, requester: uint16, tag: byte, addr: uintptr, count: nat)
  {
    /** Encodable; a write reaches at least three bytes past its double-word boundary. */
    predicate Ok() {
      match this
      case Write(_, _, _, addr, payload) => Encodable(addr, |payload|) && |payload| > 0 && addr % 4 + |payload| >= 3
      case Read(_, _, _, addr, count) => Encodable(addr, count) && count > 0
    }

    function Wire(): seq<byte>
      requires Ok()
    {
      match this
      case Write(raw, requester, tag, addr, payload) => WritePacket(raw, requester, tag, addr, payload)
      case Read(raw, requester, tag, addr, count) => ReadPacket(raw, requester, tag, addr, count)
    }
  }

  predicate AllOk(ops: seq<Op>) {
    forall k :: 0 <= k < |ops| ==> ops[k].Ok()
  }

  /** The packet carries the operation, as the receiver's accessors read it. */
  ghost predicate Carries(p: seq<byte>, op: Op)
    requires op.Ok()
  {
    && HasHeader(p) && AddrField(p) % 4 == 0
    && (IsMwr(p[0]) <==> op.Write?) && (IsMrd(p[0]) <==> op.Read?)
    && (op.Write? ==> HasData(p) && MrAddr(p) == op.addr && MwrData(p) == op.payload)
    && (op.Read? ==> Encodes(p, op.addr, op.count, false))
  }

  lemma WireCarries(op: Op)
    requires op.Ok()
    ensures Carries(op.Wire(), op)
  {
    DwStartAligned(op.addr);
    match op {
      case Write(raw, requester, tag, addr, payload) =>
        WriteRecovers(raw, requester, tag, addr, payload);
        RequestDecodes(op.Wire(), addr, |payload|, true);
      case Read(raw, requester, tag, addr, count) =>
        ReadPacketDecodes(raw, requester, tag, addr, count);
    }
  }

  /** The sender: the packet of an operation. */
  method Send(op: Op) returns (p: seq<byte>)
    requires op.Ok()
    ensures Carries(p, op)
  {
    WireCarries(op);
    match op {
      case Write(raw, requester, tag, addr, payload) =>
        p := SendDmaWrite(raw, requester, tag, addr, payload);
      case Read(raw, requester, tag, addr, count) =>
        p := ReadPacket(raw, requester, tag, addr, count);
    }
  }

  /** The operation on a plain byte store. */
  function Effect(mem: seq<byte>, base: uintptr, op: Op): (r: seq<byte>)
    ensures |r| == |mem|
  {
    if op.Write? then Store(mem, base, op.addr, op.payload) else mem
  }

  function MemRun(mem: seq<byte>, base: uintptr, ops: seq<Op>): (r: seq<byte>)
    ensures |r| == |mem|
  {
    if ops == [] then mem else Effect(MemRun(mem, base, ops[..|ops| - 1]), base, ops[|ops| - 1])
  }

  /** The write puts a byte at offset k of a window of the given size: the guard admits it and it covers base + k. */
  predicate Puts(op: Op, base: uintptr, size: nat, k: nat) {
    op.Write? && Admits(base, size, op.addr, |op.payload|) && Reached(op.addr, base, k) < |op.payload|
  }

  /** The byte map: what the last write that put a byte at offset k put there, or what was there first. */
  function LastWritten(mem: seq<byte>, base: uintptr, ops: seq<Op>, k: nat): byte
    requires k < |mem|
  {
    if ops == [] then mem[k]
    else
      var last := ops[|ops| - 1];
      if Puts(last, base, |mem|, k) then last.payload[Reached(last.addr, base, k)]
      else LastWritten(mem, base, ops[..|ops| - 1], k)
  }

  /** After any run every byte of the window is the one last written there. */
  lemma {:induction false} MemoryIsByteMap(mem: seq<byte>, base: uintptr, ops: seq<Op>, k: nat)
    requires k < |mem|
    ensures MemRun(mem, base, ops)[k] == LastWritten(mem, base, ops, k)
  {
    if ops != [] {
      MemoryIsByteMap(mem, base, ops[..|ops| - 1], k);
    }
  }

  /** A sender's write that ends before the address space does puts exactly its bytes into a window, or none. */
  lemma SentWritesStayInside(op: Op, base: uintptr, size: nat, k: nat)
    requires op.Ok() && op.Write? && !FillsTop(op.addr, |op.payload|) && base + size < ADDRESSES && k < size
    ensures Puts(op, base, size, k)
       <==> Inside(base, size, op.addr, |op.payload|) && op.addr <= base + k < op.addr + |op.payload|
    ensures Puts(op, base, size, k) ==> Reached(op.addr, base, k) == base + k - op.addr
  {
    GuardIsExact(base, size, op.addr, |op.payload|);
    if Inside(base, size, op.addr, |op.payload|) {
      LandsAt(base, op.addr, |op.payload|, size, k);
    }
  }

  /** The one write of the sender that strays: it ends with the address space, and the guard admits it. */
  lemma SentWriteStraysIff(op: Op, base: uintptr, size: nat)
    requires op.Ok() && op.Write? && base + size < ADDRESSES
    ensures Admits(base, size, op.addr, |op.payload|) && !Inside(base, size, op.addr, |op.payload|)
       <==> base <= op.addr && FillsTop(op.addr, |op.payload|)
  {
    GuardIsExact(base, size, op.addr, |op.payload|);
  }

  /** What the map holds at x: the last byte written there, or what lies beyond the window. */
  function Held(mem: seq<byte>, base: uintptr, outside: nat -> byte, ops: seq<Op>, x: nat): byte {
    var k := Offset(base, x);
    if k < |mem| then LastWritten(mem, base, ops, k) else outside(Wrap64(x))
  }

  /** The bytes [addr, addr + count) of the byte map after a run. */
  function MapSlice(mem: seq<byte>, base: uintptr,
                    outside: nat -> byte, ops: seq<Op>, addr: nat, count: nat): seq<byte> {
    seq<byte>(count, i requires 0 <= i < count => Held(mem, base, outside, ops, addr + i))
  }

  lemma FetchedIsMapSlice(mem: seq<byte>, base: uintptr, outside: nat -> byte, ops: seq<Op>, addr: nat, count: nat)
    ensures Fetched(MemRun(mem, base, ops), base, outside, addr, count)
      == MapSlice(mem, base, outside, ops, addr, count)
  {
    var a := Fetched(MemRun(mem, base, ops), base, outside, addr, count);
    var b := MapSlice(mem, base, outside, ops, addr, count);
    forall i | 0 <= i < count ensures a[i] == b[i] {
      var k := Offset(base, addr + i);
      if k < |mem| {
        MemoryIsByteMap(mem, base, ops, k);
      }
    }
  }

  /** Inside the window the map holds nothing but what was last written. */
  lemma MapSliceInside(mem: seq<byte>, base: uintptr,
                       outside: nat -> byte, ops: seq<Op>, addr: uintptr, count: nat, i: nat)
    requires |mem| < ADDRESSES && Inside(base, |mem|, addr, count) && i < count
    ensures MapSlice(mem, base, outside, ops, addr, count)[i] == LastWritten(mem, base, ops, addr - base + i)
  {
    ReachedInside(base, |mem|, addr, count, i);
    assert Offset(base, addr + i) == addr - base + i;
    assert MapSlice(mem, base, outside, ops, addr, count)[i] == Held(mem, base, outside, ops, addr + i);
  }

  /** The read's guard in the sender's terms. */
  predicate Granted(base: uintptr, size: nat, addr: uintptr, count: nat) {
    Admits(base, size, addr, 4 * Length(addr, count))
  }

  /** A granted read that does not wrap asks for bytes of the window only. */
  lemma GrantedIsInside(base: uintptr, size: nat, addr: uintptr, count: nat)
    requires base + size < ADDRESSES && Encodable(addr, count) && Granted(base, size, addr, count)
    ensures Inside(base, size, addr, 4 * Length(addr, count)) <==> addr + 4 * Length(addr, count) < ADDRESSES
    ensures addr + 4 * Length(addr, count) < ADDRESSES ==> Inside(base, size, addr, count)
  {
    GuardIsRightIffNoWrap(base, size, addr, 4 * Length(addr, count));
    LengthCovers(addr, count);
  }

  /** Which reads of bytes inside a window that does not wrap are granted. */
  lemma InsideIsGrantedIff(base: uintptr, size: nat, addr: uintptr, count: nat)
    requires base + size < ADDRESSES && Encodable(addr, count) && Inside(base, size, addr, count)
    ensures var end := addr + 4 * Length(addr, count);
      Granted(base, size, addr, count) <==> end <= base + size || end >= ADDRESSES
  {
    LengthEnds(addr, count);
  }

  lemma LengthEnds(addr: uintptr, count: nat)
    ensures DwStart(addr) + 4 * Length(addr, count) < addr + count + 4
    ensures DwStart(addr) <= addr < DwStart(addr) + 4 && DwStart(addr) % 4 == 0
    ensures addr == DwStart(addr) <==> addr % 4 == 0
  {
  }

  /**
   * In a window of whole double words: those that start on a double word, and those whose last
   * double word is not the window's last.
   */
  lemma InsideIsGrantedIffAligned(base: uintptr, size: nat, addr: uintptr, count: nat)
    requires PlainWindow(base, size) && Encodable(addr, count) && count > 0 && Inside(base, size, addr, count)
    ensures Granted(base, size, addr, count)
       <==> addr % 4 == 0 || DwStart(addr) + 4 * Length(addr, count) < base + size
  {
    LengthEnds(addr, count);
    LengthCovers(addr, count);
    EndOfWords(base + size, DwStart(addr), addr - DwStart(addr), Length(addr, count), count);
    InsideIsGrantedIff(base, size, addr, count);
  }

  /** The last byte of the default window cannot be read. */
  lemma LastByteIsRefused(mem: seq<byte>, outside: nat -> byte, completer: uint16, p: seq<byte>)
    requires |mem| == 8192 && Encodable(8191, 1) && Encodes(p, 8191, 1, false)
    ensures Inside(0, |mem|, 8191, 1) && !Granted(0, |mem|, 8191, 1)
    ensures Covered(StartLoop(p)) && Replies(mem, 0, outside, completer, p) == []
  {
    var l := ReadStarts(p, 0, |mem|, 8191, 1);
    assert Length(8191, 1) == 1;
  }

  lemma LengthCovers(addr: uintptr, count: nat)
    ensures count <= 4 * Length(addr, count)
  {
  }

  /** A read the sender can encode that wraps: it is granted, and delivers nothing of the window. */
  lemma WrappingReadIsGranted(mem: seq<byte>, outside: nat -> byte, ops: seq<Op>, i: nat)
    requires |mem| == 8192 && i < 7
    ensures var addr := 0xFFFF_FFFF_FFFF_FFF8;
      && Encodable(addr, 7) && Granted(0, |mem|, addr, 7)
      && MapSlice(mem, 0, outside, ops, addr, 7)[i] == outside(addr + i)
  {
    var addr: uintptr := 0xFFFF_FFFF_FFFF_FFF8;
    assert Length(addr, 7) == 2;
    assert MapSlice(mem, 0, outside, ops, addr, 7)[i] == Held(mem, 0, outside, ops, addr + i);
  }

  /** The completions carry exactly these bytes to the requester. */
  ghost predicate Delivers(cs: seq<seq<byte>>, data: seq<byte>) {
    AllHaveHeaders(cs) && Reassemble(cs) == data
  }

  /** The loop the receiver starts for a read of the sender, and its guard. */
  lemma ReadStarts(p: seq<byte>, base: uintptr, size: nat, addr: uintptr, count: nat) returns (l: Loop)
    requires Encodable(addr, count) && count > 0 && Encodes(p, addr, count, false)
    ensures IsMrd(p[0]) && l == StartLoop(p) && Tight(l)
    ensures l.dataLen == count && l.addr == addr
    ensures ReadAnswered(base, size, p) <==> Granted(base, size, addr, count)
  {
    RequestDecodes(p, addr, count, false);
    SenderIsLegal(p, addr, count, false);
    LegalIsTight(p);
    l := StartLoop(p);
  }

  /**
   * After any run, a read is refused, or its completions deliver the most recently written bytes
   * of the range it asks for.
   */
  lemma ReadReturnsLastWritten(mem: seq<byte>, base: uintptr, outside: nat -> byte, completer: uint16, ops: seq<Op>,
                               p: seq<byte>, addr: uintptr, count: nat)
    requires Encodable(addr, count) && count > 0 && Encodes(p, addr, count, false)
    ensures Covered(StartLoop(p))
    ensures var replies := Replies(MemRun(mem, base, ops), base, outside, completer, p);
      if Granted(base, |mem|, addr, count)
      then Delivers(replies, MapSlice(mem, base, outside, ops, addr, count))
      else replies == []
  {
    var l := ReadStarts(p, base, |mem|, addr, count);
    if Granted(base, |mem|, addr, count) {
      TightReadDelivers(MemRun(mem, base, ops), base, outside, completer, p, l);
      FetchedIsMapSlice(mem, base, outside, ops, addr, count);
    }
  }

  /** A read delivers what it asks for exactly when it is granted. */
  lemma ReadDeliversIff(mem: seq<byte>, base: uintptr, outside: nat -> byte, completer: uint16, ops: seq<Op>,
                        p: seq<byte>, addr: uintptr, count: nat)
    requires Encodable(addr, count) && count > 0 && Encodes(p, addr, count, false)
    ensures Covered(StartLoop(p))
    ensures Delivers(Replies(MemRun(mem, base, ops), base, outside, completer, p),
                     MapSlice(mem, base, outside, ops, addr, count))
       <==> Granted(base, |mem|, addr, count)
  {
    ReadReturnsLastWritten(mem, base, outside, completer, ops, p, addr, count);
  }

  /** What the answer to an operation after a run must be. */
  ghost predicate AnswerOk(cs: seq<seq<byte>>, mem: seq<byte>, base: uintptr,
                           outside: nat -> byte, ops: seq<Op>, op: Op) {
    if op.Read? && Granted(base, |mem|, op.addr, op.count)
    then Delivers(cs, MapSlice(mem, base, outside, ops, op.addr, op.count))
    else cs == []
  }

  /** One operation of a run, sent by the sender and handled by the device. */
  method ServeOne(device: PseudoMemory, outside: nat -> byte, ghost mem: seq<byte>, ghost before: seq<Op>, op: Op)
    returns (cs: seq<seq<byte>>)
    requires op.Ok() && device.memory.Length < ADDRESSES
    requires device.memory[..] == MemRun(mem, device.base, before)
    modifies device.memory
    ensures device.memory[..] == Effect(MemRun(mem, device.base, before), device.base, op)
    ensures AnswerOk(cs, mem, device.base, outside, before, op)
  {
    var p := Send(op);
    CarriedIsHandled(p, op, mem, device.base, outside, device.completer, before);
    cs := device.Receive(p, outside);
  }

  /** A packet that carries an operation has its effect, and is answered as it must be. */
  lemma CarriedIsHandled(p: seq<byte>, op: Op, mem: seq<byte>, base: uintptr, outside: nat -> byte, completer: uint16,
                         before: seq<Op>)
    requires op.Ok() && Carries(p, op)
    ensures (IsMrd(p[0]) ==> Covered(StartLoop(p))) && (IsMwr(p[0]) ==> HasData(p))
    ensures MemAfter(MemRun(mem, base, before), base, p) == Effect(MemRun(mem, base, before), base, op)
    ensures AnswerOk(Replies(MemRun(mem, base, before), base, outside, completer, p), mem, base, outside, before, op)
  {
    if op.Read? {
      ReadReturnsLastWritten(mem, base, outside, completer, before, p, op.addr, op.count);
    }
  }

  /** The first n operations of a run were answered as they must be. */
  ghost predicate Answered(replies: seq<seq<seq<byte>>>, mem: seq<byte>, base: uintptr, outside: nat -> byte,
                           ops: seq<Op>, n: nat)
    requires n <= |replies| && n <= |ops|
  {
    forall k :: 0 <= k < n ==> AnswerOk(replies[k], mem, base, outside, ops[..k], ops[k])
  }

  lemma AnsweredNext(replies: seq<seq<seq<byte>>>, cs: seq<seq<byte>>, mem: seq<byte>, base: uintptr,
                     outside: nat -> byte, ops: seq<Op>)
    requires |replies| < |ops| && Answered(replies, mem, base, outside, ops, |replies|)
    requires AnswerOk(cs, mem, base, outside, ops[..|replies|], ops[|replies|])
    ensures Answered(replies + [cs], mem, base, outside, ops, |replies| + 1)
  {
  }

  lemma MemRunNext(mem: seq<byte>, base: uintptr, ops: seq<Op>, k: nat)
    requires k < |ops|
    ensures MemRun(mem, base, ops[..k + 1]) == Effect(MemRun(mem, base, ops[..k]), base, ops[k])
  {
    assert ops[..k + 1][..k] == ops[..k];
  }

  /** The device run over all operations: a byte map, with every read answered from it. */
  method ServeAll(device: PseudoMemory, outside: nat -> byte, ops: seq<Op>) returns (replies: seq<seq<seq<byte>>>)
    requires AllOk(ops) && device.memory.Length < ADDRESSES
    modifies device.memory
    ensures device.memory[..] == MemRun(old(device.memory[..]), device.base, ops)
    ensures |replies| == |ops| && Answered(replies, old(device.memory[..]), device.base, outside, ops, |ops|)
  {
    replies := [];
    ghost var mem := device.memory[..];
    for k := 0 to |ops|
      invariant |replies| == k && device.memory[..] == MemRun(mem, device.base, ops[..k])
      invariant Answered(replies, mem, device.base, outside, ops, k)
    {
      MemRunNext(mem, device.base, ops, k);
      var cs := ServeOne(device, outside, mem, ops[..k], ops[k]);
      AnsweredNext(replies, cs, mem, device.base, outside, ops);
      replies := replies + [cs];
    }
    assert ops[..|ops|] == ops;
  }
}
