/** The device: what a packet makes of the pseudo memory, and what it is answered with. */
module PsDevice {
  import opened Tlp
  import opened DmaSender
  import opened PsMem
  import opened PsWindow

  /** The guard of the read: the announced length counted from the first requested byte. */
  predicate ReadAnswered(base: uintptr, size: nat, req: seq<byte>)
    requires HasHeader(req)
  {
    Admits(base, size, MrAddr(req), 4 * MrLength(req))
  }

  /** What the packet makes of the memory. */
  function MemAfter(mem: seq<byte>, base: uintptr, p: seq<byte>): (r: seq<byte>)
    requires HasHeader(p) && (IsMwr(p[0]) ==> HasData(p))
    ensures |r| == |mem|
  {
    AddrFieldFits(p);
    if !IsMwr(p[0]) then mem else Store(mem, base, MrAddr(p), MwrData(p))
  }

  /** The memory a read covers, from the start of its first double word on. */
  function Covers(mem: seq<byte>, base: uintptr, outside: nat -> byte, l: Loop): (r: seq<byte>)
    ensures |r| == l.len
  {
    Fetched(mem, base, outside, DwStart(l.addr), l.len)
  }

  /** What the packet is answered with. */
  function Replies(mem: seq<byte>, base: uintptr, outside: nat -> byte, completer: uint16, p: seq<byte>): seq<seq<byte>>
    requires HasHeader(p) && (IsMrd(p[0]) ==> Covered(StartLoop(p)))
  {
    if !IsMrd(p[0]) || !ReadAnswered(base, |mem|, p) then []
    else
      var l := StartLoop(p);
      Completions(p, completer, Covers(mem, base, outside, l), DwStart(l.addr), l)
  }

  /** Packets that are no reads are not answered, and those that are no writes leave the memory as it is. */
  lemma OthersAreIgnored(mem: seq<byte>, base: uintptr, outside: nat -> byte, completer: uint16, p: seq<byte>)
    requires HasHeader(p) && (IsMrd(p[0]) ==> Covered(StartLoop(p))) && (IsMwr(p[0]) ==> HasData(p))
    ensures p[0] % 128 !in {0x00, 0x20} ==> Replies(mem, base, outside, completer, p) == []
    ensures p[0] % 128 !in {0x40, 0x60} ==> MemAfter(mem, base, p) == mem
  {
    KindOf(p[0]);
  }

  lemma MoveOver(cs: seq<seq<byte>>, c: seq<byte>, rest: seq<seq<byte>>)
    ensures cs + ([c] + rest) == (cs + [c]) + rest
    ensures rest == [] ==> (cs + [c]) + rest == cs + [c]
  {
  }

  /** What a legal read's loop owes of the memory it covers are the bytes from its address on. */
  lemma OwedIsFetched(mem: seq<byte>, base: uintptr, outside: nat -> byte, l: Loop)
    requires Tight(l)
    ensures InWindow(DwStart(l.addr), l.len, l)
    ensures OwedBytes(Covers(mem, base, outside, l), DwStart(l.addr), l)
      == Fetched(mem, base, outside, l.addr, l.dataLen)
  {
    var lane := l.addr - DwStart(l.addr);
    LaneOf(l.addr);
    FetchedSlice(mem, base, outside, DwStart(l.addr), l.len, lane, l.dataLen);
  }

  lemma LaneOf(addr: nat)
    ensures addr - DwStart(addr) == addr % 4
  {
  }

  /** An admitted read is answered by completions that reassemble to the bytes from its address on. */
  lemma TightReadDelivers(mem: seq<byte>, base: uintptr,
                          outside: nat -> byte, completer: uint16, req: seq<byte>, l: Loop)
    requires HasHeader(req) && l == StartLoop(req) && Tight(l) && IsMrd(req[0]) && ReadAnswered(base, |mem|, req)
    ensures var cs := Replies(mem, base, outside, completer, req);
      AllHaveHeaders(cs) && Reassemble(cs) == Fetched(mem, base, outside, l.addr, l.dataLen)
  {
    OwedIsFetched(mem, base, outside, l);
    CompletionsReassemble(req, completer, Covers(mem, base, outside, l), DwStart(l.addr), l);
  }

  /** The memory one pass copies, from an address that may have wrapped. */
  lemma CarriedIsFetched(mem: seq<byte>, base: uintptr, outside: nat -> byte, l0: Loop, l: Loop)
    requires InWindow(DwStart(l0.addr), l0.len, l) && l0.addr < ADDRESSES && l0.len <= 4096
    ensures var from := DwStart(l.addr) - DwStart(l0.addr);
      Fetched(mem, base, outside, DwStart(Wrap64(l.addr)), SendLen(l))
        == Covers(mem, base, outside, l0)[from..from + SendLen(l)]
  {
    WrapKeepsLow(l.addr);
    DwStartBelow(l0.addr);
    FetchedWrapped(mem, base, outside, DwStart(l.addr), SendLen(l));
    FetchedSlice(mem, base, outside, DwStart(l0.addr), l0.len, DwStart(l.addr) - DwStart(l0.addr), SendLen(l));
  }

  lemma DwStartBelow(addr: nat)
    ensures DwStart(addr) <= addr
  {
  }

  /** What is still to be sent in a loop state; said of any state equal to it, so that it need not be unfolded. */
  ghost predicate Owes(todo: seq<seq<byte>>, p: seq<byte>, completer: uint16, seen: seq<byte>, start: nat, l: Loop)
    requires HasHeader(p)
  {
    forall m: Loop :: m == l ==>
      Covered(m) && InWindow(start, |seen|, m) && todo == Completions(p, completer, seen, start, m)
  }

  lemma OwesAll(p: seq<byte>, completer: uint16, seen: seq<byte>, start: nat, l: Loop) returns (todo: seq<seq<byte>>)
    requires HasHeader(p) && Covered(l) && InWindow(start, |seen|, l)
    ensures todo == Completions(p, completer, seen, start, l) && Owes(todo, p, completer, seen, start, l)
  {
    todo := Completions(p, completer, seen, start, l);
  }

  /** The pseudo memory: `psmem_size` bytes that the device shows from `base` on. */
  class PseudoMemory {
    const base: uintptr
    const completer: uint16
    const memory: array<byte>

    constructor (base: uintptr, size: nat, completer: uint16)
      ensures this.base == base && this.completer == completer
      ensures fresh(memory) && memory[..] == Zeros(size)
    {
      this.base := base;
      this.completer := completer;
      memory := new byte[size](i => 0);
    }

    /** nettlp_psmem_mwr */
    method Write(p: seq<byte>)
      requires HasData(p) && memory.Length < ADDRESSES
      modifies memory
      ensures MrAddr(p) < ADDRESSES
      ensures memory[..] == Store(old(memory[..]), base, MrAddr(p), MwrData(p))
    {
      AddrFieldFits(p);
      var addr: nat := ReadMrAddr(p);
      var data, len := Data(p);
      if addr < base || Wrap64(addr + len) > Wrap64(base + memory.Length) {
        return;
      }
      CopyIn(addr, data);
    }

    /** The data of a write and its length. */
    method Data(p: seq<byte>) returns (data: seq<byte>, len: nat)
      requires HasData(p)
      ensures data == MwrData(p) && len == |data|
    {
      var off: nat := ReadMwrDataOffset(p);
      len := ReadMrDataLength(p);
      data := p[off..off + len];
    }

    /** memcpy to an address: what falls into the buffer lands there, the rest beside it. */
    method CopyIn(addr: uintptr, data: seq<byte>)
      requires memory.Length < ADDRESSES && |data| < ADDRESSES
      modifies memory
      ensures forall k :: 0 <= k < memory.Length ==> memory[k] == Landed(old(memory[..]), base, addr, data, k)
    {
      for i := 0 to |data|
        invariant forall k :: 0 <= k < memory.Length ==> memory[k] == Landed(old(memory[..]), base, addr, data[..i], k)
      {
        var k := Reached(base, addr, i);
        forall j | 0 <= j < memory.Length ensures Reached(addr, base, j) == i <==> k == j {
          OffsetTurns(addr, base, i, j);
        }
        if k < memory.Length {
          memory[k] := data[i];
        }
      }
      assert data[..|data|] == data;
    }

    /** memcpy from an address. */
    method Fetch(outside: nat -> byte, from: nat, n: nat) returns (data: seq<byte>)
      ensures data == Fetched(memory[..], base, outside, from, n)
    {
      data := [];
      for i := 0 to n
        invariant data == Fetched(memory[..], base, outside, from, i)
      {
        FetchedSnoc(memory[..], base, outside, from, i);
        var k := Offset(base, from + i);
        data := data + [if k < memory.Length then memory[k] else outside(Wrap64(from + i))];
      }
    }

    /** The completion of one pass: its header, then the memory it carries. */
    method Build(p: seq<byte>,
                 outside: nat -> byte, sendLen: nat, dataLen: int, addr: nat, ghost l0: Loop, ghost l: Loop)
      returns (c: seq<byte>)
      requires HasHeader(p) && InWindow(DwStart(l0.addr), l0.len, l) && l0.addr < ADDRESSES && l0.len <= 4096
      requires sendLen == SendLen(l) && dataLen == l.dataLen && addr == Wrap64(l.addr)
      ensures c == OneCompletion(p, completer, Covers(memory[..], base, outside, l0), DwStart(l0.addr), l)
    {
      LowBitsAgree(l.addr);
      var h := Head(p, sendLen, dataLen, addr, l.addr);
      var data := Fetch(outside, DwStart(addr), sendLen);
      CarriedIsFetched(memory[..], base, outside, l0, l);
      c := h + data;
    }

    /** The header of one pass; of the address it shows only the low bits. */
    method Head(p: seq<byte>, sendLen: nat, dataLen: int, addr: nat, ghost unwrapped: nat) returns (h: seq<byte>)
      requires HasHeader(p) && addr % 128 == unwrapped % 128
      ensures h == CplHeader(p, completer, sendLen, dataLen, unwrapped)
    {
      h := CplHeader(p, completer, sendLen, dataLen, addr);
    }

    lemma LowBitsAgree(x: nat)
      ensures Wrap64(x) % 128 == x % 128
    {
      WrapKeepsLow(x);
    }

    /** One pass of the split loop: build a completion, advance the loop variables. */
    method SendOne(p: seq<byte>, outside: nat -> byte, len: nat, dataLen: int, addr: nat,
                   ghost l0: Loop, ghost l: Loop, ghost seen: seq<byte>, ghost todo: seq<seq<byte>>)
      returns (c: seq<byte>, len': nat, dataLen': int, addr': nat, ghost l': Loop, ghost rest: seq<seq<byte>>)
      requires HasHeader(p) && Owes(todo, p, completer, seen, DwStart(l0.addr), l)
      requires l0.addr < ADDRESSES && l0.len <= 4096 && seen == Covers(memory[..], base, outside, l0)
      requires len == l.len && dataLen == l.dataLen && addr == Wrap64(l.addr)
      ensures len' == Pass(l).len && dataLen' == Pass(l).dataLen && addr' == Wrap64(Pass(l).addr) && l' == Pass(l)
      ensures todo == [c] + rest
      ensures dataLen' <= 0 ==> rest == []
      ensures dataLen' > 0 ==> len' < len && Owes(rest, p, completer, seen, DwStart(l0.addr), l')
    {
      assert Covered(l) && InWindow(DwStart(l0.addr), |seen|, l);
      var sendLen := if len < MAX_PAYLOAD then len else MAX_PAYLOAD;
      c := Build(p, outside, sendLen, dataLen, addr, l0, l);
      WrapKeepsLow(l.addr);
      DwStartBelow(l0.addr);
      len', dataLen', addr' := len - sendLen, dataLen - (sendLen - addr % 4), Wrap64(DwStart(addr) + sendLen);
      l' := Pass(l);
      rest := CompletionsUnfold(p, completer, seen, DwStart(l0.addr), l);
    }

    /** nettlp_psmem_mrd: the guard, then the do-while loop that splits the answer. */
    method Read(p: seq<byte>, outside: nat -> byte) returns (cs: seq<seq<byte>>)
      requires HasHeader(p) && IsMrd(p[0]) && Covered(StartLoop(p))
      ensures cs == Replies(memory[..], base, outside, completer, p)
    {
      AddrFieldFits(p);
      var len: nat := 4 * MrLength(p);
      var dataLen := ReadMrDataLength(p);
      var addr: nat := ReadMrAddr(p);
      ghost var l := StartLoop(p);
      assert l == Loop(len, dataLen, addr);
      if addr < base || Wrap64(addr + len) > Wrap64(base + memory.Length) {
        assert !ReadAnswered(base, memory.Length, p);
        return [];
      }
      assert ReadAnswered(base, memory.Length, p);
      cs := Split(p, outside, len, dataLen, addr);
    }

    method Split(p: seq<byte>, outside: nat -> byte, len0: nat, dataLen0: int, addr0: uintptr)
      returns (cs: seq<seq<byte>>)
      requires HasHeader(p) && Covered(Loop(len0, dataLen0, addr0)) && len0 <= 4096
      ensures var l := Loop(len0, dataLen0, addr0);
        cs == Completions(p, completer, Covers(memory[..], base, outside, l), DwStart(l.addr), l)
    {
      ghost var l0, l := Loop(len0, dataLen0, addr0), Loop(len0, dataLen0, addr0);
      ghost var seen, start := Covers(memory[..], base, outside, l0), DwStart(l0.addr);
      ghost var todo := OwesAll(p, completer, seen, start, l0);
      ghost var all := todo;
      var len: nat, dataLen, addr: nat := len0, dataLen0, addr0;
      cs := [];
      while true
        invariant Owes(todo, p, completer, seen, start, l) && cs + todo == all
        invariant len == l.len && dataLen == l.dataLen && addr == Wrap64(l.addr)
        decreases len
      {
        var c;
        ghost var rest;
        c, len, dataLen, addr, l, rest := SendOne(p, outside, len, dataLen, addr, l0, l, seen, todo);
        MoveOver(cs, c, rest);
        cs, todo := cs + [c], rest;
        if dataLen <= 0 {
          break;
        }
      }
    }

    /** nettlp_psmem_receive, from the TLP header on; completions and other types are ignored. */
    method Receive(p: seq<byte>, outside: nat -> byte) returns (cs: seq<seq<byte>>)
      requires HasHeader(p) && (IsMrd(p[0]) ==> Covered(StartLoop(p))) && (IsMwr(p[0]) ==> HasData(p))
      requires memory.Length < ADDRESSES
      modifies memory
      ensures memory[..] == MemAfter(old(memory[..]), base, p)
      ensures cs == Replies(old(memory[..]), base, outside, completer, p)
    {
      cs := [];
      if IsMrd(p[0]) {
        cs := Read(p, outside);
      } else if IsMwr(p[0]) {
        Write(p);
      }
    }
  }
}
