/** How the sender lays out memory reads and writes, and what the receiver makes of them. */
module DmaSender {
  import opened Tlp

  /** What the packet buffer held before: the setters leave some header bits as they were. */
  type Raw = r: seq<byte> | |r| == 4 witness [0, 0, 0, 0]

  /** A request the sender can encode: its enables come out right, and its length fits the length field. */
  predicate Encodable(addr: uintptr, count: nat) {
    Fits(addr, count) && Length(addr, count) <= 1023
  }

  /** The 3DW format is used below 0xFFFFFFFF. */
  predicate Short(addr: uintptr) {
    addr < 0xFFFF_FFFF
  }

  function Header(raw: Raw, requester: uint16, tag: byte, addr: uintptr, count: nat, withData: bool): (h: seq<byte>)
    requires Encodable(addr, count)
    ensures |h| == MR_FIXED + (if Short(addr) then 4 else 8)
  {
    var ft := SetFmt(SetType(raw[0], TLP_TYPE_MEM), !Short(addr), withData);
    LengthRoundTripIff(Field16(raw, 2), Length(addr, count));
    var falen := SetLength(Field16(raw, 2), Length(addr, count));
    [ft, raw[1], falen / 256, falen % 256, requester / 256, requester % 256, tag,
     FirstDw(addr, count) + 16 * LastDw(addr, count)]
    + BytesOf(DwStart(addr), if Short(addr) then 4 else 8)
  }

  /** The sender's padding before the data: every disabled byte among the lower three. */
  function FirstPad(fst: nibble): nat {
    if fst == 0 || fst == 15 then 0 else CountClear(fst, 3)
  }

  /** The sender's padding behind the data: every disabled byte among the upper three. */
  function LastPad(lst: nibble): nat {
    if lst == 0 || lst == 15 then 0 else One(!Bit(lst, 3)) + One(!Bit(lst, 2)) + One(!Bit(lst, 1))
  }

  function One(b: bool): nat {
    if b then 1 else 0
  }

  /** What the sender puts behind the header of a write. */
  function DataRegion(addr: uintptr, payload: seq<byte>): seq<byte>
    requires Encodable(addr, |payload|)
  {
    Zeros(FirstPad(FirstDw(addr, |payload|))) + payload + Zeros(LastPad(LastDw(addr, |payload|)))
  }

  function WritePacket(raw: Raw, requester: uint16, tag: byte, addr: uintptr, payload: seq<byte>): seq<byte>
    requires Encodable(addr, |payload|)
  {
    Header(raw, requester, tag, addr, |payload|, true) + DataRegion(addr, payload)
  }

  function ReadPacket(raw: Raw, requester: uint16, tag: byte, addr: uintptr, count: nat): seq<byte>
    requires Encodable(addr, count)
  {
    Header(raw, requester, tag, addr, count, false)
  }

  /** The data the receiver of a write takes out of the packet. */
  predicate HasData(p: seq<byte>) {
    HasHeader(p) && MrDataLength(p) >= 0 && MwrDataOffset(p) + MrDataLength(p) <= |p|
  }

  function MwrData(p: seq<byte>): seq<byte>
    requires HasData(p)
  {
    p[MwrDataOffset(p)..MwrDataOffset(p) + MrDataLength(p)]
  }

  // ---------------------------------------------------------------- decoding inverts encoding

  lemma SenderFirst(addr: uintptr, count: nat)
    ensures var fst, a := FirstDw(addr, count), addr % 4;
      && LeadingDisabled(fst) == (if count == 0 then 0 else a)
      && (count > 0 ==> Disabled(fst) == (if a + count < 4 then 4 - count else a))
      && (count == 0 ==> fst == 0)
  {
    FirstDwBits(addr, count, 0);
    FirstDwBits(addr, count, 1);
    FirstDwBits(addr, count, 2);
    FirstDwBits(addr, count, 3);
    CountClearAll(FirstDw(addr, count));
  }

  lemma SenderLast(addr: uintptr, count: nat)
    requires Fits(addr, count)
    ensures var lst, a := LastDw(addr, count), addr % 4;
      && TrailingDisabled(lst) == LastPad(lst)
      && (count > 0 ==> LastPad(lst) == (if a + count <= 4 then 0 else (4 - (a + count) % 4) % 4))
      && (count == 0 ==> lst == 0)
  {
    if count > 0 {
      LastDwBits(addr, count, 0);
      LastDwBits(addr, count, 1);
      LastDwBits(addr, count, 2);
      LastDwBits(addr, count, 3);
    }
  }

  /** What the disabled bytes of a sender's request add up to. */
  lemma SenderEnables(addr: uintptr, count: nat)
    requires Fits(addr, count)
    ensures var fst, lst, a := FirstDw(addr, count), LastDw(addr, count), addr % 4;
      && LeadingDisabled(fst) == (if count == 0 then 0 else a)
      && TrailingDisabled(lst) == LastPad(lst)
      && (count > 0 ==> 4 * Length(addr, count) - Disabled(fst) - TrailingDisabled(lst) == count)
      && (count > 0 ==> LastPad(lst) == (if a + count <= 4 then 0 else (4 - (a + count) % 4) % 4))
      && (count == 0 ==> fst == 0 && lst == 0)
  {
    SenderFirst(addr, count);
    SenderLast(addr, count);
  }

  lemma CountClearAll(be: nibble)
    ensures CountClear(be, 3) == One(!Bit(be, 0)) + One(!Bit(be, 1)) + One(!Bit(be, 2))
    ensures CountClear(be, 4) == CountClear(be, 3) + One(!Bit(be, 3))
  {
    assert CountClear(be, 1) == One(!Bit(be, 0));
    assert CountClear(be, 2) == CountClear(be, 1) + One(!Bit(be, 1));
  }

  /** The packet carries a request for [addr, addr + count) as the receiver's accessors read it. */
  ghost predicate Encodes(p: seq<byte>, addr: uintptr, count: nat, withData: bool)
    requires Encodable(addr, count)
  {
    && HasHeader(p)
    && (if withData then IsMwr(p[0]) else IsMrd(p[0]))
    && MrLength(p) == Length(addr, count)
    && MrFirst(p) == FirstDw(addr, count) && MrLast(p) == LastDw(addr, count)
    && AddrField(p) == DwStart(addr)
  }

  /**
   * A request decodes to what was encoded, in the 3DW and in the 4DW format, whatever the packet
   * buffer held before and whatever follows the header.
   */
  lemma HeaderDecodes(raw: Raw, requester: uint16, tag: byte, addr: uintptr, count: nat, withData: bool,
                      rest: seq<byte>)
    requires Encodable(addr, count)
    ensures var p := Header(raw, requester, tag, addr, count, withData) + rest;
      && Encodes(p, addr, count, withData)
      && (Is3Dw(p[0]) <==> addr < 0xFFFF_FFFF)
      && p[4] as int * 256 + p[5] as int == requester && p[6] == tag
  {
    var h := Header(raw, requester, tag, addr, count, withData);
    var p := h + rest;
    var size := if Short(addr) then 4 else 8;
    assert p[..8] == h[..8];
    FormatDecodes(raw[0], !Short(addr), withData);
    FieldsDecode(Field16(raw, 2), Length(addr, count), requester, FirstDw(addr, count), LastDw(addr, count));
    assert p[MR_FIXED..MR_FIXED + size] == BytesOf(DwStart(addr), size);
    AddressFits(addr);
    BigEndianRoundTrip(DwStart(addr), size);
  }

  /** What the setters do not name is what the buffer held. */
  lemma HeaderKeeps(raw: Raw, requester: uint16, tag: byte, addr: uintptr, count: nat, withData: bool)
    requires Encodable(addr, count)
    ensures var h := Header(raw, requester, tag, addr, count, withData);
      h[0] / 128 == raw[0] / 128 && h[1] == raw[1] && h[2] / 4 == raw[2] / 4
  {
    LengthRoundTripIff(Field16(raw, 2), Length(addr, count));
    LengthFlags(Field16(raw, 2), Length(addr, count));
    FormatTop(raw[0], !Short(addr), withData);
  }

  lemma LengthFlags(falen: uint16, v: nat)
    requires v < 1024
    ensures SetLength(falen, v) < 0x1_0000 && SetLength(falen, v) / 256 / 4 == falen / 256 / 4
  {
    LengthRoundTripIff(falen, v);
  }

  lemma FormatTop(ft: byte, fourDw: bool, withData: bool)
    ensures SetFmt(SetType(ft, TLP_TYPE_MEM), fourDw, withData) / 128 == ft / 128
  {
  }

  lemma FormatDecodes(ft: byte, fourDw: bool, withData: bool)
    ensures var f := SetFmt(SetType(ft, TLP_TYPE_MEM), fourDw, withData);
      && (Is3Dw(f) <==> !fourDw)
      && (if withData then IsMwr(f) else IsMrd(f))
  {
  }

  lemma FieldsDecode(falen: uint16, length: nat, requester: uint16, fst: nibble, lst: nibble)
    requires length <= 1023
    ensures var v := SetLength(falen, length);
      v < 0x1_0000 && GetLength(v / 256 * 256 + v % 256) == length
    ensures requester / 256 * 256 + requester % 256 == requester
    ensures (fst + 16 * lst) % 16 == fst && (fst + 16 * lst) / 16 == lst
  {
    LengthRoundTripIff(falen, length);
  }

  lemma AddressFits(addr: uintptr)
    ensures DwStart(addr) < Pow256(if Short(addr) then 4 else 8)
  {
    Pow256Values();
  }

  /** The receiver finds the sender's address and byte count. */
  lemma RequestDecodes(p: seq<byte>, addr: uintptr, count: nat, withData: bool)
    requires Encodable(addr, count) && count > 0 && Encodes(p, addr, count, withData)
    ensures MrAddr(p) == addr && MrDataLength(p) == count
  {
    SenderEnables(addr, count);
  }

  /** An empty request reads back as empty only if it is aligned; otherwise it reads back as 4 bytes. */
  lemma EmptyRequestDecodesIffAligned(p: seq<byte>, addr: uintptr, withData: bool)
    requires Encodable(addr, 0) && Encodes(p, addr, 0, withData)
    ensures MrDataLength(p) == 0 <==> addr % 4 == 0
    ensures MrDataLength(p) in {0, 4}
  {
    SenderEnables(addr, 0);
  }

  lemma AppendNothing(h: seq<byte>)
    ensures h + [] == h
  {
  }

  /** A read request is its header, so it decodes like one. */
  lemma ReadPacketDecodes(raw: Raw, requester: uint16, tag: byte, addr: uintptr, count: nat)
    requires Encodable(addr, count)
    ensures Encodes(ReadPacket(raw, requester, tag, addr, count), addr, count, false)
  {
    AppendNothing(Header(raw, requester, tag, addr, count, false));
    HeaderDecodes(raw, requester, tag, addr, count, false, []);
  }

  lemma FirstPadValue(addr: uintptr, count: nat)
    requires count > 0
    ensures FirstPad(FirstDw(addr, count)) == if addr % 4 + count >= 4 then addr % 4 else 3 - count
  {
    var fst := FirstDw(addr, count);
    FirstDwBits(addr, count, 0);
    FirstDwBits(addr, count, 1);
    FirstDwBits(addr, count, 2);
    FirstDwBits(addr, count, 3);
    CountClearAll(fst);
  }

  /** The sender's and the receiver's data offsets agree exactly unless the enables are 1, 2 or 3. */
  lemma PaddingAgreesIff(addr: uintptr, count: nat)
    requires count > 0 && Fits(addr, count)
    ensures var fst := FirstDw(addr, count);
      && (FirstPad(fst) == LeadingDisabled(fst) <==> fst !in {1, 2, 3})
      && (FirstPad(fst) == LeadingDisabled(fst) <==> addr % 4 + count >= 3)
  {
    SenderEnables(addr, count);
    FirstPadValue(addr, count);
    var a := addr % 4;
    assert a == 0 || a == 1 || a == 2 || a == 3;
    assert count == 1 || count == 2 || count == 3 || count >= 4;
  }

  /** The data region fills the announced double words exactly iff the request reaches past its first one. */
  lemma RegionFillsLengthIff(addr: uintptr, payload: seq<byte>)
    requires Encodable(addr, |payload|) && |payload| > 0
    ensures |DataRegion(addr, payload)| == 4 * Length(addr, |payload|) <==> addr % 4 + |payload| >= 4
  {
    SenderEnables(addr, |payload|);
    FirstPadValue(addr, |payload|);
  }

  lemma SliceBehind(h: seq<byte>, r: seq<byte>, i: nat, j: nat)
    requires i <= j <= |r|
    ensures (h + r)[|h| + i..|h| + j] == r[i..j]
  {
  }

  lemma RegionCovers(addr: uintptr, payload: seq<byte>)
    requires Encodable(addr, |payload|) && |payload| > 0
    ensures LeadingDisabled(FirstDw(addr, |payload|)) + |payload| <= |DataRegion(addr, payload)|
  {
    SenderEnables(addr, |payload|);
    FirstPadValue(addr, |payload|);
  }

  /** Where the receiver looks, relative to the sender's data region. */
  lemma ReceiverWindow(raw: Raw, requester: uint16, tag: byte, addr: uintptr, payload: seq<byte>)
    requires Encodable(addr, |payload|) && |payload| > 0
    ensures var p := WritePacket(raw, requester, tag, addr, payload);
      var skip := LeadingDisabled(FirstDw(addr, |payload|));
      && HasData(p) && skip + |payload| <= |DataRegion(addr, payload)|
      && MwrData(p) == DataRegion(addr, payload)[skip..skip + |payload|]
  {
    var region := DataRegion(addr, payload);
    var skip := LeadingDisabled(FirstDw(addr, |payload|));
    HeaderDecodes(raw, requester, tag, addr, |payload|, true, region);
    RequestDecodes(WritePacket(raw, requester, tag, addr, payload), addr, |payload|, true);
    RegionCovers(addr, payload);
    SliceBehind(Header(raw, requester, tag, addr, |payload|, true), region, skip, skip + |payload|);
  }

  /** From three bytes past the double-word boundary on, the receiver gets exactly the payload. */
  lemma WriteRecovers(raw: Raw, requester: uint16, tag: byte, addr: uintptr, payload: seq<byte>)
    requires Encodable(addr, |payload|) && |payload| > 0
    requires addr % 4 + |payload| >= 3
    ensures var p := WritePacket(raw, requester, tag, addr, payload);
      Encodes(p, addr, |payload|, true) && HasData(p) && MwrData(p) == payload
  {
    ReceiverWindow(raw, requester, tag, addr, payload);
    HeaderDecodes(raw, requester, tag, addr, |payload|, true, DataRegion(addr, payload));
    PaddingAgreesIff(addr, |payload|);
  }

  /** Every payload of this size at this address is recovered by the receiver. */
  ghost predicate RecoversAll(raw: Raw, requester: uint16, tag: byte, addr: uintptr, count: nat)
    requires Encodable(addr, count)
  {
    forall payload: seq<byte> :: |payload| == count ==>
      HasData(WritePacket(raw, requester, tag, addr, payload))
        && MwrData(WritePacket(raw, requester, tag, addr, payload)) == payload
  }

  /** Below that bound some payload is garbled, so the bound is exact. */
  lemma WriteRecoversIff(raw: Raw, requester: uint16, tag: byte, addr: uintptr, count: nat)
    requires Encodable(addr, count) && count > 0
    ensures RecoversAll(raw, requester, tag, addr, count) <==> addr % 4 + count >= 3
  {
    if addr % 4 + count >= 3 {
      forall payload: seq<byte> | |payload| == count
        ensures HasData(WritePacket(raw, requester, tag, addr, payload))
        ensures MwrData(WritePacket(raw, requester, tag, addr, payload)) == payload
      {
        WriteRecovers(raw, requester, tag, addr, payload);
      }
    } else {
      ShortWriteGarbles(raw, requester, tag, addr, count);
    }
  }

  /** A short write near the start of its double word: the receiver's first byte is padding. */
  lemma ShortWriteGarbles(raw: Raw, requester: uint16, tag: byte, addr: uintptr, count: nat)
    requires Encodable(addr, count) && count > 0 && addr % 4 + count < 3
    ensures !RecoversAll(raw, requester, tag, addr, count)
  {
    var payload: seq<byte> := seq(count, i => 255);
    var skip := LeadingDisabled(FirstDw(addr, count));
    ReceiverWindow(raw, requester, tag, addr, payload);
    SenderFirst(addr, count);
    FirstPadValue(addr, count);
    RegionStartsWithPad(addr, payload, skip);
    assert MwrData(WritePacket(raw, requester, tag, addr, payload)) != payload;
  }

  lemma RegionStartsWithPad(addr: uintptr, payload: seq<byte>, i: nat)
    requires Encodable(addr, |payload|) && i < FirstPad(FirstDw(addr, |payload|))
    ensures DataRegion(addr, payload)[i] == 0
  {
  }

  // ---------------------------------------------------------------- the sending methods

  method CountPad(be: nibble, fromTop: bool) returns (pad: nat)
    ensures pad == if fromTop then LastPad(be) else FirstPad(be)
  {
    pad := 0;
    CountClearAll(be);
    if be != 0 && be != 15 {
      for n := 0 to 3
        invariant !fromTop ==> pad == CountClear(be, n)
        invariant fromTop ==> pad == (if n > 0 then One(!Bit(be, 3)) else 0) + (if n > 1 then One(!Bit(be, 2)) else 0)
                                     + (if n > 2 then One(!Bit(be, 1)) else 0)
      {
        if !Bit(be, if fromTop then 3 - n else n) {
          pad := pad + 1;
        }
      }
    }
  }

  /** nettlp_send_dma_write, from the TLP header to the end of the data. */
  method SendDmaWrite(raw: Raw, requester: uint16, tag: byte, addr: uintptr, payload: seq<byte>) returns (p: seq<byte>)
    requires Encodable(addr, |payload|)
    ensures p == WritePacket(raw, requester, tag, addr, payload)
  {
    var fst, lst := FirstDw(addr, |payload|), LastDw(addr, |payload|);
    p := Header(raw, requester, tag, addr, |payload|, true);
    var region := AppendData(fst, lst, payload);
    p := p + region;
  }

  /** The padding and the payload behind the header. */
  method AppendData(fst: nibble, lst: nibble, payload: seq<byte>) returns (p: seq<byte>)
    ensures p == Zeros(FirstPad(fst)) + payload + Zeros(LastPad(lst))
  {
    p := [];
    var pad := CountPad(fst, false);
    if pad > 0 {
      p := Zeros(pad);
    }
    p := p + payload;
    pad := CountPad(lst, true);
    if pad > 0 {
      p := p + Zeros(pad);
    }
  }
}
