/**
 * The pseudo-memory completer: memory writes into a byte window, memory reads answered by
 * completions of at most 256 bytes (sections 2.2.9 and 2.3.1.1 of the PCI Express Base
 * Specification 3.0).
 */
module PsMem {
  import opened Tlp
  import opened DmaSender

  const MAX_PAYLOAD: nat := 256
  const CPL_HEADER: nat := 12

  // ---------------------------------------------------------------- one completion

  /**
   * The completion header is written over a copy of the request's first 12 bytes, so fields the
   * setters do not name keep request bits.
   */
  function CplHeader(req: seq<byte>, completer: uint16, sendLen: nat, dataLen: int, addr: nat): (h: seq<byte>)
    requires HasHeader(req)
    ensures |h| == CPL_HEADER
  {
    var falen := SetLength(Field16(req, 2), sendLen / 4) % 0x1_0000;
    var stcnt := StatusWord(Field16(req, 6), dataLen);
    [SetType(SetFmt(req[0], false, true), TLP_TYPE_CPL), req[1], falen / 256, falen % 256,
     completer / 256, completer % 256, stcnt / 256, stcnt % 256, req[4], req[5], req[6], addr % 128]
  }

  function CplLength(c: seq<byte>): nat requires |c| >= CPL_HEADER { GetLength(Field16(c, 2)) }

  function CplByteCount(c: seq<byte>): nat requires |c| >= CPL_HEADER { GetByteCount(Field16(c, 6)) }

  function CplLowAddr(c: seq<byte>): nat requires |c| >= CPL_HEADER { c[11] }

  function CplData(c: seq<byte>): seq<byte> requires |c| >= CPL_HEADER { c[CPL_HEADER..] }

  /** tlp_cpld_data_length */
  function CpldDataLength(c: seq<byte>): int
    requires |c| >= CPL_HEADER
  {
    if CplLength(c) == (CplLowAddr(c) % 4 + CplByteCount(c) + 3) / 4 then CplByteCount(c)
    else 4 * CplLength(c) - CplLowAddr(c) % 4
  }

  /** The data a requester keeps of a completion: padding dropped at both ends. */
  function Kept(c: seq<byte>): seq<byte>
    requires |c| >= CPL_HEADER
  {
    var skip := CplLowAddr(c) % 4;
    if 0 <= CpldDataLength(c) && skip + CpldDataLength(c) <= |CplData(c)|
    then CplData(c)[skip..skip + CpldDataLength(c)] else []
  }

  predicate AllHaveHeaders(cs: seq<seq<byte>>) {
    forall k :: 0 <= k < |cs| ==> |cs[k]| >= CPL_HEADER
  }

  /** What a requester reassembles from the completions it receives. */
  function Reassemble(cs: seq<seq<byte>>): seq<byte>
    requires AllHaveHeaders(cs)
  {
    if cs == [] then [] else Kept(cs[0]) + Reassemble(cs[1..])
  }

  /** All data carried, padding included. */
  function Payloads(cs: seq<seq<byte>>): seq<byte>
    requires AllHaveHeaders(cs)
  {
    if cs == [] then [] else CplData(cs[0]) + Payloads(cs[1..])
  }

  lemma FieldSplit(f: uint16)
    ensures f / 256 * 256 + f % 256 == f
  {
  }

  /** The status word with its byte count: success, and bit 12 as it was. */
  function StatusWord(stcnt: uint16, dataLen: int): uint16 {
    SetByteCount(SetStatusSuccess(stcnt), dataLen % 0x1_0000) % 0x1_0000
  }

  /** Bit 12 of a status word, the reserved one. */
  function ReservedBit(stcnt: uint16): nat {
    stcnt % 8192 / 4096
  }

  lemma WordOf(bit: nat, d: nat)
    requires bit <= 1 && d < 4096
    ensures var w := bit * 4096 + d;
      && w < 8192 && GetByteCount(w) == d && GetStatus(w) == 0 && ReservedBit(w) == bit
  {
    if bit == 0 {
      assert bit * 4096 + d == d;
    } else {
      assert bit == 1 && bit * 4096 + d == 4096 + d;
    }
  }

  lemma StatusWordFields(stcnt: uint16, dataLen: int)
    requires 0 <= dataLen < 4096
    ensures GetByteCount(StatusWord(stcnt, dataLen)) == dataLen
    ensures GetStatus(StatusWord(stcnt, dataLen)) == 0
    ensures ReservedBit(StatusWord(stcnt, dataLen)) == ReservedBit(stcnt)
  {
    var low := SetStatusSuccess(stcnt);
    assert dataLen % 0x1_0000 == dataLen;
    var w := SetByteCount(low, dataLen);
    SetLowKeeps(low, 4096, dataLen);
    WordOf(low / 4096, dataLen);
    assert w < 8192 && w % 0x1_0000 == w;
  }

  lemma ReservedBitOfTag(hi: byte, lo: byte)
    ensures ReservedBit(hi * 256 + lo) == hi / 16 % 2
  {
    var q, b, r := hi / 32, hi / 16 % 2, hi % 16;
    assert hi == 32 * q + 16 * b + r;
    ModOf(q, 4096 * b + (256 * r + lo));
    WordOf(b, 256 * r + lo);
  }

  lemma ModOf(q: nat, x: nat)
    requires x < 8192
    ensures (8192 * q + x) % 8192 == x
  {
  }

  lemma CplHeaderDecodes(req: seq<byte>, completer: uint16, sendLen: nat, dataLen: int, addr: nat, data: seq<byte>)
    requires HasHeader(req) && sendLen <= MAX_PAYLOAD && 0 <= dataLen < 4096
    ensures var c := CplHeader(req, completer, sendLen, dataLen, addr) + data;
      && CplLength(c) == sendLen / 4
      && CplByteCount(c) == dataLen
      && CplLowAddr(c) == addr % 128
      && CplData(c) == data
  {
    var falen := Field16(req, 2);
    LengthRoundTripIff(falen, sendLen / 4);
    FieldSplit(SetLength(falen, sendLen / 4) % 0x1_0000);
    StatusWordFields(Field16(req, 6), dataLen);
    FieldSplit(StatusWord(Field16(req, 6), dataLen));
  }

  /**
   * The bytes of a completion that identify it, as the wire shows them: a CplD in 3DW format, this
   * completer, successful, for this requester and tag. What the setters do not name shows the
   * request: its attributes, and in the reserved bit 12 of the status word bit 4 of the tag.
   */
  predicate Identifies(c: seq<byte>, req: seq<byte>, completer: uint16)
    requires HasHeader(req) && |req| >= CPL_HEADER
  {
    && |c| >= CPL_HEADER
    && c[0] % 128 == 0x4A && c[0] / 128 == req[0] / 128 && c[1] == req[1] && c[2] / 4 == req[2] / 4
    && c[4] as int * 256 + c[5] as int == completer
    && c[6] / 32 == 0 && c[6] / 16 % 2 == req[6] / 16 % 2
    && c[8] == req[4] && c[9] == req[5] && c[10] == req[6]
  }

  lemma CplIdentifies(req: seq<byte>, completer: uint16, sendLen: nat, dataLen: int, addr: nat, data: seq<byte>)
    requires HasHeader(req) && sendLen <= MAX_PAYLOAD && 0 <= dataLen < 4096
    ensures var c := CplHeader(req, completer, sendLen, dataLen, addr) + data; Identifies(c, req, completer)
  {
    var ft, falen, stcnt := CplParts(req, completer, sendLen, dataLen, addr, data);
    var c := CplHeader(req, completer, sendLen, dataLen, addr) + data;
    assert c[4] as int * 256 + c[5] as int == completer by {
      WordParts(completer);
    }
  }

  /** What the header's bytes are made of. */
  lemma CplParts(req: seq<byte>, completer: uint16, sendLen: nat, dataLen: int, addr: nat, data: seq<byte>)
    returns (ft: byte, falen: uint16, stcnt: uint16)
    requires HasHeader(req) && sendLen <= MAX_PAYLOAD && 0 <= dataLen < 4096
    ensures ft % 128 == 0x4A && ft / 128 == req[0] / 128
    ensures falen / 256 / 4 == req[2] / 4
    ensures stcnt / 256 / 32 == 0 && stcnt / 256 / 16 % 2 == req[6] / 16 % 2
    ensures var c := CplHeader(req, completer, sendLen, dataLen, addr) + data;
      && |c| >= CPL_HEADER
      && c[0] == ft && c[1] == req[1] && c[2] == falen / 256 && c[4] == completer / 256 && c[5] == completer % 256
      && c[6] == stcnt / 256 && c[8] == req[4] && c[9] == req[5] && c[10] == req[6]
  {
    ft := SetType(SetFmt(req[0], false, true), TLP_TYPE_CPL);
    FormatOfCpl(req[0]);
    falen := FlagsOfCpl(req, sendLen / 4);
    stcnt := StatusOfCpl(req, dataLen);
  }

  lemma FlagsOfCpl(req: seq<byte>, v: nat) returns (falen: uint16)
    requires HasHeader(req) && v < 1024
    ensures falen == SetLength(Field16(req, 2), v) % 0x1_0000 && falen / 256 / 4 == req[2] / 4
  {
    var was := Field16(req, 2);
    LengthFlags(was, v);
    TopOfField(req[2], req[3]);
    assert was / 256 == req[2];
    falen := SetLength(was, v);
    WordIs(falen);
  }

  lemma StatusOfCpl(req: seq<byte>, dataLen: int) returns (stcnt: uint16)
    requires HasHeader(req) && 0 <= dataLen < 4096
    ensures stcnt == StatusWord(Field16(req, 6), dataLen)
    ensures stcnt / 256 / 32 == 0 && stcnt / 256 / 16 % 2 == req[6] / 16 % 2
  {
    StatusWordFields(Field16(req, 6), dataLen);
    stcnt := StatusWord(Field16(req, 6), dataLen);
    TopOfStatus(stcnt);
    ReservedBitOfTag(req[6], req[7]);
  }

  lemma TopOfField(hi: byte, lo: byte)
    ensures (hi * 256 + lo) as int / 256 == hi
  {
  }

  lemma WordParts(w: uint16)
    ensures w / 256 < 256 && (w / 256) * 256 + w % 256 == w
  {
  }

  lemma WordIs(w: uint16)
    ensures w % 0x1_0000 == w
  {
  }

  lemma TopOfStatus(w: uint16)
    ensures w / 256 / 32 == GetStatus(w) && w / 256 / 16 % 2 == ReservedBit(w)
  {
  }

  /** The byte count is not masked: a negative one sets all status bits. */
  lemma NegativeCountSpoilsStatus(stcnt: uint16, dataLen: int)
    requires -4096 <= dataLen < 0
    ensures GetStatus(StatusWord(stcnt, dataLen)) == 7
  {
    var low := SetStatusSuccess(stcnt);
    var v: nat := 0x1_0000 + dataLen;
    assert dataLen % 0x1_0000 == v && v / 4096 == 15;
    var q := low / 4096;
    assert q == 0 || q == 1;
    assert BitOr(1, 15) == 15 && BitOr(0, 15) == 15 by {
      assert BitOr(0, 7) == 7;
    }
    assert SetByteCount(low, v) == 15 * 4096 + v % 4096;
  }

  /** The numbers of a completion, as the wire shows them. */
  lemma CplNumbers(c: seq<byte>)
    requires |c| >= CPL_HEADER
    ensures CplLength(c) == c[2] as int % 4 * 256 + c[3] as int
    ensures CplByteCount(c) == c[6] as int % 16 * 256 + c[7] as int
    ensures CplLowAddr(c) == c[11]
  {
    NumberIn(c[2], c[3], 4);
    NumberIn(c[6], c[7], 16);
  }

  lemma FormatOfCpl(ft: byte)
    ensures var f := SetType(SetFmt(ft, false, true), TLP_TYPE_CPL); f % 128 == 0x4A && f / 128 == ft / 128
  {
  }

  // ---------------------------------------------------------------- the split loop

  /** The loop variables of nettlp_psmem_mrd. */
  datatype Loop = Loop(len: nat, dataLen: int, addr: nat)

  function SendLen(l: Loop): nat {
    if l.len < MAX_PAYLOAD then l.len else MAX_PAYLOAD
  }

  /** One pass of the loop body. */
  function Pass(l: Loop): Loop {
    Loop(l.len - SendLen(l), l.dataLen - (SendLen(l) - l.addr % 4), DwStart(l.addr) + SendLen(l))
  }

  function Passes(l: Loop, n: nat): Loop {
    if n == 0 then l else Pass(Passes(l, n - 1))
  }

  /** The bytes asked for lie inside the double words announced. */
  predicate Covered(l: Loop) {
    l.len % 4 == 0 && l.addr % 4 + l.dataLen <= l.len
  }

  lemma {:induction false} PassesSum(l: Loop, n: nat)
    requires l.len % 4 == 0 && n > 0
    ensures var m := Passes(l, n);
      && m.addr % 4 == 0 && m.len % 4 == 0
      && m.len == (if l.len <= MAX_PAYLOAD * n then 0 else l.len - MAX_PAYLOAD * n)
      && m.dataLen == l.dataLen + l.addr % 4 - (l.len - m.len)
  {
    if n > 1 {
      PassesSum(l, n - 1);
    } else {
      assert Passes(l, 0) == l;
    }
  }

  /** The do-while loop ends, for any enables, exactly when the request is covered. */
  lemma LoopEndsIff(l: Loop)
    requires l.len % 4 == 0
    ensures (exists n: nat :: n > 0 && Passes(l, n).dataLen <= 0) <==> Covered(l)
  {
    if Covered(l) {
      PassesSum(l, l.len + 1);
      assert Passes(l, l.len + 1).dataLen <= 0;
    } else {
      forall n: nat | n > 0 ensures Passes(l, n).dataLen > 0 {
        PassesSum(l, n);
      }
    }
  }

  function StartLoop(req: seq<byte>): Loop
    requires HasHeader(req)
  {
    Loop(4 * MrLength(req), MrDataLength(req), MrAddr(req))
  }

  lemma LeadIsDisabled(be: nibble)
    ensures LeadingDisabled(be) < 4 && LeadingDisabled(be) <= Disabled(be)
  {
    CountClearAll(be);
  }

  lemma CoveredFrom(length: nat, d: int, start: nat, lead: nat)
    requires start % 4 == 0 && lead < 4 && lead + d <= 4 * length
    ensures Covered(Loop(4 * length, d, start + lead))
  {
    var k := start / 4;
    assert start + lead == 4 * k + lead;
    assert (4 * k + lead) % 4 == lead;
  }

  /** With the reserved address bits zero, the loop ends for every length and every byte enables. */
  lemma AlignedRequestIsCovered(req: seq<byte>)
    requires HasHeader(req) && AddrField(req) % 4 == 0
    ensures Covered(StartLoop(req))
  {
    LeadIsDisabled(MrFirst(req));
    AddrFieldFits(req);
    CoveredFrom(MrLength(req), MrDataLength(req), AddrField(req), LeadingDisabled(MrFirst(req)));
  }

  predicate InWindow(base: nat, size: nat, l: Loop) {
    base <= DwStart(l.addr) && DwStart(l.addr) + l.len <= base + size
  }

  lemma PassStays(l: Loop, base: nat, size: nat)
    requires Covered(l) && InWindow(base, size, l)
    ensures Covered(Pass(l)) && InWindow(base, size, Pass(l))
    ensures Pass(l).dataLen > 0 ==> l.len > MAX_PAYLOAD && SendLen(l) == MAX_PAYLOAD
  {
  }

  /** The completions sent from a loop state on. */
  function Completions(req: seq<byte>, completer: uint16, mem: seq<byte>, base: nat, l: Loop): (cs: seq<seq<byte>>)
    requires HasHeader(req) && Covered(l) && InWindow(base, |mem|, l)
    decreases l.len
  {
    PassStays(l, base, |mem|);
    [OneCompletion(req, completer, mem, base, l)]
    + if Pass(l).dataLen <= 0 then [] else Completions(req, completer, mem, base, Pass(l))
  }

  function OneCompletion(req: seq<byte>, completer: uint16, mem: seq<byte>, base: nat, l: Loop): (c: seq<byte>)
    requires HasHeader(req) && InWindow(base, |mem|, l)
    ensures |c| >= CPL_HEADER
  {
    CplHeader(req, completer, SendLen(l), l.dataLen, l.addr)
    + mem[DwStart(l.addr) - base..DwStart(l.addr) - base + SendLen(l)]
  }

  lemma CompletionsUnfold(req: seq<byte>, completer: uint16, mem: seq<byte>, base: nat, l: Loop)
    returns (rest: seq<seq<byte>>)
    requires HasHeader(req) && Covered(l) && InWindow(base, |mem|, l)
    ensures Completions(req, completer, mem, base, l) == [OneCompletion(req, completer, mem, base, l)] + rest
    ensures Covered(Pass(l)) && InWindow(base, |mem|, Pass(l))
    ensures Pass(l).dataLen <= 0 ==> rest == []
    ensures Pass(l).dataLen > 0 ==> rest == Completions(req, completer, mem, base, Pass(l)) && Pass(l).len < l.len
  {
    PassStays(l, base, |mem|);
    rest := if Pass(l).dataLen <= 0 then [] else Completions(req, completer, mem, base, Pass(l));
  }

  // ---------------------------------------------------------------- legal reads

  /** Section 2.2.5: contiguous enables, none for a last double word that is also the first. */
  predicate LegalEnables(length: nat, fst: nibble, lst: nibble) {
    if length == 1 then fst in {1, 2, 3, 4, 6, 7, 8, 12, 14, 15} && lst == 0
    else fst in {8, 12, 14, 15} && lst in {1, 3, 7, 15}
  }

  /** Section 2.2.2: how many double words the Length field stands for; 0 means 1024. */
  function DwCount(req: seq<byte>): (n: nat)
    requires HasHeader(req)
    ensures 0 < n <= 1024
  {
    if MrLength(req) == 0 then 1024 else MrLength(req)
  }

  /** How many bytes the request asks for. */
  function Asked(req: seq<byte>): int
    requires HasHeader(req)
  {
    4 * DwCount(req) - Disabled(MrFirst(req)) - TrailingDisabled(MrLast(req))
  }

  predicate LegalRequest(req: seq<byte>) {
    HasHeader(req) && AddrField(req) % 4 == 0 && LegalEnables(DwCount(req), MrFirst(req), MrLast(req))
  }

  /** Every announced double word is needed for the bytes asked for. */
  predicate Tight(l: Loop) {
    Covered(l) && 0 < l.dataLen < 4096 && l.len < l.addr % 4 + l.dataLen + 4
  }

  lemma LegalIsTight(req: seq<byte>)
    requires LegalRequest(req) && MrLength(req) > 0
    ensures Tight(StartLoop(req))
  {
    EnablesTight(MrLength(req), MrFirst(req), MrLast(req));
    AddrFieldFits(req);
    TightFrom(MrLength(req), MrDataLength(req), AddrField(req), LeadingDisabled(MrFirst(req)));
  }

  lemma EnablesTight(length: nat, fst: nibble, lst: nibble)
    requires 0 < length <= 1024 && LegalEnables(length, fst, lst)
    ensures var d := 4 * length - Disabled(fst) - TrailingDisabled(lst);
      0 < d <= 4096 && (length < 1024 ==> d < 4096)
        && LeadingDisabled(fst) + d <= 4 * length < LeadingDisabled(fst) + d + 4
  {
    CountClearAll(fst);
  }

  lemma TightFrom(length: nat, d: int, start: nat, lead: nat)
    requires start % 4 == 0 && lead < 4 && 0 < d < 4096 && lead + d <= 4 * length < lead + d + 4
    ensures Tight(Loop(4 * length, d, start + lead))
  {
  }

  lemma SenderFirstLegal(addr: uintptr, count: nat)
    requires count > 0
    ensures FirstDw(addr, count) in {1, 2, 3, 4, 6, 7, 8, 12, 14, 15}
    ensures addr % 4 + count > 4 ==> FirstDw(addr, count) in {8, 12, 14, 15}
  {
    assert addr % 4 == 0 || addr % 4 == 1 || addr % 4 == 2 || addr % 4 == 3;
    assert count == 1 || count == 2 || count == 3 || count >= 4;
  }

  lemma SenderLastLegal(addr: uintptr, count: nat)
    requires count > 0 && Fits(addr, count)
    ensures if addr % 4 + count <= 4 then LastDw(addr, count) == 0 else LastDw(addr, count) in {1, 3, 7, 15}
    ensures Length(addr, count) == 1 <==> addr % 4 + count <= 4
    ensures Length(addr, count) > 0
  {
  }

  lemma SenderEnablesLegal(addr: uintptr, count: nat)
    requires count > 0 && Fits(addr, count)
    ensures Length(addr, count) > 0
    ensures LegalEnables(Length(addr, count), FirstDw(addr, count), LastDw(addr, count))
  {
    SenderFirstLegal(addr, count);
    SenderLastLegal(addr, count);
  }

  lemma DwStartAligned(addr: nat)
    ensures DwStart(addr) % 4 == 0
  {
  }

  /** The sender's requests are legal. */
  lemma SenderIsLegal(p: seq<byte>, addr: uintptr, count: nat, withData: bool)
    requires Encodable(addr, count) && count > 0 && Encodes(p, addr, count, withData)
    ensures LegalRequest(p) && MrLength(p) > 0
  {
    SenderEnablesLegal(addr, count);
    DwStartAligned(addr);
  }

  // ---------------------------------------------------------------- what the requester gets

  /** The bytes of the window a loop state still owes. */
  function OwedBytes(mem: seq<byte>, base: nat, l: Loop): seq<byte>
    requires Tight(l) && InWindow(base, |mem|, l)
  {
    mem[l.addr - base..l.addr - base + l.dataLen]
  }

  lemma SliceOfSlice(s: seq<byte>, i: nat, j: nat, k: nat, n: nat)
    requires i <= j <= |s| && k + n <= j - i
    ensures s[i..j][k..k + n] == s[i + k..i + k + n]
  {
    var t := s[i..j];
    var a, b := t[k..k + n], s[i + k..i + k + n];
    forall x | 0 <= x < n ensures a[x] == b[x] {
      assert a[x] == t[k + x];
    }
  }

  lemma SliceSplit(s: seq<byte>, i: nat, j: nat, k: nat)
    requires i <= j <= k <= |s|
    ensures s[i..j] + s[j..k] == s[i..k]
  {
  }

  /** How much of one completion the requester keeps. */
  function KeptLen(l: Loop): int {
    if Pass(l).dataLen <= 0 then l.dataLen else SendLen(l) - l.addr % 4
  }

  lemma LowAddrLane(addr: nat)
    ensures addr % 128 % 4 == addr % 4
  {
  }

  lemma CeilDiv(len: nat, n: int)
    requires len % 4 == 0 && 0 <= n
    ensures (n + 3) / 4 == len / 4 <==> len - 4 < n <= len
  {
  }

  lemma PassEnds(l: Loop)
    requires Tight(l)
    ensures Pass(l).dataLen <= 0 <==> l.len <= MAX_PAYLOAD
    ensures Pass(l).dataLen <= 0 <==> SendLen(l) - 4 < l.addr % 4 + l.dataLen <= SendLen(l)
    ensures 0 <= KeptLen(l) && l.addr % 4 + KeptLen(l) <= SendLen(l)
    ensures SendLen(l) % 4 == 0
  {
  }

  lemma DataLengthFormula(l: Loop)
    requires Tight(l)
    ensures (SendLen(l) / 4 == (l.addr % 128 % 4 + l.dataLen + 3) / 4) <==> Pass(l).dataLen <= 0
  {
    LowAddrLane(l.addr);
    PassEnds(l);
    CeilDiv(SendLen(l), l.addr % 4 + l.dataLen);
  }

  lemma OneDataLength(req: seq<byte>, completer: uint16, mem: seq<byte>, base: nat, l: Loop)
    requires HasHeader(req) && Tight(l) && InWindow(base, |mem|, l)
    ensures var c := OneCompletion(req, completer, mem, base, l);
      && CplByteCount(c) == l.dataLen
      && CplLowAddr(c) == l.addr % 128
      && CplData(c) == mem[DwStart(l.addr) - base..DwStart(l.addr) - base + SendLen(l)]
      && CpldDataLength(c) == KeptLen(l)
  {
    var from := DwStart(l.addr) - base;
    var data := mem[from..from + SendLen(l)];
    CplHeaderDecodes(req, completer, SendLen(l), l.dataLen, l.addr, data);
    DataLengthFormula(l);
    LowAddrLane(l.addr);
    PassEnds(l);
  }

  lemma KeptIs(c: seq<byte>, skip: nat, n: nat)
    requires |c| >= CPL_HEADER && CplLowAddr(c) % 4 == skip && CpldDataLength(c) == n && skip + n <= |CplData(c)|
    ensures Kept(c) == CplData(c)[skip..skip + n]
  {
  }

  lemma OneKept(req: seq<byte>, completer: uint16, mem: seq<byte>, base: nat, l: Loop)
    requires HasHeader(req) && Tight(l) && InWindow(base, |mem|, l)
    ensures var c := OneCompletion(req, completer, mem, base, l);
      && CplByteCount(c) == l.dataLen
      && CplLowAddr(c) == l.addr % 128
      && CplData(c) == mem[DwStart(l.addr) - base..DwStart(l.addr) - base + SendLen(l)]
      && 0 <= KeptLen(l) && l.addr % 4 + KeptLen(l) <= SendLen(l)
      && Kept(c) == mem[l.addr - base..l.addr - base + KeptLen(l)]
  {
    var from := DwStart(l.addr) - base;
    OneDataLength(req, completer, mem, base, l);
    LowAddrLane(l.addr);
    PassEnds(l);
    KeptIs(OneCompletion(req, completer, mem, base, l), l.addr % 4, KeptLen(l));
    SliceOfSlice(mem, from, from + SendLen(l), l.addr % 4, KeptLen(l));
  }

  lemma PassTight(l: Loop)
    requires Tight(l) && Pass(l).dataLen > 0
    ensures Tight(Pass(l)) && SendLen(l) == MAX_PAYLOAD && Pass(l).len == l.len - MAX_PAYLOAD && Pass(l).len > 0
    ensures Pass(l).addr == l.addr + KeptLen(l) && DwStart(Pass(l).addr) == Pass(l).addr
    ensures Pass(l).dataLen == l.dataLen - KeptLen(l)
  {
  }

  lemma ReassembleCons(c: seq<byte>, rest: seq<seq<byte>>)
    requires |c| >= CPL_HEADER && AllHaveHeaders(rest)
    ensures AllHaveHeaders([c] + rest)
    ensures Reassemble([c] + rest) == Kept(c) + Reassemble(rest)
  {
    assert ([c] + rest)[1..] == rest;
  }

  lemma OwedStep(mem: seq<byte>, base: nat, l: Loop)
    requires Tight(l) && InWindow(base, |mem|, l) && Pass(l).dataLen > 0
    ensures Tight(Pass(l)) && InWindow(base, |mem|, Pass(l)) && 0 <= KeptLen(l)
    ensures mem[l.addr - base..l.addr - base + KeptLen(l)] + OwedBytes(mem, base, Pass(l)) == OwedBytes(mem, base, l)
  {
    PassStays(l, base, |mem|);
    PassTight(l);
    PassEnds(l);
    SliceSplit(mem, l.addr - base, l.addr - base + KeptLen(l), l.addr - base + l.dataLen);
  }

  /** The first completion of a legal read, and the others. */
  lemma CompletionsStep(req: seq<byte>, completer: uint16, mem: seq<byte>, base: nat, l: Loop)
    returns (c: seq<byte>, rest: seq<seq<byte>>)
    requires HasHeader(req) && Tight(l) && InWindow(base, |mem|, l)
    ensures Completions(req, completer, mem, base, l) == [c] + rest
    ensures |c| >= CPL_HEADER && CplByteCount(c) == l.dataLen && CplLowAddr(c) == l.addr % 128
    ensures CplData(c) == mem[DwStart(l.addr) - base..DwStart(l.addr) - base + SendLen(l)]
    ensures 0 <= KeptLen(l) && l.addr % 4 + KeptLen(l) <= SendLen(l)
    ensures Kept(c) == mem[l.addr - base..l.addr - base + KeptLen(l)]
    ensures Pass(l).dataLen <= 0 ==> rest == [] && l.len <= MAX_PAYLOAD
    ensures Pass(l).dataLen > 0 ==>
      && Tight(Pass(l)) && InWindow(base, |mem|, Pass(l))
      && rest == Completions(req, completer, mem, base, Pass(l))
  {
    c := OneCompletion(req, completer, mem, base, l);
    PassStays(l, base, |mem|);
    rest := if Pass(l).dataLen <= 0 then [] else Completions(req, completer, mem, base, Pass(l));
    OneKept(req, completer, mem, base, l);
    PassEnds(l);
    if Pass(l).dataLen > 0 {
      PassTight(l);
    }
  }

  /** Reassembled, the completions of a legal read are exactly the requested bytes, in order. */
  lemma {:induction false} CompletionsReassemble(req: seq<byte>, completer: uint16, mem: seq<byte>, base: nat, l: Loop)
    requires HasHeader(req) && Tight(l) && InWindow(base, |mem|, l)
    ensures var cs := Completions(req, completer, mem, base, l);
      AllHaveHeaders(cs) && Reassemble(cs) == OwedBytes(mem, base, l)
    decreases l.len
  {
    var c, rest, later := CompletionsKept(req, completer, mem, base, l);
    if Pass(l).dataLen > 0 {
      CompletionsReassemble(req, completer, mem, base, Pass(l));
    }
    ReassembleCons(c, rest);
  }

  /** What is kept of the first completion, and what the others owe. */
  lemma CompletionsKept(req: seq<byte>, completer: uint16, mem: seq<byte>, base: nat, l: Loop)
    returns (c: seq<byte>, rest: seq<seq<byte>>, later: seq<byte>)
    requires HasHeader(req) && Tight(l) && InWindow(base, |mem|, l)
    ensures Completions(req, completer, mem, base, l) == [c] + rest
    ensures |c| >= CPL_HEADER && Kept(c) + later == OwedBytes(mem, base, l)
    ensures Pass(l).dataLen <= 0 ==> rest == [] && later == []
    ensures Pass(l).dataLen > 0 ==>
      && Tight(Pass(l)) && InWindow(base, |mem|, Pass(l)) && Pass(l).len < l.len
      && rest == Completions(req, completer, mem, base, Pass(l)) && later == OwedBytes(mem, base, Pass(l))
  {
    c, rest := CompletionsStep(req, completer, mem, base, l);
    later := OwedLater(mem, base, l);
  }

  lemma OwedLater(mem: seq<byte>, base: nat, l: Loop) returns (later: seq<byte>)
    requires Tight(l) && InWindow(base, |mem|, l)
    ensures 0 <= KeptLen(l) && l.addr + KeptLen(l) <= base + |mem|
    ensures mem[l.addr - base..l.addr - base + KeptLen(l)] + later == OwedBytes(mem, base, l)
    ensures Pass(l).dataLen <= 0 ==> later == []
    ensures Pass(l).dataLen > 0 ==>
      && Tight(Pass(l)) && InWindow(base, |mem|, Pass(l)) && Pass(l).len < l.len
      && later == OwedBytes(mem, base, Pass(l))
  {
    if Pass(l).dataLen > 0 {
      PassTight(l);
      OwedStep(mem, base, l);
      later := OwedBytes(mem, base, Pass(l));
    } else {
      later := [];
    }
  }

  /** The memory one completion carries, and what the later ones carry. */
  lemma TileStep(mem: seq<byte>, base: nat, l: Loop)
    requires Tight(l) && InWindow(base, |mem|, l)
    ensures var from, next := DwStart(l.addr) - base, DwStart(Pass(l).addr) - base;
      if Pass(l).dataLen <= 0 then SendLen(l) == l.len
      else
        && next == from + SendLen(l) && next + Pass(l).len == from + l.len <= |mem|
        && mem[from..from + SendLen(l)] + mem[next..next + Pass(l).len] == mem[from..from + l.len]
  {
    PassEnds(l);
    if Pass(l).dataLen > 0 {
      PassTight(l);
      var from := DwStart(l.addr) - base;
      SliceSplit(mem, from, from + MAX_PAYLOAD, from + l.len);
    }
  }

  /** The double words of the window a loop state has announced. */
  function AnnouncedBytes(mem: seq<byte>, base: nat, l: Loop): seq<byte>
    requires InWindow(base, |mem|, l)
  {
    mem[DwStart(l.addr) - base..DwStart(l.addr) - base + l.len]
  }

  /** Together the completions carry the announced double words, without gap or overlap. */
  lemma {:induction false} CompletionsTile(req: seq<byte>, completer: uint16, mem: seq<byte>, base: nat, l: Loop)
    requires HasHeader(req) && Tight(l) && InWindow(base, |mem|, l)
    ensures var cs := Completions(req, completer, mem, base, l);
      AllHaveHeaders(cs) && Payloads(cs) == AnnouncedBytes(mem, base, l)
    decreases l.len
  {
    var c, rest, later := CompletionsData(req, completer, mem, base, l);
    if Pass(l).dataLen > 0 {
      CompletionsTile(req, completer, mem, base, Pass(l));
    }
    PayloadsCons(c, rest);
  }

  /** What the first completion carries, and what the others do. */
  lemma CompletionsData(req: seq<byte>, completer: uint16, mem: seq<byte>, base: nat, l: Loop)
    returns (c: seq<byte>, rest: seq<seq<byte>>, later: seq<byte>)
    requires HasHeader(req) && Tight(l) && InWindow(base, |mem|, l)
    ensures Completions(req, completer, mem, base, l) == [c] + rest
    ensures |c| >= CPL_HEADER && CplData(c) + later == AnnouncedBytes(mem, base, l)
    ensures Pass(l).dataLen <= 0 ==> rest == [] && later == []
    ensures Pass(l).dataLen > 0 ==>
      && Tight(Pass(l)) && InWindow(base, |mem|, Pass(l)) && Pass(l).len < l.len
      && rest == Completions(req, completer, mem, base, Pass(l)) && later == AnnouncedBytes(mem, base, Pass(l))
  {
    c, rest := CompletionsStep(req, completer, mem, base, l);
    later := AnnouncedLater(mem, base, l);
  }

  lemma AnnouncedLater(mem: seq<byte>, base: nat, l: Loop) returns (later: seq<byte>)
    requires Tight(l) && InWindow(base, |mem|, l)
    ensures mem[DwStart(l.addr) - base..DwStart(l.addr) - base + SendLen(l)] + later == AnnouncedBytes(mem, base, l)
    ensures Pass(l).dataLen <= 0 ==> later == []
    ensures Pass(l).dataLen > 0 ==>
      && Tight(Pass(l)) && InWindow(base, |mem|, Pass(l)) && Pass(l).len < l.len
      && later == AnnouncedBytes(mem, base, Pass(l))
  {
    TileStep(mem, base, l);
    later := [];
    if Pass(l).dataLen > 0 {
      PassTight(l);
      PassStays(l, base, |mem|);
      later := AnnouncedBytes(mem, base, Pass(l));
    }
  }

  lemma PayloadsCons(c: seq<byte>, rest: seq<seq<byte>>)
    requires |c| >= CPL_HEADER && AllHaveHeaders(rest)
    ensures AllHaveHeaders([c] + rest) && Payloads([c] + rest) == CplData(c) + Payloads(rest)
  {
    assert ([c] + rest)[1..] == rest;
  }

  /** Every completion of a legal read identifies itself. */
  lemma {:induction false} EveryCompletionIdentifies(req: seq<byte>, completer: uint16, mem: seq<byte>, base: nat,
                                                     l: Loop,
                                                     k: nat)
    requires HasHeader(req) && Tight(l) && InWindow(base, |mem|, l)
    requires k < |Completions(req, completer, mem, base, l)|
    ensures Identifies(Completions(req, completer, mem, base, l)[k], req, completer)
    decreases l.len
  {
    var cs := Completions(req, completer, mem, base, l);
    var rest := CompletionsUnfold(req, completer, mem, base, l);
    if k == 0 {
      OneIdentifies(req, completer, mem, base, l);
    } else {
      PassTight(l);
      EveryCompletionIdentifies(req, completer, mem, base, Pass(l), k - 1);
      assert cs[k] == rest[k - 1];
    }
  }

  lemma OneIdentifies(req: seq<byte>, completer: uint16, mem: seq<byte>, base: nat, l: Loop)
    requires HasHeader(req) && Tight(l) && InWindow(base, |mem|, l)
    ensures Identifies(OneCompletion(req, completer, mem, base, l), req, completer)
  {
    var from := DwStart(l.addr) - base;
    CplIdentifies(req, completer, SendLen(l), l.dataLen, l.addr, mem[from..from + SendLen(l)]);
  }

  /** There are ceil(len / 256) completions, and all but the last carry 256 bytes. */
  lemma {:induction false} CompletionsCount(req: seq<byte>, completer: uint16, mem: seq<byte>, base: nat, l: Loop)
    requires HasHeader(req) && Tight(l) && InWindow(base, |mem|, l)
    ensures var cs := Completions(req, completer, mem, base, l);
      && AllHaveHeaders(cs)
      && |cs| == (l.len + 255) / 256
      && (forall k :: 0 <= k < |cs| - 1 ==> |CplData(cs[k])| == 256)
    decreases l.len
  {
    var c, rest := CompletionsStep(req, completer, mem, base, l);
    if Pass(l).dataLen > 0 {
      PassTight(l);
      CompletionsCount(req, completer, mem, base, Pass(l));
    }
  }

  /** Section 2.2.9: each Byte Count is the number of bytes still owed, this completion included. */
  lemma {:induction false} ByteCountsAreOwed(req: seq<byte>, completer: uint16, mem: seq<byte>, base: nat, l: Loop,
                                             k: nat)
    requires HasHeader(req) && Tight(l) && InWindow(base, |mem|, l)
    requires k < |Completions(req, completer, mem, base, l)|
    ensures var cs := Completions(req, completer, mem, base, l);
      && AllHaveHeaders(cs)
      && CplByteCount(cs[k]) == |Reassemble(cs[k..])|
      && CplLowAddr(cs[k]) == (if k == 0 then l.addr else DwStart(l.addr)) % 128
    decreases l.len
  {
    var cs := Completions(req, completer, mem, base, l);
    var c, rest := CompletionsStep(req, completer, mem, base, l);
    CompletionsReassemble(req, completer, mem, base, l);
    if k == 0 {
      assert cs[0..] == cs;
    } else {
      ByteCountsAreOwed(req, completer, mem, base, Pass(l), k - 1);
      assert cs[k..] == rest[k - 1..];
      LowAddrOf(l);
    }
  }

  lemma LowAddrOf(l: Loop)
    requires Tight(l) && Pass(l).dataLen > 0
    ensures Pass(l).addr % 128 == DwStart(l.addr) % 128 && DwStart(Pass(l).addr) % 128 == DwStart(l.addr) % 128
  {
    PassTight(l);
    assert Pass(l).addr == DwStart(l.addr) + MAX_PAYLOAD;
    MultipleOf128(DwStart(l.addr), 1);
  }

  lemma {:induction false} PayloadsPrefix(cs: seq<seq<byte>>, k: nat)
    requires AllHaveHeaders(cs) && k <= |cs| && forall j :: 0 <= j < k ==> |CplData(cs[j])| == MAX_PAYLOAD
    ensures |Payloads(cs[..k])| == MAX_PAYLOAD * k
  {
    if k > 0 {
      assert cs[..k][1..] == cs[1..][..k - 1];
      PayloadsPrefix(cs[1..], k - 1);
    }
  }

  /** The address behind the data of the first k completions. */
  function EndOf(cs: seq<seq<byte>>, start: nat, k: nat): nat
    requires AllHaveHeaders(cs) && k <= |cs|
  {
    start + |Payloads(cs[..k])|
  }

  /** All completions but the last end on a 128-byte boundary of the address space. */
  ghost predicate EndsOnBoundaries(cs: seq<seq<byte>>, start: nat)
    requires AllHaveHeaders(cs)
  {
    forall k :: 0 < k < |cs| ==> EndOf(cs, start, k) % 128 == 0
  }

  lemma MultipleOf128(start: nat, k: nat)
    ensures (start + MAX_PAYLOAD * k) % 128 == start % 128
  {
  }

  /**
   * Section 2.3.1.1 asks that a read be split only at Read Completion Boundaries. Splitting every
   * 256 bytes from the start does so exactly when the start is aligned or nothing is split.
   */
  lemma SplitsAtBoundariesIff(req: seq<byte>, completer: uint16, mem: seq<byte>, base: nat, l: Loop)
    requires HasHeader(req) && Tight(l) && InWindow(base, |mem|, l)
    ensures var cs := Completions(req, completer, mem, base, l);
      AllHaveHeaders(cs) &&
      (EndsOnBoundaries(cs, DwStart(l.addr)) <==> l.len <= MAX_PAYLOAD || DwStart(l.addr) % 128 == 0)
  {
    var cs := Completions(req, completer, mem, base, l);
    CompletionsCount(req, completer, mem, base, l);
    BoundariesOf(cs, DwStart(l.addr));
    assert |cs| > 1 <==> l.len > MAX_PAYLOAD;
  }

  lemma BoundariesOf(cs: seq<seq<byte>>, start: nat)
    requires AllHaveHeaders(cs) && forall k :: 0 <= k < |cs| - 1 ==> |CplData(cs[k])| == MAX_PAYLOAD
    ensures EndsOnBoundaries(cs, start) <==> |cs| <= 1 || start % 128 == 0
  {
    forall k | 0 < k < |cs| ensures EndOf(cs, start, k) % 128 == start % 128 {
      PayloadsPrefix(cs, k);
      MultipleOf128(start, k);
    }
    if |cs| > 1 {
      assert EndOf(cs, start, 1) % 128 == start % 128;
    }
  }

  // ---------------------------------------------------------------- which bytes are enabled

  /** A legal request asks for one range of bytes: exactly those its enables name. */
  lemma LegalEnablesRange(req: seq<byte>, x: nat)
    requires LegalRequest(req)
    ensures ByteEnabled(AddrField(req), DwCount(req), MrFirst(req), MrLast(req), x)
       <==> MrAddr(req) <= x < MrAddr(req) + Asked(req)
    ensures MrDataLength(req) == Asked(req) <==> MrLength(req) > 0
  {
    AddrFieldFits(req);
    ContiguousRange(AddrField(req), DwCount(req), MrFirst(req), MrLast(req), x);
  }

  /** The range the accessors make of an address and of any length and enables. */
  predicate InRange(start: nat, length: nat, fst: nibble, lst: nibble, x: nat) {
    var from := start + LeadingDisabled(fst);
    from <= x < from + 4 * length - Disabled(fst) - TrailingDisabled(lst)
  }

  /** The enables the accessors read rightly: contiguous and not empty. */
  predicate Contiguous(length: nat, fst: nibble, lst: nibble) {
    if length == 1 then fst in {1, 2, 3, 4, 6, 7, 8, 12, 14, 15} && TrailingDisabled(lst) == 0
    else fst in {8, 12, 14, 15} && lst in {1, 3, 7, 15}
  }

  /** Whatever the enables: the accessors' range is the enabled bytes exactly when these are contiguous. */
  lemma AccessorsRangeIff(start: nat, length: nat, fst: nibble, lst: nibble)
    requires 0 < length
    ensures (forall x: nat :: InRange(start, length, fst, lst, x) <==> ByteEnabled(start, length, fst, lst, x))
       <==> Contiguous(length, fst, lst)
  {
    if Contiguous(length, fst, lst) {
      forall x: nat ensures InRange(start, length, fst, lst, x) <==> ByteEnabled(start, length, fst, lst, x) {
        ContiguousRange(start, length, fst, lst, x);
      }
    }
    if forall x: nat :: InRange(start, length, fst, lst, x) <==> ByteEnabled(start, length, fst, lst, x) {
      RangeIsContiguous(start, length, fst, lst);
    }
  }

  lemma ContiguousRange(start: nat, length: nat, fst: nibble, lst: nibble, x: nat)
    requires 0 < length && Contiguous(length, fst, lst)
    ensures InRange(start, length, fst, lst, x) <==> ByteEnabled(start, length, fst, lst, x)
  {
    CountClearAll(fst);
    CountClearAll(lst);
  }

  predicate SameAt(start: nat, length: nat, fst: nibble, lst: nibble, x: nat) {
    InRange(start, length, fst, lst, x) <==> ByteEnabled(start, length, fst, lst, x)
  }

  lemma RangeIsContiguous(start: nat, length: nat, fst: nibble, lst: nibble)
    requires 0 < length
    requires forall x: nat :: InRange(start, length, fst, lst, x) <==> ByteEnabled(start, length, fst, lst, x)
    ensures Contiguous(length, fst, lst)
  {
    CountClearAll(fst);
    CountClearAll(lst);
    assert SameAt(start, length, fst, lst, start) && SameAt(start, length, fst, lst, start + 1);
    assert SameAt(start, length, fst, lst, start + 2) && SameAt(start, length, fst, lst, start + 3);
    var last := start + 4 * (length - 1);
    assert SameAt(start, length, fst, lst, last) && SameAt(start, length, fst, lst, last + 1);
    assert SameAt(start, length, fst, lst, last + 2) && SameAt(start, length, fst, lst, last + 3);
  }
}
