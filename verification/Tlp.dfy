/**
 * PCIe transaction-layer packets as bytes: header fields, byte enables, and the layout of memory
 * requests (PCI Express Base Specification 3.0, sections 2.2.1, 2.2.5 and 2.2.9).
 */
module Tlp {
  import opened Option

  type byte = x: int | 0 <= x < 256
  type nibble = x: int | 0 <= x < 16
  type uint16 = x: int | 0 <= x < 0x1_0000
  type uintptr = x: int | 0 <= x < ADDRESSES

  /** The size of the 64-bit address space. */
  const ADDRESSES: nat := 0x1_0000_0000_0000_0000

  /** A 64-bit sum, reduced; sums here stay below twice the address space. */
  function Wrap64(x: nat): nat {
    if x < ADDRESSES then x else x - ADDRESSES
  }

  /** Reduction keeps the low address bits. */
  lemma WrapKeepsLow(x: nat)
    ensures Wrap64(x) % 128 == x % 128 && Wrap64(x) % 4 == x % 4
    ensures DwStart(Wrap64(x)) == Wrap64(DwStart(x))
  {
    if x >= ADDRESSES {
      LowBitsOf(x - ADDRESSES);
    }
  }

  lemma LowBitsOf(y: nat)
    ensures (y + ADDRESSES) % 128 == y % 128 && (y + ADDRESSES) % 4 == y % 4
    ensures DwStart(y + ADDRESSES) == DwStart(y) + ADDRESSES
  {
    AddLines(y, 0x200_0000_0000_0000);
    AddDoubleWords(y, 0x4000_0000_0000_0000);
  }

  lemma AddLines(y: nat, q: nat)
    ensures (y + 128 * q) % 128 == y % 128
  {
  }

  lemma AddDoubleWords(y: nat, q: nat)
    ensures (y + 4 * q) % 4 == y % 4 && (y + 4 * q) / 4 == y / 4 + q
  {
  }

  // ---------------------------------------------------------------- bits and bytes

  /** Bit n of a 4-bit byte-enable field. */
  predicate Bit(be: nibble, n: nat)
    requires n < 4
  {
    (if n == 0 then be else if n == 1 then be / 2 else if n == 2 then be / 4 else be / 8) % 2 == 1
  }

  /** ~(0xF << n) & 0xF: the n lowest bits of a nibble. */
  function LowBits(n: nat): nibble
    requires n <= 4
  {
    if n == 0 then 0 else if n == 1 then 1 else if n == 2 then 3 else if n == 3 then 7 else 15
  }

  /** (be << n) & 0xF */
  function ShiftLeft(be: nibble, n: nat): nibble
    requires n < 4
  {
    (if n == 0 then be else if n == 1 then 2 * be else if n == 2 then 4 * be else 8 * be) % 16
  }

  /** Bitwise or. */
  function BitOr(a: nat, b: nat): nat {
    if a == 0 then b else if b == 0 then a
    else (if a % 2 == 1 || b % 2 == 1 then 1 else 0) + 2 * BitOr(a / 2, b / 2)
  }

  /** (field & ~(width - 1)) | v for a power of two width: the value is not masked. */
  function SetLow(field: nat, width: nat, v: nat): nat
    requires width > 0
  {
    (if v < width then field / width else BitOr(field / width, v / width)) * width + v % width
  }

  /** A big-endian number of so many bytes. */
  function BytesOf(n: nat, size: nat): (s: seq<byte>)
    ensures |s| == size
  {
    if size == 0 then [] else BytesOf(n / 256, size - 1) + [n % 256]
  }

  function NatOf(s: seq<byte>): nat {
    if s == [] then 0 else NatOf(s[..|s| - 1]) * 256 + s[|s| - 1]
  }

  function Pow256(size: nat): nat {
    if size == 0 then 1 else 256 * Pow256(size - 1)
  }

  lemma {:induction false} BigEndianRoundTrip(n: nat, size: nat)
    requires n < Pow256(size)
    ensures NatOf(BytesOf(n, size)) == n
  {
    if size > 0 {
      BigEndianRoundTrip(n / 256, size - 1);
      assert BytesOf(n, size)[..size - 1] == BytesOf(n / 256, size - 1);
    }
  }

  function Zeros(n: nat): seq<byte> {
    seq(n, i => 0)
  }

  // ---------------------------------------------------------------- header fields

  const TLP_TYPE_MEM: nat := 0x00
  const TLP_TYPE_CPL: nat := 0x0A
  const FMT_4DW: nat := 0x20
  const FMT_W_DATA: nat := 0x40

  /** tlp_set_type and tlp_set_fmt; bits they do not name keep what the buffer held. */
  function SetType(ft: byte, v: nat): byte {
    ft / 32 * 32 + v % 32
  }

  function SetFmt(ft: byte, fourDw: bool, withData: bool): byte {
    ft / 128 * 128 + (if withData then FMT_W_DATA else 0) + (if fourDw then FMT_4DW else 0) + ft % 32
  }

  predicate Is3Dw(ft: byte) { ft / 32 % 2 == 0 }

  predicate WithData(ft: byte) { ft / 64 % 2 == 1 }

  predicate IsMrd(ft: byte) { ft % 32 == TLP_TYPE_MEM && !WithData(ft) }

  predicate IsMwr(ft: byte) { ft % 32 == TLP_TYPE_MEM && WithData(ft) }

  /** The big-endian 16-bit field at index i. */
  function Field16(p: seq<byte>, i: nat): uint16
    requires i + 1 < |p|
  {
    p[i] as int * 256 + p[i + 1]
  }

  /** tlp_length and tlp_set_length on the 16-bit flags-and-length field. */
  function GetLength(falen: uint16): nat { falen % 1024 }

  function SetLength(falen: uint16, v: nat): nat { SetLow(falen, 1024, v) }

  /** tlp_cpl_bcnt, tlp_set_cpl_bcnt and the completion status (top three bits). */
  function GetByteCount(stcnt: uint16): nat { stcnt % 4096 }

  function SetByteCount(stcnt: uint16, v: nat): nat { SetLow(stcnt, 4096, v) }

  function GetStatus(stcnt: uint16): nat { stcnt / 8192 }

  function SetStatusSuccess(stcnt: uint16): uint16 { stcnt % 8192 }

  lemma SetLowKeeps(field: nat, width: nat, v: nat)
    requires (width == 1024 || width == 4096) && v < width
    ensures SetLow(field, width, v) == field / width * width + v
    ensures SetLow(field, width, v) / width == field / width && SetLow(field, width, v) % width == v
  {
    assert v / width == 0 && v % width == v;
  }

  /** The length setter does not mask: the field reads back the value exactly below 1024. */
  lemma LengthRoundTripIff(falen: uint16, v: nat)
    ensures GetLength(SetLength(falen, v) % 0x1_0000) == v <==> v < 1024
    ensures v < 1024 ==> SetLength(falen, v) < 0x1_0000 && SetLength(falen, v) / 1024 == falen / 1024
  {
    if v < 1024 {
      SetLowKeeps(falen, 1024, v);
    }
  }

  // ---------------------------------------------------------------- byte enables of a request

  function DwStart(addr: nat): nat { addr / 4 * 4 }

  /** tlp_calculate_fstdw */
  function FirstDw(addr: uintptr, count: nat): nibble {
    ShiftLeft(if count < 4 then LowBits(count) else 15, addr % 4)
  }

  /** The request stays below the end of the 64-bit address space, so addr + 4 and addr + count do not wrap. */
  predicate NoWrap(addr: uintptr, count: nat) {
    addr + 4 < ADDRESSES && addr + count < ADDRESSES
  }

  /** The request lies in the last double word of the address space, and reaches its end. */
  predicate FillsTop(addr: uintptr, count: nat) {
    addr >= ADDRESSES - 4 && addr + count == ADDRESSES
  }

  /** The requests whose encoding is right. */
  predicate Fits(addr: uintptr, count: nat) {
    NoWrap(addr, count) || FillsTop(addr, count)
  }

  /** tlp_calculate_lstdw in 64 bits; None where it shifts by more bits than an int has. */
  function LastDwResult(addr: uintptr, count: nat): Option<nibble> {
    var start := DwStart(addr);
    var end := Wrap64(addr + count);
    var lastStart := if end == 0 then ADDRESSES - 4 else if end % 4 == 0 then end - 4 else DwStart(end);
    var endStart := if lastStart <= start then Wrap64(addr + 4) else lastStart;
    if end < endStart then Some(0)
    else if end - endStart >= INT_BITS then None
    else Some(LowBits(if end - endStart < 4 then end - endStart else 4))
  }

  const INT_BITS: nat := 32

  lemma LastDwResultFits(addr: uintptr, count: nat)
    requires Fits(addr, count)
    ensures LastDwResult(addr, count).Some?
    ensures FillsTop(addr, count) ==> LastDwResult(addr, count) == Some(0)
  {
    if FillsTop(addr, count) {
      TopLength(addr, count);
    }
  }

  /** The last enables of a request whose encoding is right. */
  function LastDw(addr: uintptr, count: nat): nibble
    requires Fits(addr, count)
  {
    LastDwResultFits(addr, count);
    LastDwResult(addr, count).value
  }

  /** tlp_calculate_length */
  function Length(addr: uintptr, count: nat): nat {
    var span := addr + count - DwStart(addr);
    span / 4 + (if span % 4 != 0 then 1 else 0)
  }

  /** Section 2.2.5: the byte at x of a request for `length` double words from `start` is enabled. */
  predicate ByteEnabled(start: nat, length: nat, fst: nibble, lst: nibble, x: nat) {
    && start <= x < start + 4 * length
    && (if x < start + 4 then Bit(fst, x - start)
        else if x >= start + 4 * (length - 1) then Bit(lst, x - (start + 4 * (length - 1)))
        else true)
  }

  lemma FirstDwBits(addr: uintptr, count: nat, n: nat)
    requires n < 4
    ensures Bit(FirstDw(addr, count), n) <==> addr % 4 <= n < addr % 4 + count
  {
    ShiftLeftBits(if count < 4 then LowBits(count) else 15, addr % 4, n);
    if count < 4 && n >= addr % 4 {
      LowBitsBits(count, n - addr % 4);
    }
  }

  lemma LowBitsBits(count: nat, n: nat)
    requires count <= 4 && n < 4
    ensures Bit(LowBits(count), n) <==> n < count
  {
  }

  lemma ShiftLeftBits(be: nibble, a: nat, n: nat)
    requires a < 4 && n < 4 && be in {0, 1, 3, 7, 15}
    ensures Bit(ShiftLeft(be, a), n) <==> n >= a && Bit(be, n - a)
  {
  }

  lemma LastDwBits(addr: uintptr, count: nat, n: nat)
    requires n < 4 && count > 0 && Fits(addr, count)
    ensures Length(addr, count) == 1 ==> LastDw(addr, count) == 0
    ensures Length(addr, count) > 1 ==>
      (Bit(LastDw(addr, count), n) <==> DwStart(addr) + 4 * (Length(addr, count) - 1) + n < addr + count)
  {
    if FillsTop(addr, count) {
      TopLength(addr, count);
    }
  }

  /** The computed first and last enables and length enable exactly the bytes [addr, addr + count). */
  lemma EncodingEnablesExactly(addr: uintptr, count: nat, x: nat)
    requires count > 0 && Fits(addr, count)
    ensures ByteEnabled(DwStart(addr), Length(addr, count), FirstDw(addr, count), LastDw(addr, count), x)
            <==> addr <= x < addr + count
  {
    var start, length := DwStart(addr), Length(addr, count);
    if start <= x < start + 4 {
      FirstDwBits(addr, count, x - start);
    } else if start + 4 * (length - 1) <= x < start + 4 * length {
      LastDwBits(addr, count, x - (start + 4 * (length - 1)));
    }
  }

  /** The computed enables and length name exactly the bytes [addr, addr + count). */
  ghost predicate EnablesExactly(addr: uintptr, count: nat) {
    && LastDwResult(addr, count).Some?
    && forall x: nat :: Enables(addr, count, LastDwResult(addr, count).value, x) <==> addr <= x < addr + count
  }

  predicate Enables(addr: uintptr, count: nat, lst: nibble, x: nat) {
    ByteEnabled(DwStart(addr), Length(addr, count), FirstDw(addr, count), lst, x)
  }

  /**
   * Up to the end of the address space, the encoding is right exactly for requests that do not wrap
   * and for those that fill the very last double word.
   */
  lemma EncodingEnablesExactlyIff(addr: uintptr, count: nat)
    requires 0 < count && addr + count <= ADDRESSES
    ensures EnablesExactly(addr, count) <==> NoWrap(addr, count) || FillsTop(addr, count)
  {
    if Fits(addr, count) {
      FittingEncoding(addr, count);
    } else if addr + count == ADDRESSES {
      TopLength(addr, count);
      assert !Enables(addr, count, 0, ADDRESSES - 1);
    } else {
      TopShift(addr, count);
    }
  }

  lemma FittingEncoding(addr: uintptr, count: nat)
    requires 0 < count && Fits(addr, count)
    ensures EnablesExactly(addr, count)
  {
    LastDwResultFits(addr, count);
    var lst := LastDw(addr, count);
    forall x: nat ensures Enables(addr, count, lst, x) <==> addr <= x < addr + count {
      EncodingEnablesExactly(addr, count, x);
    }
  }

  /** A request that ends with the address space: its sum wraps to 0, so its last enables are none. */
  lemma TopLength(addr: uintptr, count: nat)
    requires 0 < count && addr + count == ADDRESSES
    ensures LastDwResult(addr, count) == Some(0)
    ensures DwStart(addr) + 4 * Length(addr, count) == ADDRESSES
    ensures Length(addr, count) == 1 <==> addr >= ADDRESSES - 4
  {
  }

  /** Inside the last double word and short of its end: addr + 4 wraps, and the shift is out of range. */
  lemma TopShift(addr: uintptr, count: nat)
    requires 0 < count && addr + count < ADDRESSES <= addr + 4
    ensures LastDwResult(addr, count) == None
  {
  }

  /** Of the last eight addresses the upper four are not enabled; the last but three alone shifts too far. */
  lemma EncodingFailsAtTheTop()
    ensures LastDwResult(0xFFFF_FFFF_FFFF_FFF8, 8) == Some(0) && Length(0xFFFF_FFFF_FFFF_FFF8, 8) == 2
    ensures !Enables(0xFFFF_FFFF_FFFF_FFF8, 8, 0, 0xFFFF_FFFF_FFFF_FFFC)
    ensures LastDwResult(0xFFFF_FFFF_FFFF_FFFC, 1) == None
  {
  }

  // ---------------------------------------------------------------- reading a request back

  /** The run of disabled bytes at the bottom of the first double word. */
  function LeadingDisabled(be: nibble): nat {
    if be == 0 || be == 15 || Bit(be, 0) then 0 else if Bit(be, 1) then 1 else if Bit(be, 2) then 2 else 3
  }

  /** The run of disabled bytes at the top of the last double word. */
  function TrailingDisabled(be: nibble): nat {
    if be == 0 || be == 15 || Bit(be, 3) then 0 else if Bit(be, 2) then 1 else if Bit(be, 1) then 2 else 3
  }

  function CountClear(be: nibble, n: nat): nat
    requires n <= 4
  {
    if n == 0 then 0 else CountClear(be, n - 1) + (if Bit(be, n - 1) then 0 else 1)
  }

  /** All disabled bytes of the first double word, as tlp_mr_data_length counts them. */
  function Disabled(be: nibble): nat {
    if be == 0 || be == 15 then 0 else CountClear(be, 4)
  }

  /** Where the address field starts and how long the header is. */
  const MR_FIXED: nat := 8

  function AddrBytes(ft: byte): nat {
    if Is3Dw(ft) then 4 else 8
  }

  predicate HasHeader(p: seq<byte>) {
    |p| >= MR_FIXED && |p| >= MR_FIXED + AddrBytes(p[0])
  }

  function MrFirst(p: seq<byte>): nibble requires HasHeader(p) { p[7] % 16 }

  function MrLast(p: seq<byte>): nibble requires HasHeader(p) { p[7] / 16 }

  function MrLength(p: seq<byte>): nat requires HasHeader(p) { GetLength(Field16(p, 2)) }

  function AddrField(p: seq<byte>): nat
    requires HasHeader(p)
  {
    NatOf(p[MR_FIXED..MR_FIXED + AddrBytes(p[0])])
  }

  lemma NumberIn(hi: byte, lo: byte, m: nat)
    requires m == 4 || m == 16
    ensures (hi * 256 + lo) as int % (256 * m) == hi as int % m * 256 + lo as int
  {
    var q: nat, r: nat := hi as int / m, hi as int % m;
    assert hi == m * q + r;
    assert hi * 256 + lo == 256 * m * q + (r * 256 + lo);
    if m == 4 {
      Remainder(q, 1024, r * 256 + lo);
    } else {
      Remainder(q, 4096, r * 256 + lo);
    }
  }

  lemma Remainder(q: nat, m: nat, x: nat)
    requires (m == 1024 || m == 4096) && x < m
    ensures (m * q + x) % m == x
  {
  }

  /** Four bytes as the wire shows a number, and eight. */
  function Wire32(p: seq<byte>, at: nat): nat
    requires at + 4 <= |p|
  {
    ((p[at] as int * 256 + p[at + 1] as int) * 256 + p[at + 2] as int) * 256 + p[at + 3] as int
  }

  function Wire64(p: seq<byte>, at: nat): nat
    requires at + 8 <= |p|
  {
    Wire32(p, at) * 0x1_0000_0000 + Wire32(p, at + 4)
  }

  /** The fields of a request, as the wire shows them. */
  lemma RequestOnTheWire(p: seq<byte>)
    requires HasHeader(p)
    ensures IsMrd(p[0]) <==> p[0] % 128 in {0x00, 0x20}
    ensures IsMwr(p[0]) <==> p[0] % 128 in {0x40, 0x60}
    ensures MrLength(p) == p[2] as int % 4 * 256 + p[3] as int
    ensures MrFirst(p) == p[7] % 16 && MrLast(p) == p[7] / 16
    ensures p[0] / 32 % 2 == 0 ==> |p| >= 12 && AddrField(p) == Wire32(p, 8)
    ensures p[0] / 32 % 2 == 1 ==> |p| >= 16 && AddrField(p) == Wire64(p, 8)
  {
    KindOf(p[0]);
    NumberIn(p[2], p[3], 4);
    if p[0] / 32 % 2 == 0 {
      NatOfFour(p, 8);
    } else {
      NatOfEight(p, 8);
    }
  }

  lemma KindOf(ft: byte)
    ensures IsMrd(ft) <==> ft % 128 in {0x00, 0x20}
    ensures IsMwr(ft) <==> ft % 128 in {0x40, 0x60}
  {
    var q, f, d, t: nat := ft as int / 128, ft as int / 64 % 2, ft as int / 32 % 2, ft as int % 32;
    assert ft == 128 * q + 64 * f + 32 * d + t;
    assert ft % 128 == 64 * f + 32 * d + t;
  }

  lemma NatOfNext(p: seq<byte>, at: nat, n: nat)
    requires at + n < |p|
    ensures NatOf(p[at..at + n + 1]) == NatOf(p[at..at + n]) * 256 + p[at + n]
  {
    assert p[at..at + n + 1][..n] == p[at..at + n];
  }

  lemma NatOfFour(p: seq<byte>, at: nat)
    requires at + 4 <= |p|
    ensures NatOf(p[at..at + 4]) == Wire32(p, at)
  {
    assert p[at..at + 0] == [];
    NatOfNext(p, at, 0);
    NatOfNext(p, at, 1);
    NatOfNext(p, at, 2);
    NatOfNext(p, at, 3);
  }

  lemma NatOfEight(p: seq<byte>, at: nat)
    requires at + 8 <= |p|
    ensures NatOf(p[at..at + 8]) == Wire64(p, at)
  {
    NatOfFour(p, at);
    NatOfNext(p, at, 4);
    NatOfNext(p, at, 5);
    NatOfNext(p, at, 6);
    NatOfNext(p, at, 7);
  }

  /** tlp_mr_addr, in 64 bits. */
  function MrAddr(p: seq<byte>): nat requires HasHeader(p) { Wrap64(AddrField(p) + LeadingDisabled(MrFirst(p))) }

  lemma {:induction false} NatOfFits(s: seq<byte>)
    ensures NatOf(s) < Pow256(|s|)
  {
    if s != [] {
      NatOfFits(s[..|s| - 1]);
    }
  }

  lemma Pow256Values()
    ensures Pow256(4) == 0x1_0000_0000 && Pow256(8) == ADDRESSES
  {
    assert Pow256(1) == 256 && Pow256(2) == 0x1_0000 && Pow256(3) == 0x100_0000;
    assert Pow256(4) == 0x1_0000_0000;
    assert Pow256(5) == 256 * Pow256(4) && Pow256(6) == 256 * Pow256(5) && Pow256(7) == 256 * Pow256(6);
  }

  /** The address does not wrap when the two reserved bits of its field are zero. */
  lemma AddrFieldFits(p: seq<byte>)
    requires HasHeader(p)
    ensures AddrField(p) < ADDRESSES && MrAddr(p) < ADDRESSES
    ensures AddrField(p) % 4 == 0 ==> MrAddr(p) == AddrField(p) + LeadingDisabled(MrFirst(p))
  {
    NatOfFits(p[MR_FIXED..MR_FIXED + AddrBytes(p[0])]);
    Pow256Values();
    AlignedRoom(AddrField(p));
  }

  lemma AlignedRoom(x: nat)
    requires x < ADDRESSES
    ensures x % 4 == 0 ==> x + 3 < ADDRESSES
  {
  }

  /** tlp_mr_data_length, which may be negative for enables no request should carry. */
  function MrDataLength(p: seq<byte>): int
    requires HasHeader(p)
  {
    4 * MrLength(p) - Disabled(MrFirst(p)) - TrailingDisabled(MrLast(p))
  }

  /** tlp_mwr_data, as an offset into the packet. */
  function MwrDataOffset(p: seq<byte>): nat
    requires HasHeader(p)
  {
    MR_FIXED + AddrBytes(p[0]) + LeadingDisabled(MrFirst(p))
  }

  method ReadMrAddr(p: seq<byte>) returns (addr: nat)
    requires HasHeader(p)
    ensures addr == MrAddr(p)
  {
    addr := NatOf(p[MR_FIXED..MR_FIXED + AddrBytes(p[0])]);
    AddrFieldFits(p);
    var fst := MrFirst(p);
    if fst != 0 && fst != 15 {
      var n := 0;
      while n < 4
        invariant n <= 3 && addr == Wrap64(AddrField(p) + n)
        invariant forall k :: 0 <= k < n ==> !Bit(fst, k)
        decreases 4 - n
      {
        if Bit(fst, n) {
          break;
        }
        addr := Wrap64(addr + 1);
        n := n + 1;
        SomeBitSet(fst, n);
      }
    }
  }

  lemma SomeBitSet(be: nibble, n: nat)
    requires be != 0 && n <= 4 && forall k :: 0 <= k < n ==> !Bit(be, k)
    ensures n <= 3
  {
    assert Bit(be, 0) || Bit(be, 1) || Bit(be, 2) || Bit(be, 3);
  }

  method ReadMrDataLength(p: seq<byte>) returns (len: int)
    requires HasHeader(p)
    ensures len == MrDataLength(p)
  {
    len := 4 * MrLength(p);
    var fst, lst := MrFirst(p), MrLast(p);
    if fst != 0 && fst != 15 {
      for n := 0 to 4
        invariant len == 4 * MrLength(p) - CountClear(fst, n)
      {
        if !Bit(fst, n) {
          len := len - 1;
        }
      }
    }
    if lst != 0 && lst != 15 {
      var top := CountTop(lst);
      len := len - top;
    }
  }

  method CountTop(lst: nibble) returns (n: nat)
    requires lst != 0 && lst != 15
    ensures n == TrailingDisabled(lst)
  {
    n := 0;
    while n < 4
      invariant n <= 3
      invariant forall k :: 3 - n < k <= 3 ==> !Bit(lst, k)
      decreases 4 - n
    {
      if Bit(lst, 3 - n) {
        break;
      }
      n := n + 1;
      if n == 4 {
        SomeBitSet(lst, 4);
      }
    }
  }

  method ReadMwrDataOffset(p: seq<byte>) returns (off: nat)
    requires HasHeader(p)
    ensures off == MwrDataOffset(p)
  {
    off := MR_FIXED + AddrBytes(p[0]);
    var fst := MrFirst(p);
    if fst != 0 && fst != 15 {
      var n := 0;
      while n < 4
        invariant n <= 3 && off == MR_FIXED + AddrBytes(p[0]) + n
        invariant forall k :: 0 <= k < n ==> !Bit(fst, k)
        decreases 4 - n
      {
        if Bit(fst, n) {
          break;
        }
        off := off + 1;
        n := n + 1;
        SomeBitSet(fst, n);
      }
    }
  }
}
