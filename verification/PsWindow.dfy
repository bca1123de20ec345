/**
 * The byte window the pseudo memory shows on the 64-bit address space: the guard of its accesses,
 * what memcpy reads and writes through it, and exactly when the guard lets one leave the buffer.
 */
module PsWindow {
  import opened Tlp

  /** The guard of reads and writes, in 64-bit arithmetic: both sums may wrap. */
  predicate Admits(base: uintptr, size: nat, addr: nat, len: nat) {
    base <= addr && Wrap64(addr + len) <= Wrap64(base + size)
  }

  /** All bytes of the access lie in the window. */
  predicate Inside(base: uintptr, size: nat, addr: nat, len: nat) {
    base <= addr && addr + len <= base + size
  }

  /**
   * Where the guard is wrong: it admits an access outside the window exactly when the access
   * wraps and the window does not, and refuses one inside exactly when it is the other way round.
   */
  lemma GuardIsExact(base: uintptr, size: nat, addr: uintptr, len: nat)
    requires size < ADDRESSES && len < ADDRESSES
    ensures Admits(base, size, addr, len) && !Inside(base, size, addr, len)
       <==> base <= addr && base + size < ADDRESSES <= addr + len <= base + size + ADDRESSES
    ensures Inside(base, size, addr, len) && !Admits(base, size, addr, len)
       <==> Inside(base, size, addr, len) && addr + len < ADDRESSES <= base + size
  {
  }

  /** With a window that does not wrap, the guard admits only accesses inside it iff none that wraps passes. */
  lemma GuardIsRightIffNoWrap(base: uintptr, size: nat, addr: uintptr, len: nat)
    requires base + size < ADDRESSES && len < ADDRESSES && Admits(base, size, addr, len)
    ensures Inside(base, size, addr, len) <==> addr + len < ADDRESSES
  {
    GuardIsExact(base, size, addr, len);
  }

  /** How far the byte at x lies behind the base, in 64 bits. */
  function Offset(base: uintptr, x: nat): nat {
    if Wrap64(x) >= base then Wrap64(x) - base else Wrap64(x) + ADDRESSES - base
  }

  /** Where byte i of an access lies behind the base. */
  function Reached(base: uintptr, addr: uintptr, i: nat): nat {
    Offset(base, addr + i)
  }

  /** An admitted access keeps to the buffer exactly when it is inside the window. */
  lemma StaysIffInside(base: uintptr, size: nat, addr: uintptr, len: nat)
    requires size < ADDRESSES && 0 < len < ADDRESSES && Admits(base, size, addr, len)
    ensures (forall i :: 0 <= i < len ==> Reached(base, addr, i) < size) <==> Inside(base, size, addr, len)
  {
    GuardIsExact(base, size, addr, len);
    if Inside(base, size, addr, len) {
      forall i | 0 <= i < len ensures Reached(base, addr, i) < size {
        ReachedInside(base, size, addr, len, i);
      }
    } else {
      assert Reached(base, addr, ADDRESSES - 1 - addr) >= size;
    }
  }

  lemma ReachedInside(base: uintptr, size: nat, addr: uintptr, len: nat, i: nat)
    requires size < ADDRESSES && Inside(base, size, addr, len) && i < len
    ensures Reached(base, addr, i) == addr - base + i < size
  {
  }

  /** A read inside the window also carries the bytes before it in its first double word. */
  lemma FirstDwStaysIff(base: uintptr, size: nat, addr: uintptr, len: nat)
    requires base + size < ADDRESSES && len > 0 && Inside(base, size, addr, len)
    ensures Offset(base, DwStart(addr)) < size <==> base <= DwStart(addr)
    ensures base % 4 == 0 ==> base <= DwStart(addr)
  {
  }

  /** Offsets from two bases into one range of addresses. */
  lemma OffsetTurns(a: uintptr, b: uintptr, i: nat, k: nat)
    requires i < ADDRESSES && k < ADDRESSES
    ensures Reached(a, b, k) == i <==> Reached(b, a, i) == k
  {
  }

  /** What memory holds at x: the window's byte, or whatever lies beyond the buffer. */
  function ByteAt(mem: seq<byte>, base: uintptr, outside: nat -> byte, x: nat): byte {
    var k := Offset(base, x);
    if k < |mem| then mem[k] else outside(Wrap64(x))
  }

  /** What memcpy copies out of memory. */
  function Fetched(mem: seq<byte>, base: uintptr, outside: nat -> byte, from: nat, n: nat): (r: seq<byte>)
    ensures |r| == n
  {
    seq<byte>(n, i requires 0 <= i < n => ByteAt(mem, base, outside, from + i))
  }

  /** Inside the window that is a slice of the memory, and nothing beyond the buffer matters. */
  lemma FetchedInside(mem: seq<byte>, base: uintptr, outside: nat -> byte, from: uintptr, n: nat)
    requires |mem| < ADDRESSES && n < ADDRESSES && Inside(base, |mem|, from, n)
    ensures Fetched(mem, base, outside, from, n) == mem[from - base..from - base + n]
  {
    var a, b := Fetched(mem, base, outside, from, n), mem[from - base..from - base + n];
    forall i | 0 <= i < n ensures a[i] == b[i] {
      ByteInside(mem, base, outside, from, n, i);
      SliceAt(mem, from - base, n, i);
    }
  }

  lemma ByteInside(mem: seq<byte>, base: uintptr, outside: nat -> byte, from: uintptr, n: nat, i: nat)
    requires |mem| < ADDRESSES && Inside(base, |mem|, from, n) && i < n
    ensures ByteAt(mem, base, outside, from + i) == mem[from - base + i]
  {
    ReachedInside(base, |mem|, from, n, i);
  }

  lemma SliceAt(s: seq<byte>, at: nat, n: nat, i: nat)
    requires at + n <= |s| && i < n
    ensures s[at..at + n][i] == s[at + i]
  {
  }

  lemma FetchedSnoc(mem: seq<byte>, base: uintptr, outside: nat -> byte, from: nat, n: nat)
    ensures Fetched(mem, base, outside, from, n + 1)
         == Fetched(mem, base, outside, from, n) + [ByteAt(mem, base, outside, from + n)]
  {
  }

  /** What the window's byte k becomes when data is copied to addr. */
  function Landed(mem: seq<byte>, base: uintptr, addr: uintptr, data: seq<byte>, k: nat): byte
    requires k < |mem|
  {
    var i := Reached(addr, base, k);
    if i < |data| then data[i] else mem[k]
  }

  /** A write the guard admits puts its bytes where they fall into the window; any other changes nothing. */
  function Store(mem: seq<byte>, base: uintptr, addr: uintptr, data: seq<byte>): (r: seq<byte>)
    ensures |r| == |mem|
  {
    if !Admits(base, |mem|, addr, |data|) then mem
    else seq<byte>(|mem|, k requires 0 <= k < |mem| => Landed(mem, base, addr, data, k))
  }

  /** A write inside the window replaces exactly its bytes. */
  lemma StoreInside(mem: seq<byte>, base: uintptr, addr: uintptr, data: seq<byte>)
    requires |mem| < ADDRESSES && |data| < ADDRESSES
    requires Admits(base, |mem|, addr, |data|) && Inside(base, |mem|, addr, |data|)
    ensures Store(mem, base, addr, data) == mem[..addr - base] + data + mem[addr - base + |data|..]
  {
    var a, b := Store(mem, base, addr, data), mem[..addr - base] + data + mem[addr - base + |data|..];
    forall k | 0 <= k < |mem| ensures a[k] == b[k] {
      LandsAt(base, addr, |data|, |mem|, k);
    }
  }

  lemma LandsAt(base: uintptr, addr: uintptr, n: nat, size: nat, k: nat)
    requires size < ADDRESSES && k < size && Inside(base, size, addr, n)
    ensures Reached(addr, base, k) < n <==> addr - base <= k < addr - base + n
    ensures Reached(addr, base, k) < n ==> Reached(addr, base, k) == k - (addr - base)
  {
  }

  /** The address of a copy may have wrapped already. */
  lemma FetchedWrapped(mem: seq<byte>, base: uintptr, outside: nat -> byte, from: nat, n: nat)
    requires from + n <= 2 * ADDRESSES
    ensures Fetched(mem, base, outside, Wrap64(from), n) == Fetched(mem, base, outside, from, n)
  {
    var a, b := Fetched(mem, base, outside, Wrap64(from), n), Fetched(mem, base, outside, from, n);
    forall i | 0 <= i < n ensures a[i] == b[i] {
      WrappedByte(mem, base, outside, from, i);
    }
  }

  lemma WrappedByte(mem: seq<byte>, base: uintptr, outside: nat -> byte, from: nat, i: nat)
    requires from + i < 2 * ADDRESSES
    ensures ByteAt(mem, base, outside, Wrap64(from) + i) == ByteAt(mem, base, outside, from + i)
  {
    assert Wrap64(Wrap64(from) + i) == Wrap64(from + i);
  }

  lemma FetchedSlice(mem: seq<byte>, base: uintptr, outside: nat -> byte, from: nat, n: nat, i: nat, m: nat)
    requires i + m <= n
    ensures Fetched(mem, base, outside, from, n)[i..i + m] == Fetched(mem, base, outside, from + i, m)
  {
  }

  /** The last eight bytes of the address space read or written: the sum wraps to 0, which the guard admits. */
  lemma WrappingReadLeavesTheWindow(mem: seq<byte>, outside: nat -> byte)
    requires |mem| == 8192
    ensures var addr := 0xFFFF_FFFF_FFFF_FFF8;
      && Admits(0, |mem|, addr, 8) && !Inside(0, |mem|, addr, 8)
      && forall i :: 0 <= i < 8 ==> Fetched(mem, 0, outside, addr, 8)[i] == outside(addr + i)
  {
  }

  lemma WrappingWriteHitsTheStart(mem: seq<byte>, data: seq<byte>)
    requires |mem| == 8192 && |data| == 8
    ensures Store(mem, 0, 0xFFFF_FFFF_FFFF_FFFC, data) == data[4..] + mem[4..]
  {
    forall k | 0 <= k < |mem|
      ensures Store(mem, 0, 0xFFFF_FFFF_FFFF_FFFC, data)[k] == (data[4..] + mem[4..])[k]
    {
      assert Reached(0xFFFF_FFFF_FFFF_FFFC, 0, k) == k + 4;
    }
  }
}
