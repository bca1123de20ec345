/** What legal reads are answered with, and exactly which of them get the bytes they name. */
module PsReads {
  import opened Tlp
  import opened DmaSender
  import opened PsMem
  import opened PsWindow
  import opened PsDevice

  /** The enabled bytes among the first n the request covers, in order. */
  function EnabledBytes(mem: seq<byte>, base: uintptr, outside: nat -> byte, req: seq<byte>, n: nat): seq<byte>
    requires HasHeader(req)
  {
    if n == 0 then []
    else
      var x := AddrField(req) + n - 1;
      EnabledBytes(mem, base, outside, req, n - 1)
      + if ByteEnabled(AddrField(req), DwCount(req), MrFirst(req), MrLast(req), x)
        then [ByteAt(mem, base, outside, x)] else []
  }

  /** All bytes a request names, by sections 2.2.2 and 2.2.5. */
  function NamedBytes(mem: seq<byte>, base: uintptr, outside: nat -> byte, req: seq<byte>): seq<byte>
    requires HasHeader(req)
  {
    EnabledBytes(mem, base, outside, req, 4 * DwCount(req))
  }

  /** How many of the bytes below x lie in [from, from + n). */
  function Below(from: nat, n: nat, x: nat): (k: nat)
    ensures k <= n
  {
    if x <= from then 0 else if x - from <= n then x - from else n
  }

  lemma {:induction false} EnabledAreFetched(mem: seq<byte>, base: uintptr,
                                             outside: nat -> byte, req: seq<byte>, n: nat)
    requires LegalRequest(req) && Asked(req) >= 0
    ensures EnabledBytes(mem, base, outside, req, n)
         == Fetched(mem, base, outside, MrAddr(req), Below(MrAddr(req), Asked(req), AddrField(req) + n))
  {
    AddrFieldFits(req);
    if n > 0 {
      EnabledAreFetched(mem, base, outside, req, n - 1);
      LegalEnablesRange(req, AddrField(req) + n - 1);
    }
  }

  /** A legal request names at least one byte: all those from its address on that it asks for. */
  lemma NamedAreFetched(mem: seq<byte>, base: uintptr, outside: nat -> byte, req: seq<byte>)
    requires LegalRequest(req)
    ensures Asked(req) > 0
    ensures NamedBytes(mem, base, outside, req) == Fetched(mem, base, outside, MrAddr(req), Asked(req))
  {
    AllBelow(req);
    EnabledAreFetched(mem, base, outside, req, 4 * DwCount(req));
  }

  lemma AllBelow(req: seq<byte>)
    requires LegalRequest(req)
    ensures Asked(req) > 0
    ensures Below(MrAddr(req), Asked(req), AddrField(req) + 4 * DwCount(req)) == Asked(req)
  {
    AddrFieldFits(req);
    EnablesTight(DwCount(req), MrFirst(req), MrLast(req));
  }

  /**
   * The completer's main result, for any legal request whoever built it: an admitted read is
   * answered by completions that reassemble to exactly the enabled bytes, in order.
   */
  lemma LegalReadDelivers(mem: seq<byte>, base: uintptr, outside: nat -> byte, completer: uint16, req: seq<byte>)
    requires LegalRequest(req) && MrLength(req) > 0 && IsMrd(req[0]) && ReadAnswered(base, |mem|, req)
    ensures Covered(StartLoop(req))
    ensures var cs := Replies(mem, base, outside, completer, req);
      AllHaveHeaders(cs) && Reassemble(cs) == NamedBytes(mem, base, outside, req)
  {
    LegalIsTight(req);
    TightReadDelivers(mem, base, outside, completer, req, StartLoop(req));
    NamedAreFetched(mem, base, outside, req);
  }

  /** Every completion a legal read is answered with names this completer and the read it answers. */
  lemma EveryReplyIdentifies(mem: seq<byte>, base: uintptr, outside: nat -> byte, completer: uint16, req: seq<byte>,
                             k: nat)
    requires LegalRequest(req) && MrLength(req) > 0
    ensures Covered(StartLoop(req)) && |req| >= CPL_HEADER
    ensures k < |Replies(mem, base, outside, completer, req)| ==>
      Identifies(Replies(mem, base, outside, completer, req)[k], req, completer)
  {
    LegalIsTight(req);
    var l := StartLoop(req);
    if IsMrd(req[0]) && ReadAnswered(base, |mem|, req)
       && k < |Completions(req, completer, Covers(mem, base, outside, l), DwStart(l.addr), l)| {
      EveryCompletionIdentifies(req, completer, Covers(mem, base, outside, l), DwStart(l.addr), l, k);
    }
  }

  /** A completion without data is all that an empty loop sends, and reassembles to nothing. */
  lemma EmptyLoopSends(req: seq<byte>, completer: uint16, mem: seq<byte>, base: nat, l: Loop) returns (c: seq<byte>)
    requires HasHeader(req) && Covered(l) && l.len == 0 && InWindow(base, |mem|, l)
    ensures Completions(req, completer, mem, base, l) == [c] && |c| == CPL_HEADER
  {
    var rest := CompletionsUnfold(req, completer, mem, base, l);
    c := OneCompletion(req, completer, mem, base, l);
  }

  lemma NothingCarried(c: seq<byte>)
    requires |c| == CPL_HEADER
    ensures AllHaveHeaders([c]) && Reassemble([c]) == []
  {
    assert Kept(c) == [];
    assert [c][1..] == [];
  }

  /** A Length field of 0 stands for 1024 double words, but is answered without data, if at all. */
  lemma LengthZeroDeliversNothing(mem: seq<byte>, base: uintptr, outside: nat -> byte, completer: uint16,
                                  req: seq<byte>)
    requires HasHeader(req) && Covered(StartLoop(req)) && MrLength(req) == 0
    ensures var cs := Replies(mem, base, outside, completer, req); AllHaveHeaders(cs) && Reassemble(cs) == []
  {
    if IsMrd(req[0]) && ReadAnswered(base, |mem|, req) {
      var l := StartLoop(req);
      var c := EmptyLoopSends(req, completer, Covers(mem, base, outside, l), DwStart(l.addr), l);
      NothingCarried(c);
    }
  }

  /**
   * Exactly when is a legal read answered with the bytes it names: its Length field is not 0, and
   * the guard admits it.
   */
  lemma LegalReadDeliversIff(mem: seq<byte>, base: uintptr, outside: nat -> byte, completer: uint16, req: seq<byte>)
    requires LegalRequest(req) && IsMrd(req[0])
    ensures Covered(StartLoop(req))
    ensures var cs := Replies(mem, base, outside, completer, req);
      && AllHaveHeaders(cs)
      && (Reassemble(cs) == NamedBytes(mem, base, outside, req)
          <==> MrLength(req) > 0 && ReadAnswered(base, |mem|, req))
  {
    AlignedRequestIsCovered(req);
    NamedAreFetched(mem, base, outside, req);
    if MrLength(req) == 0 {
      LengthZeroDeliversNothing(mem, base, outside, completer, req);
    } else if ReadAnswered(base, |mem|, req) {
      LegalReadDelivers(mem, base, outside, completer, req);
    }
  }

  /** The bytes a legal request names lie in the window. */
  predicate NamesInside(base: uintptr, size: nat, req: seq<byte>)
    requires LegalRequest(req)
  {
    base <= MrAddr(req) && MrAddr(req) + Asked(req) <= base + size
  }

  /** A window of whole double words that does not wrap. */
  predicate PlainWindow(base: uintptr, size: nat) {
    base % 4 == 0 && size % 4 == 0 && base + size < ADDRESSES
  }

  /** The guard counts the announced double words from the first requested byte, which need not start one. */
  lemma GuardOfLegal(base: uintptr, size: nat, start: nat, lead: nat, length: nat, asked: nat)
    requires PlainWindow(base, size) && start % 4 == 0 && lead < 4 && lead + asked <= 4 * length < lead + asked + 4
    requires base <= start + lead && start + lead + asked <= base + size && asked > 0
    ensures Admits(base, size, start + lead, 4 * length) <==> lead == 0 || start + 4 * length < base + size
  {
    EndOfWords(base + size, start, lead, length, asked);
    AlignedRoom(base + size);
    GuardBelow(base, size, start + lead, 4 * length);
  }

  /** The guard where neither sum wraps. */
  lemma GuardBelow(base: uintptr, size: nat, addr: nat, len: nat)
    requires base <= addr && addr + len < ADDRESSES && base + size < ADDRESSES
    ensures Admits(base, size, addr, len) <==> addr + len <= base + size
  {
  }

  lemma EndOfWords(end: nat, start: nat, lead: nat, length: nat, asked: nat)
    requires end % 4 == 0 && start % 4 == 0 && start + lead + asked <= end && 4 * length < lead + asked + 4
    ensures start + 4 * length <= end
    ensures start + 4 * length < end ==> start + 4 * length + 4 <= end
  {
  }

  /**
   * Which legal reads of bytes inside the window are answered: those that start on a double word,
   * and those whose last double word is not the window's last.
   */
  lemma InsideIsAnsweredIff(base: uintptr, size: nat, req: seq<byte>)
    requires PlainWindow(base, size) && LegalRequest(req) && MrLength(req) > 0 && NamesInside(base, size, req)
    ensures ReadAnswered(base, size, req)
       <==> LeadingDisabled(MrFirst(req)) == 0 || AddrField(req) + 4 * MrLength(req) < base + size
  {
    AddrFieldFits(req);
    EnablesTight(MrLength(req), MrFirst(req), MrLast(req));
    LeadIsDisabled(MrFirst(req));
    GuardOfLegal(base, size, AddrField(req), LeadingDisabled(MrFirst(req)), MrLength(req), Asked(req));
  }

  lemma NatOfSnoc(s: seq<byte>, b: byte)
    ensures NatOf(s + [b]) == NatOf(s) * 256 + b
  {
    assert (s + [b])[..|s|] == s;
  }

  /** A 3DW address field, byte by byte. */
  lemma ShortField(req: seq<byte>, low: byte)
    requires |req| == 12 && Is3Dw(req[0]) && req[8..12] == [0, 0, 0, low]
    ensures HasHeader(req) && AddrField(req) == low
  {
    NatOfSnoc([], 0);
    NatOfSnoc([0], 0);
    NatOfSnoc([0, 0], 0);
    NatOfSnoc([0, 0, 0], low);
    assert [] + [0] == [0] && [0] + [0] == [0, 0] && [0, 0] + [0] == [0, 0, 0] && [0, 0, 0] + [low] == [0, 0, 0, low];
  }

  /** A read of 4096 bytes from address 0 on, asked for with Length 0. */
  function FullRead(): seq<byte> {
    [0, 0, 0, 0, 0, 0, 0, 0xFF, 0, 0, 0, 0]
  }

  lemma FullReadIsLegal()
    ensures LegalRequest(FullRead()) && IsMrd(FullRead()[0]) && MrLength(FullRead()) == 0
    ensures NamesInside(0, 8192, FullRead()) && ReadAnswered(0, 8192, FullRead())
    ensures Asked(FullRead()) == 4096
  {
    ShortField(FullRead(), 0);
  }

  /** Legal, inside the default window, and admitted, but answered with no data at all. */
  lemma FullReadDeliversNothing(mem: seq<byte>, outside: nat -> byte, completer: uint16)
    requires |mem| == 8192
    ensures LegalRequest(FullRead()) && NamesInside(0, |mem|, FullRead()) && Covered(StartLoop(FullRead()))
    ensures var cs := Replies(mem, 0, outside, completer, FullRead()); AllHaveHeaders(cs) && Reassemble(cs) == []
  {
    FullReadIsLegal();
    AlignedRequestIsCovered(FullRead());
    LengthZeroDeliversNothing(mem, 0, outside, completer, FullRead());
  }

  /** A read with a reserved address bit set. */
  function Crooked(): seq<byte> {
    [0, 0, 0, 1, 0, 0, 0, 0x0F, 0, 0, 0, 2]
  }

  /** The default window admits it, and the split loop never ends. */
  lemma EndlessRead(n: nat)
    requires n > 0
    ensures HasHeader(Crooked()) && IsMrd(Crooked()[0]) && ReadAnswered(0, 8192, Crooked())
    ensures !Covered(StartLoop(Crooked())) && Passes(StartLoop(Crooked()), n).dataLen > 0
  {
    ShortField(Crooked(), 2);
    assert StartLoop(Crooked()) == Loop(4, 4, 2);
    LoopEndsIff(Loop(4, 4, 2));
  }
}
