/**
 * domag, the thread that serves one magazine: a state machine that picks
 * the next page (a due carousel first, else the next page of the list in
 * page-number order), sends its header, an X/28 enhancement packet when
 * the page asks for a region, then one packet per OL and FL line until the
 * page file runs out or the next subpage starts.
 */
module Domag {
  import opened Tables
  import opened CString
  import opened Packet
  import opened Buffer
  import opened Files
  import opened Page
  import opened Carousels
  import opened Mag

  /** The states of mag.h. */
  const StateBegin: byte := 0
  const StateIdle: byte := 1
  const StateHeader: byte := 2
  const StateSending: byte := 3

  /** The buffer has a free slot for one more packet. */
  ghost predicate HasRoom(out: PacketBuffer, k: int)
    reads out
  {
    |out.contents| + k < out.count
  }

  /** bufferPut into a buffer with a free slot: the packet joins the queue. */
  method Emit(packet: array<byte>, out: PacketBuffer)
    requires out.Valid() && packet.Length == PacketSize && packet != out.pkt && HasRoom(out, 1)
    modifies out, out.pkt
    ensures out.Valid() && out.pkt == old(out.pkt) && out.count == old(out.count)
    ensures out.contents == old(out.contents) + [packet[..]]
  {
    var r := out.Put(packet);
  }

  /** Parity(packet, 5): every byte after the prefix gets odd parity. */
  method ParityFrom5(packet: array<byte>)
    requires packet.Length == PacketSize
    modifies packet
    ensures packet[..] == old(packet[..5]) + WithParity(old(packet[5..]))
  {
    Parity(packet, 5);
    assert packet[..] == old(packet[..5]) + WithParity(old(packet[5..])) by {
      forall i | 0 <= i < PacketSize
        ensures packet[i] == (old(packet[..5]) + WithParity(old(packet[5..])))[i]
      {
      }
    }
  }

  // ---------------------------------------------------------------------
  // OL lines

  /** What copyOL returns for a line: 0 when the row number reads as 0, 0xFF when no comma follows it, else the row number in 8 bits. */
  function OLNumber(line: Line): byte
  {
    var t := Drop(line, 3);
    var n := Strtol(t, 10);
    if n == 0 then 0 else if CommaAfter(t, 0, 4) == -1 then 0xFF else U8(n)
  }

  /** The line has a row number and the comma after it, so copyOL decodes its text. */
  predicate HasBody(line: Line)
  {
    var t := Drop(line, 3);
    Strtol(t, 10) != 0 && CommaAfter(t, 0, 4) != -1
  }

  /** The text of an OL line: what follows the comma after the row number. */
  function OLText(line: Line): Line
    requires HasBody(line)
  {
    var t := Drop(line, 3);
    Drop(t, CommaAfter(t, 0, 4))
  }

  /** The packet after copyOL: bytes 5..44 hold the decoded text when the line has one, else nothing changed. */
  function AfterCopyOL(pkt: seq<byte>, line: Line): (r: seq<byte>)
    requires |pkt| == PacketSize
    ensures |r| == PacketSize
  {
    if HasBody(line) then pkt[..5] + OLRow(OLText(line)) else pkt
  }

  /** The test domag applies to copyOL's result, as written: any nonzero row is sent, the error value 0xFF included. */
  predicate RowSentAsWritten(row: byte)
  {
    row != 0
  }

  /** The test as intended: 0 ("OL,0") and 0xFF (no comma) are both skipped. */
  predicate RowSent(row: byte)
  {
    row != 0 && row != 0xFF
  }

  /** A row packet: the prefix for the magazine and row, then the 40 text bytes with odd parity. */
  function RowPacket(mag: byte, row: byte, text: Line): (r: seq<byte>)
    ensures |r| == PacketSize
  {
    Prefix(mag, row) + WithParity(OLRow(text))
  }

  /**
   * copyOL followed by domag's row test as written: the packet after the
   * step and the packets queued (none, or the row packet; for copyOL's
   * error value 0xFF, a row 0xFF packet over whatever the buffer held).
   */
  function RowStep(pkt: seq<byte>, line: Line, mag: byte): (r: (seq<byte>, seq<seq<byte>>))
    requires |pkt| == PacketSize
    ensures |r.0| == PacketSize
  {
    var row := OLNumber(line);
    var copied := AfterCopyOL(pkt, line);
    if RowSentAsWritten(row) then
      var p := Prefix(mag, row) + WithParity(copied[5..]);
      (p, [p])
    else (copied, [])
  }

  /** RowStep with the test as intended: copyOL's error value 0xFF queues nothing. */
  function RowStepIntended(pkt: seq<byte>, line: Line, mag: byte): (r: (seq<byte>, seq<seq<byte>>))
    requires |pkt| == PacketSize
    ensures |r.0| == PacketSize
  {
    var row := OLNumber(line);
    var copied := AfterCopyOL(pkt, line);
    if RowSent(row) then
      var p := Prefix(mag, row) + WithParity(copied[5..]);
      (p, [p])
    else (copied, [])
  }

  /**
   * A row that passes the intended test came with its text: both as
   * written and as intended the packet sent is the row packet of that
   * text and row number.
   */
  lemma RowSentCarriesText(pkt: seq<byte>, line: Line, mag: byte)
    requires |pkt| == PacketSize
    requires RowSent(OLNumber(line))
    ensures HasBody(line)
    ensures RowStep(pkt, line, mag).1 == [RowPacket(mag, OLNumber(line), OLText(line))]
    ensures RowStepIntended(pkt, line, mag) == RowStep(pkt, line, mag)
  {
    assert (pkt[..5] + OLRow(OLText(line)))[5..] == OLRow(OLText(line));
  }

  /**
   * With the test as intended, an OL line queues the row packet of its
   * text when copyOL returns a row, and nothing (the packet as copyOL
   * left it) when copyOL returns 0 or its error value 0xFF.
   */
  lemma IntendedRowsOnly(pkt: seq<byte>, line: Line, mag: byte)
    requires |pkt| == PacketSize
    ensures RowSent(OLNumber(line)) ==> HasBody(line)
    ensures RowSent(OLNumber(line)) ==> RowStepIntended(pkt, line, mag).1 == [RowPacket(mag, OLNumber(line), OLText(line))]
    ensures !RowSent(OLNumber(line)) ==> RowStepIntended(pkt, line, mag) == (AfterCopyOL(pkt, line), [])
  {
    if RowSent(OLNumber(line)) {
      RowSentCarriesText(pkt, line, mag);
    }
  }

  /** An "OL,5" line without a comma after the row number, as a C string in the line buffer. */
  const NoCommaLine: Line := [0x4F, 0x4C, 0x2C, 0x35, 0x0A, 0]

  /**
   * As written, copyOL's error value passes domag's test: a line with no
   * comma after its row number is sent as a row 0xFF packet (row 31 to a
   * receiver) whose text is whatever the packet buffer held. With the test
   * as intended the line queues nothing.
   */
  lemma MalformedRowSentAsWritten(pkt: seq<byte>, mag: byte)
    requires |pkt| == PacketSize
    ensures OLNumber(NoCommaLine) == 0xFF && !HasBody(NoCommaLine)
    ensures RowStep(pkt, NoCommaLine, mag).1 == [Prefix(mag, 0xFF) + WithParity(pkt[5..])]
    ensures MragRow(Prefix(mag, 0xFF)[3], Prefix(mag, 0xFF)[4]) == 31
    ensures RowStepIntended(pkt, NoCommaLine, mag) == (pkt, [])
  {
    NoCommaText(NoCommaLine);
    OLNumberNoComma(NoCommaLine);
    MragRoundTrip(mag, 0xFF);
  }

  lemma NoCommaText(line: Line)
    requires line == NoCommaLine
    ensures Drop(line, 3) == [0x35, 0x0A, 0]
  {
  }

  lemma OLNumberNoComma(line: Line)
    requires Drop(line, 3) == [0x35, 0x0A, 0]
    ensures OLNumber(line) == 0xFF && !HasBody(line)
  {
    var t := Drop(line, 3);
    OLNumberFive(t);
    NoCommaInFive(t);
  }

  lemma OLNumberFive(t: Line)
    requires t == [0x35, 0x0A, 0]
    ensures Strtol(t, 10) == 5
  {
    assert t == ToDigits(5, 10) + [0x0A, 0];
    StrtolReadsDigits(5, 10, [0x0A, 0]);
  }

  lemma NoCommaInFive(t: Line)
    requires t == [0x35, 0x0A, 0]
    ensures CommaAfter(t, 0, 4) == -1
  {
    assert CommaAfter(t, 3, 1) == -1;
  }

  /** copyOL, the row test as written (`if (row)`), and for a row that passes, PacketPrefix, Parity and bufferPut. */
  method SendRow(packet: array<byte>, out: PacketBuffer, line: Line, mag: byte)
    requires out.Valid() && packet.Length == PacketSize && packet != out.pkt && HasRoom(out, 1)
    modifies packet, out, out.pkt
    ensures out.Valid() && out.pkt == old(out.pkt) && out.count == old(out.count)
    ensures packet[..] == RowStep(old(packet[..]), line, mag).0
    ensures out.contents == old(out.contents) + RowStep(old(packet[..]), line, mag).1
  {
    var row := CopyOL(packet, line);
    if RowSentAsWritten(row) {
      ghost var copied := packet[..];
      PacketPrefix(packet, mag, row);
      assert packet[5..] == copied[5..];
      ParityFrom5(packet);
      Emit(packet, out);
    }
  }

  // ---------------------------------------------------------------------
  // FL lines

  /** copyFL, PacketPrefix for row 27 and Parity from byte 5: the X/27/0 packet sent for an FL line. */
  function LinkStep(pkt: seq<byte>, line: Line, mag: byte): (r: seq<byte>)
    requires |pkt| == PacketSize
    ensures |r| == PacketSize
  {
    Prefix(mag, 27) + WithParity(FLPacket(pkt, line, mag)[5..])
  }

  /** An FL line goes out as row 27 of the page's magazine, with odd parity after the prefix. */
  lemma LinkStepRow27(pkt: seq<byte>, line: Line, mag: byte)
    requires |pkt| == PacketSize
    ensures var r := LinkStep(pkt, line, mag);
      && MragRow(r[3], r[4]) == 27 && MragMagazine(r[3]) == mag % 8
      && forall i :: 5 <= i < PacketSize ==> OddParity(r[i])
  {
    var r := LinkStep(pkt, line, mag);
    assert r[..5] == Prefix(mag, 27);
    MragRoundTrip(mag, 27);
    assert forall i :: 5 <= i < PacketSize ==> r[i] == WithParity(FLPacket(pkt, line, mag)[5..])[i - 5];
  }

  /** The links copyFL found are in bytes 6.. of the FL packet, seven bits each under the parity bit. */
  lemma LinkStepCarriesLinks(pkt: seq<byte>, line: Line, mag: byte)
    requires |pkt| == PacketSize
    ensures var r, f := LinkStep(pkt, line, mag), LinkFields(line, mag);
      6 + |f| <= PacketSize && forall i :: 0 <= i < |f| ==> r[6 + i] & 0x7F == f[i] & 0x7F
  {
    FLPacketLayout(pkt, line, mag);
    ParityKeepsWindow(FLPacket(pkt, line, mag), LinkFields(line, mag), mag);
  }

  lemma ParityKeepsWindow(q: seq<byte>, f: seq<byte>, mag: byte)
    requires |q| == PacketSize && 6 + |f| <= PacketSize && q[6..6 + |f|] == f
    ensures var r := Prefix(mag, 27) + WithParity(q[5..]);
      forall i :: 0 <= i < |f| ==> r[6 + i] & 0x7F == f[i] & 0x7F
  {
    var w := WithParity(q[5..]);
    forall i | 0 <= i < |f|
      ensures w[1 + i] & 0x7F == f[i] & 0x7F
    {
      assert q[5..][1 + i] == q[6..6 + |f|][i];
    }
  }

  /** The FL branch of the SENDING state. */
  method SendLinks(packet: array<byte>, out: PacketBuffer, line: Line, mag: byte)
    requires out.Valid() && packet.Length == PacketSize && packet != out.pkt && HasRoom(out, 1)
    modifies packet, out, out.pkt
    ensures out.Valid() && out.pkt == old(out.pkt) && out.count == old(out.count)
    ensures packet[..] == LinkStep(old(packet[..]), line, mag)
    ensures out.contents == old(out.contents) + [packet[..]]
  {
    CopyFL(packet, line, mag);
    ghost var linked := packet[..];
    PacketPrefix(packet, mag, 27);
    assert packet[5..] == linked[5..];
    ParityFrom5(packet);
    Emit(packet, out);
  }

  // ---------------------------------------------------------------------
  // The X/28 packet

  /** Triplets 2..13 of the X/28 packet: twelve Hamming 24/18 codes of 0. */
  function ZeroTriplets(): (r: seq<byte>)
    ensures |r| == 36
  {
    seq(36, k requires 0 <= k < 36 => Ham24(0)[k % 3])
  }

  /**
   * The X/28/0 packet for a page with a region: designation code 0,
   * triplet 1 with the region in data bits 11..14 (section 9.4.2.1 of ETSI
   * EN 300 706 numbers them from 1) and triplets 2..13 zero.
   */
  function EnhancementPacket(mag: byte, region: bv32): (r: seq<byte>)
    ensures |r| == PacketSize
  {
    Prefix(mag, 28) + [Ham(0)] + Ham24(region << 10) + ZeroTriplets()
  }

  /** The regions for which domag sends an X/28 packet. */
  predicate HasRegion(region: bv32)
  {
    0 < region <= 0x0F
  }

  /** The X/28 packet reads back as row 28 of the magazine, with triplet 1 carrying the region and triplets 2..13 zero. */
  lemma EnhancementCarriesRegion(mag: byte, region: bv32)
    requires HasRegion(region)
    ensures var r := EnhancementPacket(mag, region);
      && MragRow(r[3], r[4]) == 28 && MragMagazine(r[3]) == mag % 8
      && Ham24Data(r[6..9]) == region << 10 && (Ham24Data(r[6..9]) >> 10) & 0xF == region
      && forall i :: 2 <= i <= 13 ==> Ham24Data(r[3 * i + 3..3 * i + 6]) == 0
  {
    var r := EnhancementPacket(mag, region);
    MragRoundTrip(mag, 28);
    assert r[6..9] == Ham24(region << 10);
    Ham24RoundTrip(region << 10);
    Ham24RoundTrip(0);
    forall i | 2 <= i <= 13
      ensures r[3 * i + 3..3 * i + 6] == Ham24(0)
    {
      ZeroTripletAt(mag, region, i);
    }
  }

  lemma ZeroTripletAt(mag: byte, region: bv32, i: int)
    requires 2 <= i <= 13
    ensures EnhancementPacket(mag, region)[3 * i + 3..3 * i + 6] == Ham24(0)
  {
    var r := EnhancementPacket(mag, region);
    assert r[9..] == ZeroTriplets();
    ZeroTripletIn(r, i);
  }

  lemma ZeroTripletIn(r: seq<byte>, i: int)
    requires |r| == PacketSize && r[9..] == ZeroTriplets() && 2 <= i <= 13
    ensures r[3 * i + 3..3 * i + 6] == Ham24(0)
  {
    var z := ZeroTriplets();
    forall j | 0 <= j < 3
      ensures r[3 * i + 3 + j] == Ham24(0)[j]
    {
      assert r[3 * i + 3 + j] == z[3 * i - 6 + j];
      assert (3 * i - 6 + j) % 3 == j;
    }
  }

  lemma U32Of(w: bv32)
    ensures U32(w as int) == w
  {
    assert w as int % 0x1_0000_0000 == w as int;
  }

  /**
   * The X/28 branch of the HEADER state: PageEnhancementDataPacket for row
   * 28, triplet 1 from the region, triplets 2..13 zero, Parity from byte 50
   * (which changes nothing), then bufferPut.
   */
  method SendEnhancement(packet: array<byte>, out: PacketBuffer, mag: byte, region: bv32)
    requires out.Valid() && packet.Length == PacketSize && packet != out.pkt && HasRoom(out, 1)
    requires HasRegion(region)
    modifies packet, out, out.pkt
    ensures out.Valid() && out.pkt == old(out.pkt) && out.count == old(out.count)
    ensures packet[..] == EnhancementPacket(mag, region)
    ensures out.contents == old(out.contents) + [packet[..]]
  {
    BuildEnhancement(packet, mag, region);
    Emit(packet, out);
  }

  method BuildEnhancement(packet: array<byte>, mag: byte, region: bv32)
    requires packet.Length == PacketSize
    modifies packet
    ensures packet[..] == EnhancementPacket(mag, region)
  {
    ghost var e := EnhancementPacket(mag, region);
    PageEnhancementDataPacket(packet, mag as int, 28, 0);
    U8Small(mag);
    U8Small(28);
    var triplet: int := 0;
    triplet := triplet + (region << 10) as int;
    SetTriplet(packet, 1, triplet);
    U32Of(region << 10);
    assert packet[..9] == e[..9];
    ZeroTripletsFrom(packet, e);
    Parity(packet, 50);
  }

  /** The loop setting triplets 2..13 to 0. */
  method ZeroTripletsFrom(packet: array<byte>, ghost e: seq<byte>)
    requires packet.Length == PacketSize && |e| == PacketSize
    requires packet[..9] == e[..9] && e[9..] == ZeroTriplets()
    requires forall k :: 9 <= k < PacketSize ==> packet[k] == 0
    modifies packet
    ensures packet[..] == e
  {
    var i := 2;
    while i <= 13
      invariant 2 <= i <= 14
      invariant packet[..3 * i + 3] == e[..3 * i + 3]
      invariant forall k :: 3 * i + 3 <= k < PacketSize ==> packet[k] == 0
    {
      ghost var before := packet[..];
      SetTriplet(packet, i, 0);
      U32Of(0);
      ZeroTripletIn(e, i);
      assert packet[..3 * i + 6] == before[..3 * i + 3] + e[3 * i + 3..3 * i + 6];
      i := i + 1;
    }
  }

  // ---------------------------------------------------------------------
  // The header

  /** The control word domag hands PacketHeader: C11 (0x0040) cleared, so the magazine is sent in parallel mode. */
  function ParallelControl(control: bv32): bv32
  {
    control & 0xFFFF_FFBF
  }

  /** The header packet for a page: bytes 13..44 are left as the packet buffer held them, for bufferMove to fill. */
  function HeaderPacket(f: PageInfo, pkt: seq<byte>): (r: seq<byte>)
    requires |pkt| == PacketSize
    ensures |r| == PacketSize
  {
    Prefix(f.mag, 0) + HeaderBytesAsWritten(f.page, f.subcode, ParallelControl(f.control)) + pkt[13..]
  }

  /** The header goes out as row 0 of the page's magazine. */
  lemma HeaderPacketRow0(f: PageInfo, pkt: seq<byte>)
    requires |pkt| == PacketSize
    ensures var r := HeaderPacket(f, pkt);
      MragRow(r[3], r[4]) == 0 && MragMagazine(r[3]) == f.mag % 8
  {
    HeaderPacketParts(f, pkt);
    MragRoundTrip(f.mag, 0);
  }

  /**
   * The header bytes domag sends read back as the page number and the
   * control bits of the page, with C11 clear; the subcode reads back as
   * PacketHeader cuts it, which is the subcode itself when it is below 0x80.
   */
  lemma ParallelHeaderFields(page: byte, subcode: bv32, control: bv32)
    ensures var h := HeaderBytesAsWritten(page, subcode, ParallelControl(control));
      && HeaderPage(h) == page
      && SubcodeReadAsWritten(HeaderSubcode(h), subcode)
      && (subcode & 0x3F80 == 0 ==> HeaderSubcode(h) == (subcode & 0x3F7F) as bv16)
      && HeaderControl(h) == control & 0x43BF
      && HeaderControl(h) & 0x0040 == 0
  {
    HeaderPageRoundTrip(page, subcode, ParallelControl(control));
    HeaderSubcodeAsWritten(page, subcode, ParallelControl(control));
    if subcode & 0x3F80 == 0 {
      HeaderCutsAgree(page, subcode, ParallelControl(control));
    }
    ParallelHeaderControl(page, subcode, control);
  }

  /** The header packet is the prefix of row 0, the header bytes of the page with C11 cleared, and the rest of the packet buffer. */
  lemma HeaderPacketParts(f: PageInfo, pkt: seq<byte>)
    requires |pkt| == PacketSize
    ensures HeaderPacket(f, pkt)[..5] == Prefix(f.mag, 0)
    ensures HeaderPacket(f, pkt)[5..13] == HeaderBytesAsWritten(f.page, f.subcode, ParallelControl(f.control))
    ensures HeaderPacket(f, pkt)[13..] == pkt[13..]
  {
  }

  lemma ParallelHeaderControl(page: byte, subcode: bv32, control: bv32)
    ensures HeaderControl(HeaderBytesAsWritten(page, subcode, ParallelControl(control))) == control & 0x43BF
    ensures (control & 0x43BF) & 0x0040 == 0
  {
    HeaderControlRoundTrip(page, subcode, ParallelControl(control));
    assert ParallelControl(control) & 0x43FF == control & 0x43BF;
  }

  /** PacketHeader for the page, with C11 cleared, then bufferPut. */
  method SendHeader(packet: array<byte>, out: PacketBuffer, page: Page)
    requires out.Valid() && packet.Length == PacketSize && packet != out.pkt && HasRoom(out, 1)
    modifies packet, out, out.pkt
    ensures out.Valid() && out.pkt == old(out.pkt) && out.count == old(out.count)
    ensures packet[..] == HeaderPacket(page.Fields(), old(packet[..]))
    ensures out.contents == old(out.contents) + [packet[..]]
  {
    BuildHeader(packet, page.Fields());
    Emit(packet, out);
  }

  method BuildHeader(packet: array<byte>, f: PageInfo)
    requires packet.Length == PacketSize
    modifies packet
    ensures packet[..] == HeaderPacket(f, old(packet[..]))
  {
    PacketHeader(packet, f.mag, f.page, f.subcode, f.control & 0xFFFF_FFBF);
    assert packet[..] == packet[..5] + packet[5..13] + packet[13..];
  }

  // ---------------------------------------------------------------------
  // The SENDING state

  /** The line buffer starts with "OL". */
  predicate IsOL(line: Line)
  {
    |line| >= 2 && line[0] == 0x4F && line[1] == 0x4C
  }

  /** The line buffer starts with "FL". */
  predicate IsFL(line: Line)
  {
    |line| >= 2 && line[0] == 0x46 && line[1] == 0x4C
  }

  /** The line buffer starts with "SC": the next subpage begins. */
  predicate IsSC(line: Line)
  {
    |line| >= 2 && line[0] == 0x53 && line[1] == 0x43
  }

  /** The line buffer starts with "OL,", the first output line of a page. */
  predicate StartsOL(line: Line)
  {
    |line| >= 3 && line[0] == 0x4F && line[1] == 0x4C && line[2] == 0x2C
  }

  /** The OL and FL branches of the SENDING state: the packet after them and the packets queued. */
  function LineStep(pkt: seq<byte>, line: Line, mag: byte): (r: (seq<byte>, seq<seq<byte>>))
    requires |pkt| == PacketSize
    ensures |r.0| == PacketSize
  {
    if IsOL(line) then RowStep(pkt, line, mag)
    else if IsFL(line) then
      var p := LinkStep(pkt, line, mag);
      (p, [p])
    else (pkt, [])
  }

  /** The OL and FL branches, one after the other as in domag. */
  method SendLine(packet: array<byte>, out: PacketBuffer, line: Line, mag: byte)
    requires out.Valid() && packet.Length == PacketSize && packet != out.pkt && HasRoom(out, 1)
    modifies packet, out, out.pkt
    ensures out.Valid() && out.pkt == old(out.pkt) && out.count == old(out.count)
    ensures packet[..] == LineStep(old(packet[..]), line, mag).0
    ensures out.contents == old(out.contents) + LineStep(old(packet[..]), line, mag).1
  {
    if IsOL(line) {
      SendRow(packet, out, line, mag);
    }
    if IsFL(line) {
      SendLinks(packet, out, line, mag);
    }
  }

  /** What one pass of the SENDING state reads, leaves and queues, and whether the page is finished. */
  datatype Pass = Pass(pos: nat, eof: bool, line: Line, pkt: seq<byte>, queued: seq<seq<byte>>, done: bool)

  /**
   * One pass of the SENDING state as values: fgets, the OL and FL
   * branches on whatever the line buffer then holds, and the end test (end
   * of file, or an SC line).
   */
  function SendingPass(content: seq<byte>, pos: nat, eof: bool, buf: Line, pkt: seq<byte>, mag: byte): (r: Pass)
    requires pos <= |content| && |buf| == MaxLine && |pkt| == PacketSize
    ensures r.pos <= |content| && |r.line| == MaxLine && |r.pkt| == PacketSize
  {
    var g := Gets(content, pos, eof, buf);
    var s := LineStep(pkt, g.2, mag);
    Pass(g.0, g.1, g.2, s.0, s.1, g.1 || IsSC(g.2))
  }

  /**
   * fgets at the end of the file leaves the line buffer as it was, so a
   * page file whose last line is a row ending in a newline sends that row
   * twice: the pass that reads it queues the row packet and the page goes
   * on; the next pass reads nothing, queues the same packet again and
   * ends the page.
   */
  lemma LastRowSentTwice(before: seq<byte>, line: seq<byte>, buf: Line, pkt: seq<byte>, mag: byte)
    requires |buf| == MaxLine && |pkt| == PacketSize
    requires 1 <= |line| <= MaxLine - 1 && line[|line| - 1] == 0x0A
    requires forall k :: 0 <= k < |line| - 1 ==> line[k] != 0x0A
    requires IsOL(line) && RowSent(OLNumber(Fgot(buf, line)))
    ensures var l := Fgot(buf, line);
      var p1 := SendingPass(before + line, |before|, false, buf, pkt, mag);
      var p2 := SendingPass(before + line, p1.pos, p1.eof, p1.line, p1.pkt, mag);
      && !p1.done && p2.done && p1.line == p2.line == l && HasBody(l)
      && p1.queued == p2.queued == [RowPacket(mag, OLNumber(l), OLText(l))]
  {
    var l := Fgot(buf, line);
    GetsWholeLine(before, line, [], buf);
    assert before + line + [] == before + line;
    assert IsOL(l) && !IsSC(l);
    var p1 := SendingPass(before + line, |before|, false, buf, pkt, mag);
    RowSentCarriesText(pkt, l, mag);
    RowSentCarriesText(p1.pkt, l, mag);
  }

  // ---------------------------------------------------------------------
  // The IDLE state

  /**
   * The scan down to the rows: fgets until the line buffer starts with
   * "OL," or the end-of-file indicator is set.
   */
  function SkipToOL(content: seq<byte>, pos: nat, eof: bool, buf: Line): (r: (nat, bool, Line))
    requires pos <= |content| && |buf| == MaxLine
    ensures r.0 <= |content| && |r.2| == MaxLine
    ensures StartsOL(r.2) || r.1
    decreases |content| - pos, if eof then 0 else 1
  {
    if StartsOL(buf) || eof then (pos, eof, buf)
    else
      var g := Gets(content, pos, eof, buf);
      SkipToOL(content, g.0, g.1, g.2)
  }

  /** The scan stops at the next whole line that starts "OL,", with the end-of-file indicator clear. */
  lemma SkipFindsRow(before: seq<byte>, line: seq<byte>, after: seq<byte>, buf: Line)
    requires |buf| == MaxLine && !StartsOL(buf)
    requires 1 <= |line| <= MaxLine - 1 && line[|line| - 1] == 0x0A
    requires forall k :: 0 <= k < |line| - 1 ==> line[k] != 0x0A
    requires StartsOL(line)
    ensures SkipToOL(before + line + after, |before|, false, buf) == (|before| + |line|, false, Fgot(buf, line))
  {
    GetsWholeLine(before, line, after, buf);
    assert StartsOL(Fgot(buf, line));
  }

  // ---------------------------------------------------------------------
  // The page list

  /** Slot j places after start in txList, the index wrapping round as a uint8_t does. */
  function Around(start: int, j: int): (k: int)
    ensures 0 <= k < 256
  {
    (start + j) % 256
  }

  /** Some slot other than start holds a page. */
  predicate HasPageAfter(list: seq<Page?>, start: int)
    requires |list| == 256
  {
    exists j :: 1 <= j < 256 && list[Around(start, j)] != null
  }

  lemma AroundStep(s: int, k: nat)
    requires 0 <= s < 256
    ensures (Around(s, k) + 1) % 256 == Around(s, k + 1)
  {
    var q, r := (s + k) / 256, (s + k) % 256;
    assert s + k == 256 * q + r;
    if r < 255 {
      assert s + k + 1 == 256 * q + (r + 1);
    } else {
      assert s + k + 1 == 256 * (q + 1);
    }
  }

  lemma AroundDistinct(s: int, k: int)
    requires 0 <= s < 256 && 1 <= k <= 255
    ensures Around(s, k) != s
  {
  }

  /**
   * How far past start the search of txList stops: the first offset
   * 1..255 whose slot holds a page, or 256 (back at start) when there is
   * none.
   */
  function SeekOffset(list: seq<Page?>, start: int, k: nat): (r: nat)
    requires |list| == 256 && 1 <= k <= 256
    ensures k <= r <= 256
    ensures r < 256 ==> list[Around(start, r)] != null
    ensures forall j :: k <= j < r ==> list[Around(start, j)] == null
    decreases 256 - k
  {
    if k == 256 then 256
    else if list[Around(start, k)] != null then k
    else SeekOffset(list, start, k + 1)
  }

  /** The index the search of txList stops at. */
  function NextListed(list: seq<Page?>, start: int): (k: int)
    requires |list| == 256
    ensures 0 <= k < 256
  {
    Around(start, SeekOffset(list, start, 1))
  }

  /**
   * The search takes the first page after start in circular order: the
   * slot it stops at holds a page and every slot passed over is empty;
   * when every other slot is empty it stops back at start.
   */
  lemma NextListedIsNext(list: seq<Page?>, start: int)
    requires |list| == 256 && 0 <= start < 256
    ensures var r := SeekOffset(list, start, 1);
      && (r < 256 <==> HasPageAfter(list, start))
      && (r < 256 ==> list[NextListed(list, start)] != null)
      && (r == 256 ==> NextListed(list, start) == start)
  {
    var s := start;
    var r := SeekOffset(list, s, 1);
    if r == 256 {
      AroundFull(s);
      assert forall j :: 1 <= j < 256 ==> list[Around(s, j)] == null;
    } else {
      assert list[Around(s, r)] != null;
    }
  }

  lemma AroundFull(s: int)
    requires 0 <= s < 256
    ensures Around(s, 256) == s
  {
  }

  /** The search loop of the IDLE state; wrapped is set when it came back to start (state BEGIN). */
  method NextInList(txList: array<Page?>, start: int) returns (index: int, wrapped: bool)
    requires txList.Length == 256 && 0 <= start < 256
    ensures index == NextListed(txList[..], start)
    ensures wrapped <==> SeekOffset(txList[..], start, 1) == 256
  {
    var s := start;
    var i := (s + 1) % 256;
    ghost var k := 1;
    wrapped := false;
    while txList[i] == null
      invariant 1 <= k <= 255 && i == Around(s, k) && !wrapped
      invariant SeekOffset(txList[..], s, k) == SeekOffset(txList[..], s, 1)
      decreases 256 - k
    {
      AroundStep(s, k);
      if k < 255 {
        AroundDistinct(s, k + 1);
      } else {
        AroundFull(s);
      }
      i := (i + 1) % 256;
      k := k + 1;
      if i == s {
        wrapped := true;
        break;
      }
    }
    index := i;
  }

  /** The scan loop of the IDLE state on the open page file. */
  method SkipRows(fp: PageFile, str: array<byte>)
    requires fp.Valid() && str.Length == MaxLine
    modifies fp, str
    ensures fp.Valid()
    ensures (fp.pos, fp.eof, str[..]) == SkipToOL(fp.content, old(fp.pos), old(fp.eof), old(str[..]))
  {
    ghost var target := SkipToOL(fp.content, fp.pos, fp.eof, str[..]);
    while !StartsOL(str[..]) && !fp.eof
      invariant fp.Valid()
      invariant SkipToOL(fp.content, fp.pos, fp.eof, str[..]) == target
      decreases |fp.content| - fp.pos, if fp.eof then 0 else 1
    {
      fp.Fgets(str);
    }
  }

  // ---------------------------------------------------------------------
  // The HEADER state

  /**
   * The HEADER state as values: the X/28 packet when the page has a
   * region, then the first row (the line the IDLE state stopped at) with
   * the row test.
   */
  function HeaderPass(pkt: seq<byte>, line: Line, mag: byte, region: bv32): (r: (seq<byte>, seq<seq<byte>>))
    requires |pkt| == PacketSize
    ensures |r.0| == PacketSize
  {
    var e := if HasRegion(region) then EnhancementPacket(mag, region) else pkt;
    var s := RowStep(e, line, mag);
    (s.0, (if HasRegion(region) then [e] else []) + s.1)
  }

  /** The X/28 branch and the first row of the HEADER state. */
  method SendFirst(packet: array<byte>, out: PacketBuffer, line: Line, mag: byte, region: bv32)
    requires out.Valid() && packet.Length == PacketSize && packet != out.pkt && HasRoom(out, 2)
    modifies packet, out, out.pkt
    ensures out.Valid() && out.pkt == old(out.pkt) && out.count == old(out.count)
    ensures packet[..] == HeaderPass(old(packet[..]), line, mag, region).0
    ensures out.contents == old(out.contents) + HeaderPass(old(packet[..]), line, mag, region).1
    ensures |out.contents| <= |old(out.contents)| + 2
  {
    HeaderPassQueues(old(packet[..]), line, mag, region);
    if HasRegion(region) {
      SendEnhancement(packet, out, mag, region);
    }
    SendRow(packet, out, line, mag);
  }

  /** A page with a region starts with its X/28 packet; a page without one queues at most its first row. */
  lemma HeaderPassQueues(pkt: seq<byte>, line: Line, mag: byte, region: bv32)
    requires |pkt| == PacketSize
    ensures var q := HeaderPass(pkt, line, mag, region).1;
      && (HasRegion(region) ==> 1 <= |q| <= 2 && q[0] == EnhancementPacket(mag, region))
      && (!HasRegion(region) ==> |q| <= 1)
      && (|q| == (if HasRegion(region) then 1 else 0) <==> OLNumber(line) == 0)
  {
  }

  // ---------------------------------------------------------------------
  // The carousel check

  /**
   * What a serviced carousel leaves: the first slot due before now named
   * a file of the directory, the open file stands just past the next
   * subpage (or at the start after running off the end), the PAGE holds
   * that subpage, the slot is rescheduled, and the wait is the next time
   * a carousel is due, which is not 0.
   */
  ghost predicate Served(c0: seq<Carousel>, c: seq<Carousel>, files: map<Line, seq<byte>>, buf: Line, now: int, later: int,
                         content: seq<byte>, pos: nat, eof: bool, f: PageInfo, wait: int)
    requires |buf| == MaxLine
    reads set j | 0 <= j < |c0| && c0[j].page != null :: c0[j].page
  {
    var i := DueFrom(c0, now, 0);
    && i < |c0| && c0[i].page.filename in files
    && var name := c0[i].page.filename;
       var r := ScanFile(files[name], name, c0[i].subcode, buf);
       && content == files[name] && pos == FilePos(r) && !eof && f == r.f
       && c == c0[i := Rescheduled(c0[i], r, later)]
       && wait == NextChange(c) && wait != 0
  }

  /** An open FILE as values: its bytes, the read position and the end-of-file indicator. */
  datatype Cursor = Cursor(content: seq<byte>, pos: nat, eof: bool)

  /** The file a FILE pointer refers to, as values; None for a null pointer. */
  function CursorOf(f: PageFile?): Option<Cursor>
    reads f
  {
    if f == null then None else Some(Cursor(f.content, f.pos, f.eof))
  }

  /** The read position of an open file lies within it. */
  predicate CursorValid(c: Option<Cursor>)
  {
    c.Some? ==> c.value.pos <= |c.value.content|
  }

  /**
   * What the carousel check leaves, as values: the carousel table,
   * pageToTransmit's line buffer, the file pointer, the PAGE it handed back
   * (None when it kept the caller's), the wait, and whether a carousel page
   * is to be sent.
   */
  datatype Checked = Checked(table: seq<Carousel>, buf: Line, file: Option<Cursor>, info: Option<PageInfo>, wait: int, served: bool)

  /**
   * The carousel check of the IDLE state on values. Before the wait has
   * passed nothing changes. After it, an empty table, no due slot or a due
   * page whose file is missing leave the table and the buffer alone (no due
   * slot hands back a cleared PAGE, a missing file a null pointer), and the
   * wait becomes ten seconds later. Otherwise the due slot's file is parsed
   * down to its next subpage and the slot rescheduled; the page is served
   * unless pageToTransmit returned 0, for a page without a file name or when
   * no carousel is due at a positive time.
   */
  function CarouselOutcome(c0: seq<Carousel>, files: map<Line, seq<byte>>, buf: Line, now: int, later: int,
                           wait0: int, file0: Option<Cursor>): (o: Checked)
    requires |c0| == MaxCarousel && |buf| == MaxLine && CursorValid(file0)
    reads set j | 0 <= j < |c0| && c0[j].page != null :: c0[j].page
    ensures CursorValid(o.file) && |o.buf| == MaxLine && |o.table| == MaxCarousel
  {
    if wait0 >= now then Checked(c0, buf, file0, None, wait0, false)
    else if c0[0].page == null then Checked(c0, buf, file0, None, later + 10, false)
    else
      var i := DueFrom(c0, now, 0);
      if i == |c0| then Checked(c0, buf, file0, Some(ClearedInfo()), later + 10, false)
      else
        var name := c0[i].page.filename;
        if name !in files then Checked(c0, buf, None, None, later + 10, false)
        else
          var r := ScanFile(files[name], name, c0[i].subcode, buf);
          var c := c0[i := Rescheduled(c0[i], r, later)];
          var w := if name == [] then 0 else NextChange(c);
          Checked(c, r.buf, Some(Cursor(files[name], FilePos(r), false)), Some(r.f), if w == 0 then later + 10 else w, w != 0)
  }

  /** Where the IDLE state's scan starts: the file the carousel check left open, else the page's file opened afresh, or none. */
  function ScanStart(file: Option<Cursor>, name: Line, files: map<Line, seq<byte>>): (r: Option<Cursor>)
    requires CursorValid(file)
    ensures CursorValid(r)
  {
    if file.Some? then file
    else if name in files then Some(Cursor(files[name], 0, false))
    else None
  }

  /**
   * The opening of the IDLE state on values: the line buffer emptied, the
   * scan down to the first OL line, and the file kept open only when one
   * was found.
   */
  function Opened(start: Option<Cursor>, buf: Line): (r: (Option<Cursor>, Line))
    requires |buf| == MaxLine && CursorValid(start)
    ensures CursorValid(r.0) && |r.1| == MaxLine
  {
    var b := buf[0 := 0];
    match start
    case None => (None, b)
    case Some(c) =>
      var s := SkipToOL(c.content, c.pos, c.eof, b);
      (if s.1 then None else Some(Cursor(c.content, s.0, false)), s.2)
  }

  /**
   * The carousel check of the IDLE state on values: pageToTransmit when
   * the wait has passed, a wait of ten seconds after a result of 0.
   */
  method CheckCarousels(c: array<Carousel>, fp0: PageFile?, page0: Page, files: map<Line, seq<byte>>, scratch: array<byte>,
                        wait0: int, now: int, later: int)
    returns (wait: int, fp: PageFile?, page: Page, served: bool)
    requires c.Length == MaxCarousel && scratch.Length == MaxLine && (fp0 != null ==> fp0.Valid())
    modifies c, scratch
    ensures fp != null ==> fp.Valid()
    ensures fp == fp0 || fp == null || fresh(fp)
    ensures wait0 >= now ==> !served && fp == fp0 && page == page0 && wait == wait0 && c[..] == old(c[..]) && scratch[..] == old(scratch[..])
    ensures wait0 < now && !served ==> wait == later + 10
    ensures served ==> wait0 < now && fp != null && fresh(fp)
    ensures served ==> Served(old(c[..]), c[..], files, old(scratch[..]), now, later, fp.content, fp.pos, fp.eof, page.Fields(), wait)
    ensures var o := old(CarouselOutcome(c[..], files, scratch[..], now, later, wait0, CursorOf(fp0)));
      && c[..] == o.table && scratch[..] == o.buf && CursorOf(fp) == o.file && wait == o.wait && served == o.served
      && (o.info.None? ==> page == page0) && (o.info.Some? ==> page.Fields() == o.info.value)
  {
    wait, fp, page, served := wait0, fp0, page0, false;
    if wait0 < now {
      wait, fp, page := PageToTransmit(c, fp0, page0, files, scratch, now, later);
      if wait == 0 {
        wait := later + 10;
      } else {
        served := true;
      }
    }
  }

  // ---------------------------------------------------------------------
  // The thread

  /**
   * The variables of one domag thread, which live across the passes of
   * its loop: the page list and carousel table getList filled, the line
   * buffer, pageToTransmit's own line buffer, the packet being built, the
   * magazine's output buffer, and the state machine.
   */
  class Magazine {
    const mag: byte
    const txList: array<Page?>
    const carousel: array<Carousel>
    const str: array<byte>
    const scratch: array<byte>
    const packet: array<byte>
    const out: PacketBuffer
    const files: map<Line, seq<byte>>
    var state: byte
    var txListIndex: int
    var page: Page?
    var fil: PageFile?
    var txwait: int
    var isCarousel: bool
    var carPage: Page

    ghost predicate Valid()
      reads this, fil, out
    {
      && txList.Length == 256 && carousel.Length == MaxCarousel
      && str.Length == MaxLine && scratch.Length == MaxLine && packet.Length == PacketSize
      && str != scratch && str != packet && scratch != packet
      && out.pkt != packet && out.pkt != str && out.pkt != scratch
      && 0 <= txListIndex < 256
      && (state == StateBegin || state == StateIdle || state == StateHeader || state == StateSending)
      && (fil != null ==> fil.Valid())
      && (state == StateHeader || state == StateSending ==> page != null && fil != null)
    }

    /**
     * The magazine's carousel table, pageToTransmit's line buffer, the
     * carousel PAGE, the wait and the carousel flag are what the carousel
     * check o gives, with oldCar the
     * carousel PAGE before it.
     */
    ghost predicate Checks(o: Checked, oldCar: Page)
      reads this, carousel, scratch, fil, carPage
    {
      && carousel[..] == o.table && scratch[..] == o.buf
      && txwait == o.wait && isCarousel == o.served
      && (o.info.None? ==> carPage == oldCar) && (o.info.Some? ==> carPage.Fields() == o.info.value)
    }

    /** The thread after getList: state BEGIN, page 0, no file open, no carousel wait. */
    constructor Start(mag: byte, txList: array<Page?>, carousel: array<Carousel>, out: PacketBuffer, files: map<Line, seq<byte>>)
      requires txList.Length == 256 && carousel.Length == MaxCarousel
      ensures Valid() && fresh(str) && fresh(scratch) && fresh(packet)
      ensures this.mag == mag && this.txList == txList && this.carousel == carousel && this.out == out && this.files == files
      ensures state == StateBegin && txListIndex == 0 && page == null && fil == null && txwait == 0 && !isCarousel
    {
      this.mag := mag;
      this.txList := txList;
      this.carousel := carousel;
      this.out := out;
      this.files := files;
      str := new byte[MaxLine](_ => 0);
      scratch := new byte[MaxLine](_ => 0);
      packet := new byte[PacketSize](_ => 0);
      carPage := new Page();
      state := StateBegin;
      txListIndex := 0;
      page := null;
      fil := null;
      txwait := 0;
      isCarousel := false;
    }

    /**
     * One pass of the SENDING state: fgets, an OL line through copyOL and
     * the row test, an FL line through copyFL as row 27, and back to IDLE
     * (the file closed) at the end of the file or on an SC line.
     */
    method Sending()
      requires Valid() && out.Valid() && HasRoom(out, 1) && state == StateSending
      modifies this, str, packet, out, out.pkt, fil
      ensures Valid() && out.Valid() && out.pkt == old(out.pkt) && out.count == old(out.count)
      ensures page == old(page) && txListIndex == old(txListIndex) && txwait == old(txwait)
      ensures isCarousel == old(isCarousel) && carPage == old(carPage)
      ensures var p := SendingPass(old(fil.content), old(fil.pos), old(fil.eof), old(str[..]), old(packet[..]), old(page).mag);
        && old(fil).pos == p.pos && old(fil).eof == p.eof && str[..] == p.line && packet[..] == p.pkt
        && out.contents == old(out.contents) + p.queued
        && (p.done ==> state == StateIdle && fil == null)
        && (!p.done ==> state == StateSending && fil == old(fil))
    {
      fil.Fgets(str);
      SendLine(packet, out, str[..], page.mag);
      if fil != null {
        if fil.eof || IsSC(str[..]) {
          state := StateIdle;
          fil := null;
        }
      }
    }

    /** The HEADER state up to its fall-through into SENDING: the X/28 packet and the first row. */
    method Header()
      requires Valid() && out.Valid() && HasRoom(out, 2) && state == StateHeader
      modifies this, packet, out, out.pkt
      ensures Valid() && out.Valid() && out.pkt == old(out.pkt) && out.count == old(out.count) && state == StateSending
      ensures |out.contents| <= |old(out.contents)| + 2
      ensures page == old(page) && fil == old(fil) && txListIndex == old(txListIndex) && txwait == old(txwait)
      ensures isCarousel == old(isCarousel) && carPage == old(carPage)
      ensures var h := HeaderPass(old(packet[..]), str[..], page.mag, page.region);
        packet[..] == h.0 && out.contents == old(out.contents) + h.1
    {
      SendFirst(packet, out, str[..], page.mag, page.region);
      state := StateSending;
    }
  
    /**
     * The carousel check of the IDLE state: when txwait has passed,
     * pageToTransmit services the first due carousel into carPage and fil,
     * and its result becomes txwait; a result of 0 means no carousel page,
     * and the next check is ten seconds later.
     */
    method CarouselCheck(now: int, later: int)
      requires Valid() && state == StateIdle
      modifies this, carousel, scratch
      ensures Valid() && state == old(state) && page == old(page) && txListIndex == old(txListIndex)
      ensures fil == old(fil) || fil == null || fresh(fil)
      ensures old(txwait) >= now ==>
        && !isCarousel && fil == old(fil) && carPage == old(carPage) && txwait == old(txwait)
        && carousel[..] == old(carousel[..]) && scratch[..] == old(scratch[..])
      ensures old(txwait) < now && !isCarousel ==> txwait == later + 10
      ensures isCarousel ==> old(txwait) < now && fil != null && fresh(fil) && Served(old(carousel[..]), carousel[..], files, old(scratch[..]), now, later, fil.content, fil.pos, fil.eof, carPage.Fields(), txwait)
      ensures var o := old(CarouselOutcome(carousel[..], files, scratch[..], now, later, txwait, CursorOf(fil)));
        Checks(o, old(carPage)) && CursorOf(fil) == o.file
    {
      txwait, fil, carPage, isCarousel := CheckCarousels(carousel, fil, carPage, files, scratch, txwait, now, later);
    }

    /**
     * The page choice of the IDLE state: the carousel page, or else the
     * next page of txList after the current one (state BEGIN when the
     * search came back round to it).
     */
    method PickPage()
      requires Valid() && state == StateIdle
      modifies this
      ensures Valid() && fil == old(fil) && txwait == old(txwait) && isCarousel == old(isCarousel) && carPage == old(carPage)
      ensures isCarousel ==> page == carPage && txListIndex == old(txListIndex) && state == StateIdle
      ensures !isCarousel ==> txListIndex == NextListed(txList[..], old(txListIndex)) && page == txList[txListIndex]
      ensures !isCarousel ==> (state == StateBegin <==> SeekOffset(txList[..], old(txListIndex), 1) == 256)
      ensures state == StateBegin || state == StateIdle
    {
      if !isCarousel {
        var index, wrapped := NextInList(txList, txListIndex);
        txListIndex := index;
        if wrapped {
          state := StateBegin;
        }
        page := txList[txListIndex];
      } else {
        page := carPage;
      }
    }

    /**
     * The rest of the IDLE state: open the page file unless the carousel
     * left one open, scan down to the first OL line, and send the header
     * (state HEADER), or close the file when the scan ran off the end
     * (state IDLE).
     */
    method Open()
      requires Valid() && out.Valid() && HasRoom(out, 1) && (state == StateIdle || state == StateBegin)
      modifies this, str, packet, out, out.pkt, fil
      ensures Valid() && out.Valid() && out.pkt == old(out.pkt) && out.count == old(out.count)
      ensures page == old(page) && txListIndex == old(txListIndex) && txwait == old(txwait)
      ensures isCarousel == old(isCarousel) && carPage == old(carPage)
      ensures state == StateIdle || state == StateHeader
      ensures state == StateIdle ==> packet[..] == old(packet[..]) && out.contents == old(out.contents)
      ensures state == StateHeader ==>
        && page != null && fil != null && StartsOL(str[..]) && !fil.eof
        && packet[..] == HeaderPacket(page.Fields(), old(packet[..]))
        && out.contents == old(out.contents) + [packet[..]]
      ensures page == null ==> state == StateIdle && fil == old(fil)
      ensures page != null && old(fil) == null ==>
        (fil == null || fresh(fil)) && (state == StateHeader ==> page.filename in files && fil.content == files[page.filename])
      ensures page != null && old(fil) == null && page.filename !in files ==> state == StateIdle && fil == null
      ensures page != null && old(fil) != null ==> fil == null || fil == old(fil)
      ensures page != null ==>
        var o := Opened(ScanStart(old(CursorOf(fil)), page.filename, files), old(str[..]));
        && CursorOf(fil) == o.0 && str[..] == o.1 && (state == StateHeader <==> o.0.Some?)
      ensures page == null ==> str[..] == old(str[..]) && CursorOf(fil) == old(CursorOf(fil))
    {
      if page != null {
        str[0] := 0;
        if fil == null {
          fil := Fopen(files, page.filename);
        }
        if fil == null {
          state := StateIdle;
        } else {
          ScanToRows();
        }
      } else {
        state := StateIdle;
      }
    }

    /**
     * One pass of the thread's loop, once the buffer has room for what the
     * pass queues (the source waits for a free slot before each put): BEGIN
     * goes to IDLE; IDLE chooses and opens a page; HEADER sends the X/28
     * packet and the first row and falls through into SENDING, which sends
     * one line and ends the page at the end of the file or an SC line.
     */
    method Step(now: int, later: int)
      requires Valid() && out.Valid() && HasRoom(out, 3)
      modifies this, str, packet, scratch, carousel, out, out.pkt, fil
      ensures Valid() && out.Valid() && out.pkt == old(out.pkt) && out.count == old(out.count)
      ensures old(state) == StateBegin ==>
        && state == StateIdle && out.contents == old(out.contents) && page == old(page)
        && packet[..] == old(packet[..]) && str[..] == old(str[..]) && CursorOf(fil) == old(CursorOf(fil))
      ensures old(state) != StateIdle ==>
        && carousel[..] == old(carousel[..]) && scratch[..] == old(scratch[..])
        && txListIndex == old(txListIndex) && txwait == old(txwait) && isCarousel == old(isCarousel) && carPage == old(carPage)
      ensures old(state) == StateIdle ==>
        var o := old(CarouselOutcome(carousel[..], files, scratch[..], now, later, txwait, CursorOf(fil)));
        && Checks(o, old(carPage))
        && (page == null ==> CursorOf(fil) == o.file && str[..] == old(str[..]))
        && (page != null ==>
              var s := Opened(ScanStart(o.file, page.filename, files), old(str[..]));
              CursorOf(fil) == s.0 && str[..] == s.1 && (state == StateHeader <==> s.0.Some?))
      ensures old(state) == StateIdle ==> state == StateIdle || state == StateHeader
      ensures old(state) == StateIdle ==>
        && (isCarousel ==> old(txwait) < now && page == carPage && txListIndex == old(txListIndex))
        && (!isCarousel ==> txListIndex == NextListed(txList[..], old(txListIndex)) && page == txList[txListIndex])
        && (old(txwait) >= now ==> !isCarousel && txwait == old(txwait) && carousel[..] == old(carousel[..]))
      ensures old(state) == StateIdle && state == StateIdle ==> packet[..] == old(packet[..]) && out.contents == old(out.contents)
      ensures old(state) == StateIdle && state == StateHeader ==>
        page != null && out.contents == old(out.contents) + [HeaderPacket(page.Fields(), old(packet[..]))]
      ensures old(state) == StateHeader ==>
        var h := HeaderPass(old(packet[..]), old(str[..]), old(page).mag, old(page).region);
        var p := SendingPass(old(fil.content), old(fil.pos), old(fil.eof), old(str[..]), h.0, old(page).mag);
        && page == old(page) && out.contents == old(out.contents) + h.1 + p.queued && packet[..] == p.pkt
        && state == (if p.done then StateIdle else StateSending)
        && old(fil).pos == p.pos && old(fil).eof == p.eof && str[..] == p.line
        && CursorOf(fil) == (if p.done then None else Some(Cursor(old(fil.content), p.pos, p.eof)))
      ensures old(state) == StateSending ==>
        var p := SendingPass(old(fil.content), old(fil.pos), old(fil.eof), old(str[..]), old(packet[..]), old(page).mag);
        && page == old(page) && out.contents == old(out.contents) + p.queued && packet[..] == p.pkt
        && state == (if p.done then StateIdle else StateSending)
        && old(fil).pos == p.pos && old(fil).eof == p.eof && str[..] == p.line
        && CursorOf(fil) == (if p.done then None else Some(Cursor(old(fil.content), p.pos, p.eof)))
    {
      if state == StateBegin {
        state := StateIdle;
      } else if state == StateIdle {
        Idle(now, later);
      } else if state == StateHeader {
        HeaderThenSending();
      } else {
        Sending();
      }
    }

    /** The HEADER state and its fall-through into SENDING. */
    method HeaderThenSending()
      requires Valid() && out.Valid() && HasRoom(out, 3) && state == StateHeader
      modifies this, str, packet, out, out.pkt, fil
      ensures Valid() && out.Valid() && out.pkt == old(out.pkt) && out.count == old(out.count)
      ensures txListIndex == old(txListIndex) && txwait == old(txwait) && isCarousel == old(isCarousel) && carPage == old(carPage)
      ensures var h := HeaderPass(old(packet[..]), old(str[..]), old(page).mag, old(page).region);
        var p := SendingPass(old(fil.content), old(fil.pos), old(fil.eof), old(str[..]), h.0, old(page).mag);
        && page == old(page) && out.contents == old(out.contents) + h.1 + p.queued && packet[..] == p.pkt
        && state == (if p.done then StateIdle else StateSending)
        && old(fil).pos == p.pos && old(fil).eof == p.eof && str[..] == p.line
        && CursorOf(fil) == (if p.done then None else Some(Cursor(old(fil.content), p.pos, p.eof)))
    {
      Header();
      Sending();
    }

    /**
     * The IDLE state: the carousel check, the page choice and the opening
     * of its file. A wrap of the txList search sets BEGIN, but the opening
     * overwrites it, so the state is IDLE or HEADER afterwards.
     */
    method Idle(now: int, later: int)
      requires Valid() && out.Valid() && HasRoom(out, 1) && state == StateIdle
      modifies this, str, packet, scratch, carousel, out, out.pkt, fil
      ensures Valid() && out.Valid() && out.pkt == old(out.pkt) && out.count == old(out.count)
      ensures state == StateIdle || state == StateHeader
      ensures isCarousel ==> old(txwait) < now && page == carPage && txListIndex == old(txListIndex)
      ensures !isCarousel ==> txListIndex == NextListed(txList[..], old(txListIndex)) && page == txList[txListIndex]
      ensures old(txwait) >= now ==> !isCarousel && txwait == old(txwait) && carousel[..] == old(carousel[..])
      ensures state == StateIdle ==> packet[..] == old(packet[..]) && out.contents == old(out.contents)
      ensures state == StateHeader ==>
        && page != null && fil != null && StartsOL(str[..])
        && packet[..] == HeaderPacket(page.Fields(), old(packet[..]))
        && out.contents == old(out.contents) + [packet[..]]
      ensures var o := old(CarouselOutcome(carousel[..], files, scratch[..], now, later, txwait, CursorOf(fil)));
        && Checks(o, old(carPage))
        && (page == null ==> CursorOf(fil) == o.file && str[..] == old(str[..]))
        && (page != null ==>
              var s := Opened(ScanStart(o.file, page.filename, files), old(str[..]));
              CursorOf(fil) == s.0 && str[..] == s.1 && (state == StateHeader <==> s.0.Some?))
    {
      ghost var o := CarouselOutcome(carousel[..], files, scratch[..], now, later, txwait, CursorOf(fil));
      ghost var car0 := carPage;
      Choose(now, later);
      assert Checks(o, car0) && CursorOf(fil) == o.file;
      Open();
      assert Checks(o, car0);
    }

    /** The carousel check and the page choice of the IDLE state. */
    method Choose(now: int, later: int)
      requires Valid() && state == StateIdle
      modifies this, scratch, carousel
      ensures Valid() && (state == StateIdle || state == StateBegin)
      ensures fil == old(fil) || fil == null || fresh(fil)
      ensures isCarousel ==> old(txwait) < now && page == carPage && txListIndex == old(txListIndex)
      ensures !isCarousel ==> txListIndex == NextListed(txList[..], old(txListIndex)) && page == txList[txListIndex]
      ensures old(txwait) >= now ==> !isCarousel && txwait == old(txwait) && carousel[..] == old(carousel[..])
      ensures var o := old(CarouselOutcome(carousel[..], files, scratch[..], now, later, txwait, CursorOf(fil)));
        Checks(o, old(carPage)) && CursorOf(fil) == o.file
      ensures str[..] == old(str[..])
    {
      CarouselCheck(now, later);
      PickPage();
    }

    /** The scan down to the rows on the open file, and the header when one was found. */
    method ScanToRows()
      requires Valid() && out.Valid() && HasRoom(out, 1) && page != null && fil != null
      modifies this, str, packet, out, out.pkt, fil
      ensures Valid() && out.Valid() && out.pkt == old(out.pkt) && out.count == old(out.count)
      ensures page == old(page) && txListIndex == old(txListIndex) && txwait == old(txwait)
      ensures isCarousel == old(isCarousel) && carPage == old(carPage)
      ensures var r := SkipToOL(old(fil.content), old(fil.pos), old(fil.eof), old(str[..]));
        && old(fil).pos == r.0 && old(fil).eof == r.1 && str[..] == r.2
        && (r.1 ==> fil == null && state == StateIdle && packet[..] == old(packet[..]) && out.contents == old(out.contents))
        && (!r.1 ==>
              && fil == old(fil) && state == StateHeader
              && packet[..] == HeaderPacket(page.Fields(), old(packet[..]))
              && out.contents == old(out.contents) + [packet[..]])
    {
      SkipRows(fil, str);
      if fil.eof {
        fil := null;
        state := StateIdle;
      } else {
        SendHeader(packet, out, page);
        state := StateHeader;
      }
    }
  }

  // ---------------------------------------------------------------------
  // The start of the thread

  /**
   * The start of domag: the magazine number from getMag, a cleared
   * txList, and getList on the page directory. When the directory cannot
   * be read there is no thread; otherwise the thread starts in BEGIN at
   * txList index 0 and feeds its magazine's buffer.
   */
  method ThreadStart(mags: Magazines, dir: Option<seq<DirEntry>>, files: map<Line, seq<byte>>, now: int) returns (m: Magazine?)
    requires mags.Valid() && |mags.magBuffer| == BufferCount
    modifies mags
    ensures mags.Valid() && mags.magBuffer == old(mags.magBuffer) && mags.magCount == Issued(old(mags.magCount), 1)
    ensures m == null <==> dir.None?
    ensures m != null ==>
      && m.Valid() && m.mag == old(mags.magCount) && m.out == mags.magBuffer[m.mag] && m.files == files
      && m.state == StateBegin && m.txListIndex == 0 && m.page == null && m.fil == null && m.txwait == 0
      && fresh(m.txList) && fresh(m.carousel)
    ensures m != null ==> PlainTable(m.txList[..], seq(256, _ => null), dir.value, m.mag)
    ensures m != null ==> CarouselTable(m.carousel[..], CarouselPages(dir.value, m.mag), now)
  {
    var txList := new Page?[256](_ => null);
    var mag := mags.GetMag();
    var carousel := new Carousel[MaxCarousel](_ => Carousel(null, 0, 0));
    ghost var cleared := txList[..];
    assert cleared == seq(256, _ => null);
    var r := GetList(txList, mag, carousel, dir, now);
    if r != 0 {
      return null;
    }
    m := new Magazine.Start(mag, txList, carousel, mags.magBuffer[mag], files);
  }
}
