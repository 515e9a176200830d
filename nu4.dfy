/**
 * The Newfor subtitle helpers of nu4.c. A Page Init command selects the
 * subtitle page, each Subtitle Data row becomes a packet held in a small
 * cache, and On Air sends a header followed by the cached rows to the
 * subtitle buffer (magBuffer[8]); Off Air sends an erasing header alone.
 * The command bytes arrive Hamming 8/4 coded (section 8.2 of
 * ETSI EN 300 706); the header control word 0x4002 sets C4 (erase page)
 * and C6 (subtitle) as in section 9.3.1.
 */
module Nu4 {
  import opened Tables
  import opened CString
  import opened Packet
  import opened Buffer
  import Settings

  /** SUBTITLEPACKETCOUNT: the cache has eight slots, so it holds a header's worth of seven rows. */
  const SubtitlePacketCount: byte := 8

  /** The header control word: erase (C4) and subtitle (C6). */
  const EraseSubtitle: bv32 := 0x4002

  /** The error codes SoftelPageInit returns, one per command byte that fails to decode. */
  const PageInitBadLead := 0x900
  const PageInitBadHundreds := 0x901
  const PageInitBadTens := 0x902
  const PageInitBadUnits := 0x903

  /**
   * SoftelPageInit's result for a command: bytes 2, 3 and 4 are the
   * Hamming coded hundreds (1..8), tens and units of the page, in hex;
   * byte 1 only has to decode. An error code from 0x900 names the byte
   * that failed.
   */
  function PageNumber(cmd: Line): (r: int)
    requires |cmd| >= 5
    ensures 0x100 <= r <= 0x8FF || PageInitBadLead <= r <= PageInitBadUnits
  {
    var lead, h, t, u := Unham8(cmd[1]), Unham8(cmd[2]), Unham8(cmd[3]), Unham8(cmd[4]);
    if lead < 0 then PageInitBadLead
    else if h < 1 || h > 8 then PageInitBadHundreds
    else if t < 0 || t > 0x0F then PageInitBadTens
    else if u < 0 || u > 0x0F then PageInitBadUnits
    else h * 0x100 + t * 0x10 + u
  }

  /** A page is accepted exactly when every byte decodes and the hundreds digit is 1..8; its hex digits are the decoded nibbles. */
  lemma PageNumberDigits(cmd: Line)
    requires |cmd| >= 5
    ensures var r := PageNumber(cmd);
      r < PageInitBadLead <==> Unham8(cmd[1]) >= 0 && 1 <= Unham8(cmd[2]) <= 8 && Unham8(cmd[3]) >= 0 && Unham8(cmd[4]) >= 0
    ensures var r := PageNumber(cmd);
      r < PageInitBadLead ==> r / 0x100 == Unham8(cmd[2]) && r / 0x10 % 0x10 == Unham8(cmd[3]) && r % 0x10 == Unham8(cmd[4])
  {
    var r := PageNumber(cmd);
    if r < PageInitBadLead {
      var h, t, u := Unham8(cmd[2]), Unham8(cmd[3]), Unham8(cmd[4]);
      assert r == (h * 0x10 + t) * 0x10 + u;
      assert r / 0x10 == h * 0x10 + t;
      assert r / 0x100 == (r / 0x10) / 0x10;
    }
  }

  /**
   * A Page Init command for the page with hex digits h, t and u: bytes
   * 1..4 are the Hamming codes of 0, h, t and u, each with at most one
   * bit in error.
   */
  predicate PageCommand(cmd: Line, h: byte, t: byte, u: byte)
  {
    && |cmd| >= 5 && 1 <= h <= 8 && t < 16 && u < 16
    && WithinOneBit(Ham(0), cmd[1]) && WithinOneBit(Ham(h), cmd[2])
    && WithinOneBit(Ham(t), cmd[3]) && WithinOneBit(Ham(u), cmd[4])
  }

  /** A Page Init command for a page yields that page. */
  lemma PageNumberRoundTrip(cmd: Line, h: byte, t: byte, u: byte)
    requires PageCommand(cmd, h, t, u)
    ensures PageNumber(cmd) == h as int * 0x100 + t as int * 0x10 + u as int
  {
    UnhamWithin(0, cmd[1]);
    UnhamWithin(h, cmd[2]);
    UnhamWithin(t, cmd[3]);
    UnhamWithin(u, cmd[4]);
  }

  /** vbi_unham8 decodes any byte within one bit of a codeword to the codeword's nibble. */
  lemma UnhamWithin(n: byte, b: byte)
    requires n < 16 && WithinOneBit(Ham(n), b)
    ensures Unham8(b) == n as int
  {
    UnhamFromFinds(b, 0, n);
  }

  /** A hundreds digit outside 1..8 is refused with 0x901 whatever the other digits are. */
  lemma PageNumberRefusesHundreds(c0: byte, h: byte, t: byte, u: byte)
    requires h < 16 && (h == 0 || h > 8)
    ensures PageNumber([c0, Ham(0), Ham(h), t, u]) == PageInitBadHundreds
  {
    UnhamHam(0, 0);
    UnhamHam(h, 0);
  }

  /**
   * The magazine SubtitleOnair and SubtitleOffair give the header, as
   * written: the page is kept in an 8-bit variable, so the hundreds digit
   * is gone, and what is left is divided by 0xff rather than 0x100.
   */
  function SubtitleMagAsWritten(page: int): (m: byte)
    ensures m < 2
  {
    (U8(page) / 0xFF) & 7
  }

  /** As written, every page's header goes to magazine 0 (magazine 8) except a page numbered xFF, which goes to magazine 1. */
  lemma SubtitleMagAsWrittenIgnoresHundreds(page: int)
    ensures SubtitleMagAsWritten(page) == if page % 0x100 == 0xFF then 1 else 0
  {
    assert U8(page) == (page % 0x100) as byte;
  }

  /** Page 188, initialised by a well-formed Page Init command, is sent in magazine 8 instead of magazine 1. */
  lemma SubtitleMagAsWrittenLoses188()
    ensures PageNumber([0x15, Ham(0), Ham(1), Ham(8), Ham(8)]) == 0x188
    ensures SubtitleMagAsWritten(0x188) == 0 && SubtitleMag(0x188) == 1
  {
    var cmd := [0x15, Ham(0), Ham(1), Ham(8), Ham(8)];
    assert PageCommand(cmd, 1, 8, 8);
    PageNumberRoundTrip(cmd, 1, 8, 8);
    SubtitleMagAsWrittenIgnoresHundreds(0x188);
  }

  /** The header magazine of a page: its hundreds digit, 8 becoming 0. */
  function SubtitleMag(page: int): (m: byte)
    ensures m < 8
  {
    U8(page / 0x100) % 8
  }

  /** The header page number of a page: its last two hex digits (page & 0xff). */
  function SubtitlePage(page: int): byte
  {
    U8(page)
  }

  /** The magazine and page number of the page with hex digits h, t and u: h (8 as 0) and the byte tu. */
  lemma PageFields(r: int, h: byte, t: byte, u: byte)
    requires 1 <= h <= 8 && t < 16 && u < 16
    requires r == h as int * 0x100 + t as int * 0x10 + u as int
    ensures SubtitleMag(r) == h % 8 && SubtitleMag(r) % 8 == h % 8 && SubtitlePage(r) == (t << 4) | u
  {
    var tu := (t << 4) | u;
    NibblesValue(t, u);
    assert r / 0x100 == h as int && r % 0x100 == tu as int;
    MagOfPage(r, h);
    U8Low(r, tu);
  }

  /** A page whose hundreds digit is h is sent in magazine h modulo 8. */
  lemma MagOfPage(r: int, h: byte)
    requires r / 0x100 == h as int
    ensures SubtitleMag(r) == h % 8 && SubtitleMag(r) % 8 == h % 8
  {
    U8Of(r / 0x100, h);
  }

  /** Two nibbles packed into a byte have the value 16 t + u. */
  lemma NibblesValue(t: byte, u: byte)
    requires t < 16 && u < 16
    ensures ((t << 4) | u) as int == t as int * 0x10 + u as int
  {
  }

  /**
   * GetRowCount as written: decoded values above 7 become 0, but an
   * undecodable byte's -1 is returned as it is.
   */
  function RowCountAsWritten(cmd: Line): (n: int)
    requires |cmd| >= 2
    ensures -1 <= n <= 7
    ensures n == -1 <==> Unham8(cmd[1]) < 0
  {
    var n := Unham8(cmd[1]);
    if n > 7 then 0 else n
  }

  /**
   * Byte 0x01 is two bits from every codeword, so as written the row count
   * is -1, outside the documented 0..7, and the 8-bit _rowcount holds 255.
   */
  lemma RowCountAsWrittenNegative()
    ensures RowCountAsWritten([0x15, 0x01]) == -1 && U8(RowCountAsWritten([0x15, 0x01])) == 0xFF
  {
    Unham8Fails(0x01);
  }

  /** GetRowCount as documented: the decoded row count 1..7, or 0 when the byte is invalid. */
  function RowCount(cmd: Line): (n: int)
    requires |cmd| >= 2
    ensures 0 <= n <= 7
    ensures n == 0 || n == Unham8(cmd[1])
  {
    var n := Unham8(cmd[1]);
    if n < 0 || n > 7 then 0 else n
  }

  /** The corrected count differs from the written one only where that one is negative. */
  lemma RowCountCorrects(cmd: Line)
    requires |cmd| >= 2
    ensures RowCount(cmd) == if RowCountAsWritten(cmd) < 0 then 0 else RowCountAsWritten(cmd)
  {
  }

  /** A row count sent Hamming coded, even with one bit in error, is read back. */
  lemma RowCountRoundTrip(c0: byte, n: byte, e: byte)
    requires n < 8 && e & (e - 1) == 0
    ensures RowCount([c0, Ham(n) ^ e]) == n as int
  {
    UnhamHam(n, e);
  }

  /** strncpy into n bytes: the C string held in cmd, cut at n bytes, then NULs to the end. */
  function StrnField(cmd: Line, n: nat): (f: Line)
    ensures |f| == n
  {
    var s := CStr(cmd);
    seq(n, i requires 0 <= i < n => if i < |s| then s[i] else 0)
  }

  /** The field reads back as the C string it was copied from, cut at n bytes. */
  lemma StrnFieldCStr(cmd: Line, n: nat)
    ensures |CStr(cmd)| < n ==> CStr(StrnField(cmd, n)) == CStr(cmd)
    ensures |CStr(cmd)| >= n ==> StrnField(cmd, n) == CStr(cmd)[..n]
  {
    var s, f := CStr(cmd), StrnField(cmd, n);
    if |s| < n {
      CStrOfTerminated(f, s);
    }
  }

  /** A buffer holding s and then a NUL holds the C string s. */
  lemma {:induction false} CStrOfTerminated(f: Line, s: Line)
    requires |s| < |f| && f[..|s|] == s && 0 !in s && f[|s|] == 0
    ensures CStr(f) == s
    decreases |s|
  {
    if s != [] {
      assert f[1..][..|s| - 1] == s[1..];
      CStrOfTerminated(f[1..], s[1..]);
    }
  }

  /**
   * strncpy(packet + at, cmd, n): bytes of the C string cmd are copied
   * until its NUL or n bytes, the rest of the n bytes become NUL.
   */
  method StrnCopy(packet: array<byte>, at: nat, cmd: Line, n: nat)
    requires at + n <= packet.Length
    modifies packet
    ensures packet[at..at + n] == StrnField(cmd, n)
    ensures forall k :: 0 <= k < packet.Length && !(at <= k < at + n) ==> packet[k] == old(packet[k])
  {
    ghost var s := CStr(cmd);
    var i := 0;
    while i < n && At(cmd, i) != 0
      invariant 0 <= i <= n && i <= |s|
      invariant s[..i] == cmd[..i]
      invariant forall k :: 0 <= k < i ==> packet[at + k] == s[k]
      invariant forall k :: 0 <= k < packet.Length && !(at <= k < at + i) ==> packet[k] == old(packet[k])
    {
      packet[at + i] := cmd[i];
      i := i + 1;
    }
    assert i == n || i == |s|;
    while i < n
      invariant 0 <= i <= n
      invariant forall k :: 0 <= k < i ==> packet[at + k] == StrnField(cmd, n)[k]
      invariant forall k :: 0 <= k < packet.Length && !(at <= k < at + i) ==> packet[k] == old(packet[k])
    {
      packet[at + i] := 0;
      i := i + 1;
    }
  }

  /** The packet saveSubtitleRow builds: row's MRAG in magazine mag, then the first 40 bytes of the text with odd parity. */
  function SubtitleRowPacket(mag: byte, row: byte, cmd: Line): (p: seq<byte>)
    ensures |p| == PacketSize
  {
    Prefix(mag, row) + WithParity(StrnField(cmd, 40))
  }

  /**
   * A receiver finds the subtitle row in the packet: its magazine and
   * row, and each text byte with odd parity carrying the same seven bits
   * as the command (NUL after the end of the text).
   */
  lemma SubtitleRowReads(mag: byte, row: byte, cmd: Line)
    ensures var p := SubtitleRowPacket(mag, row, cmd);
      MragMagazine(p[3]) == mag % 8 && MragRow(p[3], p[4]) == row % 32
    ensures var p := SubtitleRowPacket(mag, row, cmd);
      forall i :: 0 <= i < 40 ==> OddParity(p[5 + i]) && p[5 + i] & 0x7F == At(CStr(cmd), i) & 0x7F
  {
    MragRoundTrip(mag, row);
    var p := SubtitleRowPacket(mag, row, cmd);
    assert p[3] == Mrag(mag, row)[0] && p[4] == Mrag(mag, row)[1];
    forall i | 0 <= i < 40
      ensures OddParity(p[5 + i]) && p[5 + i] & 0x7F == At(CStr(cmd), i) & 0x7F
    {
      assert p[5 + i] == WithParity(StrnField(cmd, 40))[i];
    }
  }

  /**
   * The header SubtitleOnair sends, as written, for the 8-bit page that
   * Page Init kept: magazine (page / 0xff) & 7, page number page, subcode
   * 0 and the erase and subtitle bits, over the packet's bytes 13..44 as
   * they were (no parity is applied).
   */
  function SubtitleHeader(page: byte, tail: seq<byte>): (p: seq<byte>)
    requires |tail| == PacketSize - 13
    ensures |p| == PacketSize
  {
    Prefix(SubtitleMagAsWritten(page as int), 0) + HeaderBytesAsWritten(page, 0, EraseSubtitle) + tail
  }

  /** The header SubtitleOffair sends: the same, with parity applied to bytes 13..44. */
  function ErasingHeader(page: byte, tail: seq<byte>): (p: seq<byte>)
    requires |tail| == PacketSize - 13
    ensures |p| == PacketSize
  {
    SubtitleHeader(page, WithParity(tail))
  }

  /** The header as intended, for the whole page number of a Page Init command: its hundreds digit is the magazine. */
  function SubtitleHeaderIntended(page: int, tail: seq<byte>): (p: seq<byte>)
    requires |tail| == PacketSize - 13
    ensures |p| == PacketSize
  {
    Prefix(SubtitleMag(page), 0) + HeaderBytes(SubtitlePage(page), 0, EraseSubtitle) + tail
  }

  /**
   * A receiver reads the header as written as row 0 of page number page,
   * subcode 0, with the erase and subtitle bits, in magazine 8 (sent as 0)
   * unless the page number is FF, which goes to magazine 1.
   */
  lemma SubtitleHeaderAsWrittenReads(page: byte, tail: seq<byte>)
    requires |tail| == PacketSize - 13
    ensures var p := SubtitleHeader(page, tail);
      && IsHeader(p)
      && MragMagazine(p[3]) == (if page == 0xFF then 1 else 0)
      && HeaderPage(p[5..13]) == page
      && HeaderSubcode(p[5..13]) == 0
      && HeaderControl(p[5..13]) == EraseSubtitle
  {
    var m := SubtitleMagAsWritten(page as int);
    MagOfByte(page);
    HeaderWords(page);
    HeaderIn(SubtitleHeader(page, tail), m, page);
  }

  /** As written, the magazine of the page byte is 1 for FF and 0 (magazine 8) otherwise. */
  lemma MagOfByte(page: byte)
    ensures SubtitleMagAsWritten(page as int) == if page == 0xFF then 1 else 0
  {
    U8Small(page);
    assert SubtitleMagAsWritten(page as int) == (page / 0xFF) & 7;
  }

  /** A packet framed as row 0 of magazine m followed by the header bytes of page pg reads back as such. */
  lemma HeaderIn(p: seq<byte>, m: byte, pg: byte)
    requires |p| == PacketSize && m < 8
    requires p[..5] == Prefix(m, 0) && p[5..13] == HeaderBytes(pg, 0, EraseSubtitle)
    ensures && IsHeader(p) && MragMagazine(p[3]) == m
      && HeaderPage(p[5..13]) == pg && HeaderSubcode(p[5..13]) == 0 && HeaderControl(p[5..13]) == EraseSubtitle
  {
    Framed(p, m, 0);
    HeaderWords(pg);
  }

  /**
   * The header of a page selected by Page Init, as written, names the
   * page's tens and units, but its magazine is the intended one (the
   * hundreds digit, 8 as 0) only for pages 800..8FE and page 1FF.
   */
  lemma SubtitleMagazineAsWritten(cmd: Line, h: byte, t: byte, u: byte, tail: seq<byte>)
    requires PageCommand(cmd, h, t, u) && |tail| == PacketSize - 13
    ensures var r := PageNumber(cmd);
      var p := SubtitleHeader(U8(r), tail);
      var q := SubtitleHeaderIntended(r, tail);
      && HeaderPage(p[5..13]) == HeaderPage(q[5..13]) == (t << 4) | u
      && (MragMagazine(p[3]) == MragMagazine(q[3]) <==> (h == 8 && (t, u) != (15, 15)) || (h == 1 && (t, u) == (15, 15)))
  {
    var r := PageNumber(cmd);
    PageNumberRoundTrip(cmd, h, t, u);
    PageFields(r, h, t, u);
    var pg := (t << 4) | u;
    assert U8(r) == pg;
    SubtitleHeaderAsWrittenReads(pg, tail);
    HeaderOfPage(r, h, t, u, tail);
    assert pg == 0xFF <==> (t, u) == (15, 15);
  }

  /**
   * With the page number kept whole, a receiver would read the subtitle
   * header as row 0 of the page a Page Init command selects, even with one
   * bit in error in every coded byte: the hundreds digit is the magazine
   * (8 as 0), tens and units the page number; the subcode is 0 and the
   * control bits are erase and subtitle.
   */
  lemma SubtitleHeaderReads(cmd: Line, h: byte, t: byte, u: byte, tail: seq<byte>)
    requires PageCommand(cmd, h, t, u) && |tail| == PacketSize - 13
    ensures var p := SubtitleHeaderIntended(PageNumber(cmd), tail);
      && IsHeader(p)
      && MragMagazine(p[3]) == h % 8
      && HeaderPage(p[5..13]) == (t << 4) | u
      && HeaderSubcode(p[5..13]) == 0
      && HeaderControl(p[5..13]) == EraseSubtitle
  {
    PageNumberRoundTrip(cmd, h, t, u);
    HeaderOfPage(PageNumber(cmd), h, t, u, tail);
  }

  /** The intended header for the page with hex digits h, t and u reads back as magazine h (8 as 0) and page number tu. */
  lemma HeaderOfPage(page: int, h: byte, t: byte, u: byte, tail: seq<byte>)
    requires 1 <= h <= 8 && t < 16 && u < 16 && |tail| == PacketSize - 13
    requires page == h as int * 0x100 + t as int * 0x10 + u as int
    ensures var p := SubtitleHeaderIntended(page, tail);
      && IsHeader(p)
      && MragMagazine(p[3]) == h % 8
      && HeaderPage(p[5..13]) == (t << 4) | u
      && HeaderSubcode(p[5..13]) == 0
      && HeaderControl(p[5..13]) == EraseSubtitle
  {
    PageFields(page, h, t, u);
    HeaderFields(page, tail);
  }

  /** The fields of a header for magazine m and page number pg with the erase and subtitle bits. */
  lemma HeaderFields(page: int, tail: seq<byte>)
    requires |tail| == PacketSize - 13
    ensures var p := SubtitleHeaderIntended(page, tail);
      && IsHeader(p)
      && MragMagazine(p[3]) == SubtitleMag(page) % 8
      && HeaderPage(p[5..13]) == SubtitlePage(page)
      && HeaderSubcode(p[5..13]) == 0
      && HeaderControl(p[5..13]) == EraseSubtitle
  {
    var m, pg := SubtitleMag(page), SubtitlePage(page);
    var p := SubtitleHeaderIntended(page, tail);
    assert p[..5] == Prefix(m, 0) && p[5..13] == HeaderBytes(pg, 0, EraseSubtitle);
    Framed(p, m, 0);
    HeaderWords(pg);
  }

  /** A packet framed by PacketPrefix reads back as its magazine, and as a header exactly for row 0. */
  lemma Framed(p: seq<byte>, m: byte, row: byte)
    requires |p| >= 5 && p[..5] == Prefix(m, row)
    ensures (IsHeader(p) <==> row % 32 == 0) && MragMagazine(p[3]) == m % 8
  {
    IsHeaderPrefix(p, m, row);
    MragRoundTrip(m, row);
    var q := Prefix(m, row);
    assert q[3] == Mrag(m, row)[0];
    assert p[3] == p[..5][3];
  }

  /** Header bytes 5..12 for page pg with the erase and subtitle bits read back as page pg, subcode 0 and those bits. */
  lemma HeaderWords(pg: byte)
    ensures var h := HeaderBytes(pg, 0, EraseSubtitle);
      HeaderPage(h) == pg && HeaderSubcode(h) == 0 && HeaderControl(h) == EraseSubtitle
    ensures HeaderBytesAsWritten(pg, 0, EraseSubtitle) == HeaderBytes(pg, 0, EraseSubtitle)
  {
    HeaderCutsAgree(pg, 0, EraseSubtitle);
    HeaderPageRoundTrip(pg, 0, EraseSubtitle);
    HeaderSubcodeRoundTrip(pg, 0, EraseSubtitle);
    HeaderControlRoundTrip(pg, 0, EraseSubtitle);
  }

  /** Each cached packet as bufferMove passes it on: a header is formatted, a row is unchanged. */
  ghost function DeliveredAll(ps: seq<seq<byte>>, template: Line, clock: Clock): (r: seq<seq<byte>>)
    requires forall i :: 0 <= i < |ps| ==> |ps[i]| == PacketSize
    requires ClockFits(clock) && |template| == 32
    ensures |r| == |ps|
  {
    if ps == [] then []
    else DeliveredAll(ps[..|ps| - 1], template, clock) + [Delivered(ps[|ps| - 1], template, clock)]
  }

  /** Delivering one more packet of ps appends its delivered form. */
  lemma DeliveredAllSnoc(ps: seq<seq<byte>>, k: nat, template: Line, clock: Clock)
    requires forall i :: 0 <= i < |ps| ==> |ps[i]| == PacketSize
    requires ClockFits(clock) && |template| == 32 && k < |ps|
    ensures DeliveredAll(ps[..k + 1], template, clock) == DeliveredAll(ps[..k], template, clock) + [Delivered(ps[k], template, clock)]
  {
    assert ps[..k + 1][..k] == ps[..k];
  }

  /** Rows pass through On Air unchanged: only a cached row-0 packet would be rewritten. */
  lemma {:induction false} DeliveredRows(ps: seq<seq<byte>>, template: Line, clock: Clock)
    requires forall i :: 0 <= i < |ps| ==> |ps[i]| == PacketSize && !IsHeader(ps[i])
    requires ClockFits(clock) && |template| == 32
    ensures DeliveredAll(ps, template, clock) == ps
  {
    if ps != [] {
      var n := |ps| - 1;
      DeliveredRows(ps[..n], template, clock);
      assert DeliveredAll(ps, template, clock) == ps[..n] + [Delivered(ps[n], template, clock)];
      assert ps == ps[..n] + [ps[n]];
    }
  }

  /**
   * The Newfor state: the packet cache, the low byte of the page selected
   * by Page Init (_page), the row count of the current Subtitle Data
   * command as a byte (_rowcount) and the packet in which headers are
   * built.
   */
  class Newfor {
    const packetCache: PacketBuffer
    const packet: array<byte>
    var page: byte
    var rowCount: byte

    ghost predicate Valid()
      reads this, packetCache, packetCache.pkt
    {
      && packetCache.Valid() && packetCache.count == SubtitlePacketCount as int
      && packet.Length == PacketSize && packet != packetCache.pkt
    }

    /** InitNu4: an empty eight-slot cache over its own storage; page, row count and header packet start at zero. */
    constructor InitNu4()
      ensures Valid() && fresh(packetCache) && fresh(packetCache.pkt) && fresh(packet)
      ensures packetCache.contents == [] && page == 0 && rowCount == 0
      ensures packet[..] == seq(PacketSize, _ => 0)
    {
      var storage := new byte[SubtitlePacketCount as int * PacketSize];
      packetCache := new PacketBuffer.Init(storage, SubtitlePacketCount);
      packet := new byte[PacketSize](_ => 0);
      page := 0;
      rowCount := 0;
    }

    /**
     * SoftelPageInit: the command's page is returned and, when it is not an
     * error code, kept for the headers in the 8-bit _page, which loses its
     * hundreds digit.
     */
    method SoftelPageInit(cmd: Line) returns (r: int)
      requires Valid() && |cmd| >= 5
      modifies this
      ensures Valid() && r == PageNumber(cmd) && rowCount == old(rowCount)
      ensures page == if r < PageInitBadLead then U8(r) else old(page)
    {
      var n := Unham8(cmd[1]);
      if n < 0 {
        return PageInitBadLead;
      }
      n := Unham8(cmd[2]);
      if n < 1 || n > 8 {
        return PageInitBadHundreds;
      }
      var p := n * 0x100;
      n := Unham8(cmd[3]);
      if n < 0 || n > 0x0F {
        return PageInitBadTens;
      }
      p := p + n * 0x10;
      n := Unham8(cmd[4]);
      if n < 0 || n > 0x0F {
        return PageInitBadUnits;
      }
      p := p + n;
      page := U8(p);
      return p;
    }

    /**
     * GetRowCount: the row count of a Subtitle Data command, kept in the
     * 8-bit _rowcount and returned; as written an undecodable byte gives -1
     * (kept as 255).
     */
    method GetRowCount(cmd: Line) returns (n: int)
      requires Valid() && |cmd| >= 2
      modifies this
      ensures Valid() && n == RowCountAsWritten(cmd) && rowCount == U8(n) && page == old(page)
      ensures n >= 0 ==> n == RowCount(cmd)
    {
      n := Unham8(cmd[1]);
      if n > 7 {
        n := 0;
      }
      rowCount := U8(n);
    }

    /** saveSubtitleRow: the row's packet joins the cache, or is dropped when the cache is full. */
    method SaveSubtitleRow(mag: byte, row: byte, cmd: Line)
      requires Valid()
      modifies packetCache, packetCache.pkt
      ensures Valid()
      ensures old(|packetCache.contents|) == packetCache.count - 1 ==> packetCache.contents == old(packetCache.contents)
      ensures old(|packetCache.contents|) < packetCache.count - 1 ==>
        packetCache.contents == old(packetCache.contents) + [SubtitleRowPacket(mag, row, cmd)]
    {
      var p := new byte[PacketSize];
      PacketPrefix(p, mag, row);
      StrnCopy(p, 5, cmd, 40);
      ghost var text := p[..];
      Parity(p, 5);
      assert p[..5] == Prefix(mag, row);
      assert p[5..] == WithParity(StrnField(cmd, 40)) by {
        assert text[5..] == StrnField(cmd, 40);
        forall i | 0 <= i < 40
          ensures p[5..][i] == WithParity(StrnField(cmd, 40))[i]
        {
          assert text[5 + i] == StrnField(cmd, 40)[i];
        }
      }
      assert p[..] == p[..5] + p[5..];
      var _ := packetCache.Put(p);
    }

    /** PacketHeader for the kept page byte, magazine (page / 0xff) & 7, with the erase and subtitle bits, built in the header packet. */
    method BuildHeader()
      requires Valid()
      modifies packet
      ensures packet[..] == SubtitleHeader(page, old(packet[13..]))
    {
      PacketHeader(packet, SubtitleMagAsWritten(page as int), page, 0, EraseSubtitle);
      assert packet[..] == packet[..5] + packet[5..13] + packet[13..];
    }

    /** SubtitleOffair: an erasing header, parity applied from byte 13, goes to the subtitle buffer unless it is full. */
    method SubtitleOffair(subtitles: PacketBuffer)
      requires Valid() && subtitles.Valid() && packet != subtitles.pkt
      requires subtitles != packetCache && subtitles.pkt != packetCache.pkt
      modifies packet, subtitles, subtitles.pkt
      ensures Valid() && subtitles.Valid() && subtitles.pkt == old(subtitles.pkt) && subtitles.count == old(subtitles.count)
      ensures packet[..] == ErasingHeader(page, old(packet[13..]))
      ensures old(|subtitles.contents|) == subtitles.count - 1 ==> subtitles.contents == old(subtitles.contents)
      ensures old(|subtitles.contents|) < subtitles.count - 1 ==>
        subtitles.contents == old(subtitles.contents) + [ErasingHeader(page, old(packet[13..]))]
    {
      ghost var tail := packet[13..];
      BuildHeader();
      ghost var built := packet[..];
      Parity(packet, 13);
      WithParityWindow(built, packet[..]);
      assert packet[..] == packet[..13] + packet[13..];
      var _ := subtitles.Put(packet);
    }

    /**
     * SubtitleOnair: a header without parity goes to the subtitle buffer,
     * then the cache is moved behind it packet by packet until it is empty.
     * The source repeats a move that finds the subtitle buffer full, and
     * so never returns, unless everything fits.
     */
    method SubtitleOnair(subtitles: PacketBuffer, cfg: Settings.Config, clock: Clock)
      requires Valid() && subtitles.Valid() && cfg.Valid() && ClockFits(clock)
      requires packet != subtitles.pkt && subtitles != packetCache && subtitles.pkt != packetCache.pkt
      requires cfg.headerTemplate != subtitles.pkt
      requires packetCache.contents == [] || |subtitles.contents| + 1 + |packetCache.contents| < subtitles.count
      modifies packet, subtitles, subtitles.pkt, packetCache
      ensures Valid() && subtitles.Valid() && subtitles.pkt == old(subtitles.pkt) && subtitles.count == old(subtitles.count)
      ensures packet[..] == SubtitleHeader(page, old(packet[13..]))
      ensures packetCache.contents == []
      ensures var header := if old(|subtitles.contents|) < subtitles.count - 1 then [packet[..]] else [];
        subtitles.contents == old(subtitles.contents) + header +
          DeliveredAll(old(packetCache.contents), old(cfg.headerTemplate[..Settings.TemplateSize]), clock)
    {
      BuildHeader();
      var _ := subtitles.Put(packet);
      MoveAll(subtitles, packetCache, cfg, clock);
    }
  }

  /** The loop of SubtitleOnair: bufferMove from src to dest until src is empty. */
  method MoveAll(dest: PacketBuffer, src: PacketBuffer, cfg: Settings.Config, clock: Clock)
    requires dest.Valid() && src.Valid() && cfg.Valid() && ClockFits(clock)
    requires dest != src && dest.pkt != src.pkt && cfg.headerTemplate != dest.pkt
    requires src.contents == [] || |dest.contents| + |src.contents| < dest.count
    modifies dest, dest.pkt, src
    ensures dest.Valid() && src.Valid()
    ensures dest.pkt == old(dest.pkt) && dest.count == old(dest.count)
    ensures src.pkt == old(src.pkt) && src.count == old(src.count)
    ensures src.contents == []
    ensures dest.contents == old(dest.contents) + DeliveredAll(old(src.contents), old(cfg.headerTemplate[..Settings.TemplateSize]), clock)
  {
    ghost var cached := src.contents;
    ghost var start := dest.contents;
    ghost var template := cfg.headerTemplate[..Settings.TemplateSize];
    ghost var k := 0;
    var empty := src.IsEmpty();
    while empty != BufferEmpty
      invariant dest.Valid() && src.Valid() && cfg.Valid()
      invariant dest.pkt == old(dest.pkt) && dest.count == old(dest.count)
      invariant src.pkt == old(src.pkt) && src.count == old(src.count)
      invariant cfg.headerTemplate[..Settings.TemplateSize] == template
      invariant forall i :: 0 <= i < |cached| ==> |cached[i]| == PacketSize
      invariant 0 <= k <= |cached| && src.contents == cached[k..]
      invariant dest.contents == start + DeliveredAll(cached[..k], template, clock)
      invariant empty == BufferEmpty <==> src.contents == []
      invariant cached == [] || |start| + |cached| < dest.count
      decreases |src.contents|
    {
      MoveNext(dest, src, cfg, clock, cached, start, k);
      k := k + 1;
      empty := src.IsEmpty();
    }
    assert cached[..|cached|] == cached;
  }

  /** One bufferMove of the loop: the k-th cached packet is delivered. */
  method MoveNext(dest: PacketBuffer, src: PacketBuffer, cfg: Settings.Config, clock: Clock,
                  ghost cached: seq<seq<byte>>, ghost start: seq<seq<byte>>, ghost k: nat)
    requires dest.Valid() && src.Valid() && cfg.Valid() && ClockFits(clock)
    requires dest != src && dest.pkt != src.pkt && cfg.headerTemplate != dest.pkt
    requires forall i :: 0 <= i < |cached| ==> |cached[i]| == PacketSize
    requires k < |cached| && src.contents == cached[k..] && |start| + |cached| < dest.count
    requires dest.contents == start + DeliveredAll(cached[..k], cfg.headerTemplate[..Settings.TemplateSize], clock)
    modifies dest, dest.pkt, src
    ensures dest.Valid() && src.Valid() && cfg.Valid()
    ensures dest.pkt == old(dest.pkt) && dest.count == old(dest.count)
    ensures src.pkt == old(src.pkt) && src.count == old(src.count)
    ensures cfg.headerTemplate[..Settings.TemplateSize] == old(cfg.headerTemplate[..Settings.TemplateSize])
    ensures src.contents == cached[k + 1..]
    ensures dest.contents == start + DeliveredAll(cached[..k + 1], cfg.headerTemplate[..Settings.TemplateSize], clock)
  {
    ghost var before := dest.contents;
    var _ := Move(dest, src, cfg, clock);
    assert cached[k..][0] == cached[k] && cached[k..][1..] == cached[k + 1..];
    ghost var template := cfg.headerTemplate[..Settings.TemplateSize];
    DeliveredAllSnoc(cached, k, template, clock);
    ExtendLog(start, DeliveredAll(cached[..k], template, clock), DeliveredAll(cached[..k + 1], template, clock),
              before, dest.contents, Delivered(cached[k], template, clock));
  }

  /** Appending to a log that extends a fixed start extends the log. */
  lemma ExtendLog<T>(start: seq<T>, log: seq<T>, log': seq<T>, before: seq<T>, after: seq<T>, x: T)
    requires before == start + log && after == before + [x] && log' == log + [x]
    ensures after == start + log'
  {
    assert after == (start + log) + [x];
    forall i | 0 <= i < |after|
      ensures after[i] == (start + log')[i]
    {
    }
  }
}
