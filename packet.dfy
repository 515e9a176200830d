/**
 * The packet builders of packet.c. Each fills a caller's 45-byte packet
 * in place: clock run-in, framing code and MRAG (bytes 0..4), then the
 * 40-byte payload. The layouts follow ETSI EN 300 706: MRAG in section
 * 7.1.2, page header in section 9.3.1, Fastext links (X/27/0) in section
 * 9.6.1, enhancement packets in section 9.4, packet 8/30 in section 9.8.
 */
module Packet {
  import opened Tables
  import opened CString
  import Settings

  const PacketSize := 45

  /** The two MRAG bytes: magazine (mod 8) with the low row bit, then the next four row bits. */
  function Mrag(mag: byte, row: byte): (r: seq<byte>)
    ensures |r| == 2
  {
    [Ham(mag % 8 + ((row % 2) << 3)), Ham((row >> 1) & 0x0F)]
  }

  /** Clock run-in, framing code and MRAG: bytes 0..4 of every packet. */
  function Prefix(mag: byte, row: byte): (r: seq<byte>)
    ensures |r| == 5
  {
    [0x55, 0x55, 0x27] + Mrag(mag, row)
  }

  /** The magazine (0..7) that a receiver reads from the first MRAG byte. */
  function MragMagazine(b3: byte): byte
  {
    Deham(b3 & 0x7F) & 7
  }

  /** The row (0..31) that a receiver reads from the two MRAG bytes. */
  function MragRow(b3: byte, b4: byte): byte
  {
    ((Deham(b3 & 0x7F) >> 3) & 1) | ((Deham(b4 & 0x7F) & 0xF) << 1)
  }

  /** The MRAG bytes carry the magazine modulo 8 and the row modulo 32. */
  lemma MragRoundTrip(mag: byte, row: byte)
    ensures MragMagazine(Mrag(mag, row)[0]) == mag % 8
    ensures MragRow(Mrag(mag, row)[0], Mrag(mag, row)[1]) == row % 32
  {
    DehamHam(mag % 8 + ((row % 2) << 3));
    DehamHam((row >> 1) & 0x0F);
  }

  /** PacketClear: every byte becomes value. */
  method PacketClear(packet: array<byte>, value: byte)
    requires packet.Length == PacketSize
    modifies packet
    ensures forall i :: 0 <= i < PacketSize ==> packet[i] == value
  {
    var i := 0;
    while i < PacketSize
      invariant 0 <= i <= PacketSize
      invariant forall k :: 0 <= k < i ==> packet[k] == value
    {
      packet[i] := value;
      i := i + 1;
    }
  }

  /** PacketQuiet: the all-zero packet, which carries no clock run-in. */
  method PacketQuiet(packet: array<byte>)
    requires packet.Length == PacketSize
    modifies packet
    ensures forall i :: 0 <= i < PacketSize ==> packet[i] == 0
  {
    PacketClear(packet, 0);
  }

  /**
   * PacketPrefixValue: bytes 0..4 become the prefix; a value below 256
   * (converted to a byte) fills bytes 5..44, any other value leaves them.
   */
  method PacketPrefixValue(packet: array<byte>, mag: byte, row: byte, value: int)
    requires packet.Length == PacketSize
    modifies packet
    ensures packet[..5] == Prefix(mag, row)
    ensures value < 256 ==> forall i :: 5 <= i < PacketSize ==> packet[i] == U8(value)
    ensures value >= 256 ==> packet[5..] == old(packet[5..])
  {
    if value < 256 {
      PacketClear(packet, U8(value));
    }
    packet[0] := 0x55;
    packet[1] := 0x55;
    packet[2] := 0x27;
    packet[3] := Ham(mag % 8 + ((row % 2) << 3));
    packet[4] := Ham((row >> 1) & 0x0F);
  }

  /** PacketPrefix: the prefix only; the payload is left as it was. */
  method PacketPrefix(packet: array<byte>, mag: byte, row: byte)
    requires packet.Length == PacketSize
    modifies packet
    ensures packet[..5] == Prefix(mag, row)
    ensures packet[5..] == old(packet[5..])
  {
    PacketPrefixValue(packet, mag, row, 999);
  }

  /** PacketFiller: row 25 of magazine 8 (MRAG magazine 0), filled with spaces. */
  method PacketFiller(packet: array<byte>)
    requires packet.Length == PacketSize
    modifies packet
    ensures packet[..5] == Prefix(8, 25)
    ensures forall i :: 5 <= i < PacketSize ==> packet[i] == 0x20
  {
    PacketPrefixValue(packet, 8, 25, 0x20);
  }

  /**
   * Parity: every byte from offset to the end gets odd parity with its low
   * seven bits kept; the bytes below offset are unchanged.
   */
  method Parity(packet: array<byte>, offset: byte)
    requires packet.Length == PacketSize
    modifies packet
    ensures forall i :: 0 <= i < PacketSize && i < offset as int ==> packet[i] == old(packet[i])
    ensures forall i :: offset as int <= i < PacketSize ==>
      packet[i] == ParTab(old(packet[i]) & 0x7F) && OddParity(packet[i]) && packet[i] & 0x7F == old(packet[i]) & 0x7F
  {
    var i := offset as int;
    while i < PacketSize
      invariant offset as int <= i || i == offset as int
      invariant forall k :: 0 <= k < PacketSize && (k < offset as int || i <= k) ==> packet[k] == old(packet[k])
      invariant forall k :: offset as int <= k < i && k < PacketSize ==> packet[k] == ParTab(old(packet[k]) & 0x7F)
    {
      packet[i] := ParTab(packet[i] & 0x7F);
      i := i + 1;
    }
  }

  /** A byte with odd parity is its own parity-corrected form, so applying Parity twice changes nothing more. */
  lemma ParityIdempotent(b: byte)
    ensures ParTab(ParTab(b & 0x7F) & 0x7F) == ParTab(b & 0x7F)
  {
  }

  /** Two bytes with odd parity and the same low seven bits are equal. */
  lemma OddParityDetermined(a: byte, b: byte)
    requires OddParity(a) && OddParity(b) && a & 0x7F == b & 0x7F
    ensures a == b
  {
  }

  /** The sequence from index k on, empty past the end. */
  function Drop(t: Line, k: nat): (r: Line)
    ensures |r| == if k <= |t| then |t| - k else 0
  {
    if k <= |t| then t[k..] else []
  }

  lemma DropAt(t: Line, k: nat, i: nat)
    ensures At(Drop(t, k), i) == At(t, k + i)
  {
  }

  /**
   * The C scan for a comma among the first `limit` bytes from pos (reading
   * past a NUL like the source): the index just after it, or -1.
   */
  function CommaAfter(t: Line, pos: nat, limit: nat): (r: int)
    ensures r == -1 || pos < r <= pos + limit
    decreases limit
  {
    if limit == 0 then -1
    else if At(t, pos) == 0x2C then pos + 1
    else CommaAfter(t, pos + 1, limit - 1)
  }

  /** The scan stops just after the first comma in its window, and fails exactly when the window has none. */
  lemma {:induction false} CommaAfterFirst(t: Line, pos: nat, limit: nat)
    ensures var r := CommaAfter(t, pos, limit);
      (r == -1 <==> forall j :: pos <= j < pos + limit ==> At(t, j) != 0x2C) &&
      (r != -1 ==> At(t, r - 1) == 0x2C && forall j :: pos <= j < r - 1 ==> At(t, j) != 0x2C)
    decreases limit
  {
    if limit > 0 && At(t, pos) != 0x2C {
      CommaAfterFirst(t, pos + 1, limit - 1);
    }
  }

  /**
   * The row bytes the OL copy loop produces from the body of an OL line,
   * with room for n more: it stops at a NUL, at a CR or when the room is
   * used up; ESC c becomes (c & 0x1F) | 0x80, everything else is copied.
   */
  function OLDecode(t: Line, n: nat): (r: Line)
    ensures |r| <= n
    decreases n
  {
    if n == 0 || At(t, 0) == 0 || OLChar(t) == 0x0D then []
    else [OLChar(t)] + OLDecode(Drop(t, OLSkip(t)), n - 1)
  }

  /** The row byte at the start of an OL body: ESC c gives (c & 0x1F) | 0x80, any other byte itself. */
  function OLChar(t: Line): byte
  {
    if At(t, 0) == 0x1B then (At(t, 1) & 0x1F) | 0x80 else At(t, 0)
  }

  /** The number of body bytes that OLChar consumed. */
  function OLSkip(t: Line): nat
  {
    if At(t, 0) == 0x1B then 2 else 1
  }

  /** The decoded bytes of t for n positions, padded with spaces to n bytes. */
  function OLPad(t: Line, n: nat): (r: Line)
    ensures |r| == n
  {
    var d := OLDecode(t, n);
    d + seq(n - |d|, _ => 0x20)
  }

  /** The 40 payload bytes of an OL row: the decoded bytes, then spaces. */
  function OLRow(body: Line): (r: Line)
    ensures |r| == 40
  {
    OLPad(body, 40)
  }

  /** The 7-bit escape form of a row byte in an OL line: bytes 0x80..0x9F become ESC, then the code with bit 6 set. */
  function OLEscape(c: byte): (e: Line)
    ensures |e| == if c >= 0x80 then 2 else 1
  {
    if c >= 0x80 then [0x1B, (c & 0x1F) | 0x40] else [c]
  }

  /** A row written in the escape form of an OL line. */
  function OLEncode(row: Line): (t: Line)
  {
    if row == [] then [] else OLEscape(row[0]) + OLEncode(row[1..])
  }

  /** The bytes an OL line can carry: printable codes other than ESC, and the 8-bit controls 0x80..0x9F. */
  predicate OLByte(c: byte)
  {
    (0x20 <= c < 0x80 && c != 0x1B) || (0x80 <= c < 0xA0)
  }

  /** Decoding undoes the escape form: a row of at most n such bytes comes back whole, whatever follows a NUL. */
  lemma {:induction false} OLDecodeEncode(row: Line, rest: Line, n: nat)
    requires |row| <= n
    requires forall i :: 0 <= i < |row| ==> OLByte(row[i])
    ensures OLDecode(OLEncode(row) + [0] + rest, n) == row
    decreases |row|
  {
    if row == [] {
      assert At(OLEncode(row) + [0] + rest, 0) == 0;
    } else {
      var c, tail := row[0], row[1..];
      var u := OLEncode(tail) + [0] + rest;
      assert OLEncode(row) == OLEscape(c) + OLEncode(tail);
      assert OLEncode(row) + [0] + rest == OLEscape(c) + u;
      assert forall i :: 0 <= i < |tail| ==> OLByte(tail[i]) by {
        forall i | 0 <= i < |tail| ensures OLByte(tail[i]) {
          assert tail[i] == row[i + 1];
        }
      }
      OLDecodeEncode(tail, rest, n - 1);
      OLDecodeEscape(c, u, n);
      assert [c] + tail == row;
    }
  }

  /** One escaped byte decodes to itself, and decoding goes on after it. */
  lemma OLDecodeEscape(c: byte, u: Line, n: nat)
    requires OLByte(c) && n > 0
    ensures OLDecode(OLEscape(c) + u, n) == [c] + OLDecode(u, n - 1)
  {
    var t := OLEscape(c) + u;
    if c >= 0x80 {
      assert At(t, 0) == 0x1B && At(t, 1) == (c & 0x1F) | 0x40;
      assert (((c & 0x1F) | 0x40) & 0x1F) | 0x80 == c;
      assert OLChar(t) == c && Drop(t, OLSkip(t)) == u;
    } else {
      assert At(t, 0) == c;
      assert OLChar(t) == c && Drop(t, OLSkip(t)) == u;
    }
  }

  /**
   * copyOL: textline is the line buffer from "OL," on. The row number is
   * read with strtol after the three-byte key; 0 returns 0; no comma
   * within the next four bytes returns 0xFF; otherwise bytes 5..44 become
   * the decoded body and the row number is returned truncated to 8 bits.
   * Bytes 0..4 are never written.
   */
  method CopyOL(packet: array<byte>, textline: Line) returns (row: byte)
    requires packet.Length == PacketSize
    modifies packet
    ensures var t := Drop(textline, 3); var n := Strtol(t, 10); var c := CommaAfter(t, 0, 4);
      && (n == 0 ==> row == 0 && packet[..] == old(packet[..]))
      && (n != 0 && c == -1 ==> row == 0xFF && packet[..] == old(packet[..]))
      && (n != 0 && c != -1 ==> row == U8(n) && packet[..5] == old(packet[..5]) && packet[5..] == OLRow(Drop(t, c)))
  {
    var t := Drop(textline, 3);
    var linenumber := Strtol(t, 10);
    if linenumber == 0 {
      return 0;
    }
    var c := CommaAfter(t, 0, 4);
    if c == -1 {
      return 0xFF;
    }
    CopyOLBody(packet, Drop(t, c));
    return U8(linenumber);
  }

  /** The copy loops of copyOL: bytes 5..44 become spaces, then the decoded body is copied over them. */
  method CopyOLBody(packet: array<byte>, body: Line)
    requires packet.Length == PacketSize
    modifies packet
    ensures packet[..5] == old(packet[..5])
    ensures packet[5..] == OLRow(body)
  {
    SpaceFill(packet);
    ghost var target := OLFill(packet[..], body, 5);
    OLFillRow(packet[..], body);
    var s := body;
    var p := 5;
    while p < PacketSize && At(s, 0) != 0
      invariant 5 <= p <= PacketSize
      invariant OLFill(packet[..], s, p) == target
      decreases PacketSize - p
    {
      var ch := OLChar(s);
      if ch == 0x0D {
        break;
      }
      packet[p] := ch;
      p := p + 1;
      s := Drop(s, OLSkip(s));
    }
    assert packet[..] == target;
  }

  /** Bytes 5..44 become spaces, bytes 0..4 are kept. */
  method SpaceFill(packet: array<byte>)
    requires packet.Length == PacketSize
    modifies packet
    ensures packet[..5] == old(packet[..5])
    ensures forall k :: 5 <= k < PacketSize ==> packet[k] == 0x20
  {
    var p := 5;
    while p < PacketSize
      invariant 5 <= p <= PacketSize
      invariant packet[..5] == old(packet[..5])
      invariant forall k :: 5 <= k < p ==> packet[k] == 0x20
    {
      packet[p] := 0x20;
      p := p + 1;
    }
  }

  /** The copy loop from packet position p and body position s onward, on the packet contents pkt. */
  function OLFill(pkt: seq<byte>, s: Line, p: nat): (r: seq<byte>)
    requires |pkt| == PacketSize
    ensures |r| == PacketSize
    decreases PacketSize - p
  {
    if p >= PacketSize || At(s, 0) == 0 || OLChar(s) == 0x0D then pkt
    else OLFill(pkt[p := OLChar(s)], Drop(s, OLSkip(s)), p + 1)
  }

  /** Decoding one more byte: the padded decoding is that byte, then the padded decoding of the rest. */
  lemma OLPadStep(s: Line, n: nat)
    requires n > 0 && At(s, 0) != 0 && OLChar(s) != 0x0D
    ensures OLPad(s, n) == [OLChar(s)] + OLPad(Drop(s, OLSkip(s)), n - 1)
  {
    assert OLDecode(s, n) == [OLChar(s)] + OLDecode(Drop(s, OLSkip(s)), n - 1);
  }

  /** From a packet whose bytes from p on are spaces, the copy loop leaves bytes before p alone and writes the padded decoding from p on. */
  lemma {:induction false} OLFillDecodes(pkt: seq<byte>, s: Line, p: nat)
    requires |pkt| == PacketSize && 5 <= p <= PacketSize
    requires forall k :: p <= k < PacketSize ==> pkt[k] == 0x20
    ensures OLFill(pkt, s, p) == pkt[..p] + OLPad(s, PacketSize - p)
    decreases PacketSize - p
  {
    if p >= PacketSize || At(s, 0) == 0 || OLChar(s) == 0x0D {
      OLFillStops(pkt, s, p);
    } else {
      var q := pkt[p := OLChar(s)];
      OLFillDecodes(q, Drop(s, OLSkip(s)), p + 1);
      OLFillStep(pkt, s, p);
    }
  }

  /** Where the copy loop stops at once, the spaces already there are the padded (empty) decoding. */
  lemma OLFillStops(pkt: seq<byte>, s: Line, p: nat)
    requires |pkt| == PacketSize && p <= PacketSize
    requires p == PacketSize || At(s, 0) == 0 || OLChar(s) == 0x0D
    requires forall k :: p <= k < PacketSize ==> pkt[k] == 0x20
    ensures OLFill(pkt, s, p) == pkt[..p] + OLPad(s, PacketSize - p)
  {
    assert OLDecode(s, PacketSize - p) == [];
    assert pkt == pkt[..p] + pkt[p..];
  }

  /** One turn of the copy loop extends the written prefix by the decoded byte. */
  lemma OLFillStep(pkt: seq<byte>, s: Line, p: nat)
    requires |pkt| == PacketSize && p < PacketSize
    requires At(s, 0) != 0 && OLChar(s) != 0x0D
    requires var q := pkt[p := OLChar(s)];
      OLFill(q, Drop(s, OLSkip(s)), p + 1) == q[..p + 1] + OLPad(Drop(s, OLSkip(s)), PacketSize - p - 1)
    ensures OLFill(pkt, s, p) == pkt[..p] + OLPad(s, PacketSize - p)
  {
    OLPadStep(s, PacketSize - p);
    assert pkt[p := OLChar(s)][..p + 1] == pkt[..p] + [OLChar(s)];
  }

  /** After the space fill, the copy loop from byte 5 produces the OL row and keeps bytes 0..4. */
  lemma OLFillRow(pkt: seq<byte>, body: Line)
    requires |pkt| == PacketSize
    requires forall k :: 5 <= k < PacketSize ==> pkt[k] == 0x20
    ensures OLFill(pkt, body, 5)[..5] == pkt[..5]
    ensures OLFill(pkt, body, 5)[5..] == OLRow(body)
  {
    OLFillDecodes(pkt, body, 5);
  }

  /** The magazine of a link: its hundreds digit, modulo 8. */
  function LinkMag(link: nat): byte
  {
    ((link / 0x100) % 8) as byte
  }

  /** The page number of a link: its low byte. */
  function LinkPageNumber(link: nat): byte
  {
    (link % 0x100) as byte
  }

  /** The six Hamming bytes of one Fastext link (section 9.6.1): page units, tens, S1, S2 with M1, S3, S4 with M2 and M3. */
  function LinkBytes(link: nat, mag: byte): (r: seq<byte>)
    ensures |r| == 6
  {
    var pg := LinkPageNumber(link);
    var rel := LinkMag(link) ^ (mag & 7);
    [Ham(pg & 0xF), Ham(pg >> 4), Ham(0xF), Ham(((rel & 1) << 3) | 7), Ham(0xF), Ham(((rel & 6) << 1) | 3)]
  }

  /** The page number (tens and units) a receiver reads from a link. */
  function LinkPage(b: seq<byte>): byte
    requires |b| == 6
  {
    Nib(b[0]) | (Nib(b[1]) << 4)
  }

  /** The absolute magazine a receiver reads from a link transmitted in magazine mag. */
  function LinkMagazine(b: seq<byte>, mag: byte): byte
    requires |b| == 6
  {
    var rel := ((Nib(b[3]) >> 3) & 1) | (((Nib(b[5]) >> 2) & 3) << 1);
    rel ^ (mag & 7)
  }

  /** A link reads back as its page number and, undoing the relative coding, its magazine. */
  lemma LinkRoundTrip(link: nat, mag: byte)
    ensures LinkPage(LinkBytes(link, mag)) == LinkPageNumber(link)
    ensures LinkMagazine(LinkBytes(link, mag), mag) == LinkMag(link)
  {
    var pg := LinkPageNumber(link);
    var m := LinkMag(link);
    assert m < 8;
    var rel := m ^ (mag & 7);
    HamDataHam(pg & 0xF);
    HamDataHam(pg >> 4);
    HamDataHam(((rel & 1) << 3) | 7);
    HamDataHam(((rel & 6) << 1) | 3);
    LinkBitsRoundTrip(m, mag & 7);
  }

  lemma LinkBitsRoundTrip(m: byte, g: byte)
    requires m < 8 && g < 8
    ensures var rel := m ^ g; ((((((rel & 1) << 3) | 7) >> 3) & 1) | ((((((rel & 6) << 1) | 3) >> 2) & 3) << 1)) ^ g == m
  {
  }

  /** The value of a link read with strtol in base 16 from pos, as unsigned long; 0 becomes 0x8FF. */
  function LinkValue(t: Line, pos: nat): (n: nat)
    ensures n != 0
  {
    var v := Strtol(Drop(t, pos), 16) % 0x1_0000_0000_0000_0000;
    if v == 0 then 0x8FF else v
  }

  /** The six bytes of the link read just after a comma at index c of an FL line. */
  function LinkReader(t: Line, mag: byte): (link: nat -> seq<byte>)
    ensures forall c :: |link(c)| == 6
  {
    (c: nat) => LinkBytes(LinkValue(t, c), mag)
  }

  /**
   * The bytes of the links the scan from pos finds, at most n of them, in
   * order: each is link(c) for the index c just after the next comma
   * within six bytes, and the scan ends at the first link without one.
   */
  function LinkFieldsFrom(t: Line, link: nat -> seq<byte>, pos: nat, n: nat): (f: seq<byte>)
    requires forall c :: |link(c)| == 6
    ensures |f| <= 6 * n
    decreases n
  {
    if n == 0 then []
    else
      var c := CommaAfter(t, pos, 6);
      if c == -1 then [] else link(c) + LinkFieldsFrom(t, link, c, n - 1)
  }

  /** The link bytes of an FL line: six for each of up to six links. */
  function LinkFields(t: Line, mag: byte): (f: seq<byte>)
    ensures |f| <= 36
  {
    LinkFieldsFrom(t, LinkReader(t, mag), 0, 6)
  }

  /**
   * copyFL: designation code 0 in byte 5, link control Ham(0xF) in byte 42
   * and a zero CRC in bytes 43..44; the links found fill bytes 6.. in
   * order, six bytes each, and the bytes of the links after the first
   * missing comma are left as they were.
   */
  method CopyFL(packet: array<byte>, textline: Line, mag: byte)
    requires packet.Length == PacketSize
    modifies packet
    ensures packet[..] == FLPacket(old(packet[..]), textline, mag)
  {
    packet[5] := Ham(0);
    packet[42] := Ham(0x0F);
    packet[43] := Ham(0);
    packet[44] := Ham(0);
    ghost var start := packet[..];
    assert start == FLFrame(old(packet[..]));
    ghost var reader := LinkReader(textline, mag);
    var i := 0;
    var pos: nat := 0;
    ghost var n: nat := 6;
    ghost var target := PutLinks(start, i, LinkFieldsFrom(textline, reader, pos, n));
    while i < 6
      invariant 0 <= i <= 6 && i + n == 6
      invariant PutLinks(packet[..], i, LinkFieldsFrom(textline, reader, pos, n)) == target
    {
      var c := CommaAfter(textline, pos, 6);
      if c == -1 {
        assert LinkFieldsFrom(textline, reader, pos, n) == [];
        break;
      }
      ghost var before, i0, pos0, n0 := packet[..], i, pos, n;
      pos := c;
      var link := LinkValue(textline, pos);
      var bytes := LinkBytes(link, mag);
      assert bytes == reader(pos);
      PutLink(packet, i, bytes);
      i, n := i + 1, n - 1;
      LinkFieldsStep(before, packet[..], textline, reader, i0, pos0, pos, n0, i, n, target);
    }
    PutLinksNone(packet[..], i);
  }

  /** Bytes 5, 42, 43 and 44 of a link packet: designation code 0 and the link control nibbles F, 0, 0. */
  function FLFrame(pkt: seq<byte>): (r: seq<byte>)
    requires |pkt| == PacketSize
    ensures |r| == PacketSize
  {
    pkt[5 := Ham(0)][42 := Ham(0x0F)][43 := Ham(0)][44 := Ham(0)]
  }

  /** The packet copyFL makes of pkt: the frame bytes set and the link fields written from byte 6. */
  function FLPacket(pkt: seq<byte>, t: Line, mag: byte): (r: seq<byte>)
    requires |pkt| == PacketSize
    ensures |r| == PacketSize
  {
    PutLinks(FLFrame(pkt), 0, LinkFields(t, mag))
  }

  /**
   * The layout of a link packet: the prefix and the header bytes 0..4 are
   * kept, byte 5 is the designation code, the links found follow from byte
   * 6 six bytes each, the bytes after them up to 41 are kept, and bytes
   * 42..44 are the link control.
   */
  lemma FLPacketLayout(pkt: seq<byte>, t: Line, mag: byte)
    requires |pkt| == PacketSize
    ensures var r, f := FLPacket(pkt, t, mag), LinkFields(t, mag);
      r[..5] == pkt[..5] && r[5] == Ham(0) && r[6..6 + |f|] == f && r[6 + |f|..42] == pkt[6 + |f|..42] &&
      r[42] == Ham(0x0F) && r[43] == Ham(0) && r[44] == Ham(0)
  {
    FramedLinksLayout(pkt, LinkFields(t, mag));
  }

  lemma FramedLinksLayout(pkt: seq<byte>, f: seq<byte>)
    requires |pkt| == PacketSize && |f| <= 36
    ensures var r := PutLinks(FLFrame(pkt), 0, f);
      r[..5] == pkt[..5] && r[5] == Ham(0) && r[6..6 + |f|] == f && r[6 + |f|..42] == pkt[6 + |f|..42] &&
      r[42] == Ham(0x0F) && r[43] == Ham(0) && r[44] == Ham(0)
  {
    var q := FLFrame(pkt);
    var k := 6 + |f|;
    assert q[..5] == pkt[..5];
    assert q[k..42] == pkt[k..42];
    assert PutLinks(q, 0, f) == q[..6] + f + q[k..];
  }

  /** Writing no link bytes changes nothing. */
  lemma PutLinksNone(pkt: seq<byte>, i: nat)
    requires |pkt| == PacketSize
    ensures PutLinks(pkt, i, []) == pkt
  {
    if 6 + 6 * i <= 42 {
      assert pkt[..6 + 6 * i] + pkt[6 + 6 * i..] == pkt;
    }
  }

  /** The six bytes of link i go to bytes 6+6i..11+6i; every other byte is kept. */
  method PutLink(packet: array<byte>, i: int, bytes: seq<byte>)
    requires packet.Length == PacketSize && 0 <= i < 6 && |bytes| == 6
    modifies packet
    ensures packet[..] == PutLinks(old(packet[..]), i, bytes)
  {
    var p := 6 + 6 * i;
    forall k | p <= k < p + 6 {
      packet[k] := bytes[k - p];
    }
    assert packet[..] == old(packet[..])[..p] + bytes + old(packet[..])[p + 6..];
  }

  /** The packet with link bytes f written from link i on (byte 6 + 6i), when they fit before byte 42. */
  function PutLinks(pkt: seq<byte>, i: nat, f: seq<byte>): (r: seq<byte>)
    requires |pkt| == PacketSize
    ensures |r| == PacketSize
  {
    if 6 + 6 * i + |f| <= 42 then pkt[..6 + 6 * i] + f + pkt[6 + 6 * i + |f|..] else pkt
  }

  /** Finding link i at c writes its bytes and goes on from c with link i + 1. */
  lemma LinkFieldsStep(pkt: seq<byte>, next: seq<byte>, t: Line, link: nat -> seq<byte>, i: nat, pos: nat, c: nat,
                       n: nat, i1: nat, n1: nat, target: seq<byte>)
    requires forall c :: |link(c)| == 6
    requires |pkt| == PacketSize && i + n == 6 && n > 0 && i1 == i + 1 && n1 == n - 1
    requires CommaAfter(t, pos, 6) == c
    requires PutLinks(pkt, i, LinkFieldsFrom(t, link, pos, n)) == target
    requires next == PutLinks(pkt, i, link(c))
    ensures PutLinks(next, i1, LinkFieldsFrom(t, link, c, n1)) == target
  {
    var b, rest := link(c), LinkFieldsFrom(t, link, c, n1);
    LinkFieldsFromNext(t, link, pos, n, c, n1);
    PutLinksSplit(pkt, i, b, rest, i1);
  }

  /** A comma found from pos: that link's bytes, then the links found from just after the comma. */
  lemma LinkFieldsFromNext(t: Line, link: nat -> seq<byte>, pos: nat, n: nat, c: nat, n1: nat)
    requires forall c :: |link(c)| == 6
    requires n > 0 && n1 == n - 1 && CommaAfter(t, pos, 6) == c
    ensures LinkFieldsFrom(t, link, pos, n) == link(c) + LinkFieldsFrom(t, link, c, n1)
  {
    LinkFieldsFromSame(t, link, c, n1, n - 1);
  }

  lemma LinkFieldsFromSame(t: Line, link: nat -> seq<byte>, pos: nat, n: nat, m: nat)
    requires forall c :: |link(c)| == 6
    requires n == m
    ensures LinkFieldsFrom(t, link, pos, n) == LinkFieldsFrom(t, link, pos, m)
  {
  }

  /** Writing b then rest from the next link is writing b + rest. */
  lemma PutLinksSplit(pkt: seq<byte>, i: nat, b: seq<byte>, rest: seq<byte>, i1: nat)
    requires |pkt| == PacketSize && |b| == 6 && i < 6 && i1 == i + 1
    requires 6 + 6 * i + 6 + |rest| <= 42
    ensures PutLinks(pkt, i, b + rest) == PutLinks(PutLinks(pkt, i, b), i1, rest)
  {
    var q := PutLinks(pkt, i, b);
    var p := 6 + 6 * i;
    assert q == pkt[..p] + b + pkt[p + 6..];
    assert q[..p + 6] == pkt[..p] + b;
    assert q[p + 6 + |rest|..] == pkt[p + 6 + |rest|..];
  }

  /** The four header control nibbles (bytes 8, 10, 11, 12 carry them with subcode bits). */
  function ControlC4(control: bv32): byte
  {
    if control & 0x4000 != 0 then 0x08 else 0
  }

  function ControlC5C6(control: bv32): byte
  {
    (if control & 0x0002 != 0 then 0x08 else 0) | (if control & 0x0001 != 0 then 0x04 else 0)
  }

  function ControlC7C10(control: bv32): byte
  {
    (if control & 0x0004 != 0 then 0x01 else 0) | (if control & 0x0008 != 0 then 0x02 else 0) |
    (if control & 0x0010 != 0 then 0x04 else 0) | (if control & 0x0020 != 0 then 0x08 else 0)
  }

  function ControlC11C14(control: bv32): byte
  {
    (((control & 0x0380) >> 6) as byte) | (if control & 0x0040 != 0 then 0x01 else 0)
  }

  /**
   * The subcode fields S1..S4 as PacketHeader cuts them: consecutive bit
   * fields of 4, 3, 4 and 2 bits of the value.
   */
  function HeaderSubcodeFieldsAsWritten(subcode: bv32): (f: seq<byte>)
    ensures |f| == 4 && f[0] < 16 && f[1] < 8 && f[2] < 16 && f[3] < 4
  {
    [(subcode & 0xF) as byte, ((subcode >> 4) & 7) as byte, ((subcode >> 7) & 0xF) as byte, ((subcode >> 11) & 3) as byte]
  }

  /**
   * The subcode fields cut per hexadecimal digit, the way Packet30 cuts
   * them: S1 digit 0, S2 digit 1 (3 bits), S3 digit 2, S4 digit 3 (2 bits).
   */
  function HeaderSubcodeDigits(subcode: bv32): (f: seq<byte>)
    ensures |f| == 4 && f[0] < 16 && f[1] < 8 && f[2] < 16 && f[3] < 4
  {
    [(subcode & 0xF) as byte, ((subcode >> 4) & 7) as byte, ((subcode >> 8) & 0xF) as byte, ((subcode >> 12) & 3) as byte]
  }

  /** Bytes 5..12 of a page header from subcode fields f: page units and tens, S1, S2+C4, S3, S4+C5C6, C7..C10, C11..C14. */
  function HeaderBytesFrom(page: byte, f: seq<byte>, control: bv32): (r: seq<byte>)
    requires |f| == 4 && f[0] < 16 && f[1] < 8 && f[2] < 16 && f[3] < 4
    ensures |r| == 8
  {
    [Ham(page % 0x10), Ham(page / 0x10), Ham(f[0]), Ham(f[1] | ControlC4(control)), Ham(f[2]),
     Ham(f[3] | ControlC5C6(control)), Ham(ControlC7C10(control)), Ham(ControlC11C14(control))]
  }

  /** Header bytes 5..12 as PacketHeader writes them. */
  function HeaderBytesAsWritten(page: byte, subcode: bv32, control: bv32): (r: seq<byte>)
    ensures |r| == 8
  {
    HeaderBytesFrom(page, HeaderSubcodeFieldsAsWritten(subcode), control)
  }

  /** Header bytes 5..12 with the subcode cut per hexadecimal digit. */
  function HeaderBytes(page: byte, subcode: bv32, control: bv32): (r: seq<byte>)
    ensures |r| == 8
  {
    HeaderBytesFrom(page, HeaderSubcodeDigits(subcode), control)
  }

  /** The data nibble a receiver reads from an error-free Hamming 8/4 byte. */
  function Nib(b: byte): byte
  {
    HamData(b)
  }

  /** The control bits a receiver reads back from header bytes 5..12, in the page file's bit positions. */
  function HeaderControl(h: seq<byte>): bv32
    requires |h| == 8
  {
    NibbleControl(Nib(h[3]), Nib(h[5]), Nib(h[6]), Nib(h[7]))
  }

  /** The control word from the nibbles of bytes 8, 10, 11 and 12: C4, C5 and C6, C7..C10, C11..C14. */
  function NibbleControl(n3: byte, n5: byte, n6: byte, n7: byte): bv32
  {
    (if n3 & 8 != 0 then 0x4000 else 0) |
    (if n5 & 8 != 0 then 0x0002 else 0) | (if n5 & 4 != 0 then 0x0001 else 0) |
    ((n6 as bv32) << 2) | ((n7 as bv32) << 6)
  }

  /** The page number a receiver reads from header bytes 5..6. */
  function HeaderPage(h: seq<byte>): byte
    requires |h| == 8
  {
    Nib(h[0]) | (Nib(h[1]) << 4)
  }

  /** The subcode a receiver reads from header bytes 7..10: S1..S4 as its hexadecimal digits (section 9.3.1). */
  function HeaderSubcode(h: seq<byte>): bv16
    requires |h| == 8
  {
    NibbleSubcode(Nib(h[2]), Nib(h[3]), Nib(h[4]), Nib(h[5]))
  }

  /** The subcode a receiver reads from the four subcode nibbles S1..S4, each a hexadecimal digit of it. */
  function NibbleSubcode(s1: byte, s2: byte, s3: byte, s4: byte): bv16
  {
    ((s1 & 0xF) as bv16) | (((s2 & 7) as bv16) << 4) | (((s3 & 0xF) as bv16) << 8) | (((s4 & 3) as bv16) << 12)
  }

  /** The nibbles of header bytes 5..12 are the fields they were written from. */
  lemma HeaderNibbles(page: byte, f: seq<byte>, control: bv32)
    requires |f| == 4 && f[0] < 16 && f[1] < 8 && f[2] < 16 && f[3] < 4
    ensures var h := HeaderBytesFrom(page, f, control);
      && Nib(h[0]) == page % 0x10 && Nib(h[1]) == page / 0x10
      && Nib(h[2]) == f[0] && Nib(h[3]) == f[1] | ControlC4(control) && Nib(h[4]) == f[2]
      && Nib(h[5]) == f[3] | ControlC5C6(control) && Nib(h[6]) == ControlC7C10(control) && Nib(h[7]) == ControlC11C14(control)
  {
    HamDataHam(page % 0x10);
    HamDataHam(page / 0x10);
    HamDataHam(f[0]);
    HamDataHam(f[1] | ControlC4(control));
    HamDataHam(f[2]);
    HamDataHam(f[3] | ControlC5C6(control));
    HamDataHam(ControlC7C10(control));
    HamDataHam(ControlC11C14(control));
  }

  /** The header reads back as the page number, whichever way the subcode is cut. */
  lemma HeaderPageRoundTrip(page: byte, subcode: bv32, control: bv32)
    ensures HeaderPage(HeaderBytesAsWritten(page, subcode, control)) == page
    ensures HeaderPage(HeaderBytes(page, subcode, control)) == page
  {
    HeaderNibbles(page, HeaderSubcodeFieldsAsWritten(subcode), control);
    HeaderNibbles(page, HeaderSubcodeDigits(subcode), control);
  }

  /** The header reads back as the subcode, for every subcode a page can have (mask 0x3F7F), whatever the control bits. */
  lemma HeaderSubcodeRoundTrip(page: byte, subcode: bv32, control: bv32)
    ensures HeaderSubcode(HeaderBytes(page, subcode, control)) == (subcode & 0x3F7F) as bv16
  {
    var f := HeaderSubcodeDigits(subcode);
    var h := HeaderBytes(page, subcode, control);
    var c4, c56 := ControlC4(control), ControlC5C6(control);
    assert Nib(h[2]) == f[0] && Nib(h[3]) == f[1] | c4 && Nib(h[4]) == f[2] && Nib(h[5]) == f[3] | c56 by {
      HeaderNibbles(page, f, control);
    }
    assert c4 & 7 == 0 && c56 & 3 == 0;
    SubcodeDigitsPack(h, subcode, c4, c56);
  }

  lemma SubcodeDigitsPack(h: seq<byte>, subcode: bv32, c4: byte, c56: byte)
    requires |h| == 8 && c4 & 7 == 0 && c56 & 3 == 0
    requires var f := HeaderSubcodeDigits(subcode);
      Nib(h[2]) == f[0] && Nib(h[3]) == f[1] | c4 && Nib(h[4]) == f[2] && Nib(h[5]) == f[3] | c56
    ensures HeaderSubcode(h) == (subcode & 0x3F7F) as bv16
  {
  }

  /**
   * The header reads back as exactly the control bits C4..C14 that the
   * page file's control word maps (mask 0x43FF), whichever way the
   * subcode is cut.
   */
  lemma HeaderControlRoundTrip(page: byte, subcode: bv32, control: bv32)
    ensures HeaderControl(HeaderBytesAsWritten(page, subcode, control)) == control & 0x43FF
    ensures HeaderControl(HeaderBytes(page, subcode, control)) == control & 0x43FF
  {
    ControlFrom(page, HeaderSubcodeFieldsAsWritten(subcode), control);
    ControlFrom(page, HeaderSubcodeDigits(subcode), control);
  }

  lemma ControlFrom(page: byte, f: seq<byte>, control: bv32)
    requires |f| == 4 && f[0] < 16 && f[1] < 8 && f[2] < 16 && f[3] < 4
    ensures HeaderControl(HeaderBytesFrom(page, f, control)) == control & 0x43FF
  {
    HeaderNibbles(page, f, control);
    ControlBitsPack(control, f[1], f[3]);
  }

  lemma ControlBitsPack(control: bv32, f1: byte, f3: byte)
    requires f1 < 8 && f3 < 4
    ensures NibbleControl(f1 | ControlC4(control), f3 | ControlC5C6(control), ControlC7C10(control), ControlC11C14(control))
      == control & 0x43FF
  {
  }

  /**
   * As written, subcode 0x0100 (SC,0100 in a page file) reaches a receiver
   * as 0x0200: bits 7..10 go to S3, so the digits are displaced.
   */
  lemma HeaderSubcodeMisplaced(page: byte, control: bv32)
    ensures HeaderSubcode(HeaderBytesAsWritten(page, 0x0100, control)) == 0x0200
  {
    HeaderNibbles(page, HeaderSubcodeFieldsAsWritten(0x0100), control);
  }

  /**
   * A subcode read back from the 4/3/4/2-bit cut of subcode: bits 0..6 in
   * place, bits 7..10 as the third digit and bits 11..12 as the fourth,
   * with bits 7, 14 and 15 clear.
   */
  predicate SubcodeReadAsWritten(r: bv16, subcode: bv32)
  {
    && r & 0x7F == (subcode & 0x7F) as bv16 && r & 0xC080 == 0
    && (r >> 8) & 0xF == ((subcode >> 7) & 0xF) as bv16
    && (r >> 12) & 3 == ((subcode >> 11) & 3) as bv16
  }

  /** What a receiver reads from the subcode of the header as written. */
  lemma HeaderSubcodeAsWritten(page: byte, subcode: bv32, control: bv32)
    ensures SubcodeReadAsWritten(HeaderSubcode(HeaderBytesAsWritten(page, subcode, control)), subcode)
  {
    var f := HeaderSubcodeFieldsAsWritten(subcode);
    SubcodeFrom(page, f, control);
    FieldsAsWrittenPack(subcode);
  }

  /** The subcode read from header bytes written from fields f is f's digits, whatever the control bits. */
  lemma SubcodeFrom(page: byte, f: seq<byte>, control: bv32)
    requires |f| == 4 && f[0] < 16 && f[1] < 8 && f[2] < 16 && f[3] < 4
    ensures HeaderSubcode(HeaderBytesFrom(page, f, control)) == NibbleSubcode(f[0], f[1], f[2], f[3])
  {
    var h := HeaderBytesFrom(page, f, control);
    var c4, c56 := ControlC4(control), ControlC5C6(control);
    HeaderNibbles(page, f, control);
    assert HeaderSubcode(h) == NibbleSubcode(f[0], f[1] | c4, f[2], f[3] | c56);
    NibbleSubcodeControl(f[0], f[1], f[2], f[3], c4, c56);
  }

  /** The control bits sharing bytes 8 and 10 with S2 and S4 are masked out of the subcode. */
  lemma NibbleSubcodeControl(s1: byte, s2: byte, s3: byte, s4: byte, c4: byte, c56: byte)
    requires s2 < 8 && s4 < 4 && c4 & 7 == 0 && c56 & 3 == 0
    ensures NibbleSubcode(s1, s2 | c4, s3, s4 | c56) == NibbleSubcode(s1, s2, s3, s4)
  {
    assert (s2 | c4) & 7 == s2 && (s4 | c56) & 3 == s4;
  }

  lemma FieldsAsWrittenPack(subcode: bv32)
    ensures var f := HeaderSubcodeFieldsAsWritten(subcode);
      SubcodeReadAsWritten(NibbleSubcode(f[0], f[1], f[2], f[3]), subcode)
  {
  }

  /**
   * The two cuts write the same header when bits 7..13 of the subcode are
   * clear, so every subcode below 0x80 (subcode 0 among them) is sent
   * and read back correctly as written.
   */
  lemma HeaderCutsAgree(page: byte, subcode: bv32, control: bv32)
    requires subcode & 0x3F80 == 0
    ensures HeaderBytesAsWritten(page, subcode, control) == HeaderBytes(page, subcode, control)
    ensures HeaderSubcode(HeaderBytesAsWritten(page, subcode, control)) == (subcode & 0x3F7F) as bv16
  {
    assert HeaderSubcodeFieldsAsWritten(subcode) == HeaderSubcodeDigits(subcode);
    HeaderSubcodeRoundTrip(page, subcode, control);
  }

  /**
   * PacketHeader: a row-0 packet of magazine mag; bytes 5..12 carry page,
   * subcode (cut 4/3/4/2 bits, as written) and control bits, bytes 13..44
   * are left for the caller.
   */
  method PacketHeader(packet: array<byte>, mag: byte, page: byte, subcode: bv32, control: bv32)
    requires packet.Length == PacketSize
    modifies packet
    ensures packet[..5] == Prefix(mag, 0)
    ensures packet[5..13] == HeaderBytesAsWritten(page, subcode, control)
    ensures packet[13..] == old(packet[13..])
  {
    PacketPrefix(packet, mag, 0);
    ghost var framed := packet[..];
    Put(packet, 5, HeaderBytesAsWritten(page, subcode, control));
    assert packet[..5] == framed[..5];
    assert packet[13..] == framed[13..] == framed[5..][8..];
  }

  /**
   * PageEnhancementDataPacket: an X/26, X/28 or M/29 packet with all
   * payload bytes zero except the designation code in byte 5.
   */
  method PageEnhancementDataPacket(packet: array<byte>, mag: int, row: int, designationCode: int)
    requires packet.Length == PacketSize
    modifies packet
    ensures packet[..5] == Prefix(U8(mag), U8(row))
    ensures packet[5] == Ham((designationCode % 16) as byte)
    ensures forall i :: 6 <= i < PacketSize ==> packet[i] == 0
  {
    PacketPrefixValue(packet, U8(mag), U8(row), 0);
    packet[5] := Ham((designationCode % 16) as byte);
  }

  /**
   * SetTriplet: triplet ix (1..13) takes bytes 3ix+3..3ix+5, Hamming 24/18
   * coded; an index below 1 changes nothing.
   */
  method SetTriplet(packet: array<byte>, ix: int, triplet: int)
    requires packet.Length == PacketSize
    requires ix <= 13
    modifies packet
    ensures ix < 1 ==> packet[..] == old(packet[..])
    ensures ix >= 1 ==> packet[3 * ix + 3..3 * ix + 6] == Ham24(U32(triplet))
    ensures ix >= 1 ==> forall i :: 0 <= i < PacketSize && !(3 * ix + 3 <= i < 3 * ix + 6) ==> packet[i] == old(packet[i])
  {
    if ix < 1 {
      return;
    }
    var t := Ham24(U32(triplet));
    packet[ix * 3 + 3] := t[0];
    packet[ix * 3 + 4] := t[1];
    packet[ix * 3 + 5] := t[2];
  }

  /** The initial-page bytes of packet 8/30 (bytes 6..11): page units, tens, then the subcode nibbles with the magazine bits. */
  function InitialPageBytes(page: byte, subcode: bv16, mag: byte): (r: seq<byte>)
    ensures |r| == 6
  {
    [Ham(page & 0xF), Ham((page & 0xF0) >> 4), Ham((subcode & 0xF) as byte),
     Ham(((mag & 1) << 3) | (((subcode >> 4) & 7) as byte)), Ham(((subcode >> 8) & 0xF) as byte),
     Ham(((mag & 6) << 1) | (((subcode >> 12) & 3) as byte))]
  }

  /** The initial page reads back as page, magazine (mod 8) and the subcode bits of mask 0x3F7F. */
  lemma InitialPageRoundTrip(page: byte, subcode: bv16, mag: byte)
    ensures var b := InitialPageBytes(page, subcode, mag);
      && Nib(b[0]) | (Nib(b[1]) << 4) == page
      && NibbleSubcode(Nib(b[2]), Nib(b[3]), Nib(b[4]), Nib(b[5])) == subcode & 0x3F7F
      && ((Nib(b[3]) >> 3) & 1) | (((Nib(b[5]) >> 2) & 3) << 1) == mag & 7
  {
    HamDataHam(page & 0xF);
    HamDataHam((page & 0xF0) >> 4);
    HamDataHam((subcode & 0xF) as byte);
    HamDataHam(((mag & 1) << 3) | (((subcode >> 4) & 7) as byte));
    HamDataHam(((subcode >> 8) & 0xF) as byte);
    HamDataHam(((mag & 6) << 1) | (((subcode >> 12) & 3) as byte));
  }

  /** The bit order of a byte reversed, as packet 8/30 sends the network identification code. */
  function Reverse8(c: byte): byte
  {
    var a := ((c & 0x0F) << 4) | ((c & 0xF0) >> 4);
    var b := ((a & 0x33) << 2) | ((a & 0xCC) >> 2);
    ((b & 0x55) << 1) | ((b & 0xAA) >> 1)
  }

  /** Reversing twice restores the byte, and bit i of the result is bit 7 - i of the input. */
  lemma Reverse8Mirror(c: byte)
    ensures Reverse8(Reverse8(c)) == c
    ensures (Reverse8(c) & 1 == 0) == (c & 0x80 == 0) && (Reverse8(c) & 0x80 == 0) == (c & 1 == 0)
    ensures (Reverse8(c) & 2 == 0) == (c & 0x40 == 0) && (Reverse8(c) & 0x40 == 0) == (c & 2 == 0)
    ensures (Reverse8(c) & 4 == 0) == (c & 0x20 == 0) && (Reverse8(c) & 0x20 == 0) == (c & 4 == 0)
    ensures (Reverse8(c) & 8 == 0) == (c & 0x10 == 0) && (Reverse8(c) & 0x10 == 0) == (c & 8 == 0)
  {
  }

  /** The time offset byte: bits 1..5 the half hours, 0x40 when local time is behind UTC, bits 0 and 7 set. */
  function OffsetByte(offsetHalfHours: int): byte
  {
    var mag := if offsetHalfHours < 0 then -offsetHalfHours else offsetHalfHours;
    (if offsetHalfHours < 0 then 0xC1 else 0x81) | (((mag % 32) as byte) << 1)
  }

  /** The offset is read back from the byte for offsets of up to 31 half hours either way. */
  lemma OffsetByteRoundTrip(offsetHalfHours: int)
    requires -31 <= offsetHalfHours <= 31
    ensures var b := OffsetByte(offsetHalfHours);
      var h := ((b >> 1) & 0x1F) as int;
      b & 0x81 == 0x81 && (if b & 0x40 != 0 then -h else h) == offsetHalfHours
  {
  }

  /**
   * The day-number formula of calculateMJD for a Gregorian date, in C's
   * truncating integer arithmetic, with the month term written as
   * (153 * m + bias) / 5: the source has bias 1, the standard Julian day
   * number formula has bias 2.
   */
  function JulianDayWith(year: int, month: int, day: int, bias: int): int
  {
    var a := CDiv(14 - month, 12);
    var y := year + 4800 - a;
    var m := month + 12 * a - 3;
    day + CDiv(153 * m + bias, 5) + 365 * y + CDiv(y, 4) - CDiv(y, 100) + CDiv(y, 400) - 32045
  }

  /** The day number as calculateMJD computes it. */
  function JulianDay(year: int, month: int, day: int): int
  {
    JulianDayWith(year, month, day, 1)
  }

  /** The Julian day number of a Gregorian date. */
  function TrueJulianDay(year: int, month: int, day: int): int
  {
    JulianDayWith(year, month, day, 2)
  }

  /**
   * A day number minus 2400000.5, stored in a long: truncated toward
   * zero, which is the day number minus 2400001 from the MJD epoch on.
   */
  function MJDOf(jdn: int): (mjd: int)
    ensures jdn >= 2400001 ==> mjd == jdn - 2400001
  {
    var x := jdn - 2400000;
    if x >= 1 then x - 1 else x
  }

  /** calculateMJD as written, with the day number of JulianDay. */
  function CalculateMJD(year: int, month: int, day: int): (mjd: int)
    ensures JulianDay(year, month, day) >= 2400001 ==> mjd == JulianDay(year, month, day) - 2400001
  {
    MJDOf(JulianDay(year, month, day))
  }

  /** The Modified Julian Date of a Gregorian date, from the Julian day number. */
  function ModifiedJulianDay(year: int, month: int, day: int): (mjd: int)
    ensures TrueJulianDay(year, month, day) >= 2400001 ==> mjd == TrueJulianDay(year, month, day) - 2400001
  {
    MJDOf(TrueJulianDay(year, month, day))
  }

  /** The epoch of the Modified Julian Date is day 0 and 2000-01-01 is day 51544, both as written and corrected. */
  lemma MJDReferenceDays()
    ensures CalculateMJD(1858, 11, 17) == 0 && ModifiedJulianDay(1858, 11, 17) == 0
    ensures CalculateMJD(2000, 1, 1) == 51544 && ModifiedJulianDay(2000, 1, 1) == 51544
  {
  }

  /**
   * As written, 2000-03-31 and 2000-04-01 get the same day number, and
   * 2000-04-01 is sent as 51634 instead of its Modified Julian Date 51635.
   */
  lemma CalculateMJDRepeatsDay()
    ensures CalculateMJD(2000, 3, 31) == CalculateMJD(2000, 4, 1) == 51634
    ensures ModifiedJulianDay(2000, 4, 1) == 51635
  {
  }

  /** As written, the day number is one short in February, April and September and right in every other month. */
  lemma CalculateMJDOffByOne(year: int, month: int, day: int)
    requires 1 <= month <= 12 && year >= 0 && day >= 1
    requires TrueJulianDay(year, month, day) >= 2400002
    ensures CalculateMJD(year, month, day) ==
      ModifiedJulianDay(year, month, day) - (if month == 2 || month == 4 || month == 9 then 1 else 0)
  {
    JulianDayForm(year, month, day, 1);
    JulianDayForm(year, month, day, 2);
    MonthOffsetBias(month);
  }

  predicate IsLeap(year: int)
  {
    year % 4 == 0 && (year % 100 != 0 || year % 400 == 0)
  }

  function DaysInMonth(year: int, month: int): int
    requires 1 <= month <= 12
  {
    if month == 2 then (if IsLeap(year) then 29 else 28)
    else if month == 4 || month == 6 || month == 9 || month == 11 then 30
    else 31
  }

  predicate ValidDate(year: int, month: int, day: int)
  {
    1 <= month <= 12 && 1 <= day <= DaysInMonth(year, month)
  }

  /** The calendar day after a valid date. */
  function NextDay(year: int, month: int, day: int): (r: (int, int, int))
    requires ValidDate(year, month, day)
    ensures ValidDate(r.0, r.1, r.2) && r.0 >= year
  {
    if day < DaysInMonth(year, month) then (year, month, day + 1)
    else if month < 12 then (year, month + 1, 1)
    else (year + 1, 1, 1)
  }

  /** The corrected day number rises by exactly one from each date on or after 1858-11-17 to the next. */
  lemma MJDNextDay(year: int, month: int, day: int)
    requires ValidDate(year, month, day)
    requires year >= 0 && TrueJulianDay(year, month, day) >= 2400001
    ensures var (y2, m2, d2) := NextDay(year, month, day);
      ModifiedJulianDay(y2, m2, d2) == ModifiedJulianDay(year, month, day) + 1
  {
    JulianDayNextDay(year, month, day);
  }

  /** The Julian day number rises by exactly one from each date to the next, across months, years and leap days. */
  lemma JulianDayNextDay(year: int, month: int, day: int)
    requires ValidDate(year, month, day)
    requires year >= 0
    ensures var (y2, m2, d2) := NextDay(year, month, day);
      TrueJulianDay(y2, m2, d2) == TrueJulianDay(year, month, day) + 1
  {
    if day < DaysInMonth(year, month) {
      JulianDayInMonth(year, month, day);
    } else if month == 2 {
      JulianDayMarchFirst(year);
    } else if month == 12 {
      JulianDayNewYear(year);
    } else {
      JulianDayNextMonth(year, month);
    }
  }

  lemma JulianDayInMonth(year: int, month: int, day: int)
    requires 1 <= month <= 12 && year >= 0 && day >= 1
    ensures TrueJulianDay(year, month, day + 1) == TrueJulianDay(year, month, day) + 1
  {
    JulianDayForm(year, month, day, 2);
    JulianDayForm(year, month, day + 1, 2);
  }

  /** March 1 follows the last day of February, the 29th exactly in a leap year. */
  lemma JulianDayMarchFirst(year: int)
    requires year >= 0
    ensures TrueJulianDay(year, 3, 1) == TrueJulianDay(year, 2, DaysInMonth(year, 2)) + 1
  {
    JulianDayForm(year, 2, DaysInMonth(year, 2), 2);
    JulianDayForm(year, 3, 1, 2);
    assert MonthOffset(2, 2) == 337 && MonthOffset(3, 2) == 0;
    assert MarchYear(year, 3) == MarchYear(year, 2) + 1;
    LeapTerms(year + 4799);
    LeapShift(year);
  }

  lemma JulianDayNewYear(year: int)
    requires year >= 0
    ensures TrueJulianDay(year + 1, 1, 1) == TrueJulianDay(year, 12, 31) + 1
  {
    JulianDayForm(year, 12, 31, 2);
    JulianDayForm(year + 1, 1, 1, 2);
    assert MonthOffset(12, 2) == 275 && MonthOffset(1, 2) == 306;
  }

  lemma JulianDayNextMonth(year: int, month: int)
    requires 1 <= month <= 11 && month != 2 && year >= 0
    ensures TrueJulianDay(year, month + 1, 1) == TrueJulianDay(year, month, DaysInMonth(year, month)) + 1
  {
    JulianDayForm(year, month, DaysInMonth(year, month), 2);
    JulianDayForm(year, month + 1, 1, 2);
    MonthOffsetStep(month);
  }

  /** 4800 is a multiple of 400, so the March-based year is a leap year exactly when the date's year is. */
  lemma LeapShift(year: int)
    ensures IsLeap(year + 4800) == IsLeap(year)
  {
    var y := year + 4800;
    assert y % 4 == year % 4 by { Shift4800(year, 4); }
    assert y % 100 == year % 100 by { Shift4800(year, 100); }
    assert y % 400 == year % 400 by { Shift4800(year, 400); }
  }

  /** 4800 is a multiple of 4, 100 and 400, so adding it keeps the remainder modulo each. */
  lemma Shift4800(x: int, m: int)
    requires m == 4 || m == 100 || m == 400
    ensures (x + 4800) % m == x % m
  {
  }

  /** With bias 2, from one month to the next (other than out of February or December) MonthOffset rises by the month's length. */
  lemma MonthOffsetStep(month: int)
    requires 1 <= month <= 11 && month != 2
    ensures MonthOffset(month + 1, 2) - MonthOffset(month, 2) == DaysInMonth(0, month)
  {
    MonthOffsetBias(month);
    MonthOffsetBias(month + 1);
  }

  /** The month terms for bias 1 and 2, month by month. */
  lemma MonthOffsetBias(month: int)
    requires 1 <= month <= 12
    ensures MonthOffset(month, 2) == [306, 337, 0, 31, 61, 92, 122, 153, 184, 214, 245, 275][month - 1]
    ensures MonthOffset(month, 1) == MonthOffset(month, 2) - (if month == 2 || month == 4 || month == 9 then 1 else 0)
  {
    if month == 1 {
    } else if month == 2 {
    } else if month == 3 {
    } else if month == 4 {
    } else if month == 5 {
    } else if month == 6 {
    } else if month == 7 {
    } else if month == 8 {
    } else if month == 9 {
    } else if month == 10 {
    } else if month == 11 {
    } else {
    }
  }

  /** The days before month in the March-based year that the day number counts. */
  function MonthOffset(month: int, bias: int): int
  {
    var m := if month <= 2 then month + 9 else month - 3;
    (153 * m + bias) / 5
  }

  /** The year the day number counts from March: January and February belong to the year before. */
  function MarchYear(year: int, month: int): int
  {
    year + 4800 - (if month <= 2 then 1 else 0)
  }

  function LeapDays(y: int): int
  {
    y / 4 - y / 100 + y / 400
  }

  /** For dates from year 0 on, the day number in terms of the March-based year and month. */
  lemma JulianDayForm(year: int, month: int, day: int, bias: int)
    requires 1 <= month <= 12 && year >= 0 && day >= 1
    requires bias == 1 || bias == 2
    ensures var y := MarchYear(year, month);
      JulianDayWith(year, month, day, bias) == day + MonthOffset(month, bias) + 365 * y + LeapDays(y) - 32045
  {
    var a := CDiv(14 - month, 12);
    assert a == if month <= 2 then 1 else 0;
  }

  /** The leap-day terms of JulianDay rise from y to y + 1 by one day exactly when y + 1 is a leap year. */
  lemma LeapTerms(y: int)
    requires y >= 0
    ensures LeapDays(y + 1) - LeapDays(y) == if IsLeap(y + 1) then 1 else 0
  {
    DivSteps(y);
  }

  /** Counting one further, y / d rises by one exactly at a multiple of d. */
  lemma DivSteps(y: int)
    requires y >= 0
    ensures (y + 1) / 4 - y / 4 == if (y + 1) % 4 == 0 then 1 else 0
    ensures (y + 1) / 100 - y / 100 == if (y + 1) % 100 == 0 then 1 else 0
    ensures (y + 1) / 400 - y / 400 == if (y + 1) % 400 == 0 then 1 else 0
  {
  }

  /** The three MJD bytes of packet 8/30: the five decimal digits, each plus one, one per nibble. */
  function MJDBytes(mjd: int): (r: seq<byte>)
    ensures |r| == 3
  {
    DigitBytes(CDiv(CMod(mjd, 100000), 10000) + 1, CDiv(CMod(mjd, 10000), 1000) + 1, CDiv(CMod(mjd, 1000), 100) + 1,
      CDiv(CMod(mjd, 100), 10) + 1, CMod(mjd, 10) + 1)
  }

  /** The first digit in a byte of its own, then two digits per byte, high nibble first. */
  function DigitBytes(e4: int, e3: int, e2: int, e1: int, e0: int): (r: seq<byte>)
    ensures |r| == 3
  {
    [U8(e4), NibblePair(e3, e2), NibblePair(e1, e0)]
  }

  /** The byte (h << 4) | l of two C ints, converted to uint8. */
  function NibblePair(h: int, l: int): byte
  {
    (U8(h) << 4) | U8(l)
  }

  /** The day number a receiver reads from the MJD bytes: each nibble minus one as a decimal digit. */
  function MJDFromBytes(b: seq<byte>): int
    requires |b| == 3
  {
    ((b[0] & 0xF) as int - 1) * 10000 + ((b[1] >> 4) as int - 1) * 1000 + ((b[1] & 0xF) as int - 1) * 100 +
    ((b[2] >> 4) as int - 1) * 10 + ((b[2] & 0xF) as int - 1)
  }

  /** The MJD bytes carry the day number modulo 100000. */
  lemma MJDBytesRoundTrip(mjd: int)
    requires mjd >= 0
    ensures MJDFromBytes(MJDBytes(mjd)) == mjd % 100000
  {
    var e4, e3, e2 := CDiv(CMod(mjd, 100000), 10000) + 1, CDiv(CMod(mjd, 10000), 1000) + 1, CDiv(CMod(mjd, 1000), 100) + 1;
    var e1, e0 := CDiv(CMod(mjd, 100), 10) + 1, CMod(mjd, 10) + 1;
    assert MJDBytes(mjd) == DigitBytes(e4, e3, e2, e1, e0);
    DigitSteps(mjd);
    MJDDigits(mjd);
    PackDigits(e4, e3, e2, e1, e0);
  }

  /** Five digits, each plus one, packed as MJDBytes packs them, read back. */
  lemma PackDigits(e4: int, e3: int, e2: int, e1: int, e0: int)
    requires 1 <= e4 <= 10 && 1 <= e3 <= 10 && 1 <= e2 <= 10 && 1 <= e1 <= 10 && 1 <= e0 <= 10
    ensures MJDFromBytes(DigitBytes(e4, e3, e2, e1, e0)) ==
      (e4 - 1) * 10000 + (e3 - 1) * 1000 + (e2 - 1) * 100 + (e1 - 1) * 10 + (e0 - 1)
  {
    SmallByte(e4);
    DigitPair(e3, e2);
    DigitPair(e1, e0);
  }

  /** For a day number from 0 on, C's / and % in MJDBytes are the Euclidean ones. */
  lemma MJDDigits(mjd: int)
    requires mjd >= 0
    ensures CDiv(CMod(mjd, 100000), 10000) == (mjd % 100000) / 10000
    ensures CDiv(CMod(mjd, 10000), 1000) == (mjd % 10000) / 1000
    ensures CDiv(CMod(mjd, 1000), 100) == (mjd % 1000) / 100
    ensures CDiv(CMod(mjd, 100), 10) == (mjd % 100) / 10
    ensures CMod(mjd, 10) == mjd % 10
  {
  }

  /** The five low decimal digits of a natural number, each below ten. */
  lemma DigitSteps(x: int)
    requires x >= 0
    ensures 0 <= (x % 100000) / 10000 < 10 && x % 100000 == (x % 100000) / 10000 * 10000 + x % 10000
    ensures 0 <= (x % 10000) / 1000 < 10 && x % 10000 == (x % 10000) / 1000 * 1000 + x % 1000
    ensures 0 <= (x % 1000) / 100 < 10 && x % 1000 == (x % 1000) / 100 * 100 + x % 100
    ensures 0 <= (x % 100) / 10 < 10 && x % 100 == (x % 100) / 10 * 10 + x % 10
  {
    ModOfMod5(x);
    ModOfMod4(x);
    ModOfMod3(x);
    ModOfMod2(x);
  }

  /** Reducing modulo 10^(k+1), then modulo 10^k, is reducing modulo 10^k (one lemma per k keeps each proof small). */
  lemma ModOfMod5(x: int)
    requires x >= 0
    ensures (x % 100000) % 10000 == x % 10000
  {
  }

  lemma ModOfMod4(x: int)
    requires x >= 0
    ensures (x % 10000) % 1000 == x % 1000
  {
  }

  lemma ModOfMod3(x: int)
    requires x >= 0
    ensures (x % 1000) % 100 == x % 100
  {
  }

  lemma ModOfMod2(x: int)
    requires x >= 0
    ensures (x % 100) % 10 == x % 10
  {
  }

  lemma SmallByte(v: int)
    requires 0 <= v < 16
    ensures (U8(v) & 0xF) as int == v && U8(v) == v as byte
  {
  }

  /** Two values of 1..10 packed as high and low nibble. */
  lemma DigitPair(h: int, l: int)
    requires 1 <= h <= 10 && 1 <= l <= 10
    ensures (NibblePair(h, l) >> 4) as int == h && (NibblePair(h, l) & 0xF) as int == l
  {
    SmallByte(h);
    SmallByte(l);
    NibblePack(h as byte, l as byte);
  }

  lemma NibblePack(h: byte, l: byte)
    requires h < 16 && l < 16
    ensures ((h << 4) | l) >> 4 == h && ((h << 4) | l) & 0xF == l
  {
  }

  /** n spaces. */
  function Spaces(n: nat): (r: seq<byte>)
    ensures |r| == n
  {
    seq(n, _ => 0x20)
  }

  /** s with the bytes from index at replaced by b. */
  function Splice(s: seq<byte>, at: nat, b: seq<byte>): (r: seq<byte>)
    requires at + |b| <= |s|
    ensures |r| == |s|
  {
    s[..at] + b + s[at + |b|..]
  }

  /** Writes b into the packet from byte at; every other byte is kept. */
  method Put(packet: array<byte>, at: nat, b: seq<byte>)
    requires at + |b| <= packet.Length
    modifies packet
    ensures packet[..] == Splice(old(packet[..]), at, b)
  {
    forall k | at <= k < at + |b| {
      packet[k] := b[k - at];
    }
    assert packet[..] == old(packet[..])[..at] + b + old(packet[..])[at + |b|..];
  }

  /** "VBIT", the status text packet 8/30 carries in bytes 25..28. */
  function StatusText(): (r: seq<byte>)
    ensures |r| == 4
  {
    [0x56, 0x42, 0x49, 0x54]
  }

  /** The format 1 fields: network identification code (each byte bit-reversed), UTC offset and MJD digits. */
  function Format1Fields(nic: bv16, offsetHalfHours: int, mjd: int): (r: seq<byte>)
    ensures |r| == 6
  {
    [Reverse8((nic >> 8) as byte), Reverse8((nic & 0xFF) as byte), OffsetByte(offsetHalfHours)] + MJDBytes(mjd)
  }

  /**
   * Packet 8/30 of format 1 or 2 over a space-filled payload: designation
   * code and initial page in bytes 5..11, the format 1 fields in bytes
   * 12..17, the status text in bytes 25..28.
   */
  function Packet830(format: byte, flag: byte, page: byte, subcode: bv16, mag: byte, nic: bv16,
                     offsetHalfHours: int, mjd: int): (r: seq<byte>)
    requires format == 1 || format == 2
    ensures |r| == PacketSize
  {
    var blank := Prefix(8, 30) + Spaces(40);
    var head := Splice(blank, 5, [Ham((format & 0x02) | (flag & 0x01))] + InitialPageBytes(page, subcode, mag));
    var fields := if format == 1 then Splice(head, 12, Format1Fields(nic, offsetHalfHours, mjd)) else head;
    Splice(fields, 25, StatusText())
  }

  /**
   * The layout of packet 8/30 (section 9.8): MRAG 8/30, designation code
   * (format bit and multiplexed flag), initial page; for format 1 the
   * network identification code, UTC offset and MJD, spaces up to byte
   * 24; for format 2 spaces in bytes 12..24; the status text; spaces to
   * the end.
   */
  lemma Packet830Layout(format: byte, flag: byte, page: byte, subcode: bv16, mag: byte, nic: bv16,
                        offsetHalfHours: int, mjd: int)
    requires format == 1 || format == 2
    ensures var r := Packet830(format, flag, page, subcode, mag, nic, offsetHalfHours, mjd);
      && r[..5] == Prefix(8, 30)
      && r[5] == Ham((format & 0x02) | (flag & 0x01))
      && r[6..12] == InitialPageBytes(page, subcode, mag)
      && (format == 1 ==> r[12..18] == Format1Fields(nic, offsetHalfHours, mjd) && r[18..25] == Spaces(7))
      && (format == 2 ==> r[12..25] == Spaces(13))
      && r[25..29] == StatusText()
      && r[29..] == Spaces(16)
  {
    var blank := Prefix(8, 30) + Spaces(40);
    var pg := [Ham((format & 0x02) | (flag & 0x01))] + InitialPageBytes(page, subcode, mag);
    var head := Splice(blank, 5, pg);
    assert head[..5] == Prefix(8, 30) && head[5..12] == pg && head[12..] == Spaces(33);
    var fields := if format == 1 then Splice(head, 12, Format1Fields(nic, offsetHalfHours, mjd)) else head;
    assert fields[..12] == head[..12];
    assert format == 1 ==> fields[12..18] == Format1Fields(nic, offsetHalfHours, mjd) && fields[18..] == Spaces(27);
    assert format == 2 ==> fields[12..] == Spaces(33);
    var r := Splice(fields, 25, StatusText());
    assert r[..25] == fields[..25] && r[25..29] == StatusText() && r[29..] == fields[29..];
    assert r[..5] == fields[..5] == head[..5];
    assert r[6..12] == fields[6..12] == head[6..12] == pg[1..];
  }

  /**
   * Packet30: format 1 or 2 gives packet 8/30 with the initial page from
   * the settings (whose subcode the source shifts right by 12 in place);
   * format 1 adds the network identification code, the UTC offset and the
   * day number of calculateMJD as written; any other format gives the all-zero packet. The clock enters as
   * the UTC offset in half hours and the UTC date.
   */
  method Packet30(packet: array<byte>, format: byte, cfg: Settings.Config, offsetHalfHours: int, year: int, month: int, day: int)
    requires packet.Length == PacketSize
    requires packet != cfg.headerTemplate
    modifies packet, cfg
    ensures format != 1 && format != 2 ==> (forall i :: 0 <= i < PacketSize ==> packet[i] == 0) && cfg.initialSubcode == old(cfg.initialSubcode)
    ensures format == 1 || format == 2 ==>
      && packet[..] == Packet830(format, old(cfg.multiplexedSignalFlag), old(cfg.initialPage), old(cfg.initialSubcode),
                                 old(cfg.initialMag), old(cfg.networkIdentificationCode), offsetHalfHours,
                                 CalculateMJD(year, month, day))
      && cfg.initialSubcode == old(cfg.initialSubcode) >> 12
    ensures cfg.initialPage == old(cfg.initialPage) && cfg.initialMag == old(cfg.initialMag)
    ensures cfg.multiplexedSignalFlag == old(cfg.multiplexedSignalFlag)
    ensures cfg.networkIdentificationCode == old(cfg.networkIdentificationCode)
    ensures cfg.configErrorString == old(cfg.configErrorString)
  {
    if !(format == 1 || format == 2) {
      PacketClear(packet, 0);
      return;
    }
    var flag, page, subcode, mag, nic :=
      cfg.multiplexedSignalFlag, cfg.initialPage, cfg.initialSubcode, cfg.initialMag, cfg.networkIdentificationCode;
    var mjd := CalculateMJD(year, month, day);
    PacketPrefixValue(packet, 8, 30, 0x20);
    assert packet[..] == Prefix(8, 30) + Spaces(40);
    // The six initial page bytes, which the source writes between its three shifts of the subcode.
    Put(packet, 5, [Ham((format & 0x02) | (flag & 0x01))] + InitialPageBytes(page, subcode, mag));
    cfg.initialSubcode := cfg.initialSubcode >> 4;
    cfg.initialSubcode := cfg.initialSubcode >> 4;
    cfg.initialSubcode := cfg.initialSubcode >> 4;
    if format == 1 {
      Put(packet, 12, Format1Fields(nic, offsetHalfHours, mjd));
    }
    Put(packet, 25, StatusText());
  }
}
