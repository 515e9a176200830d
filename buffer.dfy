/**
 * The packet ring buffers of buffer.c: one per magazine, one for the
 * subtitle cache and one for the output stream. A buffer of count slots
 * holds at most count - 1 packets (head == tail means empty). bufferMove
 * carries one packet from a magazine buffer to the stream buffer and, when
 * it is a page header, writes the header template into it with the page
 * number and the clock filled in.
 */
module Buffer {
  import opened Tables
  import opened CString
  import opened Packet
  import Settings

  /** The return codes of buffer.h. */
  const BufferOk: byte := 0
  const BufferFull: byte := 1
  const BufferEmpty: byte := 2
  const BufferHeader: byte := 3

  /** The slot i places after tail in a ring of count slots. */
  function Ring(tail: int, i: int, count: int): (k: int)
    requires 0 <= tail < count && 0 <= i < count
    ensures 0 <= k < count
  {
    if tail + i < count then tail + i else tail + i - count
  }

  /** The slot after x in a ring of count slots. */
  function Next(x: int, count: int): (y: int)
    requires 0 <= x < count
    ensures 0 <= y < count
  {
    if x + 1 == count then 0 else x + 1
  }

  /** The source steps head and tail with (x + 1) % count. */
  lemma NextIsMod(x: int, count: int)
    requires 0 <= x < count
    ensures (x + 1) % count == Next(x, count)
  {
  }

  /** The number of packets from tail up to head in a ring of count slots. */
  function Distance(tail: int, head: int, count: int): (n: int)
    requires 0 <= tail < count && 0 <= head < count
    ensures 0 <= n < count
    ensures n == 0 <==> head == tail
  {
    if head >= tail then head - tail else count - tail + head
  }

  /** Packet slot k of the flat storage s. */
  function Slot(s: seq<byte>, k: int): (p: seq<byte>)
    requires 0 <= k && (k + 1) * PacketSize <= |s|
    ensures |p| == PacketSize
  {
    s[k * PacketSize .. k * PacketSize + PacketSize]
  }

  /**
   * Storage s of count slots, read from tail to head, holds the packets
   * contents, oldest first.
   */
  ghost predicate Holds(s: seq<byte>, count: int, head: int, tail: int, contents: seq<seq<byte>>)
  {
    && 1 <= count <= 255
    && |s| == count * PacketSize
    && 0 <= head < count && 0 <= tail < count
    && |contents| == Distance(tail, head, count)
    && forall i :: 0 <= i < |contents| ==> contents[i] == Slot(s, Ring(tail, i, count))
  }

  /** Storage that differs only inside slot h keeps every other slot. */
  lemma SlotFrame(s: seq<byte>, t: seq<byte>, h: int, k: int)
    requires |s| == |t| && 0 <= h && 0 <= k && (h + 1) * PacketSize <= |s| && (k + 1) * PacketSize <= |s|
    requires forall j :: 0 <= j < |s| && !(h * PacketSize <= j < h * PacketSize + PacketSize) ==> s[j] == t[j]
    requires k != h
    ensures Slot(s, k) == Slot(t, k)
  {
    assert k < h ==> k * PacketSize + PacketSize <= h * PacketSize;
    assert h < k ==> h * PacketSize + PacketSize <= k * PacketSize;
  }

  /** The slots holding packets are the ones before head, so writing slot head and stepping head appends a packet. */
  lemma HoldsPut(s: seq<byte>, t: seq<byte>, count: int, head: int, tail: int, contents: seq<seq<byte>>, packet: seq<byte>)
    requires Holds(s, count, head, tail, contents) && |contents| < count - 1
    requires |t| == |s| && Slot(t, head) == packet
    requires forall j :: 0 <= j < |s| && !(head * PacketSize <= j < head * PacketSize + PacketSize) ==> s[j] == t[j]
    ensures Holds(t, count, Next(head, count), tail, contents + [packet])
  {
    var c := contents + [packet];
    forall i | 0 <= i < |c|
      ensures c[i] == Slot(t, Ring(tail, i, count))
    {
      if i < |contents| {
        SlotFrame(s, t, head, Ring(tail, i, count));
      }
    }
  }

  /** The oldest packet is in slot tail; stepping tail drops it. */
  lemma HoldsGet(s: seq<byte>, count: int, head: int, tail: int, contents: seq<seq<byte>>)
    requires Holds(s, count, head, tail, contents) && contents != []
    ensures contents[0] == Slot(s, tail)
    ensures Holds(s, count, head, Next(tail, count), contents[1..])
  {
    var t1 := Next(tail, count);
    forall i | 0 <= i < |contents| - 1
      ensures contents[1..][i] == Slot(s, Ring(t1, i, count))
    {
      assert Ring(tail, i + 1, count) == Ring(t1, i, count);
    }
  }

  /** bufferLevel as written: the wrapped branch returns count - head + tail, truncated to uint8_t. */
  function LevelAsWritten(count: int, head: int, tail: int): (r: byte)
    ensures head >= tail ==> r == U8(head - tail)
    ensures head < tail ==> r == U8(count - head + tail)
  {
    if head >= tail then U8(head - tail) else U8(count - head + tail)
  }

  /**
   * A 17-slot magazine buffer whose head has wrapped to slot 1 while its
   * tail is at slot 16 holds two packets; as written, bufferLevel says 32.
   */
  lemma LevelAsWrittenMiscounts()
    ensures Distance(16, 1, 17) == 2
    ensures LevelAsWritten(17, 1, 16) == 32
  {
  }

  /**
   * Against the packets held (Distance): as written the level is that
   * number, as a byte, while head has not wrapped below tail, and
   * otherwise that number plus twice the gap from head to tail, as a byte.
   */
  lemma LevelAsWrittenDistance(count: int, head: int, tail: int)
    requires 1 <= count <= 255 && 0 <= head < count && 0 <= tail < count
    ensures head >= tail ==> LevelAsWritten(count, head, tail) == U8(Distance(tail, head, count))
    ensures head < tail ==> LevelAsWritten(count, head, tail) == U8(Distance(tail, head, count) + 2 * (tail - head))
  {
  }

  /**
   * The corrected count: a put (head steps on) adds one packet and a get
   * (tail steps on) removes one, so Distance is the number of packets held.
   */
  lemma DistanceCountsPackets(count: int, head: int, tail: int)
    requires 1 <= count && 0 <= head < count && 0 <= tail < count
    ensures Distance(tail, head, count) < count - 1 ==> Distance(tail, Next(head, count), count) == Distance(tail, head, count) + 1
    ensures head != tail ==> Distance(Next(tail, count), head, count) == Distance(tail, head, count) - 1
    ensures Distance(tail, tail, count) == 0
  {
  }

  /**
   * A bufferpacket control block over storage of count packet slots. The
   * packets it holds, oldest first, are contents: slot tail, then the
   * following slots round the ring up to head.
   */
  class PacketBuffer {
    var pkt: array<byte>
    var count: int
    var head: int
    var tail: int
    ghost var contents: seq<seq<byte>>

    ghost predicate Valid()
      reads this, pkt
    {
      Holds(pkt[..], count, head, tail, contents)
    }

    /** bufferInit: an empty buffer over the caller's storage of len slots. */
    constructor Init(buf: array<byte>, len: byte)
      requires 1 <= len && buf.Length == len as int * PacketSize
      ensures Valid() && pkt == buf && count == len as int
      ensures contents == []
    {
      count := len as int;
      pkt := buf;
      head := 0;
      tail := 0;
      contents := [];
    }

    /** bufferIsEmpty: BUFFER_EMPTY exactly when no packet is held. */
    method IsEmpty() returns (r: byte)
      requires Valid()
      ensures r == if contents == [] then BufferEmpty else BufferOk
    {
      if tail == head {
        return BufferEmpty;
      }
      return BufferOk;
    }

    /** bufferIsFull: BUFFER_FULL exactly when count - 1 packets are held. */
    method IsFull() returns (r: byte)
      requires Valid()
      ensures r == if |contents| == count - 1 then BufferFull else BufferOk
    {
      NextIsMod(head, count);
      if (head + 1) % count == tail {
        return BufferFull;
      }
      return BufferOk;
    }

    /**
     * bufferLevel as written: the number of packets held while head has
     * not wrapped below tail, count - head + tail (as uint8_t) after.
     */
    method Level() returns (r: byte)
      requires Valid()
      ensures r == LevelAsWritten(count, head, tail)
      ensures head >= tail ==> r == U8(|contents|)
      ensures head < tail ==> r == U8(|contents| + 2 * (tail - head))
    {
      LevelAsWrittenDistance(count, head, tail);
      if head >= tail {
        return U8(head - tail);
      }
      return U8(count - head + tail);
    }

    /** bufferPut: a copy of the packet joins the end of the queue unless the buffer is full. */
    method Put(packet: array<byte>) returns (r: byte)
      requires Valid() && packet.Length == PacketSize && packet != pkt
      modifies this, pkt
      ensures Valid() && pkt == old(pkt) && count == old(count)
      ensures old(|contents|) == count - 1 ==> r == BufferFull && contents == old(contents)
      ensures old(|contents|) < count - 1 ==> r == BufferOk && contents == old(contents) + [packet[..]]
    {
      var full := IsFull();
      if full == BufferFull {
        return BufferFull;
      }
      ghost var before := pkt[..];
      var at := head * PacketSize;
      forall i | 0 <= i < PacketSize {
        pkt[at + i] := packet[i];
      }
      assert Slot(pkt[..], head) == packet[..];
      HoldsPut(before, pkt[..], count, head, tail, contents, packet[..]);
      contents := contents + [packet[..]];
      NextIsMod(head, count);
      head := (head + 1) % count;
      return BufferOk;
    }

    /** bufferGet: the oldest packet is copied out and leaves the queue, unless the buffer is empty. */
    method Get(packet: array<byte>) returns (r: byte)
      requires Valid() && packet.Length == PacketSize && packet != pkt
      modifies this, packet
      ensures Valid() && pkt == old(pkt) && count == old(count)
      ensures old(contents) == [] ==> r == BufferEmpty && contents == old(contents) && packet[..] == old(packet[..])
      ensures old(contents) != [] ==> r == BufferOk && packet[..] == old(contents[0]) && contents == old(contents[1..])
    {
      var empty := IsEmpty();
      if empty == BufferEmpty {
        return BufferEmpty;
      }
      ghost var s := pkt[..];
      HoldsGet(s, count, head, tail, contents);
      var at := tail * PacketSize;
      forall i | 0 <= i < PacketSize {
        packet[i] := pkt[at + i];
      }
      assert pkt[..] == s;
      assert packet[..] == Slot(s, tail);
      contents := contents[1..];
      NextIsMod(tail, count);
      tail := (tail + 1) % count;
      return BufferOk;
    }
  }

  /** The first MRAG and row bytes decode to row 0, as bufferMove tests it with uint8_t arithmetic. */
  predicate IsHeader(p: seq<byte>)
    requires |p| >= 5
  {
    RowIsZero(p[3], p[4])
  }

  /** The row test on the two MRAG bytes: (magazine nibble & 8) + row nibble, in uint8_t, is 0. */
  predicate RowIsZero(b3: byte, b4: byte)
  {
    (Deham(b3 & 0x7F) & 0x08) + Deham(b4 & 0x7F) == 0
  }

  /** A packet framed by PacketPrefix is taken for a header exactly when its row is 0 modulo 32. */
  lemma IsHeaderPrefix(p: seq<byte>, mag: byte, row: byte)
    requires |p| >= 5 && p[..5] == Prefix(mag, row)
    ensures IsHeader(p) <==> row % 32 == 0
  {
    assert p[3] == Mrag(mag, row)[0] && p[4] == Mrag(mag, row)[1];
    DehamHam(mag % 8 + ((row % 2) << 3));
    DehamHam((row >> 1) & 0x0F);
  }

  /** The source's conversion of a nibble to a hexadecimal digit character. */
  function HexDigit(x: byte): byte
  {
    var c := (x & 0x0F) + 0x30;
    if c > 0x39 then c - 0x30 - 10 + 0x41 else c
  }

  /** It is the usual upper-case hexadecimal digit. */
  lemma HexDigitIsDigitChar(x: byte)
    requires x < 16
    ensures HexDigit(x) == DigitChar(x as int)
  {
  }

  /**
   * What "%%#" becomes: the magazine (MRAG magazine 0 shown as 8), then
   * the page tens and units read back from bytes 6 and 5.
   */
  function PageDigits(b3: byte, b5: byte, b6: byte): (d: Line)
    ensures |d| == 3
  {
    var a := Deham(b3 & 0x7F);
    var mag := if a == 0 then 8 else a;
    [(mag & 0x0F) + 0x30, HexDigit(Deham(b6 & 0x7F)), HexDigit(Deham(b5 & 0x7F))]
  }

  /** The character of a magazine number: 1..8, magazine 8 being sent as 0. */
  function MagDigit(mag: byte): byte
  {
    if mag % 8 == 0 then 0x38 else 0x30 + mag % 8
  }

  /** In a header PacketHeader built, "%%#" shows the magazine and the page number in hexadecimal. */
  lemma HeaderPageDigits(p: seq<byte>, mag: byte, page: byte, subcode: bv32, control: bv32)
    requires |p| == PacketSize && p[..5] == Prefix(mag, 0) && p[5..13] == HeaderBytesAsWritten(page, subcode, control)
    ensures PageDigits(p[3], p[5], p[6]) == [MagDigit(mag), HexDigit(page / 16), HexDigit(page % 16)]
  {
    assert p[3] == Prefix(mag, 0)[3] == Ham(mag % 8);
    var h := HeaderBytesAsWritten(page, subcode, control);
    assert p[5] == h[0] && p[6] == h[1];
    assert h[0] == Ham(page % 0x10) && h[1] == Ham(page / 0x10);
    PageDigitsFromCodewords(p, mag % 8, page / 0x10, page % 0x10);
  }

  lemma PageDigitsFromCodewords(p: seq<byte>, m: byte, tens: byte, units: byte)
    requires |p| == PacketSize && m < 8 && tens < 16 && units < 16
    requires p[3] == Ham(m) && p[6] == Ham(tens) && p[5] == Ham(units)
    ensures PageDigits(p[3], p[5], p[6]) == [MagDigit(m), HexDigit(tens), HexDigit(units)]
  {
    DehamHam(m);
    DehamHam(tens);
    DehamHam(units);
  }

  /** The strftime outputs bufferMove copies from: %a, %b, %d, %e, %m, %g, %H, %M and %S. */
  datatype Clock = Clock(weekday: Line, monthName: Line, day: Line, dayNoPad: Line, month: Line,
                         year: Line, hour: Line, minute: Line, second: Line)

  /** The day and month names give three bytes, the numbers two. */
  predicate ClockFits(c: Clock)
  {
    && |c.weekday| == 3 && |c.monthName| == 3
    && |c.day| == 2 && |c.dayNoPad| == 2 && |c.month| == 2 && |c.year| == 2
    && |c.hour| == 2 && |c.minute| == 2 && |c.second| == 2
  }

  /** The template fields, in the order bufferMove substitutes them. */
  const PageToken: Line := [0x25, 0x25, 0x23]
  const WeekdayToken: Line := [0x25, 0x25, 0x61]
  const MonthNameToken: Line := [0x25, 0x25, 0x62]
  const DayToken: Line := [0x25, 0x64]
  const DayNoPadToken: Line := [0x25, 0x65]
  const MonthToken: Line := [0x25, 0x6D]
  const YearToken: Line := [0x25, 0x67]
  const HourToken: Line := [0x25, 0x48]
  const MinuteToken: Line := [0x25, 0x4D]
  const SecondToken: Line := [0x25, 0x53]

  /**
   * One substitution: the first occurrence of tok before any NUL is
   * overwritten by rep, which has the same length; without one, nothing
   * changes.
   */
  function Substitute(w: Line, tok: Line, rep: Line): (r: Line)
    requires |tok| > 0 && 0 !in tok && |rep| == |tok|
    ensures |r| == |w|
  {
    var j := Find(w, tok);
    if j < 0 then w else w[..j] + rep + w[j + |tok|..]
  }

  /** Substitution writes rep over the first occurrence of tok and keeps every other byte. */
  lemma SubstituteWrites(w: Line, tok: Line, rep: Line)
    requires |tok| > 0 && 0 !in tok && |rep| == |tok|
    ensures var j := Find(w, tok); var r := Substitute(w, tok, rep);
      && (j < 0 ==> r == w)
      && (j >= 0 ==> r[j..j + |tok|] == rep && forall k :: 0 <= k < |w| && !(j <= k < j + |tok|) ==> r[k] == w[k])
  {
    var j := Find(w, tok);
    if j >= 0 {
      var r := Substitute(w, tok, rep);
      assert r == w[..j] + rep + w[j + |tok|..];
      forall k | 0 <= k < |w| && !(j <= k < j + |tok|)
        ensures r[k] == w[k]
      {
        if k >= j + |tok| {
          assert r[k] == w[j + |tok|..][k - j - |tok|];
        }
      }
    }
  }

  /** A window without a % sign holds no template field, so no substitution touches it. */
  lemma SubstituteNoField(w: Line, tok: Line, rep: Line)
    requires |tok| > 0 && 0 !in tok && |rep| == |tok| && tok[0] == 0x25 && 0x25 !in w
    ensures Substitute(w, tok, rep) == w
  {
  }

  /** Every byte with its low seven bits kept and odd parity set, as ParTab gives it. */
  function WithParity(w: Line): (r: Line)
    ensures |r| == |w|
    ensures forall i :: 0 <= i < |r| ==> OddParity(r[i]) && r[i] & 0x7F == w[i] & 0x7F
  {
    seq(|w|, i requires 0 <= i < |w| => ParTab(w[i] & 0x7F))
  }

  /** The ten substitutions, one after another, give Substituted. */
  lemma SubstitutedSteps(digits: Line, template: Line, clock: Clock,
                         w0: Line, w1: Line, w2: Line, w3: Line, w4: Line, w5: Line, w6: Line, w7: Line, w8: Line, w9: Line, w: Line)
    requires |digits| == 3 && ClockFits(clock) && w0 == template
    requires w1 == Substitute(w0, PageToken, digits)
    requires w2 == Substitute(w1, WeekdayToken, clock.weekday)
    requires w3 == Substitute(w2, MonthNameToken, clock.monthName)
    requires w4 == Substitute(w3, DayToken, clock.day)
    requires w5 == Substitute(w4, DayNoPadToken, clock.dayNoPad)
    requires w6 == Substitute(w5, MonthToken, clock.month)
    requires w7 == Substitute(w6, YearToken, clock.year)
    requires w8 == Substitute(w7, HourToken, clock.hour)
    requires w9 == Substitute(w8, MinuteToken, clock.minute)
    requires w == Substitute(w9, SecondToken, clock.second)
    ensures w == Substituted(digits, template, clock)
  {
  }

  /** The header text after the ten substitutions, before parity. */
  function Substituted(digits: Line, template: Line, clock: Clock): (w: Line)
    requires |digits| == 3 && ClockFits(clock)
    ensures |w| == |template|
  {
    var w1 := Substitute(template, PageToken, digits);
    var w2 := Substitute(w1, WeekdayToken, clock.weekday);
    var w3 := Substitute(w2, MonthNameToken, clock.monthName);
    var w4 := Substitute(w3, DayToken, clock.day);
    var w5 := Substitute(w4, DayNoPadToken, clock.dayNoPad);
    var w6 := Substitute(w5, MonthToken, clock.month);
    var w7 := Substitute(w6, YearToken, clock.year);
    var w8 := Substitute(w7, HourToken, clock.hour);
    var w9 := Substitute(w8, MinuteToken, clock.minute);
    Substitute(w9, SecondToken, clock.second)
  }

  /** Bytes 13..44 of a header bufferMove sends: the template with its fields filled in, every byte with odd parity. */
  function HeaderText(p: seq<byte>, template: Line, clock: Clock): (r: Line)
    requires |p| == PacketSize && ClockFits(clock)
    ensures |r| == |template|
    ensures forall i :: 0 <= i < |r| ==> OddParity(r[i])
  {
    WithParity(Substituted(PageDigits(p[3], p[5], p[6]), template, clock))
  }

  /** A template without % signs reaches the header unchanged but for parity. */
  lemma PlainTemplateKept(p: seq<byte>, template: Line, clock: Clock)
    requires |p| == PacketSize && ClockFits(clock) && 0x25 !in template
    ensures HeaderText(p, template, clock) == WithParity(template)
  {
    SubstituteNoField(template, PageToken, PageDigits(p[3], p[5], p[6]));
    SubstituteNoField(template, WeekdayToken, clock.weekday);
    SubstituteNoField(template, MonthNameToken, clock.monthName);
    SubstituteNoField(template, DayToken, clock.day);
    SubstituteNoField(template, DayNoPadToken, clock.dayNoPad);
    SubstituteNoField(template, MonthToken, clock.month);
    SubstituteNoField(template, YearToken, clock.year);
    SubstituteNoField(template, HourToken, clock.hour);
    SubstituteNoField(template, MinuteToken, clock.minute);
    SubstituteNoField(template, SecondToken, clock.second);
    var t := template;
    SubstitutedSteps(PageDigits(p[3], p[5], p[6]), t, clock, t, t, t, t, t, t, t, t, t, t, t);
  }

  /** The packet bufferMove passes on: a header gets the template text, any other packet goes unchanged. */
  function Delivered(p: seq<byte>, template: Line, clock: Clock): (r: seq<byte>)
    requires |p| == PacketSize && ClockFits(clock) && |template| == 32
    ensures |r| == PacketSize && r[..13] == p[..13]
    ensures !IsHeader(p) ==> r == p
  {
    if IsHeader(p) then p[..13] + HeaderText(p, template, clock) else p
  }

  /** One strstr substitution in bytes 13..44 of pkt. */
  method SubstituteField(pkt: array<byte>, tok: Line, rep: Line)
    requires pkt.Length == PacketSize && |tok| > 0 && 0 !in tok && |rep| == |tok|
    modifies pkt
    ensures pkt[..13] == old(pkt[..13])
    ensures pkt[13..] == Substitute(old(pkt[13..]), tok, rep)
  {
    var j := Find(pkt[13..], tok);
    if j >= 0 {
      forall k | 0 <= k < |rep| {
        pkt[13 + j + k] := rep[k];
      }
      assert pkt[13..] == old(pkt[13..])[..j] + rep + old(pkt[13..])[j + |tok|..];
    }
  }

  /**
   * The header formatting of bufferMove: the 32 template bytes go to
   * bytes 13..44, the fields are substituted one after another, then
   * every byte from 13 on gets odd parity.
   */
  method FormatHeader(pkt: array<byte>, template: array<byte>, clock: Clock)
    requires pkt.Length == PacketSize && template.Length >= 32 && pkt != template && ClockFits(clock)
    modifies pkt
    ensures pkt[..13] == old(pkt[..13])
    ensures pkt[13..] == HeaderText(old(pkt[..]), template[..32], clock)
  {
    var i := 0;
    while i < 32
      invariant 0 <= i <= 32
      invariant pkt[..13] == old(pkt[..13])
      invariant pkt[13..13 + i] == template[..i]
    {
      pkt[13 + i] := template[i];
      i := i + 1;
    }
    assert pkt[13..] == template[..32];
    ghost var p0 := old(pkt[..]);
    assert pkt[3] == p0[3] && pkt[5] == p0[5] && pkt[6] == p0[6] by {
      assert pkt[..13] == p0[..13];
    }
    SubstituteFields(pkt, PageDigits(pkt[3], pkt[5], pkt[6]), clock);
    ghost var before := pkt[..];
    Parity(pkt, 13);
    WithParityWindow(before, pkt[..]);
  }

  /** The ten strstr substitutions of bufferMove on bytes 13..44, "%%#" becoming digits. */
  method SubstituteFields(pkt: array<byte>, digits: Line, clock: Clock)
    requires pkt.Length == PacketSize && |digits| == 3 && ClockFits(clock)
    modifies pkt
    ensures pkt[..13] == old(pkt[..13])
    ensures pkt[13..] == Substituted(digits, old(pkt[13..]), clock)
  {
    ghost var w0 := pkt[13..];
    SubstituteField(pkt, PageToken, digits);
    ghost var w1 := pkt[13..];
    SubstituteField(pkt, WeekdayToken, clock.weekday);
    ghost var w2 := pkt[13..];
    SubstituteField(pkt, MonthNameToken, clock.monthName);
    ghost var w3 := pkt[13..];
    SubstituteField(pkt, DayToken, clock.day);
    ghost var w4 := pkt[13..];
    SubstituteField(pkt, DayNoPadToken, clock.dayNoPad);
    ghost var w5 := pkt[13..];
    SubstituteField(pkt, MonthToken, clock.month);
    ghost var w6 := pkt[13..];
    SubstituteField(pkt, YearToken, clock.year);
    ghost var w7 := pkt[13..];
    SubstituteField(pkt, HourToken, clock.hour);
    ghost var w8 := pkt[13..];
    SubstituteField(pkt, MinuteToken, clock.minute);
    ghost var w9 := pkt[13..];
    SubstituteField(pkt, SecondToken, clock.second);
    SubstitutedSteps(digits, w0, clock, w0, w1, w2, w3, w4, w5, w6, w7, w8, w9, pkt[13..]);
  }

  /** Parity from byte 13 on turns the window into its parity form. */
  lemma WithParityWindow(before: seq<byte>, after: seq<byte>)
    requires |before| == |after| == PacketSize
    requires forall i :: 13 <= i < PacketSize ==> after[i] == ParTab(before[i] & 0x7F)
    ensures after[13..] == WithParity(before[13..])
  {
  }

  /**
   * bufferMove: nothing moves when dest is full (BUFFER_FULL) or src is
   * empty (BUFFER_EMPTY); otherwise the oldest packet of src leaves it and
   * joins dest, formatted from the header template when it is a header
   * (BUFFER_HEADER, else BUFFER_OK). The clock is the local time read at
   * the move.
   */
  method Move(dest: PacketBuffer, src: PacketBuffer, cfg: Settings.Config, clock: Clock) returns (code: byte)
    requires dest.Valid() && src.Valid() && cfg.Valid() && ClockFits(clock)
    requires dest != src && dest.pkt != src.pkt
    modifies dest, dest.pkt, src
    ensures dest.Valid() && src.Valid()
    ensures dest.pkt == old(dest.pkt) && dest.count == old(dest.count)
    ensures src.pkt == old(src.pkt) && src.count == old(src.count)
    ensures old(|dest.contents|) == dest.count - 1 ==>
      code == BufferFull && dest.contents == old(dest.contents) && src.contents == old(src.contents)
    ensures old(|dest.contents|) < dest.count - 1 && old(src.contents) == [] ==>
      code == BufferEmpty && dest.contents == old(dest.contents) && src.contents == old(src.contents)
    ensures old(|dest.contents|) < dest.count - 1 && old(src.contents) != [] ==>
      var p := old(src.contents[0]);
      && code == (if IsHeader(p) then BufferHeader else BufferOk)
      && src.contents == old(src.contents[1..])
      && dest.contents == old(dest.contents) + [Delivered(p, old(cfg.headerTemplate[..Settings.TemplateSize]), clock)]
  {
    var full := dest.IsFull();
    if full == BufferFull {
      return BufferFull;
    }
    var pkt := new byte[PacketSize];
    var got := src.Get(pkt);
    if got == BufferEmpty {
      return BufferEmpty;
    }
    code := FormatIfHeader(pkt, cfg.headerTemplate, clock);
    var _ := dest.Put(pkt);
  }

  /** The part of bufferMove between the get and the put: a header is formatted, any other packet is left alone. */
  method FormatIfHeader(pkt: array<byte>, template: array<byte>, clock: Clock) returns (code: byte)
    requires pkt.Length == PacketSize && template.Length >= 32 && pkt != template && ClockFits(clock)
    modifies pkt
    ensures code == (if IsHeader(old(pkt[..])) then BufferHeader else BufferOk)
    ensures pkt[..] == Delivered(old(pkt[..]), template[..32], clock)
  {
    ghost var p := pkt[..];
    var a := Deham(pkt[3] & 0x7F);
    var b := Deham(pkt[4] & 0x7F);
    var row := (a & 0x08) + b;
    assert row == 0 <==> IsHeader(p) by {
      assert p[3] == pkt[3] && p[4] == pkt[4];
    }
    if row == 0 {
      FormatHeader(pkt, template, clock);
      assert pkt[..] == pkt[..13] + pkt[13..];
      return BufferHeader;
    }
    return BufferOk;
  }
}
