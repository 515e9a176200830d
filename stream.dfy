/**
 * The Stream thread of stream.c: it moves packets from the eight magazine
 * buffers into the stream buffer. Each magazine has a priority countdown,
 * and the next magazine served is the first one whose countdown has run
 * out. The thread counts lines and fields, so that a magazine that has
 * just sent a page header waits for the next field.
 */
module Streams {
  import opened Tables
  import opened CString
  import opened Packet
  import opened Buffer
  import Settings
  import Mag

  /** STREAMS: the number of magazine buffers the scheduler draws from. */
  const Streams := 8

  /** STREAMBUFFERSIZE of stream.h: the number of slots in the stream buffer. */
  const StreamBufferSize: byte := 20

  /**
   * The priorities of stream.c, smaller meaning more often; index 0 is
   * magazine 8. The initialiser has a ninth value, which an eight-entry
   * array cannot hold, so it is dropped.
   */
  const Priorities: seq<nat> := [5, 2, 2, 3, 3, 5, 5, 9]

  /** The lines of one field that the scheduler fills. */
  const FieldLines := 16

  /** The number of held passes in a row after which a quiet packet is sent. */
  const QuietAfter: byte := 8

  // ---------------------------------------------------------------------
  // The priority countdown

  function Sum(c: seq<nat>): nat
  {
    if c == [] then 0 else Sum(c[..|c| - 1]) + c[|c| - 1]
  }

  /** Taking one from an entry takes one from the sum. */
  lemma {:induction false} SumDecrement(c: seq<nat>, m: int)
    requires 0 <= m < |c| && c[m] > 0
    ensures Sum(c[m := c[m] - 1]) == Sum(c) - 1
    decreases |c|
  {
    var d := c[m := c[m] - 1];
    if m < |c| - 1 {
      assert d[..|d| - 1] == c[..|c| - 1][m := c[m] - 1];
      SumDecrement(c[..|c| - 1], m);
    } else {
      assert d[..|d| - 1] == c[..|c| - 1];
    }
  }

  /**
   * The selection loop of the Stream thread as a value: from magazine m,
   * every countdown that has not run out is decreased by one and the
   * search moves to the next magazine, until it reaches one whose
   * countdown is 0. The result is the new countdowns and that magazine.
   */
  function Countdown(c: seq<nat>, m: int): (r: (seq<nat>, int))
    requires |c| == Streams && 0 <= m < Streams
    ensures |r.0| == Streams && 0 <= r.1 < Streams && r.0[r.1] == 0
    ensures forall k :: 0 <= k < Streams ==> r.0[k] <= c[k]
    decreases Sum(c)
  {
    if c[m] > 0 then
      SumDecrement(c, m);
      Countdown(c[m := c[m] - 1], (m + 1) % Streams)
    else (c, m)
  }

  /** How many steps after starting at magazine m the selection first reaches magazine k. */
  function Turn(m: int, k: int): (t: int)
    ensures 0 <= t < Streams
  {
    (k - m) % Streams
  }

  /** The step at which the selection, started at m, reaches magazine k with its countdown run out. */
  function Due(c: seq<nat>, m: int, k: int): int
    requires 0 <= k < |c|
  {
    Streams * c[k] + Turn(m, k)
  }

  /** How many times the selection passes a magazine first reached at step t, in its first steps steps. */
  function Passes(steps: int, t: int): int
  {
    if steps > t then (steps - t + Streams - 1) / Streams else 0
  }

  /** One step of the selection brings every magazine one step nearer. */
  lemma TurnStep(m: int, k: int)
    requires 0 <= m < Streams && 0 <= k < Streams
    ensures Turn((m + 1) % Streams, k) == if k == m then Streams - 1 else Turn(m, k) - 1
  {
  }

  /** Two magazines are never due at the same step. */
  lemma DueUnique(c: seq<nat>, m: int, a: int, b: int)
    requires |c| == Streams && 0 <= m < Streams && 0 <= a < Streams && 0 <= b < Streams
    requires Due(c, m, a) == Due(c, m, b)
    ensures a == b
  {
    assert Turn(m, a) == Turn(m, b);
  }

  /** After one step of the selection, every magazine is due one step sooner. */
  lemma DueStep(c: seq<nat>, m: int, k: int)
    requires |c| == Streams && 0 <= m < Streams && 0 <= k < Streams && c[m] > 0
    ensures Due(c[m := c[m] - 1], (m + 1) % Streams, k) == Due(c, m, k) - 1
  {
    TurnStep(m, k);
  }

  /** One step fewer, counted from one step later: a magazine reached at step 0 loses that pass. */
  lemma PassesStep(steps: int, t: int)
    requires steps >= 1 && 0 <= t < Streams
    ensures t == 0 ==> Passes(steps, 0) == 1 + Passes(steps - 1, Streams - 1)
    ensures t > 0 ==> Passes(steps, t) == Passes(steps - 1, t - 1)
  {
  }

  /**
   * The closed form of the selection: it stops at the magazine whose
   * countdown runs out first (the least Due, which is unique), and every
   * countdown has dropped by the number of times the selection passed it.
   */
  lemma {:induction false} CountdownPicksFirstDue(c: seq<nat>, m: int)
    requires |c| == Streams && 0 <= m < Streams
    ensures var r := Countdown(c, m);
      && (forall k :: 0 <= k < Streams ==> Due(c, m, r.1) <= Due(c, m, k))
      && (forall k :: 0 <= k < Streams && Due(c, m, k) == Due(c, m, r.1) ==> k == r.1)
      && (forall k :: 0 <= k < Streams ==> r.0[k] == c[k] - Passes(Due(c, m, r.1), Turn(m, k)))
    decreases Sum(c)
  {
    var r := Countdown(c, m);
    forall k | 0 <= k < Streams && Due(c, m, k) == Due(c, m, r.1)
      ensures k == r.1
    {
      DueUnique(c, m, k, r.1);
    }
    if c[m] > 0 {
      var c1, m1 := c[m := c[m] - 1], (m + 1) % Streams;
      SumDecrement(c, m);
      CountdownPicksFirstDue(c1, m1);
      assert r == Countdown(c1, m1);
      forall k | 0 <= k < Streams
        ensures Due(c1, m1, k) == Due(c, m, k) - 1
      {
        DueStep(c, m, k);
      }
      var steps := Due(c, m, r.1);
      assert steps >= 1 && Due(c1, m1, r.1) == steps - 1;
      forall k | 0 <= k < Streams
        ensures r.0[k] == c[k] - Passes(steps, Turn(m, k))
      {
        assert r.0[k] == c1[k] - Passes(steps - 1, Turn(m1, k));
        TurnStep(m, k);
        PassesStep(steps, Turn(m, k));
      }
    } else {
      forall k | 0 <= k < Streams
        ensures Due(c, m, m) <= Due(c, m, k) && Passes(0, Turn(m, k)) == 0
      {
      }
    }
  }

  /** A countdown is reset to its priority, and a priority of 0 is first made 1. */
  function Rearmed(p: nat): (q: nat)
    ensures q >= 1 && (p > 0 ==> q == p)
  {
    if p == 0 then 1 else p
  }

  // ---------------------------------------------------------------------
  // The thread

  /**
   * The magazine buffers are sound, distinct from each other and from the
   * stream buffer, and none shares its storage with the stream buffer or
   * with the packet that the quiet packets are built in.
   */
  ghost predicate SourcesValid(magBuffer: seq<PacketBuffer>, streamBuffer: PacketBuffer, packet: array<byte>)
    reads streamBuffer, streamBuffer.pkt, set i | 0 <= i < |magBuffer| :: magBuffer[i]
    reads set i | 0 <= i < |magBuffer| :: magBuffer[i].pkt
  {
    && |magBuffer| >= Streams && streamBuffer.Valid()
    && (forall i :: 0 <= i < Streams ==> magBuffer[i].Valid())
    && (forall i :: 0 <= i < Streams ==> magBuffer[i] != streamBuffer && magBuffer[i].pkt != streamBuffer.pkt && magBuffer[i].pkt != packet)
    && (forall i, j :: 0 <= i < j < Streams ==> magBuffer[i] != magBuffer[j])
  }

  /** The selection loop on the countdown array: it stops at the first magazine whose countdown is 0. */
  method RunDown(pc: array<nat>, m0: int) returns (m: int)
    requires pc.Length == Streams && 0 <= m0 < Streams
    modifies pc
    ensures (pc[..], m) == Countdown(old(pc[..]), m0)
  {
    m := m0;
    while pc[m] > 0
      invariant 0 <= m < Streams
      invariant Countdown(pc[..], m) == Countdown(old(pc[..]), m0)
      decreases Sum(pc[..])
    {
      SumDecrement(pc[..], m);
      pc[m] := pc[m] - 1;
      m := (m + 1) % Streams;
    }
  }

  /** The poll loop: from magazine 0 on, the first buffer that is empty. */
  method FirstEmpty(bufs: seq<PacketBuffer>) returns (m: int)
    requires |bufs| >= Streams && forall k :: 0 <= k < Streams ==> bufs[k].Valid()
    requires exists k :: 0 <= k < Streams && bufs[k].contents == []
    ensures 0 <= m < Streams && bufs[m].contents == []
    ensures forall k :: 0 <= k < m ==> bufs[k].contents != []
  {
    m := 0;
    var empty := bufs[m].IsEmpty();
    while empty != BufferEmpty
      invariant 0 <= m < Streams
      invariant forall k :: 0 <= k < m ==> bufs[k].contents != []
      invariant empty == BufferEmpty <==> bufs[m].contents == []
      decreases Streams - m
    {
      m := (m + 1) % Streams;
      empty := bufs[m].IsEmpty();
    }
  }

  /**
   * Where the poll loop of stream.c:50, as written, stands after k more
   * passes from magazine m, with held[i] telling whether magazine i's
   * buffer holds packets: it moves on while the buffer holds packets and
   * stops at an empty one.
   */
  function PollAfter(held: seq<bool>, m: int, k: nat): (r: int)
    requires |held| == Streams && 0 <= m < Streams
    ensures 0 <= r < Streams
    decreases k
  {
    if k == 0 || !held[m] then m else PollAfter(held, (m + 1) % Streams, k - 1)
  }

  /**
   * As written, the poll never ends once every magazine buffer holds
   * packets: after any number of passes it stands at magazine k mod 8,
   * whose buffer is not empty, so the loop goes on.
   */
  lemma {:induction false} PollSpinsAsWritten(held: seq<bool>, m: int, k: nat)
    requires |held| == Streams && 0 <= m < Streams
    requires forall i :: 0 <= i < Streams ==> held[i]
    ensures PollAfter(held, m, k) == (m + k) % Streams && held[PollAfter(held, m, k)]
    decreases k
  {
    if k > 0 {
      PollSpinsAsWritten(held, (m + 1) % Streams, k - 1);
      assert ((m + 1) % Streams + (k - 1)) % Streams == (m + k) % Streams;
    }
  }

  /**
   * The poll as its comment intends, holding back until there is data
   * ready to go: from magazine 0 on, the first buffer that holds a packet.
   */
  method FirstReady(bufs: seq<PacketBuffer>) returns (m: int)
    requires |bufs| >= Streams && forall k :: 0 <= k < Streams ==> bufs[k].Valid()
    requires exists k :: 0 <= k < Streams && bufs[k].contents != []
    ensures 0 <= m < Streams && bufs[m].contents != []
    ensures forall k :: 0 <= k < m ==> bufs[k].contents == []
  {
    m := 0;
    var empty := bufs[m].IsEmpty();
    while empty == BufferEmpty
      invariant 0 <= m < Streams
      invariant forall k :: 0 <= k < m ==> bufs[k].contents == []
      invariant empty == BufferEmpty <==> bufs[m].contents == []
      decreases Streams - m
    {
      m := (m + 1) % Streams;
      empty := bufs[m].IsEmpty();
    }
  }

  // ---------------------------------------------------------------------
  // The subtitle buffer

  /** magBuffer[8], where the subtitle commands queue their packets. */
  const SubtitleBuffer := 8

  /**
   * The selection of stream.c:60-70 as written: the subtitle branch
   * carries `&& FALSE`, so the countdown alone decides, whether or not the
   * subtitle buffer holds packets (waiting) and whatever its hold flag.
   */
  function SelectAsWritten(c: seq<nat>, m: int, waiting: bool, held: bool): (r: (seq<nat>, int))
    requires |c| == Streams && 0 <= m < Streams
    ensures 0 <= r.1 < Streams
  {
    Countdown(c, m)
  }

  /**
   * The selection with the subtitle branch switched on: a subtitle buffer
   * that holds packets and is not on hold goes next, and magazine 8's
   * countdown becomes 32 so that it keeps out of the way for two fields;
   * otherwise the countdown decides.
   */
  function SelectIntended(c: seq<nat>, m: int, waiting: bool, held: bool): (r: (seq<nat>, int))
    requires |c| == Streams && 0 <= m < Streams
  {
    if waiting && !held then (c[0 := 32], SubtitleBuffer) else Countdown(c, m)
  }

  /** The number of packets in a buffer of slots slots that nothing drains, after k more bufferPuts from n. */
  function Filled(n: nat, k: nat, slots: nat): (r: nat)
    requires n < slots
    ensures r < slots
    decreases k
  {
    if k == 0 then n else Filled(if n == slots - 1 then n else n + 1, k - 1, slots)
  }

  lemma {:induction false} FilledCaps(n: nat, k: nat, slots: nat)
    requires n < slots
    ensures Filled(n, k, slots) == if n + k < slots - 1 then n + k else slots - 1
    decreases k
  {
    if k > 0 {
      FilledCaps(if n == slots - 1 then n else n + 1, k - 1, slots);
    }
  }

  /**
   * As written, the Stream thread never serves the subtitle buffer, so
   * the packets the subtitle commands put there stay: from empty, k puts
   * leave min(k, 16) packets in its 17 slots. From the sixteenth on the
   * buffer is full, so every later Off Air header is dropped, and an On
   * Air with a cached row finds no room for the header and the row, which
   * is the room its cache loop needs to end.
   */
  lemma SubtitlesStallAsWritten(c: seq<nat>, m: int, waiting: bool, held: bool, k: nat)
    requires |c| == Streams && 0 <= m < Streams
    ensures SelectAsWritten(c, m, waiting, held).1 != SubtitleBuffer
    ensures Filled(0, k, Mag.PacketCount as nat) == if k < Mag.PacketCount as nat - 1 then k else Mag.PacketCount as nat - 1
    ensures k >= Mag.PacketCount as nat - 1 ==>
      && Filled(0, k, Mag.PacketCount as nat) == Mag.PacketCount as nat - 1
      && Filled(0, k + 1, Mag.PacketCount as nat) == Filled(0, k, Mag.PacketCount as nat)
      && Filled(0, k, Mag.PacketCount as nat) + 1 + 1 >= Mag.PacketCount as nat
  {
    FilledCaps(0, k, Mag.PacketCount as nat);
    FilledCaps(0, k + 1, Mag.PacketCount as nat);
  }

  /**
   * With the subtitle branch switched on, a subtitle buffer that holds
   * packets and is not on hold is served at once, and the pass that serves
   * it with room in the stream buffer takes its oldest packet; otherwise
   * the selection is the countdown's.
   */
  lemma SubtitlesDrainIntended(c: seq<nat>, m: int, waiting: bool, held: bool,
                               line0: int, holdCount0: byte, dest0: seq<seq<byte>>, slots: int, src0: seq<seq<byte>>,
                               template: Line, clock: Clock,
                               hold: bool, line: int, holdCount: byte, dest: seq<seq<byte>>, src: seq<seq<byte>>)
    requires |c| == Streams && 0 <= m < Streams
    requires |template| == Settings.TemplateSize && ClockFits(clock)
    requires forall i :: 0 <= i < |src0| ==> |src0[i]| == PacketSize
    requires waiting == (src0 != [])
    ensures waiting && !held ==> SelectIntended(c, m, waiting, held) == (c[0 := 32], SubtitleBuffer)
    ensures !(waiting && !held) ==> SelectIntended(c, m, waiting, held) == Countdown(c, m)
    ensures waiting && !held && |dest0| < slots - 1 &&
            Passed(false, line0, holdCount0, dest0, slots, src0, template, clock, hold, line, holdCount, dest, src) ==>
              src == src0[1..] && |src| == |src0| - 1
  {
  }

  /**
   * The pass of the served magazine, from its hold flag, the line count,
   * the held-pass count, the stream buffer's packets and slots and the
   * magazine buffer's packets before it, to those after it. A magazine not
   * on hold gets one bufferMove: nothing when the stream buffer is full,
   * the hold when the magazine buffer is empty, and otherwise its oldest
   * packet, delivered into the stream buffer, a line, and the hold when
   * that packet is a header. A magazine on hold counts a held pass, and
   * from the eighth held pass in a row counts a line and adds a quiet
   * packet unless the stream buffer is full.
   */
  ghost predicate Passed(held: bool, line0: int, holdCount0: byte, dest0: seq<seq<byte>>, slots: int, src0: seq<seq<byte>>,
                         template: Line, clock: Clock,
                         hold: bool, line: int, holdCount: byte, dest: seq<seq<byte>>, src: seq<seq<byte>>)
    requires |template| == Settings.TemplateSize && ClockFits(clock)
    requires forall i :: 0 <= i < |src0| ==> |src0[i]| == PacketSize
  {
    var full := |dest0| == slots - 1;
    && (!held ==> holdCount == 0)
    && (!held && full ==> !hold && line == line0 && dest == dest0 && src == src0)
    && (!held && !full && src0 == [] ==> hold && line == line0 && dest == dest0 && src == src0)
    && (!held && !full && src0 != [] ==>
          && hold == IsHeader(src0[0]) && line == line0 + 1 && src == src0[1..]
          && dest == dest0 + [Delivered(src0[0], template, clock)])
    && (held ==> hold && holdCount == holdCount0 + 1 && src == src0)
    && (held && holdCount < QuietAfter ==> line == line0 && dest == dest0)
    && (held && holdCount >= QuietAfter ==> line == line0 + 1 && dest == dest0 + (if full then [] else [QuietPacket()]))
  }

  /** An all-zero packet, as PacketQuiet leaves it. */
  function QuietPacket(): (q: seq<byte>)
    ensures |q| == PacketSize
  {
    seq(PacketSize, _ => 0)
  }

  /**
   * The state of the Stream thread: the stream buffer it fills, the
   * magazine buffers it draws from (magBuffer[0] being magazine 8), the
   * priorities and countdowns, the hold flags, the magazine last served,
   * the line and field counters and the count of passes in a row that
   * found the magazine on hold.
   */
  class Scheduler {
    const streamBuffer: PacketBuffer
    const magBuffer: seq<PacketBuffer>
    const cfg: Settings.Config
    const priority: array<nat>
    const priorityCount: array<nat>
    var hold: seq<bool>
    const packet: array<byte>
    var mag: int
    var line: int
    var holdCount: byte
    var field: byte

    ghost predicate Valid()
      reads this, streamBuffer
    {
      && priority.Length == Streams && priorityCount.Length == Streams && |hold| == Streams
      && packet.Length == PacketSize && priority != priorityCount && packet != streamBuffer.pkt
      && |magBuffer| >= Streams
      && 0 <= mag < Streams && 0 <= line <= FieldLines
    }

    /**
     * The start of the thread: every hold cleared, every countdown set to
     * its priority, and an empty stream buffer of StreamBufferSize slots.
     */
    constructor Start(magBuffer: seq<PacketBuffer>, cfg: Settings.Config)
      requires |magBuffer| >= Streams
      ensures Valid() && fresh(streamBuffer) && fresh(streamBuffer.pkt) && streamBuffer.Valid()
      ensures streamBuffer.contents == [] && streamBuffer.count == StreamBufferSize as int
      ensures this.magBuffer == magBuffer && this.cfg == cfg
      ensures priority[..] == Priorities && priorityCount[..] == Priorities
      ensures forall i :: 0 <= i < Streams ==> !hold[i]
      ensures mag == 0 && line == 0 && holdCount == 0 && field == 0
    {
      this.magBuffer := magBuffer;
      this.cfg := cfg;
      var storage := new byte[StreamBufferSize as int * PacketSize];
      streamBuffer := new PacketBuffer.Init(storage, StreamBufferSize);
      priority := new nat[Streams](i requires 0 <= i < Streams => Priorities[i]);
      priorityCount := new nat[Streams](i requires 0 <= i < Streams => Priorities[i]);
      hold := seq(Streams, _ => false);
      packet := new byte[PacketSize](_ => 0);
      mag, line, holdCount, field := 0, 0, 0, 0;
    }

    /**
     * The poll before the loop: from magazine 0 on, it stops at the first
     * magazine whose buffer is empty.
     */
    method Poll()
      requires Valid() && SourcesValid(magBuffer, streamBuffer, packet)
      requires exists k :: 0 <= k < Streams && magBuffer[k].contents == []
      modifies this
      ensures Valid() && 0 <= mag < Streams && magBuffer[mag].contents == []
      ensures forall k :: 0 <= k < mag ==> magBuffer[k].contents != []
      ensures line == old(line) && holdCount == old(holdCount) && field == old(field)
    {
      mag := FirstEmpty(magBuffer);
    }

    /** The selection loop: the countdowns are run down to the next magazine to serve. */
    method Select()
      requires Valid()
      modifies this, priorityCount
      ensures Valid() && line == old(line) && holdCount == old(holdCount) && field == old(field) && hold == old(hold)
      ensures (priorityCount[..], mag) == Countdown(old(priorityCount[..]), old(mag))
    {
      mag := RunDown(priorityCount, mag);
    }

    /** The end of a field: after FieldLines lines the line count restarts, every hold is released and the field count moves on. */
    method NewField()
      requires Valid()
      modifies this
      ensures Valid() && mag == old(mag) && holdCount == old(holdCount) && line < FieldLines
      ensures old(line) >= FieldLines ==> line == 0 && field == old(field) + 1 && hold == seq(Streams, _ => false)
      ensures old(line) < FieldLines ==> line == old(line) && field == old(field) && hold == old(hold)
    {
      if line >= FieldLines {
        line := 0;
        hold := seq(Streams, _ => false);
        field := field + 1;
      }
    }

    /**
     * The move of one pass. A magazine not on hold gets one bufferMove
     * into the stream buffer: a full stream buffer changes nothing, an
     * empty magazine buffer puts the magazine on hold, a header puts it on
     * hold and counts a line, and any other packet counts a line. A
     * magazine on hold counts one more held pass, and from the eighth held
     * pass in a row each one counts a line and puts a quiet packet into the
     * stream buffer (dropped when that buffer is full).
     */
    method Serve(clock: Clock)
      requires Valid() && SourcesValid(magBuffer, streamBuffer, packet) && cfg.Valid() && ClockFits(clock) && line < FieldLines
      modifies this, packet, streamBuffer, streamBuffer.pkt, magBuffer[mag]
      ensures Valid() && SourcesValid(magBuffer, streamBuffer, packet) && mag == old(mag) && field == old(field)
      ensures streamBuffer.count == old(streamBuffer.count)
      ensures forall k :: 0 <= k < Streams && k != mag ==> hold[k] == old(hold[k])
      ensures forall k :: 0 <= k < Streams && k != mag ==> magBuffer[k].contents == old(magBuffer[k].contents)
      ensures !old(hold[mag]) ==> holdCount == 0
      ensures !old(hold[mag]) && old(|streamBuffer.contents|) == streamBuffer.count - 1 ==>
        && !hold[mag] && line == old(line)
        && streamBuffer.contents == old(streamBuffer.contents) && magBuffer[mag].contents == old(magBuffer[mag].contents)
      ensures !old(hold[mag]) && old(|streamBuffer.contents|) < streamBuffer.count - 1 && old(magBuffer[mag].contents) == [] ==>
        && hold[mag] && line == old(line)
        && streamBuffer.contents == old(streamBuffer.contents) && magBuffer[mag].contents == old(magBuffer[mag].contents)
      ensures !old(hold[mag]) && old(|streamBuffer.contents|) < streamBuffer.count - 1 && old(magBuffer[mag].contents) != [] ==>
        var p := old(magBuffer[mag].contents[0]);
        && hold[mag] == IsHeader(p) && line == old(line) + 1
        && magBuffer[mag].contents == old(magBuffer[mag].contents[1..])
        && streamBuffer.contents == old(streamBuffer.contents) + [Delivered(p, old(cfg.headerTemplate[..Settings.TemplateSize]), clock)]
      ensures old(hold[mag]) ==> hold[mag] && holdCount == old(holdCount) + 1 && magBuffer[mag].contents == old(magBuffer[mag].contents)
      ensures old(hold[mag]) && holdCount < QuietAfter ==> line == old(line) && streamBuffer.contents == old(streamBuffer.contents)
      ensures old(hold[mag]) && holdCount >= QuietAfter ==>
        && line == old(line) + 1
        && streamBuffer.contents == old(streamBuffer.contents) + (if old(|streamBuffer.contents|) < streamBuffer.count - 1 then [QuietPacket()] else [])
    {
      if !hold[mag] {
        Forward(clock);
      } else {
        HeldPass();
      }
    }

    /** The pass of a magazine not on hold: one bufferMove, and the hold and line count its result calls for. */
    method Forward(clock: Clock)
      requires Valid() && SourcesValid(magBuffer, streamBuffer, packet) && cfg.Valid() && ClockFits(clock) && line < FieldLines && !hold[mag]
      modifies this, streamBuffer, streamBuffer.pkt, magBuffer[mag]
      ensures Valid() && SourcesValid(magBuffer, streamBuffer, packet) && mag == old(mag) && field == old(field) && holdCount == 0
      ensures streamBuffer.count == old(streamBuffer.count)
      ensures hold == old(hold)[mag := hold[mag]]
      ensures forall k :: 0 <= k < Streams && k != mag ==> magBuffer[k].contents == old(magBuffer[k].contents)
      ensures old(|streamBuffer.contents|) == streamBuffer.count - 1 ==>
        && !hold[mag] && line == old(line)
        && streamBuffer.contents == old(streamBuffer.contents) && magBuffer[mag].contents == old(magBuffer[mag].contents)
      ensures old(|streamBuffer.contents|) < streamBuffer.count - 1 && old(magBuffer[mag].contents) == [] ==>
        && hold[mag] && line == old(line)
        && streamBuffer.contents == old(streamBuffer.contents) && magBuffer[mag].contents == old(magBuffer[mag].contents)
      ensures old(|streamBuffer.contents|) < streamBuffer.count - 1 && old(magBuffer[mag].contents) != [] ==>
        var p := old(magBuffer[mag].contents[0]);
        && hold[mag] == IsHeader(p) && line == old(line) + 1
        && magBuffer[mag].contents == old(magBuffer[mag].contents[1..])
        && streamBuffer.contents == old(streamBuffer.contents) + [Delivered(p, old(cfg.headerTemplate[..Settings.TemplateSize]), clock)]
    {
      var result := MoveFrom(clock);
      var held, lines := hold[mag], line;
      if result == BufferEmpty {
        held := true;
      } else if result == BufferHeader {
        held, lines := true, line + 1;
      } else if result == BufferOk {
        lines := line + 1;
      }
      hold, line, holdCount := hold[mag := held], lines, 0;
    }

    /** bufferMove from the served magazine's buffer into the stream buffer. */
    method MoveFrom(clock: Clock) returns (result: byte)
      requires Valid() && SourcesValid(magBuffer, streamBuffer, packet) && cfg.Valid() && ClockFits(clock)
      modifies streamBuffer, streamBuffer.pkt, magBuffer[mag]
      ensures SourcesValid(magBuffer, streamBuffer, packet) && streamBuffer.pkt == old(streamBuffer.pkt) && streamBuffer.count == old(streamBuffer.count)
      ensures forall k :: 0 <= k < Streams && k != mag ==> magBuffer[k].contents == old(magBuffer[k].contents)
      ensures old(|streamBuffer.contents|) == streamBuffer.count - 1 ==>
        result == BufferFull && streamBuffer.contents == old(streamBuffer.contents) && magBuffer[mag].contents == old(magBuffer[mag].contents)
      ensures old(|streamBuffer.contents|) < streamBuffer.count - 1 && old(magBuffer[mag].contents) == [] ==>
        result == BufferEmpty && streamBuffer.contents == old(streamBuffer.contents) && magBuffer[mag].contents == old(magBuffer[mag].contents)
      ensures old(|streamBuffer.contents|) < streamBuffer.count - 1 && old(magBuffer[mag].contents) != [] ==>
        var p := old(magBuffer[mag].contents[0]);
        && result == (if IsHeader(p) then BufferHeader else BufferOk)
        && magBuffer[mag].contents == old(magBuffer[mag].contents[1..])
        && streamBuffer.contents == old(streamBuffer.contents) + [Delivered(p, old(cfg.headerTemplate[..Settings.TemplateSize]), clock)]
    {
      result := Move(streamBuffer, magBuffer[mag], cfg, clock);
    }

    /** The pass of a magazine on hold: one more held pass, and from the eighth in a row a quiet packet and a line. */
    method HeldPass()
      requires Valid() && SourcesValid(magBuffer, streamBuffer, packet) && line < FieldLines
      modifies this, packet, streamBuffer, streamBuffer.pkt
      ensures Valid() && SourcesValid(magBuffer, streamBuffer, packet) && mag == old(mag) && field == old(field)
      ensures streamBuffer.count == old(streamBuffer.count) && holdCount == old(holdCount) + 1 && hold == old(hold)
      ensures holdCount < QuietAfter ==> line == old(line) && streamBuffer.contents == old(streamBuffer.contents)
      ensures holdCount >= QuietAfter ==>
        && line == old(line) + 1
        && streamBuffer.contents == old(streamBuffer.contents) + (if old(|streamBuffer.contents|) < streamBuffer.count - 1 then [QuietPacket()] else [])
    {
      holdCount := holdCount + 1;
      if holdCount >= QuietAfter {
        line := line + 1;
        PacketQuiet(packet);
        assert packet[..] == QuietPacket();
        var _ := streamBuffer.Put(packet);
      }
    }

    /** The served magazine's countdown is reset to its priority, a priority of 0 being made 1 first. */
    method Rearm()
      requires Valid()
      modifies priority, priorityCount
      ensures priority[..] == old(priority[..])[mag := Rearmed(old(priority[mag]))]
      ensures priorityCount[..] == old(priorityCount[..])[mag := Rearmed(old(priority[mag]))]
    {
      if priority[mag] == 0 {
        priority[mag] := 1;
      }
      priorityCount[mag] := priority[mag];
    }

    /**
     * One pass of the Stream loop: the selection of the magazine to serve,
     * the end of a field after FieldLines lines, the pass of that
     * magazine, and the reset of its countdown. A magazine on hold (one
     * that has sent a header or had nothing to send) is not moved from
     * again until the next field.
     */
    method Step(clock: Clock)
      requires Valid() && SourcesValid(magBuffer, streamBuffer, packet) && cfg.Valid() && ClockFits(clock)
      modifies this, priority, priorityCount, packet, streamBuffer, streamBuffer.pkt, set k | 0 <= k < Streams :: magBuffer[k]
      ensures Valid() && SourcesValid(magBuffer, streamBuffer, packet) && streamBuffer.count == old(streamBuffer.count)
      ensures var sel := Countdown(old(priorityCount[..]), old(mag));
        mag == sel.1 && priorityCount[..] == sel.0[mag := priority[mag]]
      ensures priority[..] == old(priority[..])[mag := Rearmed(old(priority[..])[mag])]
      ensures field == if old(line) >= FieldLines then old(field) + 1 else old(field)
      ensures forall k :: 0 <= k < Streams && k != mag ==>
        hold[k] == (old(hold)[k] && old(line) < FieldLines) && magBuffer[k].contents == old(magBuffer[k].contents)
      ensures var served := magBuffer[mag];
        Passed(old(hold)[mag] && old(line) < FieldLines, if old(line) >= FieldLines then 0 else old(line), old(holdCount),
                     old(streamBuffer.contents), streamBuffer.count, old(served.contents),
                     old(cfg.headerTemplate[..Settings.TemplateSize]), clock,
                     hold[mag], line, holdCount, streamBuffer.contents, magBuffer[mag].contents)
    {
      Prepare();
      Finish(clock);
    }

    /** The selection and the end-of-field test of one pass. */
    method Prepare()
      requires Valid()
      modifies this, priorityCount
      ensures Valid() && holdCount == old(holdCount) && line < FieldLines
      ensures (priorityCount[..], mag) == Countdown(old(priorityCount[..]), old(mag))
      ensures old(line) >= FieldLines ==> line == 0 && field == old(field) + 1 && hold == seq(Streams, _ => false)
      ensures old(line) < FieldLines ==> line == old(line) && field == old(field) && hold == old(hold)
    {
      Select();
      NewField();
    }

    /** The pass of the selected magazine and the reset of its countdown. */
    method Finish(clock: Clock)
      requires Valid() && SourcesValid(magBuffer, streamBuffer, packet) && cfg.Valid() && ClockFits(clock) && line < FieldLines
      modifies this, priority, priorityCount, packet, streamBuffer, streamBuffer.pkt, magBuffer[mag]
      ensures Valid() && SourcesValid(magBuffer, streamBuffer, packet) && streamBuffer.count == old(streamBuffer.count)
      ensures mag == old(mag) && field == old(field)
      ensures priority[..] == old(priority[..])[mag := Rearmed(old(priority[mag]))]
      ensures priorityCount[..] == old(priorityCount[..])[mag := priority[mag]]
      ensures forall k :: 0 <= k < Streams && k != mag ==> hold[k] == old(hold[k]) && magBuffer[k].contents == old(magBuffer[k].contents)
      ensures Passed(old(hold[mag]), old(line), old(holdCount),
                     old(streamBuffer.contents), streamBuffer.count, old(magBuffer[mag].contents),
                     old(cfg.headerTemplate[..Settings.TemplateSize]), clock,
                     hold[mag], line, holdCount, streamBuffer.contents, magBuffer[mag].contents)
    {
      Serve(clock);
      Rearm();
    }
  }
}
