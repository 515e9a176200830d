/**
 * The carousel table of mag.c: up to MAXCAROUSEL pages whose subpages
 * rotate on a timer. addCarousel registers a page; pageToTransmit picks
 * the first carousel that is due, advances its page file to the next
 * subpage and reschedules it, and reports when the next carousel is due.
 */
module Carousels {
  import opened Tables
  import opened CString
  import opened Files
  import opened Page

  /** MAXCAROUSEL: the number of carousel slots per magazine. */
  const MaxCarousel := 16

  /** A CAROUSEL entry: its page (null for a free slot), when it is next due, and the subcode last sent. */
  datatype Carousel = Carousel(page: Page?, time: int, subcode: bv32)

  /** p occupies some slot of the table. */
  predicate Registered(c: seq<Carousel>, p: Page)
  {
    exists i :: 0 <= i < |c| && c[i].page == p
  }

  /** No page occupies two slots. */
  predicate Distinct(c: seq<Carousel>)
  {
    forall i, j :: 0 <= i < j < |c| && c[i].page != null ==> c[i].page != c[j].page
  }

  /**
   * addCarousel: a page already in the table, or a full table, returns 1
   * and changes nothing; otherwise the lowest free slot takes the page
   * with subcode 0 and due time now, and 0 is returned.
   */
  method AddCarousel(c: array<Carousel>, p: Page, now: int) returns (r: byte)
    requires c.Length == MaxCarousel
    modifies c
    ensures r == 0 || r == 1
    ensures r == 1 <==> Registered(old(c[..]), p) || forall i :: 0 <= i < MaxCarousel ==> old(c[i]).page != null
    ensures r == 1 ==> c[..] == old(c[..])
    ensures r == 0 ==> exists k :: 0 <= k < MaxCarousel && old(c[k]).page == null
                         && (forall i :: 0 <= i < k ==> old(c[i]).page != null)
                         && c[..] == old(c[..])[k := Carousel(p, now, 0)]
  {
    var found := false;
    var foundindex := 0;
    var i := 0;
    while i < MaxCarousel
      invariant 0 <= i <= MaxCarousel
      invariant forall j :: 0 <= j < i ==> c[j].page != p
      invariant found <==> exists j :: 0 <= j < i && c[j].page == null
      invariant found ==> 0 <= foundindex < i && c[foundindex].page == null
      invariant found ==> forall j :: 0 <= j < foundindex ==> c[j].page != null
    {
      if c[i].page == p {
        return 1;
      }
      if c[i].page == null && !found {
        found := true;
        foundindex := i;
      }
      i := i + 1;
    }
    if !found {
      return 1;
    }
    c[foundindex] := Carousel(p, now, 0);
    return 0;
  }

  /** Registering a page that is not yet in the table keeps every page in at most one slot. */
  lemma AddKeepsDistinct(c: seq<Carousel>, p: Page, k: int, now: int)
    requires Distinct(c) && !Registered(c, p)
    requires 0 <= k < |c| && c[k].page == null
    ensures Distinct(c[k := Carousel(p, now, 0)])
  {
    var d := c[k := Carousel(p, now, 0)];
    forall i, j | 0 <= i < j < |d| && d[i].page != null
      ensures d[i].page != d[j].page
    {
      if i == k {
        assert d[j] == c[j];
      } else if j == k {
        assert d[i] == c[i];
      }
    }
  }

  /** The first slot at or after i that holds a page due before t; |c| when there is none. */
  function DueFrom(c: seq<Carousel>, t: int, i: nat): (k: nat)
    requires i <= |c|
    ensures i <= k <= |c|
    ensures k < |c| ==> c[k].page != null && c[k].time < t
    decreases |c| - i
  {
    if i == |c| then |c|
    else if c[i].page != null && c[i].time < t then i
    else DueFrom(c, t, i + 1)
  }

  /** No slot before the one DueFrom finds is due: it is the lowest-index due slot. */
  lemma {:induction false} DueFromFirst(c: seq<Carousel>, t: int, i: nat)
    requires i <= |c|
    ensures forall j :: i <= j < DueFrom(c, t, i) ==> !(c[j].page != null && c[j].time < t)
    decreases |c| - i
  {
    if i < |c| && !(c[i].page != null && c[i].time < t) {
      DueFromFirst(c, t, i + 1);
    }
  }

  /** The scan for the next change time, as the loop at the end of pageToTransmit keeps it in acc. */
  function NextChangeFrom(c: seq<Carousel>, i: nat, acc: int): int
    requires i <= |c|
    decreases |c| - i
  {
    if i == |c| then acc
    else if c[i].page != null && c[i].time > 0 && (c[i].time < acc || acc == 0) then NextChangeFrom(c, i + 1, c[i].time)
    else NextChangeFrom(c, i + 1, acc)
  }

  /** When the next carousel is due: the least positive time over registered slots, 0 when there is none. */
  function NextChange(c: seq<Carousel>): int
  {
    NextChangeFrom(c, 0, 0)
  }

  /** The scan keeps the least positive time it has seen. */
  lemma {:induction false} NextChangeFromLeast(c: seq<Carousel>, i: nat, acc: int)
    requires i <= |c| && acc >= 0
    ensures var r := NextChangeFrom(c, i, acc);
      && r >= 0
      && (r == 0 <==> acc == 0 && forall k :: i <= k < |c| && c[k].page != null ==> c[k].time <= 0)
      && (r != 0 ==> r == acc || exists k :: i <= k < |c| && c[k].page != null && c[k].time == r)
      && (acc > 0 ==> r <= acc)
      && (forall k :: i <= k < |c| && c[k].page != null && c[k].time > 0 ==> r <= c[k].time)
    decreases |c| - i
  {
    if i < |c| {
      if c[i].page != null && c[i].time > 0 && (c[i].time < acc || acc == 0) {
        NextChangeFromLeast(c, i + 1, c[i].time);
      } else {
        NextChangeFromLeast(c, i + 1, acc);
      }
    }
  }

  /** pageToTransmit's result when a page was selected: the earliest positive due time of a registered carousel, or 0 when none has one. */
  lemma NextChangeIsLeast(c: seq<Carousel>)
    ensures NextChange(c) >= 0
    ensures NextChange(c) == 0 <==> forall k :: 0 <= k < |c| && c[k].page != null ==> c[k].time <= 0
    ensures NextChange(c) > 0 ==> exists k :: 0 <= k < |c| && c[k].page != null && c[k].time == NextChange(c)
    ensures forall k :: 0 <= k < |c| && c[k].page != null && c[k].time > 0 ==> NextChange(c) <= c[k].time
  {
    NextChangeFromLeast(c, 0, 0);
  }

  /** What the parse loop of pageToTransmit carries: the PAGE being filled, the file position and flag, the line buffer and timeInterval. */
  datatype Scanner = Scanner(f: PageInfo, pos: nat, eof: bool, buf: seq<byte>, interval: byte)

  /** timeInterval is a uint8_t: a cycle time keeps only its low eight bits. */
  function Interval(time: bv32): byte
  {
    (time & 0xFF) as byte
  }

  /** The condition of the parse loop: the subcode read is not past sc and the file has not run out. */
  predicate Continue(subcode: bv32, sc: bv32, eof: bool)
  {
    subcode <= sc && !eof
  }

  predicate Scanning(s: Scanner, sc: bv32)
  {
    Continue(s.f.subcode, sc, s.eof)
  }

  /**
   * The parse loop: while the subcode read so far is not above sc and
   * the file has not run out, read a line and parse it; the first
   * nonzero cycle time seen becomes timeInterval.
   */
  function Scan(content: seq<byte>, sc: bv32, s: Scanner): (r: Scanner)
    requires s.pos <= |content| && |s.buf| == MaxLine
    ensures r.pos <= |content| && |r.buf| == MaxLine
    decreases |content| - s.pos, if s.eof then 0 else 1
  {
    if !Scanning(s, sc) then s
    else Scan(content, sc, ScanStep(content, s))
  }

  /** One pass of the parse loop: fgets, ParseLine, and the first-CT rule. */
  function ScanStep(content: seq<byte>, s: Scanner): (r: Scanner)
    requires s.pos <= |content| && |s.buf| == MaxLine
    ensures r.pos <= |content| && |r.buf| == MaxLine
    ensures r.pos > s.pos || (r.pos == s.pos && r.eof)
  {
    var (pos, eof, line) := Gets(content, s.pos, s.eof, s.buf);
    var f := ParseResult(s.f, line).0;
    Scanner(f, pos, eof, LineAfterParse(line), if f.time != 0 && s.interval == 0 then Interval(f.time) else s.interval)
  }

  /** The parse loop ends at the end of the file or at a subcode above sc. */
  lemma {:induction false} ScanStops(content: seq<byte>, sc: bv32, s: Scanner)
    requires s.pos <= |content| && |s.buf| == MaxLine
    ensures !Scanning(Scan(content, sc, s), sc)
    decreases |content| - s.pos, if s.eof then 0 else 1
  {
    if Scanning(s, sc) {
      ScanStops(content, sc, ScanStep(content, s));
    }
  }

  /** Once timeInterval is set, later CT lines do not change it: the carousel takes its timing from the first CT command. */
  lemma {:induction false} ScanKeepsInterval(content: seq<byte>, sc: bv32, s: Scanner)
    requires s.pos <= |content| && |s.buf| == MaxLine
    requires s.interval != 0
    ensures Scan(content, sc, s).interval == s.interval
    decreases |content| - s.pos, if s.eof then 0 else 1
  {
    if Scanning(s, sc) {
      ScanKeepsInterval(content, sc, ScanStep(content, s));
    }
  }

  /** The parse loop keeps the file name the PAGE was given. */
  lemma {:induction false} ScanKeepsFilename(content: seq<byte>, sc: bv32, s: Scanner)
    requires s.pos <= |content| && |s.buf| == MaxLine
    ensures Scan(content, sc, s).f.filename == s.f.filename
    decreases |content| - s.pos, if s.eof then 0 else 1
  {
    if Scanning(s, sc) {
      var (pos, eof, line) := Gets(content, s.pos, s.eof, s.buf);
      ParseKeepsFilename(s.f, line);
      ScanKeepsFilename(content, sc, ScanStep(content, s));
    }
  }

  /** The parse loop of pageToTransmit on the open file. */
  method ScanCarousel(fp: PageFile, p: Page, str: array<byte>, sc: bv32) returns (interval: byte)
    requires fp.Valid() && str.Length == MaxLine
    modifies fp, p, str
    ensures fp.Valid()
    ensures Scanner(p.Fields(), fp.pos, fp.eof, str[..], interval)
         == Scan(fp.content, sc, Scanner(old(p.Fields()), old(fp.pos), old(fp.eof), old(str[..]), 0))
  {
    interval := 0;
    ghost var target := Scan(fp.content, sc, Scanner(p.Fields(), fp.pos, fp.eof, str[..], 0));
    while Continue(p.subcode, sc, fp.eof)
      invariant fp.Valid()
      invariant Scan(fp.content, sc, Scanner(p.Fields(), fp.pos, fp.eof, str[..], interval)) == target
      decreases |fp.content| - fp.pos, if fp.eof then 0 else 1
    {
      interval := ScanOnce(fp, p, str, interval);
    }
  }

  /** One pass of the parse loop of pageToTransmit. */
  method ScanOnce(fp: PageFile, p: Page, str: array<byte>, interval: byte) returns (next: byte)
    requires fp.Valid() && str.Length == MaxLine
    modifies fp, p, str
    ensures fp.Valid()
    ensures Scanner(p.Fields(), fp.pos, fp.eof, str[..], next)
         == ScanStep(fp.content, Scanner(old(p.Fields()), old(fp.pos), old(fp.eof), old(str[..]), interval))
  {
    fp.Fgets(str);
    var code := p.ParseLine(str);
    next := interval;
    if p.time != 0 && interval == 0 {
      next := Interval(p.time);
    }
  }

  /** The slot a serviced carousel is left with: subcode and due time after the parse loop r, with now the second clock reading. */
  function Rescheduled(e: Carousel, r: Scanner, now: int): (d: Carousel)
  {
    if r.eof then e.(subcode := 0, time := now + r.interval as int)
    else e.(subcode := r.f.subcode, time := now + (if r.f.time > 0 then Interval(r.f.time) else 15) as int)
  }

  /** The parse loop started on a fresh PAGE for the named carousel file, with buf the line buffer's contents. */
  function ScanFile(content: seq<byte>, name: Line, sc: bv32, buf: seq<byte>): (r: Scanner)
    requires |buf| == MaxLine
  {
    Scan(content, sc, Scanner(ClearedInfo().(filename := name), 0, false, buf, 0))
  }

  /** The file position the caller is handed: rewound after running off the end, else just past the subpage found. */
  function FilePos(r: Scanner): nat
  {
    if r.eof then 0 else r.pos
  }

  /**
   * The body of the selection loop for the due slot i: open the page's
   * file (null when it cannot be opened), parse up to the next subpage,
   * rewind at the end of the file, and reschedule the slot.
   */
  method Service(c: array<Carousel>, i: int, p: Page, files: map<Line, seq<byte>>, str: array<byte>, now: int)
    returns (fp: PageFile?)
    requires c.Length == MaxCarousel && 0 <= i < MaxCarousel && c[i].page != null
    requires str.Length == MaxLine && p.Fields() == ClearedInfo()
    modifies c, p, str
    ensures var name := old(c[i].page.filename);
      && (fp == null <==> name !in files)
      && (fp == null ==> c[..] == old(c[..]) && p.Fields() == ClearedInfo().(filename := name) && str[..] == old(str[..]))
      && (fp != null ==> fresh(fp) && fp.content == files[name])
      && (fp != null ==>
            var r := ScanFile(files[name], name, old(c[i].subcode), old(str[..]));
            && fp.pos == FilePos(r) && !fp.eof
            && p.Fields() == r.f && str[..] == r.buf
            && c[..] == old(c[..])[i := Rescheduled(old(c[i]), r, now)])
  {
    p.filename := c[i].page.filename;
    fp := Fopen(files, p.filename);
    if fp != null {
      Advance(c, i, fp, p, str, now);
    }
  }

  /**
   * The open carousel file: parse to the next subpage, then record it
   * and the next due time, or rewind the file and start again from
   * subcode 0 when it ran out.
   */
  method Advance(c: array<Carousel>, i: int, fp: PageFile, p: Page, str: array<byte>, now: int)
    requires c.Length == MaxCarousel && 0 <= i < MaxCarousel
    requires str.Length == MaxLine && fp.Valid() && fp.pos == 0 && !fp.eof
    modifies c, fp, p, str
    ensures var r := Scan(fp.content, old(c[i].subcode), Scanner(old(p.Fields()), 0, false, old(str[..]), 0));
      && fp.pos == FilePos(r) && !fp.eof
      && p.Fields() == r.f && str[..] == r.buf
      && c[..] == old(c[..])[i := Rescheduled(old(c[i]), r, now)]
  {
    var interval := ScanCarousel(fp, p, str, c[i].subcode);
    c[i] := Rescheduled(c[i], Scanner(p.Fields(), fp.pos, fp.eof, str[..], interval), now);
    if fp.eof {
      fp.Rewind();
    }
  }

  /** The selection loop: the first due slot, or MaxCarousel. */
  method FindDue(c: array<Carousel>, t: int) returns (i: int)
    requires c.Length == MaxCarousel
    ensures i == DueFrom(c[..], t, 0)
  {
    i := 0;
    while i < MaxCarousel && !(c[i].page != null && c[i].time < t)
      invariant 0 <= i <= MaxCarousel
      invariant DueFrom(c[..], t, i) == DueFrom(c[..], t, 0)
    {
      i := i + 1;
    }
  }

  /** The loop that works out when the next carousel page changes. */
  method NextChangeLoop(c: array<Carousel>) returns (retval: int)
    requires c.Length == MaxCarousel
    ensures retval == NextChange(c[..])
  {
    retval := 0;
    var i := 0;
    while i < MaxCarousel
      invariant 0 <= i <= MaxCarousel
      invariant NextChangeFrom(c[..], i, retval) == NextChange(c[..])
    {
      if c[i].page != null && c[i].time > 0 && (c[i].time < retval || retval == 0) {
        retval := c[i].time;
      }
      i := i + 1;
    }
  }

  /**
   * pageToTransmit. An empty table (no page in slot 0) returns 0 and
   * changes nothing. Otherwise the first carousel due before now is
   * serviced; when its file cannot be opened the result is 0, fp is null
   * and nothing else changes. In every other case the caller's PAGE
   * becomes the one parsed (a cleared PAGE when none was due), and the
   * result is the next time a carousel is due, or 0 when no page was
   * served. later is the clock reading taken after the parse. The
   * caller's PAGE is replaced by the returned one, which is either the
   * old one, unchanged, or a new one.
   */
  method PageToTransmit(c: array<Carousel>, fp0: PageFile?, page0: Page, files: map<Line, seq<byte>>,
                        str: array<byte>, now: int, later: int)
    returns (retval: int, fp: PageFile?, page: Page)
    requires c.Length == MaxCarousel && str.Length == MaxLine
    requires fp0 != null ==> fp0.Valid()
    modifies c, str
    ensures fp != null ==> fp.Valid()
    ensures old(c[0]).page == null ==> retval == 0 && fp == fp0 && page == page0 && c[..] == old(c[..]) && str[..] == old(str[..])
    ensures old(c[0]).page != null && DueFrom(old(c[..]), now, 0) == MaxCarousel ==>
              retval == 0 && fp == fp0 && page.Fields() == ClearedInfo() && c[..] == old(c[..]) && str[..] == old(str[..])
    ensures old(c[0]).page != null && DueFrom(old(c[..]), now, 0) < MaxCarousel ==>
              var i := DueFrom(old(c[..]), now, 0);
              var name := old(c[i].page.filename);
              && (name !in files ==> retval == 0 && fp == null && page == page0 && c[..] == old(c[..]) && str[..] == old(str[..]))
              && (name in files ==> fp != null && fresh(fp) && fp.content == files[name])
              && (name in files ==>
                    var r := ScanFile(files[name], name, old(c[i].subcode), old(str[..]));
                    && fp.pos == FilePos(r) && !fp.eof
                    && page.Fields() == r.f && str[..] == r.buf
                    && c[..] == old(c[..])[i := Rescheduled(old(c[i]), r, later)]
                    && retval == (if name == [] then 0 else NextChange(c[..])))
  {
    fp, page := fp0, page0;
    if c[0].page == null {
      return 0, fp, page;
    }
    var p := new Page();
    var i := FindDue(c, now);
    if i < MaxCarousel {
      ghost var name := c[i].page.filename;
      ghost var sc := c[i].subcode;
      ghost var buf := str[..];
      fp := Service(c, i, p, files, str, later);
      if fp == null {
        return 0, null, page0;
      }
      ScanKeepsFilename(files[name], sc, Scanner(ClearedInfo().(filename := name), 0, false, buf, 0));
    }
    retval := NextChangeLoop(c);
    if p.filename == [] {
      retval := 0;
    }
    page := p;
  }
}
