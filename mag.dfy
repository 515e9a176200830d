/**
 * The magazine side of mag.c: the per-magazine packet buffers and the
 * counter that hands each magazine thread its number, the directory scan
 * that builds a magazine's page list and carousel table. The domag
 * state machine that turns page files into packets is module Domag.
 */
module Mag {
  import opened Tables
  import opened CString
  import opened Packet
  import opened Buffer
  import opened Files
  import opened Page
  import opened Carousels

  /** PACKETCOUNT: the slots of each magazine buffer. */
  const PacketCount: byte := 17

  /** The eight magazine threads plus one buffer for the subtitle (Newfor) feed. */
  const BufferCount := 9

  /** The magazine globals of mag.c: magCount, which getMag hands out, and magBuffer. */
  class Magazines {
    var magCount: byte
    var magBuffer: seq<PacketBuffer>

    predicate Valid()
      reads this
    {
      magCount < 8
    }

    /** magInit: the counter starts at 1 and nine empty buffers of PacketCount slots are set up. */
    constructor MagInit()
      ensures Valid() && magCount == 1 && |magBuffer| == BufferCount
      ensures forall i :: 0 <= i < BufferCount ==>
        fresh(magBuffer[i]) && fresh(magBuffer[i].pkt) && magBuffer[i].Valid()
        && magBuffer[i].count == PacketCount as int && magBuffer[i].contents == []
    {
      var bufs: seq<PacketBuffer> := [];
      var i := 0;
      while i < BufferCount
        invariant 0 <= i <= BufferCount && |bufs| == i
        invariant forall j :: 0 <= j < i ==>
          fresh(bufs[j]) && fresh(bufs[j].pkt) && bufs[j].Valid()
          && bufs[j].count == PacketCount as int && bufs[j].contents == []
      {
        var storage := new byte[PacketCount as int * PacketSize];
        var b := new PacketBuffer.Init(storage, PacketCount);
        bufs := bufs + [b];
        i := i + 1;
      }
      magCount := 1;
      magBuffer := bufs;
    }

    /** getMag: the counter's value, and the counter moves on modulo 8. */
    method GetMag() returns (num: byte)
      requires Valid()
      modifies this
      ensures Valid() && magBuffer == old(magBuffer)
      ensures num == old(magCount) && magCount == Issued(old(magCount), 1)
    {
      num := magCount;
      magCount := (magCount + 1) % 8;
    }
  }

  /** The magazine number the counter gives after k calls of getMag from start. */
  function Issued(start: byte, k: nat): (m: byte)
    requires start < 8
    ensures m < 8
  {
    if k == 0 then start else (Issued(start, k - 1) + 1) % 8
  }

  /** The eight threads started after magInit get magazines 1 to 7 and then 0: each magazine once. */
  lemma EightThreads()
    ensures [Issued(1, 0), Issued(1, 1), Issued(1, 2), Issued(1, 3), Issued(1, 4), Issued(1, 5), Issued(1, 6), Issued(1, 7)]
         == [1, 2, 3, 4, 5, 6, 7, 0]
  {
  }

  /** A directory entry: the file name and what ParsePage left in the PAGE for it. */
  datatype DirEntry = DirEntry(name: Line, parsed: PageInfo)

  /** The directory getList reads, "/home/pi/Pages/". */
  const PagesPath: Line := [0x2F, 0x68, 0x6F, 0x6D, 0x65, 0x2F, 0x70, 0x69, 0x2F, 0x50, 0x61, 0x67, 0x65, 0x73, 0x2F]

  /** ".tti", the extension strcasestr looks for (".ttix" contains it). */
  const TtiExtension: Line := [0x2E, 0x74, 0x74, 0x69]

  /** ASCII lower case, as strcasestr compares. */
  function Lower(s: Line): (r: Line)
    ensures |r| == |s|
    ensures forall i :: 0 <= i < |s| ==> (s[i] == 0 <==> r[i] == 0)
  {
    seq(|s|, i requires 0 <= i < |s| => if 0x41 <= s[i] <= 0x5A then s[i] + 0x20 else s[i])
  }

  /** A file getList treats as a page: ".tti" appears in its name in any case. */
  predicate IsPageFile(name: Line)
  {
    Find(Lower(name), TtiExtension) != -1
  }

  /** An entry getList keeps for magazine mag: a page file whose PAGE has that magazine modulo 8. */
  predicate Accepted(e: DirEntry, mag: byte)
  {
    IsPageFile(e.name) && e.parsed.mag % 8 == mag
  }

  /** A kept page with a subcode above 1 is a carousel. */
  predicate IsCarousel(e: DirEntry)
  {
    e.parsed.subcode > 1
  }

  /** The PAGE getList stores: the parsed one with its full path as file name. */
  function Stored(e: DirEntry): PageInfo
  {
    e.parsed.(filename := PagesPath + e.name)
  }

  /** The plain (non-carousel) page the entries leave in txList[k]: the last one kept with that page number. */
  function LastPlain(es: seq<DirEntry>, mag: byte, k: int): Option<PageInfo>
  {
    if es == [] then None
    else
      var e := es[|es| - 1];
      if Accepted(e, mag) && !IsCarousel(e) && e.parsed.page as int == k then Some(Stored(e))
      else LastPlain(es[..|es| - 1], mag, k)
  }

  /** The carousel pages the entries offer, in directory order. */
  function CarouselPages(es: seq<DirEntry>, mag: byte): seq<PageInfo>
  {
    if es == [] then []
    else
      var e := es[|es| - 1];
      CarouselPages(es[..|es| - 1], mag) + if Accepted(e, mag) && IsCarousel(e) then [Stored(e)] else []
  }

  /** The carousel table after getList for a directory whose carousel pages are cp: slots filled in order, the rest free. */
  ghost predicate CarouselTable(c: seq<Carousel>, cp: seq<PageInfo>, now: int)
    reads set j | 0 <= j < |c| && c[j].page != null :: c[j].page
  {
    forall j :: 0 <= j < |c| ==>
      if j < |cp| then c[j].page != null && c[j].page.Fields() == cp[j] && c[j].time == now && c[j].subcode == 0
      else c[j] == Carousel(null, 0, 0)
  }

  /** txList after the entries es, when it held t0 before them: each slot with a plain page holds a copy of the last one. */
  ghost predicate PlainTable(t: seq<Page?>, t0: seq<Page?>, es: seq<DirEntry>, mag: byte)
    requires |t| == |t0| == 256
    reads set k | 0 <= k < |t| && t[k] != null :: t[k]
  {
    forall k :: 0 <= k < 256 ==>
      match LastPlain(es, mag, k)
      case None => t[k] == t0[k]
      case Some(f) => t[k] != null && t[k].Fields() == f
  }

  /** One more directory entry: a kept plain page replaces the one at its page number. */
  lemma PlainTableStep(t: seq<Page?>, t1: seq<Page?>, t0: seq<Page?>, es: seq<DirEntry>, n: int, mag: byte, np: Page?)
    requires |t| == |t1| == |t0| == 256 && 0 <= n < |es|
    requires PlainTable(t, t0, es[..n], mag)
    requires Accepted(es[n], mag) && !IsCarousel(es[n]) ==> np != null && np.Fields() == Stored(es[n]) && t1 == t[es[n].parsed.page as int := np]
    requires !(Accepted(es[n], mag) && !IsCarousel(es[n])) ==> t1 == t
    ensures PlainTable(t1, t0, es[..n + 1], mag)
  {
    forall k | 0 <= k < 256
      ensures match LastPlain(es[..n + 1], mag, k)
        case None => t1[k] == t0[k]
        case Some(f) => t1[k] != null && t1[k].Fields() == f
    {
      LastPlainStep(es, n, mag, k);
    }
  }

  lemma LastPlainStep(es: seq<DirEntry>, n: int, mag: byte, k: int)
    requires 0 <= n < |es|
    ensures LastPlain(es[..n + 1], mag, k) ==
      if Accepted(es[n], mag) && !IsCarousel(es[n]) && es[n].parsed.page as int == k then Some(Stored(es[n]))
      else LastPlain(es[..n], mag, k)
  {
    assert es[..n + 1][..n] == es[..n];
    assert es[..n + 1][n] == es[n];
  }

  lemma CarouselPagesStep(es: seq<DirEntry>, n: int, mag: byte)
    requires 0 <= n < |es|
    ensures CarouselPages(es[..n + 1], mag) == CarouselPages(es[..n], mag) + if Accepted(es[n], mag) && IsCarousel(es[n]) then [Stored(es[n])] else []
  {
    assert es[..n + 1][..n] == es[..n];
  }

  /**
   * getList. The carousel table is emptied first. When the directory
   * cannot be opened (dir is None) the result is 1. Otherwise every page
   * file kept for the magazine is copied into a new PAGE: a carousel goes
   * into the table with addCarousel (the first MaxCarousel of them fit), a
   * plain page into txList at its page number, a later file replacing an
   * earlier one. now is the clock reading addCarousel takes.
   */
  method GetList(txList: array<Page?>, mag: byte, carousel: array<Carousel>, dir: Option<seq<DirEntry>>, now: int)
    returns (r: byte)
    requires txList.Length == 256 && carousel.Length == MaxCarousel
    modifies txList, carousel
    ensures dir.None? ==> r == 1 && txList[..] == old(txList[..]) && forall j :: 0 <= j < MaxCarousel ==> carousel[j] == Carousel(null, 0, 0)
    ensures dir.Some? ==> r == 0 && PlainTable(txList[..], old(txList[..]), dir.value, mag)
    ensures dir.Some? ==> CarouselTable(carousel[..], CarouselPages(dir.value, mag), now)
  {
    var i := 0;
    while i < MaxCarousel
      invariant 0 <= i <= MaxCarousel
      invariant forall j :: 0 <= j < i ==> carousel[j] == Carousel(null, 0, 0)
      modifies carousel
    {
      carousel[i] := Carousel(null, 0, 0);
      i := i + 1;
    }
    if dir.None? {
      return 1;
    }
    ReadDirectory(txList, mag, carousel, dir.value, now);
    return 0;
  }

  /** The directory loop of getList, starting from an empty carousel table. */
  method ReadDirectory(txList: array<Page?>, mag: byte, carousel: array<Carousel>, es: seq<DirEntry>, now: int)
    requires txList.Length == 256 && carousel.Length == MaxCarousel
    requires forall j :: 0 <= j < MaxCarousel ==> carousel[j] == Carousel(null, 0, 0)
    modifies txList, carousel
    ensures PlainTable(txList[..], old(txList[..]), es, mag)
    ensures CarouselTable(carousel[..], CarouselPages(es, mag), now)
  {
    var n := 0;
    while n < |es|
      invariant 0 <= n <= |es|
      invariant PlainTable(txList[..], old(txList[..]), es[..n], mag)
      invariant CarouselTable(carousel[..], CarouselPages(es[..n], mag), now)
    {
      ghost var t := txList[..];
      var newpage := Keep(txList, mag, carousel, es[n], now, CarouselPages(es[..n], mag));
      PlainTableStep(t, txList[..], old(txList[..]), es, n, mag, newpage);
      CarouselPagesStep(es, n, mag);
      n := n + 1;
    }
    assert es[..n] == es;
  }

  /** One directory entry of getList: a kept page is copied, then goes to the carousel table or to txList. */
  method Keep(txList: array<Page?>, mag: byte, carousel: array<Carousel>, e: DirEntry, now: int, ghost cp: seq<PageInfo>)
    returns (newpage: Page?)
    requires txList.Length == 256 && carousel.Length == MaxCarousel
    requires CarouselTable(carousel[..], cp, now)
    modifies txList, carousel
    ensures newpage == null <==> !Accepted(e, mag)
    ensures newpage != null ==> fresh(newpage) && newpage.Fields() == Stored(e)
    ensures Accepted(e, mag) && IsCarousel(e) ==> CarouselTable(carousel[..], cp + [Stored(e)], now)
    ensures !(Accepted(e, mag) && IsCarousel(e)) ==> carousel[..] == old(carousel[..])
    ensures forall j :: 0 <= j < MaxCarousel ==> carousel[j].page == old(carousel[j].page) || carousel[j].page == newpage
    ensures Accepted(e, mag) && !IsCarousel(e) ==> txList[..] == old(txList[..])[e.parsed.page as int := newpage]
    ensures !(Accepted(e, mag) && !IsCarousel(e)) ==> txList[..] == old(txList[..])
  {
    newpage := null;
    if Accepted(e, mag) {
      newpage := new Page.Of(Stored(e));
      if IsCarousel(e) {
        KeepCarousel(carousel, newpage, now, cp);
      } else {
        txList[e.parsed.page as int] := newpage;
      }
    }
  }

  /** addCarousel on a table filled in order: the page takes the next free slot, if there is one. */
  method KeepCarousel(carousel: array<Carousel>, p: Page, now: int, ghost cp: seq<PageInfo>)
    requires carousel.Length == MaxCarousel
    requires CarouselTable(carousel[..], cp, now)
    requires forall j :: 0 <= j < MaxCarousel ==> carousel[j].page != p
    modifies carousel
    ensures CarouselTable(carousel[..], cp + [p.Fields()], now)
    ensures forall j :: 0 <= j < MaxCarousel ==> carousel[j].page == old(carousel[j].page) || carousel[j].page == p
  {
    var added := AddCarousel(carousel, p, now);
    if |cp| < MaxCarousel {
      assert old(carousel[|cp|]).page == null;
      assert added == 0;
      var k :| 0 <= k < MaxCarousel && old(carousel[k]).page == null
               && (forall i :: 0 <= i < k ==> old(carousel[i]).page != null)
               && carousel[..] == old(carousel[..])[k := Carousel(p, now, 0)];
      assert k == |cp|;
    }
  }
}
