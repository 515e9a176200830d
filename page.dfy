/**
 * The .tti page-file line parser of page.c. A page file is a sequence of
 * lines, each a two-letter command, a comma and its argument; ParseLine
 * stores what one line says into a PAGE and ClearPage resets a PAGE.
 */
module Page {
  import opened Tables
  import opened CString

  /** The fields of a PAGE, as one value. */
  datatype PageInfo = PageInfo(filename: Line, mag: byte, page: byte, subpage: byte, subcode: bv32,
                               timerMode: byte, time: bv32, control: bv32, filesize: bv32,
                               redirect: bv32, region: bv32)

  /** The PAGE a fresh ClearPage leaves: mag 0x99 marks it as not valid. */
  function ClearedInfo(): (f: PageInfo)
  {
    PageInfo([], 0x99, 0xFF, 0xFF, 0, 0x54, 0, 0x8000, 0, 0xFF, 0)
  }

  /** The line buffer with str[1..2] overwritten by "0x", so that strtol(&str[1], NULL, 0) reads the argument as hex. */
  function HexForm(s: Line): (t: Line)
    requires |s| >= 3
    ensures |t| == |s| && t[0] == s[0] && t[1] == 0x30 && t[2] == 0x78 && t[3..] == s[3..]
  {
    s[1 := 0x30][2 := 0x78]
  }

  /**
   * PN: n is the argument as int32_t. A value above 0x8FF carries a
   * subpage in its low byte; the rest is magazine * 0x100 + page. The
   * fields are stored whatever the magazine; one above 8 returns 1.
   */
  function PageNumber(f: PageInfo, n: int): (r: (PageInfo, byte))
  {
    var sub := if n > 0x8FF then U8(CMod(n, 0x100)) else 0;
    var m := if n > 0x8FF then CDiv(n, 0x100) else n;
    var mag := U8(CDiv(m, 0x100));
    (f.(subpage := sub, mag := mag, page := U8(CMod(m, 0x100))), if mag > 8 then 1 else 0)
  }

  /** PS: the argument with the transmit bit (0x8000) forced on and the serial bit (0x0040) forced off. */
  function PageStatus(n: int): bv32
  {
    (U32(n) | 0x8000) & !0x0040
  }

  /** The P commands: PN sets the page number, PS the status word; any other P line is accepted unchanged. */
  function PCommand(f: PageInfo, s: Line): (r: (PageInfo, byte))
    requires |s| >= 4
  {
    if s[1] == 0x4E then PageNumber(f, I32(Strtol(HexForm(s)[1..], 0)))
    else if s[1] == 0x53 then (f.(control := PageStatus(I32(Strtol(HexForm(s)[1..], 0)))), 0)
    else (f, 0)
  }

  /** The R commands: RT is accepted, RD sets the redirect page, RE the region; any other R line is an error. */
  function RCommand(f: PageInfo, s: Line): (r: (PageInfo, byte))
    requires |s| >= 4
  {
    if s[1] == 0x54 then (f, 0)
    else if s[1] == 0x44 then (f.(redirect := U32(I32(Strtol(HexForm(s)[1..], 0)))), 0)
    else if s[1] == 0x45 then (f.(region := U32(Strtol(s[3..], 0))), 0)
    else (f, 1)
  }

  /**
   * What ParseLine makes of the line buffer s: the new PAGE fields and the
   * return code (0 accepted, 1 error). Arguments are read with strtol from
   * byte 3, or from byte 1 after the "0x" rewrite. CT sets a timed page
   * and its cycle time, SC the subcode (hex); DE, MS, OL and FL lines are
   * accepted without effect here.
   */
  function ParseResult(f: PageInfo, s: Line): (r: (PageInfo, byte))
    requires |s| >= 4
  {
    if s[0] == 0 then (f, 0)
    else if s[2] != 0x2C then (f, 1)
    else Command(f, s)
  }

  /** The switch on the first letter of a line that has its comma. */
  function Command(f: PageInfo, s: Line): (r: (PageInfo, byte))
    requires |s| >= 4
  {
    if s[0] == 0x44 || s[0] == 0x4D || s[0] == 0x4F || s[0] == 0x46 then (f, 0)
    else if s[0] == 0x50 then PCommand(f, s)
    else if s[0] == 0x43 then (f.(timerMode := 0x54, time := U32(Strtol(s[3..], 0))), 0)
    else if s[0] == 0x53 then
      if s[1] == 0x43 then (f.(subcode := U32(I32(Strtol(s[3..], 16)))), 0) else (f, 0)
    else if s[0] == 0x52 then RCommand(f, s)
    else (f, 1)
  }

  /** PN, PS and RD lines are left in the caller's buffer with "0x" in bytes 1..2; every other line is left as it was. */
  function LineAfterParse(s: Line): (t: Line)
    requires |s| >= 4
    ensures |t| == |s|
  {
    if s[0] != 0 && s[2] == 0x2C && ((s[0] == 0x50 && (s[1] == 0x4E || s[1] == 0x53)) || (s[0] == 0x52 && s[1] == 0x44))
    then HexForm(s)
    else s
  }

  /** A PAGE structure. */
  class Page {
    var filename: Line
    var mag: byte
    var page: byte
    var subpage: byte
    var subcode: bv32
    var timerMode: byte
    var time: bv32
    var control: bv32
    var filesize: bv32
    var redirect: bv32
    var region: bv32

    function Fields(): PageInfo
      reads this
    {
      PageInfo(filename, mag, page, subpage, subcode, timerMode, time, control, filesize, redirect, region)
    }

    /** A PAGE as ClearPage leaves it. */
    constructor ()
      ensures Fields() == ClearedInfo()
    {
      filename, mag, page, subpage := [], 0x99, 0xFF, 0xFF;
      timerMode, time, control, filesize := 0x54, 0, 0x8000, 0;
      redirect, subcode, region := 0xFF, 0, 0;
    }

    /** A copy of a PAGE (calloc followed by structure assignment). */
    constructor Of(f: PageInfo)
      ensures Fields() == f
    {
      filename, mag, page, subpage := f.filename, f.mag, f.page, f.subpage;
      timerMode, time, control, filesize := f.timerMode, f.time, f.control, f.filesize;
      redirect, subcode, region := f.redirect, f.subcode, f.region;
    }

    /** ClearPage: every field back to its "no page" value. */
    method ClearPage()
      modifies this
      ensures Fields() == ClearedInfo()
    {
      filename := [];
      mag := 0x99;
      page := 0xFF;
      subpage := 0xFF;
      timerMode := 0x54;
      time := 0;
      control := 0x8000;
      filesize := 0;
      redirect := 0xFF;
      subcode := 0;
      region := 0;
    }

    /**
     * ParseLine: str is the caller's line buffer (a C string, at least
     * four bytes). The fields and return code are those of ParseResult and
     * the buffer is left as LineAfterParse says.
     */
    method ParseLine(str: array<byte>) returns (r: byte)
      requires str.Length >= 4
      modifies this, str
      ensures Fields() == ParseResult(old(Fields()), old(str[..])).0
      ensures r == ParseResult(old(Fields()), old(str[..])).1
      ensures str[..] == LineAfterParse(old(str[..]))
    {
      if str[0] == 0 {
        r := 0;
      } else if str[2] != 0x2C {
        r := 1;
      } else {
        r := Switch(str);
      }
    }

    /** The switch statement of ParseLine. */
    method Switch(str: array<byte>) returns (r: byte)
      requires str.Length >= 4
      modifies this, str
      ensures Fields() == Command(old(Fields()), old(str[..])).0
      ensures r == Command(old(Fields()), old(str[..])).1
      ensures str[..] == if (str[0] == 0x50 && (old(str[1]) == 0x4E || old(str[1]) == 0x53)) || (str[0] == 0x52 && old(str[1]) == 0x44)
                         then HexForm(old(str[..])) else old(str[..])
    {
      if str[0] == 0x44 || str[0] == 0x4D || str[0] == 0x4F || str[0] == 0x46 {
        r := 0;
      } else if str[0] == 0x50 {
        r := ParseP(str);
      } else if str[0] == 0x43 {
        ParseC(str);
        r := 0;
      } else if str[0] == 0x53 {
        ParseS(str);
        r := 0;
      } else if str[0] == 0x52 {
        r := ParseR(str);
      } else {
        r := 1;
      }
    }

    /** The 'C' case of ParseLine's switch: a timed page and its cycle time. */
    method ParseC(str: array<byte>)
      requires str.Length >= 4
      modifies this
      ensures Fields() == old(Fields()).(timerMode := 0x54, time := U32(Strtol(str[3..], 0)))
    {
      timerMode := 0x54;
      time := U32(Strtol(str[3..], 0));
    }

    /** The 'S' case of ParseLine's switch: SC sets the subcode, read as hex. */
    method ParseS(str: array<byte>)
      requires str.Length >= 4
      modifies this
      ensures Fields() == if str[1] == 0x43 then old(Fields()).(subcode := U32(I32(Strtol(str[3..], 16)))) else old(Fields())
    {
      if str[1] == 0x43 {
        var n := I32(Strtol(str[3..], 16));
        subcode := U32(n);
      }
    }

    /** The 'P' case of ParseLine's switch. */
    method ParseP(str: array<byte>) returns (r: byte)
      requires str.Length >= 4 && str[0] == 0x50
      modifies this, str
      ensures Fields() == PCommand(old(Fields()), old(str[..])).0
      ensures r == PCommand(old(Fields()), old(str[..])).1
      ensures str[..] == if old(str[1]) == 0x4E || old(str[1]) == 0x53 then HexForm(old(str[..])) else old(str[..])
    {
      ghost var s := str[..];
      if str[1] == 0x4E {
        str[1], str[2] := 0x30, 0x78;
        assert str[1..] == HexForm(s)[1..];
        r := StorePageNumber(I32(Strtol(str[1..], 0)));
        return;
      } else if str[1] == 0x53 {
        str[1], str[2] := 0x30, 0x78;
        assert str[1..] == HexForm(s)[1..];
        var n := I32(Strtol(str[1..], 0));
        control := PageStatus(n);
      }
      return 0;
    }

    /** The PN assignments of ParseLine, from the argument n read as int32_t. */
    method StorePageNumber(n: int) returns (r: byte)
      modifies this
      ensures Fields() == PageNumber(old(Fields()), n).0
      ensures r == PageNumber(old(Fields()), n).1
    {
      var m := n;
      if m > 0x8FF {
        subpage := U8(CMod(m, 0x100));
        m := CDiv(m, 0x100);
      } else {
        subpage := 0;
      }
      mag := U8(CDiv(m, 0x100));
      page := U8(CMod(m, 0x100));
      if mag > 8 {
        return 1;
      }
      return 0;
    }

    /** The 'R' case of ParseLine's switch; an unknown R command falls through to the error return. */
    method ParseR(str: array<byte>) returns (r: byte)
      requires str.Length >= 4 && str[0] == 0x52
      modifies this, str
      ensures Fields() == RCommand(old(Fields()), old(str[..])).0
      ensures r == RCommand(old(Fields()), old(str[..])).1
      ensures str[..] == if old(str[1]) == 0x44 then HexForm(old(str[..])) else old(str[..])
    {
      ghost var s := str[..];
      if str[1] == 0x54 {
        return 0;
      } else if str[1] == 0x44 {
        str[1], str[2] := 0x30, 0x78;
        assert str[1..] == HexForm(s)[1..];
        var n := I32(Strtol(str[1..], 0));
        redirect := U32(n);
        return 0;
      } else if str[1] == 0x45 {
        region := U32(Strtol(str[3..], 0));
        return 0;
      }
      return 1;
    }
  }

  /** An empty line is accepted without effect; a line whose third byte is not a comma is rejected without effect. */
  lemma ParseGuards(f: PageInfo, s: Line)
    requires |s| >= 4
    ensures s[0] == 0 ==> ParseResult(f, s) == (f, 0) && LineAfterParse(s) == s
    ensures s[0] != 0 && s[2] != 0x2C ==> ParseResult(f, s) == (f, 1) && LineAfterParse(s) == s
  {
  }

  /** PS always leaves the transmit bit set and the serial bit clear, and changes no other field. */
  lemma StatusBits(f: PageInfo, s: Line)
    requires |s| >= 4 && s[0] == 0x50 && s[1] == 0x53 && s[2] == 0x2C
    ensures ParseResult(f, s).1 == 0
    ensures ParseResult(f, s).0 == f.(control := ParseResult(f, s).0.control)
    ensures ParseResult(f, s).0.control & 0x8000 == 0x8000 && ParseResult(f, s).0.control & 0x0040 == 0
  {
  }

  /**
   * Parsing the buffer a parse leaves behind stores nothing new: a PN, PS
   * or RD line now has 'x' where the comma was and is rejected unchanged,
   * and every other line stores the same values again.
   */
  lemma ReparseKeepsFields(f: PageInfo, s: Line)
    requires |s| >= 4
    ensures ParseResult(ParseResult(f, s).0, LineAfterParse(s)).0 == ParseResult(f, s).0
  {
    var g := ParseResult(f, s).0;
    var t := LineAfterParse(s);
    if t != s {
      assert t[0] != 0 && t[2] == 0x78;
    } else if s[0] != 0 && s[2] == 0x2C {
      CommandRepeats(f, s);
    }
  }

  /** A command that leaves its line as it was stores the same values when it is parsed again. */
  lemma CommandRepeats(f: PageInfo, s: Line)
    requires |s| >= 4
    requires !((s[0] == 0x50 && (s[1] == 0x4E || s[1] == 0x53)) || (s[0] == 0x52 && s[1] == 0x44))
    ensures Command(Command(f, s).0, s).0 == Command(f, s).0
  {
    if s[0] == 0x50 {
      assert Command(f, s).0 == f;
    } else if s[0] == 0x52 {
      assert RCommand(Command(f, s).0, s).0 == Command(f, s).0;
    }
  }

  /** Splitting mag * 0x100 + page back into its two parts, with C division on a non-negative value. */
  lemma SplitByte(n: int, hi: int, lo: byte)
    requires hi >= 0 && n == hi * 0x100 + lo as int
    ensures CDiv(n, 0x100) == hi
    ensures CMod(n, 0x100) == lo as int
  {
  }

  /** The hex digits of a value of at least 16 start with two digits, so no "x" follows the first. */
  lemma SecondHexDigit(n: nat, rest: Line)
    requires rest == [] || !IsDigit(rest[0], 36)
    ensures At(ToDigits(n, 16) + rest, 1) != 0x78 && At(ToDigits(n, 16) + rest, 1) != 0x58
  {
    var ds := ToDigits(n, 16);
    if |ds| > 1 {
      assert (ds + rest)[1] == ds[1];
      assert IsDigit(ds[1], 16);
    } else if rest != [] {
      assert (ds + rest)[1] == rest[0];
    }
  }

  /** The argument of a PN line read as hex: the "0x" rewrite of "PN," followed by hex digits. */
  lemma PnArgument(n: nat, rest: Line, s: Line)
    requires n <= LongMax
    requires rest == [] || !IsDigit(rest[0], 36)
    requires s == [0x50, 0x4E, 0x2C] + ToDigits(n, 16) + rest
    ensures |s| >= 4 && s[0] == 0x50 && s[1] == 0x4E && s[2] == 0x2C
    ensures Strtol(HexForm(s)[1..], 0) == n
  {
    var x := ToDigits(n, 16) + rest;
    assert s == [0x50, 0x4E, 0x2C] + x;
    assert |x| >= 1 && s[0] == 0x50 && s[1] == 0x4E && s[2] == 0x2C;
    assert HexForm(s)[1..] == [0x30, 0x78] + x;
    assert x[0] == ToDigits(n, 16)[0];
    SecondHexDigit(n, rest);
    StrtolHexPrefix(x);
    StrtolReadsDigits(n, 16, rest);
  }

  /** No page file command changes the file name a PAGE was loaded from. */
  lemma ParseKeepsFilename(f: PageInfo, s: Line)
    requires |s| >= 4
    ensures ParseResult(f, s).0.filename == f.filename
  {
    if s[0] != 0 && s[2] == 0x2C {
      CommandKeepsFilename(f, s);
    }
  }

  lemma CommandKeepsFilename(f: PageInfo, s: Line)
    requires |s| >= 4
    ensures Command(f, s).0.filename == f.filename
  {
    if s[0] == 0x44 || s[0] == 0x4D || s[0] == 0x4F || s[0] == 0x46 {
    } else if s[0] == 0x50 {
      PCommandKeepsFilename(f, s);
    } else if s[0] == 0x52 {
      RCommandKeepsFilename(f, s);
    }
  }

  lemma PCommandKeepsFilename(f: PageInfo, s: Line)
    requires |s| >= 4
    ensures PCommand(f, s).0.filename == f.filename
  {
    if s[1] == 0x4E {
      PageNumberKeepsFilename(f, I32(Strtol(HexForm(s)[1..], 0)));
    }
  }

  lemma RCommandKeepsFilename(f: PageInfo, s: Line)
    requires |s| >= 4
    ensures RCommand(f, s).0.filename == f.filename
  {
  }

  lemma PageNumberKeepsFilename(f: PageInfo, n: int)
    ensures PageNumber(f, n).0.filename == f.filename
  {
  }

  /** A PN line stores what PageNumber makes of its argument read as hex. */
  lemma ParsePn(f: PageInfo, s: Line, n: int)
    requires |s| >= 4 && s[0] == 0x50 && s[1] == 0x4E && s[2] == 0x2C
    requires Strtol(HexForm(s)[1..], 0) == n && 0 <= n < 0x8000_0000
    ensures ParseResult(f, s) == PageNumber(f, n)
  {
    I32Small(n);
  }

  lemma I32Small(n: int)
    requires 0 <= n < 0x8000_0000
    ensures I32(n) == n
  {
  }

  /** PageNumber on a value above 0x8FF, given what the C division and remainder give. */
  lemma PageNumberParts(f: PageInfo, n: int, m: int, mag: byte, page: byte, subpage: byte)
    requires n > 0x8FF && CDiv(n, 0x100) == m
    requires U8(CMod(n, 0x100)) == subpage && U8(CDiv(m, 0x100)) == mag && U8(CMod(m, 0x100)) == page
    ensures PageNumber(f, n) == (f.(subpage := subpage, mag := mag, page := page), if mag > 8 then 1 else 0)
  {
  }

  /** The C division and remainder of a PN value above 0x8FF by 0x100. */
  lemma LongDivision(mag: byte, page: byte, subpage: byte)
    ensures CDiv(mag as int * 0x10000 + page as int * 0x100 + subpage as int, 0x100) == mag as int * 0x100 + page as int
    ensures U8(CMod(mag as int * 0x10000 + page as int * 0x100 + subpage as int, 0x100)) == subpage
  {
    var m := mag as int * 0x100 + page as int;
    var n := mag as int * 0x10000 + page as int * 0x100 + subpage as int;
    SplitByte(n, m, subpage);
    U8Of(CMod(n, 0x100), subpage);
  }

  /** The magazine byte of mag * 0x100 + page. */
  lemma MagazineOf(mag: byte, page: byte)
    ensures U8(CDiv(mag as int * 0x100 + page as int, 0x100)) == mag
  {
    var m := mag as int * 0x100 + page as int;
    SplitByte(m, mag as int, page);
    U8Of(CDiv(m, 0x100), mag);
  }

  /** The page byte of mag * 0x100 + page. */
  lemma PageOf(mag: byte, page: byte)
    ensures U8(CMod(mag as int * 0x100 + page as int, 0x100)) == page
  {
    var m := mag as int * 0x100 + page as int;
    SplitByte(m, mag as int, page);
    U8Of(CMod(m, 0x100), page);
  }

  /** The PN arithmetic on magazine, page and subpage; a magazine above 8 is stored all the same and reported by the code. */
  lemma PageNumberLong(f: PageInfo, mag: byte, page: byte, subpage: byte)
    requires 1 <= mag
    ensures PageNumber(f, mag as int * 0x10000 + page as int * 0x100 + subpage as int)
         == (f.(subpage := subpage, mag := mag, page := page), if mag > 8 then 1 else 0)
  {
    var m := mag as int * 0x100 + page as int;
    var n := mag as int * 0x10000 + page as int * 0x100 + subpage as int;
    LongDivision(mag, page, subpage);
    MagazineOf(mag, page);
    PageOf(mag, page);
    PageNumberParts(f, n, m, mag, page, subpage);
  }

  /** The PN arithmetic on a value of at most 0x8FF: no subpage. */
  lemma PageNumberShort(f: PageInfo, mag: byte, page: byte)
    requires mag <= 8
    ensures PageNumber(f, mag as int * 0x100 + page as int)
         == (f.(subpage := 0, mag := mag, page := page), 0)
  {
    MagazineOf(mag, page);
    PageOf(mag, page);
  }

  /** A PN line with a value printed in hex stores what PageNumber makes of that value. */
  lemma PnLine(f: PageInfo, n: nat, rest: Line, s: Line)
    requires n < 0x8000_0000
    requires rest == [] || !IsDigit(rest[0], 36)
    requires s == [0x50, 0x4E, 0x2C] + ToDigits(n, 16) + rest
    ensures ParseResult(f, s) == PageNumber(f, n)
  {
    PnArgument(n, rest, s);
    ParsePn(f, s, n);
  }

  /**
   * A PN line written as magazine, page and subpage in hex ("PN,1A205")
   * stores exactly those three numbers; it is accepted when the magazine
   * is 1..8 and rejected, with the fields stored all the same, above that.
   */
  lemma PageNumberRoundTrip(f: PageInfo, mag: byte, page: byte, subpage: byte, rest: Line)
    requires 1 <= mag
    requires rest == [] || !IsDigit(rest[0], 36)
    ensures ParseResult(f, [0x50, 0x4E, 0x2C] + ToDigits(mag as int * 0x10000 + page as int * 0x100 + subpage as int, 16) + rest)
         == (f.(subpage := subpage, mag := mag, page := page), if mag > 8 then 1 else 0)
  {
    var n := mag as int * 0x10000 + page as int * 0x100 + subpage as int;
    PnLine(f, n, rest, [0x50, 0x4E, 0x2C] + ToDigits(n, 16) + rest);
    PageNumberLong(f, mag, page, subpage);
  }

  /** The short form without a subpage ("PN,1A2") stores subpage 0. */
  lemma ShortPageNumberRoundTrip(f: PageInfo, mag: byte, page: byte, rest: Line)
    requires 1 <= mag <= 8
    requires rest == [] || !IsDigit(rest[0], 36)
    ensures ParseResult(f, [0x50, 0x4E, 0x2C] + ToDigits(mag as int * 0x100 + page as int, 16) + rest)
         == (f.(subpage := 0, mag := mag, page := page), 0)
  {
    var n := mag as int * 0x100 + page as int;
    PnLine(f, n, rest, [0x50, 0x4E, 0x2C] + ToDigits(n, 16) + rest);
    PageNumberShort(f, mag, page);
  }

  /** strtol with base 0 reads "010" as octal. */
  lemma OctalArgument(u: Line)
    requires u == [0x30, 0x31, 0x30, 0x0A, 0]
    ensures Strtol(u, 0) == 8
  {
    assert SpaceRun(u) == 0;
    assert u[0..] == u;
    assert BasePrefix(u, 0) == (8, 0);
    assert DigitRun(u, 8) == 3 by {
      assert u == [0x30, 0x31, 0x30] + [0x0A, 0];
      DigitRunPrefix([0x30, 0x31, 0x30], [0x0A, 0], 8);
    }
    assert u[..3] == [0x30] + [0x31] + [0x30];
    DigitsValueSnoc([], 0x30, 8);
    DigitsValueSnoc([0x30], 0x31, 8);
    DigitsValueSnoc([0x30] + [0x31], 0x30, 8);
  }

  /** A CT line stores a timed page and its argument read with base 0. */
  lemma ParseCt(f: PageInfo, s: Line, v: int)
    requires |s| >= 4 && s[0] == 0x43 && s[2] == 0x2C
    requires Strtol(s[3..], 0) == v
    ensures ParseResult(f, s) == (f.(timerMode := 0x54, time := U32(v)), 0)
  {
  }

  /** CT reads its argument with base 0: "CT,010" is a cycle time of 8, not 10. */
  lemma CycleTimeOctal(f: PageInfo, s: Line)
    requires s == [0x43, 0x54, 0x2C, 0x30, 0x31, 0x30, 0x0A, 0]
    ensures ParseResult(f, s) == (f.(timerMode := 0x54, time := 8), 0)
  {
    OctalArgument(s[3..]);
    ParseCt(f, s, 8);
    U32Eight();
  }
}
