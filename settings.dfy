/**
 * The configuration globals (settings.c): the 32-byte header template
 * used for row 0, the settings that packet 8/30 carries, and the
 * validation of configuration file lines.
 */
module Settings {
  import opened Tables
  import opened CString

  /** readConfigFile could not open the file. */
  const NoConfig := 1
  /** A configuration line was rejected. */
  const BadConfig := 2

  const TemplateSize := 32

  /** The default header template: " VBIT-PI %%# %%a %d %%b", alpha yellow (0x83), then "%H:%M/%S". */
  function DefaultTemplate(): (t: Line)
    ensures |t| == TemplateSize
    ensures t[23] == 0x83
  {
    Ascii(" VBIT-PI %%# %%a %d %%b") + [0x83] + Ascii("%H:%M/%S")
  }

  /** "header_template=", the prefix of a configuration line that sets the header template. */
  function TemplateKey(): (k: Line)
    ensures |k| == 16
  {
    [0x68, 0x65, 0x61, 0x64, 0x65, 0x72, 0x5F, 0x74, 0x65, 0x6D, 0x70, 0x6C, 0x61, 0x74, 0x65, 0x3D]
  }

  /** The message stored when a header template has the wrong length. */
  function TemplateLengthError(): Line
  {
    Ascii("\"header_template\" must be exactly 32 bytes")
  }

  predicate IsLineEnd(c: byte)
  {
    c == 0x0D || c == 0x0A
  }

  /** The first index at or after i of a byte that is not CR or LF, or |s|. */
  function SkipLineEnds(s: Line, i: nat): (k: nat)
    requires i <= |s|
    ensures i <= k <= |s|
    ensures forall j :: i <= j < k ==> IsLineEnd(s[j])
    ensures k < |s| ==> !IsLineEnd(s[k])
    decreases |s| - i
  {
    if i == |s| || !IsLineEnd(s[i]) then i else SkipLineEnds(s, i + 1)
  }

  /** The first index at or after i of a CR or LF, or |s|. */
  function NextLineEnd(s: Line, i: nat): (k: nat)
    requires i <= |s|
    ensures i <= k <= |s|
    ensures forall j :: i <= j < k ==> !IsLineEnd(s[j])
    ensures k < |s| ==> IsLineEnd(s[k])
    decreases |s| - i
  {
    if i == |s| || IsLineEnd(s[i]) then i else NextLineEnd(s, i + 1)
  }

  /**
   * Where strtok(line, "\r\n") writes its NUL in the C string s: None when
   * s holds nothing but CR and LF (strtok returns NULL); otherwise the end
   * of the first token, which is |s| when no line end follows it.
   */
  function TokenCut(s: Line): (r: Option<nat>)
    ensures r.Some? ==> r.value <= |s| && 0 < r.value
    ensures r.None? <==> forall j :: 0 <= j < |s| ==> IsLineEnd(s[j])
  {
    var k := SkipLineEnds(s, 0);
    if k == |s| then None else Some(NextLineEnd(s, k))
  }

  /** The error string for an unrecognised line: a quote, up to 29 bytes of it, "..." when it has 30 or more, a quote. */
  function JunkError(line: Line): (e: Line)
    ensures |e| >= 2 && e[0] == 0x22 && e[|e| - 1] == 0x22
    ensures |line| < 30 ==> e == [0x22] + line + [0x22]
    ensures |line| >= 30 ==> |e| == 34 && e[1..30] == line[..29] && e[30..33] == Ascii("...")
  {
    var shown := if |line| < 29 then line else line[..29];
    [0x22] + shown + (if |line| >= 30 then Ascii("...") else []) + [0x22]
  }

  /** What parseConfigLine does with the line left by strtok. */
  datatype Verdict = Ignored | SetTemplate(template: Line) | Rejected(error: Line)

  /** The verdict for the C string s of a configuration line (before strtok). */
  function Judge(s: Line): (v: Verdict)
    ensures v.SetTemplate? ==> |v.template| == TemplateSize
    ensures v.Ignored? ==> TokenCut(s).None? || s[0] == 0x3B
  {
    match TokenCut(s)
    case None => Ignored
    case Some(cut) => LineVerdict(s[..cut])
  }

  /** The verdict on the non-empty line strtok leaves: a comment, a header template of the right length or not, or junk. */
  function LineVerdict(line: Line): (v: Verdict)
    requires line != []
    ensures v.SetTemplate? ==> |v.template| == TemplateSize
    ensures v.Ignored? <==> line[0] == 0x3B
  {
    if line[0] == 0x3B then Ignored
    else if |line| >= 16 && line[..16] == TemplateKey() then
      if |line| - 16 == TemplateSize then SetTemplate(line[16..]) else Rejected(TemplateLengthError())
    else Rejected(JunkError(line))
  }

  /** parseConfigLine returns 0 for the line held in a line buffer. */
  predicate Accepted(l: Line)
  {
    !Judge(CStr(l)).Rejected?
  }

  /** The value parseConfigLine returns for a verdict. */
  function Code(v: Verdict): int
  {
    if v.Rejected? then BadConfig else 0
  }

  /** A header template line with 32 bytes (none of them CR, LF or NUL) after the key is accepted, whatever line end follows. */
  lemma TemplateLineAccepted(t: Line, ending: Line)
    requires |t| == TemplateSize
    requires forall i :: 0 <= i < |t| ==> !IsLineEnd(t[i])
    requires forall i :: 0 <= i < |ending| ==> IsLineEnd(ending[i])
    ensures Judge(TemplateKey() + t + ending) == SetTemplate(t)
  {
    var s := TemplateKey() + t + ending;
    assert !IsLineEnd(s[0]);
    assert SkipLineEnds(s, 0) == 0;
    NextLineEndAt(s, 0, 48);
    assert s[..48] == TemplateKey() + t;
    assert s[..48][..16] == TemplateKey();
  }

  lemma {:induction false} NextLineEndAt(s: Line, i: nat, k: nat)
    requires i <= k <= |s|
    requires forall j :: i <= j < k ==> !IsLineEnd(s[j])
    requires k < |s| ==> IsLineEnd(s[k])
    ensures NextLineEnd(s, i) == k
    decreases k - i
  {
    if i < k {
      NextLineEndAt(s, i + 1, k);
    }
  }

  /** A template of any other length is refused with the fixed message. */
  lemma TemplateLengthRejected(t: Line)
    requires |t| != TemplateSize
    requires forall i :: 0 <= i < |t| ==> !IsLineEnd(t[i])
    ensures Judge(TemplateKey() + t) == Rejected(TemplateLengthError())
  {
    var s := TemplateKey() + t;
    assert !IsLineEnd(s[0]);
    assert SkipLineEnds(s, 0) == 0;
    NextLineEndAt(s, 0, |s|);
    assert s[..|s|][..16] == TemplateKey();
  }

  /** The settings the configuration file may change and the ones packet 8/30 reads. */
  class Config {
    /** headerTemplate[33]: 32 bytes of template and a NUL. */
    const headerTemplate: array<byte>
    var multiplexedSignalFlag: byte
    var initialMag: byte
    var initialPage: byte
    var initialSubcode: bv16
    var networkIdentificationCode: bv16
    /** configErrorString, as the C string it holds. */
    var configErrorString: Line

    ghost predicate Valid()
      reads this, headerTemplate
    {
      headerTemplate.Length == TemplateSize + 1 && headerTemplate[TemplateSize] == 0
    }

    /** The globals as the C runtime zero-initialises them. */
    constructor ()
      ensures Valid() && fresh(headerTemplate)
      ensures headerTemplate[..] == seq(TemplateSize + 1, _ => 0)
      ensures multiplexedSignalFlag == 0 && initialMag == 0 && initialPage == 0
      ensures initialSubcode == 0 && networkIdentificationCode == 0 && configErrorString == []
    {
      headerTemplate := new byte[TemplateSize + 1](_ => 0);
      multiplexedSignalFlag, initialMag, initialPage := 0, 0, 0;
      initialSubcode, networkIdentificationCode := 0, 0;
      configErrorString := [];
    }

    /** initConfigDefaults. */
    method InitConfigDefaults()
      requires Valid()
      modifies this, headerTemplate
      ensures Valid()
      ensures headerTemplate[..TemplateSize] == DefaultTemplate()
      ensures multiplexedSignalFlag == 0 && initialMag == 1 && initialPage == 0
      ensures initialSubcode == 0x3F7F && networkIdentificationCode == 0
      ensures configErrorString == old(configErrorString)
    {
      var t := DefaultTemplate();
      var i := 0;
      while i < TemplateSize
        invariant 0 <= i <= TemplateSize
        invariant headerTemplate[..i] == t[..i]
        invariant headerTemplate[TemplateSize] == 0
        modifies headerTemplate
      {
        headerTemplate[i] := t[i];
        i := i + 1;
      }
      multiplexedSignalFlag := 0;
      initialMag := 1;
      initialPage := 0;
      initialSubcode := 0x3F7F;
      networkIdentificationCode := 0;
    }

    /**
     * parseConfigLine: configLine holds a C string, which strtok cuts at
     * its first line end; the verdict on the line decides the result, the
     * template and the error string.
     */
    method ParseConfigLine(configLine: array<byte>) returns (r: int)
      requires Valid() && 0 in configLine[..]
      requires configLine != headerTemplate
      modifies this, headerTemplate, configLine
      ensures Valid()
      ensures var s := CStr(old(configLine[..])); var v := Judge(s);
        && r == Code(v)
        && (v.SetTemplate? ==> headerTemplate[..TemplateSize] == v.template)
        && (!v.SetTemplate? ==> headerTemplate[..] == old(headerTemplate[..]))
        && (v.Rejected? ==> configErrorString == v.error)
        && (!v.Rejected? ==> configErrorString == old(configErrorString))
        && (TokenCut(s).Some? && TokenCut(s).value < |s| ==>
              configLine[..] == old(configLine[..])[TokenCut(s).value := 0])
        && (TokenCut(s).None? || TokenCut(s).value == |s| ==> configLine[..] == old(configLine[..]))
      ensures multiplexedSignalFlag == old(multiplexedSignalFlag) && initialMag == old(initialMag)
      ensures initialPage == old(initialPage) && initialSubcode == old(initialSubcode)
      ensures networkIdentificationCode == old(networkIdentificationCode)
    {
      var s := CStr(configLine[..]);
      ghost var v := Judge(s);
      var cut := TokenCut(s);
      if cut.None? {
        assert v == Ignored;
        return 0;
      }
      if cut.value < |s| {
        configLine[cut.value] := 0;
      }
      var line := s[..cut.value];
      if line[0] == 0x3B {
        assert v == Ignored;
        return 0;
      }
      if |line| >= 16 && line[..16] == TemplateKey() {
        if |line| - 16 == TemplateSize {
          assert v == SetTemplate(line[16..]);
          CopyTemplate(line[16..]);
          return 0;
        } else {
          assert v == Rejected(TemplateLengthError());
          configErrorString := TemplateLengthError();
          return BadConfig;
        }
      }
      assert v == Rejected(JunkError(line));
      configErrorString := JunkError(line);
      return BadConfig;
    }

    /** strncpy(headerTemplate, src, 32) for a 32-byte src: the template becomes src, its NUL stays. */
    method CopyTemplate(src: Line)
      requires Valid() && |src| == TemplateSize
      modifies headerTemplate
      ensures Valid()
      ensures headerTemplate[..TemplateSize] == src
    {
      var i := 0;
      while i < TemplateSize
        invariant 0 <= i <= TemplateSize
        invariant headerTemplate[..i] == src[..i]
        invariant headerTemplate[TemplateSize] == 0
      {
        headerTemplate[i] := src[i];
        i := i + 1;
      }
    }

    /** One line as fgets leaves it in the line buffer (followed by a NUL), passed to parseConfigLine. */
    method ParseBufferedLine(l: Line) returns (code: int)
      requires Valid()
      modifies this, headerTemplate
      ensures Valid()
      ensures code == 0 <==> Accepted(l)
      ensures Judge(CStr(l)).SetTemplate? ==> headerTemplate[..TemplateSize] == Judge(CStr(l)).template
      ensures headerTemplate[..TemplateSize] == NextTemplate(l, old(headerTemplate[..TemplateSize]))
      ensures multiplexedSignalFlag == old(multiplexedSignalFlag) && initialMag == old(initialMag)
      ensures initialPage == old(initialPage) && initialSubcode == old(initialSubcode)
      ensures networkIdentificationCode == old(networkIdentificationCode)
    {
      var buf := new byte[|l| + 1](k requires 0 <= k <= |l| => if k < |l| then l[k] else 0);
      assert buf[..] == l + [0];
      assert buf[|l|] == 0;
      CStrOfTerminated(l);
      code := ParseConfigLine(buf);
    }

    /**
     * readConfigFile over the lines fgets returns (None when the file
     * cannot be opened): defaults first, then each line in turn, stopping
     * at the first rejected one.
     */
    method ReadConfigFile(file: Option<seq<Line>>) returns (r: int)
      requires Valid()
      modifies this, headerTemplate
      ensures Valid()
      ensures file.None? ==> r == NoConfig
      ensures file.Some? ==> (r, headerTemplate[..TemplateSize]) == ReadOutcome(file.value, DefaultTemplate())
      ensures initialMag == 1 && initialPage == 0 && initialSubcode == 0x3F7F
      ensures multiplexedSignalFlag == 0 && networkIdentificationCode == 0
    {
      InitConfigDefaults();
      if file.None? {
        return NoConfig;
      }
      var lines := file.value;
      ghost var target := ReadOutcome(lines, DefaultTemplate());
      var i := 0;
      while i < |lines|
        invariant 0 <= i <= |lines| && Valid()
        invariant ReadOutcome(lines[i..], headerTemplate[..TemplateSize]) == target
        invariant initialMag == 1 && initialPage == 0 && initialSubcode == 0x3F7F
        invariant multiplexedSignalFlag == 0 && networkIdentificationCode == 0
      {
        ghost var i0, t0 := i, headerTemplate[..TemplateSize];
        var code := ParseBufferedLine(lines[i]);
        if code != 0 {
          ReadOutcomeStops(lines, i, t0);
          return BadConfig;
        }
        i := i + 1;
        ReadOutcomeStep(lines, i0, i, t0, headerTemplate[..TemplateSize]);
      }
      r := 0;
    }
  }

  /** The C string of a line followed by a NUL is the line up to its own first NUL. */
  lemma {:induction false} CStrOfTerminated(l: Line)
    ensures CStr(l + [0]) == CStr(l)
  {
    if l != [] {
      assert (l + [0])[1..] == l[1..] + [0];
      CStrOfTerminated(l[1..]);
    }
  }

  /**
   * What reading lines does, starting from template t: BadConfig and the
   * template so far at the first rejected line, otherwise 0 and the last
   * template set.
   */
  function ReadOutcome(lines: seq<Line>, t: Line): (r: (int, Line))
    requires |t| == TemplateSize
    ensures |r.1| == TemplateSize
  {
    if lines == [] then (0, t)
    else
      match Judge(CStr(lines[0]))
      case Rejected(_) => (BadConfig, t)
      case SetTemplate(t') => ReadOutcome(lines[1..], t')
      case Ignored => ReadOutcome(lines[1..], t)
  }

  /** The template line i leaves behind, from template t. */
  function NextTemplate(l: Line, t: Line): Line
  {
    var v := Judge(CStr(l));
    if v.SetTemplate? then v.template else t
  }

  /** An accepted line i: reading on from it is reading on from line i + 1 with the template it leaves. */
  lemma ReadOutcomeStep(lines: seq<Line>, i: nat, i1: nat, t: Line, t1: Line)
    requires |t| == TemplateSize && i < |lines| && i1 == i + 1
    requires Accepted(lines[i]) && t1 == NextTemplate(lines[i], t)
    ensures |t1| == TemplateSize
    ensures ReadOutcome(lines[i..], t) == ReadOutcome(lines[i1..], t1)
  {
    assert lines[i..][1..] == lines[i1..];
  }

  /** A rejected line i ends the reading with BadConfig and the template so far. */
  lemma ReadOutcomeStops(lines: seq<Line>, i: nat, t: Line)
    requires |t| == TemplateSize && i < |lines| && !Accepted(lines[i])
    ensures ReadOutcome(lines[i..], t) == (BadConfig, t)
  {
  }

  /** readConfigFile returns 0 exactly when every line is accepted, and BadConfig otherwise. */
  lemma {:induction false} ReadOutcomeCode(lines: seq<Line>, t: Line)
    requires |t| == TemplateSize
    ensures ReadOutcome(lines, t).0 == 0 <==> forall i :: 0 <= i < |lines| ==> Accepted(lines[i])
    ensures ReadOutcome(lines, t).0 == 0 || ReadOutcome(lines, t).0 == BadConfig
  {
    if lines != [] {
      var v := Judge(CStr(lines[0]));
      if !v.Rejected? {
        ReadOutcomeCode(lines[1..], NextTemplate(lines[0], t));
        assert forall i :: 1 <= i < |lines| ==> lines[i] == lines[1..][i - 1];
      }
    }
  }
}
