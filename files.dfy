/**
 * The stdio view of a page file that mag.c relies on: fopen by name,
 * fgets into a fixed line buffer, feof and fseek to the start. A file is
 * its bytes and a read position; the directory of page files is a map
 * from file name to contents.
 */
module Files {
  import opened Tables
  import opened CString

  /** MAXLINE in pageToTransmit and domag: the size of the line buffer handed to fgets. */
  const MaxLine := 200

  /**
   * Where fgets stops reading from pos: just after a newline, after
   * limit bytes, or at the end of the file, whichever comes first.
   */
  function ChunkEnd(content: seq<byte>, pos: nat, limit: nat): (j: nat)
    requires pos < |content| && limit >= 1
    ensures pos < j <= |content| && j - pos <= limit
    ensures forall k :: pos <= k < j - 1 ==> content[k] != 0x0A
    ensures content[j - 1] == 0x0A || j - pos == limit || j == |content|
    decreases |content| - pos
  {
    if content[pos] == 0x0A || limit == 1 || pos + 1 == |content| then pos + 1
    else ChunkEnd(content, pos + 1, limit - 1)
  }

  /** The line buffer after fgets copied chunk into it: the chunk, a NUL, then what was there before. */
  function Fgot(buf: seq<byte>, chunk: seq<byte>): (r: seq<byte>)
    requires |chunk| < |buf|
    ensures |r| == |buf|
  {
    chunk + [0] + buf[|chunk| + 1..]
  }

  /**
   * One fgets(str, MaxLine, f) as values: the new read position, the
   * end-of-file flag and the buffer. At the end of the file nothing is
   * read, the flag is set and the buffer is left as it was; the flag is
   * also set when a read ran into the end without a newline.
   */
  function Gets(content: seq<byte>, pos: nat, eof: bool, buf: seq<byte>): (r: (nat, bool, seq<byte>))
    requires pos <= |content| && |buf| == MaxLine
    ensures r.0 <= |content| && |r.2| == MaxLine
    ensures pos < |content| ==> r.0 > pos
    ensures pos == |content| ==> r == (pos, true, buf)
  {
    if pos == |content| then (pos, true, buf)
    else
      var j := ChunkEnd(content, pos, MaxLine - 1);
      (j, content[j - 1] != 0x0A && j - pos < MaxLine - 1, Fgot(buf, content[pos..j]))
  }

  /** An open FILE: its bytes, the read position and the end-of-file indicator. */
  class PageFile {
    const content: seq<byte>
    var pos: nat
    var eof: bool

    predicate Valid()
      reads this
    {
      pos <= |content|
    }

    /** fopen: positioned at the start, end-of-file indicator clear. */
    constructor Open(content: seq<byte>)
      ensures this.content == content && pos == 0 && !eof && Valid()
    {
      this.content := content;
      pos := 0;
      eof := false;
    }

    /** fgets(str, MAXLINE, f), with str the caller's line buffer. */
    method Fgets(str: array<byte>)
      requires Valid() && str.Length == MaxLine
      modifies this, str
      ensures Valid()
      ensures (pos, eof, str[..]) == Gets(content, old(pos), old(eof), old(str[..]))
    {
      if pos == |content| {
        eof := true;
        return;
      }
      var j := ChunkEnd(content, pos, MaxLine - 1);
      ghost var before := str[..];
      forall k | 0 <= k < j - pos {
        str[k] := content[pos + k];
      }
      str[j - pos] := 0;
      assert str[..] == Fgot(before, content[pos..j]);
      eof := content[j - 1] != 0x0A && j - pos < MaxLine - 1;
      pos := j;
    }

    /** fseek(f, 0, SEEK_SET): back to the start, end-of-file indicator clear. */
    method Rewind()
      modifies this
      ensures pos == 0 && !eof && Valid()
    {
      pos := 0;
      eof := false;
    }
  }

  /** A line of at most MaxLine - 2 bytes ending in a newline is read whole by one fgets, and leaves the flag clear. */
  lemma {:induction false} GetsWholeLine(before: seq<byte>, line: seq<byte>, after: seq<byte>, buf: seq<byte>)
    requires |buf| == MaxLine
    requires 1 <= |line| <= MaxLine - 1 && line[|line| - 1] == 0x0A
    requires forall k :: 0 <= k < |line| - 1 ==> line[k] != 0x0A
    ensures Gets(before + line + after, |before|, false, buf) == (|before| + |line|, false, Fgot(buf, line))
  {
    var content := before + line + after;
    ChunkEndLine(content, |before|, MaxLine - 1, line);
    assert content[|before|..|before| + |line|] == line;
  }

  lemma {:induction false} ChunkEndLine(content: seq<byte>, pos: nat, limit: nat, line: seq<byte>)
    requires 1 <= |line| <= limit && pos + |line| <= |content|
    requires content[pos..pos + |line|] == line
    requires line[|line| - 1] == 0x0A
    requires forall k :: 0 <= k < |line| - 1 ==> line[k] != 0x0A
    ensures ChunkEnd(content, pos, limit) == pos + |line|
    decreases |line|
  {
    assert content[pos] == line[0];
    if |line| > 1 {
      assert content[pos + 1..pos + |line|] == line[1..];
      ChunkEndLine(content, pos + 1, limit - 1, line[1..]);
    }
  }

  /** fopen(name, "r"): a file of the directory, or null when there is none by that name. */
  method Fopen(files: map<Line, seq<byte>>, name: Line) returns (f: PageFile?)
    ensures f == null <==> name !in files
    ensures f != null ==> fresh(f) && f.content == files[name] && f.pos == 0 && !f.eof
  {
    if name in files {
      f := new PageFile.Open(files[name]);
    } else {
      f := null;
    }
  }
}
