/** The bounded line reader: `readToNewlineOr1K`, `advanceToNextLine` and
    `atEof` of main.go, over a `ByteReader`. */
module LineReader {
  import opened GoStrings
  import opened ByteStream
  import opened Outcomes

  /** the size of the fixed buffer a line is read into */
  const MaxLine := 1024

  /** What `atEof` makes of an error: `Eof(atEof)` when the program goes on,
      `Exited(code)` when it has called `os.Exit(code)`. */
  datatype EofCheck = Eof(atEof: bool) | Exited(code: int)

  /** What `readToNewlineOr1K` delivers: a line and its end-of-file flag, or
      the exit status of the process that ended inside it. */
  datatype LineRead = Line(text: string, atEof: bool) | Aborted(code: int)

  /** `atEof`: a nil error is not the end, `io.EOF` is, and any other error
      ends the process with the accepting status, never the spam one. */
  function AtEof(err: ReadErr): (c: EofCheck)
    ensures c == Eof(false) <==> err == NoErr
    ensures c == Eof(true) <==> err == EndOfFile
    ensures c.Exited? <==> err == IoError
    ensures c.Exited? ==> c.code == ExitCodeOk && c.code != ExitCodeSpam
  {
    match err
    case NoErr => Eof(false)
    case EndOfFile => Eof(true)
    case IoError => Exited(ExitCodeOk)
  }

  /** The length of the first physical line of `s`: the index of its first
      newline, or `|s|` when it has none. */
  function LineLength(s: seq<byte>): (k: nat)
    ensures k <= |s|
  {
    if s == [] || s[0] == Newline then 0 else 1 + LineLength(s[1..])
  }

  /** `LineLength` stops at the first newline: no byte before it is one, and
      the byte at it is one unless it is the end. */
  lemma {:induction false} LineLengthFindsNewline(s: seq<byte>)
    ensures forall j :: 0 <= j < LineLength(s) ==> s[j] != Newline
    ensures LineLength(s) < |s| ==> s[LineLength(s)] == Newline
    ensures LineLength(s) == |s| <==> Newline !in s
  {
    if s != [] && s[0] != Newline {
      LineLengthFindsNewline(s[1..]);
      assert s == [s[0]] + s[1..];
    }
  }

  /** The line that starts at `pos` ends with a newline at `pos + k`. */
  ghost predicate LineEndsAt(input: seq<byte>, pos: nat, k: nat)
  {
    pos + k < |input| && input[pos + k] == Newline && Newline !in input[pos..pos + k]
  }

  /** The first newline at or after `pos` ends the line that starts there. */
  lemma LineLengthSplits(input: seq<byte>, pos: nat)
    requires pos <= |input| && Newline in input[pos..]
    ensures LineEndsAt(input, pos, LineLength(input[pos..]))
  {
    var rest := input[pos..];
    LineLengthFindsNewline(rest);
    var k := LineLength(rest);
    assert input[pos..pos + k] == rest[..k];
    assert forall j :: 0 <= j < k ==> rest[..k][j] == rest[j];
  }

  /** A newline with none before it gives the line length. */
  lemma LineLengthAt(s: seq<byte>, k: nat)
    requires k < |s| && s[k] == Newline && Newline !in s[..k]
    ensures LineLength(s) == k
  {
    LineLengthFindsNewline(s);
    assert forall j :: 0 <= j < k ==> s[j] == s[..k][j];
  }

  /** Past `n` bytes that hold no newline, the line is `n` bytes shorter
      and the reader has `n` bytes fewer to consume. */
  lemma LineLengthAfter(s: seq<byte>, n: nat)
    requires n <= LineLength(s)
    ensures LineLength(s[n..]) == LineLength(s) - n
    ensures Consumed(s) == n + Consumed(s[n..])
    ensures Newline in s <==> Newline in s[n..]
  {
    LineLengthFindsNewline(s);
    LineLengthFindsNewline(s[n..]);
    var k := LineLength(s[n..]);
    if k < |s[n..]| {
      assert s[n + k] == Newline;
    }
    if Newline in s {
      var j :| 0 <= j < |s| && s[j] == Newline;
      assert s[n..][j - n] == Newline;
    }
  }

  /** How many bytes one call reads from `rest`: the first physical line and
      its newline, or everything when there is no newline. */
  function Consumed(rest: seq<byte>): nat
  {
    if LineLength(rest) < |rest| then LineLength(rest) + 1 else |rest|
  }

  function Min(a: int, b: int): int
  {
    if a <= b then a else b
  }

  /** What one `readToNewlineOr1K` call returns when `rest` are the bytes not
      yet read and `failure` says whether the stream ends in an I/O error. */
  function NextLine(rest: seq<byte>, failure: bool): LineRead
  {
    var k := LineLength(rest);
    if k == |rest| && failure then Aborted(ExitCodeOk)
    else Line(FromBytes(rest[..Min(k, MaxLine)]), k == |rest|)
  }

  /** A line read is at most 1024 bytes long and holds no newline; the
      end-of-file flag is set exactly when no newline was left; the reader
      exits, with the accepting status, exactly when the stream fails before
      a newline. */
  lemma NextLineBounds(rest: seq<byte>, failure: bool)
    ensures NextLine(rest, failure).Line? ==>
      |NextLine(rest, failure).text| <= MaxLine && '\n' !in NextLine(rest, failure).text
    ensures NextLine(rest, failure).Line? ==> (NextLine(rest, failure).atEof <==> Newline !in rest)
    ensures NextLine(rest, failure).Aborted? <==> failure && Newline !in rest
    ensures NextLine(rest, failure).Aborted? ==> NextLine(rest, failure).code == ExitCodeOk
  {
    LineLengthFindsNewline(rest);
    var bs := rest[..Min(LineLength(rest), MaxLine)];
    FromBytesKeepsBytes(bs);
    assert forall i :: 0 <= i < |bs| ==> FromBytes(bs)[i] != '\n';
  }

  /** The reader's result characterised by how the input splits at its first
      newline: the line before it, cut to its first 1024 bytes, and a reader
      positioned just past that newline; the rest of an overlong line is
      read and dropped. */
  lemma NextLineOfSplit(line: seq<byte>, after: seq<byte>, failure: bool)
    requires Newline !in line
    ensures NextLine(line + [Newline] + after, failure)
         == Line(FromBytes(line[..Min(|line|, MaxLine)]), false)
    ensures Consumed(line + [Newline] + after) == |line| + 1
  {
    var rest := line + [Newline] + after;
    LineLengthFindsNewline(rest);
    assert rest[|line|] == Newline;
    assert LineLength(rest) == |line| by {
      assert forall j :: 0 <= j < |line| ==> rest[j] == line[j];
    }
    assert rest[..Min(|line|, MaxLine)] == line[..Min(|line|, MaxLine)];
  }

  /** Without a newline left, the reader returns what remains (cut to 1024
      bytes) with the end-of-file flag, or exits on a failing stream; either
      way it reads to the end. */
  lemma NextLineOfLast(rest: seq<byte>, failure: bool)
    requires Newline !in rest
    ensures NextLine(rest, failure)
         == if failure then Aborted(ExitCodeOk)
            else Line(FromBytes(rest[..Min(|rest|, MaxLine)]), true)
    ensures Consumed(rest) == |rest|
  {
    LineLengthFindsNewline(rest);
  }

  /** `advanceToNextLine`: reads and drops bytes up to and including the next
      newline; reports whether it met the end of the input instead. */
  method AdvanceToNextLine(reader: ByteReader) returns (c: EofCheck)
    requires reader.Valid()
    modifies reader`pos
    ensures reader.Valid()
    ensures reader.pos == old(reader.pos) + Consumed(reader.input[old(reader.pos)..])
    ensures c == if Newline in reader.input[old(reader.pos)..] then Eof(false)
                 else if reader.failure then Exited(ExitCodeOk)
                 else Eof(true)
  {
    ghost var rest := reader.Rest();
    ghost var start := reader.pos;
    ghost var k := LineLength(rest);
    LineLengthFindsNewline(rest);
    while true
      invariant reader.Valid() && start <= reader.pos
      invariant reader.pos - start <= k
      decreases |reader.input| - reader.pos
    {
      ghost var i := reader.pos - start;
      var b, err := reader.ReadByte();
      var eof := AtEof(err);
      if eof.Exited? || eof.atEof {
        assert i == k == |rest|;
        assert Newline !in rest;
        return if eof.Exited? then eof else Eof(true);
      }
      assert b == rest[i];
      if b == Newline {
        assert i == k && Newline in rest;
        return Eof(false);
      }
    }
  }

  /** `readToNewlineOr1K`: fills a 1024-byte buffer with the bytes up to the
      next newline; on a full buffer it drops the rest of the line. */
  method ReadToNewlineOr1K(reader: ByteReader) returns (r: LineRead)
    requires reader.Valid()
    modifies reader`pos
    ensures reader.Valid()
    ensures r == NextLine(reader.input[old(reader.pos)..], reader.failure)
    ensures reader.pos == old(reader.pos) + Consumed(reader.input[old(reader.pos)..])
  {
    ghost var rest := reader.Rest();
    ghost var start := reader.pos;
    LineLengthFindsNewline(rest);
    var bs := new byte[MaxLine];
    for i := 0 to MaxLine
      invariant reader.Valid() && reader.pos == start + i
      invariant i <= LineLength(rest)
      invariant bs[..i] == rest[..i]
    {
      var b, err := reader.ReadByte();
      var eof := AtEof(err);
      if eof.Exited? {
        return Aborted(eof.code);
      }
      if eof.atEof {
        return Line(FromBytes(bs[..i]), true);
      }
      if b == Newline {
        return Line(FromBytes(bs[..i]), false);
      }
      bs[i] := b;
    }
    // the buffer is full: drop the rest of the current line
    LineLengthAfter(rest, MaxLine);
    assert reader.input[reader.pos..] == rest[MaxLine..];
    var eof := AdvanceToNextLine(reader);
    if eof.Exited? {
      return Aborted(eof.code);
    }
    assert bs[..] == rest[..Min(LineLength(rest), MaxLine)];
    assert eof.atEof <==> LineLength(rest) == |rest|;
    return Line(FromBytes(bs[..]), eof.atEof);
  }
}
