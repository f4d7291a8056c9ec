/** The loop of `main` in main.go: read lines until the first `Date:` header,
    then decide between accepting the message and flagging it as too far in
    the future. */
module Filter {
  import opened Wrappers
  import opened GoStrings
  import opened ByteStream
  import opened Outcomes
  import opened LineReader
  import opened EmailTime

  /** the characters cut from both ends of every line */
  const LineCutset: set<char> := {' ', '\r', '\n'}

  /** one hour, in nanoseconds */
  const Hour: int := 3_600_000_000_000

  /** how far ahead of the current time a message may be dated */
  const MaxAhead: int := 48 * Hour

  /** `strings.Index(strings.ToLower(line), "date:") == 0`: the lowered
      line begins with `date:`. */
  predicate IsDateHeader(line: string)
  {
    |line| >= 5 && ToLower(line)[..5] == "date:"
  }

  /** The header test is a case-insensitive match of the name `date`
      followed at once by a colon; nothing else in the line matters. */
  lemma IsDateHeaderIgnoresCase(line: string)
    ensures IsDateHeader(line) <==>
      |line| >= 5 &&
      (line[0] == 'd' || line[0] == 'D') && (line[1] == 'a' || line[1] == 'A') &&
      (line[2] == 't' || line[2] == 'T') && (line[3] == 'e' || line[3] == 'E') &&
      line[4] == ':'
  {
    ToLowerCharwise(line);
    if |line| >= 5 {
      var lower := ToLower(line);
      assert lower[..5] == [lower[0], lower[1], lower[2], lower[3], lower[4]];
    }
  }

  /** `strings.Trim(line[strings.Index(line, ":")+1:], " ")` */
  function FieldValue(line: string): string
  {
    Trim(line[IndexOf(line, ':') + 1..], {' '})
  }

  /** A header splits at its first colon: the value is what follows it,
      without surrounding spaces. */
  lemma FieldValueAfterFirstColon(name: string, value: string)
    requires ':' !in name
    ensures FieldValue(name + ":" + value) == Trim(value, {' '})
  {
    var line := name + ":" + value;
    assert line[..|name|] == name && line[|name|] == ':';
    assert IndexOf(line, ':') == |name|;
    assert line[|name| + 1..] == value;
  }

  /** On a `Date:` header the colon is the fifth character, so the value is
      the rest of the line without surrounding spaces. */
  lemma DateHeaderValue(line: string)
    requires IsDateHeader(line)
    ensures FieldValue(line) == Trim(line[5..], {' '})
  {
    IsDateHeaderIgnoresCase(line);
    assert ':' !in line[..4] by {
      assert forall j :: 0 <= j < 4 ==> line[..4][j] == line[j];
    }
    FieldValueAfterFirstColon(line[..4], line[5..]);
    assert line[..4] + ":" + line[5..] == line;
  }

  /** The verdict on a `Date:` value, as `main` reaches it after a
      `Date:` header. */
  function Evaluate(value: string, now: Instant, parse: TimeParser): Outcome
  {
    match ParseEmailTime(value, parse)
    case OutOfRange => Panic
    case Unparsed => Exit(ExitCodeOk)
    case Parsed(t) =>
      var threshold := now + MaxAhead;
      if t >= threshold then Exit(ExitCodeSpam) else Exit(ExitCodeOk)
  }

  /** A panic when the normalisation slices out of range, accept when no
      layout matches, and otherwise reject exactly when the time is at or
      after `now` + 48 hours; no other outcome. */
  lemma EvaluateThreshold(value: string, now: Instant, parse: TimeParser)
    ensures Evaluate(value, now, parse).Panic? <==> StripAnnotation(value).None?
    ensures Evaluate(value, now, parse) == Exit(ExitCodeSpam) <==> FarFuture(value, now, parse)
    ensures Evaluate(value, now, parse) == Exit(ExitCodeOk) <==>
      ParseEmailTime(value, parse).Unparsed? ||
      (ParseEmailTime(value, parse).Parsed? && ParseEmailTime(value, parse).instant < now + MaxAhead)
    ensures Evaluate(value, now, parse).Panic? ||
      Evaluate(value, now, parse) == Exit(ExitCodeOk) || Evaluate(value, now, parse) == Exit(ExitCodeSpam)
  {
  }

  /** How a run ends when standard input holds `input` and the first `pos`
      bytes have been read: each line is read, trimmed and tested in turn,
      the first `Date:` header decides, and the last line (the one read with
      the end-of-file flag) is tested before the run returns. */
  function Scan(input: seq<byte>, pos: nat, failure: bool, now: Instant, parse: TimeParser): Outcome
    requires pos <= |input|
    decreases |input| - pos
  {
    var rest := input[pos..];
    match NextLine(rest, failure)
    case Aborted(code) => Exit(code)
    case Line(text, atEof) =>
      var line := Trim(text, LineCutset);
      if IsDateHeader(line) then Evaluate(FieldValue(line), now, parse)
      else if atEof then Return
      else Scan(input, pos + Consumed(rest), failure, now, parse)
  }

  /** Where the reader stands when `Scan` from `pos` ends: just past the
      line that decided (a `Date:` header, the last line, or the line whose
      read failed), never further. */
  ghost function ScanEnd(input: seq<byte>, pos: nat, failure: bool): (end: nat)
    requires pos <= |input|
    ensures pos <= end <= |input|
    decreases |input| - pos
  {
    var rest := input[pos..];
    match NextLine(rest, failure)
    case Aborted(_) => pos + Consumed(rest)
    case Line(text, atEof) =>
      if IsDateHeader(Trim(text, LineCutset)) || atEof then pos + Consumed(rest)
      else ScanEnd(input, pos + Consumed(rest), failure)
  }

  /** The physical lines of the input: the pieces between newlines, the
      last one (possibly empty) running to the end. */
  function PhysicalLines(rest: seq<byte>): (lines: seq<seq<byte>>)
    ensures |lines| >= 1
    decreases |rest|
  {
    var k := LineLength(rest);
    if k == |rest| then [rest] else [rest[..k]] + PhysicalLines(rest[k + 1..])
  }

  /** A physical line as the header test sees it: cut to the first 1024
      bytes and trimmed. */
  function HeaderText(physical: seq<byte>): string
  {
    Trim(FromBytes(physical[..Min(|physical|, MaxLine)]), LineCutset)
  }

  /** The decision stated over whole physical lines: the first line whose
      text is a `Date:` header decides and no later line matters; without
      one the run returns; on a stream that fails, the last line is never
      tested and the run exits with the accepting status. */
  function FirstDateHeader(lines: seq<seq<byte>>, failure: bool, now: Instant, parse: TimeParser): Outcome
    requires |lines| >= 1
    decreases |lines|
  {
    if |lines| == 1 && failure then Exit(ExitCodeOk)
    else if IsDateHeader(HeaderText(lines[0])) then Evaluate(FieldValue(HeaderText(lines[0])), now, parse)
    else if |lines| == 1 then Return
    else FirstDateHeader(lines[1..], failure, now, parse)
  }

  /** The number of bytes read when deciding over physical lines: every
      line up to and including the first `Date:` header, each with its
      newline; all of the input when no line before the last is one. */
  function FirstDateEnd(lines: seq<seq<byte>>): nat
    requires |lines| >= 1
    decreases |lines|
  {
    if |lines| == 1 then |lines[0]|
    else if IsDateHeader(HeaderText(lines[0])) then |lines[0]| + 1
    else |lines[0]| + 1 + FirstDateEnd(lines[1..])
  }

  /** The length of `lines` written out one after another, each followed by
      a newline. */
  function Span(lines: seq<seq<byte>>): nat
    decreases |lines|
  {
    if lines == [] then 0 else |lines[0]| + 1 + Span(lines[1..])
  }

  /** `Scan` on a last line, one with no newline after it. */
  lemma ScanLastLine(input: seq<byte>, pos: nat, failure: bool, now: Instant, parse: TimeParser)
    requires pos <= |input| && Newline !in input[pos..]
    ensures Scan(input, pos, failure, now, parse)
         == if failure then Exit(ExitCodeOk)
            else if IsDateHeader(HeaderText(input[pos..])) then Evaluate(FieldValue(HeaderText(input[pos..])), now, parse)
            else Return
  {
    NextLineOfLast(input[pos..], failure);
  }

  /** `Scan` on a line ended by a newline at `pos + k`. */
  lemma ScanSplitLine(input: seq<byte>, pos: nat, k: nat, failure: bool, now: Instant, parse: TimeParser)
    requires LineEndsAt(input, pos, k)
    ensures Scan(input, pos, failure, now, parse)
         == if IsDateHeader(HeaderText(input[pos..pos + k]))
            then Evaluate(FieldValue(HeaderText(input[pos..pos + k])), now, parse)
            else Scan(input, pos + k + 1, failure, now, parse)
  {
    var rest := input[pos..];
    assert rest == input[pos..pos + k] + [Newline] + input[pos + k + 1..];
    NextLineOfSplit(input[pos..pos + k], input[pos + k + 1..], failure);
  }

  /** The physical lines from `pos` on, when the first of them ends at a
      newline at `pos + k`: that line, then the physical lines after it. */
  lemma PhysicalLinesSplit(input: seq<byte>, pos: nat, k: nat)
    requires LineEndsAt(input, pos, k)
    ensures PhysicalLines(input[pos..]) == [input[pos..pos + k]] + PhysicalLines(input[pos + k + 1..])
  {
    var rest := input[pos..];
    assert rest[..k] == input[pos..pos + k] && rest[k] == Newline;
    LineLengthAt(rest, k);
    assert rest[k + 1..] == input[pos + k + 1..];
  }

  /** Past a first line that is not the last one, `FirstDateHeader` either
      decides on it or moves on to the next. */
  lemma FirstDateHeaderStep(lines: seq<seq<byte>>, failure: bool, now: Instant, parse: TimeParser)
    requires |lines| >= 2
    ensures FirstDateHeader(lines, failure, now, parse)
         == if IsDateHeader(HeaderText(lines[0])) then Evaluate(FieldValue(HeaderText(lines[0])), now, parse)
            else FirstDateHeader(lines[1..], failure, now, parse)
  {
  }

  /** On a last line the loop and the decision on physical lines agree. */
  lemma ScanAgreesOnLastLine(input: seq<byte>, pos: nat, failure: bool, now: Instant, parse: TimeParser)
    requires pos <= |input| && Newline !in input[pos..]
    ensures ScanMatchesLines(input, pos, failure, now, parse)
  {
    ScanLastLine(input, pos, failure, now, parse);
    LineLengthFindsNewline(input[pos..]);
    assert PhysicalLines(input[pos..]) == [input[pos..]];
  }

  /** On a line ended by a newline at `pos + k`, the loop and the decision
      on physical lines agree when they agree on what follows the newline. */
  lemma ScanAgreesOnSplitLine(input: seq<byte>, pos: nat, k: nat, failure: bool, now: Instant, parse: TimeParser)
    requires LineEndsAt(input, pos, k)
    requires ScanMatchesLines(input, pos + k + 1, failure, now, parse)
    ensures ScanMatchesLines(input, pos, failure, now, parse)
  {
    var lines := PhysicalLines(input[pos..]);
    PhysicalLinesSplit(input, pos, k);
    assert lines[0] == input[pos..pos + k] && lines[1..] == PhysicalLines(input[pos + k + 1..]);
    FirstDateHeaderStep(lines, failure, now, parse);
    ScanSplitLine(input, pos, k, failure, now, parse);
  }

  /** The loop from `pos` on ends as the decision on the physical lines
      from `pos` on. */
  ghost predicate ScanMatchesLines(input: seq<byte>, pos: nat, failure: bool, now: Instant, parse: TimeParser)
    requires pos <= |input|
  {
    Scan(input, pos, failure, now, parse) == FirstDateHeader(PhysicalLines(input[pos..]), failure, now, parse)
  }

  /** The line-by-line loop and the decision on physical lines agree on
      every input. */
  lemma {:induction false} ScanIsFirstDateHeader(input: seq<byte>, pos: nat, failure: bool, now: Instant, parse: TimeParser)
    requires pos <= |input|
    ensures ScanMatchesLines(input, pos, failure, now, parse)
    decreases |input| - pos
  {
    if Newline !in input[pos..] {
      ScanAgreesOnLastLine(input, pos, failure, now, parse);
    } else {
      var k := LineLength(input[pos..]);
      assert LineEndsAt(input, pos, k) by {
        LineLengthSplits(input, pos);
      }
      assert ScanMatchesLines(input, pos + k + 1, failure, now, parse) by {
        ScanIsFirstDateHeader(input, pos + k + 1, failure, now, parse);
      }
      ScanAgreesOnSplitLine(input, pos, k, failure, now, parse);
    }
  }

  /** `FirstDateHeader` when no physical line is a `Date:` header. */
  lemma {:induction false} NoHeaderFirstDate(lines: seq<seq<byte>>, failure: bool, now: Instant, parse: TimeParser)
    requires |lines| >= 1
    requires forall i :: 0 <= i < |lines| - 1 ==> !IsDateHeader(HeaderText(lines[i]))
    requires !failure ==> !IsDateHeader(HeaderText(lines[|lines| - 1]))
    ensures FirstDateHeader(lines, failure, now, parse) == if failure then Exit(ExitCodeOk) else Return
    decreases |lines|
  {
    if |lines| > 1 {
      NoHeaderFirstDate(lines[1..], failure, now, parse);
    }
  }

  /** Without any `Date:` header on a cleanly ending stream, `main` returns
      normally: exit status 0, the same number as the spam code. */
  lemma NoDateHeaderReturns(input: seq<byte>, now: Instant, parse: TimeParser)
    requires forall i :: 0 <= i < |PhysicalLines(input)| ==> !IsDateHeader(HeaderText(PhysicalLines(input)[i]))
    ensures Scan(input, 0, false, now, parse) == Return
    ensures ExitStatus(Scan(input, 0, false, now, parse)) == ExitCodeSpam
  {
    ScanIsFirstDateHeader(input, 0, false, now, parse);
    assert input[0..] == input;
    NoHeaderFirstDate(PhysicalLines(input), false, now, parse);
  }

  /** A read error before any `Date:` header ends the run with the accepting
      status, never with the spam one. */
  lemma ReadErrorFailsOpen(input: seq<byte>, now: Instant, parse: TimeParser)
    requires forall i :: 0 <= i < |PhysicalLines(input)| - 1 ==> !IsDateHeader(HeaderText(PhysicalLines(input)[i]))
    ensures Scan(input, 0, true, now, parse) == Exit(ExitCodeOk)
  {
    ScanIsFirstDateHeader(input, 0, true, now, parse);
    assert input[0..] == input;
    NoHeaderFirstDate(PhysicalLines(input), true, now, parse);
  }

  /** `FirstDateHeader` flags a message only for a first `Date:` header
      whose value parses to a time at or after `now` + 48 hours. */
  lemma {:induction false} FirstDateSpamOnlyFarFuture(lines: seq<seq<byte>>, failure: bool, now: Instant, parse: TimeParser)
    requires |lines| >= 1
    requires FirstDateHeader(lines, failure, now, parse) == Exit(ExitCodeSpam)
    ensures exists i :: (0 <= i < |lines| && IsFirstDateLine(lines, i) &&
                         FarFuture(FieldValue(HeaderText(lines[i])), now, parse))
    decreases |lines|
  {
    if IsDateHeader(HeaderText(lines[0])) {
      EvaluateThreshold(FieldValue(HeaderText(lines[0])), now, parse);
      assert IsFirstDateLine(lines, 0);
    } else {
      FirstDateSpamOnlyFarFuture(lines[1..], failure, now, parse);
      var i :| 0 <= i < |lines[1..]| && IsFirstDateLine(lines[1..], i) &&
        FarFuture(FieldValue(HeaderText(lines[1..][i])), now, parse);
      assert IsFirstDateLine(lines, i + 1) by {
        forall j | 0 <= j < i + 1 ensures !IsDateHeader(HeaderText(lines[j])) {
          if j > 0 { assert lines[j] == lines[1..][j - 1]; }
        }
      }
    }
  }

  /** Line `i` is a `Date:` header and no earlier line is one. */
  ghost predicate IsFirstDateLine(lines: seq<seq<byte>>, i: int)
  {
    0 <= i < |lines| && IsDateHeader(HeaderText(lines[i])) &&
    forall j :: 0 <= j < i ==> !IsDateHeader(HeaderText(lines[j]))
  }

  /** `value` parses to a time at or after `now` + 48 hours. */
  ghost predicate FarFuture(value: string, now: Instant, parse: TimeParser)
  {
    ParseEmailTime(value, parse).Parsed? && ParseEmailTime(value, parse).instant >= now + MaxAhead
  }

  /** The spam code is chosen only for an input whose first `Date:` header
      parses to a time at or after `now` + 48 hours. */
  lemma SpamOnlyFarFuture(input: seq<byte>, failure: bool, now: Instant, parse: TimeParser)
    requires Scan(input, 0, failure, now, parse) == Exit(ExitCodeSpam)
    ensures exists i :: (0 <= i < |PhysicalLines(input)| && IsFirstDateLine(PhysicalLines(input), i) &&
                         FarFuture(FieldValue(HeaderText(PhysicalLines(input)[i])), now, parse))
  {
    ScanIsFirstDateHeader(input, 0, failure, now, parse);
    assert input[0..] == input;
    FirstDateSpamOnlyFarFuture(PhysicalLines(input), failure, now, parse);
  }

  /** The physical lines, each followed by a newline, are one byte longer
      than the input: only the last line has no newline after it. */
  lemma {:induction false} PhysicalLinesSpan(rest: seq<byte>)
    ensures Span(PhysicalLines(rest)) == |rest| + 1
    decreases |rest|
  {
    var k := LineLength(rest);
    if k < |rest| {
      var lines := PhysicalLines(rest);
      assert lines[1..] == PhysicalLines(rest[k + 1..]);
      PhysicalLinesSpan(rest[k + 1..]);
    }
  }

  /** The span of a prefix of `[l] + ls`: `l` with its newline, then the
      shorter prefix of `ls`. */
  lemma SpanPrefixCons(l: seq<byte>, ls: seq<seq<byte>>, i: nat)
    requires i <= |ls|
    ensures Span(([l] + ls)[..i + 1]) == |l| + 1 + Span(ls[..i])
  {
    assert ([l] + ls)[..i + 1] == [l] + ls[..i];
    assert ([l] + ls[..i])[1..] == ls[..i];
  }

  /** The first `i + 1` physical lines with their newlines end just past a
      newline of the input, when line `i` is not the last. */
  lemma {:induction false} PhysicalLinesPrefixSpan(rest: seq<byte>, i: nat)
    requires i < |PhysicalLines(rest)| - 1
    ensures Span(PhysicalLines(rest)[..i + 1]) <= |rest|
    ensures rest[Span(PhysicalLines(rest)[..i + 1]) - 1] == Newline
    decreases |rest|
  {
    var k := LineLength(rest);
    LineLengthFindsNewline(rest);
    var after := rest[k + 1..];
    assert PhysicalLines(rest) == [rest[..k]] + PhysicalLines(after);
    SpanPrefixCons(rest[..k], PhysicalLines(after), i);
    if i == 0 {
      assert PhysicalLines(after)[..0] == [];
    } else {
      PhysicalLinesPrefixSpan(after, i - 1);
      var m := Span(PhysicalLines(after)[..i]);
      assert rest[k + 1 + m - 1] == after[m - 1];
    }
  }

  /** Deciding on the first `Date:` header, when it is not the last line,
      reads exactly the lines up to it and their newlines. */
  lemma {:induction false} FirstDateEndAtHeader(lines: seq<seq<byte>>, i: nat)
    requires i < |lines| - 1 && IsFirstDateLine(lines, i)
    ensures FirstDateEnd(lines) == Span(lines[..i + 1])
    decreases i
  {
    var prefix := lines[..i + 1];
    assert prefix[0] == lines[0];
    if i == 0 {
      assert prefix[1..] == [];
    } else {
      assert !IsDateHeader(HeaderText(lines[0]));
      assert IsFirstDateLine(lines[1..], i - 1) by {
        assert lines[1..][i - 1] == lines[i];
        forall j | 0 <= j < i - 1 ensures !IsDateHeader(HeaderText(lines[1..][j])) {
          assert lines[1..][j] == lines[j + 1];
        }
      }
      FirstDateEndAtHeader(lines[1..], i - 1);
      assert prefix[1..] == lines[1..][..i];
    }
  }

  /** Without a `Date:` header before the last line, every byte is read. */
  lemma {:induction false} FirstDateEndNoHeader(lines: seq<seq<byte>>)
    requires |lines| >= 1
    requires forall j :: 0 <= j < |lines| - 1 ==> !IsDateHeader(HeaderText(lines[j]))
    ensures FirstDateEnd(lines) == Span(lines) - 1
    decreases |lines|
  {
    if |lines| > 1 {
      assert !IsDateHeader(HeaderText(lines[0]));
      assert forall j :: 0 <= j < |lines[1..]| - 1 ==> lines[1..][j] == lines[j + 1];
      FirstDateEndNoHeader(lines[1..]);
    } else {
      assert lines[1..] == [];
    }
  }

  /** Where the reader stops on a last line: at the end of the input. */
  lemma ScanEndOnLastLine(input: seq<byte>, pos: nat, failure: bool)
    requires pos <= |input| && Newline !in input[pos..]
    ensures ScanEnd(input, pos, failure) == pos + FirstDateEnd(PhysicalLines(input[pos..]))
  {
    NextLineOfLast(input[pos..], failure);
    LineLengthFindsNewline(input[pos..]);
    assert PhysicalLines(input[pos..]) == [input[pos..]];
  }

  /** Where the reader stops on a line ended by a newline at `pos + k`:
      just past that newline on a `Date:` header, otherwise where it stops
      from the next line. */
  lemma ScanEndSplitLine(input: seq<byte>, pos: nat, k: nat, failure: bool)
    requires LineEndsAt(input, pos, k)
    ensures ScanEnd(input, pos, failure)
         == if IsDateHeader(HeaderText(input[pos..pos + k])) then pos + k + 1
            else ScanEnd(input, pos + k + 1, failure)
  {
    var rest := input[pos..];
    assert rest == input[pos..pos + k] + [Newline] + input[pos + k + 1..];
    NextLineOfSplit(input[pos..pos + k], input[pos + k + 1..], failure);
  }

  /** Where the reader stops on a line ended by a newline at `pos + k`, when
      the two agree on what follows the newline. */
  lemma ScanEndOnSplitLine(input: seq<byte>, pos: nat, k: nat, failure: bool)
    requires LineEndsAt(input, pos, k)
    requires ScanEnd(input, pos + k + 1, failure) == pos + k + 1 + FirstDateEnd(PhysicalLines(input[pos + k + 1..]))
    ensures ScanEnd(input, pos, failure) == pos + FirstDateEnd(PhysicalLines(input[pos..]))
  {
    var lines := PhysicalLines(input[pos..]);
    PhysicalLinesSplit(input, pos, k);
    assert lines[0] == input[pos..pos + k] && lines[1..] == PhysicalLines(input[pos + k + 1..]);
    ScanEndSplitLine(input, pos, k, failure);
  }

  /** The reader stops where the decision on physical lines stops reading. */
  lemma {:induction false} ScanEndIsFirstDateEnd(input: seq<byte>, pos: nat, failure: bool)
    requires pos <= |input|
    ensures ScanEnd(input, pos, failure) == pos + FirstDateEnd(PhysicalLines(input[pos..]))
    decreases |input| - pos
  {
    if Newline !in input[pos..] {
      ScanEndOnLastLine(input, pos, failure);
    } else {
      var k := LineLength(input[pos..]);
      LineLengthSplits(input, pos);
      ScanEndIsFirstDateEnd(input, pos + k + 1, failure);
      ScanEndOnSplitLine(input, pos, k, failure);
    }
  }

  /** No line after the first `Date:` header is read: when that header is
      physical line `i` and not the last, the run stops just past the
      newline that ends it. */
  lemma RunStopsAfterFirstHeader(input: seq<byte>, failure: bool, i: nat)
    requires i < |PhysicalLines(input)| - 1 && IsFirstDateLine(PhysicalLines(input), i)
    ensures ScanEnd(input, 0, failure) == Span(PhysicalLines(input)[..i + 1])
    ensures ScanEnd(input, 0, failure) < |input| + 1 && input[ScanEnd(input, 0, failure) - 1] == Newline
  {
    ScanEndIsFirstDateEnd(input, 0, failure);
    assert input[0..] == input;
    FirstDateEndAtHeader(PhysicalLines(input), i);
    PhysicalLinesPrefixSpan(input, i);
  }

  /** Without a `Date:` header before the last line, the run reads the
      whole input. */
  lemma RunReadsAllWithoutHeader(input: seq<byte>, failure: bool)
    requires forall j :: 0 <= j < |PhysicalLines(input)| - 1 ==> !IsDateHeader(HeaderText(PhysicalLines(input)[j]))
    ensures ScanEnd(input, 0, failure) == |input|
  {
    ScanEndIsFirstDateEnd(input, 0, failure);
    assert input[0..] == input;
    FirstDateEndNoHeader(PhysicalLines(input));
    PhysicalLinesSpan(input);
  }

  /** The line that ends the run leaves the reader just past it. */
  lemma ScanEndStops(input: seq<byte>, start: nat, failure: bool)
    requires start <= |input|
    requires NextLine(input[start..], failure).Aborted? ||
      IsDateHeader(Trim(NextLine(input[start..], failure).text, LineCutset)) ||
      NextLine(input[start..], failure).atEof
    ensures ScanEnd(input, start, failure) == start + Consumed(input[start..])
  {
  }

  /** The run ends where the reader exits. */
  lemma ScanAborts(input: seq<byte>, start: nat, failure: bool, now: Instant, parse: TimeParser)
    requires start <= |input| && NextLine(input[start..], failure).Aborted?
    ensures Scan(input, start, failure, now, parse) == Exit(NextLine(input[start..], failure).code)
  {
  }

  /** The first `Date:` header decides the run. */
  lemma ScanDecides(input: seq<byte>, start: nat, failure: bool, now: Instant, parse: TimeParser)
    requires start <= |input| && NextLine(input[start..], failure).Line?
    requires IsDateHeader(Trim(NextLine(input[start..], failure).text, LineCutset))
    ensures Scan(input, start, failure, now, parse)
         == Evaluate(FieldValue(Trim(NextLine(input[start..], failure).text, LineCutset)), now, parse)
  {
  }

  /** The last line, when it is not a `Date:` header, ends the run normally. */
  lemma ScanReturns(input: seq<byte>, start: nat, failure: bool, now: Instant, parse: TimeParser)
    requires start <= |input| && NextLine(input[start..], failure).Line? && NextLine(input[start..], failure).atEof
    requires !IsDateHeader(Trim(NextLine(input[start..], failure).text, LineCutset))
    ensures Scan(input, start, failure, now, parse) == Return
  {
  }

  /** A line that is neither a `Date:` header nor the last is skipped: the
      run goes on, and ends, as from the next line at `next`. */
  lemma ScanSkips(input: seq<byte>, start: nat, next: nat, failure: bool, now: Instant, parse: TimeParser)
    requires start <= |input| && NextLine(input[start..], failure).Line? && !NextLine(input[start..], failure).atEof
    requires !IsDateHeader(Trim(NextLine(input[start..], failure).text, LineCutset))
    requires next == start + Consumed(input[start..])
    ensures start < next <= |input|
    ensures Scan(input, start, failure, now, parse) == Scan(input, next, failure, now, parse)
    ensures ScanEnd(input, start, failure) == ScanEnd(input, next, failure)
  {
  }

  /** `main`: reads lines from `reader` until one is a `Date:` header or the
      input ends; `now` stands for `time.Now()` and `parse` for
      `time.Parse`. */
  method Run(reader: ByteReader, now: Instant, parse: TimeParser) returns (o: Outcome)
    requires reader.Valid()
    modifies reader`pos
    ensures o == Scan(reader.input, old(reader.pos), reader.failure, now, parse)
    ensures reader.pos == ScanEnd(reader.input, old(reader.pos), reader.failure)
  {
    ghost var goal := Scan(reader.input, reader.pos, reader.failure, now, parse);
    ghost var end := ScanEnd(reader.input, reader.pos, reader.failure);
    while true
      invariant reader.Valid()
      invariant Scan(reader.input, reader.pos, reader.failure, now, parse) == goal
      invariant ScanEnd(reader.input, reader.pos, reader.failure) == end
      decreases |reader.input| - reader.pos
    {
      ghost var start := reader.pos;
      var r := ReadToNewlineOr1K(reader);
      if r.Aborted? {
        ScanAborts(reader.input, start, reader.failure, now, parse);
        ScanEndStops(reader.input, start, reader.failure);
        return Exit(r.code);
      }
      var line := Trim(r.text, LineCutset);
      if IsDateHeader(line) {
        var dateField := FieldValue(line);
        ScanDecides(reader.input, start, reader.failure, now, parse);
        ScanEndStops(reader.input, start, reader.failure);
        return Evaluate(dateField, now, parse);
      }
      if r.atEof {
        ScanReturns(reader.input, start, reader.failure, now, parse);
        ScanEndStops(reader.input, start, reader.failure);
        break;
      }
      ScanSkips(reader.input, start, reader.pos, reader.failure, now, parse);
    }
    return Return;
  }
}
