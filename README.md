# sieve_date_offset_filter — a Dafny model

`sieve_date_offset_filter` is a mail filter used from a Sieve script. It
reads an e-mail message on standard input. It finds the first `Date:` header
and parses its value under four layouts. It then says, through its exit
status only, whether that date lies 48 hours or more after the current time.

This project models `main.go` and proves properties of the model:

- `ByteStream` is standard input as `bufio.Reader.ReadByte` sees it. It is a
  `ByteReader` object holding the bytes still to come and a read position.
  The stream ends either cleanly (`io.EOF`) or with an I/O error.
- `LineReader` holds `readToNewlineOr1K`, `advanceToNextLine` and `atEof`.
  They are methods over that reader, the first with a fixed 1024-byte
  buffer. They are proved against the function `NextLine`, which gives the
  line one call delivers, and `Consumed`, which gives how many bytes it
  reads.
- `EmailTime` holds `parseEmailTime`: the parenthesis splice, exactly as
  sliced in the code, then RFC1123Z, the short-day numeric-zone layout,
  RFC1123 and the short-day named-zone layout, tried in that order.
- `Filter` holds the loop of `main`. `Run` is proved equal to `Scan`, which
  reads line by line. `Scan` is proved equal to `FirstDateHeader`, an
  independent definition over the physical lines of the input (the pieces
  between newlines). From that equality follow: the first `Date:` header
  decides, the spam code comes only from a far-future date, and a read error
  fails open.
- `GoStrings` holds the parts of Go's `strings` package the program uses.
  A Go string is one `char` per byte.
- `Outcomes` holds the exit codes and the ways a run can end.

How a run ends is an `Outcome`:

- `Exit(code)` for an `os.Exit(code)`.
- `Return` when `main` returns normally, which is exit status 0.
- `Panic` for a runtime panic from a slice out of range. The Go runtime ends
  such a process with status 2.

The exit codes are the ones `main.go` declares: `EXIT_CODE_OK = 1` accepts
the message, `EXIT_CODE_SPAM = 0` rejects it, and `EXIT_CODE_ERR = 2` is never
used. Status 0 is also what a normal return from `main` gives.

Two consequences of the code as written are proved and kept as they are:

- A message with no `Date:` header makes `main` return. That gives status 0,
  the same number as `EXIT_CODE_SPAM` (`Filter.NoDateHeaderReturns`).
- A `Date:` value that begins with `(` makes the slice
  `timestamp[0:parenFound-1]` end at -1. Go panics with
  `slice bounds out of range [:-1]`
  (`EmailTime.StripAnnotation`, `Filter.EvaluateThreshold`).

Parameters stand in for what lies outside the program:

- `now: Instant` is `time.Now()`. An instant is an integer number of
  nanoseconds.
- `parse: TimeParser` is `time.Parse(layout, value)`, a function from a
  layout and a value to an optional instant.

## Model

| member | source | states |
|---|---|---|
| ByteStream.ByteReader.constructor | main.go:103 | a reader over the given bytes starts at position 0 |
| ByteStream.ByteReader.ReadByte | main.go:21 | returns the next byte with a nil error and advances by one. At the end of the input it returns the stream's terminating error (`io.EOF` or an I/O error) and does not move. |
| GoStrings.FromBytes | main.go:23 | `string(bs)`: one character per byte, so the string has the bytes' length; `FromBytesKeepsBytes` states the values |
| GoStrings.FromBytesKeepsBytes | main.go:23 | `string(bs)` keeps every byte's value at its index |
| GoStrings.IndexOf | main.go:73 | gives -1 exactly when the character is absent. Otherwise it gives an index that holds the character, with no earlier occurrence. |
| GoStrings.TrimLeftDropsPrefix | main.go:110 | `TrimLeft` removes a prefix made only of cut-set characters, and what remains does not start with one |
| GoStrings.TrimRightDropsSuffix | main.go:110 | `TrimRight` removes a suffix made only of cut-set characters, and what remains does not end with one |
| GoStrings.Trim | main.go:110-113 | `strings.Trim`: cut-set characters removed from both ends and nothing else; `TrimPadded` and `TrimBounds` state its result |
| GoStrings.TrimPadded | main.go:110 | trimming a text padded on both sides with cut-set characters yields that text, when the text neither starts nor ends with one |
| GoStrings.TrimBounds | main.go:113 | `Trim` never lengthens its argument and leaves no cut-set character at either end |
| GoStrings.ToLower | main.go:112 | `strings.ToLower` keeps the length; `ToLowerCharwise` states each character |
| GoStrings.ToLowerCharwise | main.go:112 | lower-casing works character by character |
| LineReader.AtEof | main.go:52-68 | a nil error means not at the end and `io.EOF` means the end. Any other error exits with `EXIT_CODE_OK`, never with the spam code. |
| LineReader.LineLengthFindsNewline | main.go:20-31 | the line ends at the first newline, or at the end of the input when there is none |
| LineReader.NextLine | main.go:17-37 | the result of one `readToNewlineOr1K` call on the unread bytes: the first 1024 bytes of the line with the end-of-file flag, or an exit when the stream fails before a newline; `NextLineBounds`, `NextLineOfSplit` and `NextLineOfLast` state its properties |
| LineReader.Consumed | main.go:17-50 | how many bytes that call reads, `advanceToNextLine` included: the line and its newline, or everything when no newline is left; `NextLineOfSplit` and `NextLineOfLast` state its value |
| LineReader.NextLineBounds | main.go:17-37 | a line delivered is at most 1024 bytes and holds no newline. The end-of-file flag is set exactly when no newline was left. The reader exits with `EXIT_CODE_OK` exactly when the stream fails before a newline. |
| LineReader.NextLineOfSplit | main.go:17-37 | for input `line + "\n" + after`: the line is returned cut to 1024 bytes, without the end-of-file flag, and exactly `line` and its newline are consumed |
| LineReader.NextLineOfLast | main.go:17-37 | with no newline left: the rest of the input (cut to 1024 bytes) is returned with the end-of-file flag, or the reader exits on a failing stream. Either way it reads to the end. |
| LineReader.AdvanceToNextLine | main.go:39-50 | consumes exactly up to and including the next newline. It reports not-at-end when a newline was there, exits with `EXIT_CODE_OK` on a failing stream, and otherwise reports the end. |
| LineReader.ReadToNewlineOr1K | main.go:17-37 | the line returned and the bytes consumed are those of `NextLine` and `Consumed` on the unread input, including the 1024-byte cut with the rest of the line dropped |
| EmailTime.StripAnnotation | main.go:73-76 | a value without `(` is unchanged. The slice is out of range exactly when `(` is the first character. |
| EmailTime.StripAnnotationSplice | main.go:71-76 | `head sep (note) tail` normalises to `head tail`: the separator, the parentheses and the note are removed |
| EmailTime.StripAnnotationUnclosed | main.go:73-76 | with `(` but no `)` the second slice starts at 0, so the text before the separator is followed by the whole value |
| EmailTime.ParseEmailTime | main.go:70-99 | `parseEmailTime`: the splice, then the four layouts in the order tried; `ParseEmailTimeFirstMatch` states its result |
| EmailTime.ParseEmailTimeFirstMatch | main.go:70-99 | out of range exactly when the splice is. nil exactly when none of the four layouts matches. Otherwise the time comes from the first layout, in the order tried, that matches. |
| EmailTime.AnnotatedValueParses | main.go:71-76 | a value followed by ` (note)`, such as `+0000 (UTC)`, parses exactly as the bare value |
| Filter.IsDateHeader | main.go:112 | `strings.Index(strings.ToLower(line), "date:") == 0`; `IsDateHeaderIgnoresCase` states which lines pass |
| Filter.IsDateHeaderIgnoresCase | main.go:112 | a line is a date header exactly when its first five characters are `date:` in any letter case |
| Filter.FieldValue | main.go:113 | the text after the first colon (the whole line when there is none), trimmed of spaces; `FieldValueAfterFirstColon` and `DateHeaderValue` state its result |
| Filter.FieldValueAfterFirstColon | main.go:113 | the field value is the text after the first colon without surrounding spaces |
| Filter.DateHeaderValue | main.go:112-113 | on a date header the value is the line after `date:`, trimmed of spaces |
| Filter.Evaluate | main.go:114-132 | the outcome once a `Date:` value is found; `EvaluateThreshold` states it |
| Filter.EvaluateThreshold | main.go:114-132 | a panic exactly when the splice is out of range. The spam code exactly when the date parses to a time at or after now + 48 hours. The accepting code exactly when the date does not parse or is earlier. Nothing else. |
| Filter.Scan | main.go:105-138 | the loop of `main` read line by line from a position: each line trimmed and tested, the first `Date:` header decides, the end-of-file line ends the run; `ScanIsFirstDateHeader` relates it to the physical lines |
| Filter.ScanIsFirstDateHeader | main.go:105-138 | the line-by-line loop ends exactly as the decision on physical lines. The first `Date:` header decides and no later line matters. When no line is a header the run returns, or it exits accepting when the stream fails before its last line. |
| Filter.ScanEnd | main.go:105-138 | where the reader stands when the loop ends: never before the starting position and never past the end of the input |
| Filter.ScanEndIsFirstDateEnd | main.go:105-138 | the loop reads exactly the physical lines up to and including the first `Date:` header, each with its newline, or the whole input when none comes before the last line |
| Filter.RunStopsAfterFirstHeader | main.go:112-133 | when physical line i, not the last, is the first `Date:` header, the reader stops just past that line's newline and reads nothing after it |
| Filter.RunReadsAllWithoutHeader | main.go:135-138 | with no `Date:` header before the last physical line, the loop reads the whole input |
| Filter.NoDateHeaderReturns | main.go:135-138 | on a cleanly ending input with no `Date:` header, `main` returns normally, with exit status 0, which is the spam code's number |
| Filter.ReadErrorFailsOpen | main.go:52-64 | a read error before any `Date:` header ends the run with `EXIT_CODE_OK` |
| Filter.SpamOnlyFarFuture | main.go:121-128 | the spam code is chosen only when the first `Date:` header parses to a time at or after now + 48 hours |
| Filter.Run | main.go:101-139 | `main` ends as `Scan` on the unread input, and leaves the reader at `ScanEnd`: just past the line that decided |

## Left out

- `time.Parse`'s grammar for layouts and values belongs to Go's library and is the parameter `parse`. Month and day names, zone abbreviations and range checks are therefore not modelled.
- `time.Now()` is the parameter `now`. `curTime.Add(time.Hour * 48)` is exact integer addition; the `time.Time` and `Duration` range limits are not modelled.
- Logging to standard error and the `fmt.Print("too far in future")` line on standard output are not modelled; only the exit status matters to the caller.
- `os.Exit` is modelled as an `Outcome` value that ends the run, not as process termination.
- `bufio.Reader`'s internal buffering is not modelled. A read error can only come once every byte has been delivered, and it repeats on every later read.
- `strings.ToLower` is modelled for ASCII letters only. Go also lower-cases other Unicode letters, and that can change byte lengths.
- The Go runtime's panic message is not modelled; a panic is `Outcome.Panic` with status 2.
- Determinism (the same input and `now` give the same status) holds because the model is a set of functions of their inputs; it is not stated as a separate lemma.
