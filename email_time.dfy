/** `parseEmailTime` of main.go: cuts a parenthesised annotation out of a
    `Date:` value, then tries four layouts of Go's `time.Parse` in a fixed
    order and keeps the first success. */
module EmailTime {
  import opened Wrappers
  import opened GoStrings

  /** An instant, in nanoseconds on a fixed time line. */
  type Instant = int

  /** Go's `time.Parse(layout, value)`: the instant `value` denotes under
      `layout`, or None when `value` does not match. Its grammar belongs to
      Go's library and is a parameter of this model. */
  type TimeParser = (string, string) -> Option<Instant>

  /** Go's `time.RFC1123Z` */
  const RFC1123Z := "Mon, 02 Jan 2006 15:04:05 -0700"
  /** numeric zone offset, day of month without a leading zero */
  const NumericZoneShortDay := "Mon, 2 Jan 2006 15:04:05 -0700"
  /** Go's `time.RFC1123` */
  const RFC1123 := "Mon, 02 Jan 2006 15:04:05 MST"
  /** named zone, day of month without a leading zero */
  const NamedZoneShortDay := "Mon, 2 Jan 2006 15:04:05 MST"

  /** the layouts in the order they are tried */
  const Layouts: seq<string> := [RFC1123Z, NumericZoneShortDay, RFC1123, NamedZoneShortDay]

  /** The result of `parseEmailTime`: a time, nil, or the panic of an
      out-of-range slice. */
  datatype ParseOutcome = Parsed(instant: Instant) | Unparsed | OutOfRange

  /** The normalisation `timestamp[0:p-1] + timestamp[q+1:]`, where `p` is the
      index of the first `(` and `q` that of the first `)` (-1 without one).
      With `(` at index 0 the first slice is out of range: None. */
  function StripAnnotation(ts: string): (r: Option<string>)
    ensures '(' !in ts ==> r == Some(ts)
    ensures r.None? <==> ts != [] && ts[0] == '('
  {
    var p := IndexOf(ts, '(');
    if p < 0 then Some(ts)
    else if p == 0 then None
    else Some(ts[..p - 1] + ts[IndexOf(ts, ')') + 1..])
  }

  /** The annotation the normalisation is meant for: `head`, one separating
      character, then `(note)` and any `tail`. The separator, the parentheses
      and the note are cut out. */
  lemma StripAnnotationSplice(head: string, sep: char, note: string, tail: string)
    requires '(' !in head && ')' !in head && sep != '(' && sep != ')'
    requires ')' !in note && '(' !in note
    ensures StripAnnotation(head + [sep] + "(" + note + ")" + tail) == Some(head + tail)
  {
    var ts := head + [sep] + "(" + note + ")" + tail;
    var p := |head| + 1;
    var q := |head| + 2 + |note|;
    assert ts[p] == '(' && ts[q] == ')';
    assert ts[..p] == head + [sep];
    assert ts[..q] == head + [sep] + "(" + note;
    assert IndexOf(ts, '(') == p;
    assert IndexOf(ts, ')') == q;
    assert ts[..p - 1] == head;
    assert ts[q + 1..] == tail;
  }

  /** An opening parenthesis with no closing one anywhere: the text before its
      separator is followed by the whole value again, because the missing
      `)` gives index -1 and the second slice starts at 0. */
  lemma StripAnnotationUnclosed(head: string, sep: char, tail: string)
    requires '(' !in head && sep != '('
    requires ')' !in head + [sep] + "(" + tail
    ensures StripAnnotation(head + [sep] + "(" + tail)
         == Some(head + (head + [sep] + "(" + tail))
  {
    var ts := head + [sep] + "(" + tail;
    var p := |head| + 1;
    assert ts[p] == '(';
    assert ts[..p] == head + [sep];
    assert IndexOf(ts, '(') == p;
    assert ts[..p - 1] == head;
  }

  /** Layout `i` is the first of `layouts` under which `value` parses. */
  ghost predicate FirstMatch(layouts: seq<string>, value: string, parse: TimeParser, i: int)
  {
    0 <= i < |layouts| && parse(layouts[i], value).Some? &&
    forall j :: 0 <= j < i ==> parse(layouts[j], value).None?
  }

  /** `parseEmailTime`: the normalised value under RFC1123Z, the short-day
      numeric-zone layout, RFC1123, then the short-day named-zone layout; the
      first layout that matches gives the result, nil when none does. */
  function ParseEmailTime(ts: string, parse: TimeParser): ParseOutcome
  {
    match StripAnnotation(ts)
    case None => OutOfRange
    case Some(value) =>
      match parse(RFC1123Z, value)
      case Some(t) => Parsed(t)
      case None =>
        match parse(NumericZoneShortDay, value)
        case Some(t) => Parsed(t)
        case None =>
          match parse(RFC1123, value)
          case Some(t) => Parsed(t)
          case None =>
            match parse(NamedZoneShortDay, value)
            case Some(t) => Parsed(t)
            case None => Unparsed
  }

  /** The slice panic happens exactly when the normalisation is out of range;
      the result is nil exactly when no layout matches; otherwise the time is
      the one given by the first layout, in the order tried, that matches. */
  lemma ParseEmailTimeFirstMatch(ts: string, parse: TimeParser)
    ensures ParseEmailTime(ts, parse).OutOfRange? <==> StripAnnotation(ts).None?
    ensures ParseEmailTime(ts, parse).Unparsed? <==>
      StripAnnotation(ts).Some? &&
      forall i :: 0 <= i < |Layouts| ==> parse(Layouts[i], StripAnnotation(ts).value).None?
    ensures ParseEmailTime(ts, parse).Parsed? ==> exists i ::
      FirstMatch(Layouts, StripAnnotation(ts).value, parse, i) &&
      parse(Layouts[i], StripAnnotation(ts).value) == Some(ParseEmailTime(ts, parse).instant)
  {
    assert Layouts[0] == RFC1123Z && Layouts[1] == NumericZoneShortDay;
    assert Layouts[2] == RFC1123 && Layouts[3] == NamedZoneShortDay;
    if StripAnnotation(ts).Some? {
      var value := StripAnnotation(ts).value;
      if parse(RFC1123Z, value).Some? {
        assert FirstMatch(Layouts, value, parse, 0);
      } else if parse(NumericZoneShortDay, value).Some? {
        assert FirstMatch(Layouts, value, parse, 1);
      } else if parse(RFC1123, value).Some? {
        assert FirstMatch(Layouts, value, parse, 2);
      } else if parse(NamedZoneShortDay, value).Some? {
        assert FirstMatch(Layouts, value, parse, 3);
      }
    }
  }

  /** A value followed by a space and a parenthesised note, such as
      `... +0000 (UTC)`, parses exactly as the bare value does. */
  lemma AnnotatedValueParses(value: string, note: string, parse: TimeParser)
    requires '(' !in value && ')' !in value
    requires '(' !in note && ')' !in note
    ensures ParseEmailTime(value + " (" + note + ")", parse) == ParseEmailTime(value, parse)
  {
    StripAnnotationSplice(value, ' ', note, "");
    assert value + [' '] + "(" + note + ")" + "" == value + " (" + note + ")";
    assert value + "" == value;
    assert StripAnnotation(value + " (" + note + ")") == StripAnnotation(value);
  }
}
