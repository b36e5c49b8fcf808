/**
 * Multipart bodies that other programs wrote: bare LF line ends, blanks behind
 * a boundary, a preamble and an epilogue, and no closing delimiter. What
 * `splitMultipart` of `src/mime/parse.ts` finds in them.
 */
module ForeignMultipart {
  import opened Common
  import opened Multipart

  datatype LineEnd = Crlf | Lf

  function EndText(e: LineEnd): Bytes { if e.Crlf? then [CR, LF] else [LF] }

  /** A delimiter line with blanks behind the boundary, a content, and the line end of the next delimiter. */
  datatype Segment = Segment(padding: Bytes, opening: LineEnd, content: Bytes, closing: LineEnd)

  predicate AreBlanks(s: Bytes) { forall c | c in s :: c == SPACE || c == TAB }

  /** A content no line of which starts with the delimiter, and whose own end is not taken for half of a CRLF. */
  predicate IsSegment(s: Segment, delimiter: Bytes) {
    && AreBlanks(s.padding) && Clean(s.content + EndText(s.closing), delimiter)
    && (s.closing.Lf? && s.content != [] ==> s.content[|s.content| - 1] != CR)
  }

  function SegmentText(s: Segment, delimiter: Bytes): Bytes {
    delimiter + (s.padding + (EndText(s.opening) + (s.content + EndText(s.closing))))
  }

  /** What stands behind the last segment. */
  datatype Ending = Closed(epilogue: Bytes) | Open(padding: Bytes, opening: LineEnd, content: Bytes)

  predicate IsEnding(e: Ending, delimiter: Bytes) {
    e.Open? ==> AreBlanks(e.padding) && Clean(e.content, delimiter)
  }

  function EndingText(e: Ending, delimiter: Bytes): Bytes {
    match e
    case Closed(epilogue) => delimiter + ([HYPHEN, HYPHEN] + epilogue)
    case Open(padding, opening, content) => delimiter + (padding + (EndText(opening) + content))
  }

  function BodyText(segments: seq<Segment>, end: Ending, delimiter: Bytes): Bytes {
    if segments == [] then EndingText(end, delimiter)
    else SegmentText(segments[0], delimiter) + BodyText(segments[1..], end, delimiter)
  }

  /** The parts: every content, and what stands behind the last delimiter when none closes the body. */
  function Contents(segments: seq<Segment>, end: Ending): seq<Bytes> {
    if segments == [] then if end.Open? then [end.content] else []
    else [segments[0].content] + Contents(segments[1..], end)
  }

  // ------------------------------------------------------------- one stretch

  /** A stretch of `text` between `i` and `j` that starts a line and holds no delimiter line. */
  predicate Quiet(text: Bytes, delimiter: Bytes, i: nat, j: nat) {
    forall k: nat | i <= k < j :: !Hit(text, delimiter, k)
  }

  lemma LastOf(text: Bytes, i: nat, part: Bytes)
    requires i + |part| <= |text| && text[i..i + |part|] == part && part != []
    ensures text[i + |part| - 1] == part[|part| - 1]
  {
  }

  lemma SliceOf(text: Bytes, i: nat, j: nat, a: nat, b: nat)
    requires i <= j <= |text| && a <= b <= j - i
    ensures text[i..j][a..b] == text[i + a..i + b]
  {
    var x, y := text[i..j][a..b], text[i + a..i + b];
    assert forall k | 0 <= k < |x| :: x[k] == y[k];
  }

  lemma HitWithin(text: Bytes, i: nat, part: Bytes, delimiter: Bytes, k: nat)
    requires IsDelimiter(delimiter) && i + |part| <= |text| && text[i..i + |part|] == part
    requires part != [] && part[|part| - 1] == LF && k < |part| && (i == 0 || text[i - 1] == LF)
    requires Hit(text, delimiter, i + k)
    ensures Hit(part, delimiter, k)
  {
    var j, n := i + k, |delimiter|;
    LastOf(text, i, part);
    NoBreakInside(text, delimiter, j, i + |part| - 1);
    SliceOf(text, i, i + |part|, k, k + n);
    if k > 0 { assert text[j - 1] == text[i..i + |part|][k - 1]; }
  }

  /** Clean text at the start of a line, up to a line end, holds no delimiter line. */
  lemma CleanIsQuiet(text: Bytes, i: nat, part: Bytes, delimiter: Bytes)
    requires IsDelimiter(delimiter) && i + |part| <= |text| && text[i..i + |part|] == part
    requires part == [] || part[|part| - 1] == LF
    requires i == 0 || text[i - 1] == LF
    requires Clean(part, delimiter)
    ensures Quiet(text, delimiter, i, i + |part|)
  {
    hide Hit;
    forall k: nat | i <= k < i + |part| ensures !Hit(text, delimiter, k) {
      if Hit(text, delimiter, k) { HitWithin(text, i, part, delimiter, k - i); }
    }
  }

  /** Blanks behind a boundary are passed over. */
  lemma {:induction false} SkipsBlanks(text: Bytes, i: nat, j: nat)
    requires i <= j <= |text| && AreBlanks(text[i..j]) && (j < |text| ==> text[j] != SPACE && text[j] != TAB)
    ensures SkipWhite(text, i) == j
    decreases j - i
  {
    if i < j {
      assert text[i..j][0] == text[i] && text[i..j][0] in text[i..j];
      assert text[i + 1..j] == text[i..j][1..];
      assert forall c | c in text[i..j][1..] :: c in text[i..j];
      SkipsBlanks(text, i + 1, j);
    }
  }

  // ---------------------------------------------------------------- positions

  /** `piece` stands at position `i` of `text`. */
  predicate Stands(text: Bytes, i: nat, piece: Bytes) { i + |piece| <= |text| && text[i..i + |piece|] == piece }

  lemma StandsSplit(text: Bytes, i: nat, a: Bytes, b: Bytes)
    requires Stands(text, i, a + b)
    ensures Stands(text, i, a) && Stands(text, i + |a|, b)
  {
    var t := text[i..i + |a + b|];
    assert text[i..i + |a|] == t[..|a|] == (a + b)[..|a|];
    assert text[i + |a|..i + |a| + |b|] == t[|a|..] == (a + b)[|a|..];
  }

  lemma StandsAt(text: Bytes, i: nat, piece: Bytes, k: nat)
    requires Stands(text, i, piece) && k < |piece|
    ensures text[i + k] == piece[k]
  {
    assert text[i..i + |piece|][k] == piece[k];
  }

  /** A delimiter at the start of a line. */
  lemma StandsHit(text: Bytes, i: nat, delimiter: Bytes)
    requires Stands(text, i, delimiter) && (i == 0 || text[i - 1] == LF)
    ensures Hit(text, delimiter, i)
  {
  }

  /** Blanks and a line end behind a delimiter open the next part. */
  lemma Opens(text: Bytes, i: nat, delimiter: Bytes, padding: Bytes, e: LineEnd, start: Option<nat>)
    requires IsDelimiter(delimiter) && Stands(text, i, delimiter)
    requires Stands(text, i + |delimiter|, padding) && AreBlanks(padding)
    requires Stands(text, i + |delimiter| + |padding|, EndText(e))
    requires start.Some? ==> start.value <= |text|
    ensures var next := i + |delimiter| + |padding| + |EndText(e)|;
      && 0 < next <= |text| && text[next - 1] == LF
      && SplitAfter(text, delimiter, i, i, start) == Split(text, delimiter, next, Some(next))
  {
    hide Split, SplitAfter, SkipWhite, IsDelimiter;
    var j := i + |delimiter| + |padding|;
    StandsAt(text, j, EndText(e), 0);
    if e.Crlf? { StandsAt(text, j, EndText(e), 1); }
    SkipsBlanks(text, i + |delimiter|, j);
    DelimiterIsSome(delimiter);
    SplitAfterCases(text, delimiter, i, i, start);
  }

  lemma DelimiterIsSome(delimiter: Bytes)
    requires IsDelimiter(delimiter)
    ensures delimiter != [] && delimiter[0] == HYPHEN
  {
  }

  /** Two hyphens behind a delimiter end the body. */
  lemma Closes(text: Bytes, i: nat, delimiter: Bytes, start: Option<nat>)
    requires IsDelimiter(delimiter) && Stands(text, i, delimiter)
    requires Stands(text, i + |delimiter|, [HYPHEN, HYPHEN]) && (start.Some? ==> start.value <= |text|)
    ensures SplitAfter(text, delimiter, i, i, start) == []
  {
    hide Split, SplitAfter, SkipWhite, IsDelimiter;
    var j := i + |delimiter|;
    StandsAt(text, j, [HYPHEN, HYPHEN], 0);
    StandsAt(text, j, [HYPHEN, HYPHEN], 1);
    SkipNothing(text, j);
    DelimiterIsSome(delimiter);
    SplitAfterCases(text, delimiter, i, i, start);
  }

  /** The content of a part ends before the line end in front of the next delimiter. */
  lemma EndsBefore(text: Bytes, i: nat, s: Segment)
    requires Stands(text, i, s.content + EndText(s.closing)) && i > 0 && text[i - 1] == LF
    requires s.closing.Lf? && s.content != [] ==> s.content[|s.content| - 1] != CR
    ensures var j := i + |s.content| + |EndText(s.closing)|;
      j <= |text| && text[j - 1] == LF && Terminated(text, Some(i), j) == [s.content]
  {
    var n := |s.content|;
    StandsSplit(text, i, s.content, EndText(s.closing));
    StandsAt(text, i + n, EndText(s.closing), 0);
    if s.closing.Crlf? {
      StandsAt(text, i + n, EndText(s.closing), 1);
    } else if n > 0 {
      StandsAt(text, i, s.content, n - 1);
    }
  }

  // -------------------------------------------------------------------- parts

  /** Behind an opened part: its content, and the rest of the body. */
  lemma ReadPart(text: Bytes, i: nat, s: Segment, delimiter: Bytes)
    requires IsDelimiter(delimiter) && IsSegment(s, delimiter)
    requires Stands(text, i, s.content + EndText(s.closing)) && i > 0 && text[i - 1] == LF
    requires Stands(text, i + |s.content| + |EndText(s.closing)|, delimiter)
    ensures var j := i + |s.content| + |EndText(s.closing)|;
      && i <= j <= |text| && text[j - 1] == LF
      && Split(text, delimiter, i, Some(i)) == [s.content] + SplitAfter(text, delimiter, j, j, Some(i))
  {
    hide Split, SplitAfter, Terminated, IsDelimiter, Clean, Hit, AreBlanks, Quiet;
    EndsBefore(text, i, s);
    var part := s.content + EndText(s.closing);
    var j := i + |part|;
    StandsAt(text, i, part, |part| - 1);
    CleanIsQuiet(text, i, part, delimiter);
    StandsHit(text, j, delimiter);
    SkipQuiet(text, delimiter, i, Some(i), j);
  }

  lemma SkipQuiet(text: Bytes, delimiter: Bytes, pos: nat, start: Option<nat>, j: nat)
    requires IsDelimiter(delimiter) && pos <= j && Hit(text, delimiter, j) && Quiet(text, delimiter, pos, j)
    requires start.Some? ==> start.value <= |text|
    ensures Split(text, delimiter, pos, start) == Terminated(text, start, j) + SplitAfter(text, delimiter, j, j, start)
  {
    hide Split, SplitAfter, Terminated, IsDelimiter, Hit;
    SkipTo(text, delimiter, pos, start, j);
  }

  /** Without another delimiter line, the last part reaches to the end of the body. */
  lemma {:induction false} ReadRest(text: Bytes, pos: nat, start: nat, delimiter: Bytes)
    requires IsDelimiter(delimiter) && start <= pos <= |text|
    requires Quiet(text, delimiter, pos, |text| + 1)
    ensures Split(text, delimiter, pos, Some(start)) == [text[start..]]
    decreases |text| - pos
  {
    hide Find, SplitAfter, Split, Terminated;
    SplitCases(text, delimiter, pos, Some(start));
    var found := Find(text, delimiter, pos);
    if found.Some? {
      assert !Hit(text, delimiter, found.value);
      ReadRest(text, found.value + |delimiter|, start, delimiter);
    }
  }

  /** Clean text that reaches to the end, at the start of a line. */
  lemma RestIsQuiet(text: Bytes, i: nat, delimiter: Bytes)
    requires IsDelimiter(delimiter) && 0 < i <= |text| && text[i - 1] == LF && Clean(text[i..], delimiter)
    ensures Quiet(text, delimiter, i, |text| + 1)
  {
    forall k: nat | i <= k < |text| + 1 ensures !Hit(text, delimiter, k) {
      if Hit(text, delimiter, k) {
        assert text[k..k + |delimiter|] == text[i..][k - i..k - i + |delimiter|];
        assert k > i ==> text[i..][k - i - 1] == text[k - 1];
        assert Hit(text[i..], delimiter, k - i);
      }
    }
  }

  /** From the end of a delimiter line's boundary on, the body gives its contents. */
  lemma {:induction false} ReadBody(text: Bytes, i: nat, segments: seq<Segment>, end: Ending, delimiter: Bytes,
                                    start: Option<nat>)
    requires IsDelimiter(delimiter) && (forall s | s in segments :: IsSegment(s, delimiter)) && IsEnding(end, delimiter)
    requires Stands(text, i, BodyText(segments, end, delimiter)) && i + |BodyText(segments, end, delimiter)| == |text|
    requires start.Some? ==> start.value <= |text|
    ensures Stands(text, i, delimiter) && SplitAfter(text, delimiter, i, i, start) == Contents(segments, end)
    decreases |segments|
  {
    hide Split, SplitAfter, IsDelimiter, IsSegment, EndText, Stands, Clean, AreBlanks, BodyText, SegmentText;
    BodyStarts(text, i, segments, end, delimiter);
    if segments == [] {
      ReadEnding(text, i, end, delimiter, start);
    } else {
      var s := segments[0];
      assert s in segments && forall x | x in segments[1..] :: x in segments;
      var k := i + |SegmentText(s, delimiter)|;
      ReadBody(text, k, segments[1..], end, delimiter, Some(SegmentStart(i, s, delimiter)));
      ReadSegment(text, i, s, delimiter, start);
    }
  }

  /** Where the content of a segment at `i` starts. */
  function SegmentStart(i: nat, s: Segment, delimiter: Bytes): nat {
    i + |delimiter| + |s.padding| + |EndText(s.opening)|
  }

  lemma BodyStarts(text: Bytes, i: nat, segments: seq<Segment>, end: Ending, delimiter: Bytes)
    requires Stands(text, i, BodyText(segments, end, delimiter)) && i + |BodyText(segments, end, delimiter)| == |text|
    ensures segments == [] ==>
      Stands(text, i, EndingText(end, delimiter)) && i + |EndingText(end, delimiter)| == |text|
    ensures segments != [] ==>
      var k := i + |SegmentText(segments[0], delimiter)|;
      && Stands(text, i, SegmentText(segments[0], delimiter))
      && Stands(text, k, BodyText(segments[1..], end, delimiter))
      && k + |BodyText(segments[1..], end, delimiter)| == |text|
      && SegmentStart(i, segments[0], delimiter) <= k
  {
    hide Stands;
    if segments != [] {
      StandsSplit(text, i, SegmentText(segments[0], delimiter), BodyText(segments[1..], end, delimiter));
    }
  }

  lemma ReadEnding(text: Bytes, i: nat, end: Ending, delimiter: Bytes, start: Option<nat>)
    requires IsDelimiter(delimiter) && IsEnding(end, delimiter)
    requires Stands(text, i, EndingText(end, delimiter)) && i + |EndingText(end, delimiter)| == |text|
    requires start.Some? ==> start.value <= |text|
    ensures Stands(text, i, delimiter) && SplitAfter(text, delimiter, i, i, start) == Contents([], end)
  {
    hide Split, SplitAfter, IsDelimiter, EndText, Stands, Clean, AreBlanks;
    match end
    case Closed(epilogue) =>
      StandsSplit(text, i, delimiter, [HYPHEN, HYPHEN] + epilogue);
      StandsSplit(text, i + |delimiter|, [HYPHEN, HYPHEN], epilogue);
      Closes(text, i, delimiter, start);
    case Open(padding, opening, content) =>
      OpeningStands(text, i, delimiter, padding, opening, content);
      Opens(text, i, delimiter, padding, opening, start);
      var next := i + |delimiter| + |padding| + |EndText(opening)|;
      StandsToEnd(text, next, content);
      RestIsQuiet(text, next, delimiter);
      ReadRest(text, next, next, delimiter);
  }

  lemma StandsToEnd(text: Bytes, i: nat, piece: Bytes)
    requires Stands(text, i, piece) && i + |piece| == |text|
    ensures text[i..] == piece
  {
  }

  lemma OpeningStands(text: Bytes, i: nat, delimiter: Bytes, padding: Bytes, e: LineEnd, behind: Bytes)
    requires Stands(text, i, delimiter + (padding + (EndText(e) + behind)))
    ensures Stands(text, i, delimiter) && Stands(text, i + |delimiter|, padding)
    ensures Stands(text, i + |delimiter| + |padding|, EndText(e))
    ensures Stands(text, i + |delimiter| + |padding| + |EndText(e)|, behind)
    ensures |delimiter + (padding + (EndText(e) + behind))| == |delimiter| + |padding| + |EndText(e)| + |behind|
  {
    hide Stands, EndText;
    StandsSplit(text, i, delimiter, padding + (EndText(e) + behind));
    StandsSplit(text, i + |delimiter|, padding, EndText(e) + behind);
    StandsSplit(text, i + |delimiter| + |padding|, EndText(e), behind);
  }

  lemma ReadSegment(text: Bytes, i: nat, s: Segment, delimiter: Bytes, start: Option<nat>)
    requires IsDelimiter(delimiter) && IsSegment(s, delimiter) && Stands(text, i, SegmentText(s, delimiter))
    requires Stands(text, i + |SegmentText(s, delimiter)|, delimiter) && (start.Some? ==> start.value <= |text|)
    ensures var j := i + |SegmentText(s, delimiter)|;
      && Stands(text, i, delimiter) && SegmentStart(i, s, delimiter) <= |text|
      && SplitAfter(text, delimiter, i, i, start)
         == [s.content] + SplitAfter(text, delimiter, j, j, Some(SegmentStart(i, s, delimiter)))
  {
    hide Split, SplitAfter, IsDelimiter, EndText, Stands, Clean, AreBlanks;
    OpeningStands(text, i, delimiter, s.padding, s.opening, s.content + EndText(s.closing));
    Opens(text, i, delimiter, s.padding, s.opening, start);
    ReadPart(text, SegmentStart(i, s, delimiter), s, delimiter);
  }

  /**
   * The parts of a body are its contents, in order, whatever line ends, blanks,
   * preamble and epilogue it has, as long as no line of a content or of the
   * preamble starts with the delimiter. Without a closing delimiter the last
   * part is everything behind the last delimiter line.
   */
  lemma SplitsForeignBody(preamble: Bytes, segments: seq<Segment>, end: Ending, delimiter: Bytes)
    requires IsDelimiter(delimiter) && (forall s | s in segments :: IsSegment(s, delimiter)) && IsEnding(end, delimiter)
    requires Clean(preamble, delimiter) && (preamble == [] || preamble[|preamble| - 1] == LF)
    ensures Split(preamble + BodyText(segments, end, delimiter), delimiter, 0, None) == Contents(segments, end)
  {
    hide Split, SplitAfter, IsDelimiter, IsSegment, IsEnding, Clean, BodyText, Hit, Contents, Quiet;
    var body := BodyText(segments, end, delimiter);
    var text, n := preamble + body, |preamble|;
    assert text[0..0 + n] == preamble && text[n..n + |body|] == body;
    assert n > 0 ==> text[n - 1] == preamble[n - 1];
    CleanIsQuiet(text, 0, preamble, delimiter);
    ReadBody(text, n, segments, end, delimiter, None);
    StandsHit(text, n, delimiter);
    SkipQuiet(text, delimiter, 0, None, n);
  }
}
