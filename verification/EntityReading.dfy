/**
 * Whole entities that other programs wrote: where `findHeaderEnd` of
 * `src/mime/parse.ts` ends the header block, which field counts, and what
 * becomes of a part that has no fields at all.
 */
module EntityReading {
  import opened Common
  import opened Strings
  import opened ForeignHeaders
  import opened Mixed
  import Base64
  import Headers
  import Multipart
  import QuotedPrintable

  // ------------------------------------------------------------- header block

  lemma LineGoesOn(data: Bytes, i: nat, line: Text, end: Text, rest: Text)
    requires i <= |data| && data[i..] == line + (end + rest)
    requires line != [] && Headers.NoBreak(line) && IsEnd(end) && rest != [] && (end == [CR] ==> rest[0] != LF)
    ensures var j := i + |line|;
      && j + |end| < |data| && data[j + |end|..] == rest
      && FindHeaderEnd(data, i) == FindHeaderEnd(data, j) && IsBreak(data[j]) && AfterBreak(data, j) == j + |end|
  {
    hide FindHeaderEnd;
    var s, j := data[i..], i + |line|;
    assert |data| == i + |line| + |end| + |rest|;
    forall k | i <= k < j ensures !IsBreak(data[k]) {
      assert data[k] == s[k - i] == line[k - i] && line[k - i] in line;
    }
    SkipText(data, i, j);
    assert data[j] == s[|line|] == end[0];
    if |end| > 1 { assert data[j + 1] == s[|line| + 1] == end[1]; }
    assert data[j + |end|] == s[|line| + |end|] == rest[0];
    assert data[j + |end|..] == s[|line| + |end|..] == rest;
  }

  /** A line break with another line behind it. */
  lemma BreakGoesOn(data: Bytes, j: nat, n: nat)
    requires j < |data| && IsBreak(data[j]) && AfterBreak(data, j) == n < |data| && !IsBreak(data[n])
    ensures FindHeaderEnd(data, j) == FindHeaderEnd(data, n)
  {
    assert n == j + 1 || n == j + 2;
    if n == j + 2 { assert FindHeaderEnd(data, j) == FindHeaderEnd(data, j + 1) == FindHeaderEnd(data, j + 2); }
  }

  /** The blank line: another break right behind one. */
  lemma BlankLineEnds(data: Bytes, j: nat, n: nat)
    requires j < |data| && IsBreak(data[j]) && AfterBreak(data, j) == n < |data| && IsBreak(data[n])
    ensures FindHeaderEnd(data, j) == HeaderSplit(j, AfterBreak(data, n))
  {
  }

  lemma BlankIs(data: Bytes, n: nat, blank: Text, body: Text)
    requires n <= |data| && data[n..] == blank + body && IsEnd(blank) && (blank == [CR] ==> body == [] || body[0] != LF)
    ensures n < |data| && IsBreak(data[n]) && AfterBreak(data, n) == n + |blank| && data[n + |blank|..] == body
  {
    var s := data[n..];
    assert |data| == n + |blank| + |body|;
    assert data[n] == s[0] == blank[0];
    if |s| > 1 { assert data[n + 1] == s[1]; }
    assert data[n + |blank|..] == s[|blank|..] == body;
  }

  /** What stands behind the last line of a header block: its line end, and the blank line. */
  predicate IsBlankLine(last: Text, blank: Text, body: Text) {
    && IsEnd(last) && IsEnd(blank) && !(last == [CR] && blank == [LF])
    && (blank == [CR] ==> body == [] || body[0] != LF)
  }

  /** A line in front of another one. */
  lemma LineStep(data: Bytes, i: nat, line: Text, end: Text, rest: Text)
    requires i <= |data| && data[i..] == line + (end + rest)
    requires line != [] && Headers.NoBreak(line) && IsEnd(end) && rest != [] && !IsBreak(rest[0])
    ensures var n := i + |line| + |end|;
      n < |data| && data[n..] == rest && FindHeaderEnd(data, i) == FindHeaderEnd(data, n)
  {
    hide FindHeaderEnd, AfterBreak, Headers.NoBreak;
    LineGoesOn(data, i, line, end, rest);
    var n := i + |line| + |end|;
    assert data[n] == data[n..][0];
    BreakGoesOn(data, i + |line|, n);
  }

  /** The last line, in front of the blank one. */
  lemma LastStep(data: Bytes, i: nat, line: Text, last: Text, blank: Text, body: Text)
    requires i <= |data| && data[i..] == line + (last + (blank + body))
    requires line != [] && Headers.NoBreak(line) && IsBlankLine(last, blank, body)
    ensures var n := i + |line|;
      && n + |last| + |blank| <= |data| && data[n + |last| + |blank|..] == body
      && FindHeaderEnd(data, i) == HeaderSplit(n, n + |last| + |blank|)
  {
    hide FindHeaderEnd, AfterBreak, Headers.NoBreak, IsBreak, IsEnd;
    BlankStarts(last, blank, body);
    LineGoesOn(data, i, line, last, blank + body);
    BlankIs(data, i + |line| + |last|, blank, body);
    BlankLineEnds(data, i + |line|, i + |line| + |last|);
  }

  lemma LinedUnfolds(lines: seq<Text>, ends: seq<Text>, tail: Text)
    requires |lines| == |ends| + 1 && ends != []
    ensures Lined(lines, ends) + tail == lines[0] + (ends[0] + (Lined(lines[1..], ends[1..]) + tail))
    ensures |Lined(lines, ends)| == |lines[0]| + |ends[0]| + |Lined(lines[1..], ends[1..])|
  {
    var rest := Lined(lines[1..], ends[1..]);
    assert lines[0] + (ends[0] + rest) + tail == lines[0] + (ends[0] + (rest + tail));
  }

  lemma {:induction false} BlockEnds(data: Bytes, i: nat, lines: seq<Text>, ends: seq<Text>, last: Text, blank: Text,
                                     body: Text)
    requires AreLined(lines, ends) && (forall line | line in lines :: line != []) && IsBlankLine(last, blank, body)
    requires i <= |data| && data[i..] == Lined(lines, ends) + (last + (blank + body))
    ensures var n := i + |Lined(lines, ends)|;
      && n + |last| + |blank| <= |data| && data[n + |last| + |blank|..] == body
      && FindHeaderEnd(data, i) == HeaderSplit(n, n + |last| + |blank|)
    decreases |lines|
  {
    hide FindHeaderEnd, AfterBreak, AreLined, Headers.NoBreak, IsBreak, IsBlankLine, Lined, IsEnd;
    AreLinedSize(lines, ends);
    assert lines[0] in lines;
    if ends == [] {
      OneLine(lines, ends);
      LastStep(data, i, lines[0], last, blank, body);
    } else {
      AreLinedRest(lines, ends);
      assert forall line | line in lines[1..] :: line in lines;
      assert lines[1..][0] in lines[1..];
      var tail := last + (blank + body);
      LinedStarts(lines[1..], ends[1..], tail);
      LinedUnfolds(lines, ends, tail);
      LineStep(data, i, lines[0], ends[0], Lined(lines[1..], ends[1..]) + tail);
      BlockEnds(data, i + |lines[0]| + |ends[0]|, lines[1..], ends[1..], last, blank, body);
    }
  }

  lemma OneLine(lines: seq<Text>, ends: seq<Text>)
    requires |lines| == 1 && ends == []
    ensures Lined(lines, ends) == lines[0]
  {
  }

  lemma BlankStarts(last: Text, blank: Text, body: Text)
    requires IsBlankLine(last, blank, body)
    ensures IsEnd(last) && blank + body != [] && (last == [CR] ==> (blank + body)[0] != LF)
  {
    assert (blank + body)[0] == blank[0];
  }

  lemma LinedStarts(lines: seq<Text>, ends: seq<Text>, tail: Text)
    requires AreLined(lines, ends) && lines[0] != []
    ensures var s := Lined(lines, ends) + tail; s != [] && !IsBreak(s[0]) && s[0] != LF
  {
    assert Headers.NoBreak(lines[0]) && lines[0][0] in lines[0];
    assert (Lined(lines, ends) + tail)[0] == lines[0][0];
  }

  /** An entity is read as the fields of its header block and the octets behind the blank line. */
  lemma ReadsForeignEntity(data: Bytes, items: seq<Item>, ends: seq<Text>, last: Text, blank: Text, body: Bytes)
    requires (forall item | item in items :: IsItem(item)) && AreLined(AllLinesOf(items), ends)
    requires (forall line | line in AllLinesOf(items) :: line != []) && IsBlankLine(last, blank, body)
    requires data == Lined(AllLinesOf(items), ends) + (last + (blank + body))
    ensures ParseEntity(data) == Entity(FieldsOf(items), body)
  {
    hide FindHeaderEnd, AreLined, IsBlankLine, AllLinesOf, FieldsOf, Headers.ParseHeaders, Lined, IsItem;
    AreLinedSize(AllLinesOf(items), ends);
    var block := Lined(AllLinesOf(items), ends);
    assert data[0..] == data;
    BlockEnds(data, 0, AllLinesOf(items), ends, last, blank, body);
    ReadsForeignBlock(items, ends);
    assert data[..|block|] == block;
  }

  // ------------------------------------------------------- no fields at all

  lemma BodyStartsLate(data: Bytes, i: nat)
    requires i < |data|
    ensures var start := FindHeaderEnd(data, i).bodyStart;
      && start > i
      && (IsBreak(data[i]) ==> start >= AfterBreak(data, i))
      && (IsBreak(data[i]) && AfterBreak(data, i) < |data| ==> start > AfterBreak(data, i))
    decreases |data| - i
  {
    if i + 1 < |data| {
      BodyStartsLate(data, i + 1);
    }
  }

  /**
   * A part without fields starts with its blank line (section 5.1 of RFC 2046).
   * The reader takes the text behind it for header lines: it never gets the
   * content back, unless there is none.
   */
  lemma HeaderlessPartIsLost(body: Bytes)
    ensures ParseEntity(CRLF + body).body == body <==> body == []
    ensures |ParseEntity(CRLF + body).body| <= |body|
  {
    hide FindHeaderEnd, Headers.ParseHeaders;
    var data := CRLF + body;
    BodyStartsLate(data, 0);
  }

  lemma {:induction false} NoBlankLine(data: Bytes, i: nat)
    requires i <= |data|
    requires forall k | i <= k < |data| && IsBreak(data[k]) ::
               AfterBreak(data, k) == |data| || !IsBreak(data[AfterBreak(data, k)])
    ensures FindHeaderEnd(data, i) == HeaderSplit(|data|, |data|)
    decreases |data| - i
  {
    if i < |data| { NoBlankLine(data, i + 1); }
  }

  /** One paragraph without fields in front of it is lost whole. */
  lemma HeaderlessParagraph(body: Bytes)
    requires forall c | c in body :: !IsBreak(c)
    ensures ParseEntity(CRLF + body).body == []
  {
    hide FindHeaderEnd, Headers.ParseHeaders;
    var data := CRLF + body;
    forall k | 2 <= k < |data| ensures !IsBreak(data[k]) { assert data[k] == body[k - 2] && body[k - 2] in body; }
    NoBlankLine(data, 0);
  }

  // ---------------------------------------------------------------- which field

  /** The first field of a name counts, whatever the case of its letters. */
  lemma {:induction false} FirstFieldCounts(headers: seq<Headers.Header>, name: Text)
    ensures var v := Lookup(headers, name);
      if v.None? then forall i | 0 <= i < |headers| :: Lower(headers[i].name) != Lower(name)
      else exists i | 0 <= i < |headers| ::
             && headers[i].value == v.value && Lower(headers[i].name) == Lower(name)
             && forall k | 0 <= k < i :: Lower(headers[k].name) != Lower(name)
  {
    hide Lower;
    if headers == [] {
    } else if Lower(headers[0].name) == Lower(name) {
      assert headers[0].value == Lookup(headers, name).value;
    } else {
      var rest := headers[1..];
      FirstFieldCounts(rest, name);
      if Lookup(rest, name).Some? {
        var i :| 0 <= i < |rest| && rest[i].value == Lookup(rest, name).value && Lower(rest[i].name) == Lower(name)
          && forall k | 0 <= k < i :: Lower(rest[k].name) != Lower(name);
        assert headers[i + 1] == rest[i];
        forall k | 0 <= k < i + 1 ensures Lower(headers[k].name) != Lower(name) {
          if k > 0 { assert headers[k] == rest[k - 1]; }
        }
      } else {
        forall i | 0 <= i < |headers| ensures Lower(headers[i].name) != Lower(name) {
          if i > 0 { assert headers[i] == rest[i - 1]; }
        }
      }
    }
  }

  // -------------------------------------------------------- transfer encodings

  /** The encodings a reader undoes, in letters of either case and with blanks around them. */
  lemma EncodingNames(body: Bytes, encoding: Option<Text>)
    ensures encoding.Some? && Lower(Trim(encoding.value)) == Lit("base64") ==>
      DecodeTransferEncoding(body, encoding) == Base64.DecodeLines(body)
    ensures encoding.Some? && Lower(Trim(encoding.value)) == Lit("quoted-printable") ==>
      DecodeTransferEncoding(body, encoding) == Some(QuotedPrintable.Decode(body))
    ensures encoding.None? || Lower(Trim(encoding.value)) !in [Lit("base64"), Lit("quoted-printable")] ==>
      DecodeTransferEncoding(body, encoding) == Some(body)
  {
    hide Lower, Trim, Base64.DecodeLines, QuotedPrintable.Decode, Lit;
    Names();
  }

  lemma Names()
    ensures BASE64 == Lit("base64") && QUOTED_PRINTABLE == Lit("quoted-printable")
  {
  }

  /** Anything that is no symbol may stand anywhere in Base64 text. */
  lemma JunkInBase64(a: Bytes, c: byte, b: Bytes)
    requires !Base64.IsSymbol(c) && c != Base64.PAD
    ensures Base64.DecodeLines(a + [c] + b) == Base64.DecodeLines(a + b)
  {
    hide Base64.IsSymbol, Base64.Decode;
    Base64.FilteredAppend(a + [c], b);
    Base64.FilteredAppend(a, [c]);
    Base64.FilteredAppend(a, b);
    assert Base64.Filtered([c]) == [] + Base64.Filtered([c][1..]);
    assert Base64.Filtered(a) + [] == Base64.Filtered(a);
  }
}
