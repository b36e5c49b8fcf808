/**
 * Text bodies of `src/internal/mime.ts`: normalized line ends, the choice of a
 * transfer encoding, and `multipart/alternative` with the type and the encoding
 * it is announced with.
 */
module TextParts {
  import opened Common
  import opened Strings
  import opened Mixed
  import Base64
  import DataPhase
  import Disposition
  import ForeignHeaders
  import Headers
  import MediaTypeReading
  import Multipart
  import QuotedPrintable
  import Utf8

  // ---------------------------------------------------------------- line ends

  /** `replace(/\r\n/g, "\n")` */
  function CrlfToLf(s: Text): Text
    decreases |s|
  {
    if s == [] then []
    else if |s| >= 2 && s[0] == CR && s[1] == LF then [LF] + CrlfToLf(s[2..])
    else [s[0]] + CrlfToLf(s[1..])
  }

  /** `replace(/\r/g, "\n")` */
  function CrToLf(s: Text): Text { if s == [] then [] else [if s[0] == CR then LF else s[0]] + CrToLf(s[1..]) }

  /** `replace(/\n/g, "\r\n")` */
  function LfToCrlf(s: Text): Text {
    if s == [] then [] else (if s[0] == LF then [CR, LF] else [s[0]]) + LfToCrlf(s[1..])
  }

  /** `normalizeLineEndings` */
  function Normalized(s: Text): Text { LfToCrlf(CrToLf(CrlfToLf(s))) }

  /** Lines with a CRLF between each two. */
  function Joined(lines: seq<Text>): Text
    requires lines != []
  {
    if |lines| == 1 then lines[0] else lines[0] + ([CR, LF] + Joined(lines[1..]))
  }

  lemma NothingNormalized()
    ensures Normalized([]) == []
  {
  }

  lemma CharNormalized(c: CodePoint, s: Text)
    requires !IsBreak(c)
    ensures Normalized([c] + s) == [c] + Normalized(s)
  {
    assert ([c] + s)[1..] == s;
    var t := CrlfToLf(s);
    assert CrlfToLf([c] + s) == [c] + t;
    assert ([c] + t)[1..] == t;
    var u := CrToLf(t);
    assert ([c] + u)[1..] == u;
  }

  lemma LfNormalized(s: Text)
    ensures LfToCrlf(CrToLf([LF] + s)) == [CR, LF] + LfToCrlf(CrToLf(s))
    ensures LfToCrlf(CrToLf([CR] + s)) == [CR, LF] + LfToCrlf(CrToLf(s))
  {
    assert ([LF] + s)[1..] == s && ([CR] + s)[1..] == s;
    var u := CrToLf(s);
    assert ([LF] + u)[1..] == u;
  }

  lemma EndNormalized(end: Text, s: Text)
    requires ForeignHeaders.IsEnd(end) && (end == [CR] ==> s == [] || s[0] != LF)
    ensures Normalized(end + s) == [CR, LF] + Normalized(s)
  {
    var t := end + s;
    assert t[|end|..] == s;
    LfNormalized(CrlfToLf(s));
    if end == [CR, LF] {
      assert CrlfToLf(t) == [LF] + CrlfToLf(s);
    } else if end == [LF] {
      assert CrlfToLf(t) == [LF] + CrlfToLf(s);
    } else {
      if s != [] { assert t[1] == s[0]; }
      assert CrlfToLf(t) == [CR] + CrlfToLf(s);
    }
  }

  lemma {:induction false} LineNormalized(line: Text, s: Text)
    requires Headers.NoBreak(line)
    ensures Normalized(line + s) == line + Normalized(s)
  {
    hide Normalized;
    if line == [] {
      assert line + s == s && line + Normalized(s) == Normalized(s);
    } else {
      assert line[0] in line && forall c | c in line[1..] :: c in line;
      LineNormalized(line[1..], s);
      CharNormalized(line[0], line[1..] + s);
      assert line + s == [line[0]] + (line[1..] + s);
      assert line == [line[0]] + line[1..];
    }
  }

  /** How long the end of the first line of a text is. */
  function EndSize(s: Text): (k: nat)
    requires Headers.LineEnd(s) < |s|
    ensures 1 <= k <= 2 && Headers.LineEnd(s) + k <= |s|
  {
    var n := Headers.LineEnd(s);
    if n + 1 < |s| && s[n] == CR && s[n + 1] == LF then 2 else 1
  }

  function FirstEnd(s: Text): Text
    requires Headers.LineEnd(s) < |s|
  {
    s[Headers.LineEnd(s)..][..EndSize(s)]
  }

  /** What stands behind the first line and its end. */
  function Rest(s: Text): (rest: Text)
    requires Headers.LineEnd(s) < |s|
    ensures |rest| < |s|
  {
    s[Headers.LineEnd(s)..][EndSize(s)..]
  }

  lemma FirstEndIs(s: Text)
    requires Headers.LineEnd(s) < |s|
    ensures ForeignHeaders.IsEnd(FirstEnd(s)) && (FirstEnd(s) == [CR] ==> Rest(s) == [] || Rest(s)[0] != LF)
  {
    var t := s[Headers.LineEnd(s)..];
    assert t[0] == s[Headers.LineEnd(s)];
    if |t| > 1 { assert t[1] == s[Headers.LineEnd(s) + 1]; }
    if |t| > 1 && EndSize(s) == 1 { assert Rest(s)[0] == t[1]; }
  }

  lemma CutAt(s: Text, n: nat)
    requires n <= |s|
    ensures s == s[..n] + s[n..]
  {
  }

  lemma FirstLineParts(s: Text)
    requires Headers.LineEnd(s) < |s|
    ensures s == s[..Headers.LineEnd(s)] + (FirstEnd(s) + Rest(s))
  {
    hide Headers.LineEnd, EndSize;
    CutAt(s, Headers.LineEnd(s));
    CutAt(s[Headers.LineEnd(s)..], EndSize(s));
  }

  lemma FirstLineIs(s: Text)
    ensures Headers.NoBreak(s[..Headers.LineEnd(s)])
  {
    var n := Headers.LineEnd(s);
    forall c | c in s[..n] ensures !IsBreak(c) {
      var k :| 0 <= k < n && s[..n][k] == c;
      assert s[k] == c;
    }
  }

  lemma RestIs(s: Text)
    requires Headers.LineEnd(s) < |s|
    ensures var n := Headers.LineEnd(s);
      if n + 1 < |s| && s[n] == CR && s[n + 1] == LF then Rest(s) == s[n + 2..] else Rest(s) == s[n + 1..]
  {
  }

  lemma OnlyLine(s: Text)
    requires Headers.LineEnd(s) == |s|
    ensures Headers.SplitLines(s) == [s] && s[..|s|] == s
  {
    hide Headers.SplitLines, Headers.LineEnd, Headers.NoBreak;
    assert s[..|s|] == s;
    FirstLineIs(s);
    ForeignHeaders.LastLine(s);
  }

  lemma FirstOfLines(s: Text)
    requires Headers.LineEnd(s) < |s|
    ensures Headers.SplitLines(s) == [s[..Headers.LineEnd(s)]] + Headers.SplitLines(Rest(s))
  {
    hide Headers.SplitLines, Headers.LineEnd, Rest;
    ForeignHeaders.SplitCases(s);
    RestIs(s);
  }

  lemma SplitFirstLine(s: Text)
    ensures Headers.LineEnd(s) == |s| ==> Headers.SplitLines(s) == [s] && s[..|s|] == s
    ensures Headers.LineEnd(s) < |s| ==>
      Headers.SplitLines(s) == [s[..Headers.LineEnd(s)]] + Headers.SplitLines(Rest(s))
  {
    hide Headers.SplitLines, Headers.LineEnd, Rest;
    if Headers.LineEnd(s) == |s| { OnlyLine(s); } else { FirstOfLines(s); }
  }

  lemma JoinedFirst(line: Text, lines: seq<Text>)
    requires lines != []
    ensures Joined([line] + lines) == line + ([CR, LF] + Joined(lines))
  {
    assert ([line] + lines)[1..] == lines;
  }

  /** Normalizing joins the lines of a text with CRLF, however they were ended. */
  lemma {:induction false} NormalizedLines(s: Text)
    ensures Headers.SplitLines(s) != [] && Normalized(s) == Joined(Headers.SplitLines(s))
    decreases |s|
  {
    hide Normalized, Headers.SplitLines, Headers.NoBreak, FirstEnd, Rest, ForeignHeaders.IsEnd, Joined, Headers.LineEnd;
    FirstLineIs(s);
    SplitFirstLine(s);
    var n := Headers.LineEnd(s);
    if n == |s| {
      NothingNormalized();
      assert s + [] == s;
      LineNormalized(s, []);
      JoinedOne(s);
    } else {
      FirstEndIs(s);
      FirstLineParts(s);
      NormalizedLines(Rest(s));
      LineNormalized(s[..n], FirstEnd(s) + Rest(s));
      EndNormalized(FirstEnd(s), Rest(s));
      JoinedFirst(s[..n], Headers.SplitLines(Rest(s)));
    }
  }

  lemma JoinedOne(line: Text)
    ensures Joined([line]) == line
  {
  }

  lemma {:induction false} LinesHaveNoBreak(s: Text)
    ensures forall line | line in Headers.SplitLines(s) :: Headers.NoBreak(line)
    decreases |s|
  {
    hide Headers.SplitLines, Headers.NoBreak, Headers.LineEnd, FirstEnd, Rest;
    FirstLineIs(s);
    SplitFirstLine(s);
    if Headers.LineEnd(s) < |s| { LinesHaveNoBreak(Rest(s)); }
  }

  lemma {:induction false} SplitJoined(lines: seq<Text>)
    requires lines != [] && forall line | line in lines :: Headers.NoBreak(line)
    ensures Headers.SplitLines(Joined(lines)) == lines
    decreases |lines|
  {
    hide Headers.SplitLines, Headers.NoBreak;
    assert lines[0] in lines && forall line | line in lines[1..] :: line in lines;
    if |lines| == 1 {
      ForeignHeaders.LastLine(lines[0]);
    } else {
      SplitJoined(lines[1..]);
      ForeignHeaders.SplitAtEnd(lines[0], [CR, LF], Joined(lines[1..]));
      assert lines == [lines[0]] + lines[1..];
    }
  }

  /** The lines stay the lines, and normalizing once is enough. */
  lemma NormalizedIsFixed(s: Text)
    ensures Headers.SplitLines(Normalized(s)) == Headers.SplitLines(s)
    ensures Normalized(Normalized(s)) == Normalized(s)
  {
    hide Normalized, Headers.SplitLines, Headers.NoBreak;
    NormalizedLines(s);
    LinesHaveNoBreak(s);
    SplitJoined(Headers.SplitLines(s));
    NormalizedLines(Normalized(s));
  }

  // ------------------------------------------------------- transfer encoding

  const MAX_TEXT_LINE: nat := 998

  datatype Encoding = SevenBit | EightBit | Quoted

  predicate HasLongLine(value: Text) {
    exists line | line in Headers.SplitLines(value) :: Headers.Units(line) > MAX_TEXT_LINE
  }

  /** `selectTextEncoding` */
  function SelectEncoding(value: Text): Encoding {
    if HasLongLine(value) then Quoted else if IsAscii(value) then SevenBit else EightBit
  }

  function EncodingText(e: Encoding): Bytes {
    match e
    case SevenBit => SEVEN_BIT
    case EightBit => EIGHT_BIT
    case Quoted => QUOTED_PRINTABLE
  }

  // ---------------------------------------------------------------- text parts

  /** The octets of a text with normalized line ends. */
  function Octets(value: Text): Bytes { Utf8.Encode(Normalized(value)) }

  function Content(value: Text): Bytes {
    if SelectEncoding(value).Quoted? then QuotedPrintable.Encode(Octets(value)) else EnsureTrailingCrlf(Octets(value))
  }

  /** `renderTextPart`, without the delimiter line. */
  function TextPart(contentType: Bytes, value: Text): Part {
    Part([Field(CONTENT_TYPE, contentType), Field(CONTENT_TRANSFER_ENCODING, EncodingText(SelectEncoding(value)))],
         Content(value))
  }

  const PLAIN_TYPE: Bytes := Lit("text/plain; charset=utf-8")
  const HTML_TYPE: Bytes := Lit("text/html; charset=utf-8")

  function AlternativeParts(text: Text, html: Text): seq<Part> {
    [TextPart(PLAIN_TYPE, text), TextPart(HTML_TYPE, html)]
  }

  const ALTERNATIVE: Bytes := Lit("alternative")
  const EIGHT_BIT: Bytes := Lit("8bit")

  /** `buildMultipartAlternative`, for a given boundary: how the body is announced, and the body. */
  function BuildAlternative(text: Text, html: Text, boundary: Bytes): (Multipart.Announced, Bytes) {
    var wide := SelectEncoding(text).EightBit? || SelectEncoding(html).EightBit?;
    (Multipart.Announced(Multipart.MultipartType(ALTERNATIVE, boundary), if wide then EIGHT_BIT else SEVEN_BIT),
     Multipart.Framed(Rendered(AlternativeParts(text, html)), Multipart.Delimiter(boundary)))
  }

  // ------------------------------------------------------------- parts are found

  /** Of any good parts: all are found exactly when no line of a content starts with the delimiter. */
  lemma PartsAreExact(parts: seq<Part>, delimiter: Bytes)
    requires Multipart.IsDelimiter(delimiter) && forall p | p in parts :: GoodPart(p)
    ensures Multipart.Split(Multipart.Framed(Rendered(parts), delimiter), delimiter, 0, None) == Slices(parts)
       <==> forall p | p in parts :: Multipart.Clean(p.content, delimiter)
  {
    hide Multipart.Split, Multipart.Framed, Multipart.Clean, GoodPart, Slices, Rendered, Multipart.Stripped,
      Multipart.IsDelimiter;
    SlicesAreStripped(parts, delimiter);
    Multipart.SplitIsExact(Rendered(parts), delimiter);
  }

  lemma ContentIsGood(value: Text)
    ensures GoodContent(Content(value)) && Content(value) != []
  {
    hide QuotedPrintable.Encode, SelectEncoding, Octets;
    QuotedPrintable.LinesAreGood(Octets(value));
  }

  lemma EncodingIsGood(e: Encoding)
    ensures Headers.NoBreak(EncodingText(e)) && Headers.TrimWhite(EncodingText(e)) == EncodingText(e)
  {
    match e
    case SevenBit => TrimWhiteStays(SEVEN_BIT);
    case EightBit => TrimWhiteStays(EIGHT_BIT);
    case Quoted =>
      QuotedPrintableToken();
      TrimWhiteStays(QUOTED_PRINTABLE);
  }

  lemma TextPartIsGood(contentType: Bytes, value: Text)
    requires Headers.NoBreak(contentType)
    ensures GoodPart(TextPart(contentType, value))
  {
    hide Content, GoodContent, GoodField, EncodingText, SelectEncoding, CONTENT_TYPE, CONTENT_TRANSFER_ENCODING,
      Headers.ValidName, Headers.NoBreak;
    NamesAreGood();
    ContentIsGood(value);
    EncodingIsGood(SelectEncoding(value));
    GoodFieldOf(CONTENT_TYPE, contentType);
    GoodFieldOf(CONTENT_TRANSFER_ENCODING, EncodingText(SelectEncoding(value)));
  }

  lemma TypesAreGood()
    ensures Headers.NoBreak(PLAIN_TYPE) && Headers.NoBreak(HTML_TYPE)
    ensures Headers.TrimWhite(PLAIN_TYPE) == PLAIN_TYPE && Headers.TrimWhite(HTML_TYPE) == HTML_TYPE
  {
    TrimWhiteStays(PLAIN_TYPE);
    TrimWhiteStays(HTML_TYPE);
  }

  /** A quoted-printable part is always clean. */
  lemma QuotedIsClean(value: Text, boundary: Bytes)
    requires Multipart.IsBoundary(boundary) && SelectEncoding(value).Quoted?
    ensures Multipart.Clean(Content(value), Multipart.Delimiter(boundary))
  {
    hide Multipart.Clean, Multipart.IsBoundary, QuotedPrintable.Encode, SelectEncoding, Octets;
    QuotedPrintableIsExact(Octets(value), boundary);
  }

  /** Both parts are found exactly when no line of a part sent as it is starts with the delimiter. */
  lemma AlternativeIsExact(text: Text, html: Text, boundary: Bytes)
    requires Multipart.IsBoundary(boundary)
    ensures forall p | p in AlternativeParts(text, html) :: GoodPart(p)
    ensures var delimiter := Multipart.Delimiter(boundary);
      Multipart.Split(BuildAlternative(text, html, boundary).1, delimiter, 0, None)
      == Slices(AlternativeParts(text, html))
      <==> (SelectEncoding(text).Quoted? || Multipart.Clean(EnsureTrailingCrlf(Octets(text)), delimiter))
           && (SelectEncoding(html).Quoted? || Multipart.Clean(EnsureTrailingCrlf(Octets(html)), delimiter))
  {
    hide Multipart.Split, Multipart.Framed, Multipart.Clean, Multipart.Delimiter, Multipart.IsBoundary, GoodPart,
      Slices, Rendered, SelectEncoding, Octets, EnsureTrailingCrlf, Multipart.IsDelimiter, QuotedPrintable.Encode;
    var delimiter, parts := Multipart.Delimiter(boundary), AlternativeParts(text, html);
    Multipart.BoundaryFacts(boundary);
    TypesAreGood();
    TextPartIsGood(PLAIN_TYPE, text);
    TextPartIsGood(HTML_TYPE, html);
    assert forall p :: p in parts <==> p == TextPart(PLAIN_TYPE, text) || p == TextPart(HTML_TYPE, html);
    PartsAreExact(parts, delimiter);
    if SelectEncoding(text).Quoted? { QuotedIsClean(text, boundary); }
    if SelectEncoding(html).Quoted? { QuotedIsClean(html, boundary); }
  }

  // ---------------------------------------------------------------- parts arrive

  lemma TextFields(contentType: Bytes, value: Text)
    ensures var headers := ReadFields(TextPart(contentType, value).fields);
      && Lookup(headers, CONTENT_TYPE) == Some(Headers.TrimWhite(contentType))
      && Lookup(headers, CONTENT_TRANSFER_ENCODING) == Some(Headers.TrimWhite(EncodingText(SelectEncoding(value))))
  {
    hide CONTENT_TYPE, CONTENT_TRANSFER_ENCODING, Headers.TrimWhite, EnsureTrailingCrlf, SelectEncoding, EncodingText,
      Lookup, ReadFields;
    var e := EncodingText(SelectEncoding(value));
    BodyFields(BodyPart(contentType, e, []));
    assert BodyEntity(BodyPart(contentType, e, [])).fields == TextPart(contentType, value).fields;
  }

  lemma OtherEncodings()
    ensures Lower(Trim(SEVEN_BIT)) !in [BASE64, QUOTED_PRINTABLE]
    ensures Lower(Trim(EIGHT_BIT)) !in [BASE64, QUOTED_PRINTABLE]
  {
    hide IsBlank;
    SmallWords();
    TrimNothing(SEVEN_BIT);
    TrimNothing(EIGHT_BIT);
  }

  lemma SmallWords()
    ensures !IsBlank(SEVEN_BIT[0]) && !IsBlank(SEVEN_BIT[3]) && !IsBlank(EIGHT_BIT[0]) && !IsBlank(EIGHT_BIT[3])
  {
  }

  /** Text without the CRLF that the delimiter takes. */
  function Unended(b: Bytes): Bytes { if DataPhase.EndsWithCrlf(b) then b[..|b| - 2] else b }

  /** What is left of a content when its last CRLF is taken away decodes to the octets of the text. */
  lemma ContentDecodes(value: Text)
    ensures |Content(value)| >= 2
    ensures DecodeTransferEncoding(Content(value)[..|Content(value)| - 2], Some(EncodingText(SelectEncoding(value))))
         == Some(Unended(Octets(value)))
  {
    hide QuotedPrintable.Encode, QuotedPrintable.Decode, SelectEncoding, Octets, Lower, Trim;
    var b := Octets(value);
    if SelectEncoding(value).Quoted? {
      QuotedPrintable.RoundTripWithoutCrlf(b);
      QuotedPrintableIsItself();
    } else {
      OtherEncodings();
      if !DataPhase.EndsWithCrlf(b) { assert (b + CRLF)[..|b|] == b; }
    }
  }

  lemma QuotedPrintableIsItself()
    ensures Lower(Trim(QUOTED_PRINTABLE)) == QUOTED_PRINTABLE && QUOTED_PRINTABLE != BASE64
  {
    hide IsBlank;
    NotBlankEither();
    TrimNothing(QUOTED_PRINTABLE);
  }

  /** A text part is read with its type and decoded to the octets of its text. */
  lemma TextPartArrives(contentType: Bytes, value: Text)
    requires Headers.NoBreak(contentType)
    ensures var part := TextPart(contentType, value);
      && GoodPart(part)
      && FieldOf(Received(part.fields, part.content), CONTENT_TYPE) == Some(Headers.TrimWhite(contentType))
      && ContentOf(Received(part.fields, part.content)) == Some(Unended(Octets(value)))
  {
    hide GoodFields, ParseEntity, Received, Headers.TrimWhite, Lookup, ReadFields, Headers.NoBreak, Content,
      GoodContent, DecodeTransferEncoding, EncodingText, SelectEncoding, Octets, Unended, CONTENT_TYPE,
      CONTENT_TRANSFER_ENCODING;
    var part := TextPart(contentType, value);
    TextPartIsGood(contentType, value);
    ContentIsGood(value);
    PartIsRead(part.fields, part.content);
    TextFields(contentType, value);
    EncodingIsGood(SelectEncoding(value));
    ContentDecodes(value);
  }

  /**
   * A reader gets both texts of a `multipart/alternative` body, in order and each
   * with its type, when no line of a part sent as it is starts with the delimiter.
   */
  lemma AlternativeArrives(text: Text, html: Text, boundary: Bytes)
    requires Multipart.IsBoundary(boundary)
    requires var delimiter := Multipart.Delimiter(boundary);
      && (SelectEncoding(text).Quoted? || Multipart.Clean(EnsureTrailingCrlf(Octets(text)), delimiter))
      && (SelectEncoding(html).Quoted? || Multipart.Clean(EnsureTrailingCrlf(Octets(html)), delimiter))
    ensures var body := BuildAlternative(text, html, boundary).1;
      var slices := Multipart.Split(body, Multipart.Delimiter(boundary), 0, None);
      && |slices| == 2
      && FieldOf(slices[0], CONTENT_TYPE) == Some(PLAIN_TYPE) && ContentOf(slices[0]) == Some(Unended(Octets(text)))
      && FieldOf(slices[1], CONTENT_TYPE) == Some(HTML_TYPE) && ContentOf(slices[1]) == Some(Unended(Octets(html)))
  {
    hide Multipart.Split, Multipart.Clean, Multipart.Delimiter, Multipart.IsBoundary, GoodPart, TextPart,
      SelectEncoding, Octets, EnsureTrailingCrlf, FieldOf, ContentOf, Received, BuildAlternative, Unended, PLAIN_TYPE,
      HTML_TYPE, Headers.NoBreak, Headers.TrimWhite;
    AlternativeIsExact(text, html, boundary);
    TypesAreGood();
    TextPartArrives(PLAIN_TYPE, text);
    TextPartArrives(HTML_TYPE, html);
    var parts := AlternativeParts(text, html);
    assert parts[0] == TextPart(PLAIN_TYPE, text) && parts[1] == TextPart(HTML_TYPE, html);
  }

  // ----------------------------------------------------------- announced types

  lemma {:induction false} EscapeNothing(s: Text)
    requires BACKSLASH !in s && DQUOTE !in s
    ensures Escape(s) == s
  {
    if s == [] {
    } else {
      EscapeNothing(s[1..]);
      assert s == [s[0]] + s[1..];
    }
  }

  const BOUNDARY: Bytes := Lit("boundary")
  const MULTIPART: Bytes := Lit("multipart")

  lemma BoundaryIsPlain(boundary: Bytes)
    requires Multipart.IsBoundary(boundary)
    ensures Escape(boundary) == boundary
  {
    forall c | c in boundary ensures c != BACKSLASH && c != DQUOTE {
      var i :| 0 <= i < |boundary| && boundary[i] == c;
      if i < 14 { assert boundary[i] == boundary[..14][i] == Multipart.BOUNDARY_PREFIX[i]; }
    }
    EscapeNothing(boundary);
  }

  lemma TypeStart()
    ensures Lit("multipart/") == MULTIPART + [Disposition.SLASH]
  {
  }

  lemma BoundaryStart()
    ensures Lit("; boundary=\"") == [Disposition.SEMICOLON] + ([SPACE] + (BOUNDARY + [Disposition.EQUALS] + [DQUOTE]))
  {
  }

  lemma OneParameter(key: Text, value: Text)
    requires Escape(value) == value
    ensures MediaTypeReading.AllText([MediaTypeReading.QuotedString(key, value)])
         == [Disposition.SEMICOLON] + (([SPACE] + (key + [Disposition.EQUALS] + ([DQUOTE] + value + [DQUOTE]))) + [])
  {
    hide Escape;
    var p := MediaTypeReading.QuotedString(key, value);
    assert [p][1..] == [];
  }

  lemma TypeParts(subtype: Bytes, boundary: Bytes)
    requires Escape(boundary) == boundary
    ensures Multipart.MultipartType(subtype, boundary)
         == MULTIPART + [Disposition.SLASH] + subtype
            + MediaTypeReading.AllText([MediaTypeReading.QuotedString(BOUNDARY, boundary)])
  {
    hide MULTIPART, BOUNDARY, Lit, Escape, MediaTypeReading.AllText;
    TypeStart();
    BoundaryStart();
    QuoteMark();
    OneParameter(BOUNDARY, boundary);
    TypeText(MULTIPART + [Disposition.SLASH] + subtype, BOUNDARY, boundary);
  }

  lemma QuoteMark()
    ensures Lit("\"") == [DQUOTE]
  {
  }

  lemma TypeText(main: Text, key: Text, value: Text)
    ensures main + ([Disposition.SEMICOLON] + ([SPACE] + (key + [Disposition.EQUALS] + [DQUOTE]))) + value + [DQUOTE]
         == main
            + ([Disposition.SEMICOLON]
               + (([SPACE] + (key + [Disposition.EQUALS] + ([DQUOTE] + value + [DQUOTE]))) + []))
  {
    var front := [Disposition.SEMICOLON] + ([SPACE] + (key + [Disposition.EQUALS] + [DQUOTE]));
    assert main + front + value + [DQUOTE] == main + (front + (value + [DQUOTE]));
    assert [DQUOTE] + value + [DQUOTE] == [DQUOTE] + (value + [DQUOTE]);
  }

  lemma WordsAreTokens()
    ensures MediaTypeReading.IsKey(BOUNDARY) && Lower(BOUNDARY) == BOUNDARY
    ensures Lower(MULTIPART) == MULTIPART && Disposition.SLASH !in MULTIPART && MULTIPART != []
  {
  }

  lemma MainIsToken(subtype: Bytes)
    requires MediaTypeReading.IsBare(subtype)
    ensures Disposition.IsToken(MULTIPART + [Disposition.SLASH] + subtype)
  {
    var main := MULTIPART + [Disposition.SLASH] + subtype;
    MultipartIsBare();
    hide MULTIPART, IsBlank;
    assert forall c | c in main :: c in MULTIPART || c == Disposition.SLASH || c in subtype;
  }

  lemma MultipartIsBare()
    ensures forall c | c in MULTIPART + [Disposition.SLASH] ::
              !IsBlank(c) && c != Disposition.SEMICOLON && c != DQUOTE
  {
  }

  /** A reader finds the type and the boundary of a multipart body in what it is announced with. */
  lemma BoundaryTravels(subtype: Bytes, boundary: Bytes)
    requires Multipart.IsBoundary(boundary) && MediaTypeReading.IsBare(subtype) && Lower(subtype) == subtype
    ensures var value := Multipart.MultipartType(subtype, boundary);
      && Disposition.MediaOf(value) == Disposition.Media(MULTIPART, subtype)
      && Disposition.Parameters(value) == map[BOUNDARY := Disposition.InUtf8(boundary)]
  {
    hide Multipart.MultipartType, Disposition.MediaOf, Disposition.Parameters, MULTIPART, BOUNDARY, Escape, Lower,
      MediaTypeReading.AllText, MediaTypeReading.IsKey, Multipart.IsBoundary, Disposition.IsToken,
      MediaTypeReading.IsBare;
    var p := MediaTypeReading.QuotedString(BOUNDARY, boundary);
    BoundaryIsPlain(boundary);
    TypeParts(subtype, boundary);
    WordsAreTokens();
    MainIsToken(subtype);
    MediaTypeReading.MediaIsRead(MULTIPART, subtype, [p]);
    MediaTypeReading.ParametersAreRead(MULTIPART + [Disposition.SLASH] + subtype, [p]);
    assert [p][1..] == [];
  }

  /** The words above, as they stand on the wire. */
  lemma WordsOnTheWire()
    ensures MULTIPART == Lit("multipart") && BOUNDARY == Lit("boundary")
    ensures MIXED == Lit("mixed") && ALTERNATIVE == Lit("alternative")
    ensures SEVEN_BIT == Lit("7bit") && EIGHT_BIT == Lit("8bit")
    ensures PLAIN_TYPE == Lit("text/plain; charset=utf-8") && HTML_TYPE == Lit("text/html; charset=utf-8")
  {
  }

  lemma MixedIsBare()
    ensures MediaTypeReading.IsBare(MIXED) && Lower(MIXED) == MIXED
  {
  }

  lemma AlternativeIsBare()
    ensures MediaTypeReading.IsBare(ALTERNATIVE) && Lower(ALTERNATIVE) == ALTERNATIVE
  {
  }

  lemma SubtypesAreBare()
    ensures MediaTypeReading.IsBare(MIXED) && Lower(MIXED) == MIXED
    ensures MediaTypeReading.IsBare(ALTERNATIVE) && Lower(ALTERNATIVE) == ALTERNATIVE
  {
    hide MIXED, ALTERNATIVE, MediaTypeReading.IsBare, Lower;
    MixedIsBare();
    AlternativeIsBare();
  }

  /** Both kinds of body are announced so that their boundary is found. */
  lemma BothAreFound(text: Text, html: Text, boundary: Bytes)
    requires Multipart.IsBoundary(boundary)
    ensures var mixed := MixedAnnounced(boundary).contentType;
      && Disposition.Parameters(mixed) == map[BOUNDARY := Disposition.InUtf8(boundary)]
      && Disposition.MediaOf(mixed) == Disposition.Media(MULTIPART, MIXED)
    ensures var alternative := BuildAlternative(text, html, boundary).0.contentType;
      && Disposition.Parameters(alternative) == map[BOUNDARY := Disposition.InUtf8(boundary)]
      && Disposition.MediaOf(alternative) == Disposition.Media(MULTIPART, ALTERNATIVE)
  {
    hide Multipart.MultipartType, Disposition.MediaOf, Disposition.Parameters, Lower, MediaTypeReading.IsBare,
      Multipart.IsBoundary, MULTIPART, MIXED, ALTERNATIVE, BOUNDARY;
    SubtypesAreBare();
    BoundaryTravels(MIXED, boundary);
    BoundaryTravels(ALTERNATIVE, boundary);
  }

  // ------------------------------------------------------- announced encodings

  lemma AsciiAppend(a: Text, b: Text)
    ensures IsAscii(a + b) <==> IsAscii(a) && IsAscii(b)
  {
    assert forall c :: c in a + b <==> c in a || c in b;
  }

  lemma {:induction false} CrlfToLfAscii(s: Text)
    ensures IsAscii(CrlfToLf(s)) <==> IsAscii(s)
    decreases |s|
  {
    hide IsAscii;
    NothingIsAscii();
    if s == [] {
    } else if |s| >= 2 && s[0] == CR && s[1] == LF {
      CrlfToLfAscii(s[2..]);
      BreaksAreAscii();
      assert s == [CR, LF] + s[2..];
      AsciiAppend([CR, LF], s[2..]);
      AsciiAppend([LF], CrlfToLf(s[2..]));
    } else {
      CrlfToLfAscii(s[1..]);
      assert s == [s[0]] + s[1..];
      AsciiAppend([s[0]], s[1..]);
      AsciiAppend([s[0]], CrlfToLf(s[1..]));
    }
  }

  lemma BreaksAreAscii()
    ensures IsAscii([CR, LF]) && IsAscii([CR]) && IsAscii([LF])
  {
  }

  lemma NothingIsAscii()
    ensures IsAscii([])
  {
  }

  lemma {:induction false} CrToLfAscii(s: Text)
    ensures IsAscii(CrToLf(s)) <==> IsAscii(s)
  {
    hide IsAscii;
    NothingIsAscii();
    if s == [] {
    } else {
      CrToLfAscii(s[1..]);
      BreaksAreAscii();
      assert s == [s[0]] + s[1..];
      AsciiAppend([s[0]], s[1..]);
      AsciiAppend([if s[0] == CR then LF else s[0]], CrToLf(s[1..]));
    }
  }

  lemma {:induction false} LfToCrlfAscii(s: Text)
    ensures IsAscii(LfToCrlf(s)) <==> IsAscii(s)
  {
    hide IsAscii;
    NothingIsAscii();
    if s == [] {
    } else {
      LfToCrlfAscii(s[1..]);
      BreaksAreAscii();
      assert s == [s[0]] + s[1..];
      AsciiAppend([s[0]], s[1..]);
      AsciiAppend(if s[0] == LF then [CR, LF] else [s[0]], LfToCrlf(s[1..]));
    }
  }

  lemma {:induction false} Utf8Ascii(s: Text)
    ensures IsAscii(Utf8.Encode(s)) <==> IsAscii(s)
  {
    hide Utf8.EncodeChar, IsAscii;
    NothingIsAscii();
    if s == [] {
    } else {
      Utf8Ascii(s[1..]);
      CharAscii(s[0]);
      assert s == [s[0]] + s[1..];
      AsciiAppend([s[0]], s[1..]);
      AsciiAppend(Utf8.EncodeChar(s[0]), Utf8.Encode(s[1..]));
    }
  }

  lemma CharAscii(c: CodePoint)
    ensures IsAscii(Utf8.EncodeChar(c)) <==> IsAscii([c])
  {
    var b := Utf8.EncodeChar(c);
    assert b[0] in b;
    if c < 0x80 { assert b == [c]; } else { assert c in [c]; }
  }

  lemma OctetsAscii(value: Text)
    ensures IsAscii(Octets(value)) <==> IsAscii(value)
  {
    hide IsAscii, CrlfToLf, CrToLf, LfToCrlf, Utf8.Encode;
    CrlfToLfAscii(value);
    CrToLfAscii(CrlfToLf(value));
    LfToCrlfAscii(CrToLf(CrlfToLf(value)));
    Utf8Ascii(Normalized(value));
  }

  lemma TokenAscii(b: Bytes, i: nat)
    requires i < |b|
    ensures IsAscii(QuotedPrintable.Token(b, i))
  {
    var t := QuotedPrintable.Token(b, i);
    forall c | c in t ensures c < 0x80 {
      if |t| == 1 { assert c == b[i]; }
    }
  }

  lemma {:induction false} QuotedAscii(b: Bytes, i: nat, col: nat)
    requires i <= |b|
    ensures IsAscii(QuotedPrintable.EncodeFrom(b, i, col))
    decreases |b| - i
  {
    hide QuotedPrintable.EncodeFrom, QuotedPrintable.Token, IsAscii;
    SoftBreakIsAscii();
    if i == |b| {
      QuotedPrintable.EncodeEnd(b, col);
      NothingIsAscii();
    } else {
      QuotedPrintable.EncodeCases(b, i, col);
      if QuotedPrintable.CrlfAt(b, i) {
        QuotedAscii(b, i + 2, 0);
        AsciiAppend(CRLF, QuotedPrintable.EncodeFrom(b, i + 2, 0));
      } else {
        var t := QuotedPrintable.Token(b, i);
        var next := if col + |t| > 75 then |t| else col + |t|;
        TokenAscii(b, i);
        QuotedAscii(b, i + 1, next);
        AsciiAppend(t, QuotedPrintable.EncodeFrom(b, i + 1, next));
        AsciiAppend(QuotedPrintable.SOFT_BREAK, t + QuotedPrintable.EncodeFrom(b, i + 1, next));
      }
    }
  }

  lemma SoftBreakIsAscii()
    ensures IsAscii(QuotedPrintable.SOFT_BREAK) && IsAscii(CRLF)
  {
  }

  lemma EndedAscii(b: Bytes)
    ensures IsAscii(EnsureTrailingCrlf(b)) <==> IsAscii(b)
  {
    hide IsAscii;
    SoftBreakIsAscii();
    AsciiAppend(b, CRLF);
  }

  /** A content is ASCII exactly when the encoding is not the eight-bit one. */
  lemma ContentAscii(value: Text)
    ensures IsAscii(Content(value)) <==> !SelectEncoding(value).EightBit?
  {
    hide IsAscii, Octets, QuotedPrintable.EncodeFrom, EnsureTrailingCrlf, HasLongLine;
    OctetsAscii(value);
    EndedAscii(Octets(value));
    QuotedAscii(Octets(value), 0, 0);
    SoftBreakIsAscii();
    AsciiAppend(QuotedPrintable.EncodeFrom(Octets(value), 0, 0), CRLF);
  }

  predicate PartAscii(p: Part) {
    (forall f | f in p.fields :: IsAscii(f.name) && IsAscii(f.value)) && IsAscii(p.content)
  }

  lemma {:induction false} BlockAscii(fields: seq<Field>)
    ensures IsAscii(Block(FieldLines(fields))) <==> forall f | f in fields :: IsAscii(f.name) && IsAscii(f.value)
  {
    hide IsAscii;
    NothingIsAscii();
    if fields == [] {
    } else {
      var f, rest := fields[0], fields[1..];
      BlockAscii(rest);
      SoftBreakIsAscii();
      ColonIsAscii();
      assert fields == [f] + rest;
      assert FieldLines(fields)[1..] == FieldLines(rest);
      AsciiAppend(f.name + [Mixed.COLON, SPACE], f.value);
      AsciiAppend(f.name, [Mixed.COLON, SPACE]);
      AsciiAppend(FieldLine(f), CRLF);
      AsciiAppend(FieldLine(f) + CRLF, Block(FieldLines(rest)));
    }
  }

  lemma ColonIsAscii()
    ensures IsAscii([Mixed.COLON, SPACE]) && IsAscii([HYPHEN, HYPHEN])
  {
  }

  lemma OctetsOfPart(p: Part)
    ensures IsAscii(PartOctets(p.fields, p.content)) <==> PartAscii(p)
  {
    hide IsAscii, Block, FieldLines;
    SoftBreakIsAscii();
    BlockAscii(p.fields);
    AsciiAppend(Block(FieldLines(p.fields)), CRLF);
    AsciiAppend(Block(FieldLines(p.fields)) + CRLF, p.content);
  }

  /** A multipart body is ASCII exactly when all its parts are. */
  lemma {:induction false} FramedAscii(parts: seq<Part>, delimiter: Bytes)
    requires IsAscii(delimiter)
    ensures IsAscii(Multipart.Framed(Rendered(parts), delimiter)) <==> forall p | p in parts :: PartAscii(p)
  {
    hide IsAscii, PartAscii, PartOctets;
    SoftBreakIsAscii();
    ColonIsAscii();
    AsciiAppend(delimiter, [HYPHEN, HYPHEN]);
    AsciiAppend(delimiter + [HYPHEN, HYPHEN], CRLF);
    AsciiAppend(delimiter, CRLF);
    if parts == [] {
      FramedEnd(delimiter);
    } else {
      var p, rest := parts[0], parts[1..];
      FramedAscii(rest, delimiter);
      OctetsOfPart(p);
      assert parts == [p] + rest;
      FramedSplit(p, rest, delimiter);
      hide Multipart.Framed, Rendered;
      AsciiAppend(delimiter + CRLF, PartOctets(p.fields, p.content));
      AsciiAppend(delimiter + CRLF + PartOctets(p.fields, p.content), Multipart.Framed(Rendered(rest), delimiter));
    }
  }

  lemma DelimiterIsAscii(boundary: Bytes)
    requires Multipart.IsBoundary(boundary)
    ensures IsAscii(Multipart.Delimiter(boundary))
  {
    var d := Multipart.Delimiter(boundary);
    forall c | c in d ensures c < 0x80 {
      var i :| 0 <= i < |d| && d[i] == c;
      if 2 <= i < 16 { assert d[i] == boundary[..14][i - 2] == Multipart.BOUNDARY_PREFIX[i - 2]; }
    }
  }

  lemma LitIsAscii(s: string)
    requires forall i | 0 <= i < |s| :: s[i] as int < 128
    ensures IsAscii(Lit(s))
  {
    var t := Lit(s);
    forall c | c in t ensures c < 0x80 {
      var i :| 0 <= i < |t| && t[i] == c;
    }
  }

  lemma FieldNamesAscii()
    ensures IsAscii(CONTENT_TYPE) && IsAscii(CONTENT_TRANSFER_ENCODING) && IsAscii(CONTENT_DISPOSITION)
    ensures IsAscii(CONTENT_ID)
  {
    hide IsAscii, Lit;
    LitIsAscii("Content-Type");
    LitIsAscii("Content-Transfer-Encoding");
    LitIsAscii("Content-Disposition");
    LitIsAscii("Content-ID");
  }

  lemma TypesAscii()
    ensures IsAscii(PLAIN_TYPE) && IsAscii(HTML_TYPE)
  {
    hide IsAscii, Lit;
    LitIsAscii("text/plain; charset=utf-8");
    LitIsAscii("text/html; charset=utf-8");
  }

  lemma EncodingsAscii()
    ensures IsAscii(SEVEN_BIT) && IsAscii(EIGHT_BIT)
  {
    hide IsAscii, Lit;
    LitIsAscii("7bit");
    LitIsAscii("8bit");
  }

  lemma OldEncodingsAscii()
    ensures IsAscii(QUOTED_PRINTABLE) && IsAscii(BASE64)
  {
  }

  lemma FieldTextsAscii()
    ensures IsAscii(CONTENT_TYPE) && IsAscii(CONTENT_TRANSFER_ENCODING) && IsAscii(CONTENT_DISPOSITION)
    ensures IsAscii(CONTENT_ID) && IsAscii(PLAIN_TYPE) && IsAscii(HTML_TYPE)
    ensures IsAscii(SEVEN_BIT) && IsAscii(EIGHT_BIT) && IsAscii(QUOTED_PRINTABLE) && IsAscii(BASE64)
  {
    hide *;
    FieldNamesAscii();
    TypesAscii();
    EncodingsAscii();
    OldEncodingsAscii();
  }

  lemma TextPartAscii(contentType: Bytes, value: Text)
    requires IsAscii(contentType)
    ensures PartAscii(TextPart(contentType, value)) <==> !SelectEncoding(value).EightBit?
  {
    hide IsAscii, Content, SelectEncoding, CONTENT_TYPE, CONTENT_TRANSFER_ENCODING;
    FieldTextsAscii();
    ContentAscii(value);
  }

  /** The encoding of a `multipart/alternative` body is announced truly: 7bit exactly when all its octets are ASCII. */
  lemma AlternativeIsHonest(text: Text, html: Text, boundary: Bytes)
    requires Multipart.IsBoundary(boundary)
    ensures var (announced, body) := BuildAlternative(text, html, boundary);
      announced.encoding == if IsAscii(body) then SEVEN_BIT else EIGHT_BIT
  {
    hide IsAscii, PartAscii, TextPart, SelectEncoding, Multipart.Framed, Rendered, Multipart.Delimiter,
      Multipart.IsBoundary, Multipart.MultipartType, PLAIN_TYPE, HTML_TYPE, SEVEN_BIT, EIGHT_BIT, ALTERNATIVE;
    FieldTextsAscii();
    DelimiterIsAscii(boundary);
    TextPartAscii(PLAIN_TYPE, text);
    TextPartAscii(HTML_TYPE, html);
    var parts := AlternativeParts(text, html);
    assert forall p :: p in parts <==> p == TextPart(PLAIN_TYPE, text) || p == TextPart(HTML_TYPE, html);
    FramedAscii(parts, Multipart.Delimiter(boundary));
  }

  lemma BodyAscii(body: BodyPart)
    ensures PartAscii(BodyEntity(body))
       <==> IsAscii(body.contentType) && IsAscii(body.contentTransferEncoding) && IsAscii(body.data)
  {
    hide IsAscii, CONTENT_TYPE, CONTENT_TRANSFER_ENCODING, EnsureTrailingCrlf;
    FieldTextsAscii();
    EndedAscii(body.data);
    var fields := BodyEntity(body).fields;
    assert fields[0] in fields && fields[1] in fields;
  }

  lemma IdAscii(id: Bytes)
    ensures IsAscii([0x3c] + id + [0x3e]) <==> IsAscii(id)
  {
    assert forall c :: c in [0x3c] + id + [0x3e] <==> c == 0x3c || c in id || c == 0x3e;
  }

  lemma PlacementAscii(a: Attachment)
    requires GoodAttachment(a)
    ensures IsAscii(Placement(a)) && IsAscii(AttachmentEntity(a).content)
  {
    hide Disposition.Format, Disposition.IsToken, Disposition.OneLine, INLINE, ATTACHMENT, Utf8.Encode, Base64.Encode,
      Base64.Wrapped, Base64.IsSymbol;
    InlineIsToken();
    AttachmentIsToken();
    var kind := if a.inline then INLINE else ATTACHMENT;
    NoBreakMembers(a.filename);
    Disposition.FormatIsOneLine(kind, a.filename);
    OneLineFacts(Disposition.Format(kind, a.filename));
    Utf8.EncodeAscii(Disposition.Format(kind, a.filename));
    Base64.EncodeSymbols(a.data);
    Base64.WrappedShape(Base64.Encode(a.data));
    forall c | c in AttachmentEntity(a).content ensures c < 0x80 { SymbolAscii(c); }
  }

  lemma SymbolAscii(c: byte)
    ensures Base64.IsSymbol(c) || c == Base64.PAD ==> c < 0x80
  {
  }

  /** What an attachment brings that may be no ASCII: its type and its Content-ID. */
  predicate AttachmentTextsAscii(a: Attachment) {
    IsAscii(a.contentType) && (HasContentId(a) ==> IsAscii(a.contentId.value))
  }

  lemma AttachmentAscii(a: Attachment)
    requires GoodAttachment(a)
    ensures PartAscii(AttachmentEntity(a)) <==> AttachmentTextsAscii(a)
  {
    hide IsAscii, CONTENT_TYPE, CONTENT_TRANSFER_ENCODING, CONTENT_DISPOSITION, CONTENT_ID, Placement, Base64.Encode,
      Base64.Wrapped, BASE64, GoodAttachment;
    FieldTextsAscii();
    PlacementAscii(a);
    var fields := AttachmentEntity(a).fields;
    assert fields[0] in fields && fields[1] in fields && fields[2] in fields;
    if HasContentId(a) {
      IdAscii(a.contentId.value);
      assert fields[3] in fields;
    }
  }

  /**
   * A body with attachments is announced as 7bit whatever it holds. That is true
   * exactly when the body part is ASCII, and so are the texts of the fields.
   */
  lemma MixedIsHonestIff(body: BodyPart, attachments: seq<Attachment>, boundary: Bytes)
    requires Multipart.IsBoundary(boundary) && forall a | a in attachments :: GoodAttachment(a)
    ensures MixedAnnounced(boundary).encoding == SEVEN_BIT
    ensures IsAscii(Multipart.Framed(Rendered(MixedParts(body, attachments)), Multipart.Delimiter(boundary)))
       <==> IsAscii(body.contentType) && IsAscii(body.contentTransferEncoding) && IsAscii(body.data)
            && forall a | a in attachments :: AttachmentTextsAscii(a)
  {
    hide IsAscii, PartAscii, Multipart.Framed, Rendered, Multipart.Delimiter, Multipart.IsBoundary, BodyEntity,
      AttachmentEntity, GoodAttachment, AttachmentTextsAscii, Multipart.MultipartType;
    DelimiterIsAscii(boundary);
    var parts := MixedParts(body, attachments);
    FramedAscii(parts, Multipart.Delimiter(boundary));
    BodyAscii(body);
    AttachmentsAscii(attachments);
    assert forall p :: p in parts <==> p == BodyEntity(body) || p in AttachmentEntities(attachments);
  }

  lemma {:induction false} AttachmentsAscii(attachments: seq<Attachment>)
    requires forall a | a in attachments :: GoodAttachment(a)
    ensures (forall p | p in AttachmentEntities(attachments) :: PartAscii(p))
       <==> forall a | a in attachments :: AttachmentTextsAscii(a)
  {
    hide PartAscii, AttachmentEntity, GoodAttachment, AttachmentTextsAscii;
    if attachments == [] {
    } else {
      var a, rest := attachments[0], attachments[1..];
      assert a in attachments && forall x | x in rest :: x in attachments;
      AttachmentAscii(a);
      AttachmentsAscii(rest);
      assert attachments == [a] + rest;
      assert AttachmentEntities(attachments) == [AttachmentEntity(a)] + AttachmentEntities(rest);
    }
  }

  /** A short text beyond ASCII, with or without attachments: its body part is labelled 8bit, the whole 7bit. */
  lemma WideTextIsMislabelled(value: Text, attachments: seq<Attachment>, boundary: Bytes)
    requires Multipart.IsBoundary(boundary) && (forall a | a in attachments :: GoodAttachment(a))
    requires SelectEncoding(value).EightBit?
    ensures var body := BodyPart(PLAIN_TYPE, EIGHT_BIT, Octets(value));
      && MixedAnnounced(boundary).encoding == SEVEN_BIT
      && !IsAscii(Multipart.Framed(Rendered(MixedParts(body, attachments)), Multipart.Delimiter(boundary)))
  {
    hide IsAscii, Multipart.Framed, Rendered, MixedParts, Multipart.Delimiter, Multipart.IsBoundary, Octets,
      GoodAttachment, HasLongLine, AttachmentTextsAscii;
    OctetsAscii(value);
    MixedIsHonestIff(BodyPart(PLAIN_TYPE, EIGHT_BIT, Octets(value)), attachments, boundary);
  }

  // ------------------------------------------------------------- line lengths

  lemma {:induction false} UnitsOfAscii(s: Text)
    requires IsAscii(s)
    ensures Headers.Units(s) == |s|
  {
    if s == [] {
    } else {
      assert s[0] in s && forall c | c in s[1..] :: c in s;
      UnitsOfAscii(s[1..]);
    }
  }

  lemma {:induction false} OctetsOfUnits(s: Text)
    ensures |Utf8.Encode(s)| <= 3 * Headers.Units(s)
  {
    hide Utf8.EncodeChar;
    if s == [] {
    } else {
      OctetsOfUnits(s[1..]);
      CharSize(s[0]);
    }
  }

  lemma CharSize(c: CodePoint)
    ensures |Utf8.EncodeChar(c)| <= if c < 0x10000 then 3 else 4
  {
  }

  /**
   * A text that is sent as it is has no line over 998 octets while it is ASCII.
   * Beyond that the limit holds for its UTF-16 units, not for its octets: there
   * can be three times as many.
   */
  lemma LinesOfUnencoded(value: Text, line: Text)
    requires !SelectEncoding(value).Quoted? && line in Headers.SplitLines(value)
    ensures SelectEncoding(value).SevenBit? && IsAscii(line) ==> |Utf8.Encode(line)| <= 998
    ensures |Utf8.Encode(line)| <= 2994
  {
    hide Utf8.Encode, Headers.SplitLines;
    OctetsOfUnits(line);
    assert Headers.Units(line) <= 998;
    if IsAscii(line) {
      Utf8.EncodeAscii(line);
      UnitsOfAscii(line);
    }
  }

  /** A line of U+00E9. */
  function Accents(n: nat): Text { if n == 0 then [] else [0xE9] + Accents(n - 1) }

  lemma {:induction false} AccentsAre(n: nat)
    ensures Headers.NoBreak(Accents(n)) && Headers.Units(Accents(n)) == n && |Utf8.Encode(Accents(n))| == 2 * n
    ensures n > 0 ==> !IsAscii(Accents(n))
  {
    if n > 0 {
      AccentsAre(n - 1);
      assert Accents(n)[1..] == Accents(n - 1);
      assert Accents(n)[0] == 0xE9 && Accents(n)[0] in Accents(n);
    }
  }

  /** Five hundred accented letters make a line of a thousand octets, and it is sent as it is. */
  lemma LongLineOfAccents()
    ensures var value := Accents(500);
      SelectEncoding(value).EightBit? && Headers.SplitLines(value) == [value] && |Utf8.Encode(value)| == 1000
  {
    hide Utf8.Encode, Headers.SplitLines, Headers.Units, Accents, Headers.NoBreak, IsAscii;
    AccentsAre(500);
    ForeignHeaders.LastLine(Accents(500));
  }
}
