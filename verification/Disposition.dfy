/**
 * `Content-Disposition`: the writer of `src/internal/mime.ts` against the
 * parameter parser of `src/mime/parse.ts` (section 4 of RFC 2231).
 */
module Disposition {
  import opened Common
  import opened Strings
  import Utf8
  import QuotedPrintable

  const SEMICOLON: byte := 0x3b
  const EQUALS: byte := 0x3d
  const STAR: byte := 0x2a
  const PERCENT: byte := 0x25
  const APOSTROPHE: byte := 0x27

  // ----------------------------------------------------------------- writer

  /** The octets `encodeRfc2231` keeps as they are. */
  predicate IsAttributeChar(c: int) {
    IsAlnum(c) || c in [0x21, 0x23, 0x24, 0x26, 0x2b, 0x2d, 0x2e, 0x5e, 0x5f, 0x60, 0x7c, 0x7e]
  }

  function EncodeOctet(b: byte): (r: Text)
    ensures 0 < |r| <= 3
  {
    if IsAttributeChar(b) then [b]
    else [PERCENT, QuotedPrintable.HexDigit(b / 16), QuotedPrintable.HexDigit(b % 16)]
  }

  /** `encodeRfc2231` on octets. */
  function PercentEncode(b: Bytes): Text { if b == [] then [] else EncodeOctet(b[0]) + PercentEncode(b[1..]) }

  const FILENAME: Text := [0x66, 0x69, 0x6c, 0x65, 0x6e, 0x61, 0x6d, 0x65]

  /** The parameter, without the semicolon before it. */
  function FilenameParameter(filename: Text): Text {
    if IsAscii(filename) then FILENAME + [EQUALS] + ([DQUOTE] + Escape(filename) + [DQUOTE])
    else FILENAME + [STAR] + [EQUALS] + (Utf8.LABEL + [APOSTROPHE, APOSTROPHE] + PercentEncode(Utf8.Encode(filename)))
  }

  /** `formatDisposition` */
  function Format(disposition: Text, filename: Option<Text>): Text {
    if filename.None? || filename.value == [] then disposition
    else disposition + [SEMICOLON] + ([SPACE] + FilenameParameter(filename.value))
  }

  // ----------------------------------------------------------------- parser

  /** Splitting at semicolons outside quotes: the segment being read, and the two flags. */
  datatype Splitter = Splitter(done: seq<Text>, current: Text, quoted: bool, escaped: bool)

  function SplitStep(st: Splitter, c: CodePoint): Splitter {
    if st.escaped then st.(current := st.current + [c], escaped := false)
    else if c == BACKSLASH && st.quoted then st.(current := st.current + [c], escaped := true)
    else if c == DQUOTE then st.(current := st.current + [c], quoted := !st.quoted)
    else if c == SEMICOLON && !st.quoted then st.(done := st.done + [st.current], current := [])
    else st.(current := st.current + [c])
  }

  function SplitRun(st: Splitter, value: Text): Splitter
    decreases |value|
  {
    if value == [] then st else SplitRun(SplitStep(st, value[0]), value[1..])
  }

  /** `splitSegments` */
  function Segments(value: Text): seq<Text> {
    var st := SplitRun(Splitter([], [], false, false), value);
    st.done + [st.current]
  }

  method SplitSegments(value: Text) returns (segments: seq<Text>)
    ensures segments == Segments(value)
  {
    segments := [];
    var current: Text := [];
    var quoted, escaped := false, false;
    for k := 0 to |value|
      invariant SplitRun(Splitter(segments, current, quoted, escaped), value[k..])
             == SplitRun(Splitter([], [], false, false), value)
    {
      assert value[k..][1..] == value[k + 1..];
      var c := value[k];
      if escaped {
        current := current + [c];
        escaped := false;
        continue;
      }
      if c == BACKSLASH && quoted {
        current := current + [c];
        escaped := true;
        continue;
      }
      if c == DQUOTE {
        quoted := !quoted;
        current := current + [c];
        continue;
      }
      if c == SEMICOLON && !quoted {
        segments := segments + [current];
        current := [];
        continue;
      }
      current := current + [c];
    }
    segments := segments + [current];
  }

  predicate EndsLine(c: CodePoint) { c == LF || c == CR || c == 0x2028 || c == 0x2029 }

  /** Each backslash before anything but a line end removed. */
  function Unescape(s: Text): Text
    decreases |s|
  {
    if s == [] then []
    else if s[0] == BACKSLASH && |s| >= 2 && !EndsLine(s[1]) then [s[1]] + Unescape(s[2..])
    else [s[0]] + Unescape(s[1..])
  }

  function Unquote(v: Text): Text {
    if |v| >= 2 && v[0] == DQUOTE && v[|v| - 1] == DQUOTE then Unescape(v[1..|v| - 1]) else v
  }

  /** `percentDecode` */
  function PercentDecode(s: Text): Bytes
    decreases |s|
  {
    if s == [] then []
    else if s[0] == PERCENT && |s| >= 3 && IsHexDigit(s[1]) && IsHexDigit(s[2]) then
      [QuotedPrintable.HexByte(s[1], s[2])] + PercentDecode(s[3..])
    else [s[0] % 256] + PercentDecode(s[1..])
  }

  /** A parameter's text, or its octets when they are in a charset other than UTF-8. */
  datatype Value = InUtf8(text: Text) | InCharset(charset: Text, octets: Bytes)

  function DecodeOctets(octets: Bytes, charset: Text): Value {
    if Lower(Trim(charset)) == Utf8.LABEL then InUtf8(Utf8.Decode(octets)) else InCharset(charset, octets)
  }

  /** `decodeExtendedParameter` */
  function DecodeExtended(v: Text): Value {
    var first := IndexOf(v, APOSTROPHE);
    if first == |v| then DecodeOctets(PercentDecode(v), Utf8.LABEL)
    else
      var second := IndexOf(v[first + 1..], APOSTROPHE);
      if first + 1 + second == |v| then DecodeOctets(PercentDecode(v), Utf8.LABEL)
      else DecodeOctets(PercentDecode(v[first + second + 2..]), if first == 0 then Utf8.LABEL else v[..first])
  }

  /** One `key=value` segment added to the parameters; continuations `key*n` are left alone. */
  function AddParameter(params: map<Text, Value>, segment: Text): map<Text, Value> {
    var s := Trim(segment);
    var equals := IndexOf(s, EQUALS);
    if equals == 0 || equals == |s| then params
    else
      var key := Lower(Trim(s[..equals]));
      var v := Unquote(Trim(s[equals + 1..]));
      if STAR !in key then params[key := InUtf8(v)]
      else if key[|key| - 1] == STAR && STAR !in key[..|key| - 1] then params[key[..|key| - 1] := DecodeExtended(v)]
      else params
  }

  function AddParameters(params: map<Text, Value>, segments: seq<Text>): map<Text, Value>
    decreases |segments|
  {
    if segments == [] then params else AddParameters(AddParameter(params, segments[0]), segments[1..])
  }

  /** The parameters `parseMediaType` reads from a header value. */
  function Parameters(value: Text): map<Text, Value> {
    if Trim(value) == [] then map[] else AddParameters(map[], Segments(value)[1..])
  }

  /** The type and the subtype, in small letters; the subtype is empty without a slash. */
  datatype Media = Media(kind: Text, subkind: Text)

  const SLASH: byte := 0x2f

  /** The first part of what `parseMediaType` reads. */
  function MediaOf(value: Text): Media {
    if Trim(value) == [] then Media(Lit("text"), Lit("plain"))
    else
      var main := Lower(Trim(Segments(value)[0]));
      var slash := IndexOf(main, SLASH);
      if 0 < slash < |main| then Media(main[..slash], main[slash + 1..]) else Media(main, [])
  }

  // ------------------------------------------------------------- round trip

  /** A disposition type is a token: it holds nothing the segment splitter reacts to. */
  predicate IsToken(d: Text) {
    d != [] && forall c | c in d :: !IsBlank(c) && c != SEMICOLON && c != DQUOTE
  }

  lemma {:induction false} SplitAppend(st: Splitter, a: Text, b: Text)
    ensures SplitRun(st, a + b) == SplitRun(SplitRun(st, a), b)
    decreases |a|
  {
    if a == [] {
      assert a + b == b;
    } else {
      assert (a + b)[1..] == a[1..] + b;
      SplitAppend(SplitStep(st, a[0]), a[1..], b);
    }
  }

  /** Unquoted text without semicolons and quotes is copied. */
  lemma {:induction false} SplitPlain(st: Splitter, a: Text)
    requires !st.quoted && !st.escaped && forall c | c in a :: c != SEMICOLON && c != DQUOTE
    ensures SplitRun(st, a) == st.(current := st.current + a)
    decreases |a|
  {
    if a == [] {
      assert st.current + [] == st.current;
    } else {
      assert a[0] in a && forall c | c in a[1..] :: c in a;
      SplitPlain(st.(current := st.current + [a[0]]), a[1..]);
      assert st.current + [a[0]] + a[1..] == st.current + a;
    }
  }

  /** Escaped text inside quotes is copied, whatever it holds. */
  lemma {:induction false} SplitEscaped(st: Splitter, s: Text)
    requires st.quoted && !st.escaped
    ensures SplitRun(st, Escape(s)) == st.(current := st.current + Escape(s))
    decreases |s|
  {
    hide SplitRun, EscapeChar;
    if s == [] {
      SplitNothing(st);
      assert st.current + [] == st.current;
    } else {
      var head, rest := EscapeChar(s[0]), Escape(s[1..]);
      var st' := st.(current := st.current + head);
      SplitAppend(st, head, rest);
      SplitEscapedHead(st, s[0]);
      SplitEscaped(st', s[1..]);
      assert st.current + head + rest == st.current + (head + rest);
    }
  }

  lemma SplitNothing(st: Splitter)
    ensures SplitRun(st, []) == st
  {
  }

  lemma SplitEscapedHead(st: Splitter, c: CodePoint)
    requires st.quoted && !st.escaped
    ensures SplitRun(st, EscapeChar(c)) == st.(current := st.current + EscapeChar(c))
  {
    if c == BACKSLASH || c == DQUOTE {
      var st1 := SplitStep(st, BACKSLASH);
      assert [BACKSLASH as CodePoint, c][1..] == [c];
      assert SplitRun(st1, [c]) == SplitStep(st1, c);
      assert st.current + [BACKSLASH] + [c] == st.current + [BACKSLASH, c];
    } else {
      assert SplitRun(st, [c]) == SplitStep(st, c);
    }
  }

  lemma {:induction false} UnescapeEscape(s: Text)
    ensures Unescape(Escape(s)) == s
  {
    if s == [] {
    } else {
      UnescapeEscape(s[1..]);
      var e := Escape(s);
      if s[0] == BACKSLASH || s[0] == DQUOTE {
        assert e[2..] == Escape(s[1..]);
      } else {
        assert e[1..] == Escape(s[1..]);
      }
      assert s == [s[0]] + s[1..];
    }
  }

  lemma OctetRoundTrip(b: byte, tail: Text)
    ensures PercentDecode(EncodeOctet(b) + tail) == [b] + PercentDecode(tail)
  {
    var e := EncodeOctet(b);
    if |e| == 1 {
      assert (e + tail)[1..] == tail;
    } else {
      QuotedPrintable.HexRoundTrip(b / 16);
      QuotedPrintable.HexRoundTrip(b % 16);
      assert (e + tail)[3..] == tail;
    }
  }

  lemma {:induction false} PercentRoundTrip(b: Bytes)
    ensures PercentDecode(PercentEncode(b)) == b
  {
    hide EncodeOctet, PercentDecode;
    if b != [] {
      PercentRoundTrip(b[1..]);
      OctetRoundTrip(b[0], PercentEncode(b[1..]));
      assert b == [b[0]] + b[1..];
    } else {
      PercentDecodeNothing();
    }
  }

  lemma PercentDecodeNothing()
    ensures PercentDecode([]) == []
  {
  }

  /** ASCII the splitter and the trimmer leave alone, and that no quoting starts with. */
  predicate IsInert(c: CodePoint) {
    c < 0x80 && c != SEMICOLON && c != DQUOTE && c != APOSTROPHE && c != EQUALS && !IsBlank(c)
  }

  lemma OctetIsInert(b: byte)
    ensures forall c | c in EncodeOctet(b) :: IsInert(c)
  {
  }

  lemma {:induction false} PercentIsInert(b: Bytes)
    ensures forall c | c in PercentEncode(b) :: IsInert(c)
    ensures b != [] ==> PercentEncode(b) != []
  {
    hide EncodeOctet, IsInert;
    if b == [] {
    } else {
      OctetIsInert(b[0]);
      PercentIsInert(b[1..]);
    }
  }

  lemma FilenameIsLower()
    ensures Lower(FILENAME) == FILENAME && Lower(Utf8.LABEL) == Utf8.LABEL
    ensures STAR !in FILENAME && EQUALS !in FILENAME && APOSTROPHE !in Utf8.LABEL
  {
    hide IsBlank;
  }

  lemma StarredIsLower()
    ensures Lower(FILENAME + [STAR]) == FILENAME + [STAR] && EQUALS !in FILENAME + [STAR]
  {
    hide IsBlank;
    FilenameIsLower();
    assert forall i | 0 <= i < 8 :: Lower(FILENAME + [STAR])[i] == Lower(FILENAME)[i];
  }

  lemma FilenameIsTrim()
    ensures Trim(FILENAME) == FILENAME && Trim(FILENAME + [STAR]) == FILENAME + [STAR] && Trim(Utf8.LABEL) == Utf8.LABEL
  {
    hide Lower, IsBlank, Trim;
    NotBlank();
    TrimNothing(FILENAME);
    TrimNothing(FILENAME + [STAR]);
    TrimNothing(Utf8.LABEL);
  }

  /** What the splitter makes of the whole header value. */
  lemma FormatSegments(d: Text, f: Text)
    requires IsToken(d) && f != []
    ensures Segments(Format(d, Some(f))) == [d, [SPACE] + FilenameParameter(f)]
  {
    hide SplitRun, Escape, PercentEncode;
    var p := [SPACE] + FilenameParameter(f);
    var start := Splitter([], [], false, false);
    SplitPlain(start, d);
    assert [] + d == d;
    var mid := start.(current := d);
    SplitAppend(start, d, [SEMICOLON] + p);
    assert d + [SEMICOLON] + p == d + ([SEMICOLON] + p);
    SplitAppend(mid, [SEMICOLON], p);
    SplitOne(mid, SEMICOLON);
    var seg := Splitter([d], [], false, false);
    assert [] + [d] == [d];
    ParameterSegment(seg, f);
  }

  lemma SplitOne(st: Splitter, c: CodePoint)
    ensures SplitRun(st, [c]) == SplitStep(st, c)
  {
    assert [c][1..] == [];
  }

  /** The parameter after the semicolon is one segment. */
  lemma ParameterSegment(seg: Splitter, f: Text)
    requires seg.current == [] && !seg.quoted && !seg.escaped
    ensures SplitRun(seg, [SPACE] + FilenameParameter(f)) == seg.(current := [SPACE] + FilenameParameter(f))
  {
    hide SplitRun, Escape, PercentEncode, IsBlank;
    var p := [SPACE] + FilenameParameter(f);
    if IsAscii(f) {
      QuotedSegment(seg, [SPACE] + FILENAME + [EQUALS], f);
      assert p == [SPACE] + FILENAME + [EQUALS] + [DQUOTE] + Escape(f) + [DQUOTE];
    } else {
      StarredIsInert(f);
      SplitPlain(seg, p);
      assert [] + p == p;
    }
  }

  const STARRED_START: Text := [SPACE] + (FILENAME + [STAR, EQUALS] + Utf8.LABEL + [APOSTROPHE, APOSTROPHE])

  lemma StartIsInert()
    ensures forall c | c in STARRED_START :: c != SEMICOLON && c != DQUOTE
  {
    assert STARRED_START == [0x20, 0x66, 0x69, 0x6c, 0x65, 0x6e, 0x61, 0x6d, 0x65, 0x2a, 0x3d, 0x75, 0x74, 0x66, 0x2d,
      0x38, 0x27, 0x27];
  }

  lemma StarredParts(f: Text)
    requires !IsAscii(f)
    ensures [SPACE] + FilenameParameter(f) == STARRED_START + PercentEncode(Utf8.Encode(f))
  {
    hide PercentEncode, Utf8.Encode;
  }

  lemma StarredIsInert(f: Text)
    requires !IsAscii(f)
    ensures forall c | c in [SPACE] + FilenameParameter(f) :: c != SEMICOLON && c != DQUOTE
  {
    hide PercentEncode, IsBlank, Utf8.Encode, FilenameParameter, STARRED_START;
    StartIsInert();
    PercentIsInert(Utf8.Encode(f));
    StarredParts(f);
  }

  /** Plain text, then a quoted string holding `f`: one segment, outside quotes at the end. */
  lemma QuotedSegment(seg: Splitter, a: Text, f: Text)
    requires seg.current == [] && !seg.quoted && !seg.escaped
    requires forall c | c in a :: c != SEMICOLON && c != DQUOTE
    ensures SplitRun(seg, a + [DQUOTE] + Escape(f) + [DQUOTE])
         == seg.(current := a + [DQUOTE] + Escape(f) + [DQUOTE])
  {
    hide SplitRun, Escape;
    var e := Escape(f);
    SplitAppend(seg, a + [DQUOTE] + e, [DQUOTE]);
    SplitAppend(seg, a + [DQUOTE], e);
    SplitAppend(seg, a, [DQUOTE]);
    SplitPlain(seg, a);
    assert [] + a == a;
    SplitOne(seg.(current := a), DQUOTE);
    var s2 := seg.(current := a + [DQUOTE], quoted := true);
    SplitEscaped(s2, f);
    SplitOne(s2.(current := a + [DQUOTE] + e), DQUOTE);
  }

  lemma NotBlank()
    ensures !IsBlank(DQUOTE) && !IsBlank(FILENAME[0]) && !IsBlank(FILENAME[7]) && !IsBlank(STAR)
    ensures !IsBlank(Utf8.LABEL[0]) && !IsBlank(Utf8.LABEL[4])
  {
  }

  /** What one segment adds, once its key and its value are known. */
  lemma ParameterIs(segment: Text, key: Text, v: Text)
    requires Trim(segment) == key + [EQUALS] + v && key != [] && EQUALS !in key && STAR !in key
    requires Lower(Trim(key)) == key && Trim(v) == v
    ensures AddParameter(map[], segment) == map[key := InUtf8(Unquote(v))]
  {
    hide Trim, Lower, Unquote, IndexOf;
    FirstIs(Trim(segment), key, EQUALS, v);
  }

  lemma ExtendedIs(segment: Text, key: Text, v: Text)
    requires Trim(segment) == key + [STAR] + [EQUALS] + v && EQUALS !in key && STAR !in key
    requires Lower(Trim(key + [STAR])) == key + [STAR] && Trim(v) == v
    ensures AddParameter(map[], segment) == map[key := DecodeExtended(Unquote(v))]
  {
    hide Trim, Lower, Unquote, IndexOf, DecodeExtended;
    FirstIs(Trim(segment), key + [STAR], EQUALS, v);
    assert (key + [STAR])[..|key|] == key && (key + [STAR])[|key|] == STAR;
  }

  lemma QuotedParameter(f: Text)
    requires f != [] && IsAscii(f)
    ensures AddParameter(map[], [SPACE] + FilenameParameter(f)) == map[FILENAME := InUtf8(f)]
  {
    hide Escape, Unescape, IsBlank, Trim, Lower, AddParameter;
    var p, v := FilenameParameter(f), [DQUOTE] + Escape(f) + [DQUOTE];
    NotBlank();
    TrimNothing(p);
    TrimNothing(v);
    FilenameIsTrim();
    FilenameIsLower();
    ParameterIs([SPACE] + p, FILENAME, v);
    UnescapeEscape(f);
    assert v[1..|v| - 1] == Escape(f);
  }

  lemma ExtendedParameter(f: Text)
    requires !IsAscii(f)
    ensures AddParameter(map[], [SPACE] + FilenameParameter(f))
         == map[FILENAME := InUtf8(Utf8.Decode(Utf8.Encode(f)))]
  {
    hide PercentEncode, PercentDecode, IsBlank, Unescape, Trim, Lower, AddParameter, DecodeExtended;
    var pct := PercentEncode(Utf8.Encode(f));
    var v := Utf8.LABEL + [APOSTROPHE, APOSTROPHE] + pct;
    var p := FilenameParameter(f);
    ExtendedTrims(f, pct, v, p);
    PercentRoundTrip(Utf8.Encode(f));
    FilenameIsTrim();
    FilenameIsLower();
    StarredIsLower();
    ExtendedIs([SPACE] + p, FILENAME, v);
    ExtendedValue(pct);
  }

  lemma ExtendedTrims(f: Text, pct: Text, v: Text, p: Text)
    requires !IsAscii(f) && pct == PercentEncode(Utf8.Encode(f))
    requires v == Utf8.LABEL + [APOSTROPHE, APOSTROPHE] + pct && p == FilenameParameter(f)
    ensures Trim([SPACE] + p) == p && Trim(v) == v
  {
    hide PercentEncode, IsBlank, Trim;
    NonAsciiEncodes(f);
    PercentIsInert(Utf8.Encode(f));
    assert pct[|pct| - 1] in pct;
    NotBlank();
    assert p == FILENAME + [STAR] + [EQUALS] + v;
    TrimNothing(p);
    TrimNothing(v);
  }

  lemma NonAsciiEncodes(f: Text)
    requires !IsAscii(f)
    ensures Utf8.Encode(f) != []
  {
  }

  lemma ExtendedValue(pct: Text)
    ensures DecodeExtended(Utf8.LABEL + [APOSTROPHE, APOSTROPHE] + pct) == InUtf8(Utf8.Decode(PercentDecode(pct)))
  {
    hide Trim, Lower, IsBlank, PercentDecode;
    var v := Utf8.LABEL + [APOSTROPHE, APOSTROPHE] + pct;
    FilenameIsTrim();
    FilenameIsLower();
    assert v[5] == APOSTROPHE && forall i | 0 <= i < 5 :: v[i] == Utf8.LABEL[i];
    assert IndexOf(v, APOSTROPHE) == 5;
    assert v[6..][0] == APOSTROPHE;
    assert IndexOf(v[6..], APOSTROPHE) == 0;
    assert v[7..] == pct && v[..5] == Utf8.LABEL;
  }

  /**
   * The filename a reader finds. An ASCII filename always survives, whatever it
   * holds; any other one survives if and only if it has no unpaired surrogate
   * and does not start with U+FEFF, which the platform decoder drops.
   */
  lemma FilenameRoundTrip(d: Text, f: Text)
    requires IsToken(d) && f != []
    ensures var params := Parameters(Format(d, Some(f)));
      FILENAME in params
      && (params[FILENAME] == InUtf8(f) <==> IsAscii(f) || (WellFormed(f) && f[0] != Utf8.BOM))
  {
    hide Segments, FilenameParameter, Format, AddParameter, Trim, Utf8.Decode, Utf8.Encode, WellFormed;
    FormatSegments(d, f);
    FormatNotBlank(d, f);
    OneParameter(d, [SPACE] + FilenameParameter(f));
    if IsAscii(f) {
      QuotedParameter(f);
    } else {
      ExtendedParameter(f);
      FilenameSurvives(f);
    }
  }

  lemma OneParameter(d: Text, segment: Text)
    ensures AddParameters(map[], [d, segment][1..]) == AddParameter(map[], segment)
  {
    hide AddParameter;
    assert [d, segment][1..] == [segment];
    assert [segment][1..] == [];
  }

  lemma FilenameSurvives(f: Text)
    requires f != []
    ensures Utf8.Decode(Utf8.Encode(f)) == f <==> WellFormed(f) && f[0] != Utf8.BOM
  {
    Utf8.TextRoundTrip(f);
    Utf8.ScalarsOfWellFormed(f);
  }

  lemma FormatNotBlank(d: Text, f: Text)
    requires IsToken(d)
    ensures Trim(Format(d, Some(f))) != []
  {
    var v := Format(d, Some(f));
    assert v[0] == d[0] && d[0] in d;
    TrimKeepsFirst(v);
  }

  /** Text that can stand on a header line as it is. */
  predicate OneLine(s: Text) { forall c | c in s :: c < 0x80 && c != CR && c != LF }

  lemma ParameterIsOneLine(f: Text)
    requires f != [] && CR !in f && LF !in f
    ensures var p := FilenameParameter(f); OneLine(p) && p != [] && p[|p| - 1] != SPACE && p[|p| - 1] != TAB
  {
    hide Escape, PercentEncode, Utf8.Encode, IsBlank;
    var p := FilenameParameter(f);
    if IsAscii(f) {
      EscapeKeeps(f);
      assert p == (FILENAME + [EQUALS, DQUOTE]) + Escape(f) + [DQUOTE];
      StartIsOneLine();
    } else {
      var pct := PercentEncode(Utf8.Encode(f));
      StartIsOneLine();
      StarredParts(f);
      InertIsOneLine(f);
      assert p == ([SPACE] + p)[1..];
      assert pct[|pct| - 1] in pct;
      assert p[|p| - 1] == pct[|pct| - 1];
    }
  }

  lemma InertIsOneLine(f: Text)
    requires !IsAscii(f)
    ensures var pct := PercentEncode(Utf8.Encode(f));
      pct != [] && forall c | c in pct :: c < 0x80 && c != CR && c != LF && c != SPACE && c != TAB
  {
    hide PercentEncode, Utf8.Encode;
    NonAsciiEncodes(f);
    PercentIsInert(Utf8.Encode(f));
  }

  lemma StartIsOneLine()
    ensures OneLine(STARRED_START) && OneLine(FILENAME + [EQUALS, DQUOTE])
  {
    assert STARRED_START == [0x20, 0x66, 0x69, 0x6c, 0x65, 0x6e, 0x61, 0x6d, 0x65, 0x2a, 0x3d, 0x75, 0x74, 0x66, 0x2d,
      0x38, 0x27, 0x27];
  }

  /** The whole header value is ASCII on one line and ends in no white space. */
  lemma FormatIsOneLine(d: Text, f: Option<Text>)
    requires IsToken(d) && OneLine(d) && (f.Some? ==> CR !in f.value && LF !in f.value)
    ensures var v := Format(d, f); OneLine(v) && v != [] && v[0] == d[0] && v[|v| - 1] != SPACE && v[|v| - 1] != TAB
  {
    hide FilenameParameter, IsBlank;
    if f.None? || f.value == [] {
      assert d[|d| - 1] in d;
      TokenEnds(d);
    } else {
      ParameterIsOneLine(f.value);
    }
  }

  lemma TokenEnds(d: Text)
    requires IsToken(d)
    ensures d[|d| - 1] != SPACE && d[|d| - 1] != TAB
  {
    assert d[|d| - 1] in d;
  }

  /** The disposition word is what a reader takes for the type, with or without a filename. */
  lemma FormatKind(d: Text, f: Option<Text>)
    requires IsToken(d) && Lower(d) == d && SLASH !in d
    ensures MediaOf(Format(d, f)) == Media(d, [])
  {
    hide SplitRun, FilenameParameter, IsBlank, Lower, Trim;
    TokenTrims(d);
    if f.None? || f.value == [] {
      SplitPlain(Splitter([], [], false, false), d);
      assert [] + d == d;
    } else {
      FormatSegments(d, f.value);
      FormatNotBlank(d, f.value);
    }
  }

  lemma TokenTrims(d: Text)
    requires IsToken(d)
    ensures Trim(d) == d
  {
    hide IsBlank;
    assert d[0] in d && d[|d| - 1] in d;
    TrimNothing(d);
  }

  /** Without a filename there is no parameter at all. */
  lemma NoFilename(d: Text)
    requires IsToken(d)
    ensures Parameters(d) == map[]
  {
    hide SplitRun, IsBlank;
    SplitPlain(Splitter([], [], false, false), d);
    assert [] + d == d;
    assert [] + [d] == [d] && [d][1..] == [];
  }
}
