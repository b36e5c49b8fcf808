/**
 * Quoted-printable, percent-encoding and encoded words encode no more than they
 * must: text that can stand stays as it is, and lines and words are full before
 * the next one starts.
 */
module MinimalForms {
  import opened Common
  import Base64
  import DataPhase
  import Disposition
  import EncodedWord
  import QuotedPrintable
  import Strings
  import Utf8

  const EQUALS: byte := 0x3d

  // ------------------------------------------- text quoted-printable leaves alone

  /** A line that needs no encoding: printable, without `=`, not over 75 characters, and without a blank at its end. */
  predicate Stands(line: Bytes) {
    && |line| <= 75
    && (forall c | c in line :: (0x21 <= c <= 0x7e && c != EQUALS) || IsWhite(c))
    && (line != [] ==> !IsWhite(line[|line| - 1]))
  }

  /** The start of a line that needs no encoding so far. */
  predicate Begun(line: Bytes) {
    |line| <= 75 && forall c | c in line :: (0x21 <= c <= 0x7e && c != EQUALS) || IsWhite(c)
  }

  predicate AllStand(lines: seq<Bytes>) { forall l | l in lines :: Stands(l) }

  lemma {:induction false} NeverShorter(b: Bytes, i: nat, col: nat)
    requires i <= |b|
    ensures |QuotedPrintable.EncodeFrom(b, i, col)| >= |b| - i
    decreases |b| - i
  {
    hide QuotedPrintable.EncodeFrom, QuotedPrintable.Token;
    if i == |b| {
    } else {
      QuotedPrintable.EncodeCases(b, i, col);
      if QuotedPrintable.CrlfAt(b, i) {
        NeverShorter(b, i + 2, 0);
      } else {
        var n := |QuotedPrintable.Token(b, i)|;
        NeverShorter(b, i + 1, if col + n > 75 then n else col + n);
      }
    }
  }

  lemma TokenIs(b: Bytes, i: nat)
    requires i < |b|
    ensures |QuotedPrintable.Token(b, i)| == 1 ==> QuotedPrintable.Token(b, i) == [b[i]]
    ensures |QuotedPrintable.Token(b, i)| == 1
       <==> (0x21 <= b[i] <= 0x7e && b[i] != EQUALS)
            || (IsWhite(b[i]) && i + 1 < |b| && !QuotedPrintable.CrlfAt(b, i + 1))
    ensures |QuotedPrintable.Token(b, i)| == 3 || |QuotedPrintable.Token(b, i)| == 1
  {
  }

  /** The first line holds whatever was read of it. */
  lemma {:induction false} FirstLineHolds(s: Bytes, line: Bytes)
    ensures var lines := QuotedPrintable.CrlfLines(s, line);
      lines != [] && line <= lines[0] && (s == [] || QuotedPrintable.CrlfAt(s, 0) ==> lines[0] == line)
    decreases |s|
  {
    if s == [] || QuotedPrintable.CrlfAt(s, 0) {
    } else {
      FirstLineHolds(s[1..], line + [s[0]]);
    }
  }

  lemma NotStanding(s: Bytes, line: Bytes)
    requires !Begun(line)
    ensures !AllStand(QuotedPrintable.CrlfLines(s, line))
  {
    hide QuotedPrintable.CrlfLines;
    FirstLineHolds(s, line);
    var first := QuotedPrintable.CrlfLines(s, line)[0];
    if |line| <= 75 {
      var c :| c in line && !((0x21 <= c <= 0x7e && c != EQUALS) || IsWhite(c));
      var i :| 0 <= i < |line| && line[i] == c;
      assert first[i] == c;
    }
    assert first in QuotedPrintable.CrlfLines(s, line);
  }

  lemma BlankEnds(s: Bytes, line: Bytes)
    requires line != [] && IsWhite(line[|line| - 1]) && (s == [] || QuotedPrintable.CrlfAt(s, 0))
    ensures !AllStand(QuotedPrintable.CrlfLines(s, line))
  {
    hide QuotedPrintable.CrlfLines;
    FirstLineHolds(s, line);
    assert QuotedPrintable.CrlfLines(s, line)[0] in QuotedPrintable.CrlfLines(s, line);
  }

  lemma LinesFrom(b: Bytes, i: nat, line: Bytes)
    requires i <= |b|
    ensures i == |b| ==> QuotedPrintable.CrlfLines(b[i..], line) == [line]
    ensures i < |b| && QuotedPrintable.CrlfAt(b, i) ==>
      QuotedPrintable.CrlfLines(b[i..], line) == [line] + QuotedPrintable.CrlfLines(b[i + 2..], [])
    ensures i < |b| && !QuotedPrintable.CrlfAt(b, i) ==>
      QuotedPrintable.CrlfLines(b[i..], line) == QuotedPrintable.CrlfLines(b[i + 1..], line + [b[i]])
  {
    var s := b[i..];
    if i < |b| { assert s[1..] == b[i + 1..] && s[0] == b[i]; }
    if i + 1 < |b| { assert s[2..] == b[i + 2..] && s[1] == b[i + 1]; }
  }

  lemma AllStandSplit(line: Bytes, lines: seq<Bytes>)
    ensures AllStand([line] + lines) <==> Stands(line) && AllStand(lines)
  {
    hide Stands;
    assert forall l | l in lines :: l in [line] + lines;
    assert line in [line] + lines;
  }

  /** A blank so far is no blank at the end of its line. */
  predicate BlankInside(b: Bytes, i: nat, line: Bytes) {
    line != [] && IsWhite(line[|line| - 1]) ==> i < |b| && !QuotedPrintable.CrlfAt(b, i)
  }

  lemma BegunStands(b: Bytes, i: nat, line: Bytes)
    requires Begun(line) && BlankInside(b, i, line) && (i == |b| || QuotedPrintable.CrlfAt(b, i))
    ensures Stands(line)
  {
  }

  lemma BegunGrows(b: Bytes, i: nat, line: Bytes)
    requires Begun(line) && i < |b| && |line| < 75 && |QuotedPrintable.Token(b, i)| == 1
    ensures Begun(line + [b[i]]) && BlankInside(b, i + 1, line + [b[i]])
  {
    hide QuotedPrintable.Token;
    TokenIs(b, i);
  }

  /** An octet that was encoded, or that did not fit, stands in no line as it is. */
  lemma TokenStandsNot(b: Bytes, i: nat, line: Bytes)
    requires Begun(line) && i < |b| && !QuotedPrintable.CrlfAt(b, i)
    requires |line| >= 75 || |QuotedPrintable.Token(b, i)| != 1
    ensures !AllStand(QuotedPrintable.CrlfLines(b[i + 1..], line + [b[i]]))
  {
    hide QuotedPrintable.Token, QuotedPrintable.CrlfLines;
    TokenIs(b, i);
    var longer, rest := line + [b[i]], b[i + 1..];
    assert longer[|longer| - 1] == b[i] && b[i] in longer;
    if Begun(longer) {
      assert IsWhite(b[i]) && (i + 1 == |b| || QuotedPrintable.CrlfAt(b, i + 1));
      assert i + 1 < |b| ==> rest[0] == b[i + 1];
      assert i + 2 < |b| ==> rest[1] == b[i + 2];
      BlankEnds(rest, longer);
    } else {
      NotStanding(rest, longer);
    }
  }

  lemma {:induction false} UnchangedFrom(b: Bytes, i: nat, line: Bytes)
    requires i <= |b| && Begun(line) && BlankInside(b, i, line)
    ensures QuotedPrintable.EncodeFrom(b, i, |line|) == b[i..] <==> AllStand(QuotedPrintable.CrlfLines(b[i..], line))
    decreases |b| - i
  {
    hide QuotedPrintable.EncodeFrom, QuotedPrintable.Token, QuotedPrintable.CrlfLines, Begun, Stands, BlankInside,
      AllStand;
    LinesFrom(b, i, line);
    if i == |b| {
      QuotedPrintable.EncodeEnd(b, |line|);
      BegunStands(b, i, line);
      OneStands(line);
    } else {
      BegunSize(line);
      QuotedPrintable.EncodeCases(b, i, |line|);
      if QuotedPrintable.CrlfAt(b, i) {
        BegunStands(b, i, line);
        NothingBegun(b, i + 2);
        UnchangedFrom(b, i + 2, []);
        AllStandSplit(line, QuotedPrintable.CrlfLines(b[i + 2..], []));
        FrontIs(b, i, 2, CRLF, QuotedPrintable.EncodeFrom(b, i + 2, 0));
      } else {
        OctetCase(b, i, line);
        if |line| < 75 && |QuotedPrintable.Token(b, i)| == 1 {
          BegunGrows(b, i, line);
          UnchangedFrom(b, i + 1, line + [b[i]]);
          TokenIs(b, i);
          FrontIs(b, i, 1, [b[i]], QuotedPrintable.EncodeFrom(b, i + 1, |line| + 1));
        } else {
          TokenStandsNot(b, i, line);
        }
      }
    }
  }

  lemma BegunSize(line: Bytes)
    requires Begun(line)
    ensures |line| <= 75
  {
  }

  lemma OneStands(line: Bytes)
    ensures AllStand([line]) <==> Stands(line)
  {
    hide Stands;
    assert line in [line];
  }

  lemma NothingBegun(b: Bytes, i: nat)
    ensures Begun([]) && BlankInside(b, i, [])
  {
  }

  /** What follows is the same text exactly when the rest is. */
  lemma FrontIs(b: Bytes, i: nat, n: nat, front: Bytes, rest: Bytes)
    requires i + n <= |b| && |front| == n && front == b[i..i + n]
    ensures front + rest == b[i..] <==> rest == b[i + n..]
  {
    assert b[i..] == front + b[i + n..];
    if front + rest == b[i..] { assert rest == (front + rest)[n..] == b[i..][n..] == b[i + n..]; }
  }

  /** An octet that does not stand for itself, or that a soft break precedes, makes the text longer. */
  lemma OctetCase(b: Bytes, i: nat, line: Bytes)
    requires i < |b| && !QuotedPrintable.CrlfAt(b, i) && |line| <= 75
    ensures |line| >= 75 || |QuotedPrintable.Token(b, i)| != 1 ==>
      |QuotedPrintable.EncodeFrom(b, i, |line|)| > |b| - i
  {
    hide QuotedPrintable.EncodeFrom, QuotedPrintable.Token;
    TokenIs(b, i);
    QuotedPrintable.EncodeCases(b, i, |line|);
    var n := |QuotedPrintable.Token(b, i)|;
    NeverShorter(b, i + 1, n);
    NeverShorter(b, i + 1, |line| + n);
  }

  /** The encoding leaves a text alone, up to a last CRLF, exactly when all its lines can stand as they are. */
  lemma UnchangedIffStanding(b: Bytes)
    ensures QuotedPrintable.Encode(b) == (if DataPhase.EndsWithCrlf(b) then b else b + CRLF)
       <==> AllStand(QuotedPrintable.CrlfLines(b, []))
  {
    hide QuotedPrintable.EncodeFrom, QuotedPrintable.CrlfLines, AllStand;
    NothingBegun(b, 0);
    UnchangedFrom(b, 0, []);
    assert b[0..] == b;
    QuotedPrintable.EndsTogether(b, 0, 0);
    var out := QuotedPrintable.EncodeFrom(b, 0, 0);
    if out + CRLF == b + CRLF { assert out == (out + CRLF)[..|out|] == b; }
  }

  // ------------------------------------------------------------ full lines

  /**
   * Every soft break in `s`, of which `col` characters of the current line were
   * read, is needed: the character or escape behind it did not fit.
   */
  predicate Full(s: Bytes, col: nat)
    decreases |s|
  {
    if s == [] then true
    else if QuotedPrintable.CrlfAt(s, 0) then Full(s[2..], 0)
    else if s[0] == EQUALS && QuotedPrintable.CrlfAt(s, 1) then
      |s| > 3 && col + (if s[3] == EQUALS then 3 else 1) > 75 && Full(s[3..], 0)
    else if s[0] == EQUALS && |s| >= 3 then Full(s[3..], col + 3)
    else Full(s[1..], col + 1)
  }

  lemma FullCrlf(s: Bytes, col: nat)
    ensures Full(CRLF + s, col) <==> Full(s, 0)
  {
    assert (CRLF + s)[2..] == s;
  }

  lemma FullToken(b: Bytes, i: nat, s: Bytes, col: nat)
    requires i < |b| && !QuotedPrintable.CrlfAt(b, i)
    requires !(|QuotedPrintable.Token(b, i)| == 1 && b[i] == CR)
    ensures Full(QuotedPrintable.Token(b, i) + s, col) <==> Full(s, col + |QuotedPrintable.Token(b, i)|)
  {
    hide Full;
    var t := QuotedPrintable.Token(b, i);
    if |t| == 1 {
      FullOne(t[0], s, col);
    } else {
      FullEscape(b[i], s, col);
    }
  }

  lemma FullOne(c: byte, s: Bytes, col: nat)
    requires c != EQUALS && c != CR
    ensures Full([c] + s, col) <==> Full(s, col + 1)
  {
    assert ([c] + s)[1..] == s;
  }

  lemma FullEscape(c: byte, s: Bytes, col: nat)
    ensures var e := [EQUALS, QuotedPrintable.HexDigit(c / 16), QuotedPrintable.HexDigit(c % 16)];
      Full(e + s, col) <==> Full(s, col + 3)
  {
    var e := [EQUALS, QuotedPrintable.HexDigit(c / 16), QuotedPrintable.HexDigit(c % 16)];
    assert (e + s)[3..] == s && (e + s)[1] == QuotedPrintable.HexDigit(c / 16);
    HexIsNoCr(c / 16);
  }

  lemma HexIsNoCr(n: nat)
    requires n < 16
    ensures QuotedPrintable.HexDigit(n) != CR
  {
  }

  lemma FullBreak(s: Bytes, col: nat)
    requires s != []
    ensures Full(QuotedPrintable.SOFT_BREAK + s, col)
       <==> col + (if s[0] == EQUALS then 3 else 1) > 75 && Full(s, 0)
  {
    assert (QuotedPrintable.SOFT_BREAK + s)[3..] == s;
  }

  lemma TokenStarts(b: Bytes, i: nat)
    requires i < |b|
    ensures QuotedPrintable.Token(b, i) != []
    ensures |QuotedPrintable.Token(b, i)| == if QuotedPrintable.Token(b, i)[0] == EQUALS then 3 else 1
    ensures !(|QuotedPrintable.Token(b, i)| == 1 && b[i] == CR)
  {
  }

  lemma {:induction false} EncodedIsFull(b: Bytes, i: nat, col: nat, tail: Bytes)
    requires i <= |b| && forall c: nat :: Full(tail, c)
    ensures Full(QuotedPrintable.EncodeFrom(b, i, col) + tail, col)
    decreases |b| - i
  {
    hide QuotedPrintable.EncodeFrom, QuotedPrintable.Token, Full;
    if i == |b| {
      QuotedPrintable.EncodeEnd(b, col);
      assert [] + tail == tail;
    } else {
      QuotedPrintable.EncodeCases(b, i, col);
      if QuotedPrintable.CrlfAt(b, i) {
        var rest := QuotedPrintable.EncodeFrom(b, i + 2, 0) + tail;
        EncodedIsFull(b, i + 2, 0, tail);
        FullCrlf(rest, col);
        assert QuotedPrintable.EncodeFrom(b, i, col) + tail == CRLF + rest;
      } else {
        var t := QuotedPrintable.Token(b, i);
        var start := if col + |t| > 75 then 0 else col;
        var rest := QuotedPrintable.EncodeFrom(b, i + 1, start + |t|) + tail;
        TokenStarts(b, i);
        EncodedIsFull(b, i + 1, start + |t|, tail);
        FullToken(b, i, rest, start);
        if col + |t| > 75 {
          assert (t + rest)[0] == t[0];
          FullBreak(t + rest, col);
          assert QuotedPrintable.EncodeFrom(b, i, col) + tail == QuotedPrintable.SOFT_BREAK + (t + rest);
        } else {
          assert QuotedPrintable.EncodeFrom(b, i, col) + tail == t + rest;
        }
      }
    }
  }

  /** A line is broken softly only where the next character or escape would have taken it over 75, without the `=`. */
  lemma SoftBreaksAreNeeded(b: Bytes)
    ensures Full(QuotedPrintable.Encode(b), 0)
  {
    hide Full, QuotedPrintable.EncodeFrom;
    var out := QuotedPrintable.EncodeFrom(b, 0, 0);
    forall c: nat ensures Full([], c) && Full(CRLF, c) { FullNothing(c); }
    EncodedIsFull(b, 0, 0, []);
    EncodedIsFull(b, 0, 0, CRLF);
    assert out + [] == out;
  }

  lemma FullNothing(c: nat)
    ensures Full([], c) && Full(CRLF, c)
  {
    FullCrlf([], c);
    assert CRLF + [] == CRLF;
  }

  // ------------------------------------------------------------ percent-encoding

  const KEPT: string := "!#$&+-.^_`|~"

  /** The octets that stay as they are: letters, digits, and the marks of an `attr-char` in section 5.4 of RFC 2231. */
  lemma AttributeLaw(c: byte)
    ensures Disposition.IsAttributeChar(c) <==> IsAlnum(c) || exists i | 0 <= i < |KEPT| :: KEPT[i] as int == c
  {
    hide IsAlnum;
    assert |KEPT| == 12 && KEPT[0] as int == 0x21 && KEPT[1] as int == 0x23 && KEPT[2] as int == 0x24
      && KEPT[3] as int == 0x26 && KEPT[4] as int == 0x2b && KEPT[5] as int == 0x2d && KEPT[6] as int == 0x2e
      && KEPT[7] as int == 0x5e && KEPT[8] as int == 0x5f && KEPT[9] as int == 0x60 && KEPT[10] as int == 0x7c
      && KEPT[11] as int == 0x7e;
  }

  /** How many octets need encoding. */
  function Encodable(b: Bytes): nat {
    if b == [] then 0 else (if Disposition.IsAttributeChar(b[0]) then 0 else 1) + Encodable(b[1..])
  }

  /** Every octet that must be encoded takes three characters, and every other one stands for itself. */
  lemma {:induction false} PercentOnlyIfNeeded(b: Bytes)
    ensures |Disposition.PercentEncode(b)| == |b| + 2 * Encodable(b)
    ensures Encodable(b) == 0 ==> Disposition.PercentEncode(b) == b
  {
    hide Disposition.IsAttributeChar, QuotedPrintable.HexDigit;
    if b == [] {
    } else {
      PercentOnlyIfNeeded(b[1..]);
      assert b == [b[0]] + b[1..];
    }
  }

  /** How a filename is written: quoted when it is ASCII, and as the octets of its UTF-8 when it is not. */
  lemma FilenameForm(d: Text, f: Text)
    requires f != []
    ensures IsAscii(f) ==>
      Disposition.Format(d, Some(f)) == d + Lit("; filename=") + ([DQUOTE] + Strings.Escape(f) + [DQUOTE])
    ensures !IsAscii(f) ==>
      Disposition.Format(d, Some(f)) == d + Lit("; filename*=utf-8''") + Disposition.PercentEncode(Utf8.Encode(f))
    ensures Disposition.Format(d, None) == d
  {
    hide Disposition.PercentEncode, Strings.Escape, Utf8.Encode, Lit, IsAscii, Disposition.FILENAME, Utf8.LABEL;
    FilenameMarks();
    var p := Disposition.FilenameParameter(f);
    if IsAscii(f) {
      Front(d, [0x3b, 0x20], Disposition.FILENAME + [EQUALS], [DQUOTE] + Strings.Escape(f) + [DQUOTE]);
    } else {
      var octets := Disposition.PercentEncode(Utf8.Encode(f));
      assert Disposition.FILENAME + [0x2a] + [EQUALS] + (Utf8.LABEL + [0x27, 0x27] + octets)
          == Disposition.FILENAME + [0x2a, EQUALS] + Utf8.LABEL + [0x27, 0x27] + octets;
      Front(d, [0x3b, 0x20], Disposition.FILENAME + [0x2a, EQUALS] + Utf8.LABEL + [0x27, 0x27], octets);
    }
    assert d + [0x3b] + ([SPACE] + p) == d + ([0x3b, 0x20] + p);
  }

  lemma Front(d: Text, mark: Text, a: Text, b: Text)
    ensures d + (mark + a) + b == d + (mark + (a + b))
  {
    assert mark + a + b == mark + (a + b);
  }

  lemma FilenameMarks()
    ensures Lit("; filename=") == [0x3b, 0x20] + (Disposition.FILENAME + [EQUALS])
    ensures Lit("; filename*=utf-8''")
         == [0x3b, 0x20] + (Disposition.FILENAME + [0x2a, EQUALS] + Utf8.LABEL + [0x27, 0x27])
  {
  }

  /** The octets of `é.t`. */
  lemma NameSample(f: Text)
    requires f == [0xE9, 0x2E, 0x74]
    ensures !IsAscii(f) && Disposition.PercentEncode(Utf8.Encode(f)) == Lit("%C3%A9.t")
  {
    assert f[0] in f;
    NameOctets(f);
    PercentSample();
  }

  lemma NameOctets(f: Text)
    requires f == [0xE9, 0x2E, 0x74]
    ensures Utf8.Encode(f) == [0xC3, 0xA9, 0x2E, 0x74]
  {
    assert f[1..] == [0x2E, 0x74] && f[1..][1..] == [0x74] && f[1..][1..][1..] == [];
    assert Utf8.Encode(f[1..][1..]) == [0x74];
    assert Utf8.Encode(f[1..]) == [0x2E, 0x74];
  }

  lemma PercentSample()
    ensures Disposition.PercentEncode([0xC3, 0xA9, 0x2E, 0x74]) == Lit("%C3%A9.t")
  {
    var b: Bytes := [0xC3, 0xA9, 0x2E, 0x74];
    assert b[1..] == [0xA9, 0x2E, 0x74] && b[1..][1..] == [0x2E, 0x74] && b[1..][1..][1..] == [0x74];
    assert Disposition.PercentEncode([0x74]) == [0x74];
    assert Disposition.PercentEncode([0x2E, 0x74]) == [0x2E, 0x74];
    assert Disposition.PercentEncode([0xA9, 0x2E, 0x74]) == [0x25, 0x41, 0x39, 0x2E, 0x74];
  }

  // --------------------------------------------------------------- encoded words

  /** The marks of the words the writer makes, and what one of them looks like. */
  lemma WordSample()
    ensures EncodedWord.OPENING == Lit("=?UTF-8?B?") && EncodedWord.CLOSING == Lit("?=")
    ensures EncodedWord.MAX_DECODED == 998 && EncodedWord.US_ASCII == Lit("us-ascii")
  {
  }

  /** Two words in a row: the first code point of the second would not have fitted the first. */
  predicate Separated(a: Text, b: Text) {
    b != [] && |Utf8.Encode(a)| + |Utf8.EncodeChar(b[0])| > 45
  }

  predicate AllSeparated(chunks: seq<Text>) {
    forall i | 0 <= i < |chunks| - 1 :: Separated(chunks[i], chunks[i + 1])
  }

  lemma ChunkCases(chunk: Text, octets: nat, rest: Text)
    requires rest != []
    ensures var size := |Utf8.EncodeChar(rest[0])|;
      EncodedWord.Chunks(chunk, octets, rest)
      == if octets + size > 45 && chunk != [] then [chunk] + EncodedWord.Chunks([rest[0]], size, rest[1..])
         else EncodedWord.Chunks(chunk + [rest[0]], octets + size, rest[1..])
  {
    hide Utf8.EncodeChar;
  }

  lemma {:induction false} ChunksAreFull(chunk: Text, octets: nat, rest: Text)
    requires octets == |Utf8.Encode(chunk)|
    ensures var chunks := EncodedWord.Chunks(chunk, octets, rest);
      AllSeparated(chunks) && (chunk != [] ==> chunks != [] && chunk <= chunks[0])
    decreases |rest|
  {
    hide Utf8.EncodeChar, Utf8.Encode, EncodedWord.Chunks, Separated;
    if rest == [] {
      LastChunk(chunk, octets);
    } else {
      ChunkCases(chunk, octets, rest);
      var c := rest[0];
      var size := |Utf8.EncodeChar(c)|;
      EncodedWord.EncodeOne(c);
      if octets + size > 45 && chunk != [] {
        ChunksAreFull([c], size, rest[1..]);
        var others := EncodedWord.Chunks([c], size, rest[1..]);
        assert others[0][0] == c;
        SeparatedIs(chunk, others[0]);
        FirstSeparated(chunk, others);
      } else {
        Utf8.EncodeAppend(chunk, [c]);
        ChunksAreFull(chunk + [c], octets + size, rest[1..]);
        var chunks := EncodedWord.Chunks(chunk + [c], octets + size, rest[1..]);
        assert chunk <= chunk + [c] <= chunks[0];
      }
    }
  }

  lemma SeparatedIs(a: Text, b: Text)
    requires b != [] && |Utf8.Encode(a)| + |Utf8.EncodeChar(b[0])| > 45
    ensures Separated(a, b)
  {
  }

  lemma LastChunk(chunk: Text, octets: nat)
    ensures EncodedWord.Chunks(chunk, octets, []) == if chunk == [] then [] else [chunk]
  {
  }

  lemma FirstSeparated(chunk: Text, others: seq<Text>)
    requires AllSeparated(others) && others != [] && Separated(chunk, others[0])
    ensures AllSeparated([chunk] + others)
  {
    hide Separated;
    var all := [chunk] + others;
    forall i | 0 <= i < |all| - 1 ensures Separated(all[i], all[i + 1]) {
      if i > 0 { assert all[i] == others[i - 1] && all[i + 1] == others[i - 1 + 1]; }
    }
  }

  /** A new word starts only where the next code point would have taken the last one over 45 octets. */
  lemma WordsAreFull(value: Text)
    ensures AllSeparated(EncodedWord.Chunks([], 0, value))
  {
    EncodedWord.EncodeNothing();
    ChunksAreFull([], 0, value);
  }
}
