/**
 * Encoded words (RFC 2047): the encoder of `src/address.ts` against the decoder
 * of `src/internal/encoded-word.ts`.
 */
module EncodedWord {
  import opened Common
  import opened Strings
  import Base64
  import QuotedPrintable
  import Utf8

  const EQUALS: CodePoint := 0x3d
  const QUESTION: CodePoint := 0x3f
  const UNDERSCORE: CodePoint := 0x5f
  const US_ASCII: Text := [0x75, 0x73, 0x2d, 0x61, 0x73, 0x63, 0x69, 0x69]

  /** The longest encoded-word the decoder accepts, in UTF-16 units up to its closing mark. */
  const MAX_DECODED: nat := 998

  /** What the platform makes of octets in any other character set; `None` when it does not know the label. */
  type Charsets = (Text, Bytes) -> Option<Text>

  // ---------------------------------------------------------------- decoder

  /** The index of the first `a` right before a `b`, at or after `pos`. */
  function FindPair(s: Text, a: CodePoint, b: CodePoint, pos: nat): (i: Option<nat>)
    requires pos <= |s|
    ensures i.Some? ==> pos <= i.value && i.value + 1 < |s| && s[i.value] == a && s[i.value + 1] == b
    ensures forall k | pos <= k < (if i.Some? then i.value else |s| - 1) :: !(s[k] == a && s[k + 1] == b)
    decreases |s| - pos
  {
    if pos + 1 >= |s| then None
    else if s[pos] == a && s[pos + 1] == b then Some(pos)
    else FindPair(s, a, b, pos + 1)
  }

  function FindChar(s: Text, c: CodePoint, pos: nat): (i: Option<nat>)
    requires pos <= |s|
    ensures i.Some? ==> pos <= i.value < |s| && s[i.value] == c
    ensures forall k | pos <= k < (if i.Some? then i.value else |s|) :: s[k] != c
    decreases |s| - pos
  {
    if pos == |s| then None else if s[pos] == c then Some(pos) else FindChar(s, c, pos + 1)
  }

  /** `decodeQ`: underscores are spaces and `=XX` is an octet. */
  function DecodeQ(payload: Text): Option<Bytes>
    decreases |payload|
  {
    if payload == [] then Some([])
    else if payload[0] == UNDERSCORE then Octet(SPACE, DecodeQ(payload[1..]))
    else if payload[0] == EQUALS then
      if |payload| >= 3 && IsHexDigit(payload[1]) && IsHexDigit(payload[2]) then
        Octet(QuotedPrintable.HexByte(payload[1], payload[2]), DecodeQ(payload[3..]))
      else None
    else if payload[0] < 0x20 || payload[0] > 0x7e then None
    else Octet(payload[0], DecodeQ(payload[1..]))
  }

  function Octet(b: byte, rest: Option<Bytes>): Option<Bytes> {
    if rest.None? then None else Some([b] + rest.value)
  }

  /** `decodeWord`; the strict Base64 of the decoder is the one that accepts canonical encodings only. */
  function DecodeWord(encoding: CodePoint, payload: Text): Option<Bytes> {
    if encoding == 0x42 || encoding == 0x62 then Base64.Decode(payload)
    else if encoding == 0x51 || encoding == 0x71 then DecodeQ(payload)
    else None
  }

  function DecodeAscii(octets: Bytes): Text {
    if octets == [] then []
    else [if octets[0] < 0x80 then octets[0] else Utf8.REPLACEMENT] + DecodeAscii(octets[1..])
  }

  /** `decodeCharset` */
  function DecodeCharset(other: Charsets, charset: Text, octets: Bytes): Option<Text> {
    if LowerText(charset) == Utf8.LABEL then Some(Utf8.Decode(octets))
    else if LowerText(charset) == US_ASCII then Some(DecodeAscii(octets))
    else other(charset, octets)
  }

  predicate IsWhitespace(s: Text) { forall c | c in s :: c == SPACE || c == TAB }

  /**
   * Where the marks of the next encoded word are: none any more, or an opening
   * that is passed over, or a word from `start` to the closing at `textEnd`.
   */
  datatype Outline = NoWord | PassOver(size: nat) | Framed(start: nat, charsetEnd: nat, textEnd: nat)

  function OutlineOf(rest: Text): (o: Outline)
    ensures o.PassOver? ==> 0 < o.size <= |rest|
    ensures o.Framed? ==> o.start + 2 <= o.charsetEnd && o.charsetEnd + 3 <= o.textEnd && o.textEnd + 2 <= |rest|
  {
    var start := FindPair(rest, EQUALS, QUESTION, 0);
    if start.None? then NoWord
    else
      var charsetEnd := FindChar(rest, QUESTION, start.value + 2);
      if charsetEnd.None? then NoWord
      else
        var encodingEnd := charsetEnd.value + 2;
        if encodingEnd >= |rest| || rest[encodingEnd] != QUESTION || rest[encodingEnd - 1] >= 0x10000 then
          PassOver(start.value + 2)
        else
          var textEnd := FindPair(rest, QUESTION, EQUALS, encodingEnd + 1);
          if textEnd.None? then NoWord
          else if |Utf16(rest[start.value..textEnd.value])| > MAX_DECODED then PassOver(start.value + 2)
          else Framed(start.value, charsetEnd.value, textEnd.value)
  }

  /** One step of the decoder: stop, or go on behind what was emitted. */
  datatype Step = Stop | Unknown | Next(emitted: Text, size: nat, encoded: bool)

  /** What the decoder does with the text from its cursor on. */
  function Scan(other: Charsets, rest: Text, previousWasEncoded: bool): (step: Step)
    ensures step.Next? ==> 0 < step.size <= |rest|
  {
    match OutlineOf(rest)
    case NoWord => Stop
    case PassOver(size) => Next(rest[..size], size, false)
    case Framed(start, charsetEnd, textEnd) => Word(other, rest, previousWasEncoded, start, charsetEnd, textEnd)
  }

  /** An encoded word that starts at `start`: decoded, or passed on verbatim when it is malformed. */
  function Word(other: Charsets, rest: Text, previousWasEncoded: bool, start: nat, charsetEnd: nat, textEnd: nat): (step: Step)
    requires start + 2 <= charsetEnd && charsetEnd + 3 <= textEnd && textEnd + 2 <= |rest|
    ensures step.Next? ==> step.size == textEnd + 2
  {
    var decoded := DecodeWord(rest[charsetEnd + 1], rest[charsetEnd + 3..textEnd]);
    if decoded.None? then Next(rest[..textEnd + 2], textEnd + 2, false)
    else
      var between := if previousWasEncoded && IsWhitespace(rest[..start]) then [] else rest[..start];
      var text := DecodeCharset(other, rest[start + 2..charsetEnd], decoded.value);
      if text.None? then Unknown else Next(between + text.value, textEnd + 2, true)
  }

  /** The decoder's output from its cursor on; `None` for a character set nobody knows. */
  function DecodeRest(other: Charsets, rest: Text, previousWasEncoded: bool): Option<Text>
    decreases |rest|
  {
    match Scan(other, rest, previousWasEncoded)
    case Stop => Some(rest)
    case Unknown => None
    case Next(emitted, size, encoded) => After(emitted, DecodeRest(other, rest[size..], encoded))
  }

  function After(emitted: Text, rest: Option<Text>): Option<Text> {
    if rest.None? then None else Some(emitted + rest.value)
  }

  function Decode(other: Charsets, value: Text): Option<Text> { DecodeRest(other, value, false) }

  /** `decodeHeaderWords`; the cursor moves forward in every round. */
  method DecodeHeaderWords(other: Charsets, value: Text) returns (r: Option<Text>)
    ensures r == Decode(other, value)
  {
    hide Scan;
    var cursor := 0;
    var output: Text := [];
    var previousWasEncoded := false;
    assert value[0..] == value;
    AfterNothing(Decode(other, value));
    while true
      invariant cursor <= |value|
      invariant After(output, DecodeRest(other, value[cursor..], previousWasEncoded)) == Decode(other, value)
      decreases |value| - cursor
    {
      var step := Scan(other, value[cursor..], previousWasEncoded);
      match step {
        case Stop =>
          return Some(output + value[cursor..]);
        case Unknown =>
          return None;
        case Next(emitted, size, encoded) =>
          assert value[cursor..][size..] == value[cursor + size..];
          AfterTwice(output, emitted, DecodeRest(other, value[cursor + size..], encoded));
          output := output + emitted;
          cursor := cursor + size;
          previousWasEncoded := encoded;
      }
    }
  }

  lemma AfterNothing(rest: Option<Text>)
    ensures After([], rest) == rest
  {
    if rest.Some? { assert [] + rest.value == rest.value; }
  }

  lemma AfterTwice(a: Text, b: Text, rest: Option<Text>)
    ensures After(a, After(b, rest)) == After(a + b, rest)
  {
    if rest.Some? { assert a + (b + rest.value) == a + b + rest.value; }
  }

  // ---------------------------------------------------------------- encoder

  /** The largest payload of one word, in octets. */
  const MAX_OCTETS: nat := 45

  const OPENING: Bytes := [0x3d, 0x3f, 0x55, 0x54, 0x46, 0x2d, 0x38, 0x3f, 0x42, 0x3f]
  const CLOSING: Bytes := [0x3f, 0x3d]

  function EncodeWord(chunk: Text): Bytes { OPENING + Base64.Encode(Utf8.Encode(chunk)) + CLOSING }

  /** The chunks of the rest of a text, when one of `octets` octets is being filled. */
  function Chunks(chunk: Text, octets: nat, rest: Text): seq<Text>
    decreases |rest|
  {
    if rest == [] then if chunk == [] then [] else [chunk]
    else
      var size := |Utf8.EncodeChar(rest[0])|;
      if octets + size > MAX_OCTETS && chunk != [] then [chunk] + Chunks([rest[0]], size, rest[1..])
      else Chunks(chunk + [rest[0]], octets + size, rest[1..])
  }

  function EncodeWords(chunks: seq<Text>): Text {
    if chunks == [] then []
    else if |chunks| == 1 then EncodeWord(chunks[0])
    else EncodeWord(chunks[0]) + [SPACE] + EncodeWords(chunks[1..])
  }

  function Encode(value: Text): Text { EncodeWords(Chunks([], 0, value)) }

  /** `encodeRfc2047` */
  method EncodeRfc2047(value: Text) returns (text: Text)
    ensures text == Encode(value)
  {
    hide Utf8.EncodeChar;
    var chunks: seq<Text> := [];
    var chunk: Text := [];
    var chunkOctets: nat := 0;
    for k := 0 to |value|
      invariant chunks + Chunks(chunk, chunkOctets, value[k..]) == Chunks([], 0, value)
    {
      assert value[k..][1..] == value[k + 1..];
      var size := |Utf8.EncodeChar(value[k])|;
      if chunkOctets + size > MAX_OCTETS && chunk != [] {
        assert chunks + ([chunk] + Chunks([value[k]], size, value[k + 1..]))
            == chunks + [chunk] + Chunks([value[k]], size, value[k + 1..]);
        chunks := chunks + [chunk];
        chunk := [];
        chunkOctets := 0;
        assert [] + [value[k]] == [value[k]];
      }
      chunk := chunk + [value[k]];
      chunkOctets := chunkOctets + size;
    }
    assert value[|value|..] == [];
    if chunk != [] { chunks := chunks + [chunk]; }
    assert chunks + [] == chunks;
    text := EncodeWords(chunks);
  }

  // ------------------------------------------------------------- round trip

  /** A chunk that fits one word. */
  predicate Fits(chunk: Text) { chunk != [] && |Utf8.Encode(chunk)| <= MAX_OCTETS }

  lemma {:induction false} ChunksCover(chunk: Text, octets: nat, rest: Text)
    requires octets == |Utf8.Encode(chunk)| <= MAX_OCTETS
    ensures Flat(Chunks(chunk, octets, rest)) == chunk + rest
    ensures forall c | c in Chunks(chunk, octets, rest) :: Fits(c)
    decreases |rest|
  {
    hide Utf8.EncodeChar, Utf8.Encode;
    if rest == [] {
      assert chunk + rest == chunk;
      if chunk != [] { FlatOne(chunk); }
    } else {
      var first := rest[0];
      EncodeOne(first);
      if octets + |Utf8.EncodeChar(first)| > MAX_OCTETS && chunk != [] {
        ChunksCover([first], |Utf8.EncodeChar(first)|, rest[1..]);
        var others := Chunks([first], |Utf8.EncodeChar(first)|, rest[1..]);
        assert ([chunk] + others)[1..] == others;
        assert chunk + ([first] + rest[1..]) == chunk + rest;
      } else {
        Utf8.EncodeAppend(chunk, [first]);
        if chunk == [] { EncodeNothing(); }
        ChunksCover(chunk + [first], octets + |Utf8.EncodeChar(first)|, rest[1..]);
        assert chunk + [first] + rest[1..] == chunk + rest;
      }
    }
  }

  lemma FlatOne(chunk: Text)
    ensures Flat([chunk]) == chunk
  {
    assert [chunk][1..] == [];
    assert chunk + [] == chunk;
  }

  lemma EncodeNothing()
    ensures Utf8.Encode([]) == []
  {
  }

  lemma EncodeOne(c: CodePoint)
    ensures Utf8.Encode([c]) == Utf8.EncodeChar(c)
  {
    assert [c][1..] == [];
    assert Utf8.EncodeChar(c) + [] == Utf8.EncodeChar(c);
  }

  lemma {:induction false} Utf16OfAscii(s: Text)
    requires IsAscii(s)
    ensures |Utf16(s)| == |s|
  {
    if s == [] {
    } else {
      assert s[0] in s && forall c | c in s[1..] :: c in s;
      Utf16OfAscii(s[1..]);
    }
  }

  lemma PayloadFacts(octets: Bytes)
    ensures forall c | c in Base64.Encode(octets) :: c < 0x80 && c != QUESTION && c != SPACE
    ensures Base64.Decode(Base64.Encode(octets)) == Some(octets)
  {
    hide Base64.Encode, Base64.Decode;
    Base64.EncodeSymbols(octets);
    Base64.DecodeInvertsEncode(Base64.Encode(octets), octets);
  }

  lemma OpeningFacts()
    ensures LowerText(OPENING[2..7]) == Utf8.LABEL
    ensures IsAscii(OPENING)
  {
  }

  lemma PairAt(s: Text, a: CodePoint, b: CodePoint, pos: nat, i: nat)
    requires pos <= i && i + 1 < |s| && s[i] == a && s[i + 1] == b
    requires forall k | pos <= k < i :: s[k] != a || s[k + 1] != b
    ensures FindPair(s, a, b, pos) == Some(i)
  {
  }

  lemma CharAt(s: Text, c: CodePoint, pos: nat, i: nat)
    requires pos <= i < |s| && s[i] == c && forall k | pos <= k < i :: s[k] != c
    ensures FindChar(s, c, pos) == Some(i)
  {
  }

  /** `payload` between the opening and the closing of an encoded word, `n` characters into `rest`. */
  predicate Laid(rest: Text, n: nat, payload: Text) {
    && n + 10 + |payload| + 2 <= |rest|
    && (forall k | 0 <= k < 10 :: rest[n + k] == OPENING[k])
    && (forall k | 0 <= k < |payload| :: rest[n + 10 + k] == payload[k])
    && rest[n + 10 + |payload|] == QUESTION && rest[n + 10 + |payload| + 1] == EQUALS
    && (forall k | 0 <= k < n :: rest[k] != EQUALS)
  }

  lemma LaidOut(sep: Text, payload: Text, tail: Text)
    requires EQUALS !in sep
    ensures var rest, n := sep + (OPENING + payload + CLOSING) + tail, |sep|;
      && Laid(rest, n, payload)
      && rest[..n] == sep
      && rest[n + 2..n + 7] == OPENING[2..7]
      && rest[n + 10..n + 10 + |payload|] == payload
      && rest[n..n + 10 + |payload|] == OPENING + payload
      && rest[n + 10 + |payload| + 2..] == tail
  {
    var rest, n := sep + (OPENING + payload + CLOSING) + tail, |sep|;
    assert rest == sep + OPENING + payload + CLOSING + tail;
    assert forall k | 0 <= k < n :: rest[k] == sep[k];
  }

  lemma Marks(rest: Text, n: nat, payload: Text)
    requires Laid(rest, n, payload)
    ensures rest[n] == EQUALS && rest[n + 1] == QUESTION && rest[n + 7] == QUESTION
    ensures rest[n + 8] == 0x42 && rest[n + 9] == QUESTION
    ensures forall k | n + 2 <= k < n + 7 :: rest[k] != QUESTION
  {
    assert rest[n + 0] == OPENING[0] && rest[n + 1] == OPENING[1] && rest[n + 7] == OPENING[7];
    assert rest[n + 8] == OPENING[8] && rest[n + 9] == OPENING[9];
    assert rest[n + 2] == OPENING[2] && rest[n + 3] == OPENING[3] && rest[n + 4] == OPENING[4];
    assert rest[n + 5] == OPENING[5] && rest[n + 6] == OPENING[6];
  }

  /** Where the decoder finds the marks. */
  lemma MarksOf(rest: Text, n: nat, payload: Text)
    requires Laid(rest, n, payload) && QUESTION !in payload
    ensures FindPair(rest, EQUALS, QUESTION, 0) == Some(n)
    ensures FindChar(rest, QUESTION, n + 2) == Some(n + 7)
    ensures FindPair(rest, QUESTION, EQUALS, n + 10) == Some(n + 10 + |payload|)
  {
    Marks(rest, n, payload);
    PairAt(rest, EQUALS, QUESTION, 0, n);
    CharAt(rest, QUESTION, n + 2, n + 7);
    forall k | n + 10 <= k < n + 10 + |payload| ensures rest[k] != QUESTION {
      assert rest[n + 10 + (k - n - 10)] == payload[k - n - 10];
    }
    PairAt(rest, QUESTION, EQUALS, n + 10, n + 10 + |payload|);
  }

  lemma ScanMarks(other: Charsets, rest: Text, n: nat, payload: Text, previousWasEncoded: bool)
    requires Laid(rest, n, payload) && QUESTION !in payload && |Utf16(rest[n..n + 10 + |payload|])| <= MAX_DECODED
    ensures Scan(other, rest, previousWasEncoded)
         == Word(other, rest, previousWasEncoded, n, n + 7, n + 10 + |payload|)
  {
    hide FindPair, FindChar, Utf16, Word;
    MarksOf(rest, n, payload);
    Marks(rest, n, payload);
  }

  /** One encoded word, alone or one space behind the word before it, is decoded and consumed. */
  lemma ScanWord(other: Charsets, sep: Text, chunk: Text, tail: Text, previousWasEncoded: bool)
    requires Fits(chunk) && (sep == [] || (sep == [SPACE] && previousWasEncoded))
    ensures Scan(other, sep + EncodeWord(chunk) + tail, previousWasEncoded)
         == Next(Utf8.Decode(Utf8.Encode(chunk)), |sep| + |EncodeWord(chunk)|, true)
  {
    hide Utf8.Encode, Utf8.Decode, Base64.Encode, Base64.Decode, Utf16, LowerText, Laid, Scan, OPENING, Word;
    var octets := Utf8.Encode(chunk);
    var payload := Base64.Encode(octets);
    var rest, n := sep + EncodeWord(chunk) + tail, |sep|;
    PayloadFacts(octets);
    OpeningFacts();
    LaidOut(sep, payload, tail);
    ShortWord(payload);
    ScanMarks(other, rest, n, payload, previousWasEncoded);
    WordDecodes(other, rest, previousWasEncoded, n, octets, sep);
    OpeningIsTen();
  }

  lemma ShortWord(payload: Text)
    requires IsAscii(payload) && |payload| <= 60
    ensures |Utf16(OPENING + payload)| <= MAX_DECODED
  {
    OpeningFacts();
    Utf16OfAscii(OPENING + payload);
  }

  lemma WordDecodes(other: Charsets, rest: Text, previousWasEncoded: bool, n: nat, octets: Bytes, sep: Text)
    requires var payload := Base64.Encode(octets);
      && Laid(rest, n, payload)
      && rest[n + 2..n + 7] == OPENING[2..7]
      && rest[n + 10..n + 10 + |payload|] == payload
      && rest[..n] == sep
    requires sep == [] || (sep == [SPACE] && previousWasEncoded)
    ensures Word(other, rest, previousWasEncoded, n, n + 7, n + 10 + |Base64.Encode(octets)|)
         == Next(Utf8.Decode(octets), n + 12 + |Base64.Encode(octets)|, true)
  {
    hide Utf8.Decode, Base64.Encode, Base64.Decode, LowerText;
    PayloadFacts(octets);
    OpeningFacts();
    Marks(rest, n, Base64.Encode(octets));
    assert [] + Utf8.Decode(octets) == Utf8.Decode(octets);
  }

  lemma OpeningIsTen()
    ensures |OPENING| == 10
  {
  }

  /** Each chunk as it comes back from its word. */
  function Decoded(chunks: seq<Text>): Text {
    if chunks == [] then [] else Utf8.Decode(Utf8.Encode(chunks[0])) + Decoded(chunks[1..])
  }

  lemma EncodeWordsStep(chunks: seq<Text>)
    requires chunks != []
    ensures EncodeWords(chunks)
         == EncodeWord(chunks[0]) + if |chunks| == 1 then [] else [SPACE] + EncodeWords(chunks[1..])
  {
    hide EncodeWord;
    assert EncodeWord(chunks[0]) + [] == EncodeWord(chunks[0]);
  }

  lemma {:induction false} DecodeWords(other: Charsets, sep: Text, chunks: seq<Text>, previousWasEncoded: bool)
    requires chunks != [] && (forall c | c in chunks :: Fits(c))
    requires sep == [] || (sep == [SPACE] && previousWasEncoded)
    ensures DecodeRest(other, sep + EncodeWords(chunks), previousWasEncoded) == Some(Decoded(chunks))
    decreases |chunks|
  {
    hide Scan, EncodeWord, EncodeWords, Fits, Utf8.Encode, Utf8.Decode;
    var chunk, others := chunks[0], chunks[1..];
    assert chunk in chunks && forall c | c in others :: c in chunks;
    var word, text := EncodeWord(chunk), Utf8.Decode(Utf8.Encode(chunk));
    var tail: Text := if others == [] then [] else [SPACE] + EncodeWords(others);
    var rest := sep + word + tail;
    EncodeWordsStep(chunks);
    assert sep + EncodeWords(chunks) == rest;
    ScanWord(other, sep, chunk, tail, previousWasEncoded);
    assert rest[|sep| + |word|..] == tail;
    if others == [] {
      DecodeNothing(other);
    } else {
      DecodeWords(other, [SPACE], others, true);
    }
  }

  lemma DecodeNothing(other: Charsets)
    ensures DecodeRest(other, [], true) == Some([]) && DecodeRest(other, [], false) == Some([])
    ensures Decoded([]) == []
  {
  }

  /** A chunk comes back whole unless it starts with U+FEFF or holds an unpaired surrogate. */
  lemma ChunkSurvives(chunk: Text)
    requires chunk != []
    ensures Utf8.Decode(Utf8.Encode(chunk)) == chunk <==> WellFormed(chunk) && chunk[0] != Utf8.BOM
    ensures |Utf8.Decode(Utf8.Encode(chunk))| == if chunk[0] == Utf8.BOM then |chunk| - 1 else |chunk|
  {
    hide Utf8.Encode, Utf8.Decode;
    Utf8.TextRoundTrip(chunk);
    Utf8.ScalarsOfWellFormed(chunk);
  }

  predicate Survives(chunk: Text) { chunk != [] && WellFormed(chunk) && chunk[0] != Utf8.BOM }

  lemma {:induction false} ChunksSurvive(chunks: seq<Text>)
    requires forall c | c in chunks :: c != []
    ensures |Decoded(chunks)| <= |Flat(chunks)|
    ensures Decoded(chunks) == Flat(chunks) <==> forall c | c in chunks :: Survives(c)
  {
    hide Utf8.Encode, Utf8.Decode, Survives, WellFormed;
    if chunks == [] {
    } else {
      var chunk, others := chunks[0], chunks[1..];
      assert chunk in chunks && forall c | c in others :: c in chunks;
      ChunksSurvive(others);
      ChunkSurvives(chunk);
      SurvivesIs(chunk);
      SameParts(Utf8.Decode(Utf8.Encode(chunk)), Decoded(others), chunk, Flat(others));
      assert chunks == [chunk] + others;
    }
  }

  lemma SurvivesIs(chunk: Text)
    ensures Survives(chunk) <==> chunk != [] && WellFormed(chunk) && chunk[0] != Utf8.BOM
  {
  }

  lemma SameParts(a: Text, b: Text, c: Text, d: Text)
    requires |a| <= |c| && |b| <= |d|
    ensures a + b == c + d <==> a == c && b == d
  {
    if a + b == c + d {
      assert |a| == |c|;
      assert (a + b)[..|a|] == a && (c + d)[..|c|] == c;
      assert (a + b)[|a|..] == b && (c + d)[|c|..] == d;
    }
  }

  /**
   * Encoded text decodes to itself if and only if it has no unpaired surrogate
   * and no chunk of it starts with U+FEFF, which the platform's decoder drops.
   */
  lemma EncodeRoundTrip(other: Charsets, value: Text)
    ensures Decode(other, Encode(value)) == Some(value)
      <==> WellFormed(value) && forall c | c in Chunks([], 0, value) :: c != [] && c[0] != Utf8.BOM
  {
    hide DecodeRest, EncodeWords, Chunks, Utf8.Encode, Fits, WellFormed;
    var chunks := Chunks([], 0, value);
    EncodeNothing();
    ChunksCover([], 0, value);
    assert [] + value == value;
    forall c | c in chunks ensures c != [] { FitsIsSome(c); }
    ChunksSurvive(chunks);
    FlatWellFormed(chunks);
    if chunks == [] {
      DecodeNothing(other);
      NoWords();
    } else {
      assert [] + EncodeWords(chunks) == EncodeWords(chunks);
      DecodeWords(other, [], chunks, false);
    }
    forall c | c in chunks ensures Survives(c) <==> c != [] && WellFormed(c) && c[0] != Utf8.BOM { SurvivesIs(c); }
  }

  /** Encoded text and what it decodes to are well-formed whatever the text was. */
  lemma EncodeIsWellFormed(other: Charsets, value: Text)
    ensures WellFormed(Encode(value))
    ensures Decode(other, Encode(value)).Some? && WellFormed(Decode(other, Encode(value)).value)
  {
    hide DecodeRest, EncodeWords, Chunks, Utf8.Encode, Fits, WellFormed;
    var chunks := Chunks([], 0, value);
    EncodeNothing();
    ChunksCover([], 0, value);
    WordsAreWellFormed(chunks);
    if chunks == [] {
      DecodeNothing(other);
      NoWords();
    } else {
      assert [] + EncodeWords(chunks) == EncodeWords(chunks);
      DecodeWords(other, [], chunks, false);
    }
  }

  lemma {:induction false} WordsAreWellFormed(chunks: seq<Text>)
    ensures WellFormed(EncodeWords(chunks)) && WellFormed(Decoded(chunks))
  {
    hide EncodeWord, Utf8.Encode, Utf8.Decode;
    if chunks == [] {
    } else {
      WordsAreWellFormed(chunks[1..]);
      EncodeWordsStep(chunks);
      ScalarsAreWellFormed(chunks[0]);
    }
  }

  lemma ScalarsAreWellFormed(chunk: Text)
    ensures WellFormed(Utf8.Decode(Utf8.Encode(chunk)))
  {
    hide Utf8.Encode, Utf8.Decode;
    Utf8.TextRoundTrip(chunk);
  }

  lemma FitsIsSome(c: Text)
    requires Fits(c)
    ensures c != []
  {
  }

  lemma NoWords()
    ensures EncodeWords([]) == []
  {
  }

  lemma {:induction false} FlatWellFormed(chunks: seq<Text>)
    ensures WellFormed(Flat(chunks)) <==> forall c | c in chunks :: WellFormed(c)
  {
    if chunks == [] {
    } else {
      FlatWellFormed(chunks[1..]);
      assert chunks == [chunks[0]] + chunks[1..];
      WellFormedAppend(chunks[0], Flat(chunks[1..]));
    }
  }

  lemma WellFormedAppend(a: Text, b: Text)
    ensures WellFormed(a + b) <==> WellFormed(a) && WellFormed(b)
  {
    assert forall c | c in a :: c in a + b;
    assert forall c | c in b :: c in a + b;
  }

  /** Without U+FEFF there is no such chunk. */
  lemma NoBomNoChunk(value: Text)
    requires Utf8.BOM !in value
    ensures forall c | c in Chunks([], 0, value) :: c != [] && c[0] != Utf8.BOM
  {
    hide Chunks, Utf8.Encode;
    EncodeNothing();
    ChunksCover([], 0, value);
    assert [] + value == value;
    ChunksOf(Chunks([], 0, value));
    forall c | c in Chunks([], 0, value) ensures c != [] && c[0] != Utf8.BOM {
      FitsIsSome(c);
      assert c[0] in c;
    }
  }

  lemma {:induction false} ChunksOf(chunks: seq<Text>)
    ensures forall c | c in chunks :: forall x | x in c :: x in Flat(chunks)
  {
    if chunks == [] {
    } else {
      ChunksOf(chunks[1..]);
      assert chunks == [chunks[0]] + chunks[1..];
    }
  }

  /** Every word is at most 75 characters long and carries whole code points; together they carry all of the text. */
  lemma WordsAreShort(value: Text)
    ensures Flat(Chunks([], 0, value)) == value
    ensures forall c | c in Chunks([], 0, value) :: |EncodeWord(c)| <= 75
  {
    hide Chunks, Utf8.Encode, Base64.Encode;
    EncodeNothing();
    ChunksCover([], 0, value);
    assert [] + value == value;
  }

  // --------------------------------------------- which text is left unchanged

  /** A payload the decoder takes, by its characters. */
  predicate IsPayload(encoding: CodePoint, payload: Text) {
    if encoding == 0x42 || encoding == 0x62 then Base64.Canonical(payload)
    else (encoding == 0x51 || encoding == 0x71) && IsQPayload(payload)
  }

  /** Printable characters, and two hex digits behind every `=`. */
  predicate IsQPayload(payload: Text) { forall i | 0 <= i < |payload| :: IsQChar(payload, i) }

  predicate IsQChar(payload: Text, i: nat)
    requires i < |payload|
  {
    && 0x20 <= payload[i] <= 0x7e
    && (payload[i] == EQUALS ==> i + 2 < |payload| && IsHexDigit(payload[i + 1]) && IsHexDigit(payload[i + 2]))
  }

  /** The decoder, going through `s` from mark to mark, meets a word whose payload it takes. */
  predicate Meets(s: Text)
    decreases |s|
  {
    match OutlineOf(s)
    case NoWord => false
    case PassOver(size) => Meets(s[size..])
    case Framed(start, charsetEnd, textEnd) =>
      IsPayload(s[charsetEnd + 1], s[charsetEnd + 3..textEnd]) || Meets(s[textEnd + 2..])
  }

  /** The platform gives no more characters than octets, whatever the character set. */
  ghost predicate NeverLengthens(other: Charsets) {
    forall charset, octets :: other(charset, octets).Some? ==> |other(charset, octets).value| <= |octets|
  }

  lemma {:induction false} QPayloadDecodes(payload: Text)
    ensures DecodeQ(payload).Some? <==> IsQPayload(payload)
    ensures DecodeQ(payload).Some? ==> |DecodeQ(payload).value| <= |payload|
    decreases |payload|
  {
    hide IsQPayload;
    if payload == [] {
      NothingIsQPayload();
    } else if payload[0] == EQUALS && |payload| < 3 {
      CutShort(payload);
    } else {
      var n := if payload[0] == EQUALS then 3 else 1;
      QPayloadDecodes(payload[n..]);
      QPayloadFrom(payload, n);
    }
  }

  lemma NothingIsQPayload()
    ensures IsQPayload([])
  {
  }

  lemma CutShort(payload: Text)
    requires 0 < |payload| < 3 && payload[0] == EQUALS
    ensures !IsQPayload(payload)
  {
    assert !IsQChar(payload, 0);
  }

  lemma QPayloadFrom(payload: Text, n: nat)
    requires n <= |payload| && (n == 1 || n == 3)
    requires payload[0] == EQUALS <==> n == 3
    ensures IsQPayload(payload) <==>
      && 0x20 <= payload[0] <= 0x7e
      && (n == 3 ==> IsHexDigit(payload[1]) && IsHexDigit(payload[2]))
      && IsQPayload(payload[n..])
  {
    var rest := payload[n..];
    forall i | n <= i < |payload| ensures IsQChar(payload, i) <==> IsQChar(rest, i - n) {
      assert payload[i] == rest[i - n];
    }
    if IsQPayload(payload) {
      assert IsQChar(payload, 0);
      forall i | 0 <= i < |rest| ensures IsQChar(rest, i) { assert IsQChar(payload, i + n); }
    }
    if n == 3 {
      HexIsPrintable(payload[1]);
      HexIsPrintable(payload[2]);
    }
    if IsQPayload(rest) && IsQChar(payload, 0) {
      forall i | 0 <= i < |payload| ensures IsQChar(payload, i) {
        if i >= n { assert IsQChar(rest, i - n); }
      }
    }
  }

  lemma HexIsPrintable(c: CodePoint)
    ensures IsHexDigit(c) ==> 0x20 <= c <= 0x7e && c != EQUALS
  {
  }

  lemma PayloadDecodes(encoding: CodePoint, payload: Text)
    ensures DecodeWord(encoding, payload).Some? <==> IsPayload(encoding, payload)
    ensures DecodeWord(encoding, payload).Some? ==> |DecodeWord(encoding, payload).value| <= |payload|
  {
    hide DecodeQ, IsQPayload, Base64.Decode, Base64.Canonical, Base64.Encode;
    QPayloadDecodes(payload);
    Base64.CanonicalDecodes(payload);
    if Base64.Decode(payload).Some? { Base64.DecodeInvertsEncode(payload, Base64.Decode(payload).value); }
  }

  lemma {:induction false} AsciiIsAsLong(octets: Bytes)
    ensures |DecodeAscii(octets)| == |octets|
  {
    if octets == [] {
    } else {
      AsciiIsAsLong(octets[1..]);
    }
  }

  lemma CharsetIsNoLonger(other: Charsets, charset: Text, octets: Bytes)
    requires NeverLengthens(other)
    ensures var text := DecodeCharset(other, charset, octets); text.Some? ==> |text.value| <= |octets|
  {
    hide Utf8.Decode, DecodeAscii;
    Utf8.DecodeIsNoLonger(octets);
    AsciiIsAsLong(octets);
  }

  /** A word that is taken gets shorter, any other one stays as it is. */
  lemma WordShrinks(other: Charsets, rest: Text, previousWasEncoded: bool, start: nat, charsetEnd: nat, textEnd: nat)
    requires start + 2 <= charsetEnd && charsetEnd + 3 <= textEnd && textEnd + 2 <= |rest| && NeverLengthens(other)
    ensures var step := Word(other, rest, previousWasEncoded, start, charsetEnd, textEnd);
      if IsPayload(rest[charsetEnd + 1], rest[charsetEnd + 3..textEnd])
      then step.Unknown? || (step.Next? && |step.emitted| < step.size)
      else step == Next(rest[..textEnd + 2], textEnd + 2, false)
  {
    hide DecodeWord, IsPayload, DecodeCharset, NeverLengthens;
    var payload := rest[charsetEnd + 3..textEnd];
    PayloadDecodes(rest[charsetEnd + 1], payload);
    var octets := DecodeWord(rest[charsetEnd + 1], payload);
    if octets.Some? { CharsetIsNoLonger(other, rest[start + 2..charsetEnd], octets.value); }
  }

  /** What one step does to the length. */
  lemma ScanShrinks(other: Charsets, s: Text, previousWasEncoded: bool)
    requires NeverLengthens(other)
    ensures var step := Scan(other, s, previousWasEncoded);
      && (step.Stop? ==> !Meets(s))
      && (step.Unknown? ==> Meets(s))
      && (step.Next? && step.emitted == s[..step.size] ==> Meets(s) == Meets(s[step.size..]))
      && (step.Next? && step.emitted != s[..step.size] ==> |step.emitted| < step.size && Meets(s))
  {
    hide OutlineOf, IsPayload, Word;
    var o := OutlineOf(s);
    if o.Framed? { WordShrinks(other, s, previousWasEncoded, o.start, o.charsetEnd, o.textEnd); }
  }

  /** Decoding never lengthens a text, shortens one where it meets a word, and leaves any other one alone. */
  lemma {:induction false} DecodeShrinks(other: Charsets, s: Text, previousWasEncoded: bool)
    requires NeverLengthens(other)
    ensures var r := DecodeRest(other, s, previousWasEncoded);
      && (r.Some? ==> |r.value| <= |s|)
      && (Meets(s) && r.Some? ==> |r.value| < |s|)
      && (!Meets(s) ==> r == Some(s))
    decreases |s|
  {
    hide Meets, Scan, NeverLengthens;
    ScanShrinks(other, s, previousWasEncoded);
    var step := Scan(other, s, previousWasEncoded);
    if step.Next? {
      DecodeShrinks(other, s[step.size..], step.encoded);
      assert s == s[..step.size] + s[step.size..];
    }
  }

  /**
   * Text is what it decodes to if and only if the decoder meets no encoded word
   * in it, over a platform that never lengthens what it decodes.
   */
  lemma UnchangedIffNoWord(other: Charsets, s: Text)
    requires NeverLengthens(other)
    ensures Decode(other, s) == Some(s) <==> !Meets(s)
  {
    DecodeShrinks(other, s, false);
  }

  /** Text without `=?` is safe whatever else it holds. */
  lemma NoOpeningNoWord(s: Text)
    requires forall i | 0 <= i < |s| - 1 :: s[i] != EQUALS || s[i + 1] != QUESTION
    ensures !Meets(s)
  {
  }

  lemma OutlineOfWord(front: Text, c: nat)
    requires 2 <= c && c + 3 <= |front| && front[0] == EQUALS && front[1] == QUESTION
    requires front[c] == QUESTION && front[c + 1] < 0x10000 && front[c + 2] == QUESTION
    requires forall k | 2 <= k < c :: front[k] != QUESTION
    requires forall k | c + 3 <= k < |front| :: front[k] != QUESTION || (k + 1 < |front| && front[k + 1] != EQUALS)
    requires |Utf16(front)| <= MAX_DECODED
    ensures OutlineOf(front + [QUESTION, EQUALS]) == Framed(0, c, |front|)
  {
    hide Utf16, FindPair, FindChar;
    var s, e := front + [QUESTION, EQUALS], |front|;
    PairAt(s, EQUALS, QUESTION, 0, 0);
    CharAt(s, QUESTION, 2, c);
    PairAt(s, QUESTION, EQUALS, c + 3, e);
    assert s[0..e] == front;
  }

  /** Any one encoded word on its own is met. */
  lemma WordIsMet(charset: Text, encoding: CodePoint, payload: Text)
    requires QUESTION !in charset && QUESTION !in payload && encoding < 0x10000 && IsPayload(encoding, payload)
    requires |Utf16([EQUALS, QUESTION] + charset + [QUESTION, encoding, QUESTION] + payload)| <= MAX_DECODED
    ensures Meets([EQUALS, QUESTION] + charset + [QUESTION, encoding, QUESTION] + payload + [QUESTION, EQUALS])
  {
    hide IsPayload, Utf16, OutlineOf;
    var front := [EQUALS, QUESTION] + charset + [QUESTION, encoding, QUESTION] + payload;
    var s, c := front + [QUESTION, EQUALS], 2 + |charset|;
    assert forall k | 2 <= k < c :: front[k] == charset[k - 2];
    assert forall k | c + 3 <= k < |front| :: front[k] == payload[k - c - 3];
    OutlineOfWord(front, c);
    assert s[c + 3..|front|] == payload;
  }

  /**
   * Looking for words at every place would be too strict: inside a malformed
   * word the decoder passes over text that would be a word on its own.
   */
  lemma InnerWordIsPassedOver() returns (s: Text)
    ensures s == Lit("=?a?Q?=?UTF-8?Q?x?=") && !Meets(s) && Meets(s[6..])
  {
    hide Utf16, OutlineOf, IsPayload, Meets;
    s := Lit("=?a?Q?=?UTF-8?Q?x?=");
    var front: Text := s[..17];
    assert s == front + [QUESTION, EQUALS];
    Utf16OfAscii(front);
    OutlineOfWord(front, 3);
    NoHexNoPayload(s[6..17]);
    NothingIsMet();
    assert s[19..] == [];
    MeetsBehind(s, 3, 17);
    SmallWord();
    assert s[6..] == Lit("=?UTF-8?Q?x?=");
  }

  lemma MeetsBehind(s: Text, charsetEnd: nat, textEnd: nat)
    requires OutlineOf(s) == Framed(0, charsetEnd, textEnd)
    ensures Meets(s) <==> IsPayload(s[charsetEnd + 1], s[charsetEnd + 3..textEnd]) || Meets(s[textEnd + 2..])
  {
    hide OutlineOf, IsPayload;
  }

  lemma NoHexNoPayload(payload: Text)
    requires |payload| > 1 && payload[0] == EQUALS && payload[1] == QUESTION
    ensures !IsPayload(0x51, payload)
  {
    assert !IsQChar(payload, 0);
  }

  lemma NothingIsMet()
    ensures !Meets([])
  {
  }

  lemma SmallWord()
    ensures Meets(Lit("=?UTF-8?Q?x?="))
  {
    hide Utf16, Meets, OutlineOf;
    var charset, payload: Text := Lit("UTF-8"), Lit("x");
    assert IsQChar(payload, 0);
    Utf16OfAscii([EQUALS, QUESTION] + charset + [QUESTION, 0x51, QUESTION] + payload);
    WordIsMet(charset, 0x51, payload);
    assert [EQUALS, QUESTION] + charset + [QUESTION, 0x51, QUESTION] + payload + [QUESTION, EQUALS]
        == Lit("=?UTF-8?Q?x?=");
  }
}
