/**
 * Header fields: folding and serialization in `src/internal/headers.ts` against
 * the unfolding reader of `src/mime/parse.ts` (section 2.2.3 of RFC 5322).
 */
module Headers {
  import opened Common
  import opened Strings
  import Utf8

  const COLON: CodePoint := 0x3a

  /** The recommended maximum line length, without the CRLF, in UTF-16 units. */
  const RECOMMENDED_LINE_LENGTH: nat := 78

  datatype Header = Header(name: Text, value: Text)

  predicate NoBreak(s: Text) { forall c | c in s :: !IsBreak(c) }

  /** `validateHeaderName` */
  predicate ValidName(name: Text) { name != [] && forall c | c in name :: 0x21 <= c <= 0x7e && c != COLON }

  /** `validateHeaderValue` */
  predicate ValidValue(value: Text) { forall c | c in value :: (c >= 0x20 || c == TAB) && c != 0x7f }

  predicate ValidHeader(h: Header) { ValidName(h.name) && ValidValue(h.value) }

  // ----------------------------------------------------------------- writer

  /** The length of the run of characters before the first space or tab. */
  function WordEnd(v: Text): (n: nat)
    ensures n <= |v|
    ensures n < |v| ==> IsWhite(v[n])
    ensures forall k | 0 <= k < n :: !IsWhite(v[k])
  {
    if v == [] || IsWhite(v[0]) then 0 else 1 + WordEnd(v[1..])
  }

  /** The words of a value: what is left of it between spaces and tabs. */
  function Words(v: Text): (words: seq<Text>)
    decreases |v|
  {
    if v == [] then []
    else if IsWhite(v[0]) then Words(v[1..])
    else [v[..WordEnd(v)]] + Words(v[WordEnd(v)..])
  }

  /** The lines of a folded field, from the one being filled on. */
  function FoldLines(current: Text, hasWord: bool, words: seq<Text>): (lines: seq<Text>)
    ensures lines != []
    decreases |words|
  {
    if words == [] then [current]
    else
      var candidate := current + [SPACE] + words[0];
      if hasWord && Units(candidate) > RECOMMENDED_LINE_LENGTH then
        [current] + FoldLines([SPACE] + words[0], true, words[1..])
      else FoldLines(candidate, true, words[1..])
  }

  /** `length` of a JavaScript string. */
  function Units(s: Text): nat { |Utf16(s)| }

  /** Whether a field fits on one line as it is. */
  predicate IsShort(h: Header) { Units(h.name) + 2 + Units(h.value) <= RECOMMENDED_LINE_LENGTH }

  function HeaderLines(h: Header): seq<Text> {
    if IsShort(h) then [h.name + [COLON, SPACE] + h.value]
    else FoldLines(h.name + [COLON], false, Words(h.value))
  }

  /** Lines, each ended by CRLF. */
  function Terminated(lines: seq<Text>): Text {
    if lines == [] then [] else lines[0] + CRLF + Terminated(lines[1..])
  }

  /** `foldHeader` */
  method FoldHeader(h: Header) returns (text: Text)
    ensures text == Terminated(HeaderLines(h))
  {
    if IsShort(h) {
      OneLine(h.name + [COLON, SPACE] + h.value);
      return h.name + [COLON, SPACE] + h.value + CRLF;
    }
    var words := Words(h.value);
    var lines: seq<Text> := [];
    var current: Text := h.name + [COLON];
    var hasWord := false;
    for i := 0 to |words|
      invariant lines + FoldLines(current, hasWord, words[i..]) == FoldLines(h.name + [COLON], false, words)
    {
      assert words[i..][1..] == words[i + 1..] && words[i..][0] == words[i];
      var candidate := current + [SPACE] + words[i];
      if hasWord && Units(candidate) > RECOMMENDED_LINE_LENGTH {
        assert lines + ([current] + FoldLines([SPACE] + words[i], true, words[i + 1..]))
            == (lines + [current]) + FoldLines([SPACE] + words[i], true, words[i + 1..]);
        lines := lines + [current];
        current := [SPACE] + words[i];
      } else {
        current := candidate;
        hasWord := true;
      }
    }
    lines := lines + [current];
    assert words[|words|..] == [];
    text := Terminated(lines);
  }

  lemma OneLine(line: Text)
    ensures Terminated([line]) == line + CRLF
  {
    assert [line][1..] == [];
    assert line + CRLF + [] == line + CRLF;
  }

  function Serialized(headers: seq<Header>): Text {
    if headers == [] then [] else Terminated(HeaderLines(headers[0])) + Serialized(headers[1..])
  }

  /** `serializeHeaders` */
  method SerializeHeaders(headers: seq<Header>) returns (output: Text)
    ensures output == Serialized(headers)
  {
    output := [];
    for i := 0 to |headers|
      invariant output + Serialized(headers[i..]) == Serialized(headers)
    {
      var field := FoldHeader(headers[i]);
      assert headers[i..][1..] == headers[i + 1..];
      assert output + (field + Serialized(headers[i + 1..])) == (output + field) + Serialized(headers[i + 1..]);
      output := output + field;
    }
    assert headers[|headers|..] == [] && output + [] == output;
  }

  // ----------------------------------------------------------------- reader

  /** The index of the first line break; the length when there is none. */
  function LineEnd(text: Text): (n: nat)
    ensures n <= |text|
    ensures n < |text| ==> IsBreak(text[n])
    ensures forall k | 0 <= k < n :: !IsBreak(text[k])
  {
    if text == [] || IsBreak(text[0]) then 0 else 1 + LineEnd(text[1..])
  }

  /** The text split at CRLF, LF and CR. */
  function SplitLines(text: Text): seq<Text>
    decreases |text|
  {
    var n := LineEnd(text);
    if n == |text| then [text]
    else
      var size := if text[n] == CR && n + 1 < |text| && text[n + 1] == LF then 2 else 1;
      [text[..n]] + SplitLines(text[n + size..])
  }

  function TrimWhiteStart(v: Text): Text { if v != [] && IsWhite(v[0]) then TrimWhiteStart(v[1..]) else v }

  function TrimWhiteEnd(v: Text): Text { if v != [] && IsWhite(v[|v| - 1]) then TrimWhiteEnd(v[..|v| - 1]) else v }

  function TrimWhite(v: Text): Text { TrimWhiteEnd(TrimWhiteStart(v)) }

  /** The fields read so far, and whether a continuation line would extend the last one. */
  datatype Reading = Reading(headers: seq<Header>, open: bool)

  function Extended(headers: seq<Header>, line: Text): seq<Header>
    requires headers != []
  {
    var last := headers[|headers| - 1];
    headers[..|headers| - 1] + [Header(last.name, last.value + line)]
  }

  function ReadLine(st: Reading, line: Text): Reading {
    if line == [] then st
    else if IsWhite(line[0]) && st.open && st.headers != [] then st.(headers := Extended(st.headers, line))
    else
      var colon := IndexOf(line, COLON);
      if colon == 0 || colon == |line| || Trim(line[..colon]) == [] then st.(open := false)
      else Reading(st.headers + [Header(Trim(line[..colon]), TrimWhite(line[colon + 1..]))], true)
  }

  function ReadLines(st: Reading, lines: seq<Text>): Reading
    decreases |lines|
  {
    if lines == [] then st else ReadLines(ReadLine(st, lines[0]), lines[1..])
  }

  /** `parseHeaders` */
  function ParseHeaders(block: Text): seq<Header> { ReadLines(Reading([], false), SplitLines(block)).headers }

  method ParseHeaderBlock(block: Text) returns (headers: seq<Header>)
    ensures headers == ParseHeaders(block)
  {
    hide ReadLine, SplitLines;
    headers := [];
    var open := false;
    var lines := SplitLines(block);
    for i := 0 to |lines|
      invariant ReadLines(Reading(headers, open), lines[i..]) == ReadLines(Reading([], false), lines)
    {
      assert lines[i..][1..] == lines[i + 1..] && lines[i..][0] == lines[i];
      var line := lines[i];
      ReadLineCases(Reading(headers, open), line);
      if line == [] { continue; }
      if IsWhite(line[0]) && open && headers != [] {
        headers := Extended(headers, line);
        continue;
      }
      var colon := IndexOf(line, COLON);
      if colon == 0 || colon == |line| {
        open := false;
        continue;
      }
      var name := Trim(line[..colon]);
      if name == [] {
        open := false;
        continue;
      }
      headers := headers + [Header(name, TrimWhite(line[colon + 1..]))];
      open := true;
    }
    assert lines[|lines|..] == [];
  }

  lemma ReadLineCases(st: Reading, line: Text)
    ensures line == [] ==> ReadLine(st, line) == st
    ensures line != [] && IsWhite(line[0]) && st.open && st.headers != [] ==>
      ReadLine(st, line) == st.(headers := Extended(st.headers, line))
    ensures line != [] && !(IsWhite(line[0]) && st.open && st.headers != []) ==>
      var colon := IndexOf(line, COLON);
      ReadLine(st, line)
        == if colon == 0 || colon == |line| || Trim(line[..colon]) == [] then st.(open := false)
           else Reading(st.headers + [Header(Trim(line[..colon]), TrimWhite(line[colon + 1..]))], true)
  {
  }

  // ------------------------------------------------------------- round trip

  /** Every word preceded by one space. */
  function Spaced(words: seq<Text>): Text { if words == [] then [] else [SPACE] + words[0] + Spaced(words[1..]) }

  /** Words joined by single spaces. */
  function Unfolded(words: seq<Text>): Text { if words == [] then [] else Spaced(words)[1..] }

  /** The value a reader gets: trimmed, and with runs of spaces and tabs collapsed when the field was folded. */
  function Received(h: Header): Header {
    Header(h.name, if IsShort(h) then TrimWhite(h.value) else Unfolded(Words(h.value)))
  }

  predicate IsWord(w: Text) { w != [] && (forall c | c in w :: !IsWhite(c)) }

  lemma {:induction false} WordsAreWords(v: Text)
    ensures forall w | w in Words(v) :: IsWord(w) && forall c | c in w :: c in v
    decreases |v|
  {
    if v == [] {
    } else {
      if IsWhite(v[0]) {
        WordsAreWords(v[1..]);
      } else {
        var n := WordEnd(v);
        WordsAreWords(v[n..]);
        assert IsWord(v[..n]);
      }
    }
  }

  lemma WordIsItself(w: Text, rest: Text)
    requires IsWord(w) && (rest == [] || IsWhite(rest[0]))
    ensures Words(w + rest) == [w] + Words(rest)
  {
    var v := w + rest;
    assert v[0] == w[0] && w[0] in w;
    assert forall k | 0 <= k < |w| :: v[k] == w[k] && w[k] in w;
    assert rest != [] ==> v[|w|] == rest[0];
    assert WordEnd(v) == |w|;
    assert v[..|w|] == w && v[|w|..] == rest;
  }

  lemma WordsOfNothing()
    ensures Words([]) == []
  {
  }

  lemma WhiteIsDropped(c: CodePoint, v: Text)
    requires IsWhite(c)
    ensures Words([c] + v) == Words(v)
  {
    assert ([c] + v)[1..] == v;
  }

  lemma {:induction false} WordsOfSpaced(words: seq<Text>)
    requires forall w | w in words :: IsWord(w)
    ensures Words(Spaced(words)) == words
  {
    hide Words, IsWord;
    if words == [] {
      WordsOfNothing();
    } else {
      var rest := Spaced(words[1..]);
      WordsOfSpaced(words[1..]);
      WordIsItself(words[0], rest);
      WhiteIsDropped(SPACE, words[0] + rest);
      assert Spaced(words) == [SPACE] + (words[0] + rest);
      assert words == [words[0]] + words[1..];
    }
  }

  /** Unfolding keeps every word, in order. */
  lemma UnfoldedKeepsWords(words: seq<Text>)
    requires forall w | w in words :: IsWord(w)
    ensures Words(Unfolded(words)) == words
  {
    if words != [] {
      WordsOfSpaced(words);
      assert Spaced(words)[0] == SPACE;
    }
  }

  lemma {:induction false} TrimStartKeepsWords(v: Text)
    ensures Words(TrimWhiteStart(v)) == Words(v)
  {
    if v != [] && IsWhite(v[0]) { TrimStartKeepsWords(v[1..]); }
  }

  lemma WordsStep(v: Text)
    requires v != []
    ensures IsWhite(v[0]) ==> Words(v) == Words(v[1..])
    ensures !IsWhite(v[0]) ==> Words(v) == [v[..WordEnd(v)]] + Words(v[WordEnd(v)..])
  {
  }

  /** The first word of a text stays its first word when white space is put behind. */
  lemma FirstWordStays(v: Text, c: CodePoint, r: Text)
    requires v != [] && !IsWhite(v[0]) && IsWhite(c)
    ensures var n := WordEnd(v);
      0 < n <= |v| && Words(v + [c] + r) == [v[..n]] + Words(v[n..] + [c] + r)
  {
    hide Words, IsWord;
    var n := WordEnd(v);
    FirstWord(v);
    var rest := v[n..] + [c] + r;
    WordIsItself(v[..n], rest);
    assert v + [c] + r == v[..n] + rest;
  }

  /** White space separates words. */
  lemma {:induction false} WordsSplit(v: Text, c: CodePoint, r: Text)
    requires IsWhite(c)
    ensures Words(v + [c] + r) == Words(v) + Words(r)
    decreases |v|
  {
    hide IsWord, Words, WordEnd;
    if v == [] {
      WordsOfNothing();
      WhiteIsDropped(c, r);
      assert v + [c] + r == [c] + r;
    } else {
      WordsStep(v);
      if IsWhite(v[0]) {
        WordsSplit(v[1..], c, r);
        WhiteIsDropped(v[0], v[1..] + [c] + r);
        assert v + [c] + r == [v[0]] + (v[1..] + [c] + r);
      } else {
        FirstWordStays(v, c, r);
        WordsSplit(v[WordEnd(v)..], c, r);
      }
    }
  }

  lemma FirstWord(v: Text)
    requires v != [] && !IsWhite(v[0])
    ensures WordEnd(v) > 0 && IsWord(v[..WordEnd(v)])
  {
  }

  lemma {:induction false} TrimEndKeepsWords(v: Text)
    ensures Words(TrimWhiteEnd(v)) == Words(v)
    decreases |v|
  {
    if v != [] && IsWhite(v[|v| - 1]) {
      TrimEndKeepsWords(v[..|v| - 1]);
      WordsSplit(v[..|v| - 1], v[|v| - 1], []);
      WordsOfNothing();
      assert v == v[..|v| - 1] + [v[|v| - 1]] + [];
    }
  }

  /** The received value has the words of the sent one. */
  lemma ReceivedKeepsWords(h: Header)
    ensures Words(Received(h).value) == Words(h.value)
  {
    if IsShort(h) {
      TrimStartKeepsWords(h.value);
      TrimEndKeepsWords(TrimWhiteStart(h.value));
    } else {
      WordsAreWords(h.value);
      UnfoldedKeepsWords(Words(h.value));
    }
  }

  /** The line being filled when words are added to it: it ends in a word. */
  predicate Filling(current: Text) { current != [] && !IsWhite(current[|current| - 1]) && NoBreak(current) }

  predicate Continuations(lines: seq<Text>) {
    forall l | l in lines :: l != [] && l[0] == SPACE && NoBreak(l)
  }

  /** What folding does to the words: it breaks lines before spaces and changes nothing else. */
  lemma {:induction false} FoldOnlyBreaks(current: Text, words: seq<Text>)
    requires Filling(current) && forall w | w in words :: IsWord(w) && NoBreak(w)
    ensures var lines := FoldLines(current, true, words);
      && Flat(lines) == current + Spaced(words)
      && current <= lines[0] && Filling(lines[0])
      && Continuations(lines[1..])
    decreases |words|
  {
    hide IsWord, Filling, Units;
    if words == [] {
      assert [current][1..] == [];
      assert current + [] == current;
    } else {
      var next := [SPACE] + words[0];
      assert current + [SPACE] + words[0] == current + next;
      FillingGrows(current, words[0]);
      if Units(current + next) > RECOMMENDED_LINE_LENGTH {
        FoldOnlyBreaks(next, words[1..]);
        var rest := FoldLines(next, true, words[1..]);
        assert ([current] + rest)[1..] == rest;
        ContinuationsOf(rest, next);
        assert current + (next + Spaced(words[1..])) == current + (next + Spaced(words[1..]));
      } else {
        FoldOnlyBreaks(current + next, words[1..]);
      }
      assert current + next + Spaced(words[1..]) == current + (next + Spaced(words[1..]));
    }
  }

  lemma FillingGrows(current: Text, word: Text)
    requires Filling(current) && IsWord(word) && NoBreak(word)
    ensures Filling([SPACE] + word) && Filling(current + ([SPACE] + word))
  {
    assert word[|word| - 1] in word;
  }

  lemma ContinuationsOf(lines: seq<Text>, first: Text)
    requires lines != [] && first != [] && first[0] == SPACE && first <= lines[0] && Filling(lines[0])
    requires Continuations(lines[1..])
    ensures Continuations(lines)
  {
    forall l | l in lines ensures l != [] && l[0] == SPACE && NoBreak(l) {
      assert lines == [lines[0]] + lines[1..];
    }
  }

  lemma {:induction false} ReadContinuations(st: Reading, lines: seq<Text>)
    requires st.open && st.headers != [] && Continuations(lines)
    ensures ReadLines(st, lines) == st.(headers := Extended(st.headers, Flat(lines)))
    decreases |lines|
  {
    var last := st.headers[|st.headers| - 1];
    if lines == [] {
      assert last.value + [] == last.value;
      assert st.headers == st.headers[..|st.headers| - 1] + [last];
    } else {
      assert lines[0] in lines && forall l | l in lines[1..] :: l in lines;
      var next := Extended(st.headers, lines[0]);
      assert next[..|next| - 1] == st.headers[..|st.headers| - 1];
      ReadContinuations(st.(headers := next), lines[1..]);
      assert last.value + lines[0] + Flat(lines[1..]) == last.value + Flat(lines);
    }
  }

  lemma TrimmedStays(x: Text)
    requires x != [] && !IsWhite(x[0]) && !IsWhite(x[|x| - 1])
    ensures TrimWhite([SPACE] + x) == x
  {
    assert ([SPACE] + x)[1..] == x && ([SPACE] + x)[0] == SPACE;
    assert TrimWhiteStart(x) == x;
    assert TrimWhiteStart([SPACE] + x) == TrimWhiteStart(x);
  }

  /** Reading the line that starts a field. */
  lemma ReadFirst(st: Reading, name: Text, after: Text)
    requires ValidName(name)
    ensures ReadLine(st, name + [COLON] + after) == Reading(st.headers + [Header(name, TrimWhite(after))], true)
  {
    hide IndexOf, TrimWhite, Trim, IsBlank;
    var line := name + [COLON] + after;
    assert name[0] in name && name[|name| - 1] in name && line[0] == name[0];
    NameNotBlank(name[0]);
    NameNotBlank(name[|name| - 1]);
    TrimNothing(name);
    FirstIs(line, name, COLON, after);
  }

  lemma NameNotBlank(c: CodePoint)
    requires 0x21 <= c <= 0x7e
    ensures !IsBlank(c)
  {
  }

  // ---------------------------------------------------- octets on the wire

  /** The lines as octets. */
  function Encoded(lines: seq<Text>): (r: seq<Bytes>)
    ensures |r| == |lines| && forall i | 0 <= i < |lines| :: r[i] == Utf8.Encode(lines[i])
  {
    if lines == [] then [] else [Utf8.Encode(lines[0])] + Encoded(lines[1..])
  }

  /** The field a reader of the octets gets. */
  function Arrived(h: Header): Header { Header(h.name, Utf8.Encode(Received(h).value)) }

  lemma EncodedAppend(a: seq<Text>, b: seq<Text>)
    ensures Encoded(a + b) == Encoded(a) + Encoded(b)
  {
  }

  lemma {:induction false} TerminatedEncoded(lines: seq<Text>)
    ensures Utf8.Encode(Terminated(lines)) == Terminated(Encoded(lines))
  {
    hide Utf8.Encode;
    if lines == [] {
      EncodeAsciiOnly([]);
    } else {
      TerminatedEncoded(lines[1..]);
      Utf8.EncodeAppend(lines[0] + CRLF, Terminated(lines[1..]));
      Utf8.EncodeAppend(lines[0], CRLF);
      EncodeAsciiOnly(CRLF);
      assert Encoded(lines)[1..] == Encoded(lines[1..]);
    }
  }

  lemma EncodeAsciiOnly(s: Text)
    requires IsAscii(s)
    ensures Utf8.Encode(s) == s
  {
    Utf8.EncodeAscii(s);
  }

  lemma {:induction false} FlatEncoded(lines: seq<Text>)
    ensures Flat(Encoded(lines)) == Utf8.Encode(Flat(lines))
  {
    hide Utf8.Encode;
    if lines == [] {
      EncodeAsciiOnly([]);
    } else {
      FlatEncoded(lines[1..]);
      Utf8.EncodeAppend(lines[0], Flat(lines[1..]));
      assert Encoded(lines)[1..] == Encoded(lines[1..]);
    }
  }

  /** Encoding brings in no ASCII, and keeps what is at either end as far as white space goes. */
  lemma {:induction false} EncodedEdges(s: Text)
    ensures forall b | b in Utf8.Encode(s) && b < 0x80 :: b in s
    ensures s == [] <==> Utf8.Encode(s) == []
    ensures s != [] ==> (IsWhite(Utf8.Encode(s)[0]) <==> IsWhite(s[0]))
    ensures s != [] ==> Utf8.Encode(s)[0] < 0x80 ==> Utf8.Encode(s)[0] == s[0]
    ensures s != [] ==> (IsWhite(Utf8.Encode(s)[|Utf8.Encode(s)| - 1]) <==> IsWhite(s[|s| - 1]))
  {
    if s == [] {
    } else {
      EncodedEdges(s[1..]);
      EdgesOf(s[0]);
      hide Utf8.EncodeChar;
      assert s == [s[0]] + s[1..];
      if s[1..] == [] { assert Utf8.EncodeChar(s[0]) + [] == Utf8.EncodeChar(s[0]); }
    }
  }

  lemma EdgesOf(c: CodePoint)
    ensures var b := Utf8.EncodeChar(c);
      && (forall x | x in b && x < 0x80 :: x == c)
      && (IsWhite(b[0]) <==> IsWhite(c)) && (IsWhite(b[|b| - 1]) <==> IsWhite(c)) && (b[0] < 0x80 ==> b[0] == c)
  {
    var b := Utf8.EncodeChar(c);
    assert b[|b| - 1] in b && b[0] in b;
    hide Utf8.EncodeChar;
  }

  lemma EncodedNoBreak(line: Text)
    requires NoBreak(line)
    ensures NoBreak(Utf8.Encode(line))
  {
    hide Utf8.Encode;
    EncodedEdges(line);
  }

  lemma EncodedUnbroken(lines: seq<Text>)
    requires Unbroken(lines)
    ensures Unbroken(Encoded(lines))
  {
    hide NoBreak, Utf8.Encode;
    forall l | l in Encoded(lines) ensures NoBreak(l) {
      var i :| 0 <= i < |lines| && Encoded(lines)[i] == l;
      assert lines[i] in lines;
      EncodedNoBreak(lines[i]);
    }
  }

  lemma EncodedContinuations(lines: seq<Text>)
    requires Continuations(lines)
    ensures Continuations(Encoded(lines))
  {
    hide Utf8.Encode, NoBreak;
    forall l | l in Encoded(lines) ensures l != [] && l[0] == SPACE && NoBreak(l) {
      var i :| 0 <= i < |lines| && Encoded(lines)[i] == l;
      assert lines[i] in lines;
      EncodedNoBreak(lines[i]);
      SpaceFirst(lines[i]);
    }
  }

  lemma SpaceFirst(line: Text)
    requires line != [] && line[0] == SPACE
    ensures Utf8.Encode(line) != [] && Utf8.Encode(line)[0] == SPACE
  {
  }

  lemma {:induction false} TrimStartEncoded(v: Text)
    ensures TrimWhiteStart(Utf8.Encode(v)) == Utf8.Encode(TrimWhiteStart(v))
  {
    EncodedEdges(v);
    if v == [] || !IsWhite(v[0]) {
    } else {
      TrimStartEncoded(v[1..]);
      assert Utf8.Encode(v)[1..] == Utf8.Encode(v[1..]);
    }
  }

  lemma {:induction false} TrimEndEncoded(v: Text)
    ensures TrimWhiteEnd(Utf8.Encode(v)) == Utf8.Encode(TrimWhiteEnd(v))
    decreases |v|
  {
    hide Utf8.Encode;
    EncodedEdges(v);
    if v == [] || !IsWhite(v[|v| - 1]) {
    } else {
      var init, last := v[..|v| - 1], v[|v| - 1];
      TrimEndEncoded(init);
      Utf8.EncodeAppend(init, [last]);
      EncodeAsciiOnly([last]);
      assert v == init + [last];
      assert Utf8.Encode(v)[..|Utf8.Encode(v)| - 1] == Utf8.Encode(init);
    }
  }

  lemma TrimEncoded(v: Text)
    ensures TrimWhite(Utf8.Encode(v)) == Utf8.Encode(TrimWhite(v))
  {
    hide Utf8.Encode, TrimWhiteStart, TrimWhiteEnd;
    TrimStartEncoded(v);
    TrimEndEncoded(TrimWhiteStart(v));
  }

  lemma ReadShort(st: Reading, h: Header)
    requires ValidHeader(h) && IsShort(h)
    ensures ReadLines(st, Encoded(HeaderLines(h))) == Reading(st.headers + [Arrived(h)], true)
  {
    hide TrimWhiteEnd, ReadLine, Utf8.Encode, IsShort;
    var line := h.name + [COLON] + ([SPACE] + h.value);
    assert HeaderLines(h) == [line] by { assert line == h.name + [COLON, SPACE] + h.value; }
    EncodedStart(h.name, [SPACE] + h.value);
    Utf8.EncodeAppend([SPACE], h.value);
    EncodeAsciiOnly([SPACE]);
    ReadFirst(st, h.name, [SPACE] + Utf8.Encode(h.value));
    TrimEncoded(h.value);
    assert ([SPACE] + Utf8.Encode(h.value))[1..] == Utf8.Encode(h.value);
    assert Encoded([line])[1..] == [];
  }

  /** The octets of a line that starts a field. */
  lemma EncodedStart(name: Text, after: Text)
    requires ValidName(name)
    ensures Utf8.Encode(name + [COLON] + after) == name + [COLON] + Utf8.Encode(after)
  {
    hide Utf8.Encode;
    EncodeAsciiOnly(name + [COLON]);
    Utf8.EncodeAppend(name + [COLON], after);
  }

  lemma ReadFolded(st: Reading, h: Header)
    requires ValidHeader(h) && !IsShort(h)
    ensures ReadLines(st, Encoded(HeaderLines(h))) == Reading(st.headers + [Arrived(h)], true)
  {
    hide ReadLine, TrimWhite, FoldLines, Words, ValidName, ValidValue, IsWord, Filling, Continuations, Utf8.Encode,
      IsShort;
    var words := Words(h.value);
    var lines := HeaderLines(h);
    if words == [] {
      FoldNothing(h.name + [COLON]);
      EncodedStart(h.name, []);
      EncodeAsciiOnly([]);
      ReadFirst(st, h.name, []);
      assert h.name + [COLON] + [] == h.name + [COLON];
      assert lines == [h.name + [COLON]] && Encoded(lines)[1..] == [];
      TrimWhiteNothing();
    } else {
      FoldedLines(h);
      ReadFoldedLines(st, h, lines);
    }
  }

  lemma ReadFoldedLines(st: Reading, h: Header, lines: seq<Text>)
    requires ValidName(h.name) && lines != [] && |lines[0]| > |h.name| + 2
    requires lines[0][..|h.name| + 2] == h.name + [COLON, SPACE]
    requires !IsWhite(lines[0][|h.name| + 2]) && !IsWhite(lines[0][|lines[0]| - 1])
    requires Continuations(lines[1..])
    ensures ReadLines(st, Encoded(lines))
         == Reading(st.headers + [Header(h.name, Utf8.Encode(lines[0][|h.name| + 2..] + Flat(lines[1..])))], true)
  {
    hide ReadLine, TrimWhite, ValidName, Continuations, Utf8.Encode;
    var x, rest := lines[0][|h.name| + 2..], lines[1..];
    assert lines[0] == h.name + [COLON] + ([SPACE] + x);
    EncodedStart(h.name, [SPACE] + x);
    Utf8.EncodeAppend([SPACE], x);
    EncodeAsciiOnly([SPACE]);
    ReadFirst(st, h.name, [SPACE] + Utf8.Encode(x));
    EncodedEdges(x);
    TrimmedStays(Utf8.Encode(x));
    var st1 := Reading(st.headers + [Header(h.name, Utf8.Encode(x))], true);
    assert Encoded(lines)[1..] == Encoded(rest);
    EncodedContinuations(rest);
    ReadContinuations(st1, Encoded(rest));
    FlatEncoded(rest);
    Utf8.EncodeAppend(x, Flat(rest));
    assert st1.headers[..|st1.headers| - 1] == st.headers;
  }

  lemma FoldNothing(current: Text)
    ensures FoldLines(current, false, []) == [current]
  {
  }

  lemma TrimWhiteNothing()
    ensures TrimWhite([]) == []
  {
  }

  /** The lines of a folded field with a word in it. */
  lemma FoldedLines(h: Header)
    requires ValidHeader(h) && !IsShort(h) && Words(h.value) != []
    ensures var lines, n := HeaderLines(h), |h.name| + 2;
      && |lines[0]| > n && lines[0][..n] == h.name + [COLON, SPACE]
      && !IsWhite(lines[0][n]) && !IsWhite(lines[0][|lines[0]| - 1])
      && Continuations(lines[1..])
      && NoBreak(lines[0])
      && lines[0][n..] + Flat(lines[1..]) == Unfolded(Words(h.value))
  {
    hide Words, Continuations, Spaced, Flat, FoldLines, Units, IsWord, NoBreak, ValidName, ValidValue;
    var words, n := Words(h.value), |h.name| + 2;
    CleanWords(h.value);
    FoldFirstWord(h.name + [COLON], words);
    var current := h.name + [COLON] + [SPACE] + words[0];
    FirstLineFills(h, words[0]);
    FoldOnlyBreaks(current, words[1..]);
    var lines := HeaderLines(h);
    assert lines[0][..|current|] == current;
    assert current[..n] == h.name + [COLON, SPACE];
    assert lines[0][..n] == current[..n] && lines[0][n] == current[n] == words[0][0];
    hide Filling;
    FoldedRest(lines, h.name + [COLON, SPACE], words);
  }

  lemma FoldedRest(lines: seq<Text>, prefix: Text, words: seq<Text>)
    requires lines != [] && words != [] && |prefix| <= |lines[0]|
    requires Flat(lines) == prefix + words[0] + Spaced(words[1..])
    ensures lines[0][|prefix|..] + Flat(lines[1..]) == Unfolded(words)
  {
    hide Flat, Spaced;
    FlatSplit(lines);
    SpacedSplit(words);
    var whole := lines[0] + Flat(lines[1..]);
    assert whole == prefix + (words[0] + Spaced(words[1..]));
    assert whole[|prefix|..] == lines[0][|prefix|..] + Flat(lines[1..]);
    assert (prefix + (words[0] + Spaced(words[1..])))[|prefix|..] == words[0] + Spaced(words[1..]);
  }

  lemma FlatSplit(lines: seq<Text>)
    requires lines != []
    ensures Flat(lines) == lines[0] + Flat(lines[1..])
  {
  }

  lemma SpacedSplit(words: seq<Text>)
    requires words != []
    ensures Spaced(words)[1..] == words[0] + Spaced(words[1..])
  {
  }

  lemma FoldFirstWord(prefix: Text, words: seq<Text>)
    requires words != []
    ensures FoldLines(prefix, false, words) == FoldLines(prefix + [SPACE] + words[0], true, words[1..])
  {
  }

  lemma FirstLineFills(h: Header, word: Text)
    requires ValidName(h.name) && IsWord(word) && NoBreak(word)
    ensures Filling(h.name + [COLON] + [SPACE] + word) && !IsWhite(word[0])
  {
    assert word[|word| - 1] in word && word[0] in word;
  }

  lemma CleanWords(v: Text)
    requires ValidValue(v)
    ensures forall w | w in Words(v) :: IsWord(w) && NoBreak(w)
  {
    WordsAreWords(v);
  }

  function AllLines(headers: seq<Header>): seq<Text> {
    if headers == [] then [] else HeaderLines(headers[0]) + AllLines(headers[1..])
  }

  function AllArrived(headers: seq<Header>): (r: seq<Header>)
    ensures |r| == |headers|
    ensures forall i | 0 <= i < |headers| :: r[i] == Arrived(headers[i])
  {
    if headers == [] then [] else [Arrived(headers[0])] + AllArrived(headers[1..])
  }

  lemma ReadLinesStep(st: Reading, line: Text, rest: seq<Text>)
    ensures ReadLines(st, [line] + rest) == ReadLines(ReadLine(st, line), rest)
  {
    assert ([line] + rest)[1..] == rest;
  }

  lemma {:induction false} ReadLinesAppend(st: Reading, a: seq<Text>, b: seq<Text>)
    ensures ReadLines(st, a + b) == ReadLines(ReadLines(st, a), b)
    decreases |a|
  {
    if a == [] {
      assert a + b == b;
    } else {
      assert (a + b)[1..] == a[1..] + b;
      ReadLinesAppend(ReadLine(st, a[0]), a[1..], b);
    }
  }

  lemma {:induction false} TerminatedAppend(a: seq<Text>, b: seq<Text>)
    ensures Terminated(a + b) == Terminated(a) + Terminated(b)
  {
    if a == [] {
      assert a + b == b;
    } else {
      assert (a + b)[1..] == a[1..] + b;
      TerminatedAppend(a[1..], b);
    }
  }

  lemma {:induction false} SerializedIsTerminated(headers: seq<Header>)
    ensures Serialized(headers) == Terminated(AllLines(headers))
  {
    hide HeaderLines;
    if headers == [] {
    } else {
      SerializedIsTerminated(headers[1..]);
      TerminatedAppend(HeaderLines(headers[0]), AllLines(headers[1..]));
    }
  }

  predicate Unbroken(lines: seq<Text>) { forall l | l in lines :: NoBreak(l) }

  lemma SplitOne(line: Text, rest: Text)
    requires NoBreak(line)
    ensures SplitLines(line + CRLF + rest) == [line] + SplitLines(rest)
  {
    var text := line + CRLF + rest;
    assert forall k | 0 <= k < |line| :: text[k] == line[k] && line[k] in line;
    assert text[|line|] == CR && text[|line| + 1] == LF;
    assert LineEnd(text) == |line|;
    assert text[..|line|] == line && text[|line| + 2..] == rest;
  }

  lemma {:induction false} SplitTerminated(lines: seq<Text>, rest: Text)
    requires Unbroken(lines)
    ensures SplitLines(Terminated(lines) + rest) == lines + SplitLines(rest)
  {
    hide SplitLines, NoBreak;
    if lines == [] {
      assert Terminated(lines) + rest == rest;
    } else {
      var tail := Terminated(lines[1..]);
      assert lines[0] in lines && forall l | l in lines[1..] :: l in lines;
      SplitTerminated(lines[1..], rest);
      SplitOne(lines[0], tail + rest);
      assert lines[0] + CRLF + tail + rest == lines[0] + CRLF + (tail + rest);
      assert lines == [lines[0]] + lines[1..];
    }
  }

  /** A written field has no line break inside a line. */
  lemma LinesUnbroken(h: Header)
    requires ValidHeader(h)
    ensures Unbroken(HeaderLines(h))
  {
    hide Words, FoldLines;
    if IsShort(h) {
    } else if Words(h.value) == [] {
      FoldNothing(h.name + [COLON]);
    } else {
      FoldedLines(h);
      var lines := HeaderLines(h);
      forall l | l in lines ensures NoBreak(l) {
        assert lines == [lines[0]] + lines[1..];
      }
    }
  }

  lemma {:induction false} AllUnbroken(headers: seq<Header>)
    requires forall h | h in headers :: ValidHeader(h)
    ensures Unbroken(AllLines(headers))
  {
    hide HeaderLines, NoBreak, ValidName, ValidValue;
    if headers == [] {
    } else {
      assert headers[0] in headers && forall h | h in headers[1..] :: h in headers;
      LinesUnbroken(headers[0]);
      AllUnbroken(headers[1..]);
    }
  }

  /** One field read from the front of the lines. */
  lemma ReadOne(st: Reading, h: Header, rest: seq<Text>)
    requires ValidHeader(h)
    ensures ReadLines(st, Encoded(HeaderLines(h)) + rest) == ReadLines(Reading(st.headers + [Arrived(h)], true), rest)
  {
    hide HeaderLines, ReadLines, Arrived, ValidHeader, IsShort;
    if IsShort(h) { ReadShort(st, h); } else { ReadFolded(st, h); }
    ReadLinesAppend(st, Encoded(HeaderLines(h)), rest);
  }

  lemma ReadNothing(st: Reading)
    ensures ReadLines(st, []) == st
  {
  }

  lemma {:induction false} ReadAll(st: Reading, headers: seq<Header>)
    requires forall h | h in headers :: ValidHeader(h)
    ensures ReadLines(st, Encoded(AllLines(headers))).headers == st.headers + AllArrived(headers)
    decreases |headers|
  {
    hide HeaderLines, AllLines, ReadLine, ReadLines, Arrived, ValidHeader, IsShort, Encoded;
    if headers == [] {
      NoLines();
      ReadNothing(st);
      assert st.headers + [] == st.headers;
    } else {
      var h, rest := headers[0], headers[1..];
      assert h in headers && forall x | x in rest :: x in headers;
      LinesStep(headers);
      ReadOne(st, h, Encoded(AllLines(rest)));
      ReadAll(Reading(st.headers + [Arrived(h)], true), rest);
      ArrivedStep(st.headers, headers);
    }
  }

  lemma NoLines()
    ensures Encoded(AllLines([])) == []
  {
  }

  lemma LinesStep(headers: seq<Header>)
    requires headers != []
    ensures Encoded(AllLines(headers)) == Encoded(HeaderLines(headers[0])) + Encoded(AllLines(headers[1..]))
  {
    EncodedAppend(HeaderLines(headers[0]), AllLines(headers[1..]));
  }

  lemma ArrivedStep(before: seq<Header>, headers: seq<Header>)
    requires headers != []
    ensures before + [Arrived(headers[0])] + AllArrived(headers[1..]) == before + AllArrived(headers)
  {
    assert AllArrived(headers)[1..] == AllArrived(headers[1..]);
  }

  lemma ReadEnd(st: Reading)
    ensures ReadLines(st, SplitLines([])) == st
  {
    var blank: seq<Text> := [[]];
    assert SplitLines([]) == blank;
    assert blank[1..] == [] && ReadLine(st, []) == st;
  }

  /**
   * Reading a serialized block gives the fields that were written: the same
   * names in the same order, and in every value the UTF-8 octets of a text with
   * the same words.
   */
  lemma HeadersRoundTrip(headers: seq<Header>)
    requires forall h | h in headers :: ValidHeader(h)
    ensures ParseHeaders(Utf8.Encode(Serialized(headers))) == AllArrived(headers)
    ensures forall i | 0 <= i < |headers| ::
      && AllArrived(headers)[i] == Header(headers[i].name, Utf8.Encode(Received(headers[i]).value))
      && Words(Received(headers[i]).value) == Words(headers[i].value)
  {
    hide *;
    SerializedIsTerminated(headers);
    TerminatedEncoded(AllLines(headers));
    AllUnbroken(headers);
    EncodedUnbroken(AllLines(headers));
    ParseLines(Encoded(AllLines(headers)));
    ReadAll(Reading([], false), headers);
    assert [] + AllArrived(headers) == AllArrived(headers);
    forall i | 0 <= i < |headers|
      ensures AllArrived(headers)[i] == Header(headers[i].name, Utf8.Encode(Received(headers[i]).value))
      ensures Words(Received(headers[i]).value) == Words(headers[i].value)
    {
      ArrivedIs(headers[i]);
      ReceivedKeepsWords(headers[i]);
    }
  }

  /** Reading lines put together is reading them one by one. */
  lemma ParseLines(lines: seq<Text>)
    requires Unbroken(lines)
    ensures ParseHeaders(Terminated(lines)) == ReadLines(Reading([], false), lines).headers
  {
    hide SplitLines, ReadLine, Terminated, Unbroken, ReadLines;
    var start := Reading([], false);
    SplitTerminated(lines, []);
    assert Terminated(lines) + [] == Terminated(lines);
    ReadLinesAppend(start, lines, SplitLines([]));
    ReadEnd(ReadLines(start, lines));
  }

  lemma ArrivedIs(h: Header)
    ensures Arrived(h) == Header(h.name, Utf8.Encode(Received(h).value))
  {
    hide Utf8.Encode;
  }

  // ------------------------------------------------------------ line lengths

  /** A line that ends at the recommended length, or that has no more than one word to break before. */
  predicate Fits(line: Text, prefix: Text) {
    prefix <= line && (Units(line) <= RECOMMENDED_LINE_LENGTH || |Words(line[|prefix|..])| <= 1)
  }

  lemma OneWord(w: Text)
    requires IsWord(w)
    ensures Words([SPACE] + w) == [w]
  {
    WhiteIsDropped(SPACE, w);
    WordIsItself(w, []);
    assert w + [] == w;
    WordsOfNothing();
  }

  lemma WordAdded(prefix: Text, current: Text, w: Text)
    requires prefix <= current && IsWord(w)
    ensures Words((current + [SPACE] + w)[|prefix|..]) == Words(current[|prefix|..]) + [w]
  {
    var tail := current[|prefix|..];
    assert (current + [SPACE] + w)[|prefix|..] == tail + [SPACE] + w;
    WordsSplit(tail, SPACE, w);
    WordIsItself(w, []);
    assert w + [] == w;
    WordsOfNothing();
  }

  lemma {:induction false} FoldFits(prefix: Text, current: Text, hasWord: bool, words: seq<Text>)
    requires Fits(current, prefix) && forall w | w in words :: IsWord(w)
    requires hasWord == (Words(current[|prefix|..]) != [])
    ensures var lines := FoldLines(current, hasWord, words);
      && Fits(lines[0], prefix)
      && (hasWord ==> Words(lines[0][|prefix|..]) != [])
      && (forall i | 1 <= i < |lines| :: Fits(lines[i], []) && Words(lines[i]) != [])
    decreases |words|
  {
    hide Words, IsWord;
    if words == [] {
    } else {
      var w := words[0];
      assert w in words && forall x | x in words[1..] :: x in words;
      var candidate := current + [SPACE] + w;
      WordAdded(prefix, current, w);
      if hasWord && Units(candidate) > RECOMMENDED_LINE_LENGTH {
        OneWord(w);
        var next := [SPACE] + w;
        assert next[0..] == next;
        FoldFits([], next, true, words[1..]);
        var rest := FoldLines(next, true, words[1..]);
        assert rest[0][0..] == rest[0];
      } else {
        FoldFits(prefix, candidate, true, words[1..]);
      }
    }
  }

  lemma {:induction false} UnitsAppend(a: Text, b: Text)
    ensures Units(a + b) == Units(a) + Units(b)
  {
    if a == [] {
      assert a + b == b;
    } else {
      assert (a + b)[1..] == a[1..] + b;
      UnitsAppend(a[1..], b);
    }
  }

  lemma ShortUnits(h: Header)
    ensures Units(h.name + [COLON, SPACE] + h.value) == Units(h.name) + 2 + Units(h.value)
  {
    var one: Text := [SPACE];
    var two: Text := [COLON, SPACE];
    UnitsAppend(h.name + two, h.value);
    UnitsAppend(h.name, two);
    assert two[1..] == one && one[1..] == [];
    assert Utf16(one) == one + [];
  }

  /**
   * A line over 78 characters holds no more than one word after the field name,
   * and every continuation line holds at least one.
   */
  lemma FoldedLineLimit(h: Header)
    ensures Fits(HeaderLines(h)[0], h.name + [COLON])
    ensures forall i | 1 <= i < |HeaderLines(h)| :: Fits(HeaderLines(h)[i], []) && Words(HeaderLines(h)[i]) != []
  {
    hide Words, FoldLines, Units;
    var prefix := h.name + [COLON];
    if IsShort(h) {
      ShortUnits(h);
      assert h.name + [COLON, SPACE] + h.value == prefix + ([SPACE] + h.value);
    } else {
      WordsAreWords(h.value);
      WordsOfNothing();
      assert prefix[|prefix|..] == [];
      FoldFits(prefix, prefix, false, Words(h.value));
    }
  }

  /** The space and the word a continuation line starts with. */
  function FirstOf(line: Text): (first: Text)
    requires line != []
  {
    line[..1 + WordEnd(line[1..])]
  }

  /** A line that had to end: the word that starts the next one would have made it too long. */
  predicate MustEnd(line: Text, next: Text) {
    next != [] && next[0] == SPACE && |FirstOf(next)| > 1 && Units(line + FirstOf(next)) > 78
  }

  predicate Greedy(lines: seq<Text>) { forall i | 0 <= i < |lines| - 1 :: MustEnd(lines[i], lines[i + 1]) }

  /** What a line grows from: nothing was added to it, or a space and more. */
  predicate GrownFrom(line: Text, current: Text) { line == current || current + [SPACE] <= line }

  lemma FirstOfGrown(line: Text, w: Text)
    requires IsWord(w) && GrownFrom(line, [SPACE] + w)
    ensures line != [] && line[0] == SPACE && FirstOf(line) == [SPACE] + w
  {
    var rest := line[1..];
    assert [SPACE] + w <= line;
    assert forall k | 0 <= k < |w| :: rest[k] == line[k + 1] == ([SPACE] + w)[k + 1] && w[k] in w;
    if line != [SPACE] + w { assert rest[|w|] == line[|w| + 1] == ([SPACE] + w + [SPACE])[|w| + 1]; }
    assert WordEnd(rest) == |w|;
    assert line[..1 + |w|] == [SPACE] + w;
  }

  lemma GrownFurther(line: Text, current: Text, w: Text)
    requires GrownFrom(line, current + [SPACE] + w)
    ensures GrownFrom(line, current) && current + [SPACE] + w <= line
  {
    var longer := current + [SPACE] + w;
    assert longer <= line;
    assert (current + [SPACE])[..] == longer[..|current| + 1] == line[..|current| + 1];
  }

  lemma GreedyFirst(line: Text, lines: seq<Text>)
    requires Greedy(lines) && lines != [] && MustEnd(line, lines[0])
    ensures Greedy([line] + lines)
  {
    hide MustEnd;
    var all := [line] + lines;
    forall i | 0 <= i < |all| - 1 ensures MustEnd(all[i], all[i + 1]) {
      if i > 0 { assert all[i] == lines[i - 1] && all[i + 1] == lines[i - 1 + 1]; }
    }
  }

  lemma FoldCases(current: Text, hasWord: bool, words: seq<Text>)
    ensures words == [] ==> FoldLines(current, hasWord, words) == [current]
    ensures words != [] ==>
      FoldLines(current, hasWord, words)
      == if hasWord && Units(current + [SPACE] + words[0]) > RECOMMENDED_LINE_LENGTH then
           [current] + FoldLines([SPACE] + words[0], true, words[1..])
         else FoldLines(current + [SPACE] + words[0], true, words[1..])
  {
    hide Units;
  }

  lemma {:induction false} FoldIsGreedy(current: Text, hasWord: bool, words: seq<Text>)
    requires forall w | w in words :: IsWord(w)
    ensures var lines := FoldLines(current, hasWord, words);
      && GrownFrom(lines[0], current) && Greedy(lines)
      && (!hasWord && words != [] ==> current + [SPACE] + words[0] <= lines[0])
    decreases |words|
  {
    hide IsWord, FoldLines, GrownFrom, Greedy, Units, WordEnd;
    FoldCases(current, hasWord, words);
    if words == [] {
      OneIsGreedy(current);
    } else {
      var w := words[0];
      assert w in words && forall x | x in words[1..] :: x in words;
      var candidate, next := current + [SPACE] + w, [SPACE] + w;
      if hasWord && Units(candidate) > RECOMMENDED_LINE_LENGTH {
        FoldIsGreedy(next, true, words[1..]);
        var rest := FoldLines(next, true, words[1..]);
        FirstOfGrown(rest[0], w);
        assert current + next == candidate;
        WordIsSome(w);
        GreedyFirst(current, rest);
        OneIsGreedy(current);
      } else {
        FoldIsGreedy(candidate, true, words[1..]);
        GrownFurther(FoldLines(candidate, true, words[1..])[0], current, w);
      }
    }
  }

  lemma OneIsGreedy(current: Text)
    ensures GrownFrom(current, current) && Greedy([current])
  {
  }

  lemma WordIsSome(w: Text)
    requires IsWord(w)
    ensures |w| > 0
  {
  }

  /**
   * A field is broken only where it must be: one that fits within 78 characters
   * stays as it is, the first word stays behind the name, and a line ends only
   * where the next word would have taken it over 78.
   */
  lemma BrokenOnlyWhereItMust(h: Header)
    ensures var whole, lines := h.name + [COLON, SPACE] + h.value, HeaderLines(h);
      && (Units(whole) <= 78 ==> lines == [whole])
      && (Units(whole) > 78 ==> Greedy(lines))
      && (Units(whole) > 78 && Words(h.value) != [] ==> h.name + [COLON, SPACE] + Words(h.value)[0] <= lines[0])
  {
    hide FoldLines, Words, Greedy, Units, IsWord;
    ShortUnits(h);
    WordsAreWords(h.value);
    var current := h.name + [COLON];
    FoldIsGreedy(current, false, Words(h.value));
    if Words(h.value) != [] {
      assert current + [SPACE] + Words(h.value)[0] == h.name + [COLON, SPACE] + Words(h.value)[0];
    }
  }
}
