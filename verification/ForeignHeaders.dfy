/**
 * Header blocks that other programs wrote: any line ends, folded values, lines
 * that are no fields. What `parseHeaders` of `src/mime/parse.ts` reads in them.
 */
module ForeignHeaders {
  import opened Common
  import opened Strings
  import opened Headers

  // ------------------------------------------------------------------- lines

  /** How a line ends. */
  predicate IsEnd(end: Text) { end == [CR, LF] || end == [LF] || end == [CR] }

  /** Lines and the line ends between them; a lone CR is no half of a CRLF. */
  predicate AreLined(lines: seq<Text>, ends: seq<Text>) {
    && |lines| == |ends| + 1
    && (forall i | 0 <= i < |lines| :: NoBreak(lines[i]))
    && (forall i | 0 <= i < |ends| :: IsEnd(ends[i]))
    && (forall i | 0 <= i < |ends| - 1 :: ends[i] == [CR] && lines[i + 1] == [] ==> ends[i + 1] != [LF])
  }

  function Lined(lines: seq<Text>, ends: seq<Text>): Text
    requires |lines| == |ends| + 1
  {
    if ends == [] then lines[0] else lines[0] + (ends[0] + Lined(lines[1..], ends[1..]))
  }

  lemma LineEndIs(line: Text, rest: Text)
    requires NoBreak(line) && rest != [] && IsBreak(rest[0])
    ensures var text := line + rest; LineEnd(text) == |line| && text[..|line|] == line && text[|line|..] == rest
  {
    var text, n := line + rest, |line|;
    assert forall i | 0 <= i < n :: text[i] == line[i] && line[i] in line;
    assert text[n] == rest[0];
  }

  lemma SplitCases(text: Text)
    ensures var n := LineEnd(text);
      && (n < |text| && n + 1 < |text| && text[n] == CR && text[n + 1] == LF ==>
            SplitLines(text) == [text[..n]] + SplitLines(text[n + 2..]))
      && (n < |text| && !(n + 1 < |text| && text[n] == CR && text[n + 1] == LF) ==>
            SplitLines(text) == [text[..n]] + SplitLines(text[n + 1..]))
  {
  }

  lemma SplitAtEnd(line: Text, end: Text, rest: Text)
    requires NoBreak(line) && IsEnd(end) && (end == [CR] ==> rest == [] || rest[0] != LF)
    ensures SplitLines(line + (end + rest)) == [line] + SplitLines(rest)
  {
    hide SplitLines, LineEnd, NoBreak;
    var text, n, behind := line + (end + rest), |line|, end + rest;
    LineEndIs(line, behind);
    SplitCases(text);
    assert text[n] == behind[0];
    if |behind| > 1 { assert text[n + 1] == behind[1]; }
    assert text[n + |end|..] == behind[|end|..] == rest;
  }

  lemma AreLinedRest(lines: seq<Text>, ends: seq<Text>)
    requires AreLined(lines, ends) && ends != []
    ensures AreLined(lines[1..], ends[1..]) && NoBreak(lines[0]) && IsEnd(ends[0])
  {
    hide NoBreak, IsEnd;
    forall i | 0 <= i < |lines[1..]| ensures lines[1..][i] == lines[i + 1] {
    }
    forall i | 0 <= i < |ends[1..]| ensures ends[1..][i] == ends[i + 1] {
    }
  }

  /** Behind a lone CR no LF comes next. */
  lemma NoHalf(lines: seq<Text>, ends: seq<Text>)
    requires AreLined(lines, ends) && ends != [] && ends[0] == [CR]
    ensures var rest := Lined(lines[1..], ends[1..]); rest == [] || rest[0] != LF
  {
    var rest := Lined(lines[1..], ends[1..]);
    assert NoBreak(lines[1]) && lines[1..][0] == lines[1];
    if lines[1] != [] {
      assert rest[0] == lines[1][0] && lines[1][0] in lines[1];
    } else if |ends| > 1 {
      assert IsEnd(ends[1]) && ends[1..][0] == ends[1];
      assert rest[0] == ends[1][0];
    }
  }

  lemma LastLine(line: Text)
    requires NoBreak(line)
    ensures SplitLines(line) == [line]
  {
    assert forall k | 0 <= k < |line| :: line[k] in line;
  }

  /** Lines are told apart at CRLF, LF and CR alike. */
  lemma {:induction false} SplitLined(lines: seq<Text>, ends: seq<Text>)
    requires AreLined(lines, ends)
    ensures SplitLines(Lined(lines, ends)) == lines
    decreases |lines|
  {
    hide SplitLines, NoBreak, IsEnd, AreLined;
    AreLinedSize(lines, ends);
    if ends == [] {
      LastLine(lines[0]);
    } else {
      AreLinedRest(lines, ends);
      if ends[0] == [CR] { NoHalf(lines, ends); }
      SplitLined(lines[1..], ends[1..]);
      SplitAtEnd(lines[0], ends[0], Lined(lines[1..], ends[1..]));
      assert lines == [lines[0]] + lines[1..];
    }
  }

  lemma AreLinedSize(lines: seq<Text>, ends: seq<Text>)
    requires AreLined(lines, ends)
    ensures |lines| == |ends| + 1 && NoBreak(lines[0])
  {
  }

  // ------------------------------------------------------------------- fields

  /** A field with the lines that continue it, or a line that is no field, or an empty one. */
  datatype Item = Field(name: Text, value: Text, more: seq<Text>) | Junk(line: Text) | Empty

  predicate IsContinuation(line: Text) { line != [] && IsWhite(line[0]) }

  /** No colon, or nothing in front of it. */
  predicate IsNoField(line: Text) {
    && line != [] && !IsWhite(line[0])
    && (COLON !in line || Trim(line[..IndexOf(line, COLON)]) == [])
  }

  predicate IsItem(item: Item) {
    match item
    case Field(name, _, more) =>
      && Trim(name) != [] && !IsWhite(name[0]) && COLON !in name
      && (forall line | line in more :: IsContinuation(line))
    case Junk(line) => IsNoField(line)
    case Empty => true
  }

  function LinesOf(item: Item): seq<Text> {
    match item
    case Field(name, value, more) => [name + [COLON] + value] + more
    case Junk(line) => [line]
    case Empty => [[]]
  }

  function AllLinesOf(items: seq<Item>): seq<Text> {
    if items == [] then [] else LinesOf(items[0]) + AllLinesOf(items[1..])
  }

  /** A field: its name trimmed, its value trimmed and continued by the further lines as they stand. */
  function FieldOf(item: Item): seq<Header> {
    if item.Field? then [Header(Trim(item.name), TrimWhite(item.value) + Flat(item.more))] else []
  }

  function FieldsOf(items: seq<Item>): seq<Header> {
    if items == [] then [] else FieldOf(items[0]) + FieldsOf(items[1..])
  }

  lemma ReadField(st: Reading, name: Text, value: Text)
    requires Trim(name) != [] && !IsWhite(name[0]) && COLON !in name
    ensures ReadLine(st, name + [COLON] + value)
         == Reading(st.headers + [Header(Trim(name), TrimWhite(value))], true)
  {
    hide Trim, TrimWhite, IndexOf;
    TrimmedIsSome(name);
    var line := name + [COLON] + value;
    FirstIs(line, name, COLON, value);
    assert line[0] == name[0];
  }

  lemma TrimmedIsSome(s: Text)
    ensures Trim(s) != [] ==> s != []
  {
  }

  lemma ReadContinuation(st: Reading, line: Text)
    requires IsContinuation(line) && st.open && st.headers != []
    ensures var last := st.headers[|st.headers| - 1];
      ReadLine(st, line) == Reading(st.headers[..|st.headers| - 1] + [Header(last.name, last.value + line)], true)
  {
  }

  lemma {:induction false} ReadMore(before: seq<Header>, name: Text, value: Text, more: seq<Text>)
    requires forall line | line in more :: IsContinuation(line)
    ensures ReadLines(Reading(before + [Header(name, value)], true), more)
         == Reading(before + [Header(name, value + Flat(more))], true)
    decreases |more|
  {
    hide ReadLine, IsContinuation;
    if more == [] {
      assert value + Flat(more) == value;
    } else {
      assert more[0] in more && forall line | line in more[1..] :: line in more;
      var headers := before + [Header(name, value)];
      assert headers[..|headers| - 1] == before;
      ReadContinuation(Reading(headers, true), more[0]);
      ReadMore(before, name, value + more[0], more[1..]);
      assert value + more[0] + Flat(more[1..]) == value + (more[0] + Flat(more[1..]));
    }
  }

  lemma ReadJunk(st: Reading, line: Text)
    requires IsNoField(line)
    ensures ReadLine(st, line) == st.(open := false)
  {
    hide Trim;
    var i := IndexOf(line, COLON);
    if i < |line| { assert line[i] in line; }
  }

  lemma ReadOneLine(st: Reading, line: Text)
    ensures ReadLines(st, [line]) == ReadLine(st, line)
  {
    hide ReadLine;
    assert [line][1..] == [];
  }

  lemma ReadEmpty(st: Reading)
    ensures ReadLine(st, []) == st
  {
  }

  lemma ReadItem(st: Reading, item: Item)
    requires IsItem(item)
    ensures ReadLines(st, LinesOf(item)).headers == st.headers + FieldOf(item)
  {
    hide ReadLine, Trim, TrimWhite, Flat, IsContinuation, IsNoField, ReadLines;
    match item
    case Field(name, value, more) =>
      ReadField(st, name, value);
      ReadLinesAppend(st, [name + [COLON] + value], more);
      ReadOneLine(st, name + [COLON] + value);
      ReadMore(st.headers, Trim(name), TrimWhite(value), more);
    case Junk(line) =>
      ReadOneLine(st, line);
      ReadJunk(st, line);
      assert st.headers + [] == st.headers;
    case Empty =>
      ReadOneLine(st, []);
      ReadEmpty(st);
      assert st.headers + [] == st.headers;
  }

  lemma {:induction false} ReadItems(st: Reading, items: seq<Item>)
    requires forall item | item in items :: IsItem(item)
    ensures ReadLines(st, AllLinesOf(items)).headers == st.headers + FieldsOf(items)
    decreases |items|
  {
    hide ReadLines, IsItem, LinesOf, FieldOf;
    if items == [] {
      NoItems(st);
    } else {
      assert items[0] in items && forall item | item in items[1..] :: item in items;
      ReadItem(st, items[0]);
      ReadLinesAppend(st, LinesOf(items[0]), AllLinesOf(items[1..]));
      ReadItems(ReadLines(st, LinesOf(items[0])), items[1..]);
      assert st.headers + (FieldOf(items[0]) + FieldsOf(items[1..]))
          == st.headers + FieldOf(items[0]) + FieldsOf(items[1..]);
    }
  }

  lemma NoItems(st: Reading)
    ensures ReadLines(st, []) == st && FieldsOf([]) == [] && st.headers + [] == st.headers
  {
  }

  /** A block gives its fields in order, whatever else stands in it and however its lines end. */
  lemma ReadsForeignBlock(items: seq<Item>, ends: seq<Text>)
    requires (forall item | item in items :: IsItem(item)) && AreLined(AllLinesOf(items), ends)
    ensures ParseHeaders(Lined(AllLinesOf(items), ends)) == FieldsOf(items)
  {
    hide ReadLines, IsItem, SplitLines, AllLinesOf, FieldsOf, AreLined, ReadLine;
    AreLinedSize(AllLinesOf(items), ends);
    SplitLined(AllLinesOf(items), ends);
    ReadItems(Reading([], false), items);
    assert [] + FieldsOf(items) == FieldsOf(items);
  }
}
