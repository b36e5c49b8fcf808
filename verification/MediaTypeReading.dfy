/**
 * Media types and their parameters as any mail program writes them: tokens,
 * quoted strings and RFC 2231 values, in any number and order. What
 * `parseMediaType` of `src/mime/parse.ts` reads in them.
 */
module MediaTypeReading {
  import opened Common
  import opened Strings
  import opened Disposition
  import Utf8

  /** A parameter with a token, a quoted string, or octets in a character set for its value. */
  datatype Param =
    | Token(key: Text, value: Text)
    | QuotedString(key: Text, text: Text)
    | Octets(key: Text, charset: Text, language: Text, octets: Bytes)

  /** Text the splitter copies and the trimmer leaves alone. */
  predicate IsBare(s: Text) { forall c | c in s :: !IsBlank(c) && c != SEMICOLON && c != DQUOTE }

  predicate IsKey(key: Text) { key != [] && IsBare(key) && EQUALS !in key && STAR !in key }

  predicate IsParam(p: Param) {
    && IsKey(p.key)
    && match p
       case Token(_, value) => IsBare(value)
       case QuotedString(_, _) => true
       case Octets(_, charset, language, _) =>
         IsBare(charset) && IsBare(language) && APOSTROPHE !in charset && APOSTROPHE !in language
  }

  /** What stands behind the equals sign. */
  function ValueText(p: Param): Text {
    match p
    case Token(_, value) => value
    case QuotedString(_, text) => [DQUOTE] + Escape(text) + [DQUOTE]
    case Octets(_, charset, language, octets) =>
      charset + [APOSTROPHE] + (language + [APOSTROPHE] + PercentEncode(octets))
  }

  /** A key as it is written: with a star when its value is in octets. */
  function KeyText(p: Param): Text { if p.Octets? then p.key + [STAR] else p.key }

  function ParamText(p: Param): Text { KeyText(p) + [EQUALS] + ValueText(p) }

  function SegmentText(p: Param): Text { [SPACE] + ParamText(p) }

  function AllText(ps: seq<Param>): Text {
    if ps == [] then [] else [SEMICOLON] + (SegmentText(ps[0]) + AllText(ps[1..]))
  }

  function AllSegments(ps: seq<Param>): seq<Text> {
    if ps == [] then [] else [SegmentText(ps[0])] + AllSegments(ps[1..])
  }

  /** What a reader is meant to find: text, or octets decoded from their character set. */
  function Meant(p: Param): Value {
    match p
    case Token(_, value) => InUtf8(value)
    case QuotedString(_, text) => InUtf8(text)
    case Octets(_, charset, _, octets) => DecodeOctets(octets, if charset == [] then Utf8.LABEL else charset)
  }

  /** The parameters by their names in small letters; of two with one name the later counts. */
  function Collected(params: map<Text, Value>, ps: seq<Param>): map<Text, Value>
    decreases |ps|
  {
    if ps == [] then params else Collected(params[Lower(ps[0].key) := Meant(ps[0])], ps[1..])
  }

  // ---------------------------------------------------------------- segments

  lemma BareAppend(a: Text, b: Text)
    ensures IsBare(a + b) <==> IsBare(a) && IsBare(b)
  {
    hide IsBlank;
    assert forall c :: c in a + b <==> c in a || c in b;
  }

  lemma MarksAreBare()
    ensures IsBare([EQUALS]) && IsBare([STAR]) && IsBare([APOSTROPHE])
  {
  }

  lemma PercentIsBare(b: Bytes)
    ensures IsBare(PercentEncode(b))
  {
    hide PercentEncode;
    PercentIsInert(b);
  }

  /** Written octets are bare. */
  lemma OctetsAreBare(p: Param)
    requires IsParam(p) && !p.QuotedString?
    ensures IsBare(ParamText(p)) && IsBare(ValueText(p))
  {
    hide IsBare, PercentEncode;
    MarksAreBare();
    if p.Octets? {
      PercentIsBare(p.octets);
      BareAppend(p.language, [APOSTROPHE]);
      BareAppend(p.language + [APOSTROPHE], PercentEncode(p.octets));
      BareAppend(p.charset, [APOSTROPHE]);
      BareAppend(p.charset + [APOSTROPHE], p.language + [APOSTROPHE] + PercentEncode(p.octets));
      BareAppend(p.key, [STAR]);
    }
    BareAppend(KeyText(p), [EQUALS]);
    BareAppend(KeyText(p) + [EQUALS], ValueText(p));
  }

  lemma BareIsCopied(s: Text)
    requires IsBare(s)
    ensures forall c | c in [SPACE] + s :: c != SEMICOLON && c != DQUOTE
  {
    hide IsBlank;
  }

  /** One parameter is one segment, outside quotes at its end. */
  lemma SegmentIsRead(seg: Splitter, p: Param)
    requires IsParam(p) && seg.current == [] && !seg.quoted && !seg.escaped
    ensures SplitRun(seg, SegmentText(p)) == seg.(current := SegmentText(p))
  {
    hide SplitRun, Escape, IsBare, PercentEncode, KeyText;
    if p.QuotedString? {
      MarksAreBare();
      KeyIs(p);
      BareAppend(p.key, [EQUALS]);
      BareIsCopied(p.key + [EQUALS]);
      var front := [SPACE] + (p.key + [EQUALS]);
      QuotedSegment(seg, front, p.text);
      assert SegmentText(p) == front + [DQUOTE] + Escape(p.text) + [DQUOTE];
    } else {
      OctetsAreBare(p);
      BareIsCopied(ParamText(p));
      SplitPlain(seg, SegmentText(p));
      assert [] + SegmentText(p) == SegmentText(p);
    }
  }

  lemma KeyIs(p: Param)
    ensures !p.Octets? ==> KeyText(p) == p.key
  {
  }

  lemma {:induction false} SegmentsAreRead(st: Splitter, ps: seq<Param>)
    requires (forall p | p in ps :: IsParam(p)) && !st.quoted && !st.escaped
    ensures var r := SplitRun(st, AllText(ps)); r.done + [r.current] == st.done + [st.current] + AllSegments(ps)
    decreases |ps|
  {
    hide SplitRun, SegmentText, IsParam;
    if ps == [] {
      SplitNothing(st);
      assert st.done + [st.current] + [] == st.done + [st.current];
    } else {
      assert ps[0] in ps && forall p | p in ps[1..] :: p in ps;
      var s, rest := SegmentText(ps[0]), AllText(ps[1..]);
      var next := Splitter(st.done + [st.current], [], false, false);
      SplitAppend(st, [SEMICOLON], s + rest);
      SplitSemicolon(st);
      SplitAppend(next, s, rest);
      SegmentIsRead(next, ps[0]);
      SegmentsAreRead(next.(current := s), ps[1..]);
      var done, others := st.done + [st.current], AllSegments(ps[1..]);
      assert done + [s] + others == done + ([s] + others);
    }
  }

  lemma SplitSemicolon(st: Splitter)
    requires !st.quoted && !st.escaped
    ensures SplitRun(st, [SEMICOLON]) == Splitter(st.done + [st.current], [], false, false)
  {
    hide SplitRun;
    SplitOne(st, SEMICOLON);
  }

  lemma SegmentsOf(main: Text, ps: seq<Param>)
    requires IsToken(main) && forall p | p in ps :: IsParam(p)
    ensures Segments(main + AllText(ps)) == [main] + AllSegments(ps)
  {
    hide SplitRun, AllText, AllSegments, IsBlank, IsParam;
    var start := Splitter([], [], false, false);
    SplitAppend(start, main, AllText(ps));
    SplitPlain(start, main);
    assert [] + main == main;
    SegmentsAreRead(start.(current := main), ps);
    assert [] + [main] + AllSegments(ps) == [main] + AllSegments(ps);
  }

  // --------------------------------------------------------------- parameters

  lemma BareTrims(s: Text)
    requires IsBare(s)
    ensures Trim(s) == s
  {
    hide IsBlank;
    if s == [] {
    } else {
      assert s[0] in s && s[|s| - 1] in s;
      TrimNothing(s);
    }
  }

  lemma LowerKeepsStar(key: Text)
    ensures STAR in Lower(key) <==> STAR in key
  {
    var l := Lower(key);
    if STAR in key {
      var i :| 0 <= i < |key| && key[i] == STAR;
      assert l[i] == STAR;
    }
    if STAR in l {
      var i :| 0 <= i < |l| && l[i] == STAR;
      assert key[i] == STAR;
    }
  }

  lemma StarredKey(key: Text)
    ensures var l := Lower(key + [STAR]); l == Lower(key) + [STAR]
  {
  }

  lemma AddIs(params: map<Text, Value>, segment: Text, key: Text, v: Text)
    requires Trim(segment) == key + [EQUALS] + v && key != [] && EQUALS !in key && Trim(key) == key
    ensures var k, u := Lower(key), Unquote(Trim(v));
      AddParameter(params, segment)
      == if STAR !in k then params[k := InUtf8(u)]
         else if k[|k| - 1] == STAR && STAR !in k[..|k| - 1] then params[k[..|k| - 1] := DecodeExtended(u)]
         else params
  {
    hide Trim, Lower, Unquote, IndexOf, DecodeExtended;
    FirstIs(Trim(segment), key, EQUALS, v);
  }

  /** The ends of a written parameter are no blanks. */
  lemma ParamTrims(p: Param)
    requires IsParam(p)
    ensures Trim(SegmentText(p)) == ParamText(p) && Trim(ValueText(p)) == ValueText(p) && Trim(KeyText(p)) == KeyText(p)
  {
    hide IsBlank, Trim, Escape, PercentEncode, IsBare;
    MarksAreBare();
    BareAppend(p.key, [STAR]);
    BareTrims(KeyText(p));
    var t, v := ParamText(p), ValueText(p);
    if p.QuotedString? {
      NotBlank();
      TrimNothing(v);
      BareEnds(p.key);
      assert t[0] == p.key[0] && t[|t| - 1] == DQUOTE;
    } else {
      OctetsAreBare(p);
      BareTrims(v);
      BareEnds(t);
    }
    TrimNothing(t);
  }

  lemma BareEnds(s: Text)
    requires IsBare(s) && s != []
    ensures !IsBlank(s[0]) && !IsBlank(s[|s| - 1])
  {
    hide IsBlank;
    assert s[0] in s && s[|s| - 1] in s;
  }

  lemma BareIsUnquoted(s: Text)
    requires IsBare(s)
    ensures Unquote(s) == s
  {
    hide IsBlank;
    if s != [] { assert s[0] in s; }
  }

  /** What stands behind the equals sign means what it was written from. */
  lemma ValueIsMeant(p: Param)
    requires IsParam(p)
    ensures p.Octets? ==> DecodeExtended(Unquote(ValueText(p))) == Meant(p)
    ensures !p.Octets? ==> InUtf8(Unquote(ValueText(p))) == Meant(p)
  {
    hide Unquote, IsBare, Escape, Unescape, DecodeExtended, DecodeOctets, PercentEncode;
    match p
    case Token(_, value) => BareIsUnquoted(value);
    case QuotedString(_, text) => QuotedIsUnquoted(text);
    case Octets(_, charset, language, octets) =>
      OctetsAreBare(p);
      BareIsUnquoted(ValueText(p));
      ExtendedIsDecoded(charset, language, octets);
  }

  lemma QuotedIsUnquoted(text: Text)
    ensures Unquote([DQUOTE] + Escape(text) + [DQUOTE]) == text
  {
    hide Escape, Unescape;
    var v := [DQUOTE] + Escape(text) + [DQUOTE];
    assert v[1..|v| - 1] == Escape(text);
    UnescapeEscape(text);
  }

  lemma ExtendedIsDecoded(charset: Text, language: Text, octets: Bytes)
    requires APOSTROPHE !in charset && APOSTROPHE !in language
    ensures DecodeExtended(charset + [APOSTROPHE] + (language + [APOSTROPHE] + PercentEncode(octets)))
         == DecodeOctets(octets, if charset == [] then Utf8.LABEL else charset)
  {
    hide DecodeOctets, PercentEncode, PercentDecode, IndexOf;
    var pct := PercentEncode(octets);
    var rest := language + [APOSTROPHE] + pct;
    var v := charset + [APOSTROPHE] + rest;
    FirstIs(v, charset, APOSTROPHE, rest);
    FirstIs(rest, language, APOSTROPHE, pct);
    assert v[|charset| + |language| + 2..] == v[|charset| + 1..][|language| + 1..];
    PercentRoundTrip(octets);
  }

  lemma EqualsNotInKey(p: Param)
    requires IsParam(p)
    ensures EQUALS !in KeyText(p) && KeyText(p) != []
  {
    hide IsBare;
  }

  /** One more parameter. */
  lemma ParamIsAdded(params: map<Text, Value>, p: Param)
    requires IsParam(p)
    ensures AddParameter(params, SegmentText(p)) == params[Lower(p.key) := Meant(p)]
  {
    hide Trim, Lower, Unquote, AddParameter, IsBare, DecodeExtended, Meant, SegmentText, ValueText;
    ParamTrims(p);
    EqualsNotInKey(p);
    AddIs(params, SegmentText(p), KeyText(p), ValueText(p));
    LowerKeepsStar(p.key);
    StarredKey(p.key);
    ValueIsMeant(p);
    var k := Lower(p.key);
    assert (k + [STAR])[..|k|] == k && (k + [STAR])[|k|] == STAR;
  }

  lemma {:induction false} ParamsAreAdded(params: map<Text, Value>, ps: seq<Param>)
    requires forall p | p in ps :: IsParam(p)
    ensures AddParameters(params, AllSegments(ps)) == Collected(params, ps)
    decreases |ps|
  {
    hide AddParameter, IsParam, SegmentText, Meant, Lower;
    if ps == [] {
    } else {
      assert ps[0] in ps && forall p | p in ps[1..] :: p in ps;
      ParamIsAdded(params, ps[0]);
      assert AllSegments(ps)[1..] == AllSegments(ps[1..]) && AllSegments(ps)[0] == SegmentText(ps[0]);
      ParamsAreAdded(params[Lower(ps[0].key) := Meant(ps[0])], ps[1..]);
    }
  }

  lemma MainIsSome(main: Text, rest: Text)
    requires IsToken(main)
    ensures Trim(main + rest) != []
  {
    hide IsBlank;
    assert (main + rest)[0] == main[0] && main[0] in main;
    TrimKeepsFirst(main + rest);
  }

  /** All parameters of a value are found, with the values they were written from. */
  lemma ParametersAreRead(main: Text, ps: seq<Param>)
    requires IsToken(main) && forall p | p in ps :: IsParam(p)
    ensures Parameters(main + AllText(ps)) == Collected(map[], ps)
  {
    hide Trim, Segments, AddParameters, AllSegments, AllText, IsParam, IsToken, Collected;
    MainIsSome(main, AllText(ps));
    SegmentsOf(main, ps);
    ParamsAreAdded(map[], ps);
    assert ([main] + AllSegments(ps))[1..] == AllSegments(ps);
  }

  /** The type and the subtype are read in small letters, whatever parameters follow. */
  lemma MediaIsRead(kind: Text, subkind: Text, ps: seq<Param>)
    requires kind != [] && IsToken(kind + [SLASH] + subkind) && SLASH !in kind && forall p | p in ps :: IsParam(p)
    ensures MediaOf(kind + [SLASH] + subkind + AllText(ps)) == Media(Lower(kind), Lower(subkind))
  {
    hide Trim, Segments, AllText, IsParam, IsToken, IndexOf;
    var main := kind + [SLASH] + subkind;
    MainIsSome(main, AllText(ps));
    SegmentsOf(main, ps);
    assert ([main] + AllSegments(ps))[0] == main;
    TokenTrims(main);
    assert Lower(main) == Lower(kind) + [SLASH] + Lower(subkind);
    LowerKeepsSlash(kind);
    FirstIs(Lower(main), Lower(kind), SLASH, Lower(subkind));
  }

  lemma LowerKeepsSlash(s: Text)
    requires SLASH !in s
    ensures SLASH !in Lower(s)
  {
    forall i | 0 <= i < |s| ensures Lower(s)[i] != SLASH { assert s[i] in s; }
  }
}
