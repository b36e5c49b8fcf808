/**
 * What the parser of `src/address.ts` makes of text in normal form: atoms,
 * quoted strings, dot-atoms, domains and phrases as the formatter writes them.
 */
module AddressReading {
  import opened Common
  import opened Strings
  import opened AddressErrors
  import opened AddressGrammar
  import opened Address
  import Domain
  import Idna

  // ---------------------------------------------------------- white space

  /** Nothing the parser would skip comes next. */
  predicate Still(s: Text) { s == [] || (!IsWhite(s[0]) && !IsBreak(s[0]) && s[0] != OPEN_PAREN) }

  lemma NothingToSkip(s: Text)
    requires Still(s)
    ensures SkipFws(s) == Parsed(false, 0) && SkipCfws(s) == Parsed(false, 0)
  {
    assert s[0..] == s;
  }

  lemma SkipOneBlank(c: CodePoint, s: Text)
    requires IsWhite(c) && Still(s)
    ensures SkipCfws([c] + s) == Parsed(true, 1)
  {
    var text := [c] + s;
    assert text[1..] == s;
    NothingToSkip(s);
    assert SkipFws(text) == Parsed(true, 1);
  }

  /** Neither skipped, nor a dot, nor part of an atom. */
  predicate Quiet(s: Text) { Still(s) && (s == [] || (s[0] != DOT && !IsAtomChar(s[0]))) }

  lemma NoDotBehind(s: Text)
    requires Quiet(s)
    ensures DotBehind(s) == Parsed(false, 0)
  {
    hide SkipCfws;
    NothingToSkip(s);
    assert s[0..] == s;
  }

  lemma AtomIsStill(c: CodePoint)
    requires IsAtomChar(c)
    ensures !IsWhite(c) && !IsBreak(c) && c != OPEN_PAREN && c != DOT && c != DQUOTE
    ensures c !in {AT, LESS, GREATER, COMMA, COLON, SEMICOLON, OPEN_BRACKET, BACKSLASH}
  {
  }

  lemma OneDotBehind(s: Text)
    requires s != [] && IsAtomChar(s[0])
    ensures DotBehind([DOT] + s) == Parsed(true, 1)
  {
    hide SkipCfws, IsAtomChar;
    AtomIsStill(s[0]);
    NothingToSkip(s);
    var text := [DOT] + s;
    NothingToSkip(text);
    assert text[0..] == text && text[1..] == s;
  }

  // ----------------------------------------------------------------- atoms

  predicate IsAtom(a: Text) { a != [] && forall c | c in a :: IsAtomChar(c) }

  lemma AtomRead(a: Text, tail: Text)
    requires IsAtom(a) && (tail == [] || !IsAtomChar(tail[0]))
    ensures AtomSize(a + tail) == |a| && Atom(a + tail) == Parsed(a, |a|)
  {
    hide IsAtomChar;
    var text := a + tail;
    assert forall k | 0 <= k < |a| :: text[k] == a[k] && a[k] in a;
    assert tail != [] ==> text[|a|] == tail[0];
    assert AtomSize(text) == |a|;
    assert text[..|a|] == a;
  }

  /** Atoms joined by single dots. */
  predicate DotAtom(s: Text) {
    && s != [] && s[0] != DOT && s[|s| - 1] != DOT
    && (forall i | 0 <= i < |s| - 1 :: s[i] != DOT || s[i + 1] != DOT)
    && (forall c | c in s :: IsAtomChar(c) || c == DOT)
  }

  lemma DotAtomSplit(s: Text)
    requires DotAtom(s)
    ensures var n := AtomSize(s);
      && n > 0 && IsAtom(s[..n])
      && (n < |s| ==> s[n] == DOT && n + 1 < |s| && IsAtomChar(s[n + 1]) && DotAtom(s[n + 1..]))
  {
    hide IsAtomChar;
    var n := AtomSize(s);
    assert s[0] in s;
    assert forall k | 0 <= k < |s| :: s[k] in s;
    if n < |s| {
      assert s[n] in s;
      DotAtomTail(s, n);
    }
  }

  lemma DotAtomTail(s: Text, n: nat)
    requires DotAtom(s) && n < |s| && s[n] == DOT
    ensures n + 1 < |s| && IsAtomChar(s[n + 1]) && DotAtom(s[n + 1..])
  {
    hide IsAtomChar;
    assert n != |s| - 1;
    var rest := s[n + 1..];
    assert s[n + 1] in s;
    assert rest[|rest| - 1] == s[|s| - 1] && rest[0] == s[n + 1];
    forall i | 0 <= i < |rest| - 1 ensures rest[i] != DOT || rest[i + 1] != DOT {
      assert rest[i] == s[n + 1 + i] && rest[i + 1] == s[n + 1 + i + 1];
    }
    assert forall c | c in rest :: c in s;
  }

  lemma LocalPartStep(s: Text, segment: Text, n: nat)
    requires LocalSegment(s) == Parsed(segment, n) && n <= |s|
    ensures DotBehind(s[n..]) == Parsed(false, 0) ==> LocalPart(s) == Parsed(segment, n)
    ensures DotBehind(s[n..]) == Parsed(true, 1) ==>
      n + 1 <= |s| && LocalPart(s) == DotJoined(segment, n + 1, LocalPart(s[n + 1..]))
  {
    hide LocalSegment, DotBehind;
  }

  lemma {:induction false} ReadLocalDotAtom(s: Text, tail: Text)
    requires DotAtom(s) && Quiet(tail)
    ensures LocalPart(s + tail) == Parsed(s, |s|)
    decreases |s|
  {
    hide IsAtomChar, DotAtom, Quiet, DotBehind, AtomSize, LocalSegment, LocalPart, IsAtom;
    var n := AtomSize(s);
    DotAtomSplit(s);
    var a, text := s[..n], s + tail;
    if n == |s| {
      SegmentRead(a, tail);
      NoDotBehind(tail);
      assert a == s && text[n..] == tail;
      LocalPartStep(text, a, n);
    } else {
      var rest := s[n + 1..];
      var behind := [DOT] + (rest + tail);
      assert text == a + behind;
      DotIsNoAtom();
      SegmentRead(a, behind);
      OneDotBehind(rest + tail);
      assert text[n..] == behind && text[n + 1..] == rest + tail;
      LocalPartStep(text, a, n);
      ReadLocalDotAtom(rest, tail);
      assert a + [DOT] + rest == s;
    }
  }

  lemma DotIsNoAtom()
    ensures !IsAtomChar(DOT)
  {
  }

  lemma SegmentRead(a: Text, tail: Text)
    requires IsAtom(a) && (Quiet(tail) || (tail != [] && !IsAtomChar(tail[0])))
    ensures LocalSegment(a + tail) == Parsed(a, |a|) && Label(a + tail) == Parsed(a, |a|)
    ensures (a + tail)[|a|..] == tail
  {
    hide IsAtomChar, Atom, AtomSize;
    assert a[0] in a && (a + tail)[0] == a[0];
    AtomIsStill(a[0]);
    AtomRead(a, tail);
  }

  lemma DomainNameStep(s: Text, first: Text, n: nat)
    requires Label(s) == Parsed(first, n) && n <= |s|
    ensures DotBehind(s[n..]) == Parsed(false, 0) ==> DomainName(s) == Parsed(first, n)
    ensures DotBehind(s[n..]) == Parsed(true, 1) ==>
      n + 1 <= |s| && DomainName(s) == DotJoined(first, n + 1, DomainName(s[n + 1..]))
  {
    hide Label, DotBehind;
  }

  lemma {:induction false} ReadDomainDotAtom(s: Text, tail: Text)
    requires DotAtom(s) && Quiet(tail)
    ensures DomainName(s + tail) == Parsed(s, |s|)
    decreases |s|
  {
    hide IsAtomChar, DotAtom, Quiet, DotBehind, AtomSize, Label, DomainName, IsAtom;
    var n := AtomSize(s);
    DotAtomSplit(s);
    var a, text := s[..n], s + tail;
    if n == |s| {
      SegmentRead(a, tail);
      NoDotBehind(tail);
      assert a == s && text[n..] == tail;
      DomainNameStep(text, a, n);
    } else {
      var rest := s[n + 1..];
      var behind := [DOT] + (rest + tail);
      assert text == a + behind;
      DotIsNoAtom();
      SegmentRead(a, behind);
      OneDotBehind(rest + tail);
      assert text[n..] == behind && text[n + 1..] == rest + tail;
      DomainNameStep(text, a, n);
      ReadDomainDotAtom(rest, tail);
      assert a + [DOT] + rest == s;
    }
  }

  // --------------------------------------------------------- quoted strings

  /** Text a quoted string may hold as it is, up to backslashes and quotes. */
  predicate Plain(s: Text) { forall c | c in s :: !IsControl(c) }

  lemma QuotedChar(c: CodePoint, tail: Text)
    requires !IsControl(c)
    ensures QuotedBody(EscapeChar(c) + tail) == Prefixed(c, |EscapeChar(c)|, QuotedBody(tail))
  {
    var e := EscapeChar(c);
    assert (e + tail)[|e|..] == tail;
  }

  lemma {:induction false} QuotedRead(s: Text, tail: Text)
    requires Plain(s)
    ensures QuotedBody(Escape(s) + [DQUOTE] + tail) == Parsed(s, |Escape(s)| + 1)
  {
    hide QuotedBody, EscapeChar, IsControl;
    if s == [] {
      QuoteEnds(tail);
      assert Escape(s) + [DQUOTE] + tail == [DQUOTE] + tail;
    } else {
      assert s[0] in s && forall c | c in s[1..] :: c in s;
      var rest := Escape(s[1..]) + [DQUOTE] + tail;
      QuotedRead(s[1..], tail);
      QuotedChar(s[0], rest);
      assert Escape(s) + [DQUOTE] + tail == EscapeChar(s[0]) + rest;
      assert [s[0]] + s[1..] == s;
    }
  }

  lemma QuoteEnds(tail: Text)
    ensures QuotedBody([DQUOTE] + tail) == Parsed([], 1)
  {
  }

  lemma QuoteRead(s: Text, tail: Text)
    requires Plain(s)
    ensures QuotedString(Quote(s) + tail) == Parsed(s, |Quote(s)|)
    ensures Quote(s)[0] == DQUOTE && (Quote(s) + tail)[|Quote(s)|..] == tail
  {
    hide QuotedBody, Escape, IsControl;
    QuotedRead(s, tail);
    var text := Quote(s) + tail;
    assert text[1..] == Escape(s) + [DQUOTE] + tail;
  }

  // ------------------------------------------------------------ local parts

  lemma ReadQuotedLocal(s: Text, tail: Text)
    requires Plain(s) && Quiet(tail)
    ensures LocalPart(Quote(s) + tail) == Parsed(s, |Quote(s)|)
  {
    hide Quote, Quiet, DotBehind, QuotedString, IsControl;
    QuoteRead(s, tail);
    NoDotBehind(tail);
    assert (Quote(s) + tail)[0] == DQUOTE;
  }

  /** A local part the formatter writes in a form the parser reads back. */
  predicate Readable(local: Text) { IsAscii(local) || DotAtom(local) }

  lemma UnquotedIsDotAtom(local: Text)
    requires Readable(local) && !NeedsQuoting(local)
    ensures DotAtom(local)
  {
    if IsAscii(local) {
      forall c | c in local ensures IsAtomChar(c) || c == DOT {
      }
      assert forall i | 0 <= i < |local| - 1 :: !(local[i] == DOT && local[i + 1] == DOT);
    }
  }

  lemma PathSafeIsPlain(local: Text)
    requires PathSafe(local)
    ensures Plain(local)
  {
  }

  lemma ReadLocal(local: Text, tail: Text)
    requires Readable(local) && PathSafe(local) && Quiet(tail)
    ensures LocalPart(Serialized(local) + tail) == Parsed(local, |Serialized(local)|)
    ensures Serialized(local) != [] && (IsAtomChar(Serialized(local)[0]) || Serialized(local)[0] == DQUOTE)
  {
    hide NeedsQuoting, DotAtom, Quiet, Quote, LocalPart, Readable, PathSafe, Plain, IsAtomChar;
    if NeedsQuoting(local) {
      PathSafeIsPlain(local);
      ReadQuotedLocal(local, tail);
      QuoteRead(local, tail);
    } else {
      UnquotedIsDotAtom(local);
      ReadLocalDotAtom(local, tail);
      DotAtomStarts(local);
    }
  }

  lemma DotAtomStarts(s: Text)
    requires DotAtom(s)
    ensures s != [] && IsAtomChar(s[0])
  {
    assert s[0] in s;
  }

  // ---------------------------------------------------------------- domains

  /** A literal in its brackets, as normalization leaves it. */
  predicate IsLiteral(d: Text) { |d| >= 2 && Domain.NormalizeDomainLiteral(d[1..|d| - 1]) == Ok(d) }

  /** A domain as a mailbox holds it. */
  predicate IsDomain(d: Text) { Domain.IsNormal(d) || IsLiteral(d) }

  lemma LiteralContent(d: Text)
    requires IsLiteral(d)
    ensures d == [OPEN_BRACKET] + d[1..|d| - 1] + [CLOSE_BRACKET]
    ensures forall c | c in d[1..|d| - 1] :: Domain.IsDtext(c)
  {
    hide Domain.NormalizeDomainLiteral;
    Domain.LiteralChars(d[1..|d| - 1]);
  }

  lemma {:induction false} ReadLiteralBody(s: Text, tail: Text)
    requires forall c | c in s :: Domain.IsDtext(c)
    ensures LiteralBody(s + [CLOSE_BRACKET] + tail) == Parsed(s, |s| + 1)
  {
    hide LiteralBody;
    var text := s + [CLOSE_BRACKET] + tail;
    if s == [] {
      LiteralEnds(tail);
      assert text == [CLOSE_BRACKET] + tail;
    } else {
      assert s[0] in s && forall c | c in s[1..] :: c in s;
      ReadLiteralBody(s[1..], tail);
      LiteralChar(s[0], s[1..] + [CLOSE_BRACKET] + tail);
      assert text == [s[0]] + (s[1..] + [CLOSE_BRACKET] + tail);
      assert [s[0]] + s[1..] == s;
    }
  }

  lemma LiteralEnds(tail: Text)
    ensures LiteralBody([CLOSE_BRACKET] + tail) == Parsed([], 1)
  {
  }

  lemma LiteralChar(c: CodePoint, tail: Text)
    requires Domain.IsDtext(c)
    ensures LiteralBody([c] + tail) == Prefixed(c, 1, LiteralBody(tail))
  {
    assert ([c] + tail)[1..] == tail;
  }

  lemma NormalIsDotAtom(d: Text)
    requires forall l | l in SplitOn(d, DOT) :: Domain.IsLdh(l)
    ensures DotAtom(d) && d[0] != OPEN_BRACKET
  {
    hide IsAtomChar, Domain.IsLdh;
    Domain.NormalIsAscii(d);
    LabelsLeaveNoGap(d);
    forall c | c in d ensures IsAtomChar(c) || c == DOT { LdhIsAtom(c); }
    assert d[0] in d;
  }

  lemma LdhIsAtom(c: CodePoint)
    ensures IsAlnum(c) || c == HYPHEN ==> IsAtomChar(c)
  {
  }

  lemma {:induction false} LabelsLeaveNoGap(d: Text)
    requires forall l | l in SplitOn(d, DOT) :: Domain.IsLdh(l)
    ensures d != [] && d[0] != DOT && d[|d| - 1] != DOT
    ensures forall i | 0 <= i < |d| - 1 :: d[i] != DOT || d[i + 1] != DOT
    decreases |d|
  {
    var n := IndexOf(d, DOT);
    var labels := SplitOn(d, DOT);
    assert labels[0] in labels;
    if n == |d| {
      assert labels[0] == d;
    } else {
      var rest := d[n + 1..];
      assert forall l | l in SplitOn(rest, DOT) :: l in labels;
      LabelsLeaveNoGap(rest);
      assert forall i | n < i < |d| :: d[i] == rest[i - n - 1];
    }
  }

  /** A domain is read back whole, and normalizes to itself. */
  lemma ReadDomain(env: Platform, d: Text, tail: Text) returns (text: DomainText)
    requires Idna.Sane(env.tables) && IsDomain(d) && Quiet(tail)
    ensures DomainPart(d + tail) == Parsed(text, |d|)
    ensures WellFormed(text.text) && NormalizedDomain(env, text) == Ok(d)
    ensures d != [] && Still(d)
  {
    hide DomainName, LiteralBody, DotAtom, Quiet, Domain.NormalizeDomain, Domain.NormalizeDomainLiteral, Idna.Sane,
      Domain.IsNormal;
    if Domain.IsNormal(d) {
      NormalFacts(d);
      ReadDomainDotAtom(d, tail);
      Domain.NormalIsFixed(env.tables, d);
      text := DomainText(d, false);
      assert (d + tail)[0] == d[0];
    } else {
      var content := d[1..|d| - 1];
      LiteralContent(d);
      ReadLiteralBody(content, tail);
      text := DomainText(content, true);
      assert (d + tail)[1..] == content + [CLOSE_BRACKET] + tail;
      assert (d + tail)[0] == d[0] == OPEN_BRACKET;
      DtextIsWellFormed(content);
    }
  }

  lemma NormalFacts(d: Text)
    requires Domain.IsNormal(d)
    ensures DotAtom(d) && d != [] && d[0] != OPEN_BRACKET && WellFormed(d) && Still(d)
  {
    hide IsAtomChar, Domain.IsLdh;
    NormalIsDotAtom(d);
    Domain.NormalIsAscii(d);
    assert d[0] in d;
    AtomIsStill(d[0]);
  }

  lemma DtextIsWellFormed(s: Text)
    requires forall c | c in s :: Domain.IsDtext(c)
    ensures WellFormed(s)
  {
  }

  // -------------------------------------------------------------- addr-spec

  /** `written` is a way to write a local part: it is read back whatever quiet text follows. */
  ghost predicate Writes(written: Text, local: Text) {
    && written != [] && (IsAtomChar(written[0]) || written[0] == DQUOTE)
    && forall tail | Quiet(tail) :: LocalPart(written + tail) == Parsed(local, |written|)
  }

  lemma SerializedWrites(local: Text)
    requires Readable(local) && PathSafe(local)
    ensures Writes(Serialized(local), local)
  {
    hide Serialized, Readable, PathSafe, Quiet, LocalPart, IsAtomChar;
    QuietNothing();
    ReadLocal(local, []);
    forall tail | Quiet(tail) ensures LocalPart(Serialized(local) + tail) == Parsed(local, |Serialized(local)|) {
      ReadLocal(local, tail);
    }
  }

  lemma QuietNothing()
    ensures Quiet([])
  {
  }

  /** Quoting writes every safe local part, also those `Serialized` does not quote. */
  lemma QuoteWrites(local: Text)
    requires PathSafe(local)
    ensures Writes(Quote(local), local)
  {
    hide PathSafe, Quiet, LocalPart, IsAtomChar, Plain, Escape;
    PathSafeIsPlain(local);
    forall tail | Quiet(tail) ensures LocalPart(Quote(local) + tail) == Parsed(local, |Quote(local)|) {
      ReadQuotedLocal(local, tail);
    }
  }

  lemma ReadAddrSpec(env: Platform, written: Text, local: Text, d: Text, tail: Text) returns (text: DomainText)
    requires Idna.Sane(env.tables) && Writes(written, local) && IsDomain(d) && Quiet(tail)
    ensures AddrSpec(written + [AT] + d + tail) == Parsed(Shape(local, text), |written + [AT] + d|)
    ensures WellFormed(text.text) && NormalizedDomain(env, text) == Ok(d)
  {
    hide LocalPart, DomainPart, IsDomain, Quiet, Idna.Sane, NormalizedDomain, SkipCfws, IsAtomChar;
    text := ReadDomain(env, d, tail);
    var behind := [AT] + (d + tail);
    var s := written + [AT] + d + tail;
    assert s == written + behind;
    AtIsQuiet(d + tail);
    NothingToSkip(behind);
    StillBefore(d, tail);
    NothingToSkip(d + tail);
    var n := |written|;
    assert s[n..] == behind && s[n + 1..] == d + tail;
    assert s[n + 0..] == behind && s[n + 0 + 1..] == d + tail && s[n + 1 + 0..] == d + tail;
  }

  lemma AtIsQuiet(s: Text)
    ensures Quiet([AT] + s) && Still([AT] + s)
  {
  }

  lemma StillBefore(d: Text, tail: Text)
    requires d != [] && Still(d)
    ensures Still(d + tail)
  {
    assert (d + tail)[0] == d[0];
  }
}
