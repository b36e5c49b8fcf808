/**
 * Named addresses and address lists: what the formatter of `src/address.ts`
 * writes comes back through its parser, for exactly the display names a header
 * can carry.
 */
module AddressLists {
  import opened Common
  import opened Strings
  import opened AddressErrors
  import opened AddressGrammar
  import opened Address
  import opened AddressReading
  import opened AddressRoundTrip
  import Base64
  import EncodedWord
  import Idna
  import Utf8

  // ----------------------------------------------------------------- phrases

  /** Atoms with single spaces or tabs between them. */
  predicate PhraseText(p: Text) {
    && p != [] && IsAtomChar(p[0]) && IsAtomChar(p[|p| - 1])
    && (forall c | c in p :: IsAtomChar(c) || IsWhite(c))
    && (forall i | 0 <= i < |p| - 1 :: !IsWhite(p[i]) || !IsWhite(p[i + 1]))
  }

  /** What the parser collects from such a text: every tab becomes a space. */
  function Blanked(p: Text): (r: Text)
    ensures |r| == |p|
    ensures forall i | 0 <= i < |p| :: r[i] == if IsWhite(p[i]) then SPACE else p[i]
  {
    seq(|p|, i requires 0 <= i < |p| => if IsWhite(p[i]) then SPACE else p[i])
  }

  lemma PhraseChars(p: Text, n: nat)
    requires PhraseText(p)
    ensures p != [] && IsAtomChar(p[0])
    ensures n < |p| ==> IsAtomChar(p[n]) || IsWhite(p[n])
  {
    hide IsAtomChar, IsWhite;
    if n < |p| { assert p[n] in p; }
  }

  lemma PhraseSplit(p: Text)
    requires PhraseText(p)
    ensures var n := AtomSize(p);
      && n > 0 && IsAtom(p[..n])
      && (n < |p| ==> IsWhite(p[n]) && n + 1 < |p| && PhraseText(p[n + 1..]))
  {
    hide PhraseText, IsAtomChar, IsAtom, IsWhite, AtomSize;
    var n := AtomSize(p);
    PhraseChars(p, n);
    AtomPrefix(p);
    if n < |p| { PhraseTail(p, n); }
  }

  lemma AtomPrefix(p: Text)
    requires p != [] && IsAtomChar(p[0])
    ensures AtomSize(p) > 0 && IsAtom(p[..AtomSize(p)])
  {
    hide IsAtomChar;
  }

  lemma PhraseTail(p: Text, n: nat)
    requires PhraseText(p) && n < |p| && IsWhite(p[n])
    ensures n + 1 < |p| && PhraseText(p[n + 1..])
  {
    hide IsAtomChar;
    AtomIsNotWhite(p[|p| - 1]);
    var rest := p[n + 1..];
    assert p[n + 1] in p;
    assert !IsWhite(p[n]) || !IsWhite(p[n + 1]);
    assert rest[|rest| - 1] == p[|p| - 1] && rest[0] == p[n + 1];
    forall i | 0 <= i < |rest| - 1 ensures !IsWhite(rest[i]) || !IsWhite(rest[i + 1]) {
      assert rest[i] == p[n + 1 + i] && rest[i + 1] == p[n + 1 + i + 1];
    }
    assert forall c | c in rest :: c in p;
  }

  lemma AtomIsNotWhite(c: CodePoint)
    ensures IsAtomChar(c) ==> !IsWhite(c)
  {
  }

  /** What stands behind a display name: a space and an angle bracket. */
  predicate Angle(s: Text) { s != [] && s[0] == LESS }

  lemma AngleIsStill(s: Text)
    requires Angle(s)
    ensures Still(s) && EndsPhrase(s) && SkipCfws(s) == Parsed(false, 0) && SkipCfws([SPACE] + s) == Parsed(true, 1)
    ensures ([SPACE] + s)[1..] == s && s[0..] == s
  {
    NothingToSkip(s);
    SkipOneBlank(SPACE, s);
  }

  lemma PhraseEnds(angle: Text, output: Text)
    requires Angle(angle)
    ensures Phrase([SPACE] + angle, output, false) == Parsed(output, 1)
  {
    hide SkipCfws;
    AngleIsStill(angle);
  }

  /** One word of a phrase, at once or behind one blank. */
  lemma PhraseStep(lead: Text, a: Text, rest: Text, output: Text)
    requires IsAtom(a) && (rest == [] || !IsAtomChar(rest[0]))
    requires lead == [] || (|lead| == 1 && IsWhite(lead[0]))
    ensures var space := if lead != [] && output != [] then [SPACE] else [];
      Phrase(lead + a + rest, output, false) == Longer(|lead| + |a|, Phrase(rest, output + space + a, false))
  {
    hide SkipCfws, IsAtomChar, AtomSize, Atom;
    var s, inner := lead + a + rest, a + rest;
    assert s == lead + inner;
    assert a[0] in a && inner[0] == a[0];
    AtomIsStill(a[0]);
    NothingToSkip(inner);
    if lead == [] {
      assert s == inner && s[0..] == s;
    } else {
      SkipOneBlank(lead[0], inner);
      assert s[1..] == inner && lead == [lead[0]];
    }
    AtomRead(a, rest);
    assert s[|lead|..] == inner && s[|lead| + |a|..] == rest;
  }

  lemma BlankedSplit(p: Text, n: nat)
    requires n < |p| && IsAtom(p[..n]) && IsWhite(p[n])
    ensures Blanked(p) == p[..n] + [SPACE] + Blanked(p[n + 1..])
    ensures p == p[..n] + [p[n]] + p[n + 1..]
  {
    hide IsAtomChar;
    AtomStays(p[..n]);
    var b := Blanked(p);
    forall i | 0 <= i < n ensures b[i] == p[..n][i] {
      assert p[..n][i] == Blanked(p[..n])[i];
    }
  }

  /** The space a phrase puts before its next word. */
  function Gap(lead: Text): Text { if lead == [] then [] else [SPACE] }

  predicate IsLead(lead: Text, output: Text) {
    lead == [] || (|lead| == 1 && IsWhite(lead[0]) && output != [])
  }

  /** The last word of a phrase, and the angle bracket behind it. */
  lemma ReadLastWord(lead: Text, a: Text, angle: Text, output: Text)
    requires IsAtom(a) && Angle(angle) && IsLead(lead, output)
    ensures Phrase(lead + a + ([SPACE] + angle), output, false) == Parsed(output + Gap(lead) + a, |lead| + |a| + 1)
  {
    hide Phrase, IsAtomChar, IsAtom, Angle;
    BlankIsNoAtom();
    PhraseStep(lead, a, [SPACE] + angle, output);
    PhraseEnds(angle, output + Gap(lead) + a);
  }

  /** A word of a phrase that another one follows. */
  lemma ReadFirstWord(lead: Text, p: Text, n: nat, behind: Text, output: Text)
    requires n < |p| && IsAtom(p[..n]) && IsWhite(p[n]) && IsLead(lead, output)
    ensures Phrase(lead + p + behind, output, false)
         == Longer(|lead| + n, Phrase([p[n]] + p[n + 1..] + behind, output + Gap(lead) + p[..n], false))
  {
    hide Phrase, IsAtomChar, IsAtom;
    WhiteIsNoAtom(p[n]);
    var next := [p[n]] + p[n + 1..] + behind;
    PhraseStep(lead, p[..n], next, output);
    assert p == p[..n] + [p[n]] + p[n + 1..];
    assert lead + p + behind == lead + p[..n] + next;
  }

  lemma {:induction false} ReadPhrase(lead: Text, p: Text, angle: Text, output: Text)
    requires PhraseText(p) && Angle(angle) && IsLead(lead, output)
    ensures Phrase(lead + p + ([SPACE] + angle), output, false)
         == Parsed(output + Gap(lead) + Blanked(p), |lead| + |p| + 1)
    decreases |p|
  {
    hide Phrase, IsAtomChar, PhraseText, AtomSize, IsAtom, Blanked, Angle;
    var n := AtomSize(p);
    PhraseSplit(p);
    AtomStays(p[..n]);
    if n == |p| {
      assert p[..n] == p;
      ReadLastWord(lead, p, angle, output);
    } else {
      var collected := output + Gap(lead) + p[..n];
      BlankedSplit(p, n);
      ReadFirstWord(lead, p, n, [SPACE] + angle, output);
      ReadPhrase([p[n]], p[n + 1..], angle, collected);
      Collected(output + Gap(lead), p[..n], Blanked(p[n + 1..]));
    }
  }

  lemma Collected(x: Text, a: Text, b: Text)
    ensures x + (a + [SPACE] + b) == x + a + [SPACE] + b
  {
  }

  lemma AtomStays(a: Text)
    requires IsAtom(a)
    ensures Blanked(a) == a && a != []
  {
    forall i | 0 <= i < |a| ensures !IsWhite(a[i]) {
      assert a[i] in a;
      AtomIsNotWhite(a[i]);
    }
  }

  lemma BlankIsNoAtom()
    ensures !IsAtomChar(SPACE) && !IsAtomChar(TAB)
  {
  }

  // ---------------------------------------------------------- display names

  /** The text the parser collects from a written display name. */
  function Raw(name: Text): Text
    requires name != []
  {
    if !IsAscii(name) then EncodedWord.Encode(name)
    else if NeedsNameQuoting(name) then name
    else Blanked(name)
  }

  /** Whether a display name is what its written form decodes to. */
  predicate NameArrives(env: Platform, name: Text)
    requires name != []
  {
    Shown(env, Raw(name)) == Some(name)
  }

  /** A display name that is written as a quoted string. */
  predicate IsQuoted(name: Text)
    requires name != []
  {
    IsAscii(name) && NeedsNameQuoting(name)
  }

  lemma UnquotedIsPhrase(name: Text)
    requires name != [] && IsAscii(name) && !NeedsNameQuoting(name) && !Forbidden(name)
    ensures PhraseText(name)
  {
    hide IsAtext;
    forall c | c in name ensures IsAtomChar(c) || IsWhite(c) {
      assert !((c < 0x20 && c != TAB) || 0x7f <= c <= 0x9f);
      PrintableIsAtext(c);
    }
    assert name[0] in name && name[|name| - 1] in name;
  }

  lemma PrintableIsAtext(c: CodePoint)
    requires 0x20 <= c < 0x7f || c == TAB
    ensures IsAtext(c) || IsSpecial(c) || IsWhite(c)
  {
  }

  lemma PayloadIsAtom(c: CodePoint)
    requires Base64.IsSymbol(c) || c == Base64.PAD
    ensures IsAtomChar(c)
  {
  }

  lemma OpeningIsAtom()
    ensures IsAtom(EncodedWord.OPENING) && IsAtom(EncodedWord.CLOSING)
  {
  }

  lemma WordIsAtom(chunk: Text)
    ensures IsAtom(EncodedWord.EncodeWord(chunk))
  {
    hide IsAtomChar, EncodedWord.OPENING, EncodedWord.CLOSING, Base64.Encode, Base64.IsSymbol, Utf8.Encode;
    OpeningIsAtom();
    var octets := Utf8.Encode(chunk);
    Base64.EncodeSymbols(octets);
    forall c | c in Base64.Encode(octets) ensures IsAtomChar(c) { PayloadIsAtom(c); }
  }

  lemma AtomIsPhrase(a: Text)
    requires IsAtom(a)
    ensures PhraseText(a)
  {
    hide IsAtomChar;
    assert a[0] in a && a[|a| - 1] in a;
    forall i | 0 <= i < |a| ensures !IsWhite(a[i]) {
      assert a[i] in a;
      AtomIsNotWhite(a[i]);
    }
  }

  lemma PhraseGrows(a: Text, p: Text)
    requires IsAtom(a) && PhraseText(p)
    ensures PhraseText(a + [SPACE] + p)
    ensures Blanked(a + [SPACE] + p) == a + [SPACE] + Blanked(p)
  {
    hide IsAtomChar;
    var s := a + [SPACE] + p;
    AtomStays(a);
    forall i | 0 <= i < |a| ensures !IsWhite(s[i]) && s[i] == a[i] {
      assert a[i] in a;
      AtomIsNotWhite(a[i]);
    }
    AtomIsNotWhite(p[0]);
    assert a[0] in a && s[|a|] == SPACE && s[|a| + 1] == p[0] && s[|s| - 1] == p[|p| - 1];
    forall i | 0 <= i < |s| - 1 ensures !IsWhite(s[i]) || !IsWhite(s[i + 1]) {
      if i > |a| { assert s[i] == p[i - |a| - 1] && s[i + 1] == p[i - |a| - 1 + 1]; }
    }
  }

  lemma {:induction false} WordsArePhrase(chunks: seq<Text>)
    requires chunks != []
    ensures PhraseText(EncodedWord.EncodeWords(chunks))
    ensures Blanked(EncodedWord.EncodeWords(chunks)) == EncodedWord.EncodeWords(chunks)
    decreases |chunks|
  {
    hide PhraseText, IsAtom, EncodedWord.EncodeWord;
    WordIsAtom(chunks[0]);
    if |chunks| == 1 {
      AtomIsPhrase(EncodedWord.EncodeWord(chunks[0]));
      AtomStays(EncodedWord.EncodeWord(chunks[0]));
    } else {
      WordsArePhrase(chunks[1..]);
      PhraseGrows(EncodedWord.EncodeWord(chunks[0]), EncodedWord.EncodeWords(chunks[1..]));
    }
  }

  lemma FlatNothing()
    ensures Flat([]) == []
  {
  }

  lemma EncodedIsPhrase(name: Text)
    requires name != []
    ensures PhraseText(EncodedWord.Encode(name)) && Blanked(EncodedWord.Encode(name)) == EncodedWord.Encode(name)
  {
    hide PhraseText, EncodedWord.EncodeWords, EncodedWord.Chunks;
    EncodedWord.WordsAreShort(name);
    FlatNothing();
    WordsArePhrase(EncodedWord.Chunks([], 0, name));
  }

  /** Without quoting, a display name is written as a phrase, and read as its raw text. */
  lemma FormattedIsPhrase(name: Text)
    requires name != [] && !IsQuoted(name) && !Forbidden(name)
    ensures PhraseText(FormatName(name)) && Blanked(FormatName(name)) == Raw(name)
  {
    hide PhraseText, EncodedWord.Encode, NeedsNameQuoting, IsAscii, Forbidden;
    if IsAscii(name) { UnquotedIsPhrase(name); } else { EncodedIsPhrase(name); }
  }

  // --------------------------------------------------------- named addresses

  /** The address in angle brackets. */
  function Bracketed(m: Mailbox): Text { [LESS] + MailboxToString(m) + [GREATER] }

  lemma ReadAngle(env: Platform, m: Mailbox, tail: Text)
    requires Idna.Sane(env.tables) && Valid(m) && Readable(m.localPart)
    ensures AngleAddr(env, Bracketed(m) + tail) == Parsed(Bare(m), |Bracketed(m)|)
  {
    hide Idna.Sane, Valid, Readable, IsDomain, PathSafe, Serialized, MailboxToString, ToMailbox, NormalizedDomain,
      SkipCfws, AddrSpec, Quiet, Still, Writes;
    ValidFacts(m);
    FormattedWrites(m);
    var inner, behind := MailboxToString(m), [GREATER] + tail;
    var s := Bracketed(m) + tail;
    GreaterIsQuiet(tail);
    var written := Serialized(m.localPart);
    var text := ReadAddrSpec(env, written, m.localPart, m.domain, behind);
    ValidToMailbox(env, m, text);
    AddressStarts(written, m.localPart, [AT] + m.domain + behind);
    assert inner + behind == written + ([AT] + m.domain + behind);
    assert s == [LESS] + (inner + behind);
    LessIsStill(inner + behind);
    NothingToSkip(s);
    NothingToSkip(inner + behind);
    NothingToSkip(behind);
    assert s[0..] == s && s[1..] == inner + behind && s[1 + |inner|..] == behind;
  }

  lemma GreaterIsQuiet(tail: Text)
    ensures Quiet([GREATER] + tail) && Still([GREATER] + tail)
  {
  }

  lemma LessIsStill(tail: Text)
    ensures Still([LESS] + tail) && Angle([LESS] + tail)
  {
  }

  /** A name in front of an angle bracket is no local part of an `addr-spec`. */
  lemma NoAddrSpec(env: Platform, s: Text, value: Text, n: nat, c: CodePoint, next: Text)
    requires LocalSegment(s) == Parsed(value, n) && n <= |s| && s[n..] == [c] + next
    requires IsWhite(c) && Still(next) && next != [] && next[0] != DOT && next[0] != AT
    ensures BareAddress(env, s) == Parsed(None, 0)
  {
    hide LocalSegment, SkipCfws, Still;
    SkipOneBlank(c, next);
    var behind := s[n..];
    assert behind[1..] == next;
    assert s[n + 1..] == behind[1..];
  }

  /** What the reading of the phrase and the address gives. */
  function Named(env: Platform, m: Mailbox, raw: Text, size: nat): Parsed<Entity> {
    var name := FinalizeDisplayName(env, raw);
    if name.Err? then Failed(name.error) else Parsed(One(m.(displayName := name.value)), size)
  }

  lemma NamedStep(env: Platform, s: Text, raw: Text, n: nat, m: Mailbox, k: nat)
    requires Phrase(s, [], false) == Parsed(raw, n) && n <= |s|
    requires SkipCfws(s[n..]) == Parsed(false, 0) && Starts(s[n..], LESS) && AngleAddr(env, s[n..]) == Parsed(m, k)
    ensures NamedEntity(env, s) == Named(env, m, raw, n + k)
  {
    hide Phrase, AngleAddr, SkipCfws, FinalizeDisplayName;
    assert n + 0 == n;
  }

  lemma BehindName(display: Text, angle: Text)
    ensures (display + ([SPACE] + angle))[|display| + 1..] == angle
  {
    assert display + ([SPACE] + angle) == (display + [SPACE]) + angle;
  }

  lemma ReadNamed(env: Platform, m: Mailbox, s: Text, n: nat, raw: Text, tail: Text)
    requires Idna.Sane(env.tables) && Valid(m) && Readable(m.localPart)
    requires n <= |s| && s[n..] == Bracketed(m) + tail
    requires Phrase(s, [], false) == Parsed(raw, n)
    ensures NamedEntity(env, s) == Named(env, Bare(m), raw, n + |Bracketed(m)|)
  {
    hide *;
    BracketIsAngle(m, tail);
    AngleStarts(s[n..]);
    ReadAngle(env, m, tail);
    NamedStep(env, s, raw, n, Bare(m), |Bracketed(m)|);
  }

  lemma AngleStarts(s: Text)
    requires Angle(s)
    ensures Starts(s, LESS) && SkipCfws(s) == Parsed(false, 0)
  {
    hide SkipCfws, Still;
    AngleIsStill(s);
  }

  /** The written form of a named mailbox. */
  function Display(m: Mailbox, name: Text): Text
    requires name != []
  {
    FormatName(name) + ([SPACE] + Bracketed(m))
  }

  lemma EntityOf(env: Platform, s: Text)
    requires Still(s) && s != [] && s[0] != LESS && s[0] != AT && BareAddress(env, s) == Parsed(None, 0)
    ensures ParseEntity(env, s) == NamedEntity(env, s)
  {
    hide SkipCfws, BareAddress, NamedEntity;
    NothingToSkip(s);
    assert s[0..] == s;
  }

  /** The first word of a phrase. */
  lemma PhraseStart(s: Text, word: Text, n: nat)
    requires s != [] && SkipCfws(s) == Parsed(false, 0) && !EndsPhrase(s)
    requires PhraseWord(s, []) == Parsed(word, n) && n <= |s|
    ensures Phrase(s, [], false) == Longer(n, Phrase(s[n..], word, false))
  {
    hide SkipCfws, PhraseWord;
    assert s[0..] == s;
    assert [] + [] + word == word;
  }

  lemma QuotedPhrase(name: Text, angle: Text)
    requires name != [] && Plain(name) && Angle(angle)
    ensures var s := Quote(name) + ([SPACE] + angle);
      && LocalSegment(s) == Parsed(name, |Quote(name)|) && s[|Quote(name)|..] == [SPACE] + angle
      && Phrase(s, [], false) == Parsed(name, |Quote(name)| + 1)
      && Still(s) && s[0] == DQUOTE
  {
    hide SkipCfws, QuotedString, Quote, Plain, Phrase, Angle;
    var s := Quote(name) + ([SPACE] + angle);
    QuoteRead(name, [SPACE] + angle);
    assert s[0] == DQUOTE;
    NothingToSkip(s);
    PhraseStart(s, name, |Quote(name)|);
    PhraseEnds(angle, name);
  }

  lemma UnquotedPhrase(env: Platform, p: Text, angle: Text)
    requires PhraseText(p) && Angle(angle)
    ensures var s := p + ([SPACE] + angle);
      && Phrase(s, [], false) == Parsed(Blanked(p), |p| + 1)
      && BareAddress(env, s) == Parsed(None, 0)
      && Still(s) && s[0] != LESS && s[0] != AT
  {
    hide Phrase, IsAtomChar, PhraseText, Blanked, BareAddress, Still, Angle;
    ReadPhrase([], p, angle, []);
    assert [] + p + ([SPACE] + angle) == p + ([SPACE] + angle);
    assert [] + [] + Blanked(p) == Blanked(p);
    PhraseStarts(p, [SPACE] + angle);
    PhraseIsNoAddress(env, p, angle);
  }

  lemma PhraseIsNoAddress(env: Platform, p: Text, angle: Text)
    requires PhraseText(p) && Angle(angle)
    ensures BareAddress(env, p + ([SPACE] + angle)) == Parsed(None, 0)
  {
    hide IsAtomChar, PhraseText, AtomSize, IsAtom, BareAddress, LocalSegment, Still, SkipCfws, EndsPhrase;
    var s, n := p + ([SPACE] + angle), AtomSize(p);
    PhraseSplit(p);
    AngleIsStill(angle);
    BlankIsNoAtom();
    if n == |p| {
      assert p[..n] == p;
      SegmentRead(p, [SPACE] + angle);
      NoAddrSpec(env, s, p, n, SPACE, angle);
    } else {
      var next := p[n + 1..] + ([SPACE] + angle);
      Cut(p, n, [SPACE] + angle);
      WhiteIsNoAtom(p[n]);
      SegmentRead(p[..n], [p[n]] + next);
      PhraseStarts(p[n + 1..], [SPACE] + angle);
      NoAddrSpec(env, s, p[..n], n, p[n], next);
    }
  }

  lemma Cut(p: Text, n: nat, behind: Text)
    requires n < |p|
    ensures p + behind == p[..n] + ([p[n]] + (p[n + 1..] + behind))
  {
  }

  lemma WhiteIsNoAtom(c: CodePoint)
    requires IsWhite(c)
    ensures !IsAtomChar(c)
  {
  }

  lemma PhraseStarts(p: Text, behind: Text)
    requires PhraseText(p)
    ensures var s := p + behind; Opens(s) && s[0] !in {LESS, AT, DOT}
  {
    hide IsAtomChar;
    AtomIsStill(p[0]);
    assert (p + behind)[0] == p[0];
  }

  /** A named mailbox comes back with whatever its raw display name decodes to. */
  lemma ReadDisplay(env: Platform, m: Mailbox, name: Text, tail: Text)
    requires Idna.Sane(env.tables) && Valid(m) && Readable(m.localPart) && name != [] && !Forbidden(name)
    ensures ParseEntity(env, Display(m, name) + tail) == Named(env, Bare(m), Raw(name), |Display(m, name)|)
    ensures Opens(Display(m, name) + tail)
  {
    hide Idna.Sane, Valid, Readable, Phrase, NamedEntity, ParseEntity, BareAddress, PhraseText, FormatName, Raw,
      Blanked,
      Bracketed, Quote, Named, Forbidden, Still, LocalSegment, IsQuoted;
    var angle := Bracketed(m) + tail;
    BracketIsAngle(m, tail);
    var s := FormatName(name) + ([SPACE] + angle);
    assert Display(m, name) + tail == s;
    if IsQuoted(name) {
      QuotedForm(name);
      ForbiddenIsPlain(name);
      QuotedPhrase(name, angle);
      AngleIsStill(angle);
      NoAddrSpec(env, s, name, |Quote(name)|, SPACE, angle);
    } else {
      FormattedIsPhrase(name);
      UnquotedPhrase(env, FormatName(name), angle);
      PhraseStarts(FormatName(name), [SPACE] + angle);
    }
    EntityOf(env, s);
    BehindName(FormatName(name), angle);
    ReadNamed(env, m, s, |FormatName(name)| + 1, Raw(name), tail);
  }

  lemma QuotedForm(name: Text)
    requires name != [] && IsQuoted(name)
    ensures FormatName(name) == Quote(name) && Raw(name) == name
  {
    hide NeedsNameQuoting;
  }

  lemma ForbiddenIsPlain(name: Text)
    requires !Forbidden(name)
    ensures Plain(name)
  {
    forall c | c in name ensures !IsControl(c) {
      assert !((c < 0x20 && c != TAB) || 0x7f <= c <= 0x9f);
    }
  }

  lemma BracketIsAngle(m: Mailbox, tail: Text)
    ensures Angle(Bracketed(m) + tail)
  {
  }

  // -------------------------------------------------------------- round trips

  /** Whether a mailbox goes through a header unharmed, as far as its display name is concerned. */
  predicate Travels(env: Platform, m: Mailbox)
    requires m.displayName.Some? ==> m.displayName.value != []
  {
    m.displayName.Some? ==> NameArrives(env, m.displayName.value)
  }

  /** The display name a reader settles on is the one written, or it is another one, or none. */
  lemma NameSettles(env: Platform, m: Mailbox, size: nat)
    requires Valid(m) && m.displayName.Some? && m.displayName.value != [] && Raw(m.displayName.value) != []
    ensures Named(env, Bare(m), Raw(m.displayName.value), size) == Parsed(One(m), size) <==> Travels(env, m)
    ensures var r := Named(env, Bare(m), Raw(m.displayName.value), size);
      r.Parsed? ==> r.size == size && r.value.One? && (r.value.mailbox == m <==> Travels(env, m))
  {
    hide Raw, Shown, Forbidden, WellFormed, IsDomain, MakeMailbox;
  }

  lemma RawIsSome(name: Text)
    requires name != []
    ensures Raw(name) != []
  {
    hide EncodedWord.Encode, PhraseText, NeedsNameQuoting;
    if !IsAscii(name) {
      EncodedIsPhrase(name);
      PhraseIsSome(EncodedWord.Encode(name));
    }
  }

  lemma PhraseIsSome(p: Text)
    requires PhraseText(p)
    ensures p != []
  {
  }

  lemma ValidName(m: Mailbox)
    requires Valid(m)
    ensures m.displayName.Some? ==> m.displayName.value != [] && !Forbidden(m.displayName.value)
  {
    hide WellFormed, IsDomain, MakeMailbox, Forbidden;
  }

  /** A valid mailbox can be written. */
  lemma Written(m: Mailbox)
    requires Valid(m)
    ensures m.displayName.Some? ==> m.displayName.value != []
    ensures FormatAddress(m)
         == Ok(if m.displayName.None? then MailboxToString(m) else Display(m, m.displayName.value))
  {
    hide Valid, FormatName, MailboxToString, Forbidden;
    ValidName(m);
    if m.displayName.Some? {
      var name := FormatName(m.displayName.value);
      assert name + [SPACE, LESS] + MailboxToString(m) + [GREATER] == name + ([SPACE] + Bracketed(m));
    }
  }

  /** Whether reading `s` gives this mailbox, after `n` characters. */
  predicate Reads(env: Platform, s: Text, m: Mailbox, n: nat) { ParseEntity(env, s) == Parsed(One(m), n) }

  /** The start of an entry: nothing to skip, and no separator. */
  predicate Opens(s: Text) { Still(s) && s != [] && s[0] != COMMA && s[0] != SEMICOLON }

  /** One entry as it is written, in front of the end or of a separator. */
  lemma ReadEntry(env: Platform, m: Mailbox, tail: Text)
    requires Idna.Sane(env.tables) && Valid(m) && Readable(m.localPart) && Follows(tail)
    ensures FormatAddress(m).Ok? && (m.displayName.Some? ==> m.displayName.value != [])
    ensures var w := FormatAddress(m).value;
      && Opens(w + tail)
      && (Reads(env, w + tail, m, |w|) <==> Travels(env, m))
      && (ParseEntity(env, w + tail).Parsed? ==>
            exists m' | (m' == m <==> Travels(env, m)) :: Reads(env, w + tail, m', |w|))
  {
    hide Idna.Sane, Valid, Readable, ParseEntity, MailboxToString, FormatAddress, Named, Travels, Follows, Still,
      Forbidden, Display, Raw, Serialized, Writes;
    Written(m);
    ValidName(m);
    var w := FormatAddress(m).value;
    if m.displayName.None? {
      FormattedWrites(m);
      ReadBare(env, Serialized(m.localPart), m, tail);
      AddressStarts(Serialized(m.localPart), m.localPart, [AT] + m.domain + tail);
      assert w + tail == Serialized(m.localPart) + ([AT] + m.domain + tail);
      AddressIsNoComma(m, tail);
      NoNameTravels(env, m);
      assert Bare(m) == m;
      assert Reads(env, w + tail, m, |w|);
    } else {
      var name := m.displayName.value;
      ReadDisplay(env, m, name, tail);
      RawIsSome(name);
      NameSettles(env, m, |w|);
      var r := Named(env, Bare(m), Raw(name), |w|);
      if r.Parsed? { assert Reads(env, w + tail, r.value.mailbox, |w|); }
    }
  }

  lemma NoNameTravels(env: Platform, m: Mailbox)
    requires m.displayName.None?
    ensures Travels(env, m)
  {
  }

  lemma AddressIsNoComma(m: Mailbox, tail: Text)
    requires Valid(m) && Readable(m.localPart)
    ensures Opens(MailboxToString(m) + tail)
  {
    hide Valid, Readable, IsDomain, PathSafe, Serialized, MailboxToString, IsAtomChar;
    ValidFacts(m);
    AtIsQuiet([]);
    ReadLocal(m.localPart, [AT] + []);
    var s := MailboxToString(m) + tail;
    assert s[0] == Serialized(m.localPart)[0];
    if IsAtomChar(s[0]) { AtomIsStill(s[0]); }
  }

  /**
   * One mailbox, written with its display name and parsed again, is the same
   * mailbox if and only if its display name arrives.
   */
  lemma NamedRoundTrip(env: Platform, m: Mailbox)
    requires Idna.Sane(env.tables) && Valid(m) && Readable(m.localPart)
    ensures FormatAddress(m).Ok? && (m.displayName.Some? ==> m.displayName.value != [])
    ensures Parse(env, FormatAddress(m).value) == Ok(m) <==> Travels(env, m)
  {
    hide Idna.Sane, Valid, Readable, ParseEntity, FormatAddress, Travels, SkipCfws, Still;
    ReadEntry(env, m, []);
    var w := FormatAddress(m).value;
    assert w + [] == w && w[|w|..] == [];
    StillNothing();
    NothingToSkip([]);
    if ParseEntity(env, w).Parsed? {
      var m' :| (m' == m <==> Travels(env, m)) && Reads(env, w, m', |w|);
      assert Parse(env, w) == Ok(m');
    }
  }

  /** An entry with nothing behind it. */
  lemma LastEntry(env: Platform, s: Text, m: Mailbox)
    requires Reads(env, s, m, |s|)
    ensures ParseEntries(env, s) == Ok([m])
  {
    hide ParseEntries, ParseEntity, SkipCfws, Still, Separator;
    StillNothing();
    NothingToSkip([]);
    assert s[|s|..] == [];
    assert ListEntry(env, s) == Parsed(([m], false), |s|);
    EntriesStep(env, s);
  }

  lemma EntriesStep(env: Platform, s: Text)
    ensures var entry := ListEntry(env, s);
      && (entry.Failed? ==> ParseEntries(env, s) == Err(entry.kind))
      && (entry.Parsed? && !entry.value.1 ==> ParseEntries(env, s) == Ok(entry.value.0))
      && (entry.Parsed? && entry.value.1 ==>
            ParseEntries(env, s) == AppendedTo(entry.value.0, ParseEntries(env, s[entry.size..])))
  {
    hide ListEntry, AppendedTo;
  }

  /** The comma and the space between two entries. */
  lemma CommaSeparates(rest: Text)
    requires Still(rest) && rest != [] && rest[0] != COMMA
    ensures Separator([COMMA, SPACE] + rest, false) == Parsed((), 2) && Still([COMMA, SPACE] + rest)
  {
    hide SkipCfws;
    var s := [COMMA, SPACE] + rest;
    SkipOneBlank(SPACE, rest);
    assert s[1..] == [SPACE] + rest;
    assert s[1 + 1..] == rest;
  }

  lemma EntryBeforeComma(env: Platform, s: Text, m: Mailbox, n: nat, rest: Text)
    requires Reads(env, s, m, n) && n <= |s| && s[n..] == [COMMA, SPACE] + rest
    requires Still(rest) && rest != [] && rest[0] != COMMA
    ensures |rest| < |s| && ParseEntries(env, s) == AppendedTo([m], ParseEntries(env, rest))
  {
    hide ParseEntries, ParseEntity, SkipCfws, Still, Separator, AppendedTo;
    CommaSeparates(rest);
    NothingToSkip(s[n..]);
    assert n < |s| by { assert |s[n..]| > 0; }
    assert ListEntry(env, s) == Parsed(([m], true), n + 2);
    EntriesStep(env, s);
    BehindComma(s, n, rest);
  }

  lemma BehindComma(s: Text, n: nat, rest: Text)
    requires n <= |s| && s[n..] == [COMMA, SPACE] + rest
    ensures n + 2 <= |s| && |rest| < |s| && s[n + 2..] == rest
  {
    assert s[n + 2..] == s[n..][2..];
  }

  predicate Writable(ms: seq<Mailbox>) { forall m | m in ms :: Valid(m) && Readable(m.localPart) }

  predicate AllTravel(env: Platform, ms: seq<Mailbox>) {
    forall m | m in ms :: (m.displayName.Some? ==> m.displayName.value != []) && Travels(env, m)
  }

  lemma {:induction false} EntriesRoundTrip(env: Platform, ms: seq<Mailbox>)
    requires Idna.Sane(env.tables) && Writable(ms) && ms != []
    ensures FormatAddressList(ms).Ok?
    ensures var s := FormatAddressList(ms).value;
      && Opens(s)
      && (ParseEntries(env, s) == Ok(ms) <==> AllTravel(env, ms))
    decreases |ms|
  {
    hide Idna.Sane, Valid, Readable, ParseEntity, ParseEntries, FormatAddress, Travels, Still, Reads;
    var m, others := ms[0], ms[1..];
    assert m in ms && forall x | x in others :: x in ms;
    var tail: Text := [];
    if others == [] {
    } else {
      EntriesRoundTrip(env, others);
      tail := [COMMA, SPACE] + FormatAddressList(others).value;
    }
    ReadEntry(env, m, tail);
    var w := FormatAddress(m).value;
    var s := w + tail;
    FormatFirst(ms);
    assert FormatAddressList(ms) == Ok(s) by { if others == [] { assert w + [] == w; } }
    AllTravelSplit(env, ms);
    if ParseEntity(env, s).Failed? {
      NoEntry(env, s, m, |w|);
    } else {
      var m' :| (m' == m <==> Travels(env, m)) && Reads(env, s, m', |w|);
      assert s[|w|..] == tail;
      if others == [] {
        LastEntry(env, s, m');
        assert ms == [m];
        assert [m'][0] == m' && ms[0] == m;
      } else {
        EntryBeforeComma(env, s, m', |w|, FormatAddressList(others).value);
        AppendedIs(m', ParseEntries(env, FormatAddressList(others).value), ms);
      }
    }
  }

  lemma FormatFirst(ms: seq<Mailbox>)
    requires ms != [] && FormatAddress(ms[0]).Ok?
    ensures |ms| == 1 ==> FormatAddressList(ms) == FormatAddress(ms[0])
    ensures |ms| > 1 && FormatAddressList(ms[1..]).Ok? ==>
      FormatAddressList(ms) == Ok(FormatAddress(ms[0]).value + ([COMMA, SPACE] + FormatAddressList(ms[1..]).value))
  {
    hide FormatAddress;
    if |ms| > 1 && FormatAddressList(ms[1..]).Ok? {
      assert FormatAddress(ms[0]).value + [COMMA, SPACE] + FormatAddressList(ms[1..]).value
          == FormatAddress(ms[0]).value + ([COMMA, SPACE] + FormatAddressList(ms[1..]).value);
    }
  }

  lemma AllTravelSplit(env: Platform, ms: seq<Mailbox>)
    requires ms != [] && (ms[0].displayName.Some? ==> ms[0].displayName.value != [])
    ensures AllTravel(env, ms) <==> Travels(env, ms[0]) && AllTravel(env, ms[1..])
  {
    hide Travels;
    assert ms == [ms[0]] + ms[1..];
  }

  lemma NoEntry(env: Platform, s: Text, m: Mailbox, n: nat)
    requires ParseEntity(env, s).Failed?
    ensures ParseEntries(env, s).Err? && !Reads(env, s, m, n)
  {
    hide ParseEntity, SkipCfws, Separator;
  }

  lemma AppendedIs(m: Mailbox, rest: Result<seq<Mailbox>, Kind>, ms: seq<Mailbox>)
    requires ms != []
    ensures AppendedTo([m], rest) == Ok(ms) <==> m == ms[0] && rest == Ok(ms[1..])
  {
    if rest.Ok? {
      assert ([m] + rest.value)[1..] == rest.value && ([m] + rest.value)[0] == m;
      assert ms == [ms[0]] + ms[1..];
    }
  }

  /**
   * A list of mailboxes, written as one header value and parsed again, is the
   * same list if and only if every display name in it arrives.
   */
  lemma ListRoundTrip(env: Platform, ms: seq<Mailbox>)
    requires Idna.Sane(env.tables) && Writable(ms)
    ensures FormatAddressList(ms).Ok?
    ensures ParseList(env, FormatAddressList(ms).value) == Ok(ms) <==> AllTravel(env, ms)
  {
    hide Idna.Sane, Valid, Readable, ParseEntries, FormatAddress, Travels, Still, SkipCfws;
    if ms == [] {
      StillNothing();
      NothingToSkip([]);
    } else {
      EntriesRoundTrip(env, ms);
      var s := FormatAddressList(ms).value;
      NothingToSkip(s);
      assert s[0..] == s;
    }
  }

  // ------------------------------------------------ which display names arrive

  /** Beyond ASCII: no unpaired surrogate, and no encoded word that starts with U+FEFF. */
  lemma EncodedNameArrives(env: Platform, name: Text)
    requires name != [] && !IsAscii(name)
    ensures NameArrives(env, name)
      <==> WellFormed(name) && forall c | c in EncodedWord.Chunks([], 0, name) :: c != [] && c[0] != Utf8.BOM
  {
    hide EncodedWord.Decode, EncodedWord.Encode, EncodedWord.Chunks, WellFormed, Merge;
    EncodedWord.EncodeRoundTrip(env.charsets, name);
    EncodedWord.EncodeIsWellFormed(env.charsets, name);
    MergeWellFormed(Raw(name));
    MergeWellFormed(EncodedWord.Decode(env.charsets, Raw(name)).value);
  }

  /** In ASCII nothing is joined unless the decoder lets it happen. */
  lemma AsciiShown(env: Platform, raw: Text)
    requires IsAscii(raw) && EncodedWord.NeverLengthens(env.charsets)
    ensures !EncodedWord.Meets(raw) ==> Shown(env, raw) == Some(raw)
    ensures EncodedWord.Meets(raw) ==> Shown(env, raw).None? || |Shown(env, raw).value| < |raw|
  {
    hide EncodedWord.DecodeRest, EncodedWord.Meets, EncodedWord.NeverLengthens, Merge;
    MergeAscii(raw);
    EncodedWord.DecodeShrinks(env.charsets, raw, false);
    var decoded := EncodedWord.Decode(env.charsets, raw);
    if decoded.Some? { MergeShortens(decoded.value); }
  }

  /**
   * In ASCII: the name holds no encoded word the decoder would meet, and a tab
   * only when it is quoted. That is exact over a platform that never lengthens
   * what it decodes.
   */
  lemma AsciiNameArrives(env: Platform, name: Text)
    requires name != [] && IsAscii(name) && EncodedWord.NeverLengthens(env.charsets)
    ensures NameArrives(env, name) <==> !EncodedWord.Meets(name) && (IsQuoted(name) || TAB !in name)
  {
    hide Shown, EncodedWord.Meets, EncodedWord.NeverLengthens, NeedsNameQuoting;
    if IsQuoted(name) {
      AsciiShown(env, name);
    } else if TAB in name {
      TabIsLost(env, name);
    } else {
      assert forall i | 0 <= i < |name| :: name[i] in name && Blanked(name)[i] == name[i];
      assert Blanked(name) == name;
      AsciiShown(env, name);
    }
  }

  /** A tab inside an unquoted name never arrives; where nothing is decoded it turns into a space. */
  lemma TabIsLost(env: Platform, name: Text)
    requires name != [] && IsAscii(name) && !IsQuoted(name) && TAB in name
    requires EncodedWord.NeverLengthens(env.charsets)
    ensures !NameArrives(env, name)
    ensures Shown(env, Raw(name)) == Some(Blanked(name)) <==> !EncodedWord.Meets(Blanked(name))
  {
    hide NeedsNameQuoting, Shown, EncodedWord.Meets, EncodedWord.NeverLengthens;
    var raw := Blanked(name);
    assert forall k | 0 <= k < |name| :: name[k] in name;
    var i :| 0 <= i < |name| && name[i] == TAB;
    assert raw[i] == SPACE;
    AsciiShown(env, raw);
  }

  /** A name that spells an encoded word is written as it stands, and comes back decoded. */
  lemma WordNameIsLost(env: Platform) returns (name: Text)
    ensures name == Lit("=?UTF-8?Q?x?=") && !IsQuoted(name) && !Forbidden(name)
    ensures EncodedWord.NeverLengthens(env.charsets) ==> !NameArrives(env, name)
  {
    hide *;
    name := Lit("=?UTF-8?Q?x?=");
    SmallWordIsPlain(name);
    EncodedWord.SmallWord();
    if EncodedWord.NeverLengthens(env.charsets) { AsciiNameArrives(env, name); }
  }

  lemma SmallWordIsPlain(name: Text)
    requires name == Lit("=?UTF-8?Q?x?=")
    ensures name != [] && IsAscii(name) && !IsQuoted(name) && !Forbidden(name)
  {
    forall c | c in name ensures 0x21 <= c < 0x7f && !IsSpecial(c) {
      var i :| 0 <= i < |name| && name[i] == c;
    }
    PrintableIsPlain(name);
  }

  lemma PrintableIsPlain(name: Text)
    requires name != [] && forall c | c in name :: 0x21 <= c < 0x7f && !IsSpecial(c)
    ensures IsAscii(name) && !IsQuoted(name) && !Forbidden(name)
  {
    hide IsSpecial;
    forall i | 0 <= i < |name| ensures !IsWhite(name[i]) { assert name[i] in name; }
  }
}
