/**
 * The addresses `src/address.ts` parses, and what becomes of them when they are
 * written and parsed again.
 */
module AddressRoundTrip {
  import opened Common
  import opened Strings
  import opened AddressErrors
  import opened AddressGrammar
  import opened Address
  import opened AddressReading
  import Domain
  import EncodedWord
  import Idna
  import Utf8

  // ---------------------------------------------------------------- validity

  /** What every mailbox the parser returns satisfies. */
  predicate Valid(m: Mailbox) {
    && WellFormed(m.localPart) && IsDomain(m.domain)
    && MakeMailbox(m.localPart, m.domain).Ok?
    && (m.displayName.Some? ==> m.displayName.value != [] && !Forbidden(m.displayName.value))
  }

  predicate AllValid(ms: seq<Mailbox>) { forall m | m in ms :: Valid(m) }

  lemma ToMailboxIsValid(env: Platform, shape: Shape)
    requires Idna.Sane(env.tables) && ToMailbox(env, shape).Ok?
    ensures var m := ToMailbox(env, shape).value;
      && Valid(m) && m.displayName.None? && m.localPart == Whole(shape).localPart
      && NormalizedDomain(env, Whole(shape).domain) == Ok(m.domain)
  {
    hide Idna.Sane, Domain.NormalizeDomain, Domain.NormalizeDomainLiteral, Domain.IsNormal, WellFormed, PathSafe,
      Forbidden,
      Serialized, Domain.Octets, Merge;
    var text := Whole(shape).domain.text;
    if shape.domain.literal {
      Domain.LiteralChars(text);
      var d := [OPEN_BRACKET] + text + [CLOSE_BRACKET];
      assert d[1..|d| - 1] == text;
    } else {
      Domain.NormalizedIsNormal(env.tables, text);
    }
  }

  /** The `addr-spec` between the angle brackets. */
  lemma AngleInside(env: Platform, s: Text) returns (start: nat)
    requires AngleAddr(env, s).Parsed?
    ensures 0 < start <= |s| && AddrSpec(s[start..]).Parsed?
    ensures ToMailbox(env, AddrSpec(s[start..]).value) == Ok(AngleAddr(env, s).value)
  {
    hide SkipCfws, AddrSpec, ToMailbox;
    start := SkipCfws(s).size + 1 + SkipCfws(s[SkipCfws(s).size + 1..]).size;
  }

  lemma AngleAddrIsValid(env: Platform, s: Text)
    requires Idna.Sane(env.tables) && AngleAddr(env, s).Parsed?
    ensures Valid(AngleAddr(env, s).value) && AngleAddr(env, s).value.displayName.None?
  {
    hide Idna.Sane, AngleAddr, AddrSpec, ToMailbox, Valid;
    var start := AngleInside(env, s);
    ToMailboxIsValid(env, AddrSpec(s[start..]).value);
  }

  lemma BareAddressIsValid(env: Platform, s: Text)
    requires Idna.Sane(env.tables) && BareAddress(env, s).Parsed? && BareAddress(env, s).value.Some?
    ensures Valid(BareAddress(env, s).value.value)
  {
    hide Idna.Sane, SkipCfws, AddrSpec, ToMailbox, Valid;
    ToMailboxIsValid(env, AddrSpec(s).value);
  }

  lemma NameIsValid(env: Platform, raw: Text, m: Mailbox)
    requires FinalizeDisplayName(env, raw).Ok? && Valid(m)
    ensures Valid(m.(displayName := FinalizeDisplayName(env, raw).value))
  {
    hide WellFormed, IsDomain, MakeMailbox, Forbidden, Shown;
  }

  lemma NamedEntityIsValid(env: Platform, s: Text)
    requires Idna.Sane(env.tables) && NamedEntity(env, s).Parsed? && NamedEntity(env, s).value.One?
    ensures Valid(NamedEntity(env, s).value.mailbox)
  {
    hide Idna.Sane, SkipCfws, Phrase, AngleAddr, FinalizeDisplayName, Valid;
    var phrase := Phrase(s, [], false);
    var n := phrase.size + SkipCfws(s[phrase.size..]).size;
    AngleAddrIsValid(env, s[n..]);
    NameIsValid(env, phrase.value, AngleAddr(env, s[n..]).value);
  }

  lemma EntityIsValid(env: Platform, s: Text)
    requires Idna.Sane(env.tables) && ParseEntity(env, s).Parsed? && ParseEntity(env, s).value.One?
    ensures Valid(ParseEntity(env, s).value.mailbox)
  {
    hide Idna.Sane, SkipCfws, NamedEntity, BareAddress, AngleAddr, Valid;
    var rest := s[SkipCfws(s).size..];
    if Starts(rest, LESS) {
      AngleAddrIsValid(env, rest);
    } else if BareAddress(env, rest).value.Some? {
      BareAddressIsValid(env, rest);
    } else {
      NamedEntityIsValid(env, rest);
    }
  }

  lemma MailboxIsValid(env: Platform, s: Text)
    requires Idna.Sane(env.tables) && ParseMailbox(env, s).Parsed?
    ensures Valid(ParseMailbox(env, s).value)
  {
    hide Idna.Sane, ParseEntity, Valid;
    EntityIsValid(env, s);
  }

  lemma MemberIsValid(env: Platform, s: Text)
    requires Idna.Sane(env.tables) && Member(env, s).Parsed?
    ensures Valid(Member(env, s).value.0)
  {
    hide Idna.Sane, SkipCfws, ParseMailbox, Separator, Valid;
    MailboxIsValid(env, s);
  }

  lemma {:induction false} MembersAreValid(env: Platform, s: Text)
    requires Idna.Sane(env.tables) && GroupMembers(env, s).Parsed?
    ensures AllValid(GroupMembers(env, s).value)
    decreases |s|
  {
    hide Idna.Sane, Member, Valid;
    MemberIsValid(env, s);
    var member := Member(env, s);
    if member.value.1 { MembersAreValid(env, s[member.size..]); }
  }

  lemma EntryIsValid(env: Platform, s: Text)
    requires Idna.Sane(env.tables) && ParseEntry(env, s).Parsed?
    ensures AllValid(ParseEntry(env, s).value)
  {
    hide Idna.Sane, SkipCfws, SkipCommas, ParseEntity, GroupMembers, Valid;
    var entity := ParseEntity(env, s);
    if entity.value.One? {
      EntityIsValid(env, s);
    } else {
      var group := s[entity.size..];
      var blanks := SkipCfws(group[1..]);
      var n := 1 + blanks.size + SkipCommas(group[1 + blanks.size..]).size;
      if !Starts(group[n..], SEMICOLON) { MembersAreValid(env, group[n..]); }
    }
  }

  lemma ListEntryIsValid(env: Platform, s: Text)
    requires Idna.Sane(env.tables) && ListEntry(env, s).Parsed?
    ensures AllValid(ListEntry(env, s).value.0)
  {
    hide Idna.Sane, SkipCfws, ParseEntry, Separator, Valid;
    EntryIsValid(env, s);
  }

  lemma {:induction false} EntriesAreValid(env: Platform, s: Text)
    requires Idna.Sane(env.tables) && ParseEntries(env, s).Ok?
    ensures AllValid(ParseEntries(env, s).value)
    decreases |s|
  {
    hide Idna.Sane, ListEntry, Valid;
    ListEntryIsValid(env, s);
    var entry := ListEntry(env, s);
    if entry.value.1 { EntriesAreValid(env, s[entry.size..]); }
  }

  /** Everything parsed is valid: normalized domain, safe local part, length limits, clean display name. */
  lemma ParsedIsValid(env: Platform, s: Text)
    requires Idna.Sane(env.tables)
    ensures Parse(env, s).Ok? ==> Valid(Parse(env, s).value)
    ensures ParseList(env, s).Ok? ==> AllValid(ParseList(env, s).value)
  {
    hide Idna.Sane, SkipCfws, SkipCommas, ParseEntity, ParseEntries, Valid;
    if Parse(env, s).Ok? { EntityIsValid(env, s); }
    if ParseList(env, s).Ok? {
      var n := SkipCfws(s).size + SkipCommas(s[SkipCfws(s).size..]).size;
      if n < |s| { EntriesAreValid(env, s[n..]); }
    }
  }

  // --------------------------------------------------------- bare addresses

  /** What may follow an entry: the end, the comma before the next one, or the semicolon that ends a group. */
  predicate Follows(tail: Text) { EndsEntry(tail) }

  lemma FollowsIsQuiet(tail: Text)
    requires Follows(tail)
    ensures Quiet(tail) && Still(tail) && EndsEntry(tail)
  {
  }

  function Bare(m: Mailbox): Mailbox { m.(displayName := None) }

  lemma ValidToMailbox(env: Platform, m: Mailbox, text: DomainText)
    requires Valid(m) && WellFormed(text.text) && NormalizedDomain(env, text) == Ok(m.domain)
    ensures ToMailbox(env, Shape(m.localPart, text)) == Ok(Bare(m))
    ensures PathSafe(m.localPart) && MailboxToString(m) == Serialized(m.localPart) + [AT] + m.domain
  {
    hide WellFormed, Domain.IsNormal, Domain.NormalizeDomainLiteral, NormalizedDomain, PathSafe, Serialized,
      Domain.Octets, Forbidden;
    DomainIsSome(m.domain);
    MergeWellFormed(m.localPart);
    MergeWellFormed(text.text);
    hide Merge;
  }

  lemma DomainIsSome(d: Text)
    requires IsDomain(d)
    ensures d != []
  {
    hide Domain.NormalizeDomainLiteral;
    if d == [] { Domain.NormalIsAscii(d); }
  }

  lemma ValidFacts(m: Mailbox)
    requires Valid(m)
    ensures IsDomain(m.domain) && PathSafe(m.localPart) && WellFormed(m.localPart)
    ensures MailboxToString(m) == Serialized(m.localPart) + [AT] + m.domain
  {
    hide WellFormed, Domain.IsNormal, Domain.NormalizeDomainLiteral, PathSafe, Serialized, Domain.Octets, Forbidden;
    DomainIsSome(m.domain);
  }

  /** A written address, read as an entry. */
  lemma ReadBare(env: Platform, written: Text, m: Mailbox, tail: Text)
    requires Idna.Sane(env.tables) && Valid(m) && Writes(written, m.localPart) && Follows(tail)
    ensures var address := written + [AT] + m.domain;
      ParseEntity(env, address + tail) == Parsed(One(Bare(m)), |address|)
  {
    hide Idna.Sane, Valid, Writes, IsDomain, MailboxToString, ToMailbox, NormalizedDomain,
      SkipCfws, AddrSpec, Quiet, Still, EndsEntry;
    ValidFacts(m);
    FollowsIsQuiet(tail);
    var address := written + [AT] + m.domain;
    var s := address + tail;
    var text := ReadAddrSpec(env, written, m.localPart, m.domain, tail);
    ValidToMailbox(env, m, text);
    AddressStarts(written, m.localPart, [AT] + m.domain + tail);
    assert s == written + ([AT] + m.domain + tail);
    NothingToSkip(s);
    NothingToSkip(tail);
    assert s[0..] == s;
    assert s[|address|..] == tail;
  }

  lemma AddressStarts(written: Text, local: Text, tail: Text)
    requires Writes(written, local)
    ensures var s := written + tail; Still(s) && s != [] && s[0] != LESS && s[0] != AT
  {
    hide IsAtomChar, Quiet, LocalPart;
    var s := written + tail;
    assert s[0] == written[0];
    if IsAtomChar(s[0]) { AtomIsStill(s[0]); }
  }

  /** The formatter's way to write a valid mailbox. */
  lemma FormattedWrites(m: Mailbox)
    requires Valid(m) && Readable(m.localPart)
    ensures Writes(Serialized(m.localPart), m.localPart)
    ensures MailboxToString(m) == Serialized(m.localPart) + [AT] + m.domain
  {
    hide Valid, Writes, Readable, MailboxToString, Serialized, PathSafe, IsDomain;
    ValidFacts(m);
    SerializedWrites(m.localPart);
  }

  // ------------------------------------------------------- the other direction

  lemma SegmentLength(s: Text)
    requires LocalSegment(s).Parsed?
    ensures var r := LocalSegment(s); r.size >= |r.value| && (r.size == |r.value| ==> IsAtom(r.value))
  {
    hide IsAtomChar;
    if s[0] == DQUOTE {
      QuotedLength(s[1..]);
    } else {
      var n := AtomSize(s);
      assert forall c | c in s[..n] :: IsAtomChar(c);
    }
  }

  lemma {:induction false} QuotedLength(s: Text)
    requires QuotedBody(s).Parsed?
    ensures QuotedBody(s).size > |QuotedBody(s).value|
    decreases |s|
  {
    hide IsControl;
    if s[0] == DQUOTE {
    } else if s[0] == BACKSLASH {
      QuotedLength(s[2..]);
    } else if IsBreak(s[0]) {
      QuotedLength(s[Folded(s).size..]);
    } else {
      QuotedLength(s[1..]);
    }
  }

  lemma JoinedDotAtom(a: Text, rest: Text)
    requires IsAtom(a) && DotAtom(rest)
    ensures DotAtom(a + [DOT] + rest)
  {
    hide IsAtomChar;
    var s := a + [DOT] + rest;
    DotIsNoAtom();
    assert forall k | 0 <= k < |a| :: s[k] == a[k] && a[k] in a;
    assert forall k | |a| < k < |s| :: s[k] == rest[k - |a| - 1];
    forall i | 0 <= i < |s| - 1 ensures s[i] != DOT || s[i + 1] != DOT {
      if i > |a| { assert rest[i - |a| - 1] != DOT || rest[i - |a| - 1 + 1] != DOT; }
    }
  }

  lemma AtomIsDotAtom(a: Text)
    requires IsAtom(a)
    ensures DotAtom(a)
  {
    DotIsNoAtom();
    assert a[0] in a && a[|a| - 1] in a;
    assert forall k | 0 <= k < |a| :: a[k] in a;
  }

  /** A local part takes at least as many characters as it has, and exactly as many only when it is a dot-atom. */
  lemma {:induction false} LocalPartLength(s: Text)
    requires LocalPart(s).Parsed?
    ensures var r := LocalPart(s); r.size >= |r.value| && (r.size == |r.value| ==> DotAtom(r.value))
    decreases |s|
  {
    hide LocalSegment, DotBehind, DotAtom, IsAtom;
    SegmentLength(s);
    var segment := LocalSegment(s);
    var dot := DotBehind(s[segment.size..]);
    if dot.value {
      var rest := s[segment.size + dot.size..];
      LocalPartLength(rest);
      if LocalPart(s).size == |LocalPart(s).value| {
        JoinedDotAtom(segment.value, LocalPart(rest).value);
      }
    } else if segment.size == |segment.value| {
      AtomIsDotAtom(segment.value);
    }
  }

  lemma LabelLength(s: Text)
    requires Label(s).Parsed?
    ensures Label(s).size == |Label(s).value| && (IsAscii(s) ==> IsAscii(Label(s).value))
  {
    hide IsAtomChar;
    assert forall c | c in s[..AtomSize(s)] :: c in s;
  }

  lemma AsciiTail(s: Text, n: nat)
    requires n <= |s| && IsAscii(s)
    ensures IsAscii(s[n..])
  {
    assert forall c | c in s[n..] :: c in s;
  }

  lemma DottedAscii(a: Text, b: Text)
    requires IsAscii(a) && IsAscii(b)
    ensures IsAscii(a + [DOT] + b)
  {
  }

  lemma {:induction false} NameLength(s: Text)
    requires DomainName(s).Parsed?
    ensures var r := DomainName(s); r.size >= |r.value| && (IsAscii(s) ==> IsAscii(r.value))
    decreases |s|
  {
    hide DotBehind, Label, IsAscii;
    var first := Label(s);
    var dot := DotBehind(s[first.size..]);
    LabelLength(s);
    if dot.value {
      var n := first.size + dot.size;
      NameLength(s[n..]);
      if IsAscii(s) {
        AsciiTail(s, n);
        DottedAscii(first.value, DomainName(s[n..]).value);
      }
    }
  }

  lemma SkipsSomething(s: Text)
    requires s != [] && (IsWhite(s[0]) || IsBreak(s[0])) && SkipFws(s).Parsed?
    ensures SkipFws(s).size > 0
  {
  }

  lemma {:induction false} LiteralLength(s: Text)
    requires LiteralBody(s).Parsed?
    ensures LiteralBody(s).size > |LiteralBody(s).value|
    decreases |s|
  {
    hide SkipFws;
    if s[0] == CLOSE_BRACKET {
    } else if s[0] == BACKSLASH {
      LiteralLength(s[2..]);
    } else if IsWhite(s[0]) || IsBreak(s[0]) {
      SkipsSomething(s);
      LiteralLength(s[SkipFws(s).size..]);
    } else {
      LiteralLength(s[1..]);
    }
  }

  /** A domain written in ASCII takes at least as many characters as its normal form. */
  lemma DomainLength(env: Platform, s: Text)
    requires IsAscii(s) && DomainPart(s).Parsed? && NormalizedDomain(env, WholeDomain(DomainPart(s).value)).Ok?
    ensures DomainPart(s).size >= |NormalizedDomain(env, WholeDomain(DomainPart(s).value)).value|
  {
    hide IsAscii, Domain.NormalizeDomain, Domain.NormalizeDomainLiteral, DomainName, LiteralBody, Merge;
    var text := Merge(DomainPart(s).value.text);
    MergeShortens(DomainPart(s).value.text);
    if DomainPart(s).value.literal {
      LiteralLength(s[1..]);
      Domain.LiteralChars(text);
    } else {
      NameLength(s);
      MergeAscii(DomainPart(s).value.text);
      EmptyIsNoDomain(env);
      Domain.AsciiNames(env.tables, text);
    }
  }

  lemma EmptyIsNoDomain(env: Platform)
    ensures Domain.NormalizeDomain(env.tables, []).Err?
  {
  }

  /** What stands behind the at sign is part of the domain. */
  lemma InsideDomain(local: Text, d: Text, s: Text, k: nat)
    requires s == local + [AT] + d && IsAscii(d) && |local| < k <= |s|
    ensures s[k..] == d[k - |local| - 1..] && IsAscii(s[k..]) && |s[k..]| == |d| + |local| + 1 - k
  {
    assert s[|local| + 1..] == d;
    var tail := d[k - |local| - 1..];
    assert s[k..] == s[|local| + 1..][k - |local| - 1..] == tail;
    forall c | c in tail ensures c < 0x80 { assert c in d; }
    assert IsAscii(tail);
  }

  /** An `addr-spec` is its local part and, behind the at sign, its domain. */
  lemma AddrSpecParts(t: Text) returns (start: nat)
    requires AddrSpec(t).Parsed?
    ensures LocalPart(t).Parsed? && LocalPart(t).size < start <= |t| && DomainPart(t[start..]).Parsed?
    ensures AddrSpec(t).value == Shape(LocalPart(t).value, DomainPart(t[start..]).value)
  {
    hide LocalPart, DomainPart, SkipCfws;
    var at := LocalPart(t).size + SkipCfws(t[LocalPart(t).size..]).size;
    start := at + 1 + SkipCfws(t[at + 1..]).size;
  }

  lemma LocalTakes(t: Text, local: Text)
    requires LocalPart(t).Parsed? && Merge(LocalPart(t).value) == local
    ensures LocalPart(t).size >= |local| && (LocalPart(t).size == |local| ==> DotAtom(local))
  {
    hide LocalPart, DotAtom, Merge;
    LocalPartLength(t);
    MergeShortens(LocalPart(t).value);
  }

  /** A domain that is read as `d` starts no later than the one written. */
  lemma DomainTakes(env: Platform, local: Text, d: Text, s: Text, k: nat)
    requires s == local + [AT] + d && IsAscii(d) && |local| < k <= |s| && DomainPart(s[k..]).Parsed?
    requires NormalizedDomain(env, WholeDomain(DomainPart(s[k..]).value)) == Ok(d)
    ensures k == |local| + 1
  {
    hide DomainPart, NormalizedDomain, WholeDomain, IsAscii;
    InsideDomain(local, d, s, k);
    DomainLength(env, s[k..]);
  }

  /** Where an `addr-spec` with this local part and domain can start in their plain concatenation. */
  lemma OnlyAtTheStart(env: Platform, local: Text, d: Text, s: Text, a: nat)
    requires s == local + [AT] + d && IsAscii(d) && a <= |s|
    requires AddrSpec(s[a..]).Parsed? && Whole(AddrSpec(s[a..]).value).localPart == local
    requires NormalizedDomain(env, Whole(AddrSpec(s[a..]).value).domain) == Ok(d)
    ensures a == 0 && DotAtom(local)
  {
    hide AddrSpec, LocalPart, DomainPart, DotAtom, NormalizedDomain, WholeDomain, Merge, IsAscii;
    var start := AddrSpecParts(s[a..]);
    LocalTakes(s[a..], local);
    assert s[a..][start..] == s[a + start..];
    DomainTakes(env, local, d, s, a + start);
  }

  lemma AngleIsFurtherIn(env: Platform, local: Text, d: Text, s: Text, a: nat)
    requires s == local + [AT] + d && IsAscii(d) && a <= |s| && Idna.Sane(env.tables)
    requires AngleAddr(env, s[a..]).Parsed?
    ensures AngleAddr(env, s[a..]).value != Mailbox(local, d, None)
  {
    hide AngleAddr, AddrSpec, ToMailbox, Idna.Sane, DotAtom, Valid, IsAscii;
    var start := AngleInside(env, s[a..]);
    assert s[a..][start..] == s[a + start..];
    var shape := AddrSpec(s[a + start..]).value;
    ToMailboxIsValid(env, shape);
    if ToMailbox(env, shape) == Ok(Mailbox(local, d, None)) {
      OnlyAtTheStart(env, local, d, s, a + start);
    }
  }

  /** Reading the plain concatenation gives the same mailbox only when the local part is a dot-atom. */
  lemma PlainNeedsDotAtom(env: Platform, local: Text, d: Text)
    requires Idna.Sane(env.tables) && IsAscii(d)
    requires Parse(env, local + [AT] + d) == Ok(Mailbox(local, d, None))
    ensures DotAtom(local)
  {
    hide SkipCfws, AddrSpec, ToMailbox, Idna.Sane, DotAtom, AngleAddr, NamedEntity;
    var s := local + [AT] + d;
    var c := SkipCfws(s).size;
    var t := s[c..];
    if Starts(t, LESS) {
      AngleIsFurtherIn(env, local, d, s, c);
    } else if BareAddress(env, t).value.Some? {
      ToMailboxIsValid(env, AddrSpec(t).value);
      OnlyAtTheStart(env, local, d, s, c);
    } else {
      NamedIsFurtherIn(env, local, d, s, c);
    }
  }

  lemma NamedIsFurtherIn(env: Platform, local: Text, d: Text, s: Text, c: nat)
    requires s == local + [AT] + d && IsAscii(d) && c <= |s| && Idna.Sane(env.tables)
    requires NamedEntity(env, s[c..]).Parsed? && NamedEntity(env, s[c..]).value.One?
    ensures NamedEntity(env, s[c..]).value.mailbox != Mailbox(local, d, None)
  {
    hide SkipCfws, Idna.Sane, AngleAddr, Phrase, FinalizeDisplayName, Valid;
    var t := s[c..];
    var phrase := Phrase(t, [], false);
    var n := phrase.size + SkipCfws(t[phrase.size..]).size;
    assert t[n..] == s[c + n..];
    AngleAddrIsValid(env, t[n..]);
    AngleIsFurtherIn(env, local, d, s, c + n);
  }

  lemma DtextIsAscii(s: Text)
    requires forall c | c in s :: Domain.IsDtext(c)
    ensures IsAscii(s)
  {
  }

  lemma BracketedIsAscii(s: Text)
    requires IsAscii(s)
    ensures IsAscii([OPEN_BRACKET] + s + [CLOSE_BRACKET])
  {
  }

  lemma DomainIsAscii(d: Text)
    requires IsDomain(d)
    ensures IsAscii(d)
  {
    hide Domain.NormalizeDomainLiteral, Domain.IsLdh;
    if Domain.IsNormal(d) {
      Domain.NormalIsAscii(d);
    } else {
      LiteralContent(d);
      DtextIsAscii(d[1..|d| - 1]);
      BracketedIsAscii(d[1..|d| - 1]);
    }
  }

  /**
   * A valid mailbox, written and parsed again, is the same local part and domain
   * if and only if the local part is ASCII or a dot-atom: a local part with a
   * character outside ASCII is never quoted.
   */
  lemma MailboxRoundTrip(env: Platform, m: Mailbox)
    requires Idna.Sane(env.tables) && Valid(m)
    ensures Parse(env, MailboxToString(m)) == Ok(Bare(m)) <==> Readable(m.localPart)
  {
    hide Idna.Sane, Valid, IsDomain, PathSafe, MailboxToString, Parse, DotAtom, Writes, Serialized;
    var s := MailboxToString(m);
    ValidFacts(m);
    if Readable(m.localPart) {
      FormattedWrites(m);
      ParseBare(env, Serialized(m.localPart), m);
    }
    if Parse(env, s) == Ok(Bare(m)) && !IsAscii(m.localPart) {
      NonAsciiIsPlain(m.localPart);
      DomainIsAscii(m.domain);
      PlainNeedsDotAtom(env, m.localPart, m.domain);
    }
  }

  lemma ParseBare(env: Platform, written: Text, m: Mailbox)
    requires Idna.Sane(env.tables) && Valid(m) && Writes(written, m.localPart)
    ensures Parse(env, written + [AT] + m.domain) == Ok(Bare(m))
  {
    hide Idna.Sane, Valid, ParseEntity, SkipCfws, Writes;
    var s := written + [AT] + m.domain;
    ReadBare(env, written, m, []);
    assert s + [] == s && s[|s|..] == [];
    StillNothing();
    NothingToSkip([]);
  }

  lemma StillNothing()
    ensures Still([])
  {
  }

  /**
   * Quoting would do: every valid mailbox is what its quoted form parses to. So
   * the ones `mailboxToString` fails for are all within reach of the parser.
   */
  lemma QuotedFormParses(env: Platform, m: Mailbox)
    requires Idna.Sane(env.tables) && Valid(m)
    ensures Parse(env, Quote(m.localPart) + [AT] + m.domain) == Ok(Bare(m))
  {
    hide *;
    ValidFacts(m);
    QuoteWrites(m.localPart);
    ParseBare(env, Quote(m.localPart), m);
  }

  lemma NonAsciiIsPlain(local: Text)
    requires !IsAscii(local)
    ensures Serialized(local) == local
  {
  }

  /** The same for whatever the parser made of any input at all. */
  lemma ParsedRoundTrip(env: Platform, input: Text)
    requires Idna.Sane(env.tables) && Parse(env, input).Ok?
    ensures var m := Parse(env, input).value;
      Parse(env, MailboxToString(m)) == Ok(Bare(m)) <==> IsAscii(m.localPart) || DotAtom(m.localPart)
  {
    hide Idna.Sane, Valid, Parse, MailboxToString, DotAtom;
    ParsedIsValid(env, input);
    MailboxRoundTrip(env, Parse(env, input).value);
  }

  /** `"é b"@x.de` parses; the mailbox is written without its quotes, and that does not parse to it. */
  lemma UnquotedLocalIsLost(env: Platform) returns (m: Mailbox)
    requires Idna.Sane(env.tables)
    ensures m == Mailbox([0xe9, SPACE, 0x62], Lit("x.de"), None)
    ensures Parse(env, [DQUOTE, 0xe9, SPACE, 0x62, DQUOTE] + [AT] + Lit("x.de")) == Ok(m)
    ensures MailboxToString(m) == [0xe9, SPACE, 0x62] + [AT] + Lit("x.de")
    ensures Parse(env, MailboxToString(m)) != Ok(m)
  {
    hide Idna.Sane, Valid, Parse, Readable, Serialized, IsDomain, PathSafe, Escape, MailboxToString;
    var local: Text := [0xe9, SPACE, 0x62];
    m := Mailbox(local, Lit("x.de"), None);
    SampleIsValid(local, m.domain);
    QuotedFormParses(env, m);
    SampleIsQuoted(local);
    MailboxRoundTrip(env, m);
    ValidFacts(m);
    assert 0xe9 in local;
    NonAsciiIsPlain(local);
    SampleIsNotReadable(local);
  }

  lemma SampleIsNotReadable(local: Text)
    requires local == [0xe9, SPACE, 0x62]
    ensures !Readable(local) && !IsAscii(local)
  {
    assert local[0] in local && local[1] in local;
  }

  lemma SampleIsQuoted(local: Text)
    requires local == [0xe9, SPACE, 0x62]
    ensures Quote(local) == [DQUOTE, 0xe9, SPACE, 0x62, DQUOTE]
  {
    assert local[1..] == [SPACE, 0x62] && local[1..][1..] == [0x62] && local[1..][1..][1..] == [];
    assert Escape([0x62]) == [0x62];
    assert Escape([SPACE, 0x62]) == [SPACE, 0x62];
    assert Escape(local) == local;
  }

  lemma SampleDomain(d: Text)
    requires d == Lit("x.de")
    ensures Domain.IsNormal(d)
  {
    var tail: Text := [0x64, 0x65];
    assert d == [0x78, DOT, 0x64, 0x65] && d[2..] == tail;
    assert IndexOf(tail, DOT) == 2;
    assert SplitOn(tail, DOT) == [tail];
    assert IndexOf(d, DOT) == 1;
    assert SplitOn(d, DOT) == [d[..1]] + SplitOn(d[2..], DOT);
    assert forall l | l in SplitOn(d, DOT) :: l == d[..1] || l == tail;
  }

  lemma SampleIsValid(local: Text, d: Text)
    requires local == [0xe9, SPACE, 0x62] && d == Lit("x.de")
    ensures Valid(Mailbox(local, d, None))
  {
    hide Domain.IsNormal, Domain.NormalizeDomainLiteral, Utf8.EncodeChar, Utf8.Encode;
    SampleDomain(d);
    SampleIsNotReadable(local);
    NonAsciiIsPlain(local);
    OctetsBound(local);
    OctetsBound(d);
  }

  lemma {:induction false} OctetsBound(s: Text)
    ensures Domain.Octets(s) <= 4 * |s|
  {
    hide Utf8.EncodeChar;
    if s == [] {
    } else {
      OctetsBound(s[1..]);
    }
  }
}
