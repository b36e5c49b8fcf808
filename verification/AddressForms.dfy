/**
 * The characters and limits of mail addresses, and when `src/address.ts` quotes
 * at all: only what cannot stand as it is.
 */
module AddressForms {
  import opened Common
  import opened Strings
  import opened AddressErrors
  import opened AddressGrammar
  import opened Address
  import opened AddressReading
  import opened AddressRoundTrip
  import opened AddressLists
  import Domain
  import Idna

  // -------------------------------------------------------------- characters

  const CAPITALS: string := "ABCDEFGHIJKLMNOPQRSTUVWXYZ"
  const SMALLS: string := "abcdefghijklmnopqrstuvwxyz"
  const DIGITS: string := "0123456789"
  const SYMBOLS: string := "!#$%&'*+-/=?^_`{|}~"
  const SPECIALS: string := "()<>[]:;@\\,.\""

  /** `c` is one of the characters of `s`. */
  predicate OneOf(c: int, s: string) { exists i | 0 <= i < |s| :: s[i] as int == c }

  predicate IsLetterOrDigit(c: int) { OneOf(c, CAPITALS) || OneOf(c, SMALLS) || OneOf(c, DIGITS) }

  lemma CapitalLaw(c: int)
    ensures IsUpper(c) <==> OneOf(c, CAPITALS)
  {
    forall i | 0 <= i < 26 ensures CAPITALS[i] as int == 0x41 + i {
      assert CAPITALS[i] == ('A' as int + i) as char;
    }
    if IsUpper(c) { assert CAPITALS[c - 0x41] as int == c; }
  }

  lemma SmallLaw(c: int)
    ensures IsLower(c) <==> OneOf(c, SMALLS)
  {
    forall i | 0 <= i < 26 ensures SMALLS[i] as int == 0x61 + i {
      assert SMALLS[i] == ('a' as int + i) as char;
    }
    if IsLower(c) { assert SMALLS[c - 0x61] as int == c; }
  }

  lemma DigitLaw(c: int)
    ensures IsDigit(c) <==> OneOf(c, DIGITS)
  {
    forall i | 0 <= i < 10 ensures DIGITS[i] as int == 0x30 + i {
      assert DIGITS[i] == ('0' as int + i) as char;
    }
    if IsDigit(c) { assert DIGITS[c - 0x30] as int == c; }
  }

  lemma AlnumLaw(c: int)
    ensures IsAlnum(c) <==> IsLetterOrDigit(c)
  {
    hide OneOf, IsUpper, IsLower, IsDigit;
    CapitalLaw(c);
    SmallLaw(c);
    DigitLaw(c);
  }

  /** Atoms: letters, digits, the symbols of section 3.2.3 of RFC 5322, and everything beyond ASCII. */
  lemma AtomLaw(c: CodePoint)
    ensures IsAtomChar(c) <==> IsLetterOrDigit(c) || OneOf(c, SYMBOLS) || c >= 0x80
  {
    hide IsAlnum, IsAtext, IsLetterOrDigit, OneOf;
    AlnumLaw(c);
    SymbolLaw(c);
  }

  lemma SymbolLaw(c: CodePoint)
    ensures IsAtext(c) <==> IsAlnum(c) || OneOf(c, SYMBOLS)
  {
    hide IsAlnum;
    assert SYMBOLS[0] as int == 0x21 && SYMBOLS[1] as int == 0x23 && SYMBOLS[2] as int == 0x24
      && SYMBOLS[3] as int == 0x25 && SYMBOLS[4] as int == 0x26 && SYMBOLS[5] as int == 0x27
      && SYMBOLS[6] as int == 0x2a && SYMBOLS[7] as int == 0x2b && SYMBOLS[8] as int == 0x2d
      && SYMBOLS[9] as int == 0x2f && SYMBOLS[10] as int == 0x3d && SYMBOLS[11] as int == 0x3f
      && SYMBOLS[12] as int == 0x5e && SYMBOLS[13] as int == 0x5f && SYMBOLS[14] as int == 0x60
      && SYMBOLS[15] as int == 0x7b && SYMBOLS[16] as int == 0x7c && SYMBOLS[17] as int == 0x7d
      && SYMBOLS[18] as int == 0x7e && |SYMBOLS| == 19;
  }

  /** The characters that force quoting in a display name. */
  lemma SpecialLaw(c: CodePoint)
    ensures IsSpecial(c) <==> OneOf(c, SPECIALS)
  {
    assert SPECIALS[0] as int == 0x28 && SPECIALS[1] as int == 0x29 && SPECIALS[2] as int == 0x3c
      && SPECIALS[3] as int == 0x3e && SPECIALS[4] as int == 0x5b && SPECIALS[5] as int == 0x5d
      && SPECIALS[6] as int == 0x3a && SPECIALS[7] as int == 0x3b && SPECIALS[8] as int == 0x40
      && SPECIALS[9] as int == 0x5c && SPECIALS[10] as int == 0x2c && SPECIALS[11] as int == 0x2e
      && SPECIALS[12] as int == 0x22 && |SPECIALS| == 13;
  }

  /** The punctuation the grammar is written with. */
  lemma Punctuation()
    ensures [OPEN_PAREN, CLOSE_PAREN, LESS, GREATER, OPEN_BRACKET, CLOSE_BRACKET] == Lit("()<>[]")
    ensures [COLON, SEMICOLON, AT, BACKSLASH, COMMA, DOT, DQUOTE] == Lit(":;@\\,.\"")
    ensures [SPACE] == Lit(" ") && [TAB] == Lit("\t") && [CR, LF] == Lit("\r\n") && [HYPHEN] == Lit("-")
  {
  }

  // ------------------------------------------------------------ quoted or not

  /** Escaping adds a backslash in front of every backslash and quote, and nothing else. */
  lemma {:induction false} EscapedOnlyIfNeeded(s: Text)
    ensures Escape(s) == s <==> BACKSLASH !in s && DQUOTE !in s
    ensures |Escape(s)| == |s| + Marked(s)
  {
    if s == [] {
    } else {
      EscapedOnlyIfNeeded(s[1..]);
      assert s == [s[0]] + s[1..];
      if s[0] != BACKSLASH && s[0] != DQUOTE { assert Escape(s)[1..] == Escape(s[1..]); }
      MarkedNone(s[1..]);
    }
  }

  /** How many backslashes and quotes there are. */
  function Marked(s: Text): nat {
    if s == [] then 0 else (if s[0] == BACKSLASH || s[0] == DQUOTE then 1 else 0) + Marked(s[1..])
  }

  lemma {:induction false} MarkedNone(s: Text)
    ensures Marked(s) == 0 <==> BACKSLASH !in s && DQUOTE !in s
  {
    if s == [] {
    } else {
      MarkedNone(s[1..]);
      assert s == [s[0]] + s[1..];
    }
  }

  lemma QuoteIsLonger(s: Text)
    ensures Quote(s) != s
  {
  }

  lemma DotAtomNeedsNoQuotes(local: Text)
    requires IsAscii(local) && local != []
    ensures NeedsQuoting(local) <==> !DotAtom(local)
  {
    hide IsAtext;
    assert local[0] in local && local[|local| - 1] in local;
    forall c | c in local ensures IsAtomChar(c) <==> IsAtext(c) {
    }
    if DotAtom(local) {
      assert forall i | 0 <= i < |local| - 1 :: local[i] != DOT || local[i + 1] != DOT;
    } else if !NeedsQuoting(local) {
      UnquotedIsDotAtom(local);
    }
  }

  /** A local part is quoted only if it is empty, or ASCII and no dot-atom. */
  lemma LocalPartQuotedOnlyIfNeeded(local: Text)
    ensures Serialized(local) == local <==> local != [] && (!IsAscii(local) || DotAtom(local))
    ensures Serialized(local) == local || Serialized(local) == Quote(local)
  {
    hide NeedsQuoting, DotAtom, Quote;
    QuoteIsLonger(local);
    if local != [] && IsAscii(local) { DotAtomNeedsNoQuotes(local); }
    WhenNoQuoting(local);
  }

  lemma WhenNoQuoting(local: Text)
    ensures local == [] ==> NeedsQuoting(local)
    ensures local != [] && !IsAscii(local) ==> !NeedsQuoting(local)
  {
  }

  /** An ASCII display name is quoted only if it is no phrase of atoms with single blanks between them. */
  lemma NameQuotedOnlyIfNeeded(name: Text)
    requires name != [] && IsAscii(name) && !Forbidden(name)
    ensures FormatName(name) == name <==> PhraseText(name)
    ensures FormatName(name) == name || FormatName(name) == Quote(name)
  {
    hide NeedsNameQuoting, PhraseText, Quote, Forbidden, IsAscii;
    QuoteIsLonger(name);
    if NeedsNameQuoting(name) { SpecialIsNoPhrase(name); } else { UnquotedIsPhrase(name); }
  }

  lemma SpecialIsNoAtom(c: CodePoint)
    requires IsSpecial(c)
    ensures !IsAtomChar(c) && !IsWhite(c)
  {
  }

  lemma SpecialIsNoPhrase(name: Text)
    requires name != [] && NeedsNameQuoting(name)
    ensures !PhraseText(name)
  {
    hide IsSpecial, IsAtomChar;
    if c :| c in name && IsSpecial(c) { SpecialIsNoAtom(c); }
    AtomIsNotWhite(name[0]);
    AtomIsNotWhite(name[|name| - 1]);
  }

  // ------------------------------------------------------------------- limits

  /** What a mailbox is checked for, in the order of the checks. */
  lemma MailboxLimits(local: Text, domain: Text)
    ensures var r, n := MakeMailbox(local, domain), Domain.Octets(Serialized(local));
      if exists c | c in local :: c < 0x20 || 0x7f <= c <= 0x9f || c == 0x2028 || c == 0x2029 then
        r == Err(InvalidLocalPart)
      else if n > 64 then r == Err(LocalPartTooLong)
      else if n + 1 + Domain.Octets(domain) > 254 then r == Err(AddressTooLong)
      else r == Ok(Mailbox(local, domain, None))
  {
    hide Serialized, Domain.Octets;
  }

  /** A name of lower-case labels is normal exactly within the limits of section 2.3.4 of RFC 1035. */
  lemma NamesOfLabels(labels: seq<Text>)
    requires labels != [] && forall l | l in labels :: DOT !in l
    ensures Domain.IsNormal(JoinWith(labels, DOT))
       <==> |JoinWith(labels, DOT)| <= 255 && forall l | l in labels :: IsLabel(l) && |l| <= 63
  {
    hide Domain.IsLdh, IsLabel, Idna.NoUpper, SplitOn, JoinWith;
    var d := JoinWith(labels, DOT);
    SplitOfJoin(labels, DOT);
    forall l | l in labels ensures IsLabel(l) <==> Domain.IsLdh(l) && Idna.NoUpper(l) { LabelIs(l); }
    UpperInPieces(labels);
  }

  /** Small letters, digits and hyphens, with no hyphen at either end. */
  predicate IsLabel(l: Text) {
    && l != [] && l[0] != HYPHEN && l[|l| - 1] != HYPHEN
    && forall c | c in l :: OneOf(c, SMALLS) || OneOf(c, DIGITS) || c == HYPHEN
  }

  lemma LabelChar(c: CodePoint)
    ensures OneOf(c, SMALLS) || OneOf(c, DIGITS) || c == HYPHEN <==> (IsAlnum(c) || c == HYPHEN) && !IsUpper(c)
  {
    hide OneOf;
    SmallLaw(c);
    DigitLaw(c);
  }

  lemma LabelIs(l: Text)
    ensures IsLabel(l) <==> Domain.IsLdh(l) && Idna.NoUpper(l)
  {
    hide OneOf;
    forall c | c in l
      ensures OneOf(c, SMALLS) || OneOf(c, DIGITS) || c == HYPHEN <==> (IsAlnum(c) || c == HYPHEN) && !IsUpper(c)
    {
      LabelChar(c);
    }
    if l != [] { assert l[0] in l && l[|l| - 1] in l; }
  }

  lemma NoUpperAppend(a: Text, b: Text)
    ensures Idna.NoUpper(a + [DOT] + b) <==> Idna.NoUpper(a) && Idna.NoUpper(b)
  {
    var s := a + [DOT] + b;
    assert forall c :: c in s <==> c in a || c == DOT || c in b;
  }

  lemma {:induction false} UpperInPieces(labels: seq<Text>)
    ensures Idna.NoUpper(JoinWith(labels, DOT)) <==> forall l | l in labels :: Idna.NoUpper(l)
  {
    hide Idna.NoUpper;
    NothingUpper();
    if labels == [] {
    } else {
      UpperInPieces(labels[1..]);
      assert labels == [labels[0]] + labels[1..];
      NoUpperAppend(labels[0], JoinWith(labels[1..], DOT));
    }
  }

  lemma NothingUpper()
    ensures Idna.NoUpper([])
  {
  }

  /** An IPv6 literal is the tag, in letters of either case, and an address. */
  lemma TaggedLiteral(tag: Text, address: Text)
    requires |tag| == 5 && LowerText(tag) == Lit("ipv6:")
    ensures Domain.NormalizeDomainLiteral(tag + address)
         == if Domain.IsValidIPv6(address) then Ok([OPEN_BRACKET] + (tag + address) + [CLOSE_BRACKET])
            else Err(InvalidDomainLiteral)
  {
    hide Domain.IsValidIPv6, Domain.IsValidIPv4, LowerText;
    TagIs();
    assert (tag + address)[..5] == tag && (tag + address)[5..] == address;
  }

  lemma TagIs()
    ensures Domain.IPV6_TAG == Lit("ipv6:") && |Domain.IPV6_TAG| == 5
  {
  }
}
