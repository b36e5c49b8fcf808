/**
 * Domain names and address literals, as `src/internal/domain.ts` validates and
 * normalizes them.
 */
module Domain {
  import opened Common
  import opened Strings
  import opened AddressErrors
  import Idna
  import Utf8

  const MAX_DOMAIN_OCTETS: nat := 255
  const MAX_LABEL_OCTETS: nat := 63
  const COLON: CodePoint := 0x3a
  const OPEN: CodePoint := 0x5b
  const CLOSE: CodePoint := 0x5d

  // ------------------------------------------------------------------ names

  /** `LDH_LABEL`: letters, digits and hyphens, with a letter or digit at either end. */
  predicate IsLdh(s: Text) {
    s != [] && IsAlnum(s[0]) && IsAlnum(s[|s| - 1]) && forall c | c in s :: IsAlnum(c) || c == HYPHEN
  }

  function Octets(s: Text): nat { |Utf8.Encode(s)| }

  predicate GoodLabel(name: Text) { Octets(name) <= MAX_LABEL_OCTETS && IsLdh(name) }

  /** `normalizeDomain` */
  function NormalizeDomain(t: Idna.Tables, domain: Text): Result<Text, Kind> {
    if domain == [] then Err(DomainEmpty)
    else if !IsAscii(domain) then
      var converted := Idna.ToAsciiDomain(t, domain);
      if converted.None? then Err(InvalidDomain) else Checked(converted.value)
    else Checked(LowerText(domain))
  }

  predicate AllGood(labels: seq<Text>) { forall l | l in labels :: GoodLabel(l) }

  /** What is asked of the ASCII form: no empty label, then good labels, then the total length. */
  function Checked(ascii: Text): Result<Text, Kind> {
    var labels := SplitOn(ascii, DOT);
    if [] in labels || !AllGood(labels) then Err(InvalidDomain)
    else if Octets(ascii) > MAX_DOMAIN_OCTETS then Err(DomainTooLong)
    else Ok(ascii)
  }

  /** A normalized domain name: lower-case labels of at most 63 octets, 255 in all. */
  predicate IsNormal(d: Text) {
    && |d| <= MAX_DOMAIN_OCTETS
    && (forall l | l in SplitOn(d, DOT) :: IsLdh(l) && |l| <= MAX_LABEL_OCTETS)
    && Idna.NoUpper(d)
  }

  lemma NormalIsAscii(d: Text)
    requires forall l | l in SplitOn(d, DOT) :: IsLdh(l)
    ensures IsAscii(d) && forall c | c in d :: c == DOT || IsAlnum(c) || c == HYPHEN
    ensures d != []
  {
    var ldh := (c: CodePoint) => IsAlnum(c) || c == HYPHEN;
    assert forall l | l in SplitOn(d, DOT) :: MadeOf(l, ldh);
    CharsOfPieces(d, DOT, ldh);
    assert SplitOn(d, DOT)[0] in SplitOn(d, DOT);
  }

  lemma CheckedIsNormal(ascii: Text)
    requires Idna.NoUpper(ascii)
    ensures Checked(ascii) == Ok(ascii) <==> IsNormal(ascii)
    ensures Checked(ascii).Ok? ==> Checked(ascii) == Ok(ascii)
  {
    hide IsLdh, Utf8.Encode, Idna.NoUpper;
    LdhIsNotEmpty([]);
    var labels := SplitOn(ascii, DOT);
    if forall l | l in labels :: IsLdh(l) {
      NormalIsAscii(ascii);
      Utf8.EncodeAscii(ascii);
      PiecesOf(ascii, DOT);
      forall l | l in labels ensures Octets(l) == |l| {
        assert forall c | c in l :: c in ascii;
        Utf8.EncodeAscii(l);
      }
    }
  }

  lemma LdhIsNotEmpty(l: Text)
    ensures IsLdh(l) ==> l != []
  {
  }

  lemma {:induction false} LowerStays(s: Text)
    requires Idna.NoUpper(s)
    ensures LowerText(s) == s
  {
    assert forall i | 0 <= i < |s| :: s[i] in s;
  }

  lemma LowerHasNoUpper(s: Text)
    ensures Idna.NoUpper(LowerText(s))
  {
  }

  /** A normalized name is normal, and normalizes to itself. */
  lemma NormalizedIsNormal(t: Idna.Tables, domain: Text)
    requires Idna.Sane(t) && NormalizeDomain(t, domain).Ok?
    ensures IsNormal(NormalizeDomain(t, domain).value)
  {
    hide Idna.Sane, Idna.ToAsciiDomain, Checked, Idna.NoUpper;
    if IsAscii(domain) {
      LowerHasNoUpper(domain);
      CheckedIsNormal(LowerText(domain));
    } else {
      Idna.ToAsciiIsIdempotent(t, domain);
      CheckedIsNormal(Idna.ToAsciiDomain(t, domain).value);
    }
  }

  /** Exactly the normal names are normalized to themselves. */
  lemma NormalIsFixed(t: Idna.Tables, d: Text)
    requires Idna.Sane(t)
    ensures NormalizeDomain(t, d) == Ok(d) <==> IsNormal(d)
  {
    hide Idna.Sane, Idna.ToAsciiDomain, Checked, Idna.NoUpper, IsLdh;
    if IsNormal(d) {
      NormalIsAscii(d);
      LowerStays(d);
      CheckedIsNormal(d);
    }
    if NormalizeDomain(t, d) == Ok(d) { NormalizedIsNormal(t, d); }
  }

  /** An ASCII name is accepted exactly when its lower-case form is normal, and becomes that form. */
  lemma AsciiNames(t: Idna.Tables, d: Text)
    requires IsAscii(d) && d != []
    ensures NormalizeDomain(t, d).Ok? <==> IsNormal(LowerText(d))
    ensures NormalizeDomain(t, d).Ok? ==> NormalizeDomain(t, d).value == LowerText(d)
  {
    hide Checked, IsNormal;
    LowerHasNoUpper(d);
    CheckedIsNormal(LowerText(d));
  }

  /** The result for an internationalized name is stable under the conversion too. */
  lemma ConvertedNames(t: Idna.Tables, d: Text)
    requires Idna.Sane(t) && !IsAscii(d) && NormalizeDomain(t, d).Ok?
    ensures Idna.ToAsciiDomain(t, NormalizeDomain(t, d).value) == Some(NormalizeDomain(t, d).value)
  {
    hide Idna.Sane, Idna.ToAsciiDomain, Checked;
    Idna.ToAsciiIsIdempotent(t, d);
    CheckedIsNormal(Idna.ToAsciiDomain(t, d).value);
  }

  // --------------------------------------------------------------- literals

  function DecimalValue(digits: Text): (n: int)
  {
    if digits == [] then 0 else DecimalValue(digits[..|digits| - 1]) * 10 + digits[|digits| - 1] - 0x30
  }

  predicate IsOctet(part: Text) {
    && 1 <= |part| <= 3
    && (forall c | c in part :: IsDigit(c))
    && (|part| > 1 ==> part[0] != 0x30)
    && DecimalValue(part) <= 255
  }

  predicate IsValidIPv4(value: Text) {
    var parts := SplitOn(value, DOT);
    |parts| == 4 && forall p | p in parts :: IsOctet(p)
  }

  /** The index after the last `c` in `s`; 0 when there is none. */
  function AfterLast(s: Text, c: CodePoint): (i: nat)
    ensures i <= |s|
    ensures i > 0 ==> s[i - 1] == c
    ensures forall k | i <= k < |s| :: s[k] != c
  {
    if s == [] || s[|s| - 1] == c then |s| else AfterLast(s[..|s| - 1], c)
  }

  /** The number of non-overlapping `::` pairs, read from the left. */
  function DoubleColons(s: Text): nat
    decreases |s|
  {
    if |s| < 2 then 0
    else if s[0] == COLON && s[1] == COLON then 1 + DoubleColons(s[2..])
    else DoubleColons(s[1..])
  }

  predicate IsHexGroup(part: Text) { 1 <= |part| <= 4 && forall c | c in part :: IsHexDigit(c) }

  function WithoutEnds(text: Text): Text {
    var t1 := if |text| >= 2 && text[0] == COLON && text[1] == COLON then text[2..] else text;
    if |t1| >= 2 && t1[|t1| - 2] == COLON && t1[|t1| - 1] == COLON then t1[..|t1| - 2] else t1
  }

  /** The groups of an IPv6 literal, once an embedded IPv4 address has been cut off. */
  predicate AreValidGroups(text: Text) {
    var colons := |SplitOn(text, COLON)| - 1;
    && (if DoubleColons(text) > 0 then DoubleColons(text) == 1 && colons <= 7 else colons == 7)
    && (WithoutEnds(text) == [] || forall p | p in SplitOn(WithoutEnds(text), COLON) :: p == [] || IsHexGroup(p))
  }

  predicate IsValidIPv6(value: Text) {
    && value != []
    && var dot, colon := AfterLast(value, DOT), AfterLast(value, COLON);
       if dot == 0 then AreValidGroups(value)
       else colon <= dot && IsValidIPv4(value[colon..]) && AreValidGroups(value[..colon])
  }

  const IPV6_TAG: Text := [0x69, 0x70, 0x76, 0x36, COLON]

  predicate IsDtext(c: CodePoint) { 0x21 <= c <= 0x5a || 0x5e <= c <= 0x7e }

  /** `normalizeDomainLiteral` */
  function NormalizeDomainLiteral(content: Text): Result<Text, Kind> {
    if content == [] then Err(InvalidDomainLiteral)
    else if |content| >= 5 && LowerText(content[..5]) == IPV6_TAG then
      if IsValidIPv6(content[5..]) then Ok([OPEN] + content + [CLOSE]) else Err(InvalidDomainLiteral)
    else if IsValidIPv4(content) then Ok([OPEN] + content + [CLOSE])
    else
      var colon := IndexOf(content, COLON);
      if 0 < colon < |content| && IsLdh(content[..colon])
         && colon + 1 < |content| && MadeOf(content[colon + 1..], (c: CodePoint) => IsDtext(c))
      then Ok([OPEN] + content + [CLOSE])
      else Err(InvalidDomainLiteral)
  }

  lemma IPv4Chars(value: Text)
    requires IsValidIPv4(value)
    ensures forall c | c in value :: IsDigit(c) || c == DOT
  {
    var digit := (c: CodePoint) => IsDigit(c);
    assert forall p | p in SplitOn(value, DOT) :: MadeOf(p, digit);
    CharsOfPieces(value, DOT, digit);
  }

  lemma GroupChars(text: Text)
    requires AreValidGroups(text)
    ensures forall c | c in text :: IsHexDigit(c) || c == COLON
  {
    var hex := (c: CodePoint) => IsHexDigit(c);
    var inner := WithoutEnds(text);
    if inner != [] {
      assert forall p | p in SplitOn(inner, COLON) :: MadeOf(p, hex);
      CharsOfPieces(inner, COLON, hex);
    }
    WithoutEndsChars(text);
  }

  lemma WithoutEndsChars(text: Text)
    ensures forall c | c in text :: c in WithoutEnds(text) || c == COLON
  {
    var t1 := if |text| >= 2 && text[0] == COLON && text[1] == COLON then text[2..] else text;
    assert forall c | c in text :: c in t1 || c == COLON;
    var t2 := WithoutEnds(text);
    if |t1| >= 2 && t1[|t1| - 2] == COLON && t1[|t1| - 1] == COLON {
      assert t1 == t2 + [COLON, COLON];
    }
  }

  lemma IPv6Chars(value: Text)
    requires IsValidIPv6(value)
    ensures forall c | c in value :: IsHexDigit(c) || c == COLON || c == DOT
  {
    hide IsValidIPv4, AreValidGroups;
    var dot, colon := AfterLast(value, DOT), AfterLast(value, COLON);
    if dot == 0 {
      GroupChars(value);
    } else {
      IPv4Chars(value[colon..]);
      GroupChars(value[..colon]);
      assert value == value[..colon] + value[colon..];
    }
  }

  /** An accepted literal is its content in brackets, and the content is plain `dtext`. */
  lemma LiteralChars(content: Text)
    requires NormalizeDomainLiteral(content).Ok?
    ensures NormalizeDomainLiteral(content).value == [OPEN] + content + [CLOSE]
    ensures content != [] && forall c | c in content :: IsDtext(c)
  {
    hide IsValidIPv4, IsValidIPv6, LowerText;
    var colon := IndexOf(content, COLON);
    if |content| >= 5 && LowerText(content[..5]) == IPV6_TAG {
      IPv6Chars(content[5..]);
      TagChars(content);
      assert content == content[..5] + content[5..];
    } else if IsValidIPv4(content) {
      IPv4Chars(content);
    } else {
      assert content == content[..colon] + [COLON] + content[colon + 1..];
    }
  }

  lemma TagChars(content: Text)
    requires |content| >= 5 && LowerText(content[..5]) == IPV6_TAG
    ensures forall c | c in content[..5] :: IsDtext(c)
  {
    forall i | 0 <= i < 5 ensures IsDtext(content[i]) {
      assert LowerChar(content[..5][i]) == IPV6_TAG[i];
    }
  }
}
