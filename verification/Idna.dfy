/**
 * Internationalized domain labels, as `src/internal/idna.ts` maps, validates and
 * encodes them. The Unicode tables of the platform are parameters.
 */
module Idna {
  import opened Common
  import opened Strings
  import Punycode

  /**
   * What the platform knows about Unicode: NFKC normalization followed by
   * lower-casing of one code point, NFC, the disallowed categories and the
   * combining marks.
   */
  datatype Tables = Tables(
    fold: CodePoint -> Text,
    nfc: Text -> Text,
    disallowed: CodePoint -> bool,
    mark: CodePoint -> bool)

  const ACE_PREFIX: Text := [0x78, 0x6e, 0x2d, 0x2d]
  const MAX_LABEL_LENGTH: nat := 63

  predicate IsIgnorable(c: CodePoint) {
    c == 0x00ad || c == 0x034f || 0x180b <= c <= 0x180d || c == 0x200b || 0x2060 <= c <= 0x2064
    || 0xfe00 <= c <= 0xfe0f || c == 0xfeff
  }

  predicate IsSeparator(c: CodePoint) { c == 0x3002 || c == 0xff0e || c == 0xff61 }

  /** Lower-case letters, digits and the hyphen: the ASCII a label may hold after mapping. */
  predicate IsLabelChar(c: CodePoint) { IsLower(c) || IsDigit(c) || c == HYPHEN }

  predicate NoUpper(s: Text) { forall c | c in s :: !IsUpper(c) }

  /**
   * What is relied on: ASCII that is not upper case is left alone and nothing
   * maps to an ASCII capital; unpaired surrogates are disallowed, and no letter,
   * digit or hyphen is.
   */
  ghost predicate Sane(t: Tables) {
    && (forall c: CodePoint | c < 0x80 && !IsUpper(c) :: t.fold(c) == [c])
    && (forall s: Text | IsAscii(s) :: t.nfc(s) == s)
    && (forall s: Text :: NoUpper(MapDomain(t, s)))
    && (forall c: CodePoint | IsSurrogate(c) :: t.disallowed(c))
    && (forall c: CodePoint | IsLabelChar(c) :: !t.disallowed(c))
  }

  // ---------------------------------------------------------------- mapping

  function MapChar(t: Tables, c: CodePoint): Text {
    if IsIgnorable(c) then []
    else if IsSeparator(c) then [DOT]
    else if c == 0x1e9e then [0x73, 0x73]
    else t.fold(c)
  }

  function MapChars(t: Tables, s: Text): Text { if s == [] then [] else MapChar(t, s[0]) + MapChars(t, s[1..]) }

  /** `mapDomain` */
  function MapDomain(t: Tables, s: Text): Text { t.nfc(MapChars(t, s)) }

  method MapDomainLoop(t: Tables, input: Text) returns (mapped: Text)
    ensures mapped == MapDomain(t, input)
  {
    var output: Text := [];
    for k := 0 to |input|
      invariant output + MapChars(t, input[k..]) == MapChars(t, input)
    {
      ghost var rest := MapChars(t, input[k + 1..]);
      assert input[k..][1..] == input[k + 1..];
      assert output + (MapChar(t, input[k]) + rest) == output + MapChar(t, input[k]) + rest;
      var c := input[k];
      if IsIgnorable(c) {
        assert output + [] == output;
        continue;
      }
      if IsSeparator(c) {
        output := output + [DOT];
        continue;
      }
      if c == 0x1e9e {
        output := output + [0x73, 0x73];
        continue;
      }
      output := output + t.fold(c);
    }
    assert output + [] == output;
    return t.nfc(output);
  }

  // ----------------------------------------------------------------- labels

  predicate Disallowed(t: Tables, s: Text) { exists c | c in s :: t.disallowed(c) }

  predicate StartsWith(s: Text, prefix: Text) { prefix <= s }

  /** `isValidLabelText` */
  predicate IsValidLabelText(t: Tables, name: Text) {
    var units := Utf16(name);
    && name != []
    && name[0] != HYPHEN && name[|name| - 1] != HYPHEN
    && !(|units| >= 4 && units[2] == HYPHEN && units[3] == HYPHEN && !StartsWith(name, ACE_PREFIX))
    && !t.mark(name[0])
  }

  /** `validateALabel` */
  function ValidateALabel(t: Tables, name: Text): Option<Text>
    requires StartsWith(name, ACE_PREFIX)
  {
    var decoded := Punycode.Decode(name[|ACE_PREFIX|..]);
    if decoded.None? || IsAscii(decoded.value) || Disallowed(t, decoded.value) then None
    else if !IsValidLabelText(t, decoded.value) then None
    else
      var encoded := Punycode.Encode(decoded.value);
      if encoded.None? || |encoded.value| + |ACE_PREFIX| > MAX_LABEL_LENGTH then None
      else Some(ACE_PREFIX + encoded.value)
  }

  /** `convertLabel` */
  function ConvertLabel(t: Tables, name: Text): Option<Text> {
    if name == [] || Disallowed(t, name) then None
    else if StartsWith(name, ACE_PREFIX) then ValidateALabel(t, name)
    else if exists c | c in name :: c < 0x80 && !IsLabelChar(c) then None
    else if !IsValidLabelText(t, name) then None
    else
      var encoded := if IsAscii(name) then Some(name) else Punycode.Encode(name);
      if encoded.None? || |encoded.value| > MAX_LABEL_LENGTH - |ACE_PREFIX| then None
      else if IsAscii(name) then encoded
      else Some(ACE_PREFIX + encoded.value)
  }

  function ConvertLabels(t: Tables, labels: seq<Text>): Option<seq<Text>> {
    if labels == [] then Some([])
    else
      var first, rest := ConvertLabel(t, labels[0]), ConvertLabels(t, labels[1..]);
      if first.None? || rest.None? then None else Some([first.value] + rest.value)
  }

  /** `toAsciiDomain` */
  function ToAsciiDomain(t: Tables, domain: Text): Option<Text> {
    var converted := ConvertLabels(t, SplitOn(MapDomain(t, domain), DOT));
    if converted.None? then None else Some(JoinWith(converted.value, DOT))
  }

  method ToAsciiDomainLoop(t: Tables, domain: Text) returns (r: Option<Text>)
    ensures r == ToAsciiDomain(t, domain)
  {
    hide ConvertLabel;
    var mapped := MapDomainLoop(t, domain);
    var labels := SplitOn(mapped, DOT);
    var ascii: seq<Text> := [];
    assert labels[0..] == labels;
    PrependedNothing(ConvertLabels(t, labels));
    for k := 0 to |labels|
      invariant ConvertLabels(t, labels) == Prepended(ascii, ConvertLabels(t, labels[k..]))
    {
      assert labels[k..][1..] == labels[k + 1..];
      var converted := ConvertLabel(t, labels[k]);
      if converted.None? { return None; }
      PrependedStep(ascii, converted.value, ConvertLabels(t, labels[k + 1..]));
      ascii := ascii + [converted.value];
    }
    assert labels[|labels|..] == [];
    assert ascii + [] == ascii;
    return Some(JoinWith(ascii, DOT));
  }

  function Prepended(done: seq<Text>, rest: Option<seq<Text>>): Option<seq<Text>> {
    if rest.None? then None else Some(done + rest.value)
  }

  lemma PrependedNothing(rest: Option<seq<Text>>)
    ensures Prepended([], rest) == rest
  {
    if rest.Some? { assert [] + rest.value == rest.value; }
  }

  lemma PrependedStep(done: seq<Text>, name: Text, rest: Option<seq<Text>>)
    ensures Prepended(done, if rest.None? then None else Some([name] + rest.value)) == Prepended(done + [name], rest)
  {
    if rest.Some? { assert done + ([name] + rest.value) == done + [name] + rest.value; }
  }

  // ------------------------------------------------------------ idempotence

  /** A text that Punycode carries both ways within the length of a label. */
  ghost predicate Carried(t: Tables, u: Text) {
    && !IsAscii(u) && !Disallowed(t, u) && IsValidLabelText(t, u)
    && Punycode.Encode(u).Some? && |Punycode.Encode(u).value| + |ACE_PREFIX| <= MAX_LABEL_LENGTH
  }

  lemma AllowedIsWellFormed(t: Tables, u: Text)
    requires Sane(t) && !Disallowed(t, u)
    ensures WellFormed(u)
  {
  }

  /** Encoding such a text and decoding the result gives it back. */
  lemma CarriedRoundTrip(t: Tables, u: Text)
    requires Sane(t) && Carried(t, u)
    ensures |u| <= 59 && WellFormed(u)
    ensures Punycode.Decode(Punycode.Encode(u).value) == Some(u)
  {
    hide Sane, IsValidLabelText, Disallowed;
    AllowedIsWellFormed(t, u);
    Punycode.EncodedIsNoShorter(u);
    Punycode.RoundTrip(u);
  }

  lemma CarriedEncodes(t: Tables, u: Text)
    requires Carried(t, u)
    ensures Punycode.Encode(u).Some?
  {
    hide Punycode.Encode, IsValidLabelText, Disallowed;
  }

  /** The characters of an encoding: ASCII of the text, hyphens, and digits of the encoding. */
  lemma EncodedChars(t: Tables, u: Text)
    requires Sane(t) && Carried(t, u)
    ensures IsAscii(Punycode.Encode(u).value)
    ensures forall c | c in Punycode.Encode(u).value :: c in u || IsLabelChar(c)
  {
    hide Sane, Carried, IsValidLabelText, Disallowed, Punycode.Below, Punycode.DecodeFrom, Punycode.Decode,
      Punycode.Encode;
    CarriedRoundTrip(t, u);
    CarriedEncodes(t, u);
    var e := Punycode.Encode(u).value;
    Punycode.EncodedShape(u);
    Punycode.BelowElements(u, Punycode.INITIAL_N);
    assert e == Punycode.Prefix(u) + e[|Punycode.Prefix(u)|..];
  }

  /** An A-label made from such a text is accepted as it is. */
  lemma ALabelIsStable(t: Tables, u: Text)
    requires Sane(t) && Carried(t, u)
    ensures ConvertLabel(t, ACE_PREFIX + Punycode.Encode(u).value) == Some(ACE_PREFIX + Punycode.Encode(u).value)
  {
    hide IsValidLabelText, Punycode.Encode, Punycode.Decode;
    var e := Punycode.Encode(u).value;
    var name := ACE_PREFIX + e;
    CarriedRoundTrip(t, u);
    EncodedChars(t, u);
    assert name[|ACE_PREFIX|..] == e;
    forall c | c in name ensures !t.disallowed(c) {
      assert c in ACE_PREFIX || c in e;
      assert IsLabelChar(c) || c in u;
    }
  }

  /** What an accepted label becomes: itself when it is ASCII, and otherwise the A-label of a text. */
  lemma ConvertedShape(t: Tables, name: Text) returns (u: Text)
    requires ConvertLabel(t, name).Some?
    ensures (ConvertLabel(t, name) == Some(name) && IsAscii(name) && !StartsWith(name, ACE_PREFIX))
      || (Carried(t, u) && ConvertLabel(t, name) == Some(ACE_PREFIX + Punycode.Encode(u).value)
          && u == if StartsWith(name, ACE_PREFIX) then Punycode.Decode(name[|ACE_PREFIX|..]).value else name)
  {
    hide IsValidLabelText, Punycode.Encode, Punycode.Decode, Disallowed;
    u := name;
    if StartsWith(name, ACE_PREFIX) {
      u := Punycode.Decode(name[|ACE_PREFIX|..]).value;
    }
  }

  /** A second conversion leaves every accepted label as it is, through the A-label branch or the ASCII one. */
  lemma ConvertLabelIsIdempotent(t: Tables, name: Text)
    requires Sane(t) && ConvertLabel(t, name).Some?
    ensures ConvertLabel(t, ConvertLabel(t, name).value) == ConvertLabel(t, name)
  {
    hide ConvertLabel, Carried, Sane;
    var u := ConvertedShape(t, name);
    if ConvertLabel(t, name) != Some(name) {
      ALabelIsStable(t, u);
    }
  }

  /** ASCII that the mapping leaves alone, within one label. */
  predicate Settled(name: Text) { IsAscii(name) && NoUpper(name) && DOT !in name }

  /** An accepted label of a mapped domain becomes ASCII without capitals and dots. */
  lemma ConvertedIsSettled(t: Tables, name: Text)
    requires Sane(t) && ConvertLabel(t, name).Some? && NoUpper(name) && DOT !in name
    ensures Settled(ConvertLabel(t, name).value)
  {
    hide ConvertLabel, Sane, IsValidLabelText, Disallowed, Punycode.Decode, Punycode.Encode;
    var u := ConvertedShape(t, name);
    if !(ConvertLabel(t, name) == Some(name) && IsAscii(name)) {
      EncodedChars(t, u);
      if StartsWith(name, ACE_PREFIX) {
        DecodableALabel(t, name);
        Punycode.DecodedAscii(name[|ACE_PREFIX|..]);
      }
      var e := Punycode.Encode(u).value;
      forall c | c in ACE_PREFIX + e ensures c < 0x80 && !IsUpper(c) && c != DOT {
        assert c in ACE_PREFIX || c in e;
      }
    }
  }

  lemma DecodableALabel(t: Tables, name: Text)
    requires ConvertLabel(t, name).Some? && StartsWith(name, ACE_PREFIX)
    ensures Punycode.Decode(name[|ACE_PREFIX|..]).Some?
  {
    hide Punycode.Decode, Punycode.Encode;
  }

  lemma {:induction false} ConvertedLabels(t: Tables, labels: seq<Text>)
    requires Sane(t) && ConvertLabels(t, labels).Some?
    requires forall l | l in labels :: NoUpper(l) && DOT !in l
    ensures var converted := ConvertLabels(t, labels).value;
      && |converted| == |labels|
      && ConvertLabels(t, converted) == Some(converted)
      && forall l | l in converted :: Settled(l)
  {
    hide ConvertLabel, Sane, NoUpper, Settled;
    if labels == [] {
    } else {
      assert labels[0] in labels && forall l | l in labels[1..] :: l in labels;
      var first, rest := ConvertLabel(t, labels[0]).value, ConvertLabels(t, labels[1..]).value;
      ConvertedLabels(t, labels[1..]);
      ConvertedIsSettled(t, labels[0]);
      ConvertLabelIsIdempotent(t, labels[0]);
      assert ([first] + rest)[1..] == rest;
    }
  }

  lemma MapCharSettled(t: Tables, c: CodePoint)
    requires c < 0x80 && !IsUpper(c) && t.fold(c) == [c]
    ensures MapChar(t, c) == [c]
  {
  }

  lemma {:induction false} MapSettled(t: Tables, s: Text)
    requires (forall c: CodePoint | c < 0x80 && !IsUpper(c) :: t.fold(c) == [c]) && IsAscii(s) && NoUpper(s)
    ensures MapChars(t, s) == s
  {
    hide MapChar;
    if s == [] {
    } else {
      assert s[0] in s && forall c | c in s[1..] :: c in s;
      MapSettled(t, s[1..]);
      MapCharSettled(t, s[0]);
      assert s == [s[0]] + s[1..];
    }
  }

  lemma MapStays(t: Tables, s: Text)
    requires Sane(t) && IsAscii(s) && NoUpper(s)
    ensures MapDomain(t, s) == s
  {
    MapSettled(t, s);
  }

  lemma {:induction false} JoinSettled(labels: seq<Text>)
    requires forall l | l in labels :: Settled(l)
    ensures IsAscii(JoinWith(labels, DOT)) && NoUpper(JoinWith(labels, DOT))
    decreases |labels|
  {
    if labels == [] {
    } else {
      assert labels[0] in labels && forall l | l in labels[1..] :: l in labels;
      JoinSettled(labels[1..]);
    }
  }

  /** A converted domain is ASCII without capitals, and converts to itself. */
  lemma ToAsciiIsIdempotent(t: Tables, domain: Text)
    requires Sane(t) && ToAsciiDomain(t, domain).Some?
    ensures var ascii := ToAsciiDomain(t, domain).value;
      IsAscii(ascii) && NoUpper(ascii) && ToAsciiDomain(t, ascii) == Some(ascii)
  {
    hide Sane, ConvertLabels, NoUpper, Settled, MapDomain;
    var mapped := MapDomain(t, domain);
    MappedHasNoUpper(t, domain);
    var labels := SplitOn(mapped, DOT);
    MappedLabels(mapped);
    ConvertedLabels(t, labels);
    var converted := ConvertLabels(t, labels).value;
    JoinSettled(converted);
    MapStays(t, JoinWith(converted, DOT));
    SettledHasNoDot(converted);
    SplitOfJoin(converted, DOT);
  }

  lemma MappedHasNoUpper(t: Tables, s: Text)
    requires Sane(t)
    ensures NoUpper(MapDomain(t, s))
  {
  }

  lemma MappedLabels(mapped: Text)
    requires NoUpper(mapped)
    ensures forall l | l in SplitOn(mapped, DOT) :: NoUpper(l) && DOT !in l
  {
    PiecesOf(mapped, DOT);
  }

  lemma SettledHasNoDot(labels: seq<Text>)
    requires forall l | l in labels :: Settled(l)
    ensures forall l | l in labels :: DOT !in l
  {
  }

  /**
   * The conversion caps an ASCII label at 59 octets, the room an A-label has
   * after its prefix, although 63 are allowed: it refuses exactly the longer ones.
   */
  lemma LongAsciiLabelRefused(t: Tables, name: Text)
    requires Sane(t) && name != [] && (forall c | c in name :: IsLabelChar(c)) && !StartsWith(name, ACE_PREFIX)
    requires IsValidLabelText(t, name)
    ensures ConvertLabel(t, name) == if |name| <= 59 then Some(name) else None
  {
    hide IsValidLabelText;
    assert !Disallowed(t, name);
  }

  /** Tables with these properties exist: ASCII lower-casing alone is one choice. */
  lemma SaneTables() returns (t: Tables)
    ensures Sane(t)
  {
    t := Tables((c: CodePoint) => [LowerChar(c)], (s: Text) => s, (c: CodePoint) => IsSurrogate(c), (c: CodePoint) => false);
    forall s: Text ensures NoUpper(MapDomain(t, s)) {
      LowerMaps(t, s);
    }
  }

  lemma {:induction false} LowerMaps(t: Tables, s: Text)
    requires forall c: CodePoint :: t.fold(c) == [LowerChar(c)]
    ensures NoUpper(MapChars(t, s))
  {
    if s == [] {
    } else {
      LowerMaps(t, s[1..]);
      LowerMapsChar(t, s[0]);
    }
  }

  lemma LowerMapsChar(t: Tables, c: CodePoint)
    requires t.fold(c) == [LowerChar(c)]
    ensures NoUpper(MapChar(t, c))
  {
  }
}
