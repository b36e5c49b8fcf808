/**
 * The grammar of `src/address.ts`, from folding white space to the `addr-spec`:
 * what each part of the recursive-descent parser makes of the text at its cursor.
 */
module AddressGrammar {
  import opened Common
  import opened AddressErrors

  const OPEN_PAREN: CodePoint := 0x28
  const CLOSE_PAREN: CodePoint := 0x29
  const COMMA: CodePoint := 0x2c
  const COLON: CodePoint := 0x3a
  const SEMICOLON: CodePoint := 0x3b
  const LESS: CodePoint := 0x3c
  const GREATER: CodePoint := 0x3e
  const AT: CodePoint := 0x40
  const OPEN_BRACKET: CodePoint := 0x5b
  const CLOSE_BRACKET: CodePoint := 0x5d

  /** A value and how many code points it took, or the reason there is none. */
  datatype Parsed<+T> = Parsed(value: T, size: nat) | Failed(kind: Kind)

  /** `isControlChar` */
  predicate IsControl(c: CodePoint) { (c < 0x20 && c != TAB) || c == 0x7f }

  /** `isAtext` */
  predicate IsAtext(c: CodePoint) {
    IsAlnum(c)
    || c in {0x21, 0x23, 0x24, 0x25, 0x26, 0x27, 0x2a, 0x2b, 0x2d, 0x2f, 0x3d, 0x3f, 0x5e, 0x5f, 0x60, 0x7b, 0x7c, 0x7d, 0x7e}
  }

  /** What `canStartAtom` accepts. */
  predicate IsAtomChar(c: CodePoint) { IsAtext(c) || c >= 0x80 }

  predicate Starts(s: Text, c: CodePoint) { s != [] && s[0] == c }

  // ------------------------------------------------------- white space, comments

  function Blanks(s: Text): (n: nat)
    ensures n <= |s|
  {
    if s != [] && IsWhite(s[0]) then 1 + Blanks(s[1..]) else 0
  }

  /** `consumeFoldedWhitespace`: CRLF and the blanks after it, of which there must be one. */
  function Folded(s: Text): (r: Parsed<()>)
    requires s != [] && IsBreak(s[0])
    ensures r.Parsed? ==> 3 <= r.size <= |s|
  {
    if s[0] == CR && |s| >= 3 && s[1] == LF && IsWhite(s[2]) then Parsed((), 3 + Blanks(s[3..]))
    else Failed(InvalidLineEnding)
  }

  function Longer<T>(n: nat, r: Parsed<T>): Parsed<T> {
    match r
    case Failed(k) => Failed(k)
    case Parsed(v, size) => Parsed(v, n + size)
  }

  /** `skipFws`: whether anything was skipped. */
  function SkipFws(s: Text): (r: Parsed<bool>)
    ensures r.Parsed? ==> r.size <= |s| && (r.value <==> r.size > 0)
    decreases |s|
  {
    if s == [] then Parsed(false, 0)
    else if IsWhite(s[0]) then
      var rest := SkipFws(s[1..]);
      if rest.Failed? then rest else Parsed(true, 1 + rest.size)
    else if IsBreak(s[0]) then
      var fold := Folded(s);
      if fold.Failed? then Failed(fold.kind)
      else
        var rest := SkipFws(s[fold.size..]);
        if rest.Failed? then rest else Parsed(true, fold.size + rest.size)
    else Parsed(false, 0)
  }

  /** `consumeComment` behind its opening parenthesis, `depth` comments deep; the text is not kept. */
  function Comment(s: Text, depth: nat): (r: Parsed<()>)
    requires depth > 0
    ensures r.Parsed? ==> 0 < r.size <= |s|
    decreases |s|
  {
    if s == [] then Failed(InvalidHeaderValue)
    else if s[0] == OPEN_PAREN then Longer(1, Comment(s[1..], depth + 1))
    else if s[0] == CLOSE_PAREN then if depth == 1 then Parsed((), 1) else Longer(1, Comment(s[1..], depth - 1))
    else if s[0] == BACKSLASH then
      if |s| < 2 then Failed(InvalidHeaderValue)
      else if IsBreak(s[1]) then Failed(InvalidLineEnding)
      else Longer(2, Comment(s[2..], depth))
    else if IsBreak(s[0]) then
      var fold := Folded(s);
      if fold.Failed? then Failed(fold.kind) else Longer(fold.size, Comment(s[fold.size..], depth))
    else if IsControl(s[0]) then Failed(InvalidHeaderValue)
    else Longer(1, Comment(s[1..], depth))
  }

  /** `skipCfws`: whether anything was skipped. */
  function SkipCfws(s: Text): (r: Parsed<bool>)
    ensures r.Parsed? ==> r.size <= |s| && (r.value <==> r.size > 0)
    decreases |s|
  {
    var fws := SkipFws(s);
    if fws.Failed? || !Starts(s[fws.size..], OPEN_PAREN) then fws
    else
      var comment := Comment(s[fws.size + 1..], 1);
      if comment.Failed? then Failed(comment.kind)
      else
        var size := fws.size + 1 + comment.size;
        var rest := SkipCfws(s[size..]);
        if rest.Failed? then rest else Parsed(true, size + rest.size)
  }

  // ----------------------------------------------------------------- words

  function AtomSize(s: Text): (n: nat)
    ensures n <= |s|
    ensures n < |s| ==> !IsAtomChar(s[n])
    ensures forall k | 0 <= k < n :: IsAtomChar(s[k])
  {
    if s != [] && IsAtomChar(s[0]) then 1 + AtomSize(s[1..]) else 0
  }

  /** `parseAtom` */
  function Atom(s: Text): (r: Parsed<Text>)
    ensures r.Parsed? ==> 0 < r.size <= |s|
  {
    if AtomSize(s) == 0 then Failed(InvalidLocalPart) else Parsed(s[..AtomSize(s)], AtomSize(s))
  }

  /** One more character in front of what was read, `n` code points further. */
  function Prefixed(c: CodePoint, n: nat, r: Parsed<Text>): Parsed<Text> {
    match r
    case Failed(k) => Failed(k)
    case Parsed(v, size) => Parsed([c] + v, n + size)
  }

  /** `parseQuotedString` behind its opening quote. */
  function QuotedBody(s: Text): (r: Parsed<Text>)
    ensures r.Parsed? ==> 0 < r.size <= |s|
    decreases |s|
  {
    if s == [] then Failed(InvalidHeaderValue)
    else if s[0] == DQUOTE then Parsed([], 1)
    else if s[0] == BACKSLASH then
      if |s| < 2 then Failed(InvalidHeaderValue)
      else if IsBreak(s[1]) then Failed(InvalidLineEnding)
      else Prefixed(s[1], 2, QuotedBody(s[2..]))
    else if IsBreak(s[0]) then
      var fold := Folded(s);
      if fold.Failed? then Failed(fold.kind) else Prefixed(SPACE, fold.size, QuotedBody(s[fold.size..]))
    else if IsControl(s[0]) then Failed(InvalidHeaderValue)
    else Prefixed(s[0], 1, QuotedBody(s[1..]))
  }

  function QuotedString(s: Text): (r: Parsed<Text>)
    ensures r.Parsed? ==> 0 < r.size <= |s|
  {
    if Starts(s, DQUOTE) then Longer(1, QuotedBody(s[1..])) else Failed(InvalidLocalPart)
  }

  /** `parseDomainLiteral` behind its opening bracket. */
  function LiteralBody(s: Text): (r: Parsed<Text>)
    ensures r.Parsed? ==> 0 < r.size <= |s|
    decreases |s|
  {
    if s == [] then Failed(InvalidDomainLiteral)
    else if s[0] == CLOSE_BRACKET then Parsed([], 1)
    else if s[0] == BACKSLASH then
      if |s| < 2 || IsBreak(s[1]) then Failed(InvalidDomainLiteral)
      else Prefixed(s[1], 2, LiteralBody(s[2..]))
    else if IsWhite(s[0]) || IsBreak(s[0]) then
      var fws := SkipFws(s);
      if fws.Failed? then Failed(fws.kind) else assert fws.size > 0; Longer(fws.size, LiteralBody(s[fws.size..]))
    else if s[0] < 0x21 || s[0] > 0x7e || s[0] == OPEN_BRACKET then Failed(InvalidDomainLiteral)
    else Prefixed(s[0], 1, LiteralBody(s[1..]))
  }

  // ------------------------------------------------------------- addr-spec

  /** The dot behind a segment at the start of `s`, with the CFWS around it; no size when there is none. */
  function DotBehind(s: Text): (r: Parsed<bool>)
    ensures r.Parsed? ==> r.size <= |s| && (r.value <==> r.size > 0)
  {
    var before := SkipCfws(s);
    if before.Failed? then before
    else if !Starts(s[before.size..], DOT) then Parsed(false, 0)
    else
      var after := SkipCfws(s[before.size + 1..]);
      if after.Failed? then after else Parsed(true, before.size + 1 + after.size)
  }

  /** A segment, a dot, and what comes after it. */
  function DotJoined(head: Text, n: nat, r: Parsed<Text>): Parsed<Text> {
    match r
    case Failed(k) => Failed(k)
    case Parsed(v, size) => Parsed(head + [DOT] + v, n + size)
  }

  function LocalSegment(s: Text): (r: Parsed<Text>)
    ensures r.Parsed? ==> 0 < r.size <= |s|
  {
    if s == [] || s[0] in {AT, LESS, GREATER, COMMA} then Failed(InvalidLocalPart)
    else if s[0] == DQUOTE then QuotedString(s)
    else Atom(s)
  }

  /** `parseLocalPart` */
  function LocalPart(s: Text): (r: Parsed<Text>)
    ensures r.Parsed? ==> 0 < r.size <= |s|
    decreases |s|
  {
    var segment := LocalSegment(s);
    if segment.Failed? then segment
    else
      var dot := DotBehind(s[segment.size..]);
      if dot.Failed? then Failed(dot.kind)
      else if !dot.value then segment
      else
        var n := segment.size + dot.size;
        DotJoined(segment.value, n, LocalPart(s[n..]))
  }

  function Label(s: Text): (r: Parsed<Text>)
    ensures r.Parsed? ==> 0 < r.size <= |s|
  {
    if AtomSize(s) > 0 then Atom(s)
    else Failed(if s == [] || s[0] == GREATER || s[0] == COMMA then DomainEmpty else InvalidDomain)
  }

  /** The labels of a domain name, joined by dots. */
  function DomainName(s: Text): (r: Parsed<Text>)
    ensures r.Parsed? ==> 0 < r.size <= |s|
    decreases |s|
  {
    var first := Label(s);
    if first.Failed? then first
    else
      var dot := DotBehind(s[first.size..]);
      if dot.Failed? then Failed(dot.kind)
      else if !dot.value then first
      else
        var n := first.size + dot.size;
        DotJoined(first.value, n, DomainName(s[n..]))
  }

  datatype DomainText = DomainText(text: Text, literal: bool)

  /** `parseDomain` */
  function DomainPart(s: Text): (r: Parsed<DomainText>)
    ensures r.Parsed? ==> 0 < r.size <= |s|
  {
    var text := if Starts(s, OPEN_BRACKET) then Longer(1, LiteralBody(s[1..])) else DomainName(s);
    match text
    case Failed(k) => Failed(k)
    case Parsed(v, size) => Parsed(DomainText(v, Starts(s, OPEN_BRACKET)), size)
  }

  datatype Shape = Shape(localPart: Text, domain: DomainText)

  /** `parseAddrSpecShape` */
  function AddrSpec(s: Text): (r: Parsed<Shape>)
    ensures r.Parsed? ==> 0 < r.size <= |s|
  {
    var local := LocalPart(s);
    if local.Failed? then Failed(local.kind)
    else
      var before := SkipCfws(s[local.size..]);
      if before.Failed? then Failed(before.kind)
      else
        var at := local.size + before.size;
        if !Starts(s[at..], AT) then Failed(MissingAt)
        else
          var after := SkipCfws(s[at + 1..]);
          if after.Failed? then Failed(after.kind)
          else
            var start := at + 1 + after.size;
            var domain := DomainPart(s[start..]);
            if domain.Failed? then Failed(domain.kind)
            else Parsed(Shape(local.value, domain.value), start + domain.size)
  }

  // ---------------------------------------------------------------- phrase

  function PhraseWord(s: Text, output: Text): (r: Parsed<Text>)
    requires s != []
    ensures r.Parsed? ==> 0 < r.size <= |s|
  {
    if s[0] == DOT then if output == [] then Failed(InvalidAddress) else Parsed([DOT], 1)
    else if s[0] == DQUOTE then QuotedString(s)
    else Atom(s)
  }

  predicate EndsPhrase(s: Text) { s == [] || s[0] in {LESS, COLON, AT, COMMA} }

  /** `parsePhrase`, with what was collected so far and whether a space is due. */
  function Phrase(s: Text, output: Text, pendingSpace: bool): (r: Parsed<Text>)
    ensures r.Parsed? ==> r.size <= |s|
    decreases |s|
  {
    var cfws := SkipCfws(s);
    if cfws.Failed? then Failed(cfws.kind)
    else
      var rest := s[cfws.size..];
      if EndsPhrase(rest) then Parsed(output, cfws.size)
      else
        var word := PhraseWord(rest, output);
        if word.Failed? then word
        else
          var space := if (pendingSpace || cfws.value) && output != [] then [SPACE] else [];
          var n := cfws.size + word.size;
          Longer(n, Phrase(s[n..], output + space + word.value, false))
  }
}
