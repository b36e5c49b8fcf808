/**
 * Mailboxes: validation, formatting, and the entities, groups and lists that
 * `src/address.ts` parses.
 */
module Address {
  import opened Common
  import opened Strings
  import opened AddressErrors
  import opened AddressGrammar
  import Domain
  import EncodedWord
  import Idna

  const MAX_LOCAL_PART_OCTETS: nat := 64
  const MAX_ADDRESS_OCTETS: nat := 254

  /** What the platform provides: Unicode tables, and the character sets besides UTF-8 and US-ASCII. */
  datatype Platform = Platform(tables: Idna.Tables, charsets: EncodedWord.Charsets)

  datatype Mailbox = Mailbox(localPart: Text, domain: Text, displayName: Option<Text>)

  // ------------------------------------------------------------- formatting

  /** `needsQuoting` */
  predicate NeedsQuoting(local: Text) {
    || local == []
    || (IsAscii(local)
        && (|| local[0] == DOT || local[|local| - 1] == DOT
            || (exists i | 0 <= i < |local| - 1 :: local[i] == DOT && local[i + 1] == DOT)
            || (exists c | c in local :: !IsAtext(c) && c != DOT)))
  }

  function Quote(s: Text): Text { [DQUOTE] + Escape(s) + [DQUOTE] }

  function Serialized(local: Text): Text { if NeedsQuoting(local) then Quote(local) else local }

  /** `mailboxToString` */
  function MailboxToString(m: Mailbox): Text {
    if m.localPart == [] && m.domain == [] then [] else Serialized(m.localPart) + [AT] + m.domain
  }

  predicate IsSeparatorChar(c: CodePoint) { c == 0x2028 || c == 0x2029 }

  /** `containsForbiddenDisplayChar` */
  predicate Forbidden(s: Text) {
    exists c | c in s :: (c < 0x20 && c != TAB) || 0x7f <= c <= 0x9f || IsSeparatorChar(c)
  }

  /** The characters that force quoting wherever they stand. */
  predicate IsSpecial(c: CodePoint) {
    c in {0x22, 0x28, 0x29, 0x2c, 0x2e, 0x3a, 0x3b, 0x3c, 0x3e, 0x40, 0x5b, 0x5c, 0x5d}
  }

  /** `needsDisplayNameQuoting` */
  predicate NeedsNameQuoting(name: Text)
    requires name != []
  {
    || (exists c | c in name :: IsSpecial(c))
    || IsWhite(name[0]) || IsWhite(name[|name| - 1])
    || (exists i | 0 <= i < |name| - 1 :: IsWhite(name[i]) && IsWhite(name[i + 1]))
  }

  /** How a display name stands in front of an address. */
  function FormatName(name: Text): Text
    requires name != []
  {
    if !IsAscii(name) then EncodedWord.Encode(name)
    else if NeedsNameQuoting(name) then Quote(name)
    else name
  }

  /** `formatAddress` */
  function FormatAddress(m: Mailbox): Result<Text, Kind> {
    if m.displayName.None? || m.displayName.value == [] then Ok(MailboxToString(m))
    else if Forbidden(m.displayName.value) then Err(InvalidHeaderValue)
    else Ok(FormatName(m.displayName.value) + [SPACE, LESS] + MailboxToString(m) + [GREATER])
  }

  /** `formatAddressList` */
  function FormatAddressList(ms: seq<Mailbox>): Result<Text, Kind> {
    if ms == [] then Ok([])
    else
      var first := FormatAddress(ms[0]);
      if first.Err? || |ms| == 1 then first
      else
        var rest := FormatAddressList(ms[1..]);
        if rest.Err? then rest else Ok(first.value + [COMMA, SPACE] + rest.value)
  }

  // ------------------------------------------------------------- validation

  /** `assertPathSafe` */
  predicate PathSafe(local: Text) {
    forall c | c in local :: c >= 0x20 && !(0x7f <= c <= 0x9f) && !IsSeparatorChar(c)
  }

  /** `makeMailbox` */
  function MakeMailbox(local: Text, domain: Text): Result<Mailbox, Kind> {
    if !PathSafe(local) then Err(InvalidLocalPart)
    else
      var octets := Domain.Octets(Serialized(local));
      if octets > MAX_LOCAL_PART_OCTETS then Err(LocalPartTooLong)
      else if octets + 1 + Domain.Octets(domain) > MAX_ADDRESS_OCTETS then Err(AddressTooLong)
      else Ok(Mailbox(local, domain, None))
  }

  function NormalizedDomain(env: Platform, domain: DomainText): Result<Text, Kind> {
    if domain.literal then Domain.NormalizeDomainLiteral(domain.text)
    else Domain.NormalizeDomain(env.tables, domain.text)
  }

  /** A shape whose texts are taken as JavaScript strings: halves that unescaping brought together are one character. */
  function Whole(shape: Shape): Shape { Shape(Merge(shape.localPart), WholeDomain(shape.domain)) }

  function WholeDomain(domain: DomainText): DomainText { DomainText(Merge(domain.text), domain.literal) }

  /** `toMailbox` */
  function ToMailbox(env: Platform, shape: Shape): Result<Mailbox, Kind> {
    var whole := Whole(shape);
    if !WellFormed(whole.localPart) || !WellFormed(whole.domain.text) then Err(InvalidUtf8)
    else
      var domain := NormalizedDomain(env, whole.domain);
      if domain.Err? then Err(domain.error) else MakeMailbox(whole.localPart, domain.value)
  }

  // ---------------------------------------------------------------- parsing

  /** `parseAngleAddr` */
  function AngleAddr(env: Platform, s: Text): (r: Parsed<Mailbox>)
    ensures r.Parsed? ==> 0 < r.size <= |s|
  {
    var before := SkipCfws(s);
    if before.Failed? then Failed(before.kind)
    else if !Starts(s[before.size..], LESS) then Failed(InvalidAddress)
    else
      var inner := SkipCfws(s[before.size + 1..]);
      if inner.Failed? then Failed(inner.kind)
      else
        var start := before.size + 1 + inner.size;
        var shape := AddrSpec(s[start..]);
        if shape.Failed? then Failed(shape.kind)
        else
          var after := SkipCfws(s[start + shape.size..]);
          if after.Failed? then Failed(after.kind)
          else
            var end := start + shape.size + after.size;
            if !Starts(s[end..], GREATER) then Failed(InvalidAddress)
            else
              var mailbox := ToMailbox(env, shape.value);
              if mailbox.Err? then Failed(mailbox.error) else Parsed(mailbox.value, end + 1)
  }

  /** The name `raw` stands for; `None` for a character set nobody knows. */
  function Shown(env: Platform, raw: Text): Option<Text> {
    var decoded := EncodedWord.Decode(env.charsets, Merge(raw));
    if decoded.None? then None else Some(Merge(decoded.value))
  }

  /** `finalizeDisplayName` */
  function FinalizeDisplayName(env: Platform, raw: Text): Result<Option<Text>, Kind> {
    if raw == [] then Ok(None)
    else
      var name := Shown(env, raw);
      if name.None? then Err(UnsupportedCharset)
      else if Forbidden(name.value) then Err(InvalidHeaderValue)
      else Ok(if name.value == [] then None else name)
  }

  /** What an entity turns out to be: one mailbox, or a group, whose colon comes next. */
  datatype Entity = One(mailbox: Mailbox) | GroupColon

  predicate EndsEntry(s: Text) { s == [] || s[0] == COMMA || s[0] == SEMICOLON }

  /** A bare `addr-spec` that fills the entry; `GroupColon` stands for "none, go on with a phrase". */
  function BareAddress(env: Platform, s: Text): (r: Parsed<Option<Mailbox>>)
    ensures r.Parsed? ==> r.size <= |s| && (if r.value.Some? then r.size > 0 else r.size == 0)
  {
    var shape := AddrSpec(s);
    if shape.Failed? then
      if shape.kind == MissingAt || shape.kind == InvalidLocalPart then Parsed(None, 0) else Failed(shape.kind)
    else
      var after := SkipCfws(s[shape.size..]);
      if after.Failed? then Failed(after.kind)
      else if !EndsEntry(s[shape.size + after.size..]) then Parsed(None, 0)
      else
        var mailbox := ToMailbox(env, shape.value);
        if mailbox.Err? then Failed(mailbox.error) else Parsed(Some(mailbox.value), shape.size + after.size)
  }

  /** A phrase, and the address in angle brackets or the group colon behind it. */
  function NamedEntity(env: Platform, s: Text): (r: Parsed<Entity>)
    ensures r.Parsed? ==> r.size <= |s| && (if r.value.GroupColon? then Starts(s[r.size..], COLON) else r.size > 0)
  {
    var phrase := Phrase(s, [], false);
    if phrase.Failed? then Failed(phrase.kind)
    else
      var after := SkipCfws(s[phrase.size..]);
      if after.Failed? then Failed(after.kind)
      else
        var n := phrase.size + after.size;
        if Starts(s[n..], COLON) then Parsed(GroupColon, n)
        else if !Starts(s[n..], LESS) then Failed(InvalidAddress)
        else
          var mailbox := AngleAddr(env, s[n..]);
          if mailbox.Failed? then Failed(mailbox.kind)
          else
            var name := FinalizeDisplayName(env, phrase.value);
            if name.Err? then Failed(name.error)
            else Parsed(One(mailbox.value.(displayName := name.value)), n + mailbox.size)
  }

  /** `parseEntity`, up to the colon of a group. */
  function ParseEntity(env: Platform, s: Text): (r: Parsed<Entity>)
    ensures r.Parsed? ==> r.size <= |s| && (if r.value.GroupColon? then Starts(s[r.size..], COLON) else r.size > 0)
  {
    var cfws := SkipCfws(s);
    if cfws.Failed? then Failed(cfws.kind)
    else
      var rest := s[cfws.size..];
      if Starts(rest, LESS) then
        var angle := AngleAddr(env, rest);
        if angle.Failed? then Failed(angle.kind) else Parsed(One(angle.value), cfws.size + angle.size)
      else if Starts(rest, AT) then Failed(LocalPartEmpty)
      else
        var bare := BareAddress(env, rest);
        if bare.Failed? then Failed(bare.kind)
        else if bare.value.Some? then Parsed(One(bare.value.value), cfws.size + bare.size)
        else Longer(cfws.size, NamedEntity(env, rest))
  }

  /** An entity where no group may stand. */
  function ParseMailbox(env: Platform, s: Text): (r: Parsed<Mailbox>)
    ensures r.Parsed? ==> 0 < r.size <= |s|
  {
    match ParseEntity(env, s)
    case Failed(k) => Failed(k)
    case Parsed(GroupColon, _) => Failed(InvalidAddress)
    case Parsed(One(m), size) => Parsed(m, size)
  }

  /** `parse`: exactly one mailbox. */
  function Parse(env: Platform, s: Text): Result<Mailbox, Kind> {
    var mailbox := ParseMailbox(env, s);
    if mailbox.Failed? then Err(mailbox.kind)
    else
      var after := SkipCfws(s[mailbox.size..]);
      if after.Failed? then Err(after.kind)
      else if mailbox.size + after.size < |s| then Err(InvalidAddress)
      else Ok(mailbox.value)
  }

  function Counted(n: nat, first: seq<Mailbox>, r: Parsed<seq<Mailbox>>): Parsed<seq<Mailbox>> {
    match r
    case Failed(k) => Failed(k)
    case Parsed(ms, size) => Parsed(first + ms, n + size)
  }

  /** A comma and the CFWS behind it: something else than the end or another separator must follow. */
  function Separator(s: Text, inGroup: bool): (r: Parsed<()>)
    ensures r.Parsed? ==> 0 < r.size <= |s|
  {
    if !Starts(s, COMMA) then Failed(InvalidAddress)
    else
      var behind := SkipCfws(s[1..]);
      if behind.Failed? then Failed(behind.kind)
      else
        var next := s[1 + behind.size..];
        if next == [] || Starts(next, COMMA) || (inGroup && Starts(next, SEMICOLON)) then Failed(InvalidAddress)
        else Parsed((), 1 + behind.size)
  }

  /** One member of a group, and whether another one must follow. */
  function Member(env: Platform, s: Text): (r: Parsed<(Mailbox, bool)>)
    ensures r.Parsed? ==> 0 < r.size <= |s|
  {
    var mailbox := ParseMailbox(env, s);
    if mailbox.Failed? then Failed(mailbox.kind)
    else
      var after := SkipCfws(s[mailbox.size..]);
      if after.Failed? then Failed(after.kind)
      else
        var n := mailbox.size + after.size;
        if Starts(s[n..], SEMICOLON) then Parsed((mailbox.value, false), n + 1)
        else
          var comma := Separator(s[n..], true);
          if comma.Failed? then Failed(comma.kind) else Parsed((mailbox.value, true), n + comma.size)
  }

  /** The members of a group, up to and including its semicolon. */
  function GroupMembers(env: Platform, s: Text): (r: Parsed<seq<Mailbox>>)
    ensures r.Parsed? ==> 0 < r.size <= |s|
    decreases |s|
  {
    var member := Member(env, s);
    if member.Failed? then Failed(member.kind)
    else if !member.value.1 then Parsed([member.value.0], member.size)
    else Counted(member.size, [member.value.0], GroupMembers(env, s[member.size..]))
  }

  /** Commas with CFWS behind each: how many there are, and how far they reach. */
  function SkipCommas(s: Text): (r: Parsed<nat>)
    ensures r.Parsed? ==> r.size <= |s| && !Starts(s[r.size..], COMMA)
    ensures r.Parsed? ==> (r.value == 0 <==> r.size == 0)
    decreases |s|
  {
    if !Starts(s, COMMA) then Parsed(0, 0)
    else
      var cfws := SkipCfws(s[1..]);
      if cfws.Failed? then Failed(cfws.kind)
      else
        var rest := SkipCommas(s[1 + cfws.size..]);
        if rest.Failed? then rest
        else
          assert s[1 + cfws.size..][rest.size..] == s[1 + cfws.size + rest.size..];
          Parsed(rest.value + 1, 1 + cfws.size + rest.size)
  }

  /** `parseGroup`, from the colon on. */
  function ParseGroup(env: Platform, s: Text): (r: Parsed<seq<Mailbox>>)
    requires Starts(s, COLON)
    ensures r.Parsed? ==> 0 < r.size <= |s|
  {
    var cfws := SkipCfws(s[1..]);
    if cfws.Failed? then Failed(cfws.kind)
    else
      var commas := SkipCommas(s[1 + cfws.size..]);
      if commas.Failed? then Failed(commas.kind)
      else
        var n := 1 + cfws.size + commas.size;
        if Starts(s[n..], SEMICOLON) then Parsed([], n + 1)
        else if commas.value > 0 then Failed(InvalidAddress)
        else Longer(n, GroupMembers(env, s[n..]))
  }

  /** One entry of a list: a mailbox, or the members of a group. */
  function ParseEntry(env: Platform, s: Text): (r: Parsed<seq<Mailbox>>)
    ensures r.Parsed? ==> 0 < r.size <= |s|
  {
    match ParseEntity(env, s)
    case Failed(k) => Failed(k)
    case Parsed(One(m), size) => Parsed([m], size)
    case Parsed(GroupColon, size) => Longer(size, ParseGroup(env, s[size..]))
  }

  /** One entry of a list, and whether another one must follow. */
  function ListEntry(env: Platform, s: Text): (r: Parsed<(seq<Mailbox>, bool)>)
    ensures r.Parsed? ==> 0 < r.size <= |s|
  {
    var entry := ParseEntry(env, s);
    if entry.Failed? then Failed(entry.kind)
    else
      var after := SkipCfws(s[entry.size..]);
      if after.Failed? then Failed(after.kind)
      else
        var n := entry.size + after.size;
        if n == |s| then Parsed((entry.value, false), n)
        else
          var comma := Separator(s[n..], false);
          if comma.Failed? then Failed(comma.kind) else Parsed((entry.value, true), n + comma.size)
  }

  function AppendedTo(first: seq<Mailbox>, rest: Result<seq<Mailbox>, Kind>): Result<seq<Mailbox>, Kind> {
    if rest.Err? then rest else Ok(first + rest.value)
  }

  /** The entries of a list that is not empty. */
  function ParseEntries(env: Platform, s: Text): Result<seq<Mailbox>, Kind>
    decreases |s|
  {
    var entry := ListEntry(env, s);
    if entry.Failed? then Err(entry.kind)
    else if !entry.value.1 then Ok(entry.value.0)
    else AppendedTo(entry.value.0, ParseEntries(env, s[entry.size..]))
  }

  /** `parseList` */
  function ParseList(env: Platform, s: Text): Result<seq<Mailbox>, Kind> {
    var cfws := SkipCfws(s);
    if cfws.Failed? then Err(cfws.kind)
    else
      var commas := SkipCommas(s[cfws.size..]);
      if commas.Failed? then Err(commas.kind)
      else
        var n := cfws.size + commas.size;
        if n == |s| then if commas.value > 0 then Err(InvalidAddress) else Ok([])
        else ParseEntries(env, s[n..])
  }
}
