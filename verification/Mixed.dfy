/**
 * `multipart/mixed`: what `wrapAttachments` of `src/internal/mime.ts` writes, and
 * what the reader of `src/mime/parse.ts` makes of every part. Strings are
 * modelled by their UTF-8 octets, which is what goes over the wire.
 */
module Mixed {
  import opened Common
  import opened Strings
  import Base64
  import DataPhase
  import Disposition
  import Headers
  import Multipart
  import QuotedPrintable
  import Utf8

  // ------------------------------------------------------------------ parts

  datatype Field = Field(name: Bytes, value: Bytes)

  const COLON: byte := 0x3a

  /** A field the writer may emit: its name is valid and starts no delimiter, its value stays on one line. */
  predicate GoodField(f: Field) {
    Headers.ValidName(f.name) && f.name[0] != HYPHEN && Headers.NoBreak(f.value)
  }

  function FieldLine(f: Field): Bytes { f.name + [COLON, SPACE] + f.value }

  function FieldLines(fields: seq<Field>): (lines: seq<Bytes>)
    ensures |lines| == |fields|
  {
    if fields == [] then [] else [FieldLine(fields[0])] + FieldLines(fields[1..])
  }

  function Block(lines: seq<Bytes>): (block: Bytes)
    ensures block == Headers.Terminated(lines)
  {
    if lines == [] then [] else lines[0] + CRLF + Block(lines[1..])
  }

  /** One part: its fields, a blank line, its content. */
  function PartOctets(fields: seq<Field>, content: Bytes): Bytes { Block(FieldLines(fields)) + CRLF + content }

  predicate GoodFields(fields: seq<Field>) { fields != [] && forall f | f in fields :: GoodField(f) }

  /** Content as the writer passes it on: nothing, or complete lines. */
  predicate GoodContent(content: Bytes) { content == [] || DataPhase.EndsWithCrlf(content) }

  // ----------------------------------------------------------------- reader

  datatype HeaderSplit = HeaderSplit(headerEnd: nat, bodyStart: nat)

  /** Where the line break at `i` ends. */
  function AfterBreak(data: Bytes, i: nat): (next: nat)
    requires i < |data|
    ensures i < next <= |data|
  {
    if data[i] == CR && Multipart.Has(data, i + 1, LF) then i + 2 else i + 1
  }

  /** `findHeaderEnd` from offset `i` on: the first line break that another one follows. */
  function FindHeaderEnd(data: Bytes, i: nat): (split: HeaderSplit)
    requires i <= |data|
    ensures split.headerEnd <= split.bodyStart <= |data|
    decreases |data| - i
  {
    if i == |data| then HeaderSplit(|data|, |data|)
    else if !IsBreak(data[i]) then FindHeaderEnd(data, i + 1)
    else
      var next := AfterBreak(data, i);
      if next < |data| && IsBreak(data[next]) then HeaderSplit(i, AfterBreak(data, next))
      else FindHeaderEnd(data, i + 1)
  }

  method FindHeaderEndLoop(data: Bytes) returns (split: HeaderSplit)
    ensures split == FindHeaderEnd(data, 0)
  {
    for index := 0 to |data|
      invariant FindHeaderEnd(data, index) == FindHeaderEnd(data, 0)
    {
      if data[index] != LF && data[index] != CR { continue; }
      var next := index + 1;
      if data[index] == CR && Multipart.Has(data, next, LF) { next := next + 1; }
      if Multipart.Has(data, next, CR) {
        var extra := if Multipart.Has(data, next + 1, LF) then 1 else 0;
        return HeaderSplit(index, next + 1 + extra);
      }
      if Multipart.Has(data, next, LF) { return HeaderSplit(index, next + 1); }
    }
    return HeaderSplit(|data|, |data|);
  }

  datatype Entity = Entity(headers: seq<Headers.Header>, body: Bytes)

  /** `parseEntity` */
  function ParseEntity(data: Bytes): Entity {
    var split := FindHeaderEnd(data, 0);
    Entity(Headers.ParseHeaders(data[..split.headerEnd]), data[split.bodyStart..])
  }

  /** `lookup` */
  function Lookup(headers: seq<Headers.Header>, name: Text): Option<Text> {
    if headers == [] then None
    else if Lower(headers[0].name) == Lower(name) then Some(headers[0].value)
    else Lookup(headers[1..], name)
  }

  const BASE64: Bytes := [0x62, 0x61, 0x73, 0x65, 0x36, 0x34]
  const QUOTED_PRINTABLE: Bytes :=
    [0x71, 0x75, 0x6f, 0x74, 0x65, 0x64, 0x2d, 0x70, 0x72, 0x69, 0x6e, 0x74, 0x61, 0x62, 0x6c, 0x65]

  /** `decodeTransferEncoding`; `None` stands for Base64 text that is no encoding. */
  function DecodeTransferEncoding(body: Bytes, encoding: Option<Text>): Option<Bytes> {
    if encoding.Some? && Lower(Trim(encoding.value)) == BASE64 then Base64.DecodeLines(body)
    else if encoding.Some? && Lower(Trim(encoding.value)) == QUOTED_PRINTABLE then Some(QuotedPrintable.Decode(body))
    else Some(body)
  }

  // ------------------------------------------------------ reading one part

  lemma {:induction false} SkipText(data: Bytes, i: nat, j: nat)
    requires i <= j <= |data| && forall k | i <= k < j :: !IsBreak(data[k])
    ensures FindHeaderEnd(data, i) == FindHeaderEnd(data, j)
    decreases j - i
  {
    if i < j { SkipText(data, i + 1, j); }
  }

  predicate GoodLine(line: Bytes) { line != [] && forall c | c in line :: !IsBreak(c) }

  /** A line that another one follows. */
  lemma SkipLine(data: Bytes, i: nat, line: Bytes)
    requires GoodLine(line) && i + |line| + 2 <= |data| && data[i..i + |line|] == line
    requires data[i + |line|] == CR && data[i + |line| + 1] == LF
    ensures var j := i + |line|;
      && (j + 2 == |data| ==> FindHeaderEnd(data, i) == HeaderSplit(|data|, |data|))
      && (j + 2 < |data| && !IsBreak(data[j + 2]) ==> FindHeaderEnd(data, i) == FindHeaderEnd(data, j + 2))
      && (j + 3 < |data| && data[j + 2] == CR && data[j + 3] == LF ==> FindHeaderEnd(data, i) == HeaderSplit(j, j + 4))
  {
    hide GoodLine;
    var j := i + |line|;
    forall k | i <= k < j ensures !IsBreak(data[k]) {
      assert data[k] == line[k - i];
      GoodAt(line, k - i);
    }
    SkipText(data, i, j);
    BreakAt(data, j);
  }

  lemma GoodAt(line: Bytes, k: nat)
    requires GoodLine(line) && k < |line|
    ensures !IsBreak(line[k])
  {
  }

  lemma BreakAt(data: Bytes, j: nat)
    requires j + 2 <= |data| && data[j] == CR && data[j + 1] == LF
    ensures j + 2 == |data| ==> FindHeaderEnd(data, j) == HeaderSplit(|data|, |data|)
    ensures j + 2 < |data| && !IsBreak(data[j + 2]) ==> FindHeaderEnd(data, j) == FindHeaderEnd(data, j + 2)
    ensures j + 3 < |data| && data[j + 2] == CR && data[j + 3] == LF ==>
      FindHeaderEnd(data, j) == HeaderSplit(j, j + 4)
  {
    if j + 2 == |data| {
      assert FindHeaderEnd(data, j) == FindHeaderEnd(data, j + 1) == FindHeaderEnd(data, j + 2);
    } else if !IsBreak(data[j + 2]) {
      assert FindHeaderEnd(data, j) == FindHeaderEnd(data, j + 1) == FindHeaderEnd(data, j + 2);
    }
  }

  predicate GoodLines(lines: seq<Bytes>) { lines != [] && forall l | l in lines :: GoodLine(l) }

  /** A header block ends at its blank line, or with the data when it has none. */
  lemma {:induction false} HeaderBlockEnds(data: Bytes, i: nat, lines: seq<Bytes>, tail: Bytes)
    requires i <= |data| && data[i..] == Block(lines) + tail && GoodLines(lines)
    ensures tail == [] ==> FindHeaderEnd(data, i) == HeaderSplit(|data|, |data|)
    ensures CRLF <= tail ==>
      FindHeaderEnd(data, i) == HeaderSplit(i + |Block(lines)| - 2, i + |Block(lines)| + 2)
    decreases |lines|
  {
    hide GoodLine, FindHeaderEnd;
    var line, rest := lines[0], lines[1..];
    assert line in lines && forall l | l in rest :: l in lines;
    var j := i + |line|;
    BlockAt(data, i, lines, tail);
    SkipLine(data, i, line);
    if rest == [] {
      if CRLF <= tail { assert data[j + 2..][0] == tail[0] == CR && data[j + 2..][1] == tail[1] == LF; }
    } else {
      FirstOf(rest[0]);
      assert data[j + 2] == (Block(rest) + tail)[0] == rest[0][0];
      HeaderBlockEnds(data, j + 2, rest, tail);
    }
  }

  lemma FirstOf(line: Bytes)
    requires GoodLine(line)
    ensures line != [] && !IsBreak(line[0])
  {
  }

  lemma BlockAt(data: Bytes, i: nat, lines: seq<Bytes>, tail: Bytes)
    requires i <= |data| && data[i..] == Block(lines) + tail && lines != []
    ensures var j := i + |lines[0]|;
      && j + 2 <= |data| && data[i..j] == lines[0] && data[j] == CR && data[j + 1] == LF
      && data[j + 2..] == Block(lines[1..]) + tail
      && |Block(lines)| == |lines[0]| + 2 + |Block(lines[1..])|
  {
    hide Block;
    BlockSplit(lines);
    var rest := Block(lines[1..]) + tail;
    assert Block(lines) + tail == lines[0] + CRLF + rest;
    LineAt(data, i, lines[0], rest);
  }

  lemma BlockSplit(lines: seq<Bytes>)
    requires lines != []
    ensures Block(lines) == lines[0] + CRLF + Block(lines[1..])
  {
  }

  lemma LineAt(data: Bytes, i: nat, line: Bytes, rest: Bytes)
    requires i <= |data| && data[i..] == line + CRLF + rest
    ensures var j := i + |line|;
      && j + 2 <= |data| && data[i..j] == line && data[j] == CR && data[j + 1] == LF && data[j + 2..] == rest
  {
    var n := |line|;
    var d := data[i..];
    assert d[n] == CR && d[n + 1] == LF;
    assert data[i..i + n] == d[..n] == line;
    assert data[i + n + 2..] == d[n + 2..] == rest;
  }

  function ReadFields(fields: seq<Field>): seq<Headers.Header> {
    if fields == [] then []
    else [Headers.Header(fields[0].name, Headers.TrimWhite(fields[0].value))] + ReadFields(fields[1..])
  }

  lemma ReadField(st: Headers.Reading, f: Field)
    requires GoodField(f)
    ensures Headers.ReadLine(st, FieldLine(f))
         == Headers.Reading(st.headers + [Headers.Header(f.name, Headers.TrimWhite(f.value))], true)
  {
    hide Headers.ReadLine, Headers.TrimWhiteEnd;
    var after := [SPACE] + f.value;
    assert FieldLine(f) == f.name + [Headers.COLON] + after;
    Headers.ReadFirst(st, f.name, after);
    assert after[1..] == f.value;
  }

  lemma {:induction false} ReadFieldLines(st: Headers.Reading, fields: seq<Field>)
    requires forall f | f in fields :: GoodField(f)
    ensures Headers.ReadLines(st, FieldLines(fields)).headers == st.headers + ReadFields(fields)
    decreases |fields|
  {
    hide Headers.ReadLine, Headers.ReadLines, GoodField, Headers.TrimWhite, FieldLine;
    if fields == [] {
      Headers.ReadNothing(st);
      assert st.headers + [] == st.headers;
    } else {
      var f := fields[0];
      assert f in fields && forall x | x in fields[1..] :: x in fields;
      ReadField(st, f);
      var h := Headers.Header(f.name, Headers.TrimWhite(f.value));
      Headers.ReadLinesStep(st, FieldLine(f), FieldLines(fields[1..]));
      ReadFieldLines(Headers.Reading(st.headers + [h], true), fields[1..]);
      assert st.headers + [h] + ReadFields(fields[1..]) == st.headers + ([h] + ReadFields(fields[1..]));
    }
  }

  lemma {:induction false} FieldLinesGood(fields: seq<Field>)
    requires forall f | f in fields :: GoodField(f)
    ensures forall l | l in FieldLines(fields) :: GoodLine(l) && Headers.NoBreak(l) && l[0] != HYPHEN
  {
    hide GoodField, GoodLine, FieldLine, Headers.NoBreak;
    if fields == [] {
    } else {
      assert fields[0] in fields && forall x | x in fields[1..] :: x in fields;
      FieldLineGood(fields[0]);
      FieldLinesGood(fields[1..]);
      FieldLineGood(fields[0]);
    }
  }

  lemma FieldLineGood(f: Field)
    requires GoodField(f)
    ensures GoodLine(FieldLine(f)) && Headers.NoBreak(FieldLine(f)) && FieldLine(f) != [] && FieldLine(f)[0] != HYPHEN
  {
    var line := FieldLine(f);
    assert line[0] == f.name[0];
    forall c | c in line ensures !IsBreak(c) {
    }
  }

  lemma SplitWhole(line: Bytes)
    requires Headers.NoBreak(line)
    ensures Headers.SplitLines(line) == [line]
  {
    assert forall k | 0 <= k < |line| :: line[k] in line;
    assert Headers.LineEnd(line) == |line|;
  }

  /** Reading a header block gives its fields. */
  lemma ParseBlock(fields: seq<Field>)
    requires GoodFields(fields)
    ensures Headers.ParseHeaders(Block(FieldLines(fields))) == ReadFields(fields)
  {
    hide GoodField, FieldLine, FieldLines, Headers.ReadLines, Headers.SplitLines, Headers.NoBreak, GoodLine, Block;
    var start := Headers.Reading([], false);
    var lines := FieldLines(fields);
    FieldLinesGood(fields);
    ReadFieldLines(start, fields);
    assert start.headers + ReadFields(fields) == ReadFields(fields);
    Headers.SplitTerminated(lines, []);
    assert Block(lines) + [] == Block(lines);
    Headers.ReadLinesAppend(start, lines, Headers.SplitLines([]));
    Headers.ReadEnd(Headers.ReadLines(start, lines));
  }

  /** So does reading it without its last CRLF. */
  lemma ParseBlockShort(fields: seq<Field>)
    requires GoodFields(fields)
    ensures var block := Block(FieldLines(fields));
      |block| >= 2 && Headers.ParseHeaders(block[..|block| - 2]) == ReadFields(fields)
  {
    hide GoodField, FieldLine, FieldLines, Headers.ReadLines, Headers.SplitLines, Headers.NoBreak, GoodLine, Block;
    var start := Headers.Reading([], false);
    FieldLinesGood(fields);
    ReadFieldLines(start, fields);
    assert start.headers + ReadFields(fields) == ReadFields(fields);
    ShortBlock(FieldLines(fields));
  }

  lemma ShortBlock(lines: seq<Bytes>)
    requires lines != [] && Headers.Unbroken(lines)
    ensures var block := Block(lines); |block| >= 2 && Headers.SplitLines(block[..|block| - 2]) == lines
  {
    hide Headers.SplitLines, Headers.NoBreak, Block;
    var n := |lines| - 1;
    LastLine(lines);
    assert forall l | l in lines[..n] :: l in lines;
    assert lines[n] in lines;
    Headers.SplitTerminated(lines[..n], lines[n]);
    SplitWhole(lines[n]);
    assert lines[..n] + [lines[n]] == lines;
  }

  lemma LastLine(lines: seq<Bytes>)
    requires lines != []
    ensures var n, block := |lines| - 1, Block(lines);
      |block| >= 2 && block[|block| - 2..] == CRLF && block[..|block| - 2] == Block(lines[..n]) + lines[n]
  {
    hide Block;
    var n := |lines| - 1;
    Headers.TerminatedAppend(lines[..n], [lines[n]]);
    Headers.OneLine(lines[n]);
    assert lines[..n] + [lines[n]] == lines;
    assert Block(lines) == Block(lines[..n]) + lines[n] + CRLF;
  }

  /** What a reader is given for a part: everything but the final CRLF. */
  function Received(fields: seq<Field>, content: Bytes): Bytes
    requires GoodContent(content)
  {
    var part := PartOctets(fields, content);
    part[..|part| - 2]
  }

  /** Reading a part gives its fields and its content, but for the final CRLF. */
  lemma PartIsRead(fields: seq<Field>, content: Bytes)
    requires GoodFields(fields) && GoodContent(content)
    ensures ParseEntity(Received(fields, content))
         == Entity(ReadFields(fields), if content == [] then [] else content[..|content| - 2])
  {
    hide GoodField, FieldLines, FindHeaderEnd, Block, Headers.ParseHeaders;
    var lines := FieldLines(fields);
    var block, data := Block(lines), Received(fields, content);
    ParseBlock(fields);
    ParseBlockShort(fields);
    FieldLinesGood(fields);
    var tail := if content == [] then [] else CRLF + content[..|content| - 2];
    assert data == block + tail;
    assert data[0..] == data;
    HeaderBlockEnds(data, 0, lines, tail);
    if content == [] {
      assert data[..|data|] == block && data[|data|..] == [];
    } else {
      assert data[..|block| - 2] == block[..|block| - 2];
      assert data[|block| + 2..] == content[..|content| - 2];
    }
  }

  /** A part is framed properly, and is clean when its content is. */
  lemma PartIsFramed(fields: seq<Field>, content: Bytes, delimiter: Bytes)
    requires GoodFields(fields) && GoodContent(content) && Multipart.IsDelimiter(delimiter)
    ensures Multipart.IsPart(PartOctets(fields, content))
    ensures Multipart.Clean(PartOctets(fields, content), delimiter) <==> Multipart.Clean(content, delimiter)
  {
    hide GoodField, FieldLines, Block, Multipart.Clean;
    var lines := FieldLines(fields);
    FieldLinesGood(fields);
    var part := PartOctets(fields, content);
    if content == [] {
      assert part[|part| - 2..] == CRLF;
    } else {
      assert part[|part| - 2..] == content[|content| - 2..];
    }
    CleanAfterLines(lines, CRLF + content, delimiter);
    Multipart.CleanAfterLine([], content, delimiter);
    assert [] + CRLF + content == CRLF + content;
    assert Block(lines) + (CRLF + content) == part;
  }

  lemma {:induction false} CleanAfterLines(lines: seq<Bytes>, rest: Bytes, delimiter: Bytes)
    requires Multipart.IsDelimiter(delimiter) && forall l | l in lines :: GoodLine(l) && l[0] != HYPHEN
    ensures Multipart.Clean(Block(lines) + rest, delimiter) <==> Multipart.Clean(rest, delimiter)
  {
    hide Multipart.Clean, Multipart.IsDelimiter;
    if lines == [] {
      assert Block(lines) + rest == rest;
    } else {
      assert lines[0] in lines && forall l | l in lines[1..] :: l in lines;
      var tail := Block(lines[1..]) + rest;
      CleanAfterLines(lines[1..], rest, delimiter);
      Multipart.CleanAfterLine(lines[0], tail, delimiter);
      assert lines[0] + CRLF + tail == Block(lines) + rest;
    }
  }

  // ----------------------------------------------------------------- writer

  datatype BodyPart = BodyPart(contentType: Bytes, contentTransferEncoding: Bytes, data: Bytes)

  datatype Attachment = Attachment(
    filename: Option<Text>, contentType: Bytes, data: Bytes, inline: bool, contentId: Option<Bytes>)

  const CONTENT_TYPE: Bytes := Lit("Content-Type")
  const CONTENT_TRANSFER_ENCODING: Bytes := Lit("Content-Transfer-Encoding")
  const CONTENT_DISPOSITION: Bytes := Lit("Content-Disposition")
  const CONTENT_ID: Bytes := Lit("Content-ID")
  const INLINE: Bytes := Lit("inline")
  const ATTACHMENT: Bytes := Lit("attachment")

  function EnsureTrailingCrlf(value: Bytes): Bytes {
    if DataPhase.EndsWithCrlf(value) then value else value + CRLF
  }

  datatype Part = Part(fields: seq<Field>, content: Bytes)

  function BodyEntity(body: BodyPart): Part {
    Part([Field(CONTENT_TYPE, body.contentType), Field(CONTENT_TRANSFER_ENCODING, body.contentTransferEncoding)],
         EnsureTrailingCrlf(body.data))
  }

  function Placement(a: Attachment): Bytes {
    Utf8.Encode(Disposition.Format(if a.inline then INLINE else ATTACHMENT, a.filename))
  }

  predicate HasContentId(a: Attachment) { a.contentId.Some? && a.contentId.value != [] }

  function AttachmentEntity(a: Attachment): Part {
    Part([Field(CONTENT_TYPE, a.contentType), Field(CONTENT_TRANSFER_ENCODING, BASE64), Field(CONTENT_DISPOSITION, Placement(a))]
           + if HasContentId(a) then [Field(CONTENT_ID, [0x3c] + a.contentId.value + [0x3e])] else [],
         Base64.Wrapped(Base64.Encode(a.data)))
  }

  function AttachmentEntities(attachments: seq<Attachment>): (parts: seq<Part>)
    ensures |parts| == |attachments|
    ensures forall k | 0 <= k < |attachments| :: parts[k] == AttachmentEntity(attachments[k])
  {
    if attachments == [] then [] else [AttachmentEntity(attachments[0])] + AttachmentEntities(attachments[1..])
  }

  function Rendered(parts: seq<Part>): (octets: seq<Bytes>)
    ensures |octets| == |parts|
    ensures forall k | 0 <= k < |parts| :: octets[k] == PartOctets(parts[k].fields, parts[k].content)
  {
    if parts == [] then [] else [PartOctets(parts[0].fields, parts[0].content)] + Rendered(parts[1..])
  }

  function MixedParts(body: BodyPart, attachments: seq<Attachment>): seq<Part> {
    [BodyEntity(body)] + AttachmentEntities(attachments)
  }

  const MIXED: Bytes := Lit("mixed")
  const SEVEN_BIT: Bytes := Lit("7bit")

  /** How a body with attachments is announced, whatever it holds. */
  function MixedAnnounced(boundary: Bytes): Multipart.Announced {
    Multipart.Announced(Multipart.MultipartType(MIXED, boundary), SEVEN_BIT)
  }

  /** `wrapAttachments`, for a given boundary. */
  method WrapAttachments(body: BodyPart, attachments: seq<Attachment>, boundary: Bytes)
    returns (announced: Multipart.Announced, data: Bytes)
    ensures announced == MixedAnnounced(boundary)
    ensures data == Multipart.Framed(Rendered(MixedParts(body, attachments)), Multipart.Delimiter(boundary))
  {
    hide Multipart.Delimiter, AttachmentEntity, BodyEntity, PartOctets, Multipart.Framed, Multipart.MultipartType;
    announced := Multipart.Announced(Multipart.MultipartType(MIXED, boundary), SEVEN_BIT);
    var delimiter := Multipart.Delimiter(boundary);
    ghost var entities := AttachmentEntities(attachments);
    data := delimiter + CRLF;
    var first := BodyEntity(body);
    data := data + PartOctets(first.fields, first.content);
    FramedSplit(first, entities, delimiter);
    for k := 0 to |attachments|
      invariant data + Multipart.Framed(Rendered(entities[k..]), delimiter)
             == Multipart.Framed(Rendered(MixedParts(body, attachments)), delimiter)
    {
      var part := AttachmentEntity(attachments[k]);
      AddPart(data, entities, k, delimiter);
      data := data + (delimiter + CRLF + PartOctets(part.fields, part.content));
    }
    assert entities[|attachments|..] == [];
    FramedEnd(delimiter);
    data := data + (delimiter + [HYPHEN, HYPHEN] + CRLF);
  }

  lemma AddPart(data: Bytes, parts: seq<Part>, k: nat, delimiter: Bytes)
    requires k < |parts|
    ensures data + Multipart.Framed(Rendered(parts[k..]), delimiter)
         == data + (delimiter + CRLF + PartOctets(parts[k].fields, parts[k].content))
            + Multipart.Framed(Rendered(parts[k + 1..]), delimiter)
  {
    hide PartOctets, Multipart.Framed, Rendered;
    assert parts[k..] == [parts[k]] + parts[k + 1..];
    FramedSplit(parts[k], parts[k + 1..], delimiter);
    var line := delimiter + CRLF + PartOctets(parts[k].fields, parts[k].content);
    var rest := Multipart.Framed(Rendered(parts[k + 1..]), delimiter);
    assert data + (line + rest) == data + line + rest;
  }

  lemma FramedSplit(part: Part, rest: seq<Part>, delimiter: Bytes)
    ensures Multipart.Framed(Rendered([part] + rest), delimiter)
         == delimiter + CRLF + PartOctets(part.fields, part.content) + Multipart.Framed(Rendered(rest), delimiter)
  {
    hide PartOctets;
    assert ([part] + rest)[1..] == rest;
    assert Rendered([part] + rest)[1..] == Rendered(rest);
  }

  lemma FramedEnd(delimiter: Bytes)
    ensures Multipart.Framed(Rendered([]), delimiter) == delimiter + [HYPHEN, HYPHEN] + CRLF
  {
  }

  // ------------------------------------------------------------- round trip

  /** What the message builder checks of a header value before it is written. */
  predicate GoodBody(body: BodyPart) {
    Headers.NoBreak(body.contentType) && Headers.NoBreak(body.contentTransferEncoding)
  }

  predicate GoodAttachment(a: Attachment) {
    && Headers.NoBreak(a.contentType)
    && (a.filename.Some? ==> Headers.NoBreak(a.filename.value))
    && (a.contentId.Some? ==> Headers.NoBreak(a.contentId.value))
  }

  predicate GoodPart(p: Part) { GoodFields(p.fields) && GoodContent(p.content) }

  lemma TypeName()
    ensures |CONTENT_TYPE| == 12 && Headers.ValidName(CONTENT_TYPE) && CONTENT_TYPE[0] != HYPHEN
  {
  }

  lemma EncodingName()
    ensures |CONTENT_TRANSFER_ENCODING| == 25 && Headers.ValidName(CONTENT_TRANSFER_ENCODING) && CONTENT_TRANSFER_ENCODING[0] != HYPHEN
  {
  }

  lemma DispositionName()
    ensures |CONTENT_DISPOSITION| == 19 && Headers.ValidName(CONTENT_DISPOSITION) && CONTENT_DISPOSITION[0] != HYPHEN
  {
  }

  lemma IdName()
    ensures |CONTENT_ID| == 10 && Headers.ValidName(CONTENT_ID) && CONTENT_ID[0] != HYPHEN
  {
  }

  lemma NamesAreGood()
    ensures |CONTENT_TYPE| == 12 && Headers.ValidName(CONTENT_TYPE) && CONTENT_TYPE[0] != HYPHEN
    ensures |CONTENT_TRANSFER_ENCODING| == 25 && Headers.ValidName(CONTENT_TRANSFER_ENCODING) && CONTENT_TRANSFER_ENCODING[0] != HYPHEN
    ensures |CONTENT_DISPOSITION| == 19 && Headers.ValidName(CONTENT_DISPOSITION) && CONTENT_DISPOSITION[0] != HYPHEN
    ensures |CONTENT_ID| == 10 && Headers.ValidName(CONTENT_ID) && CONTENT_ID[0] != HYPHEN
  {
    hide CONTENT_TYPE, CONTENT_TRANSFER_ENCODING, CONTENT_DISPOSITION, CONTENT_ID, Headers.ValidName;
    TypeName();
    EncodingName();
    DispositionName();
    IdName();
  }

  lemma BodyIsGood(body: BodyPart)
    requires GoodBody(body)
    ensures GoodPart(BodyEntity(body))
  {
    NamesAreGood();
  }

  lemma InlineIsToken()
    ensures Disposition.IsToken(INLINE) && Disposition.OneLine(INLINE) && !IsWhite(INLINE[0])
  {
  }

  lemma AttachmentIsToken()
    ensures Disposition.IsToken(ATTACHMENT) && Disposition.OneLine(ATTACHMENT) && !IsWhite(ATTACHMENT[0])
  {
  }

  /** The disposition goes over the wire as it is, on one line. */
  lemma PlacementIsOneLine(a: Attachment)
    requires GoodAttachment(a)
    ensures Placement(a) == Disposition.Format(if a.inline then INLINE else ATTACHMENT, a.filename)
    ensures Headers.NoBreak(Placement(a)) && Headers.TrimWhite(Placement(a)) == Placement(a)
  {
    hide Disposition.Format, Disposition.IsToken, Disposition.OneLine, INLINE, ATTACHMENT, Utf8.Encode;
    InlineIsToken();
    AttachmentIsToken();
    var kind := if a.inline then INLINE else ATTACHMENT;
    NoBreakMembers(a.filename);
    Disposition.FormatIsOneLine(kind, a.filename);
    var v := Disposition.Format(kind, a.filename);
    OneLineFacts(v);
    Utf8.EncodeAscii(v);
    TrimWhiteStays(v);
  }

  lemma NoBreakMembers(f: Option<Text>)
    requires f.Some? ==> Headers.NoBreak(f.value)
    ensures f.Some? ==> CR !in f.value && LF !in f.value
  {
  }

  lemma OneLineFacts(v: Text)
    requires Disposition.OneLine(v)
    ensures IsAscii(v) && Headers.NoBreak(v)
  {
  }

  lemma TrimWhiteStays(v: Text)
    requires v != [] && !IsWhite(v[0]) && !IsWhite(v[|v| - 1])
    ensures Headers.TrimWhite(v) == v
  {
  }

  lemma Base64IsGood(a: Attachment)
    ensures GoodContent(AttachmentEntity(a).content) && HYPHEN !in AttachmentEntity(a).content
  {
    hide Base64.Wrapped, Base64.Encode, Placement;
    var encoded := Base64.Encode(a.data);
    Base64.EncodeSymbols(a.data);
    Base64.WrappedShape(encoded);
    var content := Base64.Wrapped(encoded);
    if encoded == [] {
      WrappedNothing();
    } else {
      assert content[|content| - 2..][0] == CR && content[|content| - 2..][1] == LF;
    }
  }

  lemma WrappedNothing()
    ensures Base64.Wrapped([]) == []
  {
  }

  lemma GoodFieldOf(name: Bytes, value: Bytes)
    requires Headers.ValidName(name) && name[0] != HYPHEN && Headers.NoBreak(value)
    ensures GoodField(Field(name, value))
  {
  }

  lemma ValuesAreGood(a: Attachment)
    requires GoodAttachment(a)
    ensures Headers.NoBreak(BASE64)
    ensures HasContentId(a) ==> Headers.NoBreak([0x3c] + a.contentId.value + [0x3e])
  {
  }

  lemma IdIsGood(a: Attachment)
    requires GoodAttachment(a)
    ensures HasContentId(a) ==> GoodField(Field(CONTENT_ID, [0x3c] + a.contentId.value + [0x3e]))
  {
    hide CONTENT_ID, GoodField, Headers.ValidName, Headers.NoBreak, BASE64;
    NamesAreGood();
    ValuesAreGood(a);
    if HasContentId(a) { GoodFieldOf(CONTENT_ID, [0x3c] + a.contentId.value + [0x3e]); }
  }

  lemma AttachmentIsGood(a: Attachment)
    requires GoodAttachment(a)
    ensures GoodPart(AttachmentEntity(a))
  {
    hide Placement, CONTENT_TYPE, CONTENT_TRANSFER_ENCODING, CONTENT_DISPOSITION, CONTENT_ID, GoodContent,
      GoodField, Headers.ValidName, Headers.NoBreak, Base64.Wrapped, Base64.Encode, HasContentId, BASE64;
    NamesAreGood();
    PlacementIsOneLine(a);
    ValuesAreGood(a);
    Base64IsGood(a);
    IdIsGood(a);
    GoodFieldOf(CONTENT_TYPE, a.contentType);
    GoodFieldOf(CONTENT_TRANSFER_ENCODING, BASE64);
    GoodFieldOf(CONTENT_DISPOSITION, Placement(a));
    assert forall f | f in AttachmentEntity(a).fields :: GoodField(f);
  }

  /** The entities a reader is given, one per part. */
  function Slices(parts: seq<Part>): (slices: seq<Bytes>)
    requires forall p | p in parts :: GoodPart(p)
    ensures |slices| == |parts|
    ensures forall k | 0 <= k < |parts| :: GoodPart(parts[k]) && slices[k] == Received(parts[k].fields, parts[k].content)
  {
    hide GoodFields, GoodContent, PartOctets;
    if parts == [] then []
    else assert GoodPart(parts[0]); [Received(parts[0].fields, parts[0].content)] + Slices(parts[1..])
  }

  lemma {:induction false} SlicesAreStripped(parts: seq<Part>, delimiter: Bytes)
    requires (forall p | p in parts :: GoodPart(p)) && Multipart.IsDelimiter(delimiter)
    ensures Multipart.AllParts(Rendered(parts)) && Multipart.Stripped(Rendered(parts)) == Slices(parts)
    ensures Multipart.AllClean(Rendered(parts), delimiter)
      <==> forall p | p in parts :: Multipart.Clean(p.content, delimiter)
  {
    hide GoodPart, PartOctets, Multipart.Clean, Multipart.IsPart, Multipart.IsDelimiter;
    if parts == [] {
    } else {
      var p, rest := parts[0], parts[1..];
      assert p in parts && forall q | q in rest :: q in parts;
      OnePart(p, delimiter);
      SlicesAreStripped(rest, delimiter);
      assert parts == [p] + rest;
      assert Rendered(parts) == [PartOctets(p.fields, p.content)] + Rendered(rest);
      Multipart.AllCleanSplit(Rendered(parts), delimiter);
      assert Rendered(parts)[1..] == Rendered(rest);
    }
  }

  lemma OnePart(p: Part, delimiter: Bytes)
    requires GoodPart(p) && Multipart.IsDelimiter(delimiter)
    ensures Multipart.IsPart(PartOctets(p.fields, p.content))
    ensures Multipart.Clean(PartOctets(p.fields, p.content), delimiter) <==> Multipart.Clean(p.content, delimiter)
    ensures var part := PartOctets(p.fields, p.content); |part| >= 2 && Received(p.fields, p.content) == part[..|part| - 2]
  {
    hide GoodFields, GoodContent;
    PartIsFramed(p.fields, p.content, delimiter);
  }

  predicate AllGood(parts: seq<Part>) { forall p | p in parts :: GoodPart(p) }

  lemma MixedIsGood(body: BodyPart, attachments: seq<Attachment>)
    requires GoodBody(body) && forall a | a in attachments :: GoodAttachment(a)
    ensures AllGood(MixedParts(body, attachments))
  {
    hide GoodPart, GoodAttachment, GoodBody, AttachmentEntity, BodyEntity;
    BodyIsGood(body);
    var parts := MixedParts(body, attachments);
    forall p | p in parts ensures GoodPart(p) {
      var k :| 0 <= k < |parts| && parts[k] == p;
      if k > 0 { AttachmentIsGood(attachments[k - 1]); }
    }
  }

  lemma AttachmentsAreClean(attachments: seq<Attachment>, delimiter: Bytes)
    requires Multipart.IsDelimiter(delimiter)
    ensures forall p | p in AttachmentEntities(attachments) :: Multipart.Clean(p.content, delimiter)
  {
    hide AttachmentEntity, Multipart.Clean;
    var parts := AttachmentEntities(attachments);
    forall p | p in parts ensures Multipart.Clean(p.content, delimiter) {
      var k :| 0 <= k < |parts| && parts[k] == p;
      Base64IsGood(attachments[k]);
      Multipart.CleanWithoutHyphen(p.content, delimiter);
    }
  }

  lemma BodyContent(body: BodyPart)
    ensures BodyEntity(body).content == EnsureTrailingCrlf(body.data)
  {
  }

  /**
   * The parts a reader finds in a `multipart/mixed` body are exactly the ones
   * written, one per body part and attachment in order, if and only if no line
   * of the body part starts with the delimiter. An attachment never does harm.
   */
  lemma MixedIsExact(body: BodyPart, attachments: seq<Attachment>, boundary: Bytes)
    requires Multipart.IsBoundary(boundary) && GoodBody(body) && forall a | a in attachments :: GoodAttachment(a)
    ensures AllGood(MixedParts(body, attachments))
    ensures var delimiter := Multipart.Delimiter(boundary);
      var text := Multipart.Framed(Rendered(MixedParts(body, attachments)), delimiter);
      Multipart.Split(text, delimiter, 0, None) == Slices(MixedParts(body, attachments))
      <==> Multipart.Clean(EnsureTrailingCrlf(body.data), delimiter)
  {
    hide Multipart.Split, Multipart.Framed, Multipart.Clean, Multipart.Delimiter, GoodPart, GoodAttachment, GoodBody,
      AttachmentEntity, BodyEntity, AttachmentEntities, EnsureTrailingCrlf, Slices, Rendered, Multipart.Stripped,
      Multipart.IsBoundary, Multipart.IsDelimiter;
    var delimiter, parts := Multipart.Delimiter(boundary), MixedParts(body, attachments);
    Multipart.BoundaryFacts(boundary);
    MixedIsGood(body, attachments);
    SlicesAreStripped(parts, delimiter);
    Multipart.SplitIsExact(Rendered(parts), delimiter);
    AttachmentsAreClean(attachments, delimiter);
    assert parts == [BodyEntity(body)] + AttachmentEntities(attachments);
    BodyContent(body);
  }

  /** A quoted-printable body part meets the condition, whatever it encodes. */
  lemma QuotedPrintableIsExact(source: Bytes, boundary: Bytes)
    requires Multipart.IsBoundary(boundary)
    ensures var data := QuotedPrintable.Encode(source);
      EnsureTrailingCrlf(data) == data && Multipart.Clean(data, Multipart.Delimiter(boundary))
  {
    QuotedPrintable.LinesAreGood(source);
    Multipart.CleanWithoutPair(QuotedPrintable.Encode(source), boundary);
  }

  /** The field of the Content-ID: there when the attachment has one, and not otherwise. */
  lemma IdField(a: Attachment)
    ensures Lookup(ReadFields(AttachmentEntity(a).fields), CONTENT_ID)
         == if HasContentId(a) then Some(Headers.TrimWhite([0x3c] + a.contentId.value + [0x3e])) else None
  {
    hide Placement, CONTENT_TYPE, CONTENT_TRANSFER_ENCODING, CONTENT_DISPOSITION, CONTENT_ID, Headers.TrimWhite,
      Headers.ValidName, HasContentId, Base64.Wrapped, Base64.Encode, LowerLatin1;
    NamesAreGood();
    var fields := AttachmentEntity(a).fields;
    var headers := ReadFields(fields);
    FirstFields(fields);
    LookupPast(headers, CONTENT_ID);
    LookupPast(headers[1..], CONTENT_ID);
    LookupPast(headers[1..][1..], CONTENT_ID);
    var rest := headers[1..][1..][1..];
    RestOfFields(fields);
    RestOfFields(fields[1..]);
    RestOfFields(fields[1..][1..]);
    if HasContentId(a) {
      assert fields[1..][1..][1..] == [fields[3]];
      LookupPast(rest, CONTENT_ID);
    } else {
      assert fields[1..][1..][1..] == [];
    }
  }

  lemma RestOfFields(fields: seq<Field>)
    requires fields != []
    ensures ReadFields(fields) != [] && ReadFields(fields)[1..] == ReadFields(fields[1..])
  {
    hide Headers.TrimWhite;
  }

  lemma IdTrims(id: Bytes)
    ensures Headers.TrimWhite([0x3c] + id + [0x3e]) == [0x3c] + id + [0x3e]
  {
    TrimWhiteStays([0x3c] + id + [0x3e]);
  }

  /** What a reader finds in the fields of an attachment. */
  lemma AttachmentFields(a: Attachment)
    ensures var headers := ReadFields(AttachmentEntity(a).fields);
      && Lookup(headers, CONTENT_TRANSFER_ENCODING) == Some(Headers.TrimWhite(BASE64))
      && Lookup(headers, CONTENT_DISPOSITION) == Some(Headers.TrimWhite(Placement(a)))
      && Lookup(headers, CONTENT_TYPE) == Some(Headers.TrimWhite(a.contentType))
  {
    hide Placement, CONTENT_TYPE, CONTENT_TRANSFER_ENCODING, CONTENT_DISPOSITION, CONTENT_ID, Headers.TrimWhite,
      Headers.ValidName, HasContentId, Base64.Wrapped, Base64.Encode, LowerLatin1;
    NamesAreGood();
    var fields := AttachmentEntity(a).fields;
    var headers := ReadFields(fields);
    FirstFields(fields);
    LookupPast(headers, CONTENT_TRANSFER_ENCODING);
    LookupPast(headers, CONTENT_DISPOSITION);
    LookupPast(headers[1..], CONTENT_DISPOSITION);
    LookupPast(headers, CONTENT_TYPE);
    LookupPast(headers[1..], CONTENT_TRANSFER_ENCODING);
    LookupPast(headers[1..][1..], CONTENT_DISPOSITION);
  }

  lemma FirstFields(fields: seq<Field>)
    requires |fields| >= 3
    ensures var headers := ReadFields(fields);
      && |headers| >= 3
      && headers[0] == Headers.Header(fields[0].name, Headers.TrimWhite(fields[0].value))
      && headers[1..][0] == Headers.Header(fields[1].name, Headers.TrimWhite(fields[1].value))
      && headers[1..][1..][0] == Headers.Header(fields[2].name, Headers.TrimWhite(fields[2].value))
  {
    hide Headers.TrimWhite;
    var f1, f2 := fields[1..], fields[1..][1..];
    assert ReadFields(fields)[1..] == ReadFields(f1);
    assert ReadFields(f1)[1..] == ReadFields(f2);
    assert f1[0] == fields[1] && f2[0] == fields[2];
  }

  lemma LookupPast(headers: seq<Headers.Header>, name: Text)
    requires headers != []
    ensures headers[0].name == name ==> Lookup(headers, name) == Some(headers[0].value)
    ensures |headers[0].name| != |name| ==> Lookup(headers, name) == Lookup(headers[1..], name)
  {
  }

  lemma Base64Token()
    ensures Lower(Trim(Headers.TrimWhite(BASE64))) == BASE64 && Headers.TrimWhite(BASE64) == BASE64
  {
    hide IsBlank;
    NotBlank();
    TrimWhiteStays(BASE64);
    TrimNothing(BASE64);
  }

  lemma NotBlank()
    ensures !IsBlank(BASE64[0]) && !IsBlank(BASE64[5])
  {
  }

  /**
   * A reader gets every attachment back: its octets, the empty ones included,
   * and its filename exactly when the parameter encoding can carry it.
   */
  lemma AttachmentRoundTrip(a: Attachment)
    requires GoodAttachment(a)
    ensures GoodPart(AttachmentEntity(a))
    ensures var part := AttachmentEntity(a);
      var entity := ParseEntity(Received(part.fields, part.content));
      && DecodeTransferEncoding(entity.body, Lookup(entity.headers, CONTENT_TRANSFER_ENCODING)) == Some(a.data)
      && Lookup(entity.headers, CONTENT_TRANSFER_ENCODING) == Some(BASE64)
      && Lookup(entity.headers, CONTENT_TYPE) == Some(Headers.TrimWhite(a.contentType))
      && Lookup(entity.headers, CONTENT_DISPOSITION).Some?
      && FilenameArrives(a.filename, Lookup(entity.headers, CONTENT_DISPOSITION).value)
      && Disposition.MediaOf(Lookup(entity.headers, CONTENT_DISPOSITION).value)
         == Disposition.Media(if a.inline then INLINE else ATTACHMENT, [])
      && Lookup(entity.headers, CONTENT_ID)
         == (if HasContentId(a) then Some([0x3c] + a.contentId.value + [0x3e]) else None)
  {
    hide AttachmentEntity, GoodPart, ParseEntity, Received, ReadFields, Lookup, Headers.TrimWhite, Lower, Trim,
      Placement,
      Base64.DecodeLines, GoodAttachment, CONTENT_TYPE, CONTENT_TRANSFER_ENCODING, CONTENT_DISPOSITION, FilenameArrives,
      Disposition.MediaOf, CONTENT_ID, INLINE, ATTACHMENT;
    var part := AttachmentEntity(a);
    AttachmentIsGood(a);
    GoodPartFacts(part);
    PartIsRead(part.fields, part.content);
    AttachmentFields(a);
    IdField(a);
    if HasContentId(a) { IdTrims(a.contentId.value); }
    PlacementWord(a);
    Base64Token();
    BodyDecodes(a);
    PlacementIsOneLine(a);
    FilenameOf(a);
  }

  lemma PlacementWord(a: Attachment)
    ensures Disposition.MediaOf(Disposition.Format(if a.inline then INLINE else ATTACHMENT, a.filename))
         == Disposition.Media(if a.inline then INLINE else ATTACHMENT, [])
  {
    hide Disposition.MediaOf, Disposition.Format, Disposition.IsToken, INLINE, ATTACHMENT, Lower;
    InlineIsToken();
    AttachmentIsToken();
    WordsAreLower();
    Disposition.FormatKind(if a.inline then INLINE else ATTACHMENT, a.filename);
  }

  lemma WordsAreLower()
    ensures Lower(INLINE) == INLINE && Disposition.SLASH !in INLINE
    ensures Lower(ATTACHMENT) == ATTACHMENT && Disposition.SLASH !in ATTACHMENT
  {
  }

  lemma GoodPartFacts(p: Part)
    requires GoodPart(p)
    ensures GoodFields(p.fields) && GoodContent(p.content)
  {
  }

  lemma BodyDecodes(a: Attachment)
    ensures var content := AttachmentEntity(a).content;
      |content| != 1 && Base64.DecodeLines(if content == [] then [] else content[..|content| - 2]) == Some(a.data)
  {
    hide Base64.Wrapped, Base64.Encode, Base64.DecodeLines, Placement;
    Base64IsGood(a);
    var content := AttachmentEntity(a).content;
    var text := if content == [] then [] else content[..|content| - 2];
    if content != [] { assert text + CRLF == content; }
    Base64.LinesRoundTrip(a.data, text);
  }

  /** Whether a reader of a disposition gets the filename that was given. */
  ghost predicate FilenameArrives(filename: Option<Text>, disposition: Text) {
    var params := Disposition.Parameters(disposition);
    if filename.None? || filename.value == [] then params == map[]
    else
      var f := filename.value;
      && Disposition.FILENAME in params
      && (params[Disposition.FILENAME] == Disposition.InUtf8(f) <==> IsAscii(f) || (WellFormed(f) && f[0] != Utf8.BOM))
  }

  lemma FilenameOf(a: Attachment)
    ensures FilenameArrives(a.filename, Disposition.Format(if a.inline then INLINE else ATTACHMENT, a.filename))
  {
    hide Disposition.Parameters, INLINE, ATTACHMENT, Disposition.IsToken, Disposition.FilenameParameter, IsAscii,
      WellFormed;
    InlineIsToken();
    AttachmentIsToken();
    var kind := if a.inline then INLINE else ATTACHMENT;
    if a.filename.None? || a.filename.value == [] {
      Disposition.NoFilename(kind);
    } else {
      Disposition.FilenameRoundTrip(kind, a.filename.value);
    }
  }

  /**
   * The body part comes back with its content type, its transfer encoding and its
   * complete lines, but for the CRLF that belongs to the delimiter.
   */
  lemma BodyRoundTrip(body: BodyPart)
    requires GoodBody(body)
    ensures var part, lines := BodyEntity(body), EnsureTrailingCrlf(body.data);
      var slice := Received(part.fields, part.content);
      && GoodPart(part)
      && ParseEntity(slice).body == lines[..|lines| - 2]
      && (!DataPhase.EndsWithCrlf(body.data) ==> lines[..|lines| - 2] == body.data)
      && FieldOf(slice, CONTENT_TYPE) == Some(Headers.TrimWhite(body.contentType))
      && FieldOf(slice, CONTENT_TRANSFER_ENCODING) == Some(Headers.TrimWhite(body.contentTransferEncoding))
  {
    hide GoodFields, ParseEntity, Received, Headers.TrimWhite, Lookup, ReadFields, Headers.ValidName;
    var part := BodyEntity(body);
    BodyIsGood(body);
    PartIsRead(part.fields, part.content);
    BodyFields(body);
  }

  /** The value a reader finds for a field of a part. */
  function FieldOf(slice: Bytes, name: Text): Option<Text> { Lookup(ParseEntity(slice).headers, name) }

  // -------------------------------------------------------------- end to end

  /** The content a reader takes out of one part it found; `None` stands for Base64 text that is no encoding. */
  function ContentOf(slice: Bytes): Option<Bytes> {
    var entity := ParseEntity(slice);
    DecodeTransferEncoding(entity.body, Lookup(entity.headers, CONTENT_TRANSFER_ENCODING))
  }

  /** Attachment `a` is what a reader makes of `slice`: its octets and everything its fields say. */
  ghost predicate Arrives(a: Attachment, slice: Bytes) {
    var disposition := FieldOf(slice, CONTENT_DISPOSITION);
    && ContentOf(slice) == Some(a.data)
    && FieldOf(slice, CONTENT_TRANSFER_ENCODING) == Some(BASE64)
    && FieldOf(slice, CONTENT_TYPE) == Some(Headers.TrimWhite(a.contentType))
    && disposition.Some? && FilenameArrives(a.filename, disposition.value)
    && Disposition.MediaOf(disposition.value) == Disposition.Media(if a.inline then INLINE else ATTACHMENT, [])
    && FieldOf(slice, CONTENT_ID)
       == if HasContentId(a) then Some([0x3c] + a.contentId.value + [0x3e]) else None
  }

  lemma AttachmentArrives(a: Attachment)
    requires GoodAttachment(a)
    ensures var part := AttachmentEntity(a);
      GoodPart(part) && Arrives(a, Received(part.fields, part.content))
  {
    hide AttachmentEntity, GoodPart, ParseEntity, Received, Lookup, FilenameArrives, DecodeTransferEncoding,
      GoodAttachment, Disposition.MediaOf, Headers.TrimWhite, BASE64, CONTENT_TYPE, CONTENT_TRANSFER_ENCODING,
      CONTENT_DISPOSITION, CONTENT_ID, INLINE, ATTACHMENT;
    AttachmentRoundTrip(a);
  }

  /** The names and words above, as they stand on the wire. */
  lemma WireWords()
    ensures CONTENT_TYPE == Lit("Content-Type") && CONTENT_TRANSFER_ENCODING == Lit("Content-Transfer-Encoding")
    ensures CONTENT_DISPOSITION == Lit("Content-Disposition") && CONTENT_ID == Lit("Content-ID")
    ensures INLINE == Lit("inline") && ATTACHMENT == Lit("attachment")
    ensures BASE64 == Lit("base64") && QUOTED_PRINTABLE == Lit("quoted-printable")
  {
  }

  /**
   * What `wrapAttachments` wrote, split and read again: when no line of the body
   * part starts with the delimiter, there is one part for the body, with its
   * lines, and one for every attachment, with its octets and its filename.
   */
  lemma MixedRoundTrip(body: BodyPart, attachments: seq<Attachment>, boundary: Bytes)
    requires Multipart.IsBoundary(boundary) && GoodBody(body) && forall a | a in attachments :: GoodAttachment(a)
    requires Multipart.Clean(EnsureTrailingCrlf(body.data), Multipart.Delimiter(boundary))
    ensures var delimiter, lines := Multipart.Delimiter(boundary), EnsureTrailingCrlf(body.data);
      var text := Multipart.Framed(Rendered(MixedParts(body, attachments)), delimiter);
      var slices := Multipart.Split(text, delimiter, 0, None);
      && |slices| == 1 + |attachments|
      && ParseEntity(slices[0]).body == lines[..|lines| - 2]
      && FieldOf(slices[0], CONTENT_TYPE) == Some(Headers.TrimWhite(body.contentType))
      && FieldOf(slices[0], CONTENT_TRANSFER_ENCODING) == Some(Headers.TrimWhite(body.contentTransferEncoding))
      && GoodPart(BodyEntity(body))
      && slices[0] == Received(BodyEntity(body).fields, BodyEntity(body).content)
      && forall k | 0 <= k < |attachments| :: Arrives(attachments[k], slices[k + 1])
  {
    hide Multipart.Split, Multipart.Framed, Multipart.Clean, Multipart.Delimiter, GoodPart, GoodAttachment, GoodBody,
      AttachmentEntity, BodyEntity, EnsureTrailingCrlf, Rendered, Multipart.IsBoundary, ParseEntity, Received, Arrives,
      FieldOf, Headers.TrimWhite;
    MixedIsExact(body, attachments, boundary);
    BodyRoundTrip(body);
    var parts := MixedParts(body, attachments);
    var slices := Slices(parts);
    assert parts[0] == BodyEntity(body);
    forall k | 0 <= k < |attachments| ensures Arrives(attachments[k], slices[k + 1]) {
      assert attachments[k] in attachments;
      AttachmentArrives(attachments[k]);
      assert parts[k + 1] == AttachmentEntity(attachments[k]);
    }
  }

  lemma QuotedPrintableToken()
    ensures Lower(Trim(Headers.TrimWhite(QUOTED_PRINTABLE))) == QUOTED_PRINTABLE
    ensures QUOTED_PRINTABLE != BASE64 && Headers.NoBreak(QUOTED_PRINTABLE)
  {
    hide IsBlank;
    NotBlankEither();
    TrimWhiteStays(QUOTED_PRINTABLE);
    TrimNothing(QUOTED_PRINTABLE);
  }

  lemma NotBlankEither()
    ensures !IsBlank(QUOTED_PRINTABLE[0]) && !IsBlank(QUOTED_PRINTABLE[15])
  {
  }

  lemma BodyFields(body: BodyPart)
    ensures var headers := ReadFields(BodyEntity(body).fields);
      && Lookup(headers, CONTENT_TYPE) == Some(Headers.TrimWhite(body.contentType))
      && Lookup(headers, CONTENT_TRANSFER_ENCODING) == Some(Headers.TrimWhite(body.contentTransferEncoding))
  {
    hide CONTENT_TYPE, CONTENT_TRANSFER_ENCODING, Headers.TrimWhite, Headers.ValidName, EnsureTrailingCrlf;
    NamesAreGood();
    var fields := BodyEntity(body).fields;
    var headers := ReadFields(fields);
    assert headers[1..] == ReadFields(fields[1..]);
    assert fields[1..][0] == fields[1];
    LookupPast(headers, CONTENT_TYPE);
    LookupPast(headers, CONTENT_TRANSFER_ENCODING);
    LookupPast(headers[1..], CONTENT_TRANSFER_ENCODING);
  }

  function QuotedPrintableBody(contentType: Bytes, source: Bytes): BodyPart {
    BodyPart(contentType, QUOTED_PRINTABLE, QuotedPrintable.Encode(source))
  }

  /** A quoted-printable body part is decoded to its source, but for the CRLF that belongs to the delimiter. */
  lemma QuotedPrintableArrives(contentType: Bytes, source: Bytes)
    requires Headers.NoBreak(contentType)
    ensures var body := QuotedPrintableBody(contentType, source);
      var part := BodyEntity(body);
      && GoodBody(body) && GoodPart(part)
      && ContentOf(Received(part.fields, part.content))
         == Some(if DataPhase.EndsWithCrlf(source) then source[..|source| - 2] else source)
  {
    hide GoodFields, ParseEntity, Received, Lookup, Headers.NoBreak, QuotedPrintable.Encode, QuotedPrintable.Decode,
      Headers.TrimWhite, Lower, Trim, CONTENT_TYPE, CONTENT_TRANSFER_ENCODING, ReadFields;
    var body := QuotedPrintableBody(contentType, source);
    var part := BodyEntity(body);
    QuotedPrintableToken();
    BodyIsGood(body);
    QuotedPrintable.LinesAreGood(source);
    PartIsRead(part.fields, part.content);
    BodyFields(body);
    QuotedPrintable.RoundTripWithoutCrlf(source);
  }

  /**
   * With a quoted-printable body nothing is left to ask for: whatever the source
   * and the attachments, every one of them arrives.
   */
  lemma QuotedPrintableMixedArrives(contentType: Bytes, source: Bytes, attachments: seq<Attachment>, boundary: Bytes)
    requires Multipart.IsBoundary(boundary) && Headers.NoBreak(contentType)
    requires forall a | a in attachments :: GoodAttachment(a)
    ensures var delimiter := Multipart.Delimiter(boundary);
      var text := Multipart.Framed(Rendered(MixedParts(QuotedPrintableBody(contentType, source), attachments)), delimiter);
      var slices := Multipart.Split(text, delimiter, 0, None);
      && |slices| == 1 + |attachments|
      && FieldOf(slices[0], CONTENT_TYPE) == Some(Headers.TrimWhite(contentType))
      && ContentOf(slices[0]) == Some(if DataPhase.EndsWithCrlf(source) then source[..|source| - 2] else source)
      && forall k | 0 <= k < |attachments| :: Arrives(attachments[k], slices[k + 1])
  {
    hide *;
    QuotedPrintableIs(contentType, source);
    QuotedPrintableArrives(contentType, source);
    QuotedPrintableIsExact(source, boundary);
    MixedRoundTrip(QuotedPrintableBody(contentType, source), attachments, boundary);
  }

  lemma QuotedPrintableIs(contentType: Bytes, source: Bytes)
    ensures QuotedPrintableBody(contentType, source).data == QuotedPrintable.Encode(source)
    ensures QuotedPrintableBody(contentType, source).contentType == contentType
  {
  }
}
