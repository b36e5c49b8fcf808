/**
 * Multipart framing: the delimiter lines the writer of `src/internal/mime.ts`
 * emits against `splitMultipart` of `src/mime/parse.ts` (section 5.1.1 of
 * RFC 2046).
 */
module Multipart {
  import opened Common

  // ----------------------------------------------------------------- writer

  const BOUNDARY_PREFIX: Bytes :=
    [0x2d, 0x2d, 0x2d, 0x2d, 0x3d, 0x5f, 0x6d, 0x78, 0x72, 0x61, 0x76, 0x65, 0x6e, 0x5f]

  /** What `generateBoundary` returns: the prefix and sixteen random octets in lower-case hex. */
  predicate IsBoundary(b: Bytes) {
    |b| == 46 && b[..14] == BOUNDARY_PREFIX && forall i | 14 <= i < 46 :: IsDigit(b[i]) || 0x61 <= b[i] <= 0x66
  }

  function Delimiter(boundary: Bytes): Bytes { [HYPHEN, HYPHEN] + boundary }

  /** The `Content-Type` and `Content-Transfer-Encoding` a multipart body is announced with. */
  datatype Announced = Announced(contentType: Bytes, encoding: Bytes)

  function MultipartType(subtype: Bytes, boundary: Bytes): Bytes {
    Lit("multipart/") + subtype + Lit("; boundary=\"") + boundary + Lit("\"")
  }

  /** A delimiter line before every part, and the closing delimiter. */
  function Framed(parts: seq<Bytes>, delimiter: Bytes): Bytes {
    if parts == [] then delimiter + [HYPHEN, HYPHEN] + CRLF
    else delimiter + CRLF + parts[0] + Framed(parts[1..], delimiter)
  }

  // ----------------------------------------------------------------- reader

  predicate At(text: Bytes, delimiter: Bytes, i: nat) {
    i + |delimiter| <= |text| && text[i..i + |delimiter|] == delimiter
  }

  /** The index of the first occurrence at or after `pos`. */
  function Find(text: Bytes, delimiter: Bytes, pos: nat): (i: Option<nat>)
    ensures i.Some? ==> pos <= i.value && At(text, delimiter, i.value)
    ensures forall k | pos <= k < (if i.Some? then i.value else |text|) :: !At(text, delimiter, k)
    decreases |text| - pos
  {
    if pos + |delimiter| > |text| then None
    else if At(text, delimiter, pos) then Some(pos)
    else if pos == |text| then None
    else Find(text, delimiter, pos + 1)
  }

  function SkipWhite(text: Bytes, i: nat): (j: nat)
    requires i <= |text|
    ensures i <= j <= |text|
    decreases |text| - i
  {
    if i < |text| && (text[i] == SPACE || text[i] == TAB) then SkipWhite(text, i + 1) else i
  }

  /** `subarray`: empty when the end comes before the start. */
  function Slice(text: Bytes, start: nat, end: nat): Bytes
    requires start <= |text| && end <= |text|
  {
    if start <= end then text[start..end] else []
  }

  /** Where a part ends that is terminated by the delimiter at `found`: before the line break. */
  function PartEnd(text: Bytes, found: nat): (end: nat)
    requires found <= |text|
    ensures end <= found
  {
    if found > 0 && text[found - 1] == LF then
      if found > 1 && text[found - 2] == CR then found - 2 else found - 1
    else found
  }

  function Terminated(text: Bytes, start: Option<nat>, found: nat): seq<Bytes>
    requires found <= |text| && (start.Some? ==> start.value <= |text|)
  {
    if start.None? then [] else [Slice(text, start.value, PartEnd(text, found))]
  }

  predicate Has(text: Bytes, i: nat, b: byte) { i < |text| && text[i] == b }

  /** The parts `splitMultipart` finds from `pos` on, when a part has started at `start`. */
  function Split(text: Bytes, delimiter: Bytes, pos: nat, start: Option<nat>): seq<Bytes>
    requires delimiter != [] && pos <= |text| && (start.Some? ==> start.value <= |text|)
    decreases |text| - pos, 1
  {
    var found := Find(text, delimiter, pos);
    if found.None? then if start.None? then [] else [text[start.value..]]
    else if found.value != 0 && text[found.value - 1] != LF then
      Split(text, delimiter, found.value + |delimiter|, start)
    else Terminated(text, start, found.value) + SplitAfter(text, delimiter, pos, found.value, start)
  }

  /** The parts after the delimiter line at `found`. */
  function SplitAfter(text: Bytes, delimiter: Bytes, pos: nat, found: nat, start: Option<nat>): seq<Bytes>
    requires delimiter != [] && pos <= found && At(text, delimiter, found) && (start.Some? ==> start.value <= |text|)
    decreases |text| - pos, 0
  {
    var after := SkipWhite(text, found + |delimiter|);
    if Has(text, after, HYPHEN) && Has(text, after + 1, HYPHEN) then []
    else if Has(text, after, CR) && Has(text, after + 1, LF) then Split(text, delimiter, after + 2, Some(after + 2))
    else if Has(text, after, LF) then Split(text, delimiter, after + 1, Some(after + 1))
    else if after == |text| then []
    else Split(text, delimiter, found + |delimiter|, start)
  }

  /** `splitMultipart` */
  method SplitMultipart(body: Bytes, delimiter: Bytes) returns (parts: seq<Bytes>)
    requires delimiter != []
    ensures parts == Split(body, delimiter, 0, None)
  {
    hide Find, SkipWhite, Split, SplitAfter, Slice, PartEnd, Terminated;
    parts := [];
    var position: nat := 0;
    var partStart: Option<nat> := None;
    while true
      invariant position <= |body| && (partStart.Some? ==> partStart.value <= |body|)
      invariant parts + Split(body, delimiter, position, partStart) == Split(body, delimiter, 0, None)
      decreases |body| - position
    {
      ghost var before, rest := parts, Split(body, delimiter, position, partStart);
      SplitCases(body, delimiter, position, partStart);
      var found := Find(body, delimiter, position);
      if found.None? {
        if partStart.Some? { parts := parts + [body[partStart.value..]]; }
        assert parts + [] == parts;
        return;
      }
      if found.value != 0 && body[found.value - 1] != LF {
        position := found.value + |delimiter|;
        continue;
      }
      parts := parts + Terminated(body, partStart, found.value);
      assert parts + SplitAfter(body, delimiter, position, found.value, partStart) == before + rest;
      SplitAfterCases(body, delimiter, position, found.value, partStart);
      var after := SkipWhite(body, found.value + |delimiter|);
      if Has(body, after, HYPHEN) && Has(body, after + 1, HYPHEN) {
        assert parts + [] == parts;
        return;
      }
      if Has(body, after, CR) && Has(body, after + 1, LF) {
        after := after + 2;
      } else if Has(body, after, LF) {
        after := after + 1;
      } else if after == |body| {
        assert parts + [] == parts;
        return;
      } else {
        position := found.value + |delimiter|;
        continue;
      }
      partStart := Some(after);
      position := after;
    }
  }

  lemma SplitCases(text: Bytes, delimiter: Bytes, pos: nat, start: Option<nat>)
    requires delimiter != [] && pos <= |text| && (start.Some? ==> start.value <= |text|)
    ensures var found, all := Find(text, delimiter, pos), Split(text, delimiter, pos, start);
      && (found.None? ==> all == if start.None? then [] else [text[start.value..]])
      && (found.Some? && found.value != 0 && text[found.value - 1] != LF ==>
            all == Split(text, delimiter, found.value + |delimiter|, start))
      && (found.Some? && (found.value == 0 || text[found.value - 1] == LF) ==>
            all == Terminated(text, start, found.value) + SplitAfter(text, delimiter, pos, found.value, start))
  {
  }

  lemma SplitAfterCases(text: Bytes, delimiter: Bytes, pos: nat, found: nat, start: Option<nat>)
    requires delimiter != [] && pos <= found && At(text, delimiter, found) && (start.Some? ==> start.value <= |text|)
    ensures var after := SkipWhite(text, found + |delimiter|);
      SplitAfter(text, delimiter, pos, found, start)
        == if Has(text, after, HYPHEN) && Has(text, after + 1, HYPHEN) then []
           else if Has(text, after, CR) && Has(text, after + 1, LF) then Split(text, delimiter, after + 2, Some(after + 2))
           else if Has(text, after, LF) then Split(text, delimiter, after + 1, Some(after + 1))
           else if after == |text| then []
           else Split(text, delimiter, found + |delimiter|, start)
  {
  }

  // ------------------------------------------------------------ clean parts

  /** The delimiter at the start of a line. */
  predicate Hit(text: Bytes, delimiter: Bytes, i: nat) {
    At(text, delimiter, i) && (i == 0 || text[i - 1] == LF)
  }

  /** No line of the text starts with the delimiter. */
  predicate Clean(text: Bytes, delimiter: Bytes) { forall i: nat | i <= |text| :: !Hit(text, delimiter, i) }

  predicate AllClean(parts: seq<Bytes>, delimiter: Bytes) { forall p | p in parts :: Clean(p, delimiter) }

  /** A delimiter is a run of characters within one line. */
  predicate IsDelimiter(delimiter: Bytes) {
    |delimiter| >= 3 && delimiter[0] == HYPHEN && CR !in delimiter && LF !in delimiter
  }

  lemma BoundaryFacts(boundary: Bytes)
    requires IsBoundary(boundary)
    ensures IsDelimiter(Delimiter(boundary)) && |Delimiter(boundary)| == 48
    ensures Delimiter(boundary)[6..8] == [0x3d, 0x5f]
  {
    var d := Delimiter(boundary);
    assert forall i | 0 <= i < 14 :: boundary[i] == BOUNDARY_PREFIX[i];
    forall c | c in d ensures c != CR && c != LF {
      var i :| 0 <= i < |d| && d[i] == c;
      if i >= 2 { assert d[i] == boundary[i - 2]; }
    }
    assert d[6] == boundary[4] && d[7] == boundary[5];
  }

  /** Everything before the next delimiter line is skipped. */
  lemma {:induction false} SkipTo(text: Bytes, delimiter: Bytes, pos: nat, start: Option<nat>, j: nat)
    requires IsDelimiter(delimiter) && pos <= j && Hit(text, delimiter, j)
    requires forall k | pos <= k < j :: !Hit(text, delimiter, k)
    requires start.Some? ==> start.value <= |text|
    ensures Split(text, delimiter, pos, start)
         == Terminated(text, start, j) + SplitAfter(text, delimiter, j, j, start)
    decreases j - pos
  {
    hide Find, SplitAfter, Split, Terminated;
    var found := Find(text, delimiter, pos);
    SplitCases(text, delimiter, pos, start);
    assert found.Some? && found.value <= j;
    var f := found.value;
    if f == j {
      SplitAfterCases(text, delimiter, pos, j, start);
      SplitAfterCases(text, delimiter, j, j, start);
    } else {
      assert !Hit(text, delimiter, f);
      NoBreakInside(text, delimiter, f, j - 1);
      SkipTo(text, delimiter, f + |delimiter|, start, j);
    }
  }

  lemma Mismatch(text: Bytes, delimiter: Bytes, i: nat, k: nat)
    requires k < |delimiter| && (i + k < |text| ==> text[i + k] != delimiter[k])
    ensures !At(text, delimiter, i)
  {
    if i + |delimiter| <= |text| { assert text[i..i + |delimiter|][k] != delimiter[k]; }
  }

  lemma NoBreakInside(text: Bytes, delimiter: Bytes, f: nat, i: nat)
    requires LF !in delimiter && At(text, delimiter, f) && f <= i < |text| && text[i] == LF
    ensures i >= f + |delimiter|
  {
    assert forall k | f <= k < f + |delimiter| :: text[k] == text[f..f + |delimiter|][k - f];
  }

  /** A part as it is written: it ends in CRLF. */
  predicate IsPart(part: Bytes) { |part| >= 2 && part[|part| - 2..] == CRLF }

  /** What a reader makes of a part: the line break before the delimiter belongs to the delimiter. */
  function Stripped(parts: seq<Bytes>): (slices: seq<Bytes>)
    requires forall p | p in parts :: IsPart(p)
    ensures |slices| == |parts|
    ensures forall k | 0 <= k < |parts| :: IsPart(parts[k]) && slices[k] == parts[k][..|parts[k]| - 2]
  {
    if parts == [] then [] else assert IsPart(parts[0]); [parts[0][..|parts[0]| - 2]] + Stripped(parts[1..])
  }

  /** Where `part` stands in `text`, right after a delimiter line; `rest` follows it. */
  predicate Inside(text: Bytes, pre: Bytes, part: Bytes, rest: seq<Bytes>, delimiter: Bytes) {
    text == pre + part + Framed(rest, delimiter)
  }

  lemma HitInside(text: Bytes, pre: Bytes, part: Bytes, rest: seq<Bytes>, delimiter: Bytes, i: nat)
    requires Inside(text, pre, part, rest, delimiter) && IsDelimiter(delimiter) && IsPart(part)
    requires pre != [] && pre[|pre| - 1] == LF && i < |part|
    ensures Hit(text, delimiter, |pre| + i) <==> Hit(part, delimiter, i)
  {
    var j, n := |pre| + i, |delimiter|;
    assert text[|pre|..|pre| + |part|] == part;
    assert part[|part| - 1] == part[|part| - 2..][1] == LF;
    assert i > 0 ==> text[j - 1] == part[i - 1];
    assert i == 0 ==> text[j - 1] == LF;
    if i + n <= |part| {
      assert text[j..j + n] == text[|pre|..|pre| + |part|][i..i + n];
    } else if At(text, delimiter, j) {
      NoBreakInside(text, delimiter, j, |pre| + |part| - 1);
    }
  }

  lemma FramedStarts(rest: seq<Bytes>, delimiter: Bytes)
    ensures delimiter <= Framed(rest, delimiter)
  {
    var f := Framed(rest, delimiter);
    if rest == [] {
      assert f[..|delimiter|] == delimiter;
    } else {
      assert f[..|delimiter|] == delimiter;
    }
  }

  /** The delimiter line after a part. */
  lemma HitAfter(text: Bytes, pre: Bytes, part: Bytes, rest: seq<Bytes>, delimiter: Bytes)
    requires Inside(text, pre, part, rest, delimiter) && IsPart(part)
    ensures Hit(text, delimiter, |pre| + |part|)
    ensures Terminated(text, Some(|pre|), |pre| + |part|) == [part[..|part| - 2]]
  {
    hide Framed;
    FramedStarts(rest, delimiter);
    var j, f := |pre| + |part|, Framed(rest, delimiter);
    assert text[j..] == f;
    assert text[j..j + |delimiter|] == f[..|delimiter|] == delimiter;
    assert part[|part| - 2..][0] == CR && part[|part| - 2..][1] == LF;
    assert text[j - 1] == part[|part| - 1] == LF && text[j - 2] == part[|part| - 2] == CR;
    assert text[|pre|..j - 2] == part[..|part| - 2];
  }

  lemma SkipNothing(text: Bytes, i: nat)
    requires i < |text| && text[i] != SPACE && text[i] != TAB
    ensures SkipWhite(text, i) == i
  {
  }

  /** The closing delimiter ends the reading. */
  lemma AtClose(text: Bytes, pre: Bytes, part: Bytes, delimiter: Bytes, start: Option<nat>)
    requires Inside(text, pre, part, [], delimiter) && delimiter != [] && (start.Some? ==> start.value <= |text|)
    ensures var j := |pre| + |part|;
      At(text, delimiter, j) && SplitAfter(text, delimiter, j, j, start) == []
  {
    var j, n := |pre| + |part|, |delimiter|;
    var f := delimiter + [HYPHEN, HYPHEN] + CRLF;
    assert text[j..] == f && text[j..j + n] == f[..n] == delimiter;
    assert text[j + n] == f[n] == HYPHEN && text[j + n + 1] == f[n + 1] == HYPHEN;
    SkipNothing(text, j + n);
  }

  /** Another delimiter line starts the next part. */
  lemma AtNext(text: Bytes, j: nat, delimiter: Bytes, start: Option<nat>)
    requires delimiter != [] && At(text, delimiter, j) && j + |delimiter| + 2 <= |text|
    requires text[j + |delimiter|] == CR && text[j + |delimiter| + 1] == LF
    requires start.Some? ==> start.value <= |text|
    ensures var next := j + |delimiter| + 2;
      SplitAfter(text, delimiter, j, j, start) == Split(text, delimiter, next, Some(next))
  {
    hide Split;
    SkipNothing(text, j + |delimiter|);
  }

  lemma NextInside(text: Bytes, pre: Bytes, part: Bytes, rest: seq<Bytes>, delimiter: Bytes)
    requires Inside(text, pre, part, rest, delimiter) && rest != []
    ensures Inside(text, pre + part + delimiter + CRLF, rest[0], rest[1..], delimiter)
    ensures var j := |pre| + |part|;
      && j + |delimiter| + 2 <= |text| && text[j + |delimiter|] == CR && text[j + |delimiter| + 1] == LF
  {
    var next := pre + part + delimiter + CRLF;
    var tail := rest[0] + Framed(rest[1..], delimiter);
    assert Framed(rest, delimiter) == delimiter + CRLF + tail;
    assert text == next + tail;
    assert next + tail == next + rest[0] + Framed(rest[1..], delimiter);
  }

  /** From the start of a clean part on, that part comes first and the others follow. */
  lemma CleanPart(text: Bytes, pre: Bytes, part: Bytes, rest: seq<Bytes>, delimiter: Bytes)
    requires Inside(text, pre, part, rest, delimiter) && IsDelimiter(delimiter) && IsPart(part)
    requires pre != [] && pre[|pre| - 1] == LF && Clean(part, delimiter)
    ensures var next := pre + part + delimiter + CRLF;
      && (rest == [] ==> Split(text, delimiter, |pre|, Some(|pre|)) == [part[..|part| - 2]])
      && (rest != [] ==>
            && |next| <= |text|
            && Split(text, delimiter, |pre|, Some(|pre|))
               == [part[..|part| - 2]] + Split(text, delimiter, |next|, Some(|next|)))
  {
    hide Split, Clean, Hit, SplitAfter, Terminated, Inside;
    var j := |pre| + |part|;
    TextLength(text, pre, part, rest, delimiter);
    HitAfter(text, pre, part, rest, delimiter);
    forall k | |pre| <= k < j ensures !Hit(text, delimiter, k) {
      HitInside(text, pre, part, rest, delimiter, k - |pre|);
      CleanAt(part, delimiter, k - |pre|);
    }
    HitIsAt(text, delimiter, j);
    SkipTo(text, delimiter, |pre|, Some(|pre|), j);
    if rest == [] {
      AtClose(text, pre, part, delimiter, Some(|pre|));
    } else {
      NextInside(text, pre, part, rest, delimiter);
      AtNext(text, j, delimiter, Some(|pre|));
    }
  }

  lemma TextLength(text: Bytes, pre: Bytes, part: Bytes, rest: seq<Bytes>, delimiter: Bytes)
    requires Inside(text, pre, part, rest, delimiter)
    ensures |pre| + |part| <= |text|
  {
  }

  lemma HitIsAt(text: Bytes, delimiter: Bytes, i: nat)
    requires Hit(text, delimiter, i)
    ensures At(text, delimiter, i)
  {
  }

  lemma CleanAt(text: Bytes, delimiter: Bytes, i: nat)
    requires Clean(text, delimiter) && i <= |text|
    ensures !Hit(text, delimiter, i)
  {
  }

  /** The first line that starts with the delimiter, at or after `i`. */
  function FirstHit(text: Bytes, delimiter: Bytes, i: nat): (j: nat)
    requires i <= |text| && exists k: nat | i <= k <= |text| :: Hit(text, delimiter, k)
    ensures i <= j <= |text| && Hit(text, delimiter, j)
    ensures forall k | i <= k < j :: !Hit(text, delimiter, k)
    decreases |text| - i
  {
    if Hit(text, delimiter, i) then i else FirstHit(text, delimiter, i + 1)
  }

  /** A part that is not clean is cut short at its first delimiter. */
  lemma DirtyPart(text: Bytes, pre: Bytes, part: Bytes, rest: seq<Bytes>, delimiter: Bytes)
    requires Inside(text, pre, part, rest, delimiter) && IsDelimiter(delimiter) && IsPart(part)
    requires pre != [] && pre[|pre| - 1] == LF && !Clean(part, delimiter)
    ensures |pre| <= |text|
    ensures var parts := Split(text, delimiter, |pre|, Some(|pre|));
      parts != [] && |parts[0]| < |part| - 2
  {
    hide Split, SplitAfter, Inside, Terminated;
    TextLength(text, pre, part, rest, delimiter);
    var i := FirstHit(part, delimiter, 0);
    var j := |pre| + i;
    HitBeforeBreak(part, delimiter, i);
    HitInside(text, pre, part, rest, delimiter, i);
    forall k | |pre| <= k < j ensures !Hit(text, delimiter, k) {
      HitInside(text, pre, part, rest, delimiter, k - |pre|);
    }
    SkipTo(text, delimiter, |pre|, Some(|pre|), j);
    CutShort(text, |pre|, j);
  }

  lemma HitBeforeBreak(part: Bytes, delimiter: Bytes, i: nat)
    requires IsPart(part) && IsDelimiter(delimiter) && Hit(part, delimiter, i)
    ensures i + 3 < |part|
  {
    assert part[|part| - 1] == part[|part| - 2..][1] == LF;
    if i + |delimiter| == |part| { NoBreakInside(part, delimiter, i, |part| - 1); }
  }

  lemma CutShort(text: Bytes, start: nat, j: nat)
    requires start <= j <= |text|
    ensures |Terminated(text, Some(start), j)| == 1 && |Terminated(text, Some(start), j)[0]| <= j - start
  {
  }

  predicate AllParts(parts: seq<Bytes>) { forall p | p in parts :: IsPart(p) }

  lemma {:induction false} PartsExact(text: Bytes, pre: Bytes, part: Bytes, rest: seq<Bytes>, delimiter: Bytes)
    requires Inside(text, pre, part, rest, delimiter) && IsDelimiter(delimiter) && IsPart(part) && AllParts(rest)
    requires pre != [] && pre[|pre| - 1] == LF
    ensures |pre| <= |text|
    ensures Split(text, delimiter, |pre|, Some(|pre|)) == [part[..|part| - 2]] + Stripped(rest)
      <==> Clean(part, delimiter) && AllClean(rest, delimiter)
    decreases |rest|
  {
    hide Split, Clean, Inside;
    TextLength(text, pre, part, rest, delimiter);
    if !Clean(part, delimiter) {
      DirtyPart(text, pre, part, rest, delimiter);
    } else {
      CleanPart(text, pre, part, rest, delimiter);
      if rest != [] {
        var next := pre + part + delimiter + CRLF;
        assert rest[0] in rest && forall p | p in rest[1..] :: p in rest;
        NextInside(text, pre, part, rest, delimiter);
        PartsExact(text, next, rest[0], rest[1..], delimiter);
        AllCleanSplit(rest, delimiter);
        SameTail([part[..|part| - 2]], Split(text, delimiter, |next|, Some(|next|)), Stripped(rest));
      }
    }
  }

  lemma SameTail<T>(a: seq<T>, b: seq<T>, c: seq<T>)
    ensures a + b == a + c <==> b == c
  {
    if a + b == a + c {
      assert (a + b)[|a|..] == b && (a + c)[|a|..] == c;
    }
  }

  lemma AllCleanSplit(parts: seq<Bytes>, delimiter: Bytes)
    requires parts != []
    ensures AllClean(parts, delimiter) <==> Clean(parts[0], delimiter) && AllClean(parts[1..], delimiter)
  {
    hide Clean;
    assert parts == [parts[0]] + parts[1..];
  }

  /** The first delimiter line starts the first part. */
  lemma FirstPart(parts: seq<Bytes>, delimiter: Bytes)
    requires IsDelimiter(delimiter) && parts != []
    ensures var text, pre := Framed(parts, delimiter), delimiter + CRLF;
      && Inside(text, pre, parts[0], parts[1..], delimiter)
      && |pre| <= |text|
      && Split(text, delimiter, 0, None) == Split(text, delimiter, |pre|, Some(|pre|))
  {
    hide Split, SplitAfter, Framed, Inside, At;
    var text := Framed(parts, delimiter);
    StartsAtOnce(parts, delimiter);
    assert [] + [] + delimiter + CRLF == delimiter + CRLF;
    InsideWhole(parts, delimiter);
    NextInside(text, [], [], parts, delimiter);
    AtNext(text, 0, delimiter, None);
  }

  lemma StartsAtOnce(parts: seq<Bytes>, delimiter: Bytes)
    requires IsDelimiter(delimiter)
    ensures var text := Framed(parts, delimiter);
      At(text, delimiter, 0) && Split(text, delimiter, 0, None) == SplitAfter(text, delimiter, 0, 0, None)
  {
    hide Split, SplitAfter, Framed;
    var text := Framed(parts, delimiter);
    FramedStarts(parts, delimiter);
    assert text[0..|delimiter|] == text[..|delimiter|];
    SkipTo(text, delimiter, 0, None, 0);
    assert [] + SplitAfter(text, delimiter, 0, 0, None) == SplitAfter(text, delimiter, 0, 0, None);
  }

  /**
   * Splitting a framed body gives back every part, without its final CRLF, if
   * and only if no line of any part starts with the delimiter.
   */
  lemma SplitIsExact(parts: seq<Bytes>, delimiter: Bytes)
    requires IsDelimiter(delimiter) && AllParts(parts)
    ensures Split(Framed(parts, delimiter), delimiter, 0, None) == Stripped(parts) <==> AllClean(parts, delimiter)
  {
    hide Split, SplitAfter, Clean, IsPart, Framed, Inside;
    var text := Framed(parts, delimiter);
    if parts == [] {
      StartsAtOnce(parts, delimiter);
      InsideWhole(parts, delimiter);
      AtClose(text, [], [], delimiter, None);
    } else {
      assert parts[0] in parts && forall p | p in parts[1..] :: p in parts;
      FirstPart(parts, delimiter);
      PartsExact(text, delimiter + CRLF, parts[0], parts[1..], delimiter);
      AllCleanSplit(parts, delimiter);
    }
  }

  lemma InsideWhole(parts: seq<Bytes>, delimiter: Bytes)
    ensures Inside(Framed(parts, delimiter), [], [], parts, delimiter)
  {
    hide Framed;
    assert [] + [] + Framed(parts, delimiter) == Framed(parts, delimiter);
  }

  // -------------------------------------------------- what is clean for sure

  /** A line that does not start with a hyphen hides no delimiter. */
  lemma CleanAfterLine(line: Bytes, rest: Bytes, delimiter: Bytes)
    requires IsDelimiter(delimiter) && LF !in line && (line != [] ==> line[0] != HYPHEN)
    ensures Clean(line + CRLF + rest, delimiter) <==> Clean(rest, delimiter)
  {
    hide Clean, Hit;
    var text, n := line + CRLF + rest, |line| + 2;
    forall i: nat | i < n ensures !Hit(text, delimiter, i) {
      EarlyMiss(line, rest, delimiter, i);
    }
    forall i: nat | i <= |rest| ensures Hit(text, delimiter, n + i) <==> Hit(rest, delimiter, i) {
      LateHit(line, rest, delimiter, i);
    }
    CleanShift(text, rest, delimiter, n);
  }

  lemma EarlyMiss(line: Bytes, rest: Bytes, delimiter: Bytes, i: nat)
    requires IsDelimiter(delimiter) && LF !in line && (line != [] ==> line[0] != HYPHEN) && i < |line| + 2
    ensures !Hit(line + CRLF + rest, delimiter, i)
  {
    var text := line + CRLF + rest;
    if i == 0 {
      Mismatch(text, delimiter, 0, 0);
    } else {
      assert text[i - 1] == if i <= |line| then line[i - 1] else CR;
    }
  }

  lemma LateHit(line: Bytes, rest: Bytes, delimiter: Bytes, i: nat)
    requires i <= |rest|
    ensures Hit(line + CRLF + rest, delimiter, |line| + 2 + i) <==> Hit(rest, delimiter, i)
  {
    var text, n := line + CRLF + rest, |line| + 2;
    assert text[n - 1] == LF;
    assert text[n..] == rest;
    if i + |delimiter| <= |rest| {
      assert text[n + i..n + i + |delimiter|] == rest[i..i + |delimiter|];
    }
    if i > 0 { assert text[n + i - 1] == rest[i - 1]; }
  }

  lemma CleanShift(text: Bytes, rest: Bytes, delimiter: Bytes, n: nat)
    requires |text| == n + |rest| && forall i: nat | i < n :: !Hit(text, delimiter, i)
    requires forall i: nat | i <= |rest| :: Hit(text, delimiter, n + i) <==> Hit(rest, delimiter, i)
    ensures Clean(text, delimiter) <==> Clean(rest, delimiter)
  {
    hide Hit;
    if Clean(rest, delimiter) {
      forall i: nat | i <= |text| ensures !Hit(text, delimiter, i) {
        if i >= n { assert Hit(text, delimiter, n + (i - n)) <==> Hit(rest, delimiter, i - n); }
      }
    }
    if Clean(text, delimiter) {
      forall i: nat | i <= |rest| ensures !Hit(rest, delimiter, i) {
        assert Hit(text, delimiter, n + i) <==> Hit(rest, delimiter, i);
      }
    }
  }

  /** Text without a hyphen, as wrapped Base64 is, holds no delimiter. */
  lemma CleanWithoutHyphen(text: Bytes, delimiter: Bytes)
    requires IsDelimiter(delimiter) && HYPHEN !in text
    ensures Clean(text, delimiter)
  {
    forall i: nat | i <= |text| ensures !Hit(text, delimiter, i) {
      Mismatch(text, delimiter, i, 0);
    }
  }

  /** Text without the pair `=_`, as quoted-printable is, holds no delimiter made from a boundary. */
  lemma CleanWithoutPair(text: Bytes, boundary: Bytes)
    requires IsBoundary(boundary)
    requires forall i | 0 <= i < |text| - 1 :: text[i] == 0x3d ==> text[i + 1] != 0x5f
    ensures Clean(text, Delimiter(boundary))
  {
    var d := Delimiter(boundary);
    BoundaryFacts(boundary);
    assert d[6] == d[6..8][0] && d[7] == d[6..8][1];
    forall i: nat | i <= |text| ensures !Hit(text, d, i) {
      if i + 6 < |text| && text[i + 6] == 0x3d {
        if i + 7 < |text| { assert text[i + 6 + 1] != 0x5f; }
        Mismatch(text, d, i, 7);
      } else {
        Mismatch(text, d, i, 6);
      }
    }
  }
}
