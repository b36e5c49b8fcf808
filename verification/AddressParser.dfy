/**
 * The recursive-descent parser of `src/address.ts` as it is written: an object
 * that moves one cursor. Every method is proved to do what the grammar
 * functions say, and never to leave the input.
 */
module AddressParsing {
  import opened Common
  import opened Strings
  import opened AddressErrors
  import opened AddressGrammar
  import opened Address
  import EncodedWord

  /** What has been skipped so far, in front of what is skipped from the cursor on. */
  function Onward(skipped: bool, n: nat, r: Parsed<bool>): Parsed<bool> {
    match r
    case Failed(k) => Failed(k)
    case Parsed(v, size) => Parsed(skipped || v, n + size)
  }

  /** What has been read so far, in front of what is read from the cursor on. */
  function Collected(value: Text, n: nat, r: Parsed<Text>): Parsed<Text> {
    match r
    case Failed(k) => Failed(k)
    case Parsed(v, size) => Parsed(value + v, n + size)
  }

  lemma Drop<T>(s: seq<T>, a: nat, b: nat)
    requires a + b <= |s|
    ensures s[a..][b..] == s[a + b..]
  {
  }

  lemma OnwardTwice(skipped: bool, n: nat, m: nat, r: Parsed<bool>)
    ensures Onward(skipped, n, Onward(true, m, r)) == Onward(true, n + m, r)
  {
  }

  lemma CollectedOne(value: Text, n: nat, c: CodePoint, m: nat, r: Parsed<Text>)
    ensures Collected(value, n, Prefixed(c, m, r)) == Collected(value + [c], n + m, r)
  {
    if r.Parsed? { assert value + ([c] + r.value) == value + [c] + r.value; }
  }

  lemma SkipFwsCases(s: Text)
    ensures s != [] && IsWhite(s[0]) ==> SkipFws(s) == Onward(true, 1, SkipFws(s[1..]))
    ensures s != [] && IsBreak(s[0]) ==>
      SkipFws(s) == if Folded(s).Failed? then Failed(Folded(s).kind)
                    else Onward(true, Folded(s).size, SkipFws(s[Folded(s).size..]))
    ensures s == [] || (!IsWhite(s[0]) && !IsBreak(s[0])) ==> SkipFws(s) == Parsed(false, 0)
  {
    hide Folded;
  }

  /** One round of `skipCfws`: white space and at most one comment; whether anything was there, and a comment. */
  function Round(s: Text): (r: Parsed<(bool, bool)>)
    ensures r.Parsed? ==> r.size <= |s| && (r.value.1 ==> r.size > 0)
  {
    var fws := SkipFws(s);
    if fws.Failed? then Failed(fws.kind)
    else if !Starts(s[fws.size..], OPEN_PAREN) then Parsed((fws.value, false), fws.size)
    else
      var comment := Comment(s[fws.size + 1..], 1);
      if comment.Failed? then Failed(comment.kind) else Parsed((true, true), fws.size + 1 + comment.size)
  }

  lemma RoundCases(s: Text)
    ensures var round := Round(s);
      && (round.Failed? ==> SkipCfws(s) == Failed(round.kind))
      && (round.Parsed? ==>
            SkipCfws(s) == if round.value.1 then Onward(true, round.size, SkipCfws(s[round.size..]))
                           else Parsed(round.value.0, round.size))
  {
    hide SkipFws, Comment;
  }

  /** One character of a comment, or what stands for one: how deep the comments are behind it. */
  function CommentStep(s: Text, depth: nat): (r: Parsed<nat>)
    requires depth > 0
    ensures r.Parsed? ==> 0 < r.size <= |s|
  {
    if s == [] then Failed(InvalidHeaderValue)
    else if s[0] == OPEN_PAREN then Parsed(depth + 1, 1)
    else if s[0] == CLOSE_PAREN then Parsed(depth - 1, 1)
    else if s[0] == BACKSLASH then
      if |s| < 2 then Failed(InvalidHeaderValue)
      else if IsBreak(s[1]) then Failed(InvalidLineEnding)
      else Parsed(depth, 2)
    else if IsBreak(s[0]) then
      var fold := Folded(s);
      if fold.Failed? then Failed(fold.kind) else Parsed(depth, fold.size)
    else if IsControl(s[0]) then Failed(InvalidHeaderValue)
    else Parsed(depth, 1)
  }

  lemma CommentCases(s: Text, depth: nat)
    requires depth > 0
    ensures var step := CommentStep(s, depth);
      Comment(s, depth)
        == if step.Failed? then Failed(step.kind)
           else if step.value == 0 then Parsed((), step.size)
           else Longer(step.size, Comment(s[step.size..], step.value))
  {
    hide Folded;
  }

  /** One character of a quoted string; none for the closing quote. */
  function QuotedStep(s: Text): (r: Parsed<Option<CodePoint>>)
    ensures r.Parsed? ==> 0 < r.size <= |s|
  {
    if s == [] then Failed(InvalidHeaderValue)
    else if s[0] == DQUOTE then Parsed(None, 1)
    else if s[0] == BACKSLASH then
      if |s| < 2 then Failed(InvalidHeaderValue)
      else if IsBreak(s[1]) then Failed(InvalidLineEnding)
      else Parsed(Some(s[1]), 2)
    else if IsBreak(s[0]) then
      var fold := Folded(s);
      if fold.Failed? then Failed(fold.kind) else Parsed(Some(SPACE), fold.size)
    else if IsControl(s[0]) then Failed(InvalidHeaderValue)
    else Parsed(Some(s[0]), 1)
  }

  lemma QuotedCases(s: Text)
    ensures var step := QuotedStep(s);
      QuotedBody(s)
        == if step.Failed? then Failed(step.kind)
           else if step.value.None? then Parsed([], step.size)
           else Prefixed(step.value.value, step.size, QuotedBody(s[step.size..]))
  {
    hide Folded;
  }

  /** What one round of a domain literal reads: a character, white space, or the closing bracket. */
  datatype LiteralPiece = Bracket | Skipped | Char(c: CodePoint)

  function LiteralStep(s: Text): (r: Parsed<LiteralPiece>)
    ensures r.Parsed? ==> 0 < r.size <= |s|
  {
    if s == [] then Failed(InvalidDomainLiteral)
    else if s[0] == CLOSE_BRACKET then Parsed(Bracket, 1)
    else if s[0] == BACKSLASH then
      if |s| < 2 || IsBreak(s[1]) then Failed(InvalidDomainLiteral) else Parsed(Char(s[1]), 2)
    else if IsWhite(s[0]) || IsBreak(s[0]) then
      var fws := SkipFws(s);
      if fws.Failed? then Failed(fws.kind) else assert fws.size > 0; Parsed(Skipped, fws.size)
    else if s[0] < 0x21 || s[0] > 0x7e || s[0] == OPEN_BRACKET then Failed(InvalidDomainLiteral)
    else Parsed(Char(s[0]), 1)
  }

  lemma LiteralCases(s: Text)
    ensures var step := LiteralStep(s);
      LiteralBody(s)
        == if step.Failed? then Failed(step.kind)
           else match step.value
             case Bracket => Parsed([], step.size)
             case Skipped => Longer(step.size, LiteralBody(s[step.size..]))
             case Char(c) => Prefixed(c, step.size, LiteralBody(s[step.size..]))
  {
    hide SkipFws;
  }

  lemma CollectedLonger(value: Text, n: nat, m: nat, r: Parsed<Text>)
    ensures Collected(value, n, Longer(m, r)) == Collected(value, n + m, r)
    ensures Collected([], 0, r) == r
  {
    if r.Parsed? { assert [] + r.value == r.value; }
  }

  /** Segments, each followed by a dot. */
  function Dotted(segments: seq<Text>): Text {
    if segments == [] then [] else Dotted(segments[..|segments| - 1]) + segments[|segments| - 1] + [DOT]
  }

  lemma {:induction false} JoinedIsDotted(segments: seq<Text>, last: Text)
    ensures JoinWith(segments + [last], DOT) == Dotted(segments) + last
    decreases |segments|
  {
    if segments == [] {
      assert segments + [last] == [last];
    } else {
      var n := |segments| - 1;
      var front, mid := segments[..n], segments[n];
      JoinedIsDotted(front, mid + [DOT] + last);
      JoinLast(front, mid, last);
      assert segments == front + [mid];
      assert Dotted(front) + (mid + [DOT] + last) == Dotted(front) + mid + [DOT] + last;
    }
  }

  lemma {:induction false} JoinLast(front: seq<Text>, a: Text, b: Text)
    ensures JoinWith(front + [a] + [b], DOT) == JoinWith(front + [a + [DOT] + b], DOT)
    decreases |front|
  {
    if front == [] {
      assert front + [a] + [b] == [a, b] && front + [a + [DOT] + b] == [a + [DOT] + b];
      assert [a, b][1..] == [b];
    } else {
      JoinLast(front[1..], a, b);
      assert (front + [a] + [b])[1..] == front[1..] + [a] + [b];
      assert (front + [a + [DOT] + b])[1..] == front[1..] + [a + [DOT] + b];
    }
  }

  lemma CollectedSegment(segments: seq<Text>, n: nat, segment: Text, m: nat, r: Parsed<Text>)
    ensures Collected(Dotted(segments), n, DotJoined(segment, m, r)) == Collected(Dotted(segments + [segment]), n + m, r)
  {
    var all := segments + [segment];
    assert all[..|all| - 1] == segments;
    if r.Parsed? {
      assert Dotted(segments) + (segment + [DOT] + r.value) == Dotted(segments) + segment + [DOT] + r.value;
    }
  }

  lemma DotBehindCases(s: Text)
    ensures var before := SkipCfws(s);
      && (before.Failed? ==> DotBehind(s) == before)
      && (before.Parsed? && !Starts(s[before.size..], DOT) ==> DotBehind(s) == Parsed(false, 0))
      && (before.Parsed? && Starts(s[before.size..], DOT) ==>
            var after := SkipCfws(s[before.size + 1..]);
            DotBehind(s) == if after.Failed? then after else Parsed(true, before.size + 1 + after.size))
  {
    hide SkipCfws;
  }

  lemma LocalPartCases(s: Text)
    ensures var segment := LocalSegment(s);
      && (segment.Failed? ==> LocalPart(s) == segment)
      && (segment.Parsed? ==>
            var dot := DotBehind(s[segment.size..]);
            LocalPart(s) == if dot.Failed? then Failed(dot.kind)
                            else if !dot.value then segment
                            else DotJoined(segment.value, segment.size + dot.size, LocalPart(s[segment.size + dot.size..])))
  {
    hide LocalSegment, DotBehind;
  }

  lemma DomainNameCases(s: Text)
    ensures var first := Label(s);
      && (first.Failed? ==> DomainName(s) == first)
      && (first.Parsed? ==>
            var dot := DotBehind(s[first.size..]);
            DomainName(s) == if dot.Failed? then Failed(dot.kind)
                             else if !dot.value then first
                             else DotJoined(first.value, first.size + dot.size, DomainName(s[first.size + dot.size..])))
  {
    hide Label, DotBehind;
  }

  lemma LongerTwice<T>(n: nat, m: nat, r: Parsed<T>)
    ensures Longer(n, Longer(m, r)) == Longer(n + m, r)
  {
  }

  lemma LongerCases<T>(n: nat, r: Parsed<T>)
    ensures r.Failed? ==> Longer(n, r) == Failed(r.kind)
    ensures r.Parsed? ==> Longer(n, r) == Parsed(r.value, n + r.size)
  {
  }

  lemma OnwardCases(skipped: bool, n: nat, r: Parsed<bool>)
    ensures r.Failed? ==> Onward(skipped, n, r) == Failed(r.kind)
    ensures r.Parsed? ==> Onward(skipped, n, r) == Parsed(skipped || r.value, n + r.size)
    ensures Onward(false, 0, r) == r
  {
  }

  /** A character that must come next, with CFWS on either side of it. */
  function Mark(s: Text, c: CodePoint, kind: Kind): (r: Parsed<()>)
    ensures r.Parsed? ==> 0 < r.size <= |s|
  {
    var before := SkipCfws(s);
    if before.Failed? then Failed(before.kind)
    else if !Starts(s[before.size..], c) then Failed(kind)
    else
      var after := SkipCfws(s[before.size + 1..]);
      if after.Failed? then Failed(after.kind) else Parsed((), before.size + 1 + after.size)
  }

  lemma AddrSpecCases(s: Text)
    ensures var local := LocalPart(s);
      && (local.Failed? ==> AddrSpec(s) == Failed(local.kind))
      && (local.Parsed? ==>
            var at := Mark(s[local.size..], AT, MissingAt);
            && (at.Failed? ==> AddrSpec(s) == Failed(at.kind))
            && (at.Parsed? ==>
                  var n := local.size + at.size;
                  var domain := DomainPart(s[n..]);
                  AddrSpec(s) == if domain.Failed? then Failed(domain.kind)
                                 else Parsed(Shape(local.value, domain.value), n + domain.size)))
  {
    hide LocalPart, SkipCfws, DomainPart;
    if LocalPart(s).Parsed? {
      var n := LocalPart(s).size;
      var before := SkipCfws(s[n..]);
      if before.Parsed? {
        Drop(s, n, before.size);
        if Starts(s[n + before.size..], AT) { Drop(s, n, before.size + 1); }
      }
    }
  }

  /** The closing bracket, behind CFWS. */
  function Close(s: Text): (r: Parsed<()>)
    ensures r.Parsed? ==> 0 < r.size <= |s|
  {
    var before := SkipCfws(s);
    if before.Failed? then Failed(before.kind)
    else if !Starts(s[before.size..], GREATER) then Failed(InvalidAddress)
    else Parsed((), before.size + 1)
  }

  lemma AngleAddrCases(env: Platform, s: Text)
    ensures var open := Mark(s, LESS, InvalidAddress);
      && (open.Failed? ==> AngleAddr(env, s) == Failed(open.kind))
      && (open.Parsed? ==>
            var shape := AddrSpec(s[open.size..]);
            && (shape.Failed? ==> AngleAddr(env, s) == Failed(shape.kind))
            && (shape.Parsed? ==>
                  var n := open.size + shape.size;
                  var close := Close(s[n..]);
                  var mailbox := ToMailbox(env, shape.value);
                  AngleAddr(env, s) == if close.Failed? then Failed(close.kind)
                                       else if mailbox.Err? then Failed(mailbox.error)
                                       else Parsed(mailbox.value, n + close.size)))
  {
    hide SkipCfws, AddrSpec, ToMailbox;
    var open := Mark(s, LESS, InvalidAddress);
    if open.Parsed? && AddrSpec(s[open.size..]).Parsed? {
      var n := open.size + AddrSpec(s[open.size..]).size;
      var before := SkipCfws(s[n..]);
      if before.Parsed? { Drop(s, n, before.size); }
    }
  }

  /** The colon of a group and the commas behind it: how many there are. */
  function GroupStart(s: Text): (r: Parsed<nat>)
    requires Starts(s, COLON)
    ensures r.Parsed? ==> 0 < r.size <= |s|
  {
    var cfws := SkipCfws(s[1..]);
    if cfws.Failed? then Failed(cfws.kind) else Longer(1 + cfws.size, SkipCommas(s[1 + cfws.size..]))
  }

  lemma GroupCases(env: Platform, s: Text)
    requires Starts(s, COLON)
    ensures var start := GroupStart(s);
      && (start.Failed? ==> ParseGroup(env, s) == Failed(start.kind))
      && (start.Parsed? ==>
            var n := start.size;
            ParseGroup(env, s)
              == if Starts(s[n..], SEMICOLON) then Parsed([], n + 1)
                 else if start.value > 0 then Failed(InvalidAddress)
                 else Longer(n, GroupMembers(env, s[n..])))
  {
    hide SkipCfws, SkipCommas, GroupMembers;
  }

  class AddressParser {
    const env: Platform
    const chars: Text
    var pos: nat

    /** The cursor is inside the input, or at its end. */
    predicate Valid()
      reads this
    {
      pos <= |chars|
    }

    function Rest(): Text
      requires Valid()
      reads this
    {
      chars[pos..]
    }

    /** The outcome the grammar promises for the text at `from`: the error, or the value and the new cursor. */
    predicate Did<T(==)>(r: Result<T, Kind>, from: nat, spec: Parsed<T>)
      reads this
    {
      match spec
      case Failed(k) => r == Err(k)
      case Parsed(v, size) => r == Ok(v) && pos == from + size
    }

    constructor (env: Platform, source: Text)
      ensures Valid() && pos == 0 && chars == source && this.env == env
    {
      this.env := env;
      chars := source;
      pos := 0;
    }

    predicate PeekIs(c: CodePoint)
      requires Valid()
      reads this
      ensures PeekIs(c) <==> Starts(Rest(), c)
    {
      pos < |chars| && chars[pos] == c
    }

    /** `consumeFoldedWhitespace` */
    method ConsumeFoldedWhitespace() returns (r: Result<(), Kind>)
      requires Valid() && Rest() != [] && IsBreak(Rest()[0])
      modifies this`pos
      ensures Valid() && Did(r, old(pos), Folded(old(Rest())))
    {
      if chars[pos] == CR {
        if pos + 1 >= |chars| || chars[pos + 1] != LF { return Err(InvalidLineEnding); }
        if pos + 2 >= |chars| || !IsWhite(chars[pos + 2]) { return Err(InvalidLineEnding); }
        pos := pos + 3;
      } else {
        return Err(InvalidLineEnding);
      }
      ghost var start := pos;
      Drop(chars, pos - 3, 3);
      while pos < |chars| && IsWhite(chars[pos])
        invariant Valid() && start <= pos
        invariant Blanks(chars[start..]) == pos - start + Blanks(Rest())
      {
        Drop(chars, pos, 1);
        pos := pos + 1;
      }
      return Ok(());
    }

    /** `skipFws` */
    method SkipFwsLoop() returns (r: Result<bool, Kind>)
      requires Valid()
      modifies this`pos
      ensures Valid() && Did(r, old(pos), SkipFws(old(Rest())))
    {
      hide SkipFws, Folded;
      var skipped := false;
      while true
        invariant Valid() && old(pos) <= pos
        invariant SkipFws(old(Rest())) == Onward(skipped, pos - old(pos), SkipFws(Rest()))
        decreases |chars| - pos
      {
        ghost var from := pos;
        SkipFwsCases(Rest());
        if pos < |chars| && IsWhite(chars[pos]) {
          Drop(chars, pos, 1);
          OnwardTwice(skipped, pos - old(pos), 1, SkipFws(chars[pos + 1..]));
          pos := pos + 1;
          skipped := true;
          continue;
        }
        if pos < |chars| && IsBreak(chars[pos]) {
          var fold := ConsumeFoldedWhitespace();
          if fold.Err? { return Err(fold.error); }
          Drop(chars, from, pos - from);
          OnwardTwice(skipped, from - old(pos), pos - from, SkipFws(Rest()));
          skipped := true;
          continue;
        }
        return Ok(skipped);
      }
    }

    /** The body of the loop in `consumeComment`. */
    method ConsumeCommentStep(depth: nat) returns (r: Result<nat, Kind>)
      requires Valid() && depth > 0
      modifies this`pos
      ensures Valid() && Did(r, old(pos), CommentStep(old(Rest()), depth))
    {
      hide Folded;
      if pos == |chars| { return Err(InvalidHeaderValue); }
      var c := chars[pos];
      if c == OPEN_PAREN {
        pos := pos + 1;
        return Ok(depth + 1);
      }
      if c == CLOSE_PAREN {
        pos := pos + 1;
        return Ok(depth - 1);
      }
      if c == BACKSLASH {
        pos := pos + 1;
        if pos == |chars| { return Err(InvalidHeaderValue); }
        if IsBreak(chars[pos]) { return Err(InvalidLineEnding); }
        pos := pos + 1;
        return Ok(depth);
      }
      if IsBreak(c) {
        var fold := ConsumeFoldedWhitespace();
        if fold.Err? { return Err(fold.error); }
        return Ok(depth);
      }
      if IsControl(c) { return Err(InvalidHeaderValue); }
      pos := pos + 1;
      return Ok(depth);
    }

    /** `consumeComment`, with the text it skips over. */
    method ConsumeComment() returns (r: Result<(), Kind>)
      requires Valid() && Starts(Rest(), OPEN_PAREN)
      modifies this`pos
      ensures Valid() && Did(r, old(pos), Longer(1, Comment(old(Rest())[1..], 1)))
    {
      hide CommentStep, Comment, Longer;
      Drop(chars, pos, 1);
      pos := pos + 1;
      var depth: nat := 1;
      while true
        invariant Valid() && old(pos) < pos && depth > 0
        invariant Longer(1, Comment(old(Rest())[1..], 1)) == Longer(pos - old(pos), Comment(Rest(), depth))
        decreases |chars| - pos
      {
        ghost var from, n := pos, pos - old(pos);
        CommentCases(Rest(), depth);
        LongerCases(n, Comment(Rest(), depth));
        var step := ConsumeCommentStep(depth);
        if step.Err? { return Err(step.error); }
        if step.value == 0 { return Ok(()); }
        depth := step.value;
        Drop(chars, from, pos - from);
        LongerTwice(n, pos - from, Comment(Rest(), depth));
      }
    }

    method SkipRound() returns (r: Result<(bool, bool), Kind>)
      requires Valid()
      modifies this`pos
      ensures Valid() && Did(r, old(pos), Round(old(Rest())))
    {
      hide SkipFws, Comment, Longer;
      ghost var start := pos;
      var fws := SkipFwsLoop();
      if fws.Err? { return Err(fws.error); }
      Drop(chars, start, pos - start);
      if !PeekIs(OPEN_PAREN) { return Ok((fws.value, false)); }
      Drop(chars, start, pos - start + 1);
      Drop(chars, pos, 1);
      LongerCases(1, Comment(chars[pos + 1..], 1));
      var comment := ConsumeComment();
      if comment.Err? { return Err(comment.error); }
      return Ok((true, true));
    }

    /** `skipCfws` */
    method SkipCfwsLoop() returns (r: Result<bool, Kind>)
      requires Valid()
      modifies this`pos
      ensures Valid() && Did(r, old(pos), SkipCfws(old(Rest())))
    {
      hide SkipCfws, Round, Onward;
      var skipped := false;
      OnwardCases(false, 0, SkipCfws(Rest()));
      while true
        invariant Valid() && old(pos) <= pos
        invariant SkipCfws(old(Rest())) == Onward(skipped, pos - old(pos), SkipCfws(Rest()))
        decreases |chars| - pos
      {
        ghost var from, n := pos, pos - old(pos);
        RoundCases(Rest());
        OnwardCases(skipped, n, SkipCfws(Rest()));
        var round := SkipRound();
        if round.Err? { return Err(round.error); }
        if !round.value.1 { return Ok(skipped || round.value.0); }
        Drop(chars, from, pos - from);
        OnwardTwice(skipped, n, pos - from, SkipCfws(Rest()));
        skipped := true;
      }
    }

    /** `parseAtom` */
    method ParseAtom() returns (r: Result<Text, Kind>)
      requires Valid()
      modifies this`pos
      ensures Valid() && Did(r, old(pos), Atom(old(Rest())))
    {
      var start := pos;
      while pos < |chars| && IsAtomChar(chars[pos])
        invariant Valid() && start <= pos
        invariant AtomSize(chars[start..]) == pos - start + AtomSize(Rest())
      {
        Drop(chars, pos, 1);
        pos := pos + 1;
      }
      if pos == start { return Err(InvalidLocalPart); }
      assert chars[start..pos] == chars[start..][..pos - start];
      return Ok(chars[start..pos]);
    }

    /** The body of the loop in `parseQuotedString`. */
    method ParseQuotedStep() returns (r: Result<Option<CodePoint>, Kind>)
      requires Valid()
      modifies this`pos
      ensures Valid() && Did(r, old(pos), QuotedStep(old(Rest())))
    {
      hide Folded;
      if pos == |chars| { return Err(InvalidHeaderValue); }
      var c := chars[pos];
      if c == DQUOTE {
        pos := pos + 1;
        return Ok(None);
      }
      if c == BACKSLASH {
        pos := pos + 1;
        if pos == |chars| { return Err(InvalidHeaderValue); }
        if IsBreak(chars[pos]) { return Err(InvalidLineEnding); }
        pos := pos + 1;
        return Ok(Some(chars[pos - 1]));
      }
      if IsBreak(c) {
        var fold := ConsumeFoldedWhitespace();
        if fold.Err? { return Err(fold.error); }
        return Ok(Some(SPACE));
      }
      if IsControl(c) { return Err(InvalidHeaderValue); }
      pos := pos + 1;
      return Ok(Some(c));
    }

    /** `parseQuotedString` */
    method ParseQuotedString() returns (r: Result<Text, Kind>)
      requires Valid()
      modifies this`pos
      ensures Valid() && Did(r, old(pos), QuotedString(old(Rest())))
    {
      hide QuotedStep, QuotedBody, Collected, Prefixed;
      if !PeekIs(DQUOTE) { return Err(InvalidLocalPart); }
      Drop(chars, pos, 1);
      pos := pos + 1;
      ghost var start := pos;
      var value: Text := [];
      CollectedLonger([], 0, 0, QuotedBody(Rest()));
      while true
        invariant Valid() && start <= pos
        invariant QuotedBody(chars[start..]) == Collected(value, pos - start, QuotedBody(Rest()))
        decreases |chars| - pos
      {
        ghost var from, n := pos, pos - start;
        QuotedCases(Rest());
        CollectedCases(value, n, QuotedBody(Rest()));
        var step := ParseQuotedStep();
        if step.Err? { return Err(step.error); }
        if step.value.None? { return Ok(value); }
        Drop(chars, from, pos - from);
        CollectedOne(value, n, step.value.value, pos - from, QuotedBody(Rest()));
        value := value + [step.value.value];
      }
    }

    /** The body of the loop in `parseDomainLiteral`. */
    method ParseLiteralStep() returns (r: Result<LiteralPiece, Kind>)
      requires Valid()
      modifies this`pos
      ensures Valid() && Did(r, old(pos), LiteralStep(old(Rest())))
    {
      hide SkipFws;
      if pos == |chars| { return Err(InvalidDomainLiteral); }
      var c := chars[pos];
      if c == CLOSE_BRACKET {
        pos := pos + 1;
        return Ok(Bracket);
      }
      if c == BACKSLASH {
        pos := pos + 1;
        if pos == |chars| { return Err(InvalidDomainLiteral); }
        if IsBreak(chars[pos]) { return Err(InvalidDomainLiteral); }
        pos := pos + 1;
        return Ok(Char(chars[pos - 1]));
      }
      if IsWhite(c) || IsBreak(c) {
        var fws := SkipFwsLoop();
        if fws.Err? { return Err(fws.error); }
        return Ok(Skipped);
      }
      if c < 0x21 || c > 0x7e || c == OPEN_BRACKET { return Err(InvalidDomainLiteral); }
      pos := pos + 1;
      return Ok(Char(c));
    }

    /** `parseDomainLiteral` */
    method ParseDomainLiteral() returns (r: Result<Text, Kind>)
      requires Valid() && Starts(Rest(), OPEN_BRACKET)
      modifies this`pos
      ensures Valid() && Did(r, old(pos), Longer(1, LiteralBody(old(Rest())[1..])))
    {
      hide LiteralStep, LiteralBody, Collected, Prefixed;
      Drop(chars, pos, 1);
      pos := pos + 1;
      ghost var start := pos;
      var value: Text := [];
      CollectedLonger([], 0, 0, LiteralBody(Rest()));
      while true
        invariant Valid() && start <= pos
        invariant LiteralBody(chars[start..]) == Collected(value, pos - start, LiteralBody(Rest()))
        decreases |chars| - pos
      {
        ghost var from, n := pos, pos - start;
        LiteralCases(Rest());
        CollectedCases(value, n, LiteralBody(Rest()));
        var step := ParseLiteralStep();
        if step.Err? { return Err(step.error); }
        Drop(chars, from, pos - from);
        match step.value {
          case Bracket =>
            return Ok(value);
          case Skipped =>
            CollectedLonger(value, n, pos - from, LiteralBody(Rest()));
          case Char(c) =>
            CollectedOne(value, n, c, pos - from, LiteralBody(Rest()));
            value := value + [c];
        }
      }
    }

    /** The look for a dot behind a segment: past it and its CFWS, or back where it started. */
    method PassDot() returns (r: Result<bool, Kind>)
      requires Valid()
      modifies this`pos
      ensures Valid() && Did(r, old(pos), DotBehind(old(Rest())))
    {
      hide SkipCfws, DotBehind;
      DotBehindCases(Rest());
      var save := pos;
      var before := SkipCfwsLoop();
      if before.Err? { return Err(before.error); }
      Drop(chars, save, pos - save);
      if !PeekIs(DOT) {
        pos := save;
        return Ok(false);
      }
      pos := pos + 1;
      Drop(chars, save, pos - save);
      var after := SkipCfwsLoop();
      if after.Err? { return Err(after.error); }
      return Ok(true);
    }

    method ParseSegment() returns (r: Result<Text, Kind>)
      requires Valid()
      modifies this`pos
      ensures Valid() && Did(r, old(pos), LocalSegment(old(Rest())))
    {
      hide QuotedString, Atom;
      if pos == |chars| || chars[pos] in {AT, LESS, GREATER, COMMA} { return Err(InvalidLocalPart); }
      if chars[pos] == DQUOTE { r := ParseQuotedString(); } else { r := ParseAtom(); }
    }

    /** `parseLocalPart` */
    method ParseLocalPart() returns (r: Result<Text, Kind>)
      requires Valid()
      modifies this`pos
      ensures Valid() && Did(r, old(pos), LocalPart(old(Rest())))
    {
      hide LocalSegment, LocalPart, DotBehind, Collected, Dotted, DotJoined, JoinWith;
      var segments: seq<Text> := [];
      DottedNothing();
      CollectedLonger([], 0, 0, LocalPart(Rest()));
      while true
        invariant Valid() && old(pos) <= pos
        invariant LocalPart(old(Rest())) == Collected(Dotted(segments), pos - old(pos), LocalPart(Rest()))
        decreases |chars| - pos
      {
        ghost var from, n := pos, pos - old(pos);
        LocalPartCases(Rest());
        var segment := ParseSegment();
        CollectedFailed(Dotted(segments), n, LocalPart(chars[from..]));
        if segment.Err? { return Err(segment.error); }
        Drop(chars, from, pos - from);
        ghost var size := pos - from;
        var dot := PassDot();
        if dot.Err? { return Err(dot.error); }
        if !dot.value {
          CollectedDone(Dotted(segments), n, segment.value, size);
          JoinedIsDotted(segments, segment.value);
          return Ok(JoinWith(segments + [segment.value], DOT));
        }
        Drop(chars, from, pos - from);
        CollectedSegment(segments, n, segment.value, pos - from, LocalPart(Rest()));
        segments := segments + [segment.value];
      }
    }

    /** The labels of `parseDomain`. */
    method ParseDomainName() returns (r: Result<Text, Kind>)
      requires Valid()
      modifies this`pos
      ensures Valid() && Did(r, old(pos), DomainName(old(Rest())))
    {
      hide Label, DomainName, DotBehind, Collected, Dotted, DotJoined, JoinWith;
      var labels: seq<Text> := [];
      DottedNothing();
      CollectedLonger([], 0, 0, DomainName(Rest()));
      while true
        invariant Valid() && old(pos) <= pos
        invariant DomainName(old(Rest())) == Collected(Dotted(labels), pos - old(pos), DomainName(Rest()))
        decreases |chars| - pos
      {
        ghost var from, n := pos, pos - old(pos);
        DomainNameCases(Rest());
        var first := ParseLabel();
        CollectedFailed(Dotted(labels), n, DomainName(chars[from..]));
        if first.Err? { return Err(first.error); }
        Drop(chars, from, pos - from);
        ghost var size := pos - from;
        var dot := PassDot();
        if dot.Err? { return Err(dot.error); }
        if !dot.value {
          CollectedDone(Dotted(labels), n, first.value, size);
          JoinedIsDotted(labels, first.value);
          return Ok(JoinWith(labels + [first.value], DOT));
        }
        Drop(chars, from, pos - from);
        CollectedSegment(labels, n, first.value, pos - from, DomainName(Rest()));
        labels := labels + [first.value];
      }
    }

    method ParseLabel() returns (r: Result<Text, Kind>)
      requires Valid()
      modifies this`pos
      ensures Valid() && Did(r, old(pos), Label(old(Rest())))
    {
      if pos == |chars| || !IsAtomChar(chars[pos]) {
        var isEmpty := pos == |chars| || chars[pos] == GREATER || chars[pos] == COMMA;
        return Err(if isEmpty then DomainEmpty else InvalidDomain);
      }
      r := ParseAtom();
    }

    /** `parseDomain` */
    method ParseDomain() returns (r: Result<DomainText, Kind>)
      requires Valid()
      modifies this`pos
      ensures Valid() && Did(r, old(pos), DomainPart(old(Rest())))
    {
      hide LiteralBody, DomainName;
      var text: Result<Text, Kind>;
      var literal := PeekIs(OPEN_BRACKET);
      if literal { text := ParseDomainLiteral(); } else { text := ParseDomainName(); }
      if text.Err? { return Err(text.error); }
      return Ok(DomainText(text.value, literal));
    }

    /** `skipCfws`, `expect`, `skipCfws` */
    method PassMark(c: CodePoint, kind: Kind) returns (r: Result<(), Kind>)
      requires Valid()
      modifies this`pos
      ensures Valid() && Did(r, old(pos), Mark(old(Rest()), c, kind))
    {
      hide SkipCfws;
      ghost var start := pos;
      var before := SkipCfwsLoop();
      if before.Err? { return Err(before.error); }
      Drop(chars, start, pos - start);
      if !PeekIs(c) { return Err(kind); }
      pos := pos + 1;
      Drop(chars, start, pos - start);
      var after := SkipCfwsLoop();
      if after.Err? { return Err(after.error); }
      return Ok(());
    }

    method PassClose() returns (r: Result<(), Kind>)
      requires Valid()
      modifies this`pos
      ensures Valid() && Did(r, old(pos), Close(old(Rest())))
    {
      hide SkipCfws;
      ghost var start := pos;
      var before := SkipCfwsLoop();
      if before.Err? { return Err(before.error); }
      Drop(chars, start, pos - start);
      if !PeekIs(GREATER) { return Err(InvalidAddress); }
      pos := pos + 1;
      return Ok(());
    }

    /** `parseAddrSpecShape` */
    method ParseAddrSpecShape() returns (r: Result<Shape, Kind>)
      requires Valid()
      modifies this`pos
      ensures Valid() && Did(r, old(pos), AddrSpec(old(Rest())))
    {
      hide LocalPart, DomainPart, Mark, AddrSpec;
      ghost var start := pos;
      AddrSpecCases(Rest());
      var local := ParseLocalPart();
      if local.Err? { return Err(local.error); }
      Drop(chars, start, pos - start);
      var at := PassMark(AT, MissingAt);
      if at.Err? { return Err(at.error); }
      Drop(chars, start, pos - start);
      var domain := ParseDomain();
      if domain.Err? { return Err(domain.error); }
      return Ok(Shape(local.value, domain.value));
    }

    /** `tryAddrSpec`: the two failures that mean "no addr-spec after all" rewind the cursor. */
    method TryAddrSpec() returns (r: Result<Option<Shape>, Kind>)
      requires Valid()
      modifies this`pos
      ensures Valid()
      ensures var spec := AddrSpec(old(Rest()));
        match spec
        case Parsed(shape, size) => r == Ok(Some(shape)) && pos == old(pos) + size
        case Failed(k) =>
          if k == MissingAt || k == InvalidLocalPart then r == Ok(None) && pos == old(pos) else r == Err(k)
    {
      hide AddrSpec;
      var save := pos;
      var shape := ParseAddrSpecShape();
      if shape.Ok? { return Ok(Some(shape.value)); }
      if shape.error == MissingAt || shape.error == InvalidLocalPart {
        pos := save;
        return Ok(None);
      }
      return Err(shape.error);
    }

    /** `parseAngleAddr` */
    method ParseAngleAddr() returns (r: Result<Mailbox, Kind>)
      requires Valid()
      modifies this`pos
      ensures Valid() && Did(r, old(pos), AngleAddr(env, old(Rest())))
    {
      hide AddrSpec, Mark, Close, ToMailbox, AngleAddr;
      ghost var start := pos;
      AngleAddrCases(env, Rest());
      var open := PassMark(LESS, InvalidAddress);
      if open.Err? { return Err(open.error); }
      Drop(chars, start, pos - start);
      var shape := ParseAddrSpecShape();
      if shape.Err? { return Err(shape.error); }
      Drop(chars, start, pos - start);
      var close := PassClose();
      if close.Err? { return Err(close.error); }
      return ToMailbox(env, shape.value);
    }

    /** One word of a phrase. */
    method ParsePhraseWord(output: Text) returns (r: Result<Text, Kind>)
      requires Valid() && Rest() != []
      modifies this`pos
      ensures Valid() && Did(r, old(pos), PhraseWord(old(Rest()), output))
    {
      hide QuotedString, Atom;
      if chars[pos] == DOT {
        if output == [] { return Err(InvalidAddress); }
        pos := pos + 1;
        return Ok([DOT]);
      }
      if chars[pos] == DQUOTE { r := ParseQuotedString(); } else { r := ParseAtom(); }
    }

    /** The body of the loop in `parsePhrase`. */
    method ParsePhraseRound(collected: Text, pending: bool) returns (r: Result<Option<Text>, Kind>)
      requires Valid()
      modifies this`pos
      ensures Valid() && Did(r, old(pos), PhraseRound(old(Rest()), collected, pending))
    {
      hide SkipCfws, PhraseWord;
      ghost var start := pos;
      var output: Text := collected;
      var pendingSpace := pending;
      var cfws := SkipCfwsLoop();
      if cfws.Err? { return Err(cfws.error); }
      if cfws.value { pendingSpace := true; }
      Drop(chars, start, pos - start);
      if pos == |chars| || chars[pos] in {LESS, COLON, AT, COMMA} { return Ok(None); }
      var text := ParsePhraseWord(output);
      if text.Err? { return Err(text.error); }
      if pendingSpace && output != [] {
        output := output + [SPACE];
      } else {
        assert output + [] == output;
      }
      return Ok(Some(output + text.value));
    }

    /** `parsePhrase` */
    method ParsePhrase() returns (r: Result<Text, Kind>)
      requires Valid()
      modifies this`pos
      ensures Valid() && Did(r, old(pos), Phrase(old(Rest()), [], false))
    {
      hide PhraseRound, Phrase, Longer;
      var output: Text := [];
      LongerNothing(Phrase(Rest(), [], false));
      while true
        invariant Valid() && old(pos) <= pos
        invariant Phrase(old(Rest()), [], false) == Longer(pos - old(pos), Phrase(Rest(), output, false))
        decreases |chars| - pos
      {
        ghost var from, n := pos, pos - old(pos);
        PhraseCases(Rest(), output, false);
        LongerCases(n, Phrase(Rest(), output, false));
        var round := ParsePhraseRound(output, false);
        if round.Err? { return Err(round.error); }
        if round.value.None? { return Ok(output); }
        output := round.value.value;
        Drop(chars, from, pos - from);
        LongerTwice(n, pos - from, Phrase(Rest(), output, false));
      }
    }

    /** `finalizeDisplayName`: a name that is kept is not empty and holds no control character. */
    method FinalizeName(raw: Text) returns (r: Result<Option<Text>, Kind>)
      ensures r == FinalizeDisplayName(env, raw)
      ensures r.Ok? && r.value.Some? ==> r.value.value != [] && !Forbidden(r.value.value)
      ensures raw != [] ==> (r == Err(UnsupportedCharset) <==> Shown(env, raw).None?)
    {
      hide Forbidden, Merge, EncodedWord.Decode;
      if raw == [] { return Ok(None); }
      var decoded := EncodedWord.DecodeHeaderWords(env.charsets, Merge(raw));
      if decoded.None? { return Err(UnsupportedCharset); }
      var name := Merge(decoded.value);
      if Forbidden(name) { return Err(InvalidHeaderValue); }
      return Ok(if name == [] then None else Some(name));
    }

    /** The part of `parseEntity` that reads a bare address, or goes back. */
    method ParseBareAddress() returns (r: Result<Option<Mailbox>, Kind>)
      requires Valid()
      modifies this`pos
      ensures Valid() && Did(r, old(pos), BareAddress(env, old(Rest())))
    {
      hide AddrSpec, SkipCfws, ToMailbox;
      var start := pos;
      var shape := TryAddrSpec();
      if shape.Err? { return Err(shape.error); }
      if shape.value.None? { return Ok(None); }
      Drop(chars, start, pos - start);
      var after := SkipCfwsLoop();
      if after.Err? { return Err(after.error); }
      Drop(chars, start, pos - start);
      if pos < |chars| && chars[pos] != COMMA && chars[pos] != SEMICOLON {
        pos := start;
        return Ok(None);
      }
      var mailbox := ToMailbox(env, shape.value.value);
      if mailbox.Err? { return Err(mailbox.error); }
      return Ok(Some(mailbox.value));
    }

    /** The part of `parseEntity` behind the phrase. */
    method ParseNamedEntity() returns (r: Result<Entity, Kind>)
      requires Valid()
      modifies this`pos
      ensures Valid() && Did(r, old(pos), NamedEntity(env, old(Rest())))
    {
      hide Phrase, SkipCfws, AngleAddr, FinalizeDisplayName;
      ghost var start := pos;
      var phrase := ParsePhrase();
      if phrase.Err? { return Err(phrase.error); }
      Drop(chars, start, pos - start);
      var after := SkipCfwsLoop();
      if after.Err? { return Err(after.error); }
      Drop(chars, start, pos - start);
      if PeekIs(COLON) { return Ok(GroupColon); }
      if !PeekIs(LESS) { return Err(InvalidAddress); }
      var mailbox := ParseAngleAddr();
      if mailbox.Err? { return Err(mailbox.error); }
      var name := FinalizeName(phrase.value);
      if name.Err? { return Err(name.error); }
      return Ok(One(mailbox.value.(displayName := name.value)));
    }

    /** `parseEntity`, up to the colon of a group. */
    method ParseOneEntity() returns (r: Result<Entity, Kind>)
      requires Valid()
      modifies this`pos
      ensures Valid() && Did(r, old(pos), ParseEntity(env, old(Rest())))
    {
      hide SkipCfws, AngleAddr, BareAddress, NamedEntity;
      var start := pos;
      var cfws := SkipCfwsLoop();
      if cfws.Err? { return Err(cfws.error); }
      Drop(chars, start, pos - start);
      if PeekIs(LESS) {
        var angle := ParseAngleAddr();
        if angle.Err? { return Err(angle.error); }
        return Ok(One(angle.value));
      }
      if PeekIs(AT) { return Err(LocalPartEmpty); }
      var bare := ParseBareAddress();
      if bare.Err? { return Err(bare.error); }
      if bare.value.Some? { return Ok(One(bare.value.value)); }
      r := ParseNamedEntity();
    }

    /** `parseEntity` where no group may stand. */
    method ParseOneMailbox() returns (r: Result<Mailbox, Kind>)
      requires Valid()
      modifies this`pos
      ensures Valid() && Did(r, old(pos), ParseMailbox(env, old(Rest())))
    {
      hide ParseEntity;
      var entity := ParseOneEntity();
      if entity.Err? { return Err(entity.error); }
      match entity.value {
        case GroupColon => return Err(InvalidAddress);
        case One(m) => return Ok(m);
      }
    }

    /** `parse` */
    method Parse() returns (r: Result<Mailbox, Kind>)
      requires Valid() && pos == 0
      modifies this`pos
      ensures Valid() && r == Address.Parse(env, chars)
    {
      hide SkipCfws, ParseMailbox;
      assert Rest() == chars;
      var mailbox := ParseOneMailbox();
      if mailbox.Err? { return Err(mailbox.error); }
      var after := SkipCfwsLoop();
      if after.Err? { return Err(after.error); }
      if pos < |chars| { return Err(InvalidAddress); }
      return Ok(mailbox.value);
    }

    /** A comma and the CFWS behind it. */
    method PassComma() returns (r: Result<bool, Kind>)
      requires Valid() && Starts(Rest(), COMMA)
      modifies this`pos
      ensures Valid() && Did(r, old(pos), Longer(1, SkipCfws(old(Rest())[1..])))
    {
      hide SkipCfws;
      Drop(chars, pos, 1);
      pos := pos + 1;
      r := SkipCfwsLoop();
    }

    /** Commas with CFWS behind each, counted. */
    method PassCommas() returns (r: Result<nat, Kind>)
      requires Valid()
      modifies this`pos
      ensures Valid() && Did(r, old(pos), SkipCommas(old(Rest())))
    {
      hide SkipCfws, SkipCommas, CountedOn, Longer, Starts;
      var commas: nat := 0;
      CountedNothing(SkipCommas(Rest()));
      while PeekIs(COMMA)
        invariant Valid() && old(pos) <= pos
        invariant SkipCommas(old(Rest())) == CountedOn(commas, pos - old(pos), SkipCommas(Rest()))
        decreases |chars| - pos
      {
        ghost var from, n := pos, pos - old(pos);
        SkipCommasCases(Rest());
        CountedCases(commas, n, SkipCommas(Rest()));
        var cfws := PassComma();
        if cfws.Err? { return Err(cfws.error); }
        Drop(chars, from, pos - from);
        CountedTwice(commas, n, pos - from, SkipCommas(Rest()));
        commas := commas + 1;
      }
      SkipCommasCases(Rest());
      CountedCases(commas, pos - old(pos), SkipCommas(Rest()));
      return Ok(commas);
    }

    method PassSeparator(inGroup: bool) returns (r: Result<(), Kind>)
      requires Valid()
      modifies this`pos
      ensures Valid() && Did(r, old(pos), Separator(old(Rest()), inGroup))
    {
      hide SkipCfws;
      ghost var start := pos;
      if !PeekIs(COMMA) { return Err(InvalidAddress); }
      pos := pos + 1;
      Drop(chars, start, 1);
      var behind := SkipCfwsLoop();
      if behind.Err? { return Err(behind.error); }
      Drop(chars, start, pos - start);
      if pos == |chars| || PeekIs(COMMA) || (inGroup && PeekIs(SEMICOLON)) { return Err(InvalidAddress); }
      return Ok(());
    }

    /** One member of a group and what separates it from the next. */
    method ParseMember() returns (r: Result<(Mailbox, bool), Kind>)
      requires Valid()
      modifies this`pos
      ensures Valid() && Did(r, old(pos), Member(env, old(Rest())))
    {
      hide SkipCfws, ParseMailbox, Separator;
      ghost var start := pos;
      var mailbox := ParseOneMailbox();
      if mailbox.Err? { return Err(mailbox.error); }
      Drop(chars, start, pos - start);
      var after := SkipCfwsLoop();
      if after.Err? { return Err(after.error); }
      Drop(chars, start, pos - start);
      if PeekIs(SEMICOLON) {
        pos := pos + 1;
        return Ok((mailbox.value, false));
      }
      var comma := PassSeparator(true);
      if comma.Err? { return Err(comma.error); }
      return Ok((mailbox.value, true));
    }

    /** The loop of `parseGroup`. */
    method ParseMembers() returns (r: Result<seq<Mailbox>, Kind>)
      requires Valid()
      modifies this`pos
      ensures Valid() && Did(r, old(pos), GroupMembers(env, old(Rest())))
    {
      hide Member, GroupMembers, Counted;
      var members: seq<Mailbox> := [];
      CountedMembersNothing(GroupMembers(env, Rest()));
      while true
        invariant Valid() && old(pos) <= pos
        invariant GroupMembers(env, old(Rest())) == Counted(pos - old(pos), members, GroupMembers(env, Rest()))
        decreases |chars| - pos
      {
        ghost var from, n := pos, pos - old(pos);
        MembersCases(env, Rest());
        CountedMembersCases(n, members, GroupMembers(env, Rest()));
        var r1 := ParseMember();
        if r1.Err? { return Err(r1.error); }
        members := members + [r1.value.0];
        if !r1.value.1 { return Ok(members); }
        Drop(chars, from, pos - from);
        CountedMembersTwice(n, members, r1.value.0, pos - from, GroupMembers(env, Rest()));
      }
    }

    /** The colon of a group, and the commas that may follow it. */
    method PassGroupStart() returns (r: Result<nat, Kind>)
      requires Valid() && Starts(Rest(), COLON)
      modifies this`pos
      ensures Valid() && Did(r, old(pos), GroupStart(old(Rest())))
    {
      hide SkipCfws, SkipCommas;
      ghost var start := pos;
      pos := pos + 1;
      Drop(chars, start, 1);
      var cfws := SkipCfwsLoop();
      if cfws.Err? { return Err(cfws.error); }
      Drop(chars, start, pos - start);
      r := PassCommas();
    }

    /** `parseGroup`, from the colon on. */
    method ParseGroupBody() returns (r: Result<seq<Mailbox>, Kind>)
      requires Valid() && Starts(Rest(), COLON)
      modifies this`pos
      ensures Valid() && Did(r, old(pos), ParseGroup(env, old(Rest())))
    {
      hide GroupStart, ParseGroup, GroupMembers;
      ghost var start := pos;
      GroupCases(env, Rest());
      var commas := PassGroupStart();
      if commas.Err? { return Err(commas.error); }
      Drop(chars, start, pos - start);
      if PeekIs(SEMICOLON) {
        pos := pos + 1;
        return Ok([]);
      }
      if commas.value > 0 { return Err(InvalidAddress); }
      r := ParseMembers();
    }

    /** `parseEntity` where a group may stand. */
    method ParseOneEntry() returns (r: Result<seq<Mailbox>, Kind>)
      requires Valid()
      modifies this`pos
      ensures Valid() && Did(r, old(pos), ParseEntry(env, old(Rest())))
    {
      hide ParseEntity, ParseGroup;
      ghost var start := pos;
      var entity := ParseOneEntity();
      if entity.Err? { return Err(entity.error); }
      Drop(chars, start, pos - start);
      match entity.value {
        case One(m) => return Ok([m]);
        case GroupColon => r := ParseGroupBody();
      }
    }

    /** One entry of a list and the comma behind it, if there is one. */
    method ParseListEntry() returns (r: Result<(seq<Mailbox>, bool), Kind>)
      requires Valid()
      modifies this`pos
      ensures Valid() && Did(r, old(pos), ListEntry(env, old(Rest())))
    {
      hide ParseEntry, SkipCfws, Separator;
      ghost var start := pos;
      var entry := ParseOneEntry();
      if entry.Err? { return Err(entry.error); }
      Drop(chars, start, pos - start);
      var after := SkipCfwsLoop();
      if after.Err? { return Err(after.error); }
      Drop(chars, start, pos - start);
      if pos == |chars| { return Ok((entry.value, false)); }
      var comma := PassSeparator(false);
      if comma.Err? { return Err(comma.error); }
      return Ok((entry.value, true));
    }

    /** `parseList` */
    method ParseAddressList() returns (r: Result<seq<Mailbox>, Kind>)
      requires Valid() && pos == 0
      modifies this`pos
      ensures Valid() && r == ParseList(env, chars)
    {
      hide SkipCfws, SkipCommas, ParseEntries, ListEntry, AppendedTo;
      assert Rest() == chars;
      var cfws := SkipCfwsLoop();
      if cfws.Err? { return Err(cfws.error); }
      ghost var from := pos;
      var commas := PassCommas();
      if commas.Err? { return Err(commas.error); }
      Drop(chars, from, pos - from);
      if pos == |chars| { return if commas.value > 0 then Err(InvalidAddress) else Ok([]); }
      ghost var all := ParseEntries(env, Rest());
      var mailboxes: seq<Mailbox> := [];
      AppendedNothing(all);
      while true
        invariant Valid() && all == AppendedTo(mailboxes, ParseEntries(env, Rest()))
        decreases |chars| - pos
      {
        from := pos;
        EntriesCases(env, Rest());
        AppendedCases(mailboxes, ParseEntries(env, Rest()));
        var entry := ParseListEntry();
        if entry.Err? { return Err(entry.error); }
        if !entry.value.1 { return Ok(mailboxes + entry.value.0); }
        Drop(chars, from, pos - from);
        AppendedTwice(mailboxes, entry.value.0, ParseEntries(env, Rest()));
        mailboxes := mailboxes + entry.value.0;
      }
    }
  }

  function CountedOn(commas: nat, n: nat, r: Parsed<nat>): Parsed<nat> {
    match r
    case Failed(k) => Failed(k)
    case Parsed(v, size) => Parsed(commas + v, n + size)
  }

  lemma CountedNothing(r: Parsed<nat>)
    ensures CountedOn(0, 0, r) == r
  {
  }

  lemma CountedCases(commas: nat, n: nat, r: Parsed<nat>)
    ensures r.Failed? ==> CountedOn(commas, n, r) == Failed(r.kind)
    ensures r.Parsed? ==> CountedOn(commas, n, r) == Parsed(commas + r.value, n + r.size)
  {
  }

  lemma CountedTwice(commas: nat, n: nat, m: nat, r: Parsed<nat>)
    ensures CountedOn(commas, n, CountedOn(1, m, r)) == CountedOn(commas + 1, n + m, r)
  {
  }

  lemma SkipCommasCases(s: Text)
    ensures !Starts(s, COMMA) ==> SkipCommas(s) == Parsed(0, 0)
    ensures Starts(s, COMMA) ==>
      var cfws := Longer(1, SkipCfws(s[1..]));
      && (cfws.Parsed? ==> 0 < cfws.size <= |s|)
      && SkipCommas(s) == if cfws.Failed? then Failed(cfws.kind)
                          else CountedOn(1, cfws.size, SkipCommas(s[cfws.size..]))
  {
    hide SkipCfws;
  }

  lemma CountedMembersNothing(r: Parsed<seq<Mailbox>>)
    ensures Counted(0, [], r) == r
  {
    if r.Parsed? { assert [] + r.value == r.value; }
  }

  lemma CountedMembersCases(n: nat, first: seq<Mailbox>, r: Parsed<seq<Mailbox>>)
    ensures r.Failed? ==> Counted(n, first, r) == Failed(r.kind)
    ensures r.Parsed? ==> Counted(n, first, r) == Parsed(first + r.value, n + r.size)
  {
  }

  lemma CountedMembersTwice(n: nat, members: seq<Mailbox>, last: Mailbox, m: nat, r: Parsed<seq<Mailbox>>)
    requires members != [] && members[|members| - 1] == last
    ensures Counted(n, members[..|members| - 1], Counted(m, [last], r)) == Counted(n + m, members, r)
  {
    if r.Parsed? {
      var front := members[..|members| - 1];
      assert front + [last] == members;
      assert front + ([last] + r.value) == members + r.value;
    }
  }

  lemma MembersCases(env: Platform, s: Text)
    ensures var member := Member(env, s);
      GroupMembers(env, s)
        == if member.Failed? then Failed(member.kind)
           else if member.value.1 then Counted(member.size, [member.value.0], GroupMembers(env, s[member.size..]))
           else Parsed([member.value.0], member.size)
  {
    hide Member, Counted;
  }

  lemma EntriesCases(env: Platform, s: Text)
    ensures var entry := ListEntry(env, s);
      ParseEntries(env, s)
        == if entry.Failed? then Err(entry.kind)
           else if entry.value.1 then AppendedTo(entry.value.0, ParseEntries(env, s[entry.size..]))
           else Ok(entry.value.0)
  {
    hide ListEntry, AppendedTo;
  }

  lemma AppendedNothing(rest: Result<seq<Mailbox>, Kind>)
    ensures AppendedTo([], rest) == rest
  {
    if rest.Ok? { assert [] + rest.value == rest.value; }
  }

  lemma AppendedCases(first: seq<Mailbox>, rest: Result<seq<Mailbox>, Kind>)
    ensures rest.Err? ==> AppendedTo(first, rest) == rest
    ensures rest.Ok? ==> AppendedTo(first, rest) == Ok(first + rest.value)
  {
  }

  lemma AppendedTwice(a: seq<Mailbox>, b: seq<Mailbox>, rest: Result<seq<Mailbox>, Kind>)
    ensures AppendedTo(a, AppendedTo(b, rest)) == AppendedTo(a + b, rest)
  {
    if rest.Ok? { assert a + (b + rest.value) == a + b + rest.value; }
  }

  lemma LongerNothing<T>(r: Parsed<T>)
    ensures Longer(0, r) == r
  {
  }

  /** One round of `parsePhrase`: what is collected behind it, or nothing when the phrase ends. */
  function PhraseRound(s: Text, output: Text, pendingSpace: bool): (r: Parsed<Option<Text>>)
    ensures r.Parsed? ==> r.size <= |s| && (r.value.Some? ==> r.size > 0)
  {
    var cfws := SkipCfws(s);
    if cfws.Failed? then Failed(cfws.kind)
    else
      var rest := s[cfws.size..];
      if EndsPhrase(rest) then Parsed(None, cfws.size)
      else
        var word := PhraseWord(rest, output);
        if word.Failed? then Failed(word.kind)
        else
          var space := if (pendingSpace || cfws.value) && output != [] then [SPACE] else [];
          Parsed(Some(output + space + word.value), cfws.size + word.size)
  }

  lemma PhraseCases(s: Text, output: Text, pendingSpace: bool)
    ensures var round := PhraseRound(s, output, pendingSpace);
      Phrase(s, output, pendingSpace)
        == if round.Failed? then Failed(round.kind)
           else if round.value.None? then Parsed(output, round.size)
           else Longer(round.size, Phrase(s[round.size..], round.value.value, false))
  {
    hide SkipCfws, PhraseWord;
  }

  lemma DottedNothing()
    ensures Dotted([]) == []
  {
  }

  lemma CollectedFailed(value: Text, n: nat, r: Parsed<Text>)
    ensures r.Failed? ==> Collected(value, n, r) == Failed(r.kind)
  {
  }

  lemma CollectedDone(value: Text, n: nat, last: Text, m: nat)
    ensures Collected(value, n, Parsed(last, m)) == Parsed(value + last, n + m)
  {
  }

  lemma CollectedCases(value: Text, n: nat, r: Parsed<Text>)
    ensures r.Failed? ==> Collected(value, n, r) == Failed(r.kind)
    ensures r.Parsed? && r.value == [] ==> Collected(value, n, r) == Parsed(value, n + r.size)
  {
    assert value + [] == value;
  }
}
