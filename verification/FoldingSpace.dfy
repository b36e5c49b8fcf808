/**
 * The white space and comments between the words of an address header: the
 * parser of `src/address.ts` skips exactly what the CFWS grammar of RFC 5322
 * generates, however deep the comments are nested.
 */
module FoldingSpace {
  import opened Common
  import opened AddressErrors
  import opened AddressGrammar
  import opened AddressReading

  // -------------------------------------------------------------- comments

  /** What the inside of a comment is written from. */
  datatype Token = Open | Close | Plainly(c: CodePoint) | Pair(c: CodePoint) | Folding(blanks: Text)

  predicate AreBlanks(s: Text) { s != [] && forall c | c in s :: IsWhite(c) }

  predicate IsToken(t: Token) {
    match t
    case Open => true
    case Close => true
    case Plainly(c) => !IsControl(c) && c !in {OPEN_PAREN, CLOSE_PAREN, BACKSLASH}
    case Pair(c) => !IsBreak(c)
    case Folding(blanks) => AreBlanks(blanks)
  }

  function TokenText(t: Token): Text {
    match t
    case Open => [OPEN_PAREN]
    case Close => [CLOSE_PAREN]
    case Plainly(c) => [c]
    case Pair(c) => [BACKSLASH, c]
    case Folding(blanks) => [CR, LF] + blanks
  }

  function TokensText(ts: seq<Token>): Text { if ts == [] then [] else TokenText(ts[0]) + TokensText(ts[1..]) }

  /** The tokens close `depth` comments, with the last of them and not before. */
  predicate Closes(ts: seq<Token>, depth: nat)
    requires depth > 0
  {
    && ts != [] && IsToken(ts[0])
    && match ts[0]
       case Open => Closes(ts[1..], depth + 1)
       case Close => if depth == 1 then |ts| == 1 else Closes(ts[1..], depth - 1)
       case _ => Closes(ts[1..], depth)
  }

  lemma {:induction false} BlanksInComment(s: Text, depth: nat)
    requires depth > 0
    ensures Comment(s, depth) == Longer(Blanks(s), Comment(s[Blanks(s)..], depth))
  {
    if s != [] && IsWhite(s[0]) {
      BlanksInComment(s[1..], depth);
      assert s[1..][Blanks(s[1..])..] == s[Blanks(s)..];
      BlankInComment(s, depth);
      LongerTwice(1, Blanks(s[1..]), Comment(s[Blanks(s)..], depth));
    } else {
      assert s[0..] == s;
    }
  }

  lemma BlankInComment(s: Text, depth: nat)
    requires depth > 0 && s != [] && IsWhite(s[0])
    ensures Comment(s, depth) == Longer(1, Comment(s[1..], depth))
  {
  }

  lemma LongerTwice<T>(a: nat, b: nat, r: Parsed<T>)
    ensures Longer(a, Longer(b, r)) == Longer(a + b, r)
  {
  }

  /** Blanks in front of a text, all of which `Blanks` counts. */
  lemma {:induction false} BlanksBefore(b: Text, s: Text)
    requires forall c | c in b :: IsWhite(c)
    ensures Blanks(b + s) == |b| + Blanks(s) && (b + s)[|b| + Blanks(s)..] == s[Blanks(s)..]
  {
    if b == [] {
      assert b + s == s;
    } else {
      assert b[0] in b && forall c | c in b[1..] :: c in b;
      BlanksBefore(b[1..], s);
      assert (b + s)[1..] == b[1..] + s;
    }
  }

  lemma FoldIs(c: CodePoint, u: Text)
    requires IsWhite(c)
    ensures var t := [CR, LF, c] + u;
      Folded(t) == Parsed((), 3 + Blanks(u)) && t[3 + Blanks(u)..] == u[Blanks(u)..]
  {
    assert ([CR, LF, c] + u)[3..] == u;
  }

  /** What a fold takes: the line break and every blank behind it. */
  lemma FoldTakes(b: Text, s: Text)
    requires AreBlanks(b)
    ensures var t := [CR, LF] + b + s;
      && Folded(t) == Parsed((), 2 + |b| + Blanks(s)) && t[2 + |b| + Blanks(s)..] == s[Blanks(s)..]
  {
    hide Blanks, Folded;
    assert b[0] in b && forall c | c in b[1..] :: c in b;
    BlanksBefore(b[1..], s);
    FoldIs(b[0], b[1..] + s);
    assert [CR, LF] + b + s == [CR, LF, b[0]] + (b[1..] + s);
  }

  lemma FoldInComment(b: Text, s: Text, depth: nat)
    requires AreBlanks(b) && depth > 0
    ensures Comment([CR, LF] + b + s, depth) == Longer(2 + |b|, Comment(s, depth))
  {
    hide Blanks, Folded, AreBlanks;
    FoldTakes(b, s);
    BlanksInComment(s, depth);
    BreakInComment([CR, LF] + b + s, depth, 2 + |b| + Blanks(s));
    LongerTwice(2 + |b|, Blanks(s), Comment(s[Blanks(s)..], depth));
  }

  lemma BreakInComment(t: Text, depth: nat, n: nat)
    requires depth > 0 && t != [] && t[0] == CR && Folded(t) == Parsed((), n) && n <= |t|
    ensures Comment(t, depth) == Longer(n, Comment(t[n..], depth))
  {
    hide Folded;
  }

  lemma CommentStep(t: Token, s: Text, depth: nat)
    requires IsToken(t) && depth > 0
    ensures match t
      case Open => Comment(TokenText(t) + s, depth) == Longer(1, Comment(s, depth + 1))
      case Close => Comment(TokenText(t) + s, depth)
                 == if depth == 1 then Parsed((), 1) else Longer(1, Comment(s, depth - 1))
      case _ => Comment(TokenText(t) + s, depth) == Longer(|TokenText(t)|, Comment(s, depth))
  {
    var text := TokenText(t) + s;
    assert text[|TokenText(t)|..] == s;
    if t.Folding? { FoldInComment(t.blanks, s, depth); }
  }

  /** A comment is read to the parenthesis that closes it, however deep others are nested in it. */
  lemma {:induction false} ReadComment(ts: seq<Token>, depth: nat, tail: Text)
    requires depth > 0 && Closes(ts, depth)
    ensures Comment(TokensText(ts) + tail, depth) == Parsed((), |TokensText(ts)|)
    decreases |ts|
  {
    hide Comment, IsToken, TokenText;
    var rest := TokensText(ts[1..]) + tail;
    assert TokensText(ts) + tail == TokenText(ts[0]) + rest;
    CommentStep(ts[0], rest, depth);
    TokenSizes(ts[0]);
    match ts[0]
    case Open => ReadComment(ts[1..], depth + 1, tail);
    case Close =>
      if depth == 1 {
        assert ts[1..] == [];
      } else {
        ReadComment(ts[1..], depth - 1, tail);
      }
    case _ => ReadComment(ts[1..], depth, tail);
  }

  lemma TokenSizes(t: Token)
    ensures t.Open? || t.Close? ==> |TokenText(t)| == 1
  {
  }

  // ----------------------------------------------------------- white space

  /** One element of the white space and comments between two words. */
  datatype Piece = Blank(c: CodePoint) | Fold(blanks: Text) | Remark(tokens: seq<Token>)

  predicate IsPiece(p: Piece) {
    match p
    case Blank(c) => IsWhite(c)
    case Fold(blanks) => AreBlanks(blanks)
    case Remark(tokens) => Closes(tokens, 1)
  }

  function PieceText(p: Piece): Text {
    match p
    case Blank(c) => [c]
    case Fold(blanks) => [CR, LF] + blanks
    case Remark(tokens) => [OPEN_PAREN] + TokensText(tokens)
  }

  predicate IsGap(ps: seq<Piece>) { forall p | p in ps :: IsPiece(p) }

  function GapText(ps: seq<Piece>): Text { if ps == [] then [] else PieceText(ps[0]) + GapText(ps[1..]) }

  /** Skipping `n` more characters before whatever `r` skips. */
  function Skipping(n: nat, r: Parsed<bool>): Parsed<bool> {
    match r
    case Failed(k) => Failed(k)
    case Parsed(v, size) => Parsed(v || n > 0, n + size)
  }

  lemma SkipBlank(c: CodePoint, s: Text)
    requires IsWhite(c)
    ensures SkipFws([c] + s) == Skipping(1, SkipFws(s))
  {
    assert ([c] + s)[1..] == s;
  }

  lemma {:induction false} SkipBlanks(s: Text)
    ensures SkipFws(s) == Skipping(Blanks(s), SkipFws(s[Blanks(s)..]))
  {
    if s != [] && IsWhite(s[0]) {
      SkipBlanks(s[1..]);
      assert s[1..][Blanks(s[1..])..] == s[Blanks(s)..];
      SkipBlank(s[0], s[1..]);
      assert [s[0]] + s[1..] == s;
    } else {
      assert s[0..] == s;
    }
  }

  lemma SkipFold(b: Text, s: Text)
    requires AreBlanks(b)
    ensures SkipFws([CR, LF] + b + s) == Skipping(2 + |b|, SkipFws(s))
  {
    hide Blanks, Folded, AreBlanks, SkipFws;
    FoldTakes(b, s);
    SkipBlanks(s);
    SkipBreak([CR, LF] + b + s, 2 + |b| + Blanks(s));
  }

  lemma SkipBreak(t: Text, n: nat)
    requires t != [] && t[0] == CR && Folded(t) == Parsed((), n) && 0 < n <= |t|
    ensures SkipFws(t) == Skipping(n, SkipFws(t[n..]))
  {
    hide Folded;
  }

  /** What `SkipCfws` skips behind white space: comments, and what comes after them. */
  function Beyond(s: Text): Parsed<bool> {
    if !Starts(s, OPEN_PAREN) then Parsed(false, 0)
    else
      var comment := Comment(s[1..], 1);
      if comment.Failed? then Failed(comment.kind)
      else Skipping(1 + comment.size, SkipCfws(s[1 + comment.size..]))
  }

  lemma CfwsIs(s: Text)
    ensures var fws := SkipFws(s);
      SkipCfws(s) == if fws.Failed? then fws else Skipping(fws.size, Beyond(s[fws.size..]))
  {
    hide SkipFws, Comment;
    var fws := SkipFws(s);
    if fws.Parsed? && Starts(s[fws.size..], OPEN_PAREN) {
      assert s[fws.size..][1..] == s[fws.size + 1..];
      var comment := Comment(s[fws.size + 1..], 1);
      if comment.Parsed? { assert s[fws.size..][1 + comment.size..] == s[fws.size + 1 + comment.size..]; }
    }
  }

  /** Skipping white space first does not change what `SkipCfws` skips. */
  lemma SkipThrough(p: Text, s: Text)
    requires p != [] && SkipFws(p + s) == Skipping(|p|, SkipFws(s))
    ensures SkipCfws(p + s) == Skipping(|p|, SkipCfws(s))
  {
    hide SkipFws, SkipCfws, Beyond;
    CfwsIs(s);
    CfwsIs(p + s);
    var fws := SkipFws(s);
    if fws.Parsed? { assert (p + s)[|p| + fws.size..] == s[fws.size..]; }
  }

  lemma SkipRemark(ts: seq<Token>, s: Text)
    requires Closes(ts, 1)
    ensures SkipCfws([OPEN_PAREN] + TokensText(ts) + s) == Skipping(1 + |TokensText(ts)|, SkipCfws(s))
  {
    hide Comment, Closes, TokensText;
    ReadComment(ts, 1, s);
    var t := [OPEN_PAREN] + TokensText(ts) + s;
    assert t[0..] == t && t[1..] == TokensText(ts) + s;
    assert t[1 + |TokensText(ts)|..] == s;
    NoFwsHere(t);
  }

  lemma NoFwsHere(t: Text)
    requires t != [] && t[0] == OPEN_PAREN
    ensures SkipFws(t) == Parsed(false, 0)
  {
  }

  lemma SkipPiece(p: Piece, s: Text)
    requires IsPiece(p)
    ensures PieceText(p) != [] && SkipCfws(PieceText(p) + s) == Skipping(|PieceText(p)|, SkipCfws(s))
  {
    hide SkipFws, SkipCfws, AreBlanks, Closes, TokensText;
    match p
    case Blank(c) =>
      SkipBlank(c, s);
      SkipThrough([c], s);
    case Fold(blanks) =>
      SkipFold(blanks, s);
      SkipThrough([CR, LF] + blanks, s);
    case Remark(tokens) => SkipRemark(tokens, s);
  }

  /** Blanks, folds and nested comments, in any number and order, are skipped to their end. */
  lemma {:induction false} SkipGap(ps: seq<Piece>, s: Text)
    requires IsGap(ps) && Still(s)
    ensures SkipCfws(GapText(ps) + s) == Parsed(ps != [], |GapText(ps)|)
  {
    hide SkipCfws, IsPiece, PieceText, Still;
    NothingToSkip(s);
    if ps == [] {
      assert GapText(ps) + s == s;
    } else {
      assert ps[0] in ps && forall p | p in ps[1..] :: p in ps;
      SkipGap(ps[1..], s);
      SkipPiece(ps[0], GapText(ps[1..]) + s);
      assert GapText(ps) + s == PieceText(ps[0]) + (GapText(ps[1..]) + s);
    }
  }

  /** A gap starts with a blank, a line break or a comment. */
  lemma GapStarts(ps: seq<Piece>)
    requires IsGap(ps) && ps != []
    ensures GapText(ps) != []
    ensures var c := GapText(ps)[0]; IsWhite(c) || c == CR || c == OPEN_PAREN
  {
    assert ps[0] in ps;
  }

  /** The tokens of a comment that was read. */
  lemma {:induction false} CommentTokens(s: Text, depth: nat) returns (ts: seq<Token>)
    requires depth > 0 && Comment(s, depth).Parsed?
    ensures Closes(ts, depth) && TokensText(ts) == s[..Comment(s, depth).size]
    decreases |s|
  {
    hide TokensText;
    var t, more := FirstToken(s, depth);
    var n := |TokenText(t)|;
    assert s[..n] + s[n..] == s;
    CommentStep(t, s[n..], depth);
    if t.Close? && depth == 1 {
      ts := [t];
      OneToken(t);
    } else {
      var rest := CommentTokens(s[n..], more);
      ts := [t] + rest;
      FirstAndRest(t, rest);
      assert s[..n] + s[n..][..Comment(s[n..], more).size] == s[..n + Comment(s[n..], more).size];
    }
  }

  lemma OneToken(t: Token)
    ensures TokensText([t]) == TokenText(t)
  {
    hide TokenText;
  }

  lemma FirstAndRest(t: Token, rest: seq<Token>)
    ensures TokensText([t] + rest) == TokenText(t) + TokensText(rest) && ([t] + rest)[1..] == rest
  {
    hide TokenText;
    assert ([t] + rest)[1..] == rest;
  }

  /** The first token of a comment that was read, and how many comments are open behind it. */
  lemma FirstToken(s: Text, depth: nat) returns (t: Token, more: nat)
    requires depth > 0 && Comment(s, depth).Parsed?
    ensures IsToken(t) && |TokenText(t)| <= |s| && s[..|TokenText(t)|] == TokenText(t) && TokenText(t) != []
    ensures more == if t.Open? then depth + 1 else if t.Close? then depth - 1 else depth
  {
    hide Comment;
    CommentGoesOn(s, depth);
    more := depth;
    if s[0] == OPEN_PAREN {
      t, more := Open, depth + 1;
    } else if s[0] == CLOSE_PAREN {
      t, more := Close, depth - 1;
    } else if s[0] == BACKSLASH {
      t := Pair(s[1]);
    } else if IsBreak(s[0]) {
      t := Folding([s[2]]);
    } else {
      t := Plainly(s[0]);
    }
  }

  lemma CommentGoesOn(s: Text, depth: nat)
    requires depth > 0 && Comment(s, depth).Parsed?
    ensures s != [] && (s[0] == BACKSLASH ==> |s| >= 2 && !IsBreak(s[1]))
    ensures IsBreak(s[0]) ==> s[0] == CR && |s| >= 3 && s[1] == LF && IsWhite(s[2])
    ensures s[0] != BACKSLASH && !IsBreak(s[0]) ==> !IsControl(s[0])
  {
  }

  /** White space that was skipped, as pieces. */
  lemma {:induction false} BlankPieces(s: Text) returns (ps: seq<Piece>)
    requires SkipFws(s).Parsed?
    ensures IsGap(ps) && GapText(ps) == s[..SkipFws(s).size]
    ensures var rest := s[SkipFws(s).size..]; rest == [] || (!IsWhite(rest[0]) && !IsBreak(rest[0]))
    decreases |s|
  {
    hide GapText, SkipFws;
    FwsGoesOn(s);
    if s == [] || (!IsWhite(s[0]) && !IsBreak(s[0])) {
      NoPiece();
      ps := [];
    } else {
      var p := if IsWhite(s[0]) then Blank(s[0]) else Fold([s[2]]);
      var text := PieceText(p);
      var n := |text|;
      assert s[..n] == text;
      assert s[..n] + s[n..] == s;
      if IsWhite(s[0]) { SkipBlank(s[0], s[n..]); } else { SkipFold([s[2]], s[n..]); }
      var rest := BlankPieces(s[n..]);
      ps := [p] + rest;
      FirstPiece(p, rest);
      var k := SkipFws(s[n..]).size;
      assert s[..n] + s[n..][..k] == s[..n + k] && s[n..][k..] == s[n + k..];
    }
  }

  lemma NoPiece()
    ensures IsGap([]) && GapText([]) == []
  {
  }

  lemma FirstPiece(p: Piece, rest: seq<Piece>)
    requires IsPiece(p) && IsGap(rest)
    ensures IsGap([p] + rest) && GapText([p] + rest) == PieceText(p) + GapText(rest)
  {
    hide IsPiece, PieceText;
    assert ([p] + rest)[1..] == rest;
  }

  lemma FwsGoesOn(s: Text)
    requires SkipFws(s).Parsed?
    ensures s != [] && IsBreak(s[0]) ==> s[0] == CR && |s| >= 3 && s[1] == LF && IsWhite(s[2])
    ensures s == [] || (!IsWhite(s[0]) && !IsBreak(s[0])) ==> SkipFws(s) == Parsed(false, 0)
  {
  }

  lemma {:induction false} GapAppend(a: seq<Piece>, b: seq<Piece>)
    requires IsGap(a) && IsGap(b)
    ensures IsGap(a + b) && GapText(a + b) == GapText(a) + GapText(b)
  {
    hide IsPiece, PieceText;
    if a == [] {
      assert a + b == b;
    } else {
      assert (a + b)[1..] == a[1..] + b;
      GapAppend(a[1..], b);
    }
  }

  /** Nothing but blanks, folds and comments is skipped, and all of them are. */
  lemma {:induction false} SkippedIsGap(s: Text) returns (ps: seq<Piece>)
    requires SkipCfws(s).Parsed?
    ensures IsGap(ps) && GapText(ps) == s[..SkipCfws(s).size] && Still(s[SkipCfws(s).size..])
    decreases |s|
  {
    hide SkipFws, SkipCfws, Comment, GapText, IsPiece;
    CfwsIs(s);
    var blanks := BlankPieces(s);
    var f := SkipFws(s).size;
    var u := s[f..];
    if !Starts(u, OPEN_PAREN) {
      ps := blanks;
    } else {
      var tokens := CommentTokens(u[1..], 1);
      var p, n := Remark(tokens), 1 + Comment(u[1..], 1).size;
      assert [u[0]] + u[1..][..n - 1] == u[..n];
      var rest := SkippedIsGap(u[n..]);
      FirstRemark(tokens, rest);
      GapAppend(blanks, [p] + rest);
      ps := blanks + ([p] + rest);
      var k := SkipCfws(u[n..]).size;
      Cuts(s, f, n, k);
    }
  }

  lemma FirstRemark(tokens: seq<Token>, rest: seq<Piece>)
    requires Closes(tokens, 1) && IsGap(rest)
    ensures IsGap([Remark(tokens)] + rest)
    ensures GapText([Remark(tokens)] + rest) == [OPEN_PAREN] + TokensText(tokens) + GapText(rest)
  {
    hide Closes, TokensText;
    FirstPiece(Remark(tokens), rest);
  }

  lemma Cuts(s: Text, f: nat, n: nat, k: nat)
    requires f + n + k <= |s|
    ensures s[..f] + (s[f..][..n] + s[f..][n..][..k]) == s[..f + n + k]
    ensures s[f..][n..][k..] == s[f + n + k..]
  {
  }

  /** Skipping succeeds exactly on the texts that are a gap and something else behind it. */
  lemma CfwsIsExact(s: Text)
    ensures SkipCfws(s).Parsed? <==>
            exists ps, rest :: IsGap(ps) && Still(rest) && s == GapText(ps) + rest
  {
    hide SkipCfws, IsGap, GapText, Still;
    if SkipCfws(s).Parsed? {
      var ps := SkippedIsGap(s);
      assert s == GapText(ps) + s[SkipCfws(s).size..];
    }
    forall ps, rest | IsGap(ps) && Still(rest) && s == GapText(ps) + rest ensures SkipCfws(s).Parsed? {
      SkipGap(ps, rest);
    }
  }
}
