/** The few string operations of the platform that several components use. */
module Strings {
  import opened Common

  /** What `String.prototype.trim` removes. */
  predicate IsBlank(c: CodePoint) {
    0x09 <= c <= 0x0d || c in [0x20, 0xA0, 0x1680, 0x2028, 0x2029, 0x202F, 0x205F, 0x3000, 0xFEFF] || 0x2000 <= c <= 0x200A
  }

  function TrimStart(s: Text): Text { if s != [] && IsBlank(s[0]) then TrimStart(s[1..]) else s }

  function TrimEnd(s: Text): Text { if s != [] && IsBlank(s[|s| - 1]) then TrimEnd(s[..|s| - 1]) else s }

  function Trim(s: Text): Text { TrimEnd(TrimStart(s)) }

  /** `toLowerCase` on the Latin-1 characters a header value is read as. */
  function LowerLatin1(c: CodePoint): CodePoint {
    if IsUpper(c) || (0xC0 <= c <= 0xDE && c != 0xD7) then c + 0x20 else c
  }

  function Lower(s: Text): (r: Text)
    ensures |r| == |s|
  {
    seq(|s|, i requires 0 <= i < |s| => LowerLatin1(s[i]))
  }

  /** The index of the first `c` in `s`; `|s|` when there is none. */
  function IndexOf(s: Text, c: CodePoint): (i: nat)
    ensures i <= |s|
    ensures i < |s| ==> s[i] == c
    ensures forall k | 0 <= k < i :: s[k] != c
  {
    if s == [] || s[0] == c then 0 else 1 + IndexOf(s[1..], c)
  }

  lemma TrimNothing(s: Text)
    requires s != [] && !IsBlank(s[0]) && !IsBlank(s[|s| - 1])
    ensures Trim(s) == s && Trim([SPACE] + s) == s
  {
    assert ([SPACE] + s)[1..] == s;
  }

  lemma {:induction false} TrimKeepsFirst(v: Text)
    requires v != [] && !IsBlank(v[0])
    ensures TrimEnd(v) != [] && Trim(v) == TrimEnd(v)
    decreases |v|
  {
    if |v| > 1 { TrimKeepsFirst(v[..|v| - 1]); }
  }

  /** A separator that does not occur in `key` is found right after it. */
  lemma FirstIs(p: Text, key: Text, c: CodePoint, v: Text)
    requires p == key + [c] + v && c !in key
    ensures IndexOf(p, c) == |key| && p[..|key|] == key && p[|key| + 1..] == v
  {
    assert p[|key|] == c;
    assert forall i | 0 <= i < |key| :: p[i] == key[i];
  }

  /** The UTF-16 code units of a text, which string offsets and lengths count. */
  function Utf16(s: Text): (u: Text)
    ensures |u| >= |s|
  {
    if s == [] then []
    else
      (if s[0] < 0x10000 then [s[0]] else [0xD800 + (s[0] - 0x10000) / 0x400, 0xDC00 + (s[0] - 0x10000) % 0x400])
        + Utf16(s[1..])
  }

  /** The pieces of `s` between occurrences of `sep`. */
  function SplitOn(s: Text, sep: CodePoint): (pieces: seq<Text>)
    ensures pieces != []
    decreases |s|
  {
    var i := IndexOf(s, sep);
    if i == |s| then [s] else [s[..i]] + SplitOn(s[i + 1..], sep)
  }

  function JoinWith(pieces: seq<Text>, sep: CodePoint): Text {
    if pieces == [] then []
    else if |pieces| == 1 then pieces[0]
    else pieces[0] + [sep] + JoinWith(pieces[1..], sep)
  }

  lemma {:induction false} JoinOfSplit(s: Text, sep: CodePoint)
    ensures JoinWith(SplitOn(s, sep), sep) == s
    decreases |s|
  {
    var i := IndexOf(s, sep);
    if i == |s| {
    } else {
      JoinOfSplit(s[i + 1..], sep);
      var rest := SplitOn(s[i + 1..], sep);
      assert ([s[..i]] + rest)[1..] == rest;
      assert s == s[..i] + [sep] + s[i + 1..];
    }
  }

  lemma SplitFirst(a: Text, sep: CodePoint, rest: Text)
    requires sep !in a
    ensures SplitOn(a + [sep] + rest, sep) == [a] + SplitOn(rest, sep) && SplitOn(a, sep) == [a]
  {
    FirstIs(a + [sep] + rest, a, sep, rest);
    assert IndexOf(a, sep) == |a|;
  }

  lemma {:induction false} SplitOfJoin(pieces: seq<Text>, sep: CodePoint)
    requires pieces != [] && forall p | p in pieces :: sep !in p
    ensures SplitOn(JoinWith(pieces, sep), sep) == pieces
    decreases |pieces|
  {
    hide SplitOn;
    assert pieces[0] in pieces;
    if |pieces| == 1 {
      SplitFirst(pieces[0], sep, []);
    } else {
      assert forall p | p in pieces[1..] :: p in pieces;
      SplitOfJoin(pieces[1..], sep);
      SplitFirst(pieces[0], sep, JoinWith(pieces[1..], sep));
      assert pieces == [pieces[0]] + pieces[1..];
    }
  }

  /** No piece holds the separator, and every piece is part of the text. */
  lemma {:induction false} PiecesOf(s: Text, sep: CodePoint)
    ensures forall p | p in SplitOn(s, sep) :: sep !in p && forall c | c in p :: c in s
    decreases |s|
  {
    var i := IndexOf(s, sep);
    if i == |s| {
    } else {
      PiecesOf(s[i + 1..], sep);
    }
  }

  predicate MadeOf(s: Text, p: CodePoint -> bool) { forall c | c in s :: p(c) }

  /** Every character is the separator or part of a piece. */
  lemma {:induction false} CharsOfPieces(s: Text, sep: CodePoint, p: CodePoint -> bool)
    requires forall piece | piece in SplitOn(s, sep) :: MadeOf(piece, p)
    ensures forall c | c in s :: c == sep || p(c)
    decreases |s|
  {
    var i := IndexOf(s, sep);
    var pieces := SplitOn(s, sep);
    assert pieces[0] in pieces;
    if i == |s| {
    } else {
      assert forall piece | piece in SplitOn(s[i + 1..], sep) :: piece in pieces;
      CharsOfPieces(s[i + 1..], sep, p);
      assert s == s[..i] + [sep] + s[i + 1..];
    }
  }

  function EscapeChar(c: CodePoint): Text { if c == BACKSLASH || c == DQUOTE then [BACKSLASH, c] else [c] }

  /** Backslashes and quotes escaped by a backslash. */
  function Escape(s: Text): (r: Text)
    ensures |r| >= |s|
  {
    if s == [] then [] else EscapeChar(s[0]) + Escape(s[1..])
  }

  lemma {:induction false} EscapeKeeps(s: Text)
    ensures forall c | c in Escape(s) :: c in s || c == BACKSLASH
  {
    if s == [] {
    } else {
      EscapeKeeps(s[1..]);
      assert s[0] in s && forall c | c in s[1..] :: c in s;
    }
  }

  /** ASCII lower-casing. */
  function LowerText(s: Text): (r: Text)
    ensures |r| == |s| && forall i | 0 <= i < |s| :: r[i] == LowerChar(s[i])
  {
    seq(|s|, i requires 0 <= i < |s| => LowerChar(s[i]))
  }

  /** The concatenation of pieces. */
  function Flat(pieces: seq<Text>): Text { if pieces == [] then [] else pieces[0] + Flat(pieces[1..]) }

  // ------------------------------------------------------- surrogate halves

  /** The code points of a string whose parts were put side by side: surrogate halves that meet become one. */
  function Merge(s: Text): Text {
    if s == [] then []
    else if |s| > 1 && IsHighSurrogate(s[0]) && IsLowSurrogate(s[1]) then
      [0x10000 + (s[0] - 0xD800) * 0x400 + (s[1] - 0xDC00)] + Merge(s[2..])
    else [s[0]] + Merge(s[1..])
  }

  lemma {:induction false} MergeWellFormed(s: Text)
    requires WellFormed(s)
    ensures Merge(s) == s
  {
    if s == [] {
    } else {
      assert s[0] in s;
      assert forall c | c in s[1..] :: c in s;
      MergeWellFormed(s[1..]);
    }
  }

  lemma {:induction false} MergeKeepsAscii(s: Text)
    ensures forall c | c in Merge(s) && c < 0x80 :: c in s
    decreases |s|
  {
    if s == [] {
    } else if |s| > 1 && IsHighSurrogate(s[0]) && IsLowSurrogate(s[1]) {
      MergeKeepsAscii(s[2..]);
    } else {
      MergeKeepsAscii(s[1..]);
    }
  }

  /** Halves that meet make the text shorter; otherwise it stays as it is. */
  lemma {:induction false} MergeShortens(s: Text)
    ensures |Merge(s)| <= |s| && (|Merge(s)| == |s| ==> Merge(s) == s)
    decreases |s|
  {
    if s == [] {
    } else if |s| > 1 && IsHighSurrogate(s[0]) && IsLowSurrogate(s[1]) {
      MergeShortens(s[2..]);
    } else {
      MergeShortens(s[1..]);
    }
  }

  lemma MergeAscii(s: Text)
    requires IsAscii(s)
    ensures Merge(s) == s
  {
    MergeWellFormed(s);
  }
}
