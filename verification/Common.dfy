/** Values shared by every module: option and result types, octets, code points. */
module Common {

  datatype Option<+T> = None | Some(value: T)

  datatype Result<+T, +E> = Ok(value: T) | Err(error: E)

  /** One octet. */
  type byte = b: int | 0 <= b < 256

  /**
   * One element of a JavaScript string read with `for...of` or `Array.from`: a
   * Unicode code point, where an unpaired surrogate stands for itself.
   */
  type CodePoint = c: int | 0 <= c <= 0x10FFFF

  type Bytes = seq<byte>
  type Text = seq<CodePoint>

  const TAB: byte := 0x09
  const LF: byte := 0x0a
  const CR: byte := 0x0d
  const SPACE: byte := 0x20
  const DQUOTE: byte := 0x22
  const DOT: byte := 0x2e
  const HYPHEN: byte := 0x2d
  const BACKSLASH: byte := 0x5c

  const CRLF: Bytes := [CR, LF]

  predicate IsSurrogate(c: CodePoint) { 0xD800 <= c <= 0xDFFF }

  predicate IsHighSurrogate(c: CodePoint) { 0xD800 <= c <= 0xDBFF }

  predicate IsLowSurrogate(c: CodePoint) { 0xDC00 <= c <= 0xDFFF }

  /** No unpaired surrogate: the text is a sequence of Unicode scalar values. */
  predicate WellFormed(s: Text) { forall c | c in s :: !IsSurrogate(c) }

  predicate IsAscii(s: Text) { forall c | c in s :: c < 0x80 }

  /** The code points of an ASCII literal. */
  function Lit(s: string): (t: Bytes)
    requires forall i | 0 <= i < |s| :: s[i] as int < 128
    ensures |t| == |s|
    ensures forall i | 0 <= i < |s| :: t[i] == s[i] as int
  {
    seq(|s|, i requires 0 <= i < |s| => s[i] as int)
  }

  predicate IsWhite(c: CodePoint) { c == SPACE || c == TAB }

  predicate IsBreak(c: CodePoint) { c == CR || c == LF }

  predicate IsDigit(c: int) { 0x30 <= c <= 0x39 }

  predicate IsUpper(c: int) { 0x41 <= c <= 0x5a }

  predicate IsLower(c: int) { 0x61 <= c <= 0x7a }

  predicate IsAlnum(c: int) { IsDigit(c) || IsUpper(c) || IsLower(c) }

  predicate IsHexDigit(c: int) { IsDigit(c) || 0x41 <= c <= 0x46 || 0x61 <= c <= 0x66 }

  /** ASCII lower-casing of one character. */
  function LowerChar(c: CodePoint): CodePoint { if IsUpper(c) then c + 0x20 else c }

  /** The concatenation of a list of octet strings. */
  function Joined(pieces: seq<Bytes>): Bytes { if pieces == [] then [] else pieces[0] + Joined(pieces[1..]) }

  lemma {:induction false} JoinedAppend(a: seq<Bytes>, b: seq<Bytes>)
    ensures Joined(a + b) == Joined(a) + Joined(b)
  {
    if a == [] {
      assert a + b == b;
    } else {
      assert (a + b)[1..] == a[1..] + b;
      JoinedAppend(a[1..], b);
    }
  }

  lemma JoinedOne(piece: Bytes)
    ensures Joined([piece]) == piece
  {
    assert piece + Joined([]) == piece;
  }

  lemma JoinedNext(pieces: seq<Bytes>, k: nat)
    requires k < |pieces|
    ensures Joined(pieces[..k + 1]) == Joined(pieces[..k]) + pieces[k]
  {
    assert pieces[..k + 1] == pieces[..k] + [pieces[k]];
    JoinedAppend(pieces[..k], [pieces[k]]);
    assert Joined([pieces[k]]) == pieces[k] + Joined([]);
  }
}
