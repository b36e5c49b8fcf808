/**
 * Quoted-printable: the encoder of `src/internal/mime.ts` against the lenient
 * decoder of `src/mime/parse.ts` (section 6.7 of RFC 2045).
 */
module QuotedPrintable {
  import opened Common
  import DataPhase

  const EQUALS: byte := 0x3d
  const UNDERSCORE: byte := 0x5f

  /** The longest output line, without its CRLF. */
  const MAX_LINE: nat := 76

  predicate CrlfAt(b: Bytes, i: nat) { i + 1 < |b| && b[i] == CR && b[i + 1] == LF }

  // ---------------------------------------------------------------- encoder

  function HexDigit(n: nat): (c: byte)
    requires n < 16
    ensures IsHexDigit(c) && c != UNDERSCORE
  {
    if n < 10 then 0x30 + n else 0x41 + n - 10
  }

  function HexValue(c: byte): (n: nat)
    requires IsHexDigit(c)
    ensures n < 16
  {
    if IsDigit(c) then c - 0x30 else if c <= 0x46 then c - 0x41 + 10 else c - 0x61 + 10
  }

  function HexByte(high: byte, low: byte): byte
    requires IsHexDigit(high) && IsHexDigit(low)
  {
    16 * HexValue(high) + HexValue(low)
  }

  lemma HexRoundTrip(n: nat)
    requires n < 16
    ensures HexValue(HexDigit(n)) == n
  {
  }

  /** Whether nothing but a line end follows position `i`. */
  predicate AtLineEnd(b: Bytes, i: nat) { CrlfAt(b, i + 1) || i + 1 == |b| }

  /** What stands for one octet that is not part of a CRLF. */
  function Token(b: Bytes, i: nat): (t: Bytes)
    requires i < |b|
    ensures 0 < |t| <= 3
  {
    if (0x21 <= b[i] <= 0x7e && b[i] != EQUALS) || (IsWhite(b[i]) && !AtLineEnd(b, i)) then [b[i]]
    else [EQUALS, HexDigit(b[i] / 16), HexDigit(b[i] % 16)]
  }

  const SOFT_BREAK: Bytes := [EQUALS, CR, LF]

  /** The output from position `i` on, when the current line already has `col` characters. */
  function EncodeFrom(b: Bytes, i: nat, col: nat): Bytes
    requires i <= |b|
    decreases |b| - i
  {
    if i == |b| then []
    else if CrlfAt(b, i) then CRLF + EncodeFrom(b, i + 2, 0)
    else
      var t := Token(b, i);
      if col + |t| > 75 then SOFT_BREAK + (t + EncodeFrom(b, i + 1, |t|))
      else t + EncodeFrom(b, i + 1, col + |t|)
  }

  /** `encodeQuotedPrintable` on octets. */
  function Encode(b: Bytes): Bytes {
    var out := EncodeFrom(b, 0, 0);
    if DataPhase.EndsWithCrlf(out) then out else out + CRLF
  }

  method EncodeQuotedPrintable(b: Bytes) returns (output: Bytes)
    ensures output == Encode(b)
  {
    hide Token, EncodeFrom;
    output := [];
    var lineLength: nat := 0;
    var index := 0;
    while index < |b|
      invariant index <= |b|
      invariant output + EncodeFrom(b, index, lineLength) == EncodeFrom(b, 0, 0)
    {
      EncodeCases(b, index, lineLength);
      ghost var whole := output + EncodeFrom(b, index, lineLength);
      if CrlfAt(b, index) {
        assert whole == (output + CRLF) + EncodeFrom(b, index + 2, 0);
        output := output + CRLF;
        lineLength := 0;
        index := index + 2;
        continue;
      }
      var token := Token(b, index);
      if lineLength + |token| > 75 {
        assert whole == (output + SOFT_BREAK) + (token + EncodeFrom(b, index + 1, |token|));
        output := output + SOFT_BREAK;
        lineLength := 0;
      }
      assert whole == (output + token) + EncodeFrom(b, index + 1, lineLength + |token|);
      output := output + token;
      lineLength := lineLength + |token|;
      index := index + 1;
    }
    EncodeEnd(b, lineLength);
    assert output + [] == output;
    if !DataPhase.EndsWithCrlf(output) { output := output + CRLF; }
  }

  lemma EncodeEnd(b: Bytes, col: nat)
    ensures EncodeFrom(b, |b|, col) == []
  {
  }

  lemma EncodeCases(b: Bytes, i: nat, col: nat)
    requires i < |b|
    ensures CrlfAt(b, i) ==> EncodeFrom(b, i, col) == CRLF + EncodeFrom(b, i + 2, 0)
    ensures !CrlfAt(b, i) && col + |Token(b, i)| > 75 ==>
      EncodeFrom(b, i, col) == SOFT_BREAK + (Token(b, i) + EncodeFrom(b, i + 1, |Token(b, i)|))
    ensures !CrlfAt(b, i) && col + |Token(b, i)| <= 75 ==>
      EncodeFrom(b, i, col) == Token(b, i) + EncodeFrom(b, i + 1, col + |Token(b, i)|)
  {
  }

  // ---------------------------------------------------------------- decoder

  /** `decodeQuotedPrintable` */
  function Decode(s: Bytes): Bytes
    decreases |s|
  {
    if s == [] then []
    else if s[0] != EQUALS then [s[0]] + Decode(s[1..])
    else if |s| >= 3 && s[1] == CR && s[2] == LF then Decode(s[3..])
    else if |s| >= 2 && s[1] == LF then Decode(s[2..])
    else if |s| == 1 then []
    else if |s| >= 3 && IsHexDigit(s[1]) && IsHexDigit(s[2]) then
      [HexByte(s[1], s[2])] + Decode(s[3..])
    else [EQUALS] + Decode(s[1..])
  }

  method DecodeQuotedPrintable(bytes: Bytes) returns (output: Bytes)
    ensures output == Decode(bytes)
  {
    output := [];
    var index := 0;
    while index < |bytes|
      invariant index <= |bytes| && output + Decode(bytes[index..]) == Decode(bytes)
    {
      hide Decode, HexByte;
      DecodeStep(bytes, index);
      ghost var before := output;
      var start := index;
      if bytes[index] != EQUALS {
        output := output + [bytes[index]];
        index := index + 1;
      } else if index + 2 < |bytes| && bytes[index + 1] == CR && bytes[index + 2] == LF {
        index := index + 3;
      } else if index + 1 < |bytes| && bytes[index + 1] == LF {
        index := index + 2;
      } else if index + 1 == |bytes| {
        break;
      } else if index + 2 < |bytes| && IsHexDigit(bytes[index + 1]) && IsHexDigit(bytes[index + 2]) {
        output := output + [HexByte(bytes[index + 1], bytes[index + 2])];
        index := index + 3;
      } else {
        output := output + [EQUALS];
        index := index + 1;
      }
      Pushed(before, Decode(bytes[start..]), output, Decode(bytes[index..]));
    }
  }

  /** Moving one octet from the front of what is left to the end of the output. */
  lemma Pushed(before: Bytes, whole: Bytes, output: Bytes, rest: Bytes)
    requires (output == before && whole == rest)
          || (output != [] && output[..|output| - 1] == before && whole == [output[|output| - 1]] + rest)
    ensures output + rest == before + whole
  {
    if output != before { assert output == before + [output[|output| - 1]]; }
  }

  /** How much one turn of the decoder's loop reads, and what it writes. */
  lemma DecodeStep(bytes: Bytes, i: nat)
    requires i < |bytes|
    ensures var d := Decode(bytes[i..]);
      if bytes[i] != EQUALS then d == [bytes[i]] + Decode(bytes[i + 1..])
      else if i + 2 < |bytes| && bytes[i + 1] == CR && bytes[i + 2] == LF then d == Decode(bytes[i + 3..])
      else if i + 1 < |bytes| && bytes[i + 1] == LF then d == Decode(bytes[i + 2..])
      else if i + 1 == |bytes| then d == []
      else if i + 2 < |bytes| && IsHexDigit(bytes[i + 1]) && IsHexDigit(bytes[i + 2]) then
        d == [HexByte(bytes[i + 1], bytes[i + 2])] + Decode(bytes[i + 3..])
      else d == [EQUALS] + Decode(bytes[i + 1..])
  {
    hide HexByte;
    var s := bytes[i..];
    assert s[1..] == bytes[i + 1..];
    assert |s| >= 2 ==> s[2..] == bytes[i + 2..];
    assert |s| >= 3 ==> s[3..] == bytes[i + 3..];
  }

  // ------------------------------------------------------------- round trip

  lemma DecodeToken(b: Bytes, i: nat, tail: Bytes)
    requires i < |b| && !CrlfAt(b, i)
    ensures Decode(Token(b, i) + tail) == [b[i]] + Decode(tail)
  {
    var t := Token(b, i);
    if |t| == 1 {
      assert (t + tail)[1..] == tail;
    } else {
      HexRoundTrip(b[i] / 16);
      HexRoundTrip(b[i] % 16);
      assert (t + tail)[3..] == tail;
    }
  }

  lemma DecodePlain(c: byte, tail: Bytes)
    requires c != EQUALS
    ensures Decode([c] + tail) == [c] + Decode(tail)
  {
    assert ([c] + tail)[1..] == tail;
  }

  lemma DecodeSoftBreak(tail: Bytes)
    ensures Decode(SOFT_BREAK + tail) == Decode(tail)
  {
    assert (SOFT_BREAK + tail)[3..] == tail;
  }

  lemma {:induction false} DecodeEncoded(b: Bytes, i: nat, col: nat, tail: Bytes)
    requires i <= |b|
    ensures Decode(EncodeFrom(b, i, col) + tail) == b[i..] + Decode(tail)
    decreases |b| - i
  {
    hide EncodeFrom, Decode, Token;
    if i == |b| {
      EncodeEnd(b, col);
      assert [] + tail == tail && b[i..] + Decode(tail) == Decode(tail);
    } else {
      EncodeCases(b, i, col);
      if CrlfAt(b, i) {
        var rest := EncodeFrom(b, i + 2, 0) + tail;
        DecodeEncoded(b, i + 2, 0, tail);
        assert EncodeFrom(b, i, col) + tail == [CR] + ([LF] + rest);
        DecodePlain(CR, [LF] + rest);
        DecodePlain(LF, rest);
        assert b[i..] == [CR] + ([LF] + b[i + 2..]);
      } else {
        var t := Token(b, i);
        var col' := if col + |t| > 75 then |t| else col + |t|;
        var rest := EncodeFrom(b, i + 1, col') + tail;
        DecodeEncoded(b, i + 1, col', tail);
        DecodeToken(b, i, rest);
        DecodeSoftBreak(t + rest);
        assert EncodeFrom(b, i, col) + tail
            == if col + |t| > 75 then SOFT_BREAK + (t + rest) else t + rest;
        assert b[i..] == [b[i]] + b[i + 1..];
      }
    }
  }

  /** Decoding gives back every octet string, completed to a whole line. */
  lemma RoundTrip(b: Bytes)
    ensures Decode(Encode(b)) == if DataPhase.EndsWithCrlf(b) then b else b + CRLF
  {
    var out := EncodeFrom(b, 0, 0);
    EndsTogether(b, 0, 0);
    DecodeEncoded(b, 0, 0, []);
    DecodeEncoded(b, 0, 0, CRLF);
    assert b[0..] == b;
    assert out + [] == out && Decode([]) == [];
    assert Decode(CRLF) == CRLF by {
      DecodePlain(CR, [LF]);
      DecodePlain(LF, []);
      assert CRLF == [CR] + [LF] && [LF] + [] == [LF];
    }
  }

  /** A last CRLF changes nothing of what stands before it. */
  lemma {:induction false} EncodeBeforeCrlf(b: Bytes, i: nat, col: nat)
    requires i <= |b|
    ensures EncodeFrom(b + CRLF, i, col) == EncodeFrom(b, i, col) + CRLF
    decreases |b| - i
  {
    hide EncodeFrom, Token;
    var whole := b + CRLF;
    EncodeCases(whole, i, col);
    if i == |b| {
      EncodeEnd(b, col);
      EncodeEnd(whole, 0);
      assert CRLF + [] == [] + CRLF;
    } else {
      EncodeCases(b, i, col);
      TokenBeforeCrlf(b, i);
      if CrlfAt(b, i) {
        EncodeBeforeCrlf(b, i + 2, 0);
        assert CRLF + (EncodeFrom(b, i + 2, 0) + CRLF) == CRLF + EncodeFrom(b, i + 2, 0) + CRLF;
      } else {
        var t := Token(b, i);
        var col' := if col + |t| > 75 then |t| else col + |t|;
        EncodeBeforeCrlf(b, i + 1, col');
        var rest := EncodeFrom(b, i + 1, col');
        assert t + (rest + CRLF) == t + rest + CRLF;
        assert SOFT_BREAK + (t + (rest + CRLF)) == SOFT_BREAK + (t + rest) + CRLF;
      }
    }
  }

  lemma TokenBeforeCrlf(b: Bytes, i: nat)
    requires i < |b|
    ensures CrlfAt(b + CRLF, i) == CrlfAt(b, i) && Token(b + CRLF, i) == Token(b, i)
  {
    var whole := b + CRLF;
    assert whole[i] == b[i];
    assert AtLineEnd(whole, i) == AtLineEnd(b, i);
  }

  /** Without its last CRLF, which a multipart reader takes for the delimiter, the output decodes to the unfinished text. */
  lemma RoundTripWithoutCrlf(b: Bytes)
    ensures |Encode(b)| >= 2
    ensures Decode(Encode(b)[..|Encode(b)| - 2]) == if DataPhase.EndsWithCrlf(b) then b[..|b| - 2] else b
  {
    var out := EncodeFrom(b, 0, 0);
    EndsTogether(b, 0, 0);
    assert b[0..] == b;
    var text := if DataPhase.EndsWithCrlf(b) then b[..|b| - 2] else b;
    hide Decode, EncodeFrom;
    EncodeBeforeCrlf(text, 0, 0);
    DecodeEncoded(text, 0, 0, []);
    assert text[0..] == text && text + [] == text;
    assert Decode([]) == [] by { DecodeNothing(); }
    assert EncodeFrom(text, 0, 0) + [] == EncodeFrom(text, 0, 0);
    if DataPhase.EndsWithCrlf(b) { assert b == text + CRLF; }
  }

  lemma DecodeNothing()
    ensures Decode([]) == []
  {
  }

  /** The output ends in CRLF exactly when the input does. */
  lemma {:induction false} EndsTogether(b: Bytes, i: nat, col: nat)
    requires i <= |b|
    ensures var out := EncodeFrom(b, i, col);
      && (out == [] <==> i == |b|) && (|out| == 1 ==> out[0] != LF)
      && (DataPhase.EndsWithCrlf(out) <==> DataPhase.EndsWithCrlf(b[i..]))
    decreases |b| - i
  {
    hide EncodeFrom, Token;
    EncodeEnd(b, col);
    if i == |b| {
    } else {
      EncodeCases(b, i, col);
      if CrlfAt(b, i) {
        EndsTogether(b, i + 2, 0);
        EndsAppend(CRLF, EncodeFrom(b, i + 2, 0));
        EndsAppend(CRLF, b[i + 2..]);
        assert b[i..] == CRLF + b[i + 2..];
      } else {
        var t := Token(b, i);
        var col' := if col + |t| > 75 then |t| else col + |t|;
        var rest := EncodeFrom(b, i + 1, col');
        EndsTogether(b, i + 1, col');
        TokenEnd(b, i);
        EndsAppend(t, rest);
        EndsAppend(SOFT_BREAK, t + rest);
        assert b[i..] == [b[i]] + b[i + 1..];
      }
    }
  }

  lemma TokenEnd(b: Bytes, i: nat)
    requires i < |b|
    ensures Token(b, i)[|Token(b, i)| - 1] != LF
  {
  }

  lemma EndsAppend(x: Bytes, y: Bytes)
    ensures |y| >= 2 || (|y| == 1 && y[0] != LF) ==> (DataPhase.EndsWithCrlf(x + y) <==> DataPhase.EndsWithCrlf(y))
    ensures y == [] ==> (DataPhase.EndsWithCrlf(x + y) <==> DataPhase.EndsWithCrlf(x))
  {
  }

  // ----------------------------------------------------------- line shape

  predicate MayStand(c: byte) { 0x21 <= c <= 0x7e || IsWhite(c) }

  /**
   * `s` continues a line that has `col` characters, the last of which is white
   * if `white`: lines stay within the limit, hold only printable characters,
   * space and tab, never end in white space, and no underscore follows an
   * equals sign.
   */
  predicate Shaped(s: Bytes, col: nat, white: bool)
    decreases |s|
  {
    if s == [] then !white
    else if s[0] == CR then |s| >= 2 && s[1] == LF && !white && Shaped(s[2..], 0, false)
    else
      && MayStand(s[0]) && col < MAX_LINE
      && (s[0] == EQUALS && |s| >= 2 ==> s[1] != UNDERSCORE)
      && Shaped(s[1..], col + 1, IsWhite(s[0]))
  }

  lemma ShapedCrlf(s: Bytes, col: nat)
    requires Shaped(s, 0, false)
    ensures Shaped(CRLF + s, col, false)
  {
    assert (CRLF + s)[2..] == s;
  }

  lemma ShapedSoftBreak(s: Bytes, col: nat, white: bool)
    requires Shaped(s, 0, false) && col < MAX_LINE
    ensures Shaped(SOFT_BREAK + s, col, white)
  {
    ShapedCrlf(s, col + 1);
    assert (SOFT_BREAK + s)[1..] == CRLF + s;
  }

  lemma ShapedToken(b: Bytes, i: nat, s: Bytes, col: nat, white: bool)
    requires i < |b| && col + |Token(b, i)| <= MAX_LINE
    requires Shaped(s, col + |Token(b, i)|, |Token(b, i)| == 1 && IsWhite(b[i]))
    ensures Shaped(Token(b, i) + s, col, white)
  {
    var t := Token(b, i);
    if |t| == 1 {
      assert (t + s)[1..] == s;
    } else {
      assert (t + s)[1..] == [t[1], t[2]] + s;
      assert ([t[1], t[2]] + s)[1..] == [t[2]] + s;
      assert ([t[2]] + s)[1..] == s;
      assert Shaped([t[2]] + s, col + 2, false);
      assert Shaped([t[1], t[2]] + s, col + 1, false);
    }
  }

  lemma {:induction false} EncodedShaped(b: Bytes, i: nat, col: nat, white: bool, tail: Bytes)
    requires i <= |b| && col <= 75
    requires white ==> i < |b| && !CrlfAt(b, i)
    requires forall c: nat | c <= 75 :: Shaped(tail, c, false)
    ensures Shaped(EncodeFrom(b, i, col) + tail, col, white)
    decreases |b| - i
  {
    hide EncodeFrom, Shaped, Token;
    if i == |b| {
      EncodeEnd(b, col);
      assert [] + tail == tail;
    } else {
      EncodeCases(b, i, col);
      if CrlfAt(b, i) {
        EncodedShaped(b, i + 2, 0, false, tail);
        ShapedCrlf(EncodeFrom(b, i + 2, 0) + tail, col);
        assert EncodeFrom(b, i, col) + tail == CRLF + (EncodeFrom(b, i + 2, 0) + tail);
      } else {
        var t := Token(b, i);
        var start := if col + |t| > 75 then 0 else col;
        var rest := EncodeFrom(b, i + 1, start + |t|) + tail;
        var w := |t| == 1 && IsWhite(b[i]);
        WhiteIsInside(b, i);
        EncodedShaped(b, i + 1, start + |t|, w, tail);
        ShapedToken(b, i, rest, start, if start == 0 then false else white);
        if col + |t| > 75 {
          ShapedSoftBreak(t + rest, col, white);
          assert EncodeFrom(b, i, col) + tail == SOFT_BREAK + (t + rest);
        } else {
          ShapedToken(b, i, rest, start, white);
          assert EncodeFrom(b, i, col) + tail == t + rest;
        }
      }
    }
  }

  lemma WhiteIsInside(b: Bytes, i: nat)
    requires i < |b|
    ensures |Token(b, i)| == 1 && IsWhite(b[i]) ==> i + 1 < |b| && !CrlfAt(b, i + 1)
  {
  }

  /** The lines of `s`, split at CRLF, where `line` was read before `s`. */
  function CrlfLines(s: Bytes, line: Bytes): seq<Bytes>
    decreases |s|
  {
    if s == [] then [line]
    else if CrlfAt(s, 0) then [line] + CrlfLines(s[2..], [])
    else CrlfLines(s[1..], line + [s[0]])
  }

  predicate GoodLine(line: Bytes) {
    && |line| <= MAX_LINE
    && (forall c | c in line :: MayStand(c))
    && (line != [] ==> !IsWhite(line[|line| - 1]))
  }

  lemma {:induction false} ShapedLines(s: Bytes, line: Bytes)
    requires Shaped(s, |line|, line != [] && IsWhite(line[|line| - 1]))
    requires |line| <= MAX_LINE && forall c | c in line :: MayStand(c)
    ensures forall l | l in CrlfLines(s, line) :: GoodLine(l)
    decreases |s|
  {
    if s == [] {
    } else if CrlfAt(s, 0) {
      ShapedLines(s[2..], []);
    } else {
      ShapedLines(s[1..], line + [s[0]]);
    }
  }

  lemma {:induction false} ShapedPairs(s: Bytes, col: nat, white: bool)
    requires Shaped(s, col, white)
    ensures forall i | 0 <= i < |s| - 1 :: s[i] == EQUALS ==> s[i + 1] != UNDERSCORE
    decreases |s|
  {
    if s == [] {
    } else {
      if s[0] == CR {
        ShapedPairs(s[2..], 0, false);
        assert forall i | 2 <= i < |s| :: s[i] == s[2..][i - 2];
      } else {
        ShapedPairs(s[1..], col + 1, IsWhite(s[0]));
        assert forall i | 1 <= i < |s| :: s[i] == s[1..][i - 1];
      }
    }
  }

  /**
   * Every line of the output is at most 76 characters of printable ASCII, space
   * and tab, and ends in neither; no `=_` occurs, so no line holds a boundary
   * with that mark.
   */
  lemma LinesAreGood(b: Bytes)
    ensures forall line | line in CrlfLines(Encode(b), []) :: GoodLine(line)
    ensures forall i | 0 <= i < |Encode(b)| - 1 :: Encode(b)[i] == EQUALS ==> Encode(b)[i + 1] != UNDERSCORE
    ensures DataPhase.EndsWithCrlf(Encode(b))
  {
    var out := EncodeFrom(b, 0, 0);
    ShapedCrlf([], 0);
    assert CRLF + [] == CRLF && Shaped([], 0, false);
    assert out + [] == out;
    forall c: nat | c <= 75 ensures Shaped(CRLF, c, false) && Shaped([], c, false) { ShapedCrlf([], c); }
    EncodedShaped(b, 0, 0, false, []);
    EncodedShaped(b, 0, 0, false, CRLF);
    hide Shaped;
    ShapedLines(Encode(b), []);
    ShapedPairs(Encode(b), 0, false);
  }
}
