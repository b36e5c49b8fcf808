/**
 * Octets written as `=XX`: what the lenient quoted-printable decoder of
 * `src/mime/parse.ts` and the Q decoder of `src/internal/encoded-word.ts` make
 * of everything their own writers never emit.
 */
module EscapeReading {
  import opened Common
  import EncodedWord
  import QuotedPrintable

  const EQUALS: byte := 0x3d
  const UNDERSCORE: byte := 0x5f

  // ----------------------------------------------------------------- digits

  const CAPITAL: string := "0123456789ABCDEF"
  const SMALL: string := "0123456789abcdef"

  /** The character stands for the hex digit of value `n`, in either case. */
  predicate Stands(c: int, n: int) { 0 <= n < 16 && (c == CAPITAL[n] as int || c == SMALL[n] as int) }

  lemma DigitIs(n: nat)
    requires n < 16
    ensures CAPITAL[n] as int == if n < 10 then 0x30 + n else 0x41 + n - 10
    ensures SMALL[n] as int == if n < 10 then 0x30 + n else 0x61 + n - 10
  {
    if n < 10 {
      assert CAPITAL[n] == ('0' as int + n) as char && SMALL[n] == ('0' as int + n) as char;
    } else {
      assert CAPITAL[n] == ('A' as int + n - 10) as char && SMALL[n] == ('a' as int + n - 10) as char;
    }
  }

  /** Digits are written as capitals and read in either case, and nothing else is a digit. */
  lemma HexLaw(c: byte, n: nat)
    requires n < 16
    ensures QuotedPrintable.HexDigit(n) == CAPITAL[n] as int
    ensures Stands(c, n) <==> IsHexDigit(c) && QuotedPrintable.HexValue(c) == n
  {
    DigitIs(n);
  }

  lemma DigitStands(c: byte)
    requires IsHexDigit(c)
    ensures Stands(c, QuotedPrintable.HexValue(c))
  {
    hide QuotedPrintable.HexValue, Stands, IsHexDigit;
    HexLaw(c, QuotedPrintable.HexValue(c));
  }

  /** Two digits and the octet they stand for. */
  predicate StandFor(high: byte, low: byte, octet: byte) { Stands(high, octet / 16) && Stands(low, octet % 16) }

  lemma ByteLaw(high: byte, low: byte, octet: byte)
    ensures StandFor(high, low, octet)
       <==> IsHexDigit(high) && IsHexDigit(low) && QuotedPrintable.HexByte(high, low) == octet
  {
    hide QuotedPrintable.HexValue, Stands, IsHexDigit;
    HexLaw(high, octet / 16);
    HexLaw(low, octet % 16);
  }

  // ----------------------------------------------------------------- pieces

  /** What encoded text is written from. */
  datatype Piece =
    | Plain(c: byte)
    | Escaped(octet: byte, high: byte, low: byte)
    | SoftBreak(crlf: bool)
    | Stray
    | Dangling

  function PieceText(p: Piece): Bytes {
    match p
    case Plain(c) => [c]
    case Escaped(_, high, low) => [EQUALS, high, low]
    case SoftBreak(crlf) => if crlf then [EQUALS, CR, LF] else [EQUALS, LF]
    case Stray => [EQUALS]
    case Dangling => [EQUALS]
  }

  function CodedText(ps: seq<Piece>): Bytes { if ps == [] then [] else PieceText(ps[0]) + CodedText(ps[1..]) }

  lemma CodedSplit(ps: seq<Piece>)
    requires ps != []
    ensures CodedText(ps) == PieceText(ps[0]) + CodedText(ps[1..])
    ensures CodedText(ps)[|PieceText(ps[0])|..] == CodedText(ps[1..])
  {
    hide PieceText;
  }

  lemma CodedFirst(p: Piece, rest: seq<Piece>)
    ensures CodedText([p] + rest) == PieceText(p) + CodedText(rest) && ([p] + rest)[1..] == rest && ([p] + rest)[0] == p
  {
    hide PieceText;
    assert ([p] + rest)[1..] == rest;
  }

  // ------------------------------------------------------- quoted-printable

  /** Text that completes no escape and no soft break behind a `=`. */
  predicate Completes(s: Bytes) {
    || s == [] || s[0] == LF
    || (|s| >= 2 && s[0] == CR && s[1] == LF)
    || (|s| >= 2 && IsHexDigit(s[0]) && IsHexDigit(s[1]))
  }

  /** A piece in front of `rest`: a stray `=` is one that nothing completes, a dangling one ends the text. */
  predicate IsCode(p: Piece, rest: Bytes) {
    match p
    case Plain(c) => c != EQUALS
    case Escaped(octet, high, low) => StandFor(high, low, octet)
    case SoftBreak(_) => true
    case Stray => !Completes(rest)
    case Dangling => rest == []
  }

  predicate Coded(ps: seq<Piece>) {
    ps == []
    || (IsCode(ps[0], CodedText(ps[1..])) && Coded(ps[1..]))
  }

  /** The octets a piece stands for. */
  function PieceMeaning(p: Piece): Bytes {
    match p
    case Plain(c) => [c]
    case Escaped(octet, _, _) => [octet]
    case SoftBreak(_) => []
    case Stray => [EQUALS]
    case Dangling => []
  }

  function Meaning(ps: seq<Piece>): Bytes { if ps == [] then [] else PieceMeaning(ps[0]) + Meaning(ps[1..]) }

  lemma DecodePiece(p: Piece, rest: Bytes)
    requires IsCode(p, rest)
    ensures QuotedPrintable.Decode(PieceText(p) + rest) == PieceMeaning(p) + QuotedPrintable.Decode(rest)
  {
    hide QuotedPrintable.HexByte, Stands, IsHexDigit, StandFor;
    var s := PieceText(p) + rest;
    assert s[|PieceText(p)|..] == rest;
    if p.Escaped? { ByteLaw(p.high, p.low, p.octet); EscapeIsNoBreak(p.high, p.low); }
    if p.Stray? { assert |rest| >= 1 ==> s[1] == rest[0]; assert |rest| >= 2 ==> s[2] == rest[1]; }
  }

  lemma EscapeIsNoBreak(high: byte, low: byte)
    requires IsHexDigit(high)
    ensures high != CR && high != LF
  {
  }

  /**
   * Every octet, in either case of its digits, both soft breaks, and a `=` that
   * starts nothing are decoded as what they stand for.
   */
  lemma {:induction false} DecodesPieces(ps: seq<Piece>)
    requires Coded(ps)
    ensures QuotedPrintable.Decode(CodedText(ps)) == Meaning(ps)
  {
    hide QuotedPrintable.Decode, CodedText, PieceText, StandFor, Completes;
    if ps == [] {
      NothingCoded();
    } else {
      CodedSplit(ps);
      DecodesPieces(ps[1..]);
      if ps[0].Dangling? { NothingCoded(); }
      DecodePiece(ps[0], CodedText(ps[1..]));
    }
  }

  lemma NothingCoded()
    ensures CodedText([]) == [] && QuotedPrintable.Decode([]) == []
  {
  }

  /** Every text is written from such pieces. */
  lemma {:induction false} PiecesOf(s: Bytes) returns (ps: seq<Piece>)
    ensures Coded(ps) && CodedText(ps) == s
    decreases |s|
  {
    hide PieceText, StandFor, CodedText, IsHexDigit;
    if s == [] {
      NothingCoded();
      ps := [];
    } else {
      var p := FirstPiece(s);
      var n := |PieceText(p)|;
      var rest := PiecesOf(s[n..]);
      ps := [p] + rest;
      CodedFirst(p, rest);
      assert s[..n] + s[n..] == s;
    }
  }

  lemma FirstPiece(s: Bytes) returns (p: Piece)
    requires s != []
    ensures 0 < |PieceText(p)| <= |s| && s[..|PieceText(p)|] == PieceText(p)
    ensures IsCode(p, s[|PieceText(p)|..])
  {
    hide StandFor, IsHexDigit, QuotedPrintable.HexByte;
    if s[0] != EQUALS {
      p := Plain(s[0]);
    } else if |s| == 1 {
      p := Dangling;
    } else if s[1] == LF {
      p := SoftBreak(false);
    } else if |s| >= 3 && s[1] == CR && s[2] == LF {
      p := SoftBreak(true);
    } else if |s| >= 3 && IsHexDigit(s[1]) && IsHexDigit(s[2]) {
      p := EscapeOf(s[1], s[2]);
    } else {
      p := Stray;
    }
  }

  lemma EscapeOf(high: byte, low: byte) returns (p: Piece)
    requires IsHexDigit(high) && IsHexDigit(low)
    ensures p.Escaped? && p.high == high && p.low == low && StandFor(high, low, p.octet)
  {
    var octet := QuotedPrintable.HexByte(high, low);
    hide StandFor, IsHexDigit, QuotedPrintable.HexByte;
    p := Escaped(octet, high, low);
    ByteLaw(high, low, octet);
  }

  // ------------------------------------------------------------- Q encoding

  /** A piece of a Q payload: a printable character or an octet. */
  predicate IsQPiece(p: Piece) {
    match p
    case Plain(c) => 0x20 <= c <= 0x7e && c != EQUALS
    case Escaped(octet, high, low) => StandFor(high, low, octet)
    case _ => false
  }

  predicate InQ(ps: seq<Piece>) { forall p | p in ps :: IsQPiece(p) }

  /** The octet a piece stands for: an underscore is a space. */
  function QOctet(p: Piece): byte
    requires IsQPiece(p)
  {
    if p.Escaped? then p.octet else if p.c == UNDERSCORE then SPACE else p.c
  }

  function QMeaning(ps: seq<Piece>): Bytes
    requires InQ(ps)
  {
    if ps == [] then []
    else
      assert ps[0] in ps;
      [QOctet(ps[0])] + QMeaning(ps[1..])
  }

  lemma DecodeQPiece(p: Piece, rest: Text)
    requires IsQPiece(p)
    ensures EncodedWord.DecodeQ(PieceText(p) + rest) == EncodedWord.Octet(QOctet(p), EncodedWord.DecodeQ(rest))
  {
    hide QuotedPrintable.HexByte, IsHexDigit, StandFor, EncodedWord.Octet;
    var text: Text := PieceText(p);
    var s := text + rest;
    assert s[|text|..] == rest;
    if p.Escaped? { ByteLaw(p.high, p.low, p.octet); }
  }

  /** A Q payload decodes to the octets its pieces stand for. */
  lemma {:induction false} DecodesQPieces(ps: seq<Piece>)
    requires InQ(ps)
    ensures EncodedWord.DecodeQ(CodedText(ps)) == Some(QMeaning(ps))
  {
    hide EncodedWord.DecodeQ, CodedText, PieceText, StandFor;
    if ps == [] {
      NothingInQ();
    } else {
      assert ps[0] in ps && forall p | p in ps[1..] :: p in ps;
      CodedSplit(ps);
      DecodesQPieces(ps[1..]);
      DecodeQPiece(ps[0], CodedText(ps[1..]));
    }
  }

  lemma NothingInQ()
    ensures CodedText([]) == [] && InQ([]) && QMeaning([]) == [] && EncodedWord.DecodeQ([]) == Some([])
  {
  }

  /** And no other payload is taken. */
  lemma {:induction false} QPiecesOf(s: Text) returns (ps: seq<Piece>)
    requires EncodedWord.DecodeQ(s).Some?
    ensures InQ(ps) && CodedText(ps) == s && EncodedWord.DecodeQ(s) == Some(QMeaning(ps))
    decreases |s|
  {
    hide PieceText, StandFor, CodedText, IsHexDigit, EncodedWord.DecodeQ, QMeaning;
    if s == [] {
      NothingInQ();
      ps := [];
    } else {
      var p := FirstQPiece(s);
      var n := |PieceText(p)|;
      assert s[..n] + s[n..] == s;
      DecodeQPiece(p, s[n..]);
      var rest := QPiecesOf(s[n..]);
      ps := [p] + rest;
      CodedFirst(p, rest);
      DecodesQPieces(ps);
    }
  }

  lemma FirstQPiece(s: Text) returns (p: Piece)
    requires s != [] && EncodedWord.DecodeQ(s).Some?
    ensures 0 < |PieceText(p)| <= |s| && s[..|PieceText(p)|] == PieceText(p) && IsQPiece(p)
  {
    hide StandFor, QuotedPrintable.HexByte;
    if s[0] == EQUALS {
      p := EscapeOf(s[1], s[2]);
    } else {
      p := Plain(s[0]);
    }
  }
}
