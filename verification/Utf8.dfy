/**
 * UTF-8 as the platform provides it: `Buffer.from(text, "utf8")`, and a
 * `TextDecoder` that replaces malformed input and drops a leading byte order
 * mark (the decoder of the WHATWG Encoding Standard).
 */
module Utf8 {
  import opened Common

  const REPLACEMENT: CodePoint := 0xFFFD
  const BOM: CodePoint := 0xFEFF

  /** `utf-8` */
  const LABEL: Text := [0x75, 0x74, 0x66, 0x2d, 0x38]

  /** An unpaired surrogate has no encoding and is replaced. */
  function Scalar(c: CodePoint): CodePoint { if IsSurrogate(c) then REPLACEMENT else c }

  function Scalars(s: Text): (r: Text)
    ensures |r| == |s| && forall i | 0 <= i < |s| :: r[i] == Scalar(s[i])
  {
    seq(|s|, i requires 0 <= i < |s| => Scalar(s[i]))
  }

  function EncodeChar(cp: CodePoint): (b: Bytes)
    ensures 1 <= |b| <= 4
    ensures cp < 0x80 <==> b[0] < 0x80
    ensures cp < 0x80 ==> b == [cp]
    ensures cp >= 0x80 ==> forall x | x in b :: x >= 0x80
  {
    var c: int := Scalar(cp);
    if c < 0x80 then [c]
    else if c < 0x800 then [0xC0 + c / 64, 0x80 + c % 64]
    else if c < 0x10000 then [0xE0 + c / 4096, 0x80 + c / 64 % 64, 0x80 + c % 64]
    else [0xF0 + c / 262144, 0x80 + c / 4096 % 64, 0x80 + c / 64 % 64, 0x80 + c % 64]
  }

  function Encode(s: Text): Bytes { if s == [] then [] else EncodeChar(s[0]) + Encode(s[1..]) }

  datatype Decoded = Decoded(cp: CodePoint, size: nat)

  predicate IsTail(b: Bytes, i: nat, low: int, high: int) { i < |b| && low <= b[i] <= high }

  /** The first character of `b` and how many octets it takes; a malformed start is replaced. */
  function DecodeChar(b: Bytes): (d: Decoded)
    requires b != []
    ensures 0 < d.size <= |b|
  {
    var b0: int := b[0];
    if b0 < 0x80 then Decoded(b0, 1)
    else if 0xC2 <= b0 <= 0xDF then
      if IsTail(b, 1, 0x80, 0xBF) then Decoded((b0 - 0xC0) * 64 + (b[1] - 0x80), 2) else Decoded(REPLACEMENT, 1)
    else if 0xE0 <= b0 <= 0xEF then
      var low := if b0 == 0xE0 then 0xA0 else 0x80;
      var high := if b0 == 0xED then 0x9F else 0xBF;
      if !IsTail(b, 1, low, high) then Decoded(REPLACEMENT, 1)
      else if !IsTail(b, 2, 0x80, 0xBF) then Decoded(REPLACEMENT, 2)
      else ThreeOctets(b)
    else if 0xF0 <= b0 <= 0xF4 then
      var low := if b0 == 0xF0 then 0x90 else 0x80;
      var high := if b0 == 0xF4 then 0x8F else 0xBF;
      if !IsTail(b, 1, low, high) then Decoded(REPLACEMENT, 1)
      else if !IsTail(b, 2, 0x80, 0xBF) then Decoded(REPLACEMENT, 2)
      else if !IsTail(b, 3, 0x80, 0xBF) then Decoded(REPLACEMENT, 3)
      else FourOctets(b)
    else Decoded(REPLACEMENT, 1)
  }

  function ThreeOctets(b: Bytes): (d: Decoded)
    requires |b| >= 3 && 0xE0 <= b[0] <= 0xEF && 0x80 <= b[1] <= 0xBF && 0x80 <= b[2] <= 0xBF
    ensures d.size == 3
  {
    var b0: int, b1: int, b2: int := b[0], b[1], b[2];
    Decoded((b0 - 0xE0) * 4096 + (b1 - 0x80) * 64 + (b2 - 0x80), 3)
  }

  function FourOctets(b: Bytes): (d: Decoded)
    requires |b| >= 4 && 0xF0 <= b[0] <= 0xF4 && 0x80 <= b[1] <= (if b[0] == 0xF4 then 0x8F else 0xBF)
    requires 0x80 <= b[2] <= 0xBF && 0x80 <= b[3] <= 0xBF
    ensures d.size == 4
  {
    var b0: int, b1: int, b2: int, b3: int := b[0], b[1], b[2], b[3];
    Decoded((b0 - 0xF0) * 262144 + (b1 - 0x80) * 4096 + (b2 - 0x80) * 64 + (b3 - 0x80), 4)
  }

  function DecodeAll(b: Bytes): Text
    decreases |b|
  {
    if b == [] then [] else var d := DecodeChar(b); [d.cp] + DecodeAll(b[d.size..])
  }

  predicate StartsWithBom(b: Bytes) { |b| >= 3 && b[0] == 0xEF && b[1] == 0xBB && b[2] == 0xBF }

  /** `new TextDecoder("utf-8").decode(b)` */
  function Decode(b: Bytes): Text { DecodeAll(if StartsWithBom(b) then b[3..] else b) }

  /** No more characters come out than octets went in. */
  lemma {:induction false} DecodeIsNoLonger(b: Bytes)
    ensures |DecodeAll(b)| <= |b|
    ensures |Decode(b)| <= |b|
    decreases |b|
  {
    hide DecodeChar;
    if b == [] {
    } else {
      DecodeIsNoLonger(b[DecodeChar(b).size..]);
      if StartsWithBom(b) { DecodeIsNoLonger(b[3..]); }
    }
  }

  /** Division by 64, twice and three times. */
  lemma Digits64(v: nat)
    ensures v == v / 64 * 64 + v % 64
    ensures v / 64 == v / 4096 * 64 + v / 64 % 64
    ensures v / 4096 == v / 262144 * 64 + v / 4096 % 64
  {
    var a, b := v / 64, v / 4096;
    assert a / 64 == b;
    assert b / 64 == v / 262144;
  }

  lemma ThreeRoundTrip(v: nat, tail: Bytes)
    requires 0x800 <= v < 0x10000 && !IsSurrogate(v)
    ensures DecodeChar([0xE0 + v / 4096, 0x80 + v / 64 % 64, 0x80 + v % 64] + tail) == Decoded(v, 3)
  {
    Digits64(v);
  }

  lemma FourRoundTrip(v: nat, tail: Bytes)
    requires 0x10000 <= v <= 0x10FFFF
    ensures DecodeChar([0xF0 + v / 262144, 0x80 + v / 4096 % 64, 0x80 + v / 64 % 64, 0x80 + v % 64] + tail) == Decoded(v, 4)
  {
    Digits64(v);
  }

  lemma CharRoundTrip(c: CodePoint, tail: Bytes)
    ensures DecodeChar(EncodeChar(c) + tail) == Decoded(Scalar(c), |EncodeChar(c)|)
  {
    var v: nat := Scalar(c);
    if v < 0x800 {
      Digits64(v);
    } else if v < 0x10000 {
      ThreeRoundTrip(v, tail);
      hide DecodeChar;
    } else {
      FourRoundTrip(v, tail);
      hide DecodeChar;
    }
  }

  lemma ScalarsSplit(s: Text)
    ensures s == [] ==> Scalars(s) == []
    ensures s != [] ==> Scalars(s) == [Scalar(s[0])] + Scalars(s[1..])
  {
    hide Scalar;
  }

  lemma DecodeNext(b: Bytes, rest: Bytes, cp: CodePoint)
    requires b != [] && DecodeChar(b + rest) == Decoded(cp, |b|)
    ensures DecodeAll(b + rest) == [cp] + DecodeAll(rest)
  {
    hide DecodeChar;
    assert (b + rest)[|b|..] == rest;
  }

  lemma {:induction false} AllRoundTrip(s: Text)
    ensures DecodeAll(Encode(s)) == Scalars(s)
  {
    hide EncodeChar, DecodeChar, Scalars, Scalar;
    ScalarsSplit(s);
    if s == [] {
    } else {
      CharRoundTrip(s[0], Encode(s[1..]));
      DecodeNext(EncodeChar(s[0]), Encode(s[1..]), Scalar(s[0]));
      hide DecodeAll;
      AllRoundTrip(s[1..]);
    }
  }

  /** Only text that starts with U+FEFF encodes to a leading byte order mark. */
  lemma BomIsFeff(s: Text)
    ensures StartsWithBom(Encode(s)) <==> s != [] && s[0] == BOM
    ensures s != [] && s[0] == BOM ==> Encode(s)[3..] == Encode(s[1..])
  {
    if s != [] {
      var c := EncodeChar(s[0]);
      CharRoundTrip(s[0], Encode(s[1..]));
      if StartsWithBom(Encode(s)) {
        assert DecodeChar(Encode(s)) == Decoded(BOM, 3);
      }
    }
  }

  /** What the platform makes of encoded text: it drops one leading U+FEFF and replaces unpaired surrogates. */
  lemma TextRoundTrip(s: Text)
    ensures Decode(Encode(s)) == Scalars(if s != [] && s[0] == BOM then s[1..] else s)
  {
    BomIsFeff(s);
    AllRoundTrip(s);
    if s != [] { AllRoundTrip(s[1..]); }
  }

  lemma ScalarsOfWellFormed(s: Text)
    ensures WellFormed(s) <==> Scalars(s) == s
  {
    if Scalars(s) == s {
      forall c | c in s ensures !IsSurrogate(c) {
        var i :| 0 <= i < |s| && s[i] == c;
        assert Scalars(s)[i] == Scalar(c);
      }
    }
  }

  lemma {:induction false} EncodeAppend(a: Text, b: Text)
    ensures Encode(a + b) == Encode(a) + Encode(b)
  {
    if a == [] {
      assert a + b == b;
    } else {
      assert (a + b)[1..] == a[1..] + b;
      EncodeAppend(a[1..], b);
    }
  }

  lemma {:induction false} EncodeAscii(s: Text)
    requires IsAscii(s)
    ensures Encode(s) == s
  {
    if s == [] {
    } else {
      assert s[0] in s && forall c | c in s[1..] :: c in s;
      EncodeAscii(s[1..]);
      assert s == [s[0]] + s[1..];
    }
  }
}
