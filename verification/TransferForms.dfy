/**
 * What the transfer encodings are, apart from the agreement of writer and
 * reader: their alphabets and numbers, and that nothing is encoded, broken or
 * wrapped that could stand as it is.
 */
module TransferForms {
  import opened Common
  import Base64
  import Bdat
  import DataPhase
  import Multipart
  import Utf8

  // ------------------------------------------------------------------ Base64

  const CAPITALS: string := "ABCDEFGHIJKLMNOPQRSTUVWXYZ"
  const SMALLS: string := "abcdefghijklmnopqrstuvwxyz"
  const ALPHABET: string := CAPITALS + SMALLS + "0123456789+/"

  lemma AlphabetCapitals(n: nat)
    requires n < 26
    ensures ALPHABET[n] as int == 0x41 + n
  {
    assert CAPITALS[n] == ('A' as int + n) as char;
  }

  lemma AlphabetSmalls(n: nat)
    requires 26 <= n < 52
    ensures ALPHABET[n] as int == 0x61 + n - 26
  {
    assert SMALLS[n - 26] == ('a' as int + n - 26) as char;
  }

  lemma AlphabetDigits(n: nat)
    requires 52 <= n < 64
    ensures ALPHABET[n] as int == if n < 62 then 0x30 + n - 52 else if n == 62 then 0x2b else 0x2f
  {
    if n < 62 { assert "0123456789+/"[n - 52] == ('0' as int + n - 52) as char; }
  }

  /** The alphabet of table 1 of RFC 4648. */
  lemma AlphabetLaw(n: nat)
    requires n < 64
    ensures Base64.Symbol(n) == ALPHABET[n] as int && Base64.Sextet(ALPHABET[n] as int) == n && Base64.PAD == '=' as int
  {
    if n < 26 { AlphabetCapitals(n); } else if n < 52 { AlphabetSmalls(n); } else { AlphabetDigits(n); }
    Base64.SextetOfSymbol(n);
  }

  /** What a symbol counts for; padding counts for nothing. */
  function Worth(c: int): nat { if Base64.IsSymbol(c) then Base64.Sextet(c) else 0 }

  /** The first octet of a group weighs most, and so does the first symbol: both spell one number. */
  lemma GroupIsNumber(b: Bytes)
    requires 1 <= |b| <= 3
    ensures var s := Base64.EncodeGroup(b);
      && Worth(s[0]) * 262144 + Worth(s[1]) * 4096 + Worth(s[2]) * 64 + Worth(s[3])
         == b[0] as int * 65536 + (if |b| > 1 then b[1] as int else 0) * 256 + (if |b| > 2 then b[2] as int else 0)
      && (forall i | 0 <= i < 4 :: s[i] == Base64.PAD <==> i > |b|)
  {
    var b1: int := if |b| > 1 then b[1] else 0;
    var b2: int := if |b| > 2 then b[2] else 0;
    var x, y, z := b[0] as int / 4, (b[0] as int % 4) * 16 + b1 / 16, (b1 % 16) * 4 + b2 / 64;
    Base64.SextetOfSymbol(x);
    Base64.SextetOfSymbol(y);
    Base64.SextetOfSymbol(z);
    Base64.SextetOfSymbol(b2 % 64);
    hide Base64.Symbol, Base64.Sextet, Base64.IsSymbol;
    Base64.PadIsNoSymbol();
    Regrouped(b[0], b1, b2, x, y, z);
  }

  lemma Regrouped(b0: int, b1: int, b2: int, x: int, y: int, z: int)
    requires 0 <= b0 < 256 && 0 <= b1 < 256 && 0 <= b2 < 256
    requires x == b0 / 4 && y == (b0 % 4) * 16 + b1 / 16 && z == (b1 % 16) * 4 + b2 / 64
    ensures x * 262144 + y * 4096 + z * 64 + b2 % 64 == b0 * 65536 + b1 * 256 + b2
    ensures b2 == 0 ==> x * 262144 + y * 4096 + z * 64 == b0 * 65536 + b1 * 256
    ensures b1 == 0 && b2 == 0 ==> x * 262144 + y * 4096 == b0 * 65536
  {
  }

  /** Wrapped text holds 76 symbols a line: symbol `i` stands behind `i / 76` line ends. */
  lemma {:induction false} WrappedAt(s: Bytes, i: nat)
    requires i < |s|
    ensures |Base64.Wrapped(s)| == |s| + 2 * ((|s| + 75) / 76)
    ensures Base64.Wrapped(s)[i + 2 * (i / 76)] == s[i]
    decreases |s|
  {
    if |s| > 76 {
      var rest := s[76..];
      if i < 76 {
        WrappedAt(rest, 0);
      } else {
        WrappedAt(rest, i - 76);
        assert i / 76 == (i - 76) / 76 + 1;
        assert rest[i - 76] == s[i];
      }
    }
  }

  // ------------------------------------------------------------------- UTF-8

  /** One character of each length: U+0041, U+00E9, U+20AC and U+1F600. */
  lemma Utf8Sample()
    ensures Utf8.EncodeChar(0x41) == [0x41] && Utf8.EncodeChar(0xE9) == [0xC3, 0xA9]
    ensures Utf8.EncodeChar(0x20AC) == [0xE2, 0x82, 0xAC] && Utf8.EncodeChar(0x1F600) == [0xF0, 0x9F, 0x98, 0x80]
    ensures Utf8.EncodeChar(0xD800) == [0xEF, 0xBF, 0xBD] && Utf8.LABEL == Lit("utf-8")
  {
  }

  // --------------------------------------------------------- BDAT and DATA

  /** How many pieces of at most `size` octets it takes to carry `n` octets. */
  function PiecesFor(n: nat, size: nat): nat
    requires size > 0
  {
    (n + size - 1) / size
  }

  /** A chunk is cut into no more pieces than it takes. */
  lemma {:induction false} CutIsShort(chunk: Bytes, offset: nat, size: nat)
    requires size > 0 && offset <= |chunk|
    ensures |Bdat.Cut(chunk, offset, size)| == PiecesFor(|chunk| - offset, size)
    decreases |chunk| - offset
  {
    hide PiecesFor;
    PiecesStep(|chunk| - offset, size);
    if offset + size <= |chunk| {
      CutIsShort(chunk, offset + size, size);
    } else if offset < |chunk| {
      assert Bdat.Cut(chunk, offset + size, size) == [];
    }
  }

  lemma PiecesStep(n: nat, size: nat)
    requires size > 0
    ensures n == 0 ==> PiecesFor(n, size) == 0
    ensures 0 < n < size ==> PiecesFor(n, size) == 1
    ensures n >= size ==> PiecesFor(n, size) == 1 + PiecesFor(n - size, size)
  {
    if n == 0 {
      Quotient(size - 1, size, 0, size - 1);
    } else if n < size {
      Quotient(n + size - 1, size, 1, n - 1);
    } else {
      var q, r := (n - 1) / size, (n - 1) % size;
      Quotient(n - 1, size, q, r);
      assert n + size - 1 == (q + 1) * size + r by { Distribute(q, size); }
      Quotient(n + size - 1, size, q + 1, r);
    }
  }

  lemma Distribute(q: nat, size: nat)
    ensures (q + 1) * size == q * size + size
  {
  }

  lemma Quotient(n: nat, size: nat, q: nat, r: nat)
    requires size > 0 && r < size && n == q * size + r
    ensures n / size == q
  {
    var d := n / size;
    assert n == d * size + n % size;
    if d < q {
      Larger(d, q, size);
    } else if d > q {
      Larger(q, d, size);
    }
  }

  lemma Larger(a: nat, b: nat, size: nat)
    requires a < b
    ensures a * size + size <= b * size
  {
    if a + 1 < b { Larger(a, b - 1, size); Distribute(b - 1, size); } else { Distribute(a, size); }
  }

  function PiecesForAll(source: seq<Bytes>, size: nat): nat
    requires size > 0
  {
    if source == [] then 0 else PiecesFor(|source[0]|, size) + PiecesForAll(source[1..], size)
  }

  lemma {:induction false} PiecesAreFew(current: Bytes, offset: nat, source: seq<Bytes>, size: nat)
    requires size > 0 && offset <= |current|
    ensures |Bdat.Pieces(current, offset, source, size)|
         == PiecesFor(|current| - offset, size) + PiecesForAll(source, size)
    decreases |source|
  {
    hide Bdat.Cut, PiecesFor;
    CutIsShort(current, offset, size);
    if source != [] { PiecesAreFew(source[0], 0, source[1..], size); }
  }

  /** No command carries less than it could: a stream takes the fewest commands its chunks allow, and at least one. */
  lemma PlanIsShort(source: seq<Bytes>, size: nat)
    requires size > 0
    ensures |Bdat.Plan(source, size)| == if PiecesForAll(source, size) == 0 then 1 else PiecesForAll(source, size)
  {
    hide Bdat.Pieces, PiecesForAll, PiecesFor;
    PiecesAreFew([], 0, source, size);
    PiecesStep(0, size);
    Bdat.PlanShape(source, size);
  }

  /** The message of two lines, the second with a dot in front and no end, as it goes over the wire. */
  lemma DataSample()
    ensures DataPhase.Framed(Lit("a\r\n.b")) == Lit("a\r\n..b\r\n.\r\n")
  {
    var m := Lit("a\r\n.b");
    assert m == [0x61, 0x0d, 0x0a, 0x2e, 0x62];
    assert m[1..] == [0x0d, 0x0a, 0x2e, 0x62] && m[1..][1..] == [0x0a, 0x2e, 0x62];
    assert m[1..][1..][1..] == [0x2e, 0x62] && m[1..][1..][1..][1..] == [0x62] && m[1..][1..][1..][1..][1..] == [];
    StuffedSample(m);
  }

  lemma StuffedSample(m: Bytes)
    requires m == [0x61, 0x0d, 0x0a, 0x2e, 0x62]
    ensures DataPhase.Stuff(m, true) == [0x61, 0x0d, 0x0a, 0x2e, 0x2e, 0x62]
  {
    DataPhase.StuffOne(0x62, false);
    assert m[3..] == [0x2e, 0x62] && m[3..][1..] == [0x62] && DataPhase.Stuff(m[3..], true) == [0x2e, 0x2e, 0x62];
    assert m[2..][1..] == m[3..] && DataPhase.Stuff(m[2..], false) == [0x0a, 0x2e, 0x2e, 0x62];
    assert m[1..][1..] == m[2..] && DataPhase.Stuff(m[1..], false) == [0x0d, 0x0a, 0x2e, 0x2e, 0x62];
  }

  /** A line end is added only to a payload that is not empty and does not end in CRLF. */
  lemma EndedOnlyIfNeeded(d: Bytes)
    ensures var whole := d == [] || (|d| >= 2 && d[|d| - 2] == 0x0d && d[|d| - 1] == 0x0a);
      DataPhase.Framed(d) == DataPhase.Stuff(d, true) + if whole then Lit(".\r\n") else Lit("\r\n.\r\n")
  {
    hide DataPhase.Stuff, DataPhase.Padding, DataPhase.FINAL_DOT, Lit;
    PaddingCases(d);
    Grouped(DataPhase.Stuff(d, true), DataPhase.Padding(d), DataPhase.FINAL_DOT);
    EndMarks();
  }

  lemma Grouped(a: Bytes, b: Bytes, c: Bytes)
    ensures a + b + c == a + (b + c)
  {
  }

  lemma PaddingCases(d: Bytes)
    ensures DataPhase.Padding(d)
         == if d == [] || (|d| >= 2 && d[|d| - 2] == 0x0d && d[|d| - 1] == 0x0a) then [] else CRLF
  {
  }

  lemma EndMarks()
    ensures [] + DataPhase.FINAL_DOT == Lit(".\r\n") && CRLF + DataPhase.FINAL_DOT == Lit("\r\n.\r\n")
  {
  }

  /** What a generated boundary looks like. */
  lemma BoundaryLaw(b: Bytes)
    requires Multipart.IsBoundary(b)
    ensures Lit("----=_mxraven_") <= b && |b| == 14 + 32
    ensures forall i | 14 <= i < 46 :: 0x30 <= b[i] <= 0x39 || 0x61 <= b[i] <= 0x66
    ensures Multipart.Delimiter(b) == Lit("--") + b
  {
    assert Multipart.BOUNDARY_PREFIX == Lit("----=_mxraven_");
  }
}
