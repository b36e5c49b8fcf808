/**
 * Base64 as section 4 of RFC 4648 defines it, its wrapping at 76 characters in
 * `src/internal/mime.ts`, and the reading of wrapped text in `src/mime/parse.ts`.
 */
module Base64 {
  import opened Common

  const PAD: byte := 0x3d

  predicate IsSymbol(c: int) { IsAlnum(c) || c == 0x2b || c == 0x2f }

  function Symbol(n: nat): (c: byte)
    requires n < 64
    ensures IsSymbol(c)
  {
    if n < 26 then 0x41 + n
    else if n < 52 then 0x61 + n - 26
    else if n < 62 then 0x30 + n - 52
    else if n == 62 then 0x2b
    else 0x2f
  }

  function Sextet(c: int): (n: nat)
    requires IsSymbol(c)
    ensures n < 64
    ensures Symbol(n) == c
  {
    if IsUpper(c) then c - 0x41
    else if IsLower(c) then c - 0x61 + 26
    else if IsDigit(c) then c - 0x30 + 52
    else if c == 0x2b then 62
    else 63
  }

  lemma SextetOfSymbol(n: nat)
    requires n < 64
    ensures Sextet(Symbol(n)) == n
  {
  }

  function EncodeGroup(b: Bytes): (s: Bytes)
    requires 1 <= |b| <= 3
    ensures |s| == 4
  {
    var b1: int := if |b| > 1 then b[1] else 0;
    var b2: int := if |b| > 2 then b[2] else 0;
    [Symbol(b[0] / 4), Symbol((b[0] % 4) * 16 + b1 / 16),
     if |b| > 1 then Symbol((b1 % 16) * 4 + b2 / 64) else PAD,
     if |b| > 2 then Symbol(b2 % 64) else PAD]
  }

  function Encode(b: Bytes): (s: Bytes)
    ensures |s| == (|b| + 2) / 3 * 4
  {
    if b == [] then []
    else if |b| <= 3 then EncodeGroup(b)
    else EncodeGroup(b[..3]) + Encode(b[3..])
  }

  /** The octets of one group; `None` when it is no group, or not the canonical one. */
  function DecodeGroup(s: Text): (b: Option<Bytes>)
    requires |s| == 4
    ensures b.Some? ==> 1 <= |b.value| <= 3
  {
    if !IsSymbol(s[0]) || !IsSymbol(s[1]) then None
    else
      var x, y := Sextet(s[0]), Sextet(s[1]);
      if s[2] == PAD && s[3] == PAD then
        if y % 16 == 0 then Some([x * 4 + y / 16]) else None
      else if !IsSymbol(s[2]) then None
      else
        var z := Sextet(s[2]);
        if s[3] == PAD then
          if z % 4 == 0 then Some([x * 4 + y / 16, (y % 16) * 16 + z / 4]) else None
        else if !IsSymbol(s[3]) then None
        else Some([x * 4 + y / 16, (y % 16) * 16 + z / 4, (z % 4) * 64 + Sextet(s[3])])
  }

  /** The octets whose canonical encoding is `s`, if any. */
  function Decode(s: Text): Option<Bytes> {
    if s == [] then Some([])
    else if |s| < 4 then None
    else
      var first := DecodeGroup(s[..4]);
      if first.None? then None
      else if |s| == 4 then first
      else if |first.value| < 3 then None
      else
        var rest := Decode(s[4..]);
        if rest.None? then None else Some(first.value + rest.value)
  }

  lemma GroupRoundTrip(b: Bytes)
    requires 1 <= |b| <= 3
    ensures DecodeGroup(EncodeGroup(b)) == Some(b)
  {
    var b1: int := if |b| > 1 then b[1] else 0;
    var b2: int := if |b| > 2 then b[2] else 0;
    var x, y, z := b[0] / 4, (b[0] % 4) * 16 + b1 / 16, (b1 % 16) * 4 + b2 / 64;
    SextetOfSymbol(x);
    SextetOfSymbol(y);
    SextetOfSymbol(z);
    SextetOfSymbol(b2 % 64);
    hide Symbol, Sextet;
    PadIsNoSymbol();
    assert y / 16 == b[0] % 4 && y % 16 == b1 / 16 && z / 4 == b1 % 16 && z % 4 == b2 / 64;
    var s := EncodeGroup(b);
    assert Sextet(s[0]) == x && Sextet(s[1]) == y;
    if |b| == 1 {
      assert b == [b[0]];
    } else if |b| == 2 {
      assert Sextet(s[2]) == z && b == [b[0], b[1]];
    } else {
      assert Sextet(s[2]) == z && Sextet(s[3]) == b2 % 64 && b == [b[0], b[1], b[2]];
    }
  }

  lemma PadIsNoSymbol()
    ensures !IsSymbol(PAD)
  {
  }

  /** Three octets out of four sextets, and the sextets again. */
  lemma Regrouped(x: nat, y: nat, z: nat, w: nat)
    requires x < 64 && y < 64 && z < 64 && w < 64
    ensures var b0, b1, b2 := x * 4 + y / 16, (y % 16) * 16 + z / 4, (z % 4) * 64 + w;
      && b0 / 4 == x && (b0 % 4) * 16 + b1 / 16 == y && (b1 % 16) * 4 + b2 / 64 == z && b2 % 64 == w
      && (y % 16 == 0 ==> (b0 % 4) * 16 == y) && (z % 4 == 0 ==> (b1 % 16) * 4 == z)
  {
  }

  lemma GroupIsCanonical(s: Text)
    requires |s| == 4 && DecodeGroup(s).Some?
    ensures EncodeGroup(DecodeGroup(s).value) == s
  {
    hide Symbol, Sextet, IsSymbol;
    PadIsNoSymbol();
    var x, y := Sextet(s[0]), Sextet(s[1]);
    var z := if IsSymbol(s[2]) then Sextet(s[2]) else 0;
    var w := if IsSymbol(s[3]) then Sextet(s[3]) else 0;
    Regrouped(x, y, z, w);
    var b := DecodeGroup(s).value;
    if s[2] == PAD {
      assert b == [x * 4 + y / 16];
    } else if s[3] == PAD {
      assert b == [x * 4 + y / 16, (y % 16) * 16 + z / 4];
    } else {
      assert b == [x * 4 + y / 16, (y % 16) * 16 + z / 4, (z % 4) * 64 + w];
    }
  }

  /** Decoding inverts encoding, and accepts nothing but encodings. */
  lemma {:induction false} DecodeInvertsEncode(s: Text, b: Bytes)
    ensures Decode(s) == Some(b) <==> s == Encode(b)
    decreases |s| + |b|
  {
    hide EncodeGroup, DecodeGroup;
    if s == Encode(b) && b != [] {
      if |b| <= 3 {
        GroupRoundTrip(b);
        assert s[..4] == s;
      } else {
        GroupRoundTrip(b[..3]);
        assert s[..4] == EncodeGroup(b[..3]) && s[4..] == Encode(b[3..]);
        DecodeInvertsEncode(Encode(b[3..]), b[3..]);
        assert b == b[..3] + b[3..];
      }
    }
    if Decode(s) == Some(b) && s != [] {
      var first := DecodeGroup(s[..4]).value;
      GroupIsCanonical(s[..4]);
      if |s| == 4 {
        assert s[..4] == s;
      } else {
        var rest := Decode(s[4..]).value;
        DecodeInvertsEncode(s[4..], rest);
        assert b == first + rest && b[..3] == first && b[3..] == rest;
        assert rest != [] by { assert Encode([]) == []; }
        assert s == s[..4] + s[4..];
      }
    }
  }

  /** A final group: four symbols, or padding behind a symbol whose unused bits are zero. */
  predicate EndsEncoding(g: Text)
    requires |g| == 4
  {
    && IsSymbol(g[0]) && IsSymbol(g[1])
    && ((IsSymbol(g[2]) && IsSymbol(g[3]))
        || (IsSymbol(g[2]) && g[3] == PAD && Sextet(g[2]) % 4 == 0)
        || (g[2] == PAD && g[3] == PAD && Sextet(g[1]) % 16 == 0))
  }

  /** The texts that are encodings, by their characters. */
  predicate Canonical(s: Text) {
    && |s| % 4 == 0
    && (s == [] || ((forall i | 0 <= i < |s| - 4 :: IsSymbol(s[i])) && EndsEncoding(s[|s| - 4..])))
  }

  lemma GroupDecodes(g: Text)
    requires |g| == 4
    ensures DecodeGroup(g).Some? <==> EndsEncoding(g)
    ensures DecodeGroup(g).Some? && |DecodeGroup(g).value| == 3
      <==> IsSymbol(g[0]) && IsSymbol(g[1]) && IsSymbol(g[2]) && IsSymbol(g[3])
  {
    hide IsSymbol, Sextet;
    PadIsNoSymbol();
  }

  /** Which texts are decoded. */
  lemma {:induction false} CanonicalDecodes(s: Text)
    ensures Decode(s).Some? <==> Canonical(s)
  {
    hide DecodeGroup, EndsEncoding, IsSymbol;
    hide Canonical;
    CanonicalFrom(s);
    if |s| >= 4 {
      GroupDecodes(s[..4]);
      if |s| > 4 { CanonicalDecodes(s[4..]); }
    }
  }

  lemma CanonicalFrom(s: Text)
    ensures |s| < 4 ==> (Canonical(s) <==> s == [])
    ensures |s| == 4 ==> (Canonical(s) <==> EndsEncoding(s[..4]))
    ensures |s| > 4 ==> (Canonical(s) <==>
      IsSymbol(s[..4][0]) && IsSymbol(s[..4][1]) && IsSymbol(s[..4][2]) && IsSymbol(s[..4][3]) && Canonical(s[4..]))
  {
    hide EndsEncoding, IsSymbol;
    if |s| == 4 { assert s[..4] == s[0..]; }
    if |s| > 4 {
      var t := s[4..];
      assert forall i | 4 <= i < |s| :: s[i] == t[i - 4];
      if |t| >= 4 { assert s[|s| - 4..] == t[|t| - 4..]; }
    }
  }

  lemma {:induction false} EncodeSymbols(b: Bytes)
    ensures forall c | c in Encode(b) :: IsSymbol(c) || c == PAD
  {
    if |b| > 3 { EncodeSymbols(b[3..]); }
  }

  // ------------------------------------------------------------ wrapped text

  const MAX_LINE: nat := 76

  /** `encoded` cut into lines of 76 characters, each ended by CRLF. */
  function Wrapped(encoded: Bytes): Bytes
    decreases |encoded|
  {
    if encoded == [] then []
    else if |encoded| <= MAX_LINE then encoded + CRLF
    else encoded[..MAX_LINE] + CRLF + Wrapped(encoded[MAX_LINE..])
  }

  /** `encodeBase64Lines` */
  method EncodeBase64Lines(data: Bytes) returns (text: Bytes)
    ensures text == Wrapped(Encode(data))
  {
    if |data| == 0 { return []; }
    var encoded := Encode(data);
    text := [];
    var index := 0;
    while index < |encoded|
      invariant index <= |encoded| && text + Wrapped(encoded[index..]) == Wrapped(encoded)
    {
      var end := if index + MAX_LINE < |encoded| then index + MAX_LINE else |encoded|;
      ghost var line := encoded[index..end] + CRLF;
      assert encoded[index..][..end - index] == encoded[index..end];
      assert encoded[index..][end - index..] == encoded[end..];
      assert Wrapped(encoded[index..]) == line + Wrapped(encoded[end..]);
      assert text + (line + Wrapped(encoded[end..])) == (text + line) + Wrapped(encoded[end..]);
      text := text + (encoded[index..end] + CRLF);
      index := end;
    }
    assert text + [] == text;
  }

  /** `text` without the characters the MIME reader drops before decoding. */
  function Filtered(text: Bytes): Bytes {
    if text == [] then []
    else (if IsSymbol(text[0]) || text[0] == PAD then [text[0]] else []) + Filtered(text[1..])
  }

  /** The MIME reader's `decodeBase64`, where the filtered text is an encoding at all. */
  function DecodeLines(text: Bytes): Option<Bytes> { Decode(Filtered(text)) }

  lemma {:induction false} FilteredAppend(a: Bytes, b: Bytes)
    ensures Filtered(a + b) == Filtered(a) + Filtered(b)
  {
    if a == [] {
      assert a + b == b;
    } else {
      assert (a + b)[1..] == a[1..] + b && (a + b)[0] == a[0];
      FilteredAppend(a[1..], b);
      hide IsSymbol;
    }
  }

  lemma {:induction false} FilteredSymbols(s: Bytes)
    requires forall c | c in s :: IsSymbol(c) || c == PAD
    ensures Filtered(s) == s
  {
    if s == [] {
    } else {
      assert s[0] in s && forall c | c in s[1..] :: c in s;
      FilteredSymbols(s[1..]);
    }
  }

  lemma {:induction false} FilteredWrapped(s: Bytes)
    requires forall c | c in s :: IsSymbol(c) || c == PAD
    ensures Filtered(Wrapped(s)) == s
    decreases |s|
  {
    hide Filtered, IsSymbol;
    FilteredCrlf();
    if s == [] {
      FilteredSymbols(s);
    } else if |s| <= MAX_LINE {
      FilteredSymbols(s);
      FilteredAppend(s, CRLF);
    } else {
      var line, rest := s[..MAX_LINE], s[MAX_LINE..];
      assert forall c | c in line :: c in s;
      assert forall c | c in rest :: c in s;
      FilteredSymbols(line);
      FilteredWrapped(rest);
      FilteredAppend(line, CRLF);
      FilteredAppend(line + CRLF, Wrapped(rest));
      assert s == line + rest;
    }
  }

  lemma FilteredCrlf()
    ensures Filtered(CRLF) == []
  {
    assert Filtered(CRLF[1..]) == [];
  }

  /** Reading back wrapped Base64 gives the octets, with the final CRLF or without it. */
  lemma LinesRoundTrip(data: Bytes, text: Bytes)
    requires text == Wrapped(Encode(data)) || text + CRLF == Wrapped(Encode(data))
    ensures DecodeLines(text) == Some(data)
  {
    EncodeSymbols(data);
    FilteredWrapped(Encode(data));
    FilteredCrlf();
    FilteredAppend(text, CRLF);
    assert Filtered(text) + [] == Filtered(text);
    DecodeInvertsEncode(Encode(data), data);
  }

  /** Wrapped text holds nothing but symbols and line ends, and ends in CRLF unless it is empty. */
  lemma {:induction false} WrappedShape(s: Bytes)
    requires forall c | c in s :: IsSymbol(c) || c == PAD
    ensures forall c | c in Wrapped(s) :: IsSymbol(c) || c == PAD || c == CR || c == LF
    ensures s != [] ==> |Wrapped(s)| >= 2 && Wrapped(s)[|Wrapped(s)| - 2..] == CRLF
    decreases |s|
  {
    if |s| > MAX_LINE {
      assert forall c | c in s[..MAX_LINE] :: c in s;
      assert forall c | c in s[MAX_LINE..] :: c in s;
      WrappedShape(s[MAX_LINE..]);
    }
  }
}
