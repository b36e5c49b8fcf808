/**
 * A whole internationalized domain name through `src/internal/idna.ts`: mapped,
 * split at every kind of dot, encoded and joined, with the name the DNS knows.
 */
module DomainSamples {
  import opened Common
  import opened Strings
  import opened Idna
  import Punycode
  import PunycodeSamples

  /** What the sample needs of the Unicode tables: the letters fold as they do in Unicode, and nothing composes. */
  ghost predicate Knows(t: Tables) {
    && Sane(t)
    && t.fold(0xdc) == [0xfc] && !t.disallowed(0xfc) && !t.mark(0x62) && !t.mark(0x78) && !t.mark(0x64)
    && t.nfc(PunycodeSamples.BUECHER + Lit(".x.de")) == PunycodeSamples.BUECHER + Lit(".x.de")
  }

  /** A capital letter, a soft hyphen, an ideographic and a full-width dot in the middle of small letters. */
  const TYPED: Text := B + ([0xdc, 0xad] + (CHER + (CJK_DOT + (X + (WIDE_DOT + DE)))))

  const B: Text := Lit("b")
  const CHER: Text := Lit("cher")
  const X: Text := Lit("x")
  const DE: Text := Lit("de")
  const CJK_DOT: Text := [0x3002]
  const WIDE_DOT: Text := [0xff0e]

  lemma {:induction false} MapAppend(t: Tables, a: Text, b: Text)
    ensures MapChars(t, a + b) == MapChars(t, a) + MapChars(t, b)
  {
    if a == [] {
      assert a + b == b;
    } else {
      assert (a + b)[1..] == a[1..] + b;
      MapAppend(t, a[1..], b);
    }
  }

  lemma OneIsMapped(t: Tables, c: CodePoint)
    ensures MapChars(t, [c]) == MapChar(t, c)
  {
    assert [c][1..] == [];
  }

  lemma Typed(t: Tables)
    requires Knows(t)
    ensures MapChars(t, TYPED) == PunycodeSamples.BUECHER + Lit(".x.de")
  {
    hide MapChars;
    MapSettled(t, B);
    MapSettled(t, CHER);
    MapSettled(t, X);
    MapSettled(t, DE);
    Marks(t);
    var r4 := WIDE_DOT + DE;
    var r3 := X + r4;
    var r2 := CJK_DOT + r3;
    var r1 := CHER + r2;
    MapAppend(t, B, [0xdc, 0xad] + r1);
    MapAppend(t, [0xdc, 0xad], r1);
    MapAppend(t, CHER, r2);
    MapAppend(t, CJK_DOT, r3);
    MapAppend(t, X, r4);
    MapAppend(t, WIDE_DOT, DE);
    assert B + ([0xfc] + (CHER + ([DOT] + (X + ([DOT] + DE))))) == PunycodeSamples.BUECHER + Lit(".x.de");
  }

  lemma Marks(t: Tables)
    requires t.fold(0xdc) == [0xfc]
    ensures MapChars(t, [0xdc, 0xad]) == [0xfc]
    ensures MapChars(t, CJK_DOT) == [DOT] && MapChars(t, WIDE_DOT) == [DOT]
  {
    hide MapChars;
    OneIsMapped(t, 0xdc);
    OneIsMapped(t, 0xad);
    OneIsMapped(t, 0x3002);
    OneIsMapped(t, 0xff0e);
    MapAppend(t, [0xdc], [0xad]);
    assert [0xdc] + [0xad] == [0xdc, 0xad];
  }

  lemma PlainConverts(t: Tables, s: Text)
    requires Sane(t) && 0 < |s| < 3 && (forall c | c in s :: IsLower(c)) && !t.mark(s[0])
    ensures ConvertLabel(t, s) == Some(s)
  {
    hide Punycode.Encode, Utf16;
    assert s[0] in s && s[|s| - 1] in s;
    assert forall c | c in s :: IsLabelChar(c) && c < 0x80;
    Units(s);
  }

  lemma {:induction false} Units(s: Text)
    requires forall c | c in s :: c < 0x10000
    ensures |Utf16(s)| == |s|
  {
    if s == [] {
    } else {
      assert s[0] in s && forall c | c in s[1..] :: c in s;
      Units(s[1..]);
    }
  }

  lemma BuecherConverts(t: Tables)
    requires Knows(t)
    ensures ConvertLabel(t, PunycodeSamples.BUECHER) == Some(Lit("xn--bcher-kva"))
  {
    hide Punycode.Encode, Punycode.Decode, Utf16;
    var s := PunycodeSamples.BUECHER;
    PunycodeSamples.Buecher();
    BuecherLabel(t);
    assert ACE_PREFIX + PunycodeSamples.BUECHER_ENCODED == Lit("xn--bcher-kva");
  }

  lemma BuecherLabel(t: Tables)
    requires Knows(t)
    ensures var s := PunycodeSamples.BUECHER;
      && !IsAscii(s) && !Disallowed(t, s) && IsValidLabelText(t, s) && !StartsWith(s, ACE_PREFIX)
      && forall c | c in s :: c < 0x80 ==> IsLabelChar(c)
  {
    var s := PunycodeSamples.BUECHER;
    assert s[1] == 0xfc && s[1] in s && s[0] == 0x62;
    Units(s);
    UnitsOfBuecher();
  }

  lemma UnitsOfBuecher()
    ensures Utf16(PunycodeSamples.BUECHER)[2] == 0x63
  {
    var s := PunycodeSamples.BUECHER;
    assert Utf16(s) == [s[0]] + Utf16(s[1..]) && Utf16(s[1..]) == [s[1]] + Utf16(s[1..][1..]);
    assert Utf16(s[1..][1..]) == [s[2]] + Utf16(s[1..][1..][1..]);
  }

  lemma LabelsOfSample()
    ensures var d := PunycodeSamples.BUECHER + Lit(".x.de");
      SplitOn(d, DOT) == [PunycodeSamples.BUECHER, Lit("x"), Lit("de")]
  {
    hide SplitOn, JoinWith;
    var labels := [PunycodeSamples.BUECHER, Lit("x"), Lit("de")];
    SplitOfJoin(labels, DOT);
    JoinThree(PunycodeSamples.BUECHER, Lit("x"), Lit("de"));
    assert PunycodeSamples.BUECHER + [DOT] + (Lit("x") + [DOT] + Lit("de")) == PunycodeSamples.BUECHER + Lit(".x.de");
  }

  lemma JoinThree(a: Text, b: Text, c: Text)
    ensures JoinWith([a, b, c], DOT) == a + [DOT] + (b + [DOT] + c)
  {
    assert [a, b, c][1..] == [b, c] && [b, c][1..] == [c];
    assert JoinWith([b, c], DOT) == b + [DOT] + c;
  }

  lemma ThreeConvert(t: Tables, a: Text, b: Text, c: Text, x: Text)
    requires ConvertLabel(t, a) == Some(x) && ConvertLabel(t, b) == Some(b) && ConvertLabel(t, c) == Some(c)
    ensures ConvertLabels(t, [a, b, c]) == Some([x, b, c])
  {
    hide ConvertLabel;
    var none: seq<Text> := [];
    assert ConvertLabels(t, none) == Some(none);
    assert [c][1..] == none && [c] + none == [c] && ConvertLabels(t, [c]) == Some([c]);
    assert [b, c][1..] == [c] && [b] + [c] == [b, c] && ConvertLabels(t, [b, c]) == Some([b, c]);
    assert [a, b, c][1..] == [b, c] && [x] + [b, c] == [x, b, c];
  }

  /** What was typed becomes the name that is looked up. */
  lemma DomainSample(t: Tables)
    requires Knows(t)
    ensures ToAsciiDomain(t, TYPED) == Some(Lit("xn--bcher-kva.x.de"))
  {
    hide MapChars, ConvertLabel, ConvertLabels, SplitOn, JoinWith, Sane;
    Typed(t);
    LabelsOfSample();
    BuecherConverts(t);
    PlainConverts(t, Lit("x"));
    PlainConverts(t, Lit("de"));
    ThreeConvert(t, PunycodeSamples.BUECHER, Lit("x"), Lit("de"), Lit("xn--bcher-kva"));
    JoinThree(Lit("xn--bcher-kva"), Lit("x"), Lit("de"));
    assert Lit("xn--bcher-kva") + [DOT] + (Lit("x") + [DOT] + Lit("de")) == Lit("xn--bcher-kva.x.de");
  }

  /** Which ASCII labels are accepted, and unchanged: the rules of section 2.3.1 of RFC 5890, and 59 octets at most. */
  lemma AsciiLabelRules(t: Tables, name: Text)
    requires Sane(t) && name != [] && IsAscii(name) && !t.mark(name[0])
    requires !(|name| >= 4 && name[..4] == [0x78, 0x6e, 0x2d, 0x2d])
    ensures ConvertLabel(t, name)
         == if (forall c | c in name :: 0x61 <= c <= 0x7a || 0x30 <= c <= 0x39 || c == 0x2d)
               && name[0] != 0x2d && name[|name| - 1] != 0x2d
               && !(|name| >= 4 && name[2] == 0x2d && name[3] == 0x2d) && |name| <= 59
            then Some(name) else None
  {
    hide Punycode.Encode, Punycode.Decode;
    assert forall c | c in name :: c < 0x80;
    NoPrefix(name);
    UnitsAreChars(name);
    hide Utf16, ValidateALabel;
    if forall c | c in name :: IsLabelChar(c) {
      assert !Disallowed(t, name);
    } else {
      assert exists c | c in name :: c < 0x80 && !IsLabelChar(c);
    }
  }

  lemma NoPrefix(name: Text)
    requires !(|name| >= 4 && name[..4] == [0x78, 0x6e, 0x2d, 0x2d])
    ensures !StartsWith(name, ACE_PREFIX)
  {
  }

  lemma {:induction false} UnitsAreChars(s: Text)
    requires forall c | c in s :: c < 0x80
    ensures Utf16(s) == s
  {
    if s == [] {
    } else {
      assert s[0] in s && forall c | c in s[1..] :: c in s;
      UnitsAreChars(s[1..]);
      assert s == [s[0]] + s[1..];
    }
  }
}
