/**
 * The address literals `src/internal/domain.ts` accepts, against the grammar of
 * section 4.1.3 of RFC 5321: IPv4 addresses exactly, IPv6 addresses up to stray
 * colons and up to how an embedded IPv4 address is counted.
 */
module AddressLiterals {
  import opened Common
  import opened Strings
  import opened Domain

  // -------------------------------------------------------------------- IPv4

  /** A number without leading zeros. */
  function Decimal(n: nat): (digits: Text)
    ensures digits != []
  {
    if n < 10 then [0x30 + n] else Decimal(n / 10) + [0x30 + n % 10]
  }

  lemma OneDigit(part: Text)
    requires |part| == 1 && IsDigit(part[0])
    ensures DecimalValue(part) == part[0] - 0x30 && part == Decimal(DecimalValue(part))
  {
    assert part[..0] == [];
  }

  lemma TenTimes(n: nat, d: nat)
    requires d < 10
    ensures (n * 10 + d) / 10 == n && (n * 10 + d) % 10 == d
  {
  }

  lemma DecimalGrows(n: nat, d: nat, m: nat)
    requires n > 0 && d < 10 && m == n * 10 + d
    ensures Decimal(m) == Decimal(n) + [0x30 + d]
  {
    TenTimes(n, d);
    assert m >= 10 && m / 10 == n && m % 10 == d;
  }

  lemma ValueGrows(part: Text)
    requires |part| > 1
    ensures DecimalValue(part) == DecimalValue(part[..|part| - 1]) * 10 + part[|part| - 1] - 0x30
  {
  }

  lemma MoreDigits(part: Text)
    requires |part| > 1 && IsDigit(part[|part| - 1]) && DecimalValue(part[..|part| - 1]) > 0
    requires part[..|part| - 1] == Decimal(DecimalValue(part[..|part| - 1]))
    ensures DecimalValue(part) >= 10 && part == Decimal(DecimalValue(part))
  {
    hide Decimal, DecimalValue;
    var front, last := part[..|part| - 1], part[|part| - 1];
    ValueGrows(part);
    DecimalGrows(DecimalValue(front), last - 0x30, DecimalValue(part));
    assert part == front + [last];
  }

  lemma {:induction false} DigitsAreDecimal(part: Text)
    requires part != [] && (forall c | c in part :: IsDigit(c)) && (|part| > 1 ==> part[0] != 0x30)
    ensures DecimalValue(part) >= 0 && part == Decimal(DecimalValue(part))
    ensures part[0] != 0x30 ==> DecimalValue(part) > 0
    decreases |part|
  {
    hide Decimal, DecimalValue;
    assert part[0] in part && part[|part| - 1] in part;
    if |part| == 1 {
      OneDigit(part);
    } else {
      var front := part[..|part| - 1];
      assert forall c | c in front :: c in part;
      DigitsAreDecimal(front);
      MoreDigits(part);
    }
  }

  lemma {:induction false} DecimalIsDigits(n: nat)
    ensures var part := Decimal(n);
      && (forall c | c in part :: IsDigit(c)) && (n > 0 ==> part[0] != 0x30) && DecimalValue(part) == n
      && (n < 10 ==> |part| == 1) && (n < 100 ==> |part| <= 2) && (n < 1000 ==> |part| <= 3)
  {
    var part := Decimal(n);
    if n < 10 {
      assert part[..0] == [];
    } else {
      DecimalIsDigits(n / 10);
      assert part[..|part| - 1] == Decimal(n / 10);
    }
  }

  lemma NoLeadingZero(n: nat)
    ensures |Decimal(n)| > 1 ==> n > 0
  {
  }

  lemma DecimalIsOctet(n: byte)
    ensures IsOctet(Decimal(n))
  {
    hide Decimal, DecimalValue;
    DecimalIsDigits(n);
    NoLeadingZero(n);
  }

  /** One part of an IPv4 address: exactly the numbers up to 255, as they are printed. */
  lemma OctetLaw(part: Text)
    ensures IsOctet(part) <==> exists n: byte :: part == Decimal(n)
  {
    hide Decimal, DecimalValue;
    if IsOctet(part) {
      DigitsAreDecimal(part);
      var n: byte := DecimalValue(part);
    }
    forall n: byte | part == Decimal(n) ensures IsOctet(part) { DecimalIsOctet(n); }
  }

  /** Four numbers with dots between them. */
  function Dotted(a: byte, b: byte, c: byte, d: byte): Text {
    Decimal(a) + [DOT] + (Decimal(b) + [DOT] + (Decimal(c) + [DOT] + Decimal(d)))
  }

  function Four(a: byte, b: byte, c: byte, d: byte): seq<Text> { [Decimal(a), Decimal(b), Decimal(c), Decimal(d)] }

  lemma DottedJoins(a: byte, b: byte, c: byte, d: byte)
    ensures JoinWith(Four(a, b, c, d), DOT) == Dotted(a, b, c, d)
  {
    hide Decimal;
    var x, y, z, w := Decimal(a), Decimal(b), Decimal(c), Decimal(d);
    assert [z, w][1..] == [w] && JoinWith([z, w], DOT) == z + [DOT] + w;
    assert [y, z, w][1..] == [z, w] && JoinWith([y, z, w], DOT) == y + [DOT] + (z + [DOT] + w);
    assert [x, y, z, w][1..] == [y, z, w];
  }

  lemma DottedSplits(a: byte, b: byte, c: byte, d: byte)
    ensures SplitOn(Dotted(a, b, c, d), DOT) == Four(a, b, c, d)
  {
    hide Decimal, SplitOn, JoinWith, Dotted;
    forall p | p in Four(a, b, c, d) ensures DOT !in p {
      var n: byte :| n in [a, b, c, d] && p == Decimal(n);
      DecimalIsDigits(n);
    }
    SplitOfJoin(Four(a, b, c, d), DOT);
    DottedJoins(a, b, c, d);
  }

  /** An IPv4 address is four numbers from 0 to 255 with dots between them, and nothing else. */
  lemma IPv4Law(value: Text)
    ensures IsValidIPv4(value) <==> exists a: byte, b: byte, c: byte, d: byte :: value == Dotted(a, b, c, d)
  {
    hide IsOctet, Decimal, SplitOn, Dotted;
    var parts := SplitOn(value, DOT);
    if IsValidIPv4(value) {
      forall p | p in parts ensures exists n: byte :: p == Decimal(n) { OctetLaw(p); }
      assert parts[0] in parts && parts[1] in parts && parts[2] in parts && parts[3] in parts;
      var a: byte :| parts[0] == Decimal(a);
      var b: byte :| parts[1] == Decimal(b);
      var c: byte :| parts[2] == Decimal(c);
      var d: byte :| parts[3] == Decimal(d);
      assert parts == Four(a, b, c, d);
      DottedJoins(a, b, c, d);
      JoinOfSplit(value, DOT);
    }
    forall a: byte, b: byte, c: byte, d: byte | value == Dotted(a, b, c, d) ensures IsValidIPv4(value) {
      DottedSplits(a, b, c, d);
      FourOctets(a, b, c, d);
    }
  }

  lemma FourOctets(a: byte, b: byte, c: byte, d: byte)
    ensures forall p | p in Four(a, b, c, d) :: IsOctet(p)
  {
    hide IsOctet, Decimal;
    DecimalIsOctet(a);
    DecimalIsOctet(b);
    DecimalIsOctet(c);
    DecimalIsOctet(d);
  }

  // --------------------------------------------------------- parts and colons

  predicate AreHex(gs: seq<Text>) { forall g | g in gs :: IsHexGroup(g) }

  predicate HexOrEmpty(ps: seq<Text>) { forall p | p in ps :: p == [] || IsHexGroup(p) }

  /** The double colons, seen from the parts between the colons: empty parts that are neither first nor last. */
  function Doubles(ps: seq<Text>): nat
    decreases |ps|
  {
    if |ps| < 3 then 0 else if ps[1] == [] then 1 + Doubles(ps[2..]) else Doubles(ps[1..])
  }

  lemma {:induction false} PartHasNoDouble(p: Text, r: Text)
    requires COLON !in p
    ensures DoubleColons(p + r) == DoubleColons(r)
  {
    if p == [] {
      assert p + r == r;
    } else {
      assert p[0] in p && forall c | c in p[1..] :: c in p;
      PartHasNoDouble(p[1..], r);
      assert (p + r)[1..] == p[1..] + r;
    }
  }

  lemma OneColon(r: Text)
    requires r == [] || r[0] != COLON
    ensures DoubleColons([COLON] + r) == DoubleColons(r)
  {
    assert ([COLON] + r)[1..] == r;
  }

  lemma TwoColons(r: Text)
    ensures DoubleColons([COLON] + ([COLON] + r)) == 1 + DoubleColons(r)
  {
    assert ([COLON] + ([COLON] + r))[2..] == r;
  }

  lemma JoinUnfolds(ps: seq<Text>)
    requires |ps| > 1
    ensures JoinWith(ps, COLON) == ps[0] + ([COLON] + JoinWith(ps[1..], COLON))
  {
    assert ps[0] + [COLON] + JoinWith(ps[1..], COLON) == ps[0] + ([COLON] + JoinWith(ps[1..], COLON));
  }

  lemma JoinOne(p: Text)
    ensures JoinWith([p], COLON) == p
  {
  }

  predicate NoColons(ps: seq<Text>) { forall p | p in ps :: COLON !in p }

  lemma JoinStarts(ps: seq<Text>)
    requires ps != [] && NoColons(ps) && (|ps| == 1 || ps[0] != [])
    ensures var r := JoinWith(ps, COLON); r == [] || r[0] != COLON
  {
    assert ps[0] in ps;
    if |ps| > 1 { assert JoinWith(ps, COLON)[0] == ps[0][0]; }
  }

  /** The pairs of colons in a text are its inner empty parts, two in a row counting once. */
  lemma {:induction false} DoublesAreCounted(ps: seq<Text>)
    requires ps != [] && NoColons(ps)
    ensures DoubleColons(JoinWith(ps, COLON)) == Doubles(ps)
    decreases |ps|
  {
    hide DoubleColons, JoinWith, Doubles;
    assert ps[0] in ps && forall p | p in ps[1..] :: p in ps;
    DoublesCases(ps);
    if |ps| == 1 {
      NothingDouble();
      JoinOne(ps[0]);
      assert ps == [ps[0]] && ps[0] + [] == ps[0];
      PartHasNoDouble(ps[0], []);
    } else {
      var r := JoinWith(ps[1..], COLON);
      JoinUnfolds(ps);
      PartHasNoDouble(ps[0], [COLON] + r);
      if |ps| > 2 && ps[1] == [] {
        JoinUnfolds(ps[1..]);
        assert ps[1..][1..] == ps[2..] && forall p | p in ps[2..] :: p in ps;
        assert r == [COLON] + JoinWith(ps[2..], COLON);
        TwoColons(JoinWith(ps[2..], COLON));
        DoublesAreCounted(ps[2..]);
      } else {
        JoinStarts(ps[1..]);
        OneColon(r);
        DoublesAreCounted(ps[1..]);
        DoublesCases(ps[1..]);
      }
    }
  }

  lemma NothingDouble()
    ensures DoubleColons([]) == 0
  {
  }

  lemma DoublesCases(ps: seq<Text>)
    ensures |ps| < 3 ==> Doubles(ps) == 0
    ensures |ps| >= 3 && ps[1] == [] ==> Doubles(ps) == 1 + Doubles(ps[2..])
    ensures |ps| >= 3 && ps[1] != [] ==> Doubles(ps) == Doubles(ps[1..])
  {
  }

  // ------------------------------------------------------- the check, by parts

  /** What the check asks of the parts between the colons. */
  predicate Accepted(ps: seq<Text>) {
    HexOrEmpty(ps) && if Doubles(ps) > 0 then Doubles(ps) == 1 && |ps| <= 8 else |ps| == 8
  }

  lemma {:induction false} SplitAppend(w: Text, r: Text)
    ensures SplitOn(w + [COLON] + r, COLON) == SplitOn(w, COLON) + SplitOn(r, COLON)
    decreases |w|
  {
    hide SplitOn;
    SplitCases(w);
    var i := IndexOf(w, COLON);
    if i == |w| {
      SplitFirst(w, COLON, r);
    } else {
      var rest := w[i + 1..];
      SplitAppend(rest, r);
      SplitFirst(w[..i], COLON, rest + [COLON] + r);
      assert w == w[..i] + [COLON] + rest;
      assert w + [COLON] + r == w[..i] + [COLON] + (rest + [COLON] + r);
      var x, y := SplitOn(rest, COLON), SplitOn(r, COLON);
      assert [w[..i]] + x + y == [w[..i]] + (x + y);
    }
  }

  lemma SplitCases(w: Text)
    ensures var i := IndexOf(w, COLON);
      && COLON !in w[..i]
      && SplitOn(w, COLON) == if i == |w| then [w] else [w[..i]] + SplitOn(w[i + 1..], COLON)
  {
    var i := IndexOf(w, COLON);
    assert forall k | 0 <= k < i :: w[..i][k] == w[k];
  }

  lemma SplitNothing()
    ensures SplitOn([], COLON) == [[]]
  {
  }

  lemma SplitFront(w: Text)
    ensures SplitOn([COLON, COLON] + w, COLON) == [[], []] + SplitOn(w, COLON)
  {
    hide SplitOn;
    SplitNothing();
    SplitAppend([], w);
    SplitAppend([], [COLON] + w);
    assert [] + [COLON] + w == [COLON] + w;
    assert [] + [COLON] + ([COLON] + w) == [COLON, COLON] + w;
    assert [[]] + ([[]] + SplitOn(w, COLON)) == [[], []] + SplitOn(w, COLON);
  }

  lemma SplitBack(w: Text)
    ensures SplitOn(w + [COLON, COLON], COLON) == SplitOn(w, COLON) + [[], []]
  {
    hide SplitOn;
    SplitNothing();
    SplitAppend(w, [COLON]);
    SplitAppend([], []);
    assert [] + [COLON] + [] == [COLON];
    assert w + [COLON] + [COLON] == w + [COLON, COLON];
  }

  lemma EmptyPartsAreFine(ps: seq<Text>)
    ensures HexOrEmpty([[], []] + ps) <==> HexOrEmpty(ps)
    ensures HexOrEmpty(ps + [[], []]) <==> HexOrEmpty(ps)
    ensures HexOrEmpty([[]])
  {
    hide IsHexGroup;
    assert forall p | p in ps :: p in [[], []] + ps && p in ps + [[], []];
  }

  /** Cutting a double colon off either end changes nothing about the parts. */
  lemma EndsDoNotMatter(text: Text)
    ensures WithoutEnds(text) == [] || HexOrEmpty(SplitOn(WithoutEnds(text), COLON))
       <==> HexOrEmpty(SplitOn(text, COLON))
  {
    hide SplitOn, HexOrEmpty;
    var t1 := if |text| >= 2 && text[0] == COLON && text[1] == COLON then text[2..] else text;
    if t1 != text {
      assert text == [COLON, COLON] + t1;
      SplitFront(t1);
      EmptyPartsAreFine(SplitOn(t1, COLON));
    }
    var t2 := WithoutEnds(text);
    if t2 != t1 {
      assert t1 == t2 + [COLON, COLON];
      SplitBack(t2);
      EmptyPartsAreFine(SplitOn(t2, COLON));
    }
    SplitNothing();
    EmptyPartsAreFine([]);
  }

  lemma GroupsByParts(text: Text)
    ensures AreValidGroups(text) <==> Accepted(SplitOn(text, COLON))
  {
    hide SplitOn, WithoutEnds, IsHexGroup, DoubleColons, Doubles, JoinWith;
    EndsDoNotMatter(text);
    PiecesOf(text, COLON);
    JoinOfSplit(text, COLON);
    DoublesAreCounted(SplitOn(text, COLON));
  }

  // ------------------------------------------------------------- standard forms

  /** An empty part that is not half of a double colon. */
  predicate Stray(ps: seq<Text>)
    requires ps != []
  {
    || (ps[0] == [] && !(|ps| >= 3 && ps[1] == []))
    || (ps[|ps| - 1] == [] && !(|ps| >= 3 && ps[|ps| - 2] == []))
    || exists i | 0 < i < |ps| - 2 :: ps[i] == [] && ps[i + 1] == []
  }

  function Groups(ps: seq<Text>): nat { if ps == [] then 0 else (if ps[0] == [] then 0 else 1) + Groups(ps[1..]) }

  /** What the check lets through and the grammar does not: stray colons, and more than six groups beside `::`. */
  predicate Loose(ps: seq<Text>)
    requires ps != []
  {
    Stray(ps) || (Doubles(ps) > 0 && Groups(ps) > 6)
  }

  /** `IPv6-full` */
  ghost predicate IsFull(v: Text) { exists gs: seq<Text> :: |gs| == 8 && AreHex(gs) && v == JoinWith(gs, COLON) }

  function Compressed(a: seq<Text>, b: seq<Text>): Text { JoinWith(a, COLON) + [COLON, COLON] + JoinWith(b, COLON) }

  /** `IPv6-comp` */
  ghost predicate IsCompressed(v: Text) {
    exists a: seq<Text>, b: seq<Text> :: AreHex(a) && AreHex(b) && |a| + |b| <= 6 && v == Compressed(a, b)
  }

  function Half(a: seq<Text>): seq<Text> { if a == [] then [[]] else a }

  /** The parts of a compressed address. */
  function Halves(a: seq<Text>, b: seq<Text>): seq<Text> { Half(a) + [[]] + Half(b) }

  lemma HexHasNoColon(gs: seq<Text>)
    requires AreHex(gs)
    ensures NoColons(gs) && forall g | g in gs :: g != []
  {
    forall g | g in gs ensures COLON !in g && g != [] {
      assert IsHexGroup(g);
    }
  }

  lemma SplitHalf(a: seq<Text>)
    requires AreHex(a)
    ensures SplitOn(JoinWith(a, COLON), COLON) == Half(a)
  {
    hide SplitOn, IsHexGroup;
    HexHasNoColon(a);
    if a == [] { SplitNothing(); } else { SplitOfJoin(a, COLON); }
  }

  lemma SplitHalves(a: seq<Text>, b: seq<Text>)
    requires AreHex(a) && AreHex(b)
    ensures SplitOn(Compressed(a, b), COLON) == Halves(a, b)
  {
    hide SplitOn, JoinWith, AreHex, Half;
    var x, y := JoinWith(a, COLON), JoinWith(b, COLON);
    SplitHalf(a);
    SplitHalf(b);
    SplitNothing();
    SplitAppend([], y);
    SplitAppend(x, [COLON] + y);
    assert [] + [COLON] + y == [COLON] + y;
    assert x + [COLON] + ([COLON] + y) == Compressed(a, b);
    assert Half(a) + ([[]] + Half(b)) == Halves(a, b);
  }

  /** No inner part is empty. */
  predicate InnerFull(ps: seq<Text>) { forall i | 0 < i < |ps| - 1 :: ps[i] != [] }

  lemma {:induction false} NoDoubles(ps: seq<Text>)
    ensures Doubles(ps) == 0 <==> InnerFull(ps)
    decreases |ps|
  {
    if |ps| < 3 {
    } else if ps[1] == [] {
      assert !InnerFull(ps);
    } else {
      NoDoubles(ps[1..]);
      if InnerFull(ps[1..]) {
        forall i | 0 < i < |ps| - 1 ensures ps[i] != [] {
          if i > 1 { assert ps[i] == ps[1..][i - 1]; }
        }
      }
      if InnerFull(ps) {
        assert forall i | 0 < i < |ps[1..]| - 1 :: ps[1..][i] == ps[i + 1];
      }
    }
  }

  lemma {:induction false} OneDouble(a: seq<Text>, b: seq<Text>)
    requires a != [] && b != [] && (forall i | 0 < i < |a| :: a[i] != []) && InnerFull(b)
    ensures Doubles(a + [[]] + b) == 1
    decreases |a|
  {
    hide Doubles;
    var ps := a + [[]] + b;
    DoublesCases(ps);
    if |a| == 1 {
      assert ps[2..] == b;
      NoDoubles(b);
    } else {
      assert ps[1] == a[1] && ps[1..] == a[1..] + [[]] + b;
      OneDouble(a[1..], b);
    }
  }

  lemma {:induction false} GroupsAppend(a: seq<Text>, b: seq<Text>)
    ensures Groups(a + b) == Groups(a) + Groups(b)
  {
    if a == [] {
      assert a + b == b;
    } else {
      assert (a + b)[1..] == a[1..] + b;
      GroupsAppend(a[1..], b);
    }
  }

  lemma {:induction false} AllGroups(gs: seq<Text>)
    requires forall g | g in gs :: g != []
    ensures Groups(gs) == |gs|
  {
    if gs == [] {
    } else {
      assert gs[0] in gs && forall g | g in gs[1..] :: g in gs;
      AllGroups(gs[1..]);
    }
  }

  lemma GroupsOfHalf(a: seq<Text>)
    requires AreHex(a)
    ensures Groups(Half(a)) == |a| && Half(a) != []
    ensures forall i | 0 < i < |Half(a)| :: Half(a)[i] != []
    ensures Half(a)[0] == [] <==> a == []
    ensures HexOrEmpty(Half(a))
  {
    hide IsHexGroup;
    HexHasNoColon(a);
    AllGroups(a);
    if a == [] { NoGroup(); }
    assert forall i | 0 <= i < |a| :: a[i] in a;
  }

  lemma HalvesFacts(a: seq<Text>, b: seq<Text>)
    requires AreHex(a) && AreHex(b)
    ensures Doubles(Halves(a, b)) == 1 && HexOrEmpty(Halves(a, b)) && Groups(Halves(a, b)) == |a| + |b|
    ensures |Halves(a, b)| == |Half(a)| + 1 + |Half(b)|
  {
    hide Doubles, Groups, IsHexGroup, Half;
    GroupsOfHalf(a);
    GroupsOfHalf(b);
    OneDouble(Half(a), Half(b));
    GroupsAppend(Half(a) + [[]], Half(b));
    GroupsAppend(Half(a), [[]]);
    NoGroup();
  }

  lemma NoGroup()
    ensures Groups([[]]) == 0
  {
    var one: seq<Text> := [[]];
    assert one[1..] == [];
  }

  lemma HalvesNotStray(a: seq<Text>, b: seq<Text>)
    requires AreHex(a) && AreHex(b)
    ensures !Stray(Halves(a, b))
  {
    hide IsHexGroup, Groups;
    HexHasNoColon(a);
    HexHasNoColon(b);
    var ps, n := Halves(a, b), |Half(a)|;
    assert ps[n] == [] && |ps| >= 3;
    if a != [] { assert ps[0] == a[0] && a[0] in a; }
    if b != [] { assert ps[|ps| - 1] == b[|b| - 1] && b[|b| - 1] in b; }
    forall i | 0 < i < |ps| - 2 ensures ps[i] != [] || ps[i + 1] != [] {
      if i < n {
        assert ps[i] == a[i] && a[i] in a;
      } else if i == n {
        assert ps[i + 1] == b[0] && b[0] in b;
      } else {
        assert ps[i] == b[i - n - 1] && b[i - n - 1] in b;
      }
    }
  }

  /** Where the one double colon is. */
  lemma {:induction false} FindDouble(ps: seq<Text>) returns (k: nat)
    requires Doubles(ps) > 0
    ensures 0 < k < |ps| - 1 && ps[k] == [] && (forall i | 0 < i < k :: ps[i] != [])
    ensures Doubles(ps) == 1 + Doubles(ps[k + 1..])
    decreases |ps|
  {
    hide Doubles;
    DoublesCases(ps);
    if ps[1] == [] {
      k := 1;
    } else {
      var j := FindDouble(ps[1..]);
      k := j + 1;
      assert ps[1..][j + 1..] == ps[k + 1..];
      forall i | 0 < i < k ensures ps[i] != [] {
        if i > 1 { assert ps[i] == ps[1..][i - 1]; }
      }
    }
  }

  /** Beside the one double colon of parts that hold no stray colon, all parts are groups. */
  lemma CutAtDouble(ps: seq<Text>, k: nat)
    requires 0 < k < |ps| - 1 && ps[k] == [] && (forall i | 0 < i < k :: ps[i] != [])
    requires InnerFull(ps[k + 1..]) && !Stray(ps)
    ensures ps[0] == [] ==> k == 1
    ensures ps[|ps| - 1] == [] ==> k == |ps| - 2
    ensures forall i | k < i < |ps| - 1 :: ps[i] != []
  {
    assert k > 1 ==> ps[1] != [];
    forall i | k < i < |ps| - 1 ensures ps[i] != [] {
      if i == k + 1 { assert !(ps[k] == [] && ps[k + 1] == []); } else { assert ps[i] == ps[k + 1..][i - k - 1]; }
    }
  }

  lemma HalvesOf(ps: seq<Text>) returns (a: seq<Text>, b: seq<Text>)
    requires ps != [] && Doubles(ps) == 1 && HexOrEmpty(ps) && !Stray(ps)
    ensures AreHex(a) && AreHex(b) && ps == Halves(a, b)
  {
    hide Doubles, IsHexGroup, Stray;
    var k := FindDouble(ps);
    NoDoubles(ps[k + 1..]);
    CutAtDouble(ps, k);
    a := if ps[0] == [] then [] else ps[..k];
    b := if ps[|ps| - 1] == [] then [] else ps[k + 1..];
    assert ps == ps[..k] + [ps[k]] + ps[k + 1..];
    assert ps[0] == [] ==> ps[..k] == [[]];
    assert ps[|ps| - 1] == [] ==> ps[k + 1..] == [[]];
    forall g | g in a ensures IsHexGroup(g) {
      var i :| 0 <= i < k && g == ps[i];
      assert ps[i] in ps && ps[i] != [];
    }
    forall g | g in b ensures IsHexGroup(g) {
      var i :| 0 <= i < |b| && g == b[i];
      assert g == ps[k + 1 + i] && ps[k + 1 + i] in ps && g != [];
    }
  }

  /** Eight parts without an empty one. */
  lemma FullParts(ps: seq<Text>)
    requires ps != [] && Doubles(ps) == 0 && HexOrEmpty(ps) && !Stray(ps)
    ensures AreHex(ps)
  {
    hide Doubles, IsHexGroup;
    NoDoubles(ps);
    forall g | g in ps ensures IsHexGroup(g) {
      var i :| 0 <= i < |ps| && g == ps[i];
    }
  }

  lemma FullFacts(gs: seq<Text>)
    requires AreHex(gs) && gs != []
    ensures Doubles(gs) == 0 && HexOrEmpty(gs) && !Stray(gs)
  {
    hide Doubles, IsHexGroup;
    HexHasNoColon(gs);
    forall i | 0 <= i < |gs| ensures gs[i] != [] { assert gs[i] in gs; }
    NoDoubles(gs);
  }

  lemma FullIsAccepted(v: Text, gs: seq<Text>)
    requires |gs| == 8 && AreHex(gs) && v == JoinWith(gs, COLON)
    ensures var ps := SplitOn(v, COLON); Accepted(ps) && !Loose(ps)
  {
    hide SplitOn, JoinWith, Doubles, IsHexGroup, Stray, Groups, HexOrEmpty;
    SplitHalf(gs);
    FullFacts(gs);
  }

  lemma CompressedIsAccepted(v: Text, a: seq<Text>, b: seq<Text>)
    requires AreHex(a) && AreHex(b) && |a| + |b| <= 6 && v == Compressed(a, b)
    ensures var ps := SplitOn(v, COLON); Accepted(ps) && !Loose(ps)
  {
    hide SplitOn, JoinWith, Doubles, IsHexGroup, Stray, Groups, HexOrEmpty, Halves, Compressed;
    SplitHalves(a, b);
    HalvesFacts(a, b);
    HalvesNotStray(a, b);
  }

  lemma AcceptedIsStandard(v: Text)
    requires var ps := SplitOn(v, COLON); Accepted(ps) && !Loose(ps)
    ensures IsFull(v) || IsCompressed(v)
  {
    hide SplitOn, JoinWith, Doubles, IsHexGroup, Stray, Groups, HexOrEmpty, Halves, Compressed;
    var ps := SplitOn(v, COLON);
    JoinOfSplit(v, COLON);
    if Doubles(ps) == 0 {
      FullParts(ps);
    } else {
      var a, b := HalvesOf(ps);
      HalvesFacts(a, b);
      SplitHalves(a, b);
      JoinOfSplit(Compressed(a, b), COLON);
    }
  }

  lemma NoDotNoIPv4(v: Text)
    requires DOT !in v
    ensures IsValidIPv6(v) <==> v != [] && AreValidGroups(v)
  {
    hide AreValidGroups, IsValidIPv4;
    assert AfterLast(v, DOT) == 0;
  }

  /**
   * Without dots the check accepts every address of the two standard forms, and
   * besides them exactly the loose ones among what it accepts.
   */
  lemma HexFormIsExact(v: Text)
    requires DOT !in v
    ensures IsFull(v) || IsCompressed(v) <==> IsValidIPv6(v) && !Loose(SplitOn(v, COLON))
  {
    hide SplitOn, JoinWith, AreHex, IsHexGroup, Loose, Accepted, IsValidIPv6, AreValidGroups, Compressed;
    NoDotNoIPv4(v);
    GroupsByParts(v);
    NothingAccepted();
    if IsFull(v) {
      var gs: seq<Text> :| |gs| == 8 && AreHex(gs) && v == JoinWith(gs, COLON);
      FullIsAccepted(v, gs);
    }
    if IsCompressed(v) {
      var a: seq<Text>, b: seq<Text> :| AreHex(a) && AreHex(b) && |a| + |b| <= 6 && v == Compressed(a, b);
      CompressedIsAccepted(v, a, b);
    }
    if IsValidIPv6(v) && !Loose(SplitOn(v, COLON)) { AcceptedIsStandard(v); }
  }

  lemma NothingAccepted()
    ensures !Accepted(SplitOn([], COLON))
  {
    SplitNothing();
  }

  // ------------------------------------------------------------- embedded IPv4

  const ZERO: Text := [0x30]

  lemma ZeroIsHex()
    ensures IsHexGroup(ZERO) && COLON !in ZERO && DOT !in ZERO
  {
  }

  /** The last part does not matter to the double colons. */
  lemma {:induction false} LastDoesNotMatter(ps: seq<Text>, x: Text, y: Text)
    ensures Doubles(ps + [x]) == Doubles(ps + [y])
    decreases |ps|
  {
    hide Doubles;
    DoublesCases(ps + [x]);
    DoublesCases(ps + [y]);
    if |ps| >= 2 {
      assert (ps + [x])[1..] == ps[1..] + [x] && (ps + [y])[1..] == ps[1..] + [y];
      assert (ps + [x])[2..] == ps[2..] + [x] && (ps + [y])[2..] == ps[2..] + [y];
      LastDoesNotMatter(ps[1..], x, y);
      LastDoesNotMatter(ps[2..], x, y);
    }
  }

  lemma LastIsFine(ps: seq<Text>, x: Text)
    requires x == [] || IsHexGroup(x)
    ensures HexOrEmpty(ps + [x]) <==> HexOrEmpty(ps)
  {
    hide IsHexGroup;
    assert forall p | p in ps :: p in ps + [x];
  }

  /** Behind the last colon, nothing and a zero come to the same. */
  lemma ZeroStandsIn(g: Text)
    requires g != [] && g[|g| - 1] == COLON
    ensures AreValidGroups(g) <==> AreValidGroups(g + ZERO)
  {
    hide AreValidGroups, SplitOn, Doubles, IsHexGroup, HexOrEmpty;
    GroupsByParts(g);
    GroupsByParts(g + ZERO);
    var front := g[..|g| - 1];
    assert g == front + [COLON] + [] && g + ZERO == front + [COLON] + ZERO;
    ZeroIsHex();
    SplitNothing();
    SplitFirst(ZERO, COLON, []);
    SplitAppend(front, []);
    SplitAppend(front, ZERO);
    var ps := SplitOn(front, COLON);
    LastDoesNotMatter(ps, [], ZERO);
    LastIsFine(ps, []);
    LastIsFine(ps, ZERO);
  }

  lemma AfterLastIs(s: Text, c: CodePoint, i: nat)
    requires 0 < i <= |s| && s[i - 1] == c && forall k | i <= k < |s| :: s[k] != c
    ensures AfterLast(s, c) == i
  {
    assert AfterLast(s, c) <= i by { assert forall k | i <= k < |s| :: s[k] != c; }
  }

  lemma DotInside(q: Text)
    requires IsValidIPv4(q)
    ensures DOT in q && COLON !in q
  {
    IPv4Chars(q);
    if DOT !in q { SplitFirst(q, DOT, []); }
  }

  lemma Embedded(g: Text, q: Text)
    requires g != [] && g[|g| - 1] == COLON && IsValidIPv4(q)
    ensures IsValidIPv6(g + q) <==> AreValidGroups(g)
  {
    hide IsValidIPv4, AreValidGroups;
    DotInside(q);
    var v := g + q;
    assert forall k | |g| <= k < |v| :: v[k] == q[k - |g|];
    AfterLastIs(v, COLON, |g|);
    var d :| 0 <= d < |q| && q[d] == DOT;
    assert v[|g| + d] == DOT;
    assert AfterLast(v, DOT) > |g|;
    assert v[..|g|] == g && v[|g|..] == q;
  }

  lemma ZeroBehind(g: Text)
    requires g != [] && g[|g| - 1] == COLON
    ensures IsValidIPv6(g + ZERO) <==> AreValidGroups(g + ZERO)
  {
    hide IsValidIPv4, AreValidGroups;
    var v := g + ZERO;
    ZeroIsHex();
    if DOT in v {
      if AreValidGroups(v) {
        GroupChars(v);
        DotIsNoDigit();
        assert false;
      }
      AfterLastIs(v, COLON, |g|);
      var d :| 0 <= d < |v| && v[d] == DOT;
      assert 0 < AfterLast(v, DOT) < |g| by { assert v[|g|] == 0x30 && v[|g| - 1] == COLON; }
    } else {
      assert AfterLast(v, DOT) == 0;
    }
  }

  lemma DotIsNoDigit()
    ensures !IsHexDigit(DOT) && DOT != COLON
  {
  }

  /** An embedded IPv4 address counts as one group, although it stands for two. */
  lemma EmbeddedCountsOnce(g: Text, q: Text)
    requires g != [] && g[|g| - 1] == COLON && IsValidIPv4(q)
    ensures IsValidIPv6(g + q) <==> IsValidIPv6(g + ZERO)
  {
    hide IsValidIPv4, AreValidGroups, IsValidIPv6;
    Embedded(g, q);
    ZeroBehind(g);
    ZeroStandsIn(g);
  }

  lemma NoGroups()
    ensures !AreValidGroups([])
  {
    hide SplitOn;
    GroupsByParts([]);
    SplitNothing();
  }

  /** Every accepted address with a dot in it is such a text. */
  lemma EmbeddedForm(v: Text)
    requires DOT in v && IsValidIPv6(v)
    ensures var n := AfterLast(v, COLON); n > 0 && v[n - 1] == COLON && IsValidIPv4(v[n..]) && v == v[..n] + v[n..]
  {
    hide IsValidIPv4, AreValidGroups;
    var n := AfterLast(v, COLON);
    var d :| 0 <= d < |v| && v[d] == DOT;
    assert AfterLast(v, DOT) > 0;
    NoGroups();
    assert v[..0] == [];
  }

  /** `IPv6v4-full` has six groups in front of the IPv4 address; the check wants seven. */
  lemma EmbeddedFull(gs: seq<Text>, q: Text)
    requires gs != [] && AreHex(gs) && IsValidIPv4(q)
    ensures IsValidIPv6(JoinWith(gs, COLON) + [COLON] + q) <==> |gs| == 7
  {
    hide IsValidIPv4, AreValidGroups, IsValidIPv6, JoinWith, SplitOn, Doubles, IsHexGroup, HexOrEmpty;
    var front := JoinWith(gs, COLON);
    var g := front + [COLON];
    Embedded(g, q);
    GroupsByParts(g);
    assert g == front + [COLON] + [];
    SplitNothing();
    SplitAppend(front, []);
    SplitHalf(gs);
    LastIsFine(gs, []);
    FullFacts(gs);
    InnerFullWithLast(gs);
  }

  lemma InnerFullWithLast(gs: seq<Text>)
    requires AreHex(gs)
    ensures Doubles(gs + [[]]) == 0
  {
    hide Doubles, IsHexGroup;
    HexHasNoColon(gs);
    var ps := gs + [[]];
    forall i | 0 < i < |ps| - 1 ensures ps[i] != [] { assert ps[i] == gs[i] && gs[i] in gs; }
    NoDoubles(ps);
  }

  /** `IPv6v4-comp` has up to four groups beside the double colon; the check allows six. */
  lemma EmbeddedCompressed(a: seq<Text>, b: seq<Text>, q: Text)
    requires AreHex(a) && AreHex(b) && IsValidIPv4(q)
    ensures var g := Compressed(a, b) + if b == [] then [] else [COLON];
      IsValidIPv6(g + q) <==> (if a == [] then 1 else |a|) + |b| <= 6
  {
    hide IsValidIPv4, AreValidGroups, IsValidIPv6, SplitOn, Doubles, IsHexGroup, HexOrEmpty, JoinWith;
    var g, c := Compressed(a, b) + if b == [] then [] else [COLON], b + [ZERO];
    ZeroIsHex();
    HexGrows(b);
    JoinLast(b);
    assert g[|g| - 1] == COLON;
    EmbeddedCountsOnce(g, q);
    ZeroBehind(g);
    assert g + ZERO == Compressed(a, c);
    GroupsByParts(g + ZERO);
    SplitHalves(a, c);
    HalvesFacts(a, c);
  }

  lemma HexGrows(b: seq<Text>)
    requires AreHex(b)
    ensures AreHex(b + [ZERO])
  {
    hide IsHexGroup;
    ZeroIsHex();
  }

  /** One more group at the end of a list. */
  lemma {:induction false} JoinLast(b: seq<Text>)
    ensures JoinWith(b + [ZERO], COLON) == JoinWith(b, COLON) + (if b == [] then [] else [COLON]) + ZERO
    ensures b == [] ==> JoinWith(b, COLON) == []
  {
    if |b| == 0 {
      assert b + [ZERO] == [ZERO];
    } else if |b| == 1 {
      assert (b + [ZERO])[1..] == [ZERO];
    } else {
      assert (b + [ZERO])[1..] == b[1..] + [ZERO];
      JoinLast(b[1..]);
    }
  }

  // ------------------------------------------------------------ what slips through

  lemma PartsAreAccepted(ps: seq<Text>)
    requires ps != [] && Accepted(ps) && Loose(ps)
    ensures var v := JoinWith(ps, COLON); IsValidIPv6(v) && !IsFull(v) && !IsCompressed(v)
  {
    hide SplitOn, JoinWith, Doubles, IsHexGroup, Stray, Groups, IsFull, IsCompressed, AreValidGroups;
    forall p | p in ps ensures COLON !in p && DOT !in p { PartHasNoMark(p); }
    SplitOfJoin(ps, COLON);
    var v := JoinWith(ps, COLON);
    NoMarkInJoin(ps);
    GroupsByParts(v);
    NoDotNoIPv4(v);
    NoGroups();
    HexFormIsExact(v);
  }

  lemma PartHasNoMark(p: Text)
    requires p == [] || IsHexGroup(p)
    ensures COLON !in p && DOT !in p
  {
  }

  lemma {:induction false} NoMarkInJoin(ps: seq<Text>)
    requires forall p | p in ps :: DOT !in p
    ensures DOT !in JoinWith(ps, COLON)
  {
    if ps == [] {
    } else {
      assert ps[0] in ps && forall p | p in ps[1..] :: p in ps;
      NoMarkInJoin(ps[1..]);
    }
  }

  /** Three colons and nothing else. */
  lemma ThreeColons()
    ensures var v := Lit(":::"); IsValidIPv6(v) && !IsFull(v) && !IsCompressed(v)
  {
    hide IsValidIPv6, IsFull, IsCompressed;
    var ps: seq<Text> := [[], [], [], []];
    DoublesCases(ps);
    DoublesCases(ps[2..]);
    assert ps[1] == [] && ps[2] == [];
    PartsAreAccepted(ps);
    assert ps[1..] == [[], [], []] && ps[1..][1..] == [[], []] && ps[1..][1..][1..] == [[]];
    assert JoinWith(ps, COLON) == Lit(":::");
  }

  /** Seven groups behind one stray colon. */
  lemma LeadingColon(gs: seq<Text>)
    requires |gs| == 7 && AreHex(gs)
    ensures var v := [COLON] + JoinWith(gs, COLON); IsValidIPv6(v) && !IsFull(v) && !IsCompressed(v)
  {
    hide IsValidIPv6, IsFull, IsCompressed, IsHexGroup, Doubles, JoinWith;
    var ps: seq<Text> := [[]] + gs;
    HexHasNoColon(gs);
    forall i | 0 < i < |ps| ensures ps[i] != [] { assert ps[i] == gs[i - 1] && gs[i - 1] in gs; }
    NoDoubles(ps);
    assert ps[1..] == gs;
    PartsAreAccepted(ps);
    JoinUnfolds(ps);
    assert [] + ([COLON] + JoinWith(gs, COLON)) == [COLON] + JoinWith(gs, COLON);
  }
}
