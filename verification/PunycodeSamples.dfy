/**
 * What the Punycode of `src/internal/idna.ts` is, apart from the agreement of
 * its two halves: the digits of section 5 of RFC 3492, and whole labels with the
 * encodings the standard and the DNS know them by.
 */
module PunycodeSamples {
  import opened Common
  import opened Strings
  import opened Punycode

  // ---------------------------------------------------------------- digits

  const DIGITS: string := "abcdefghijklmnopqrstuvwxyz0123456789"

  /** The digit of value d is character d of the alphabet, a capital reads as its small letter, and there are no others. */
  lemma DigitLaw(d: nat, c: CodePoint)
    requires d < |DIGITS|
    ensures |DIGITS| == BASE && EncodeDigit(d) == DIGITS[d] as int && DecodeDigit(DIGITS[d] as int) == d
    ensures IsUpper(c) ==> DecodeDigit(c) == DecodeDigit(LowerChar(c))
    ensures DecodeDigit(c) >= 0 <==> IsAlnum(c)
  {
    if d < 26 {
      assert DIGITS[d] == ('a' as int + d) as char;
    } else {
      assert DIGITS[d] == ('0' as int + d - 26) as char;
    }
  }

  // ---------------------------------------------------------- one run, traced

  /** Where the encoder of `s` stands, when the first `written` characters of `e` are written. */
  datatype Stage = Stage(j: nat, n: nat, written: nat, delta: nat, bias: nat, handled: nat)

  ghost predicate Stands(s: Text, e: Text, p: Stage) {
    p.j <= |s| && p.written <= |e| && p.handled == HandledAt(s, p.j, p.n)
  }

  /** What the encoder makes of the rest. */
  ghost function Run(s: Text, e: Text, basic: nat, p: Stage): Option<Text> {
    if Stands(s, e, p) then Rest(s, p.j, p.n, Encoder(e[..p.written], p.delta, p.bias, p.handled), basic) else None
  }

  /** How many code points between `j` and `k` are below `n`. */
  function Count(s: Text, j: nat, k: nat, n: nat): nat
    requires k <= |s|
    decreases k - j
  {
    if j >= k then 0 else (if s[j] < n then 1 else 0) + Count(s, j + 1, k, n)
  }

  predicate Free(s: Text, j: nat, k: nat, n: nat)
    requires k <= |s|
    decreases k - j
  {
    j >= k || (s[j] != n && Free(s, j + 1, k, n))
  }

  /** Nothing from `j` on lies between `n` and `next`. */
  predicate Gap(s: Text, j: nat, n: nat, next: nat)
    decreases |s| - j
  {
    j >= |s| || ((s[j] < n || s[j] >= next) && Gap(s, j + 1, n, next))
  }

  lemma {:induction false} CountIs(s: Text, j: nat, k: nat, n: nat)
    requires j <= k <= |s|
    ensures |Below(s[j..k], n)| == Count(s, j, k, n)
    decreases k - j
  {
    if j == k {
    } else {
      CountIs(s, j + 1, k, n);
      assert s[j..k][0] == s[j] && s[j..k][1..] == s[j + 1..k];
    }
  }

  lemma {:induction false} GapIs(s: Text, j: nat, n: nat, next: nat)
    requires Gap(s, j, n, next)
    ensures forall i | j <= i < |s| :: s[i] < n || s[i] >= next
    decreases |s| - j
  {
    if j >= |s| {
    } else {
      GapIs(s, j + 1, n, next);
    }
  }

  /** Up to an occurrence, or the end, the delta counts the smaller code points. */
  lemma {:induction false} GoTo(s: Text, j: nat, at: nat, n: nat, st: Encoder, basic: nat)
    requires j <= at <= |s| && Free(s, j, at, n) && st.handled == HandledAt(s, j, n)
    requires st.delta + Count(s, j, at, n) <= MAX_INT
    ensures st.handled == HandledAt(s, at, n)
    ensures Pass(s, j, n, st, basic) == Pass(s, at, n, st.(delta := st.delta + Count(s, j, at, n)), basic)
    decreases at - j
  {
    hide Insert, Below;
    if j == at {
    } else {
      HandledStep(s, j, n);
      GoTo(s, j + 1, at, n, if s[j] < n then st.(delta := st.delta + 1) else st, basic);
    }
  }

  /** The pass goes on to the next occurrence, at `at`, and writes the digits of the delta. */
  lemma Emits(s: Text, e: Text, basic: nat, p: Stage, at: nat, written: nat, bias: nat)
    requires Stands(s, e, p) && p.j <= at < |s| && s[at] == p.n && Free(s, p.j, at, p.n) && p.written <= written <= |e|
    requires var delta := p.delta + Count(s, p.j, at, p.n);
      && delta <= MAX_INT && e[p.written..written] == Vli(delta, BASE, p.bias)
      && bias == Adapt(delta, p.handled + 1, p.handled == basic)
    ensures var q := Stage(at + 1, p.n, written, 0, bias, p.handled + 1);
      Stands(s, e, q) && Run(s, e, basic, p) == Run(s, e, basic, q)
  {
    hide Below, Passes, Adapt, Vli, Free, Count;
    GoTo(s, p.j, at, p.n, Encoder(e[..p.written], p.delta, p.bias, p.handled), basic);
    HandledStep(s, at, p.n);
    assert e[..p.written] + e[p.written..written] == e[..written];
  }

  /** Behind the last occurrence the next code point is due; it stands at `i`. */
  lemma Moves(s: Text, e: Text, basic: nat, p: Stage, i: nat, next: nat, delta: nat)
    requires Stands(s, e, p) && Free(s, p.j, |s|, p.n) && p.handled < |s|
    requires p.n < next && Gap(s, 0, p.n + 1, next) && i < |s| && s[i] == next
    requires delta == p.delta + Count(s, p.j, |s|, p.n) + 1 + Times(next - p.n - 1, p.handled + 1) <= MAX_INT
    ensures var q := Stage(0, next, p.written, delta, p.bias, p.handled);
      Stands(s, e, q) && Run(s, e, basic, p) == Run(s, e, basic, q)
  {
    hide Below, Adapt, Vli, Times, Passes, Free, Count, Gap, Next;
    var st := Encoder(e[..p.written], p.delta, p.bias, p.handled);
    GoTo(s, p.j, |s|, p.n, st, basic);
    hide Pass;
    IsDue(s, p.n, st.(delta := st.delta + Count(s, p.j, |s|, p.n)), basic, i, next, delta);
  }

  lemma IsDue(s: Text, n: nat, st: Encoder, basic: nat, i: nat, next: nat, delta: nat)
    requires st.handled == HandledAt(s, |s|, n) < |s|
    requires n < next && Gap(s, 0, n + 1, next) && i < |s| && s[i] == next
    requires delta == st.delta + 1 + Times(next - n - 1, st.handled + 1) <= MAX_INT
    ensures st.handled == HandledAt(s, 0, next)
    ensures Rest(s, |s|, n, st, basic) == Rest(s, 0, next, st.(delta := delta), basic)
  {
    hide Below, Adapt, Vli, Times, Passes, Gap, Next, Rest, HandledAt;
    PassIsOver(s, n, st, basic);
    NextIs(s, n + 1, i, next);
    PassesCases(s, n + 1, st.(delta := st.delta + 1), basic);
  }

  lemma NextIs(s: Text, n: nat, i: nat, next: nat)
    requires n <= next && Gap(s, 0, n, next) && i < |s| && s[i] == next
    ensures Next(s, n) == next
  {
    hide Next, Gap;
    GapIs(s, 0, n, next);
    assert s[i] in s;
  }

  lemma PassIsOver(s: Text, n: nat, st: Encoder, basic: nat)
    requires st.handled == HandledAt(s, |s|, n)
    ensures st.handled == |Below(s, n + 1)|
    ensures Rest(s, |s|, n, st, basic) == Passes(s, n + 1, st.(delta := st.delta + 1), basic)
  {
    hide Passes, Below;
    assert s[..|s|] == s && s[|s|..] == [];
    BelowNothing(n);
  }

  /** The first code point beyond ASCII. */
  lemma Starts(s: Text, e: Text, basic: nat, i: nat, next: nat, delta: nat)
    requires WellFormed(s) && Count(s, 0, |s|, INITIAL_N) == basic < |s| && Prefix(s) <= e
    requires INITIAL_N <= next && Gap(s, 0, INITIAL_N, next) && i < |s| && s[i] == next
    requires delta == Times(next - INITIAL_N, basic + 1) <= MAX_INT
    ensures var p := Stage(0, next, |Prefix(s)|, delta, INITIAL_BIAS, basic);
      Stands(s, e, p) && Encode(s) == Run(s, e, basic, p)
  {
    hide Below, Adapt, Vli, Times, Passes, Gap, Next, Count;
    CountIs(s, 0, |s|, INITIAL_N);
    assert s[0..|s|] == s;
    NextIs(s, INITIAL_N, i, next);
    NextIsDue(s, INITIAL_N);
    PassesCases(s, INITIAL_N, Encoder(Prefix(s), 0, INITIAL_BIAS, basic), basic);
    assert e[..|Prefix(s)|] == Prefix(s);
  }

  /** Nothing is left to handle. */
  lemma Ends(s: Text, e: Text, basic: nat, p: Stage)
    requires Stands(s, e, p) && Free(s, p.j, |s|, p.n) && p.handled == |s| && p.written == |e|
    requires p.delta + Count(s, p.j, |s|, p.n) <= MAX_INT
    ensures Run(s, e, basic, p) == Some(e)
  {
    hide Below, Adapt, Vli, Times, Passes, Free, Count, Next;
    var st := Encoder(e[..p.written], p.delta, p.bias, p.handled);
    GoTo(s, p.j, |s|, p.n, st, basic);
    PassIsOver(s, p.n, st.(delta := st.delta + Count(s, p.j, |s|, p.n)), basic);
    PassesCases(s, p.n + 1, st.(delta := st.delta + Count(s, p.j, |s|, p.n) + 1), basic);
    assert e[..|e|] == e;
  }

  // --------------------------------------------------------------- samples

  /** A U-label and its encoding, both ways. */
  predicate Pair(s: Text, e: Text) { Encode(s) == Some(e) && Decode(e) == Some(s) }

  lemma ReadsBack(s: Text, e: Text)
    requires WellFormed(s) && |s| <= MAX_POINTS && Encode(s) == Some(e)
    ensures Pair(s, e)
  {
    hide Encode, Decode;
    RoundTrip(s);
  }

  /** b, u with diaeresis, c, h, e, r. */
  const BUECHER: Text := [0x62, 0xfc, 0x63, 0x68, 0x65, 0x72]
  const BUECHER_ENCODED: Text := Lit("bcher-kva")

  lemma BuecherDigits1()
    ensures Vli(745, BASE, 72) == [0x6b, 0x76, 0x61]
  {
  }

  lemma BuecherBias1()
    ensures Adapt(745, 6, true) == 0
  {
  }

  lemma Buecher1()
    requires Stands(BUECHER, BUECHER_ENCODED, Stage(0, 0xfc, 6, 744, 72, 5))
    ensures Run(BUECHER, BUECHER_ENCODED, 5, Stage(0, 0xfc, 6, 744, 72, 5)) == Some(BUECHER_ENCODED)
  {
    hide Run, Stands, Times, Vli, Adapt;
    BuecherDigits1();
    BuecherBias1();
    assert BUECHER_ENCODED[6..9] == [0x6b, 0x76, 0x61];
    Emits(BUECHER, BUECHER_ENCODED, 5, Stage(0, 0xfc, 6, 744, 72, 5), 1, 9, 0);
    assert Free(BUECHER, 2, 6, 0xfc) && Count(BUECHER, 2, 6, 0xfc) == 4;
    Ends(BUECHER, BUECHER_ENCODED, 5, Stage(2, 0xfc, 9, 0, 0, 6));
  }

  lemma Buecher()
    ensures Pair(BUECHER, BUECHER_ENCODED)
  {
    hide Encode, Run, Stands, Pair, Times;
    TimesIsProduct(124, 6);
    assert Prefix(BUECHER) == BUECHER_ENCODED[..6];
    assert Count(BUECHER, 0, 6, INITIAL_N) == 5;
    Starts(BUECHER, BUECHER_ENCODED, 5, 1, 0xfc, 744);
    Buecher1();
    ReadsBack(BUECHER, BUECHER_ENCODED);
  }

  /** Two insertions of one code point: n with tilde, a, n, d, u with acute, n with tilde. */
  const NANDUN: Text := [0xf1, 0x61, 0x6e, 0x64, 0xfa, 0xf1]
  const NANDUN_ENCODED: Text := Lit("and-6mad7c")

  lemma NandunDigits1()
    ensures Vli(452, BASE, 72) == [0x36, 0x6d, 0x61]
    ensures Vli(3, BASE, 0) == [0x64]
  {
  }

  lemma NandunBias1()
    ensures Adapt(452, 4, true) == 0
    ensures Adapt(3, 5, false) == 0
  {
  }

  lemma Nandun1()
    requires Stands(NANDUN, NANDUN_ENCODED, Stage(0, 0xf1, 4, 452, 72, 3))
    ensures Stands(NANDUN, NANDUN_ENCODED, Stage(0, 0xfa, 8, 49, 0, 5))
    ensures Run(NANDUN, NANDUN_ENCODED, 3, Stage(0, 0xf1, 4, 452, 72, 3))
         == Run(NANDUN, NANDUN_ENCODED, 3, Stage(0, 0xfa, 8, 49, 0, 5))
  {
    hide Run, Stands, Times, Vli, Adapt;
    NandunDigits1();
    NandunBias1();
    assert NANDUN_ENCODED[4..7] == [0x36, 0x6d, 0x61];
    Emits(NANDUN, NANDUN_ENCODED, 3, Stage(0, 0xf1, 4, 452, 72, 3), 0, 7, 0);
    assert NANDUN_ENCODED[7..8] == [0x64];
    Emits(NANDUN, NANDUN_ENCODED, 3, Stage(1, 0xf1, 7, 0, 0, 4), 5, 8, 0);
    TimesIsProduct(8, 6);
    assert Free(NANDUN, 6, 6, 0xf1) && Count(NANDUN, 6, 6, 0xf1) == 0;
    Moves(NANDUN, NANDUN_ENCODED, 3, Stage(6, 0xf1, 8, 0, 0, 5), 4, 0xfa, 49);
  }

  lemma NandunDigits2()
    ensures Vli(53, BASE, 0) == [0x37, 0x63]
  {
  }

  lemma NandunBias2()
    ensures Adapt(53, 6, false) == 15
  {
  }

  lemma Nandun2()
    requires Stands(NANDUN, NANDUN_ENCODED, Stage(0, 0xfa, 8, 49, 0, 5))
    ensures Run(NANDUN, NANDUN_ENCODED, 3, Stage(0, 0xfa, 8, 49, 0, 5)) == Some(NANDUN_ENCODED)
  {
    hide Run, Stands, Times, Vli, Adapt;
    NandunDigits2();
    NandunBias2();
    assert NANDUN_ENCODED[8..10] == [0x37, 0x63];
    Emits(NANDUN, NANDUN_ENCODED, 3, Stage(0, 0xfa, 8, 49, 0, 5), 4, 10, 15);
    assert Free(NANDUN, 5, 6, 0xfa) && Count(NANDUN, 5, 6, 0xfa) == 1;
    Ends(NANDUN, NANDUN_ENCODED, 3, Stage(5, 0xfa, 10, 0, 15, 6));
  }

  lemma Nandun()
    ensures Pair(NANDUN, NANDUN_ENCODED)
  {
    hide Encode, Run, Stands, Pair, Times;
    TimesIsProduct(113, 4);
    assert Prefix(NANDUN) == NANDUN_ENCODED[..4];
    assert Count(NANDUN, 0, 6, INITIAL_N) == 3;
    Starts(NANDUN, NANDUN_ENCODED, 3, 0, 0xf1, 452);
    Nandun1();
    Nandun2();
    ReadsBack(NANDUN, NANDUN_ENCODED);
  }

  /** Sample (R) of section 7.1 of RFC 3492: seven code points, each in a pass of its own. */
  const SPEED: Text := [0x305d, 0x306e, 0x30b9, 0x30d4, 0x30fc, 0x30c9, 0x3067]
  const SPEED_ENCODED: Text := Lit("d9juau41awczczp")

  lemma SpeedDigits1()
    ensures Vli(12253, BASE, 72) == [0x64, 0x39, 0x6a]
  {
  }

  lemma SpeedBias1()
    ensures Adapt(12253, 1, true) == 17
  {
  }

  lemma Speed1()
    requires Stands(SPEED, SPEED_ENCODED, Stage(0, 0x305d, 0, 12253, 72, 0))
    ensures Stands(SPEED, SPEED_ENCODED, Stage(0, 0x3067, 3, 19, 17, 1))
    ensures Run(SPEED, SPEED_ENCODED, 0, Stage(0, 0x305d, 0, 12253, 72, 0))
         == Run(SPEED, SPEED_ENCODED, 0, Stage(0, 0x3067, 3, 19, 17, 1))
  {
    hide Run, Stands, Times, Vli, Adapt;
    SpeedDigits1();
    SpeedBias1();
    assert SPEED_ENCODED[0..3] == [0x64, 0x39, 0x6a];
    Emits(SPEED, SPEED_ENCODED, 0, Stage(0, 0x305d, 0, 12253, 72, 0), 0, 3, 17);
    TimesIsProduct(9, 2);
    assert Free(SPEED, 1, 7, 0x305d) && Count(SPEED, 1, 7, 0x305d) == 0;
    Moves(SPEED, SPEED_ENCODED, 0, Stage(1, 0x305d, 3, 0, 17, 1), 6, 0x3067, 19);
  }

  lemma SpeedDigits2()
    ensures Vli(20, BASE, 17) == [0x75, 0x61]
  {
  }

  lemma SpeedBias2()
    ensures Adapt(20, 2, false) == 10
  {
  }

  lemma Speed2()
    requires Stands(SPEED, SPEED_ENCODED, Stage(0, 0x3067, 3, 19, 17, 1))
    ensures Stands(SPEED, SPEED_ENCODED, Stage(0, 0x306e, 5, 19, 10, 2))
    ensures Run(SPEED, SPEED_ENCODED, 0, Stage(0, 0x3067, 3, 19, 17, 1))
         == Run(SPEED, SPEED_ENCODED, 0, Stage(0, 0x306e, 5, 19, 10, 2))
  {
    hide Run, Stands, Times, Vli, Adapt;
    SpeedDigits2();
    SpeedBias2();
    assert SPEED_ENCODED[3..5] == [0x75, 0x61];
    Emits(SPEED, SPEED_ENCODED, 0, Stage(0, 0x3067, 3, 19, 17, 1), 6, 5, 10);
    TimesIsProduct(6, 3);
    assert Free(SPEED, 7, 7, 0x3067) && Count(SPEED, 7, 7, 0x3067) == 0;
    Moves(SPEED, SPEED_ENCODED, 0, Stage(7, 0x3067, 5, 0, 10, 2), 1, 0x306e, 19);
  }

  lemma SpeedDigits3()
    ensures Vli(20, BASE, 10) == [0x75]
  {
  }

  lemma SpeedBias3()
    ensures Adapt(20, 3, false) == 9
  {
  }

  lemma Speed3()
    requires Stands(SPEED, SPEED_ENCODED, Stage(0, 0x306e, 5, 19, 10, 2))
    ensures Stands(SPEED, SPEED_ENCODED, Stage(0, 0x30b9, 6, 298, 9, 3))
    ensures Run(SPEED, SPEED_ENCODED, 0, Stage(0, 0x306e, 5, 19, 10, 2))
         == Run(SPEED, SPEED_ENCODED, 0, Stage(0, 0x30b9, 6, 298, 9, 3))
  {
    hide Run, Stands, Times, Vli, Adapt;
    SpeedDigits3();
    SpeedBias3();
    assert SPEED_ENCODED[5..6] == [0x75];
    Emits(SPEED, SPEED_ENCODED, 0, Stage(0, 0x306e, 5, 19, 10, 2), 1, 6, 9);
    TimesIsProduct(74, 4);
    assert Free(SPEED, 2, 7, 0x306e) && Count(SPEED, 2, 7, 0x306e) == 1;
    Moves(SPEED, SPEED_ENCODED, 0, Stage(2, 0x306e, 6, 0, 9, 3), 2, 0x30b9, 298);
  }

  lemma SpeedDigits4()
    ensures Vli(300, BASE, 9) == [0x34, 0x31, 0x61]
  {
  }

  lemma SpeedBias4()
    ensures Adapt(300, 4, false) == 29
  {
  }

  lemma Speed4()
    requires Stands(SPEED, SPEED_ENCODED, Stage(0, 0x30b9, 6, 298, 9, 3))
    ensures Stands(SPEED, SPEED_ENCODED, Stage(0, 0x30c9, 9, 77, 29, 4))
    ensures Run(SPEED, SPEED_ENCODED, 0, Stage(0, 0x30b9, 6, 298, 9, 3))
         == Run(SPEED, SPEED_ENCODED, 0, Stage(0, 0x30c9, 9, 77, 29, 4))
  {
    hide Run, Stands, Times, Vli, Adapt;
    SpeedDigits4();
    SpeedBias4();
    assert SPEED_ENCODED[6..9] == [0x34, 0x31, 0x61];
    Emits(SPEED, SPEED_ENCODED, 0, Stage(0, 0x30b9, 6, 298, 9, 3), 2, 9, 29);
    TimesIsProduct(15, 5);
    assert Free(SPEED, 3, 7, 0x30b9) && Count(SPEED, 3, 7, 0x30b9) == 1;
    Moves(SPEED, SPEED_ENCODED, 0, Stage(3, 0x30b9, 9, 0, 29, 4), 5, 0x30c9, 77);
  }

  lemma SpeedDigits5()
    ensures Vli(80, BASE, 29) == [0x77, 0x63]
  {
  }

  lemma SpeedBias5()
    ensures Adapt(80, 5, false) == 20
  {
  }

  lemma Speed5()
    requires Stands(SPEED, SPEED_ENCODED, Stage(0, 0x30c9, 9, 77, 29, 4))
    ensures Stands(SPEED, SPEED_ENCODED, Stage(0, 0x30d4, 11, 62, 20, 5))
    ensures Run(SPEED, SPEED_ENCODED, 0, Stage(0, 0x30c9, 9, 77, 29, 4))
         == Run(SPEED, SPEED_ENCODED, 0, Stage(0, 0x30d4, 11, 62, 20, 5))
  {
    hide Run, Stands, Times, Vli, Adapt;
    SpeedDigits5();
    SpeedBias5();
    assert SPEED_ENCODED[9..11] == [0x77, 0x63];
    Emits(SPEED, SPEED_ENCODED, 0, Stage(0, 0x30c9, 9, 77, 29, 4), 5, 11, 20);
    TimesIsProduct(10, 6);
    assert Free(SPEED, 6, 7, 0x30c9) && Count(SPEED, 6, 7, 0x30c9) == 1;
    Moves(SPEED, SPEED_ENCODED, 0, Stage(6, 0x30c9, 11, 0, 20, 5), 3, 0x30d4, 62);
  }

  lemma SpeedDigits6()
    ensures Vli(65, BASE, 20) == [0x7a, 0x63]
  {
  }

  lemma SpeedBias6()
    ensures Adapt(65, 6, false) == 17
  {
  }

  lemma Speed6()
    requires Stands(SPEED, SPEED_ENCODED, Stage(0, 0x30d4, 11, 62, 20, 5))
    ensures Stands(SPEED, SPEED_ENCODED, Stage(0, 0x30fc, 13, 276, 17, 6))
    ensures Run(SPEED, SPEED_ENCODED, 0, Stage(0, 0x30d4, 11, 62, 20, 5))
         == Run(SPEED, SPEED_ENCODED, 0, Stage(0, 0x30fc, 13, 276, 17, 6))
  {
    hide Run, Stands, Times, Vli, Adapt;
    SpeedDigits6();
    SpeedBias6();
    assert SPEED_ENCODED[11..13] == [0x7a, 0x63];
    Emits(SPEED, SPEED_ENCODED, 0, Stage(0, 0x30d4, 11, 62, 20, 5), 3, 13, 17);
    TimesIsProduct(39, 7);
    assert Free(SPEED, 4, 7, 0x30d4) && Count(SPEED, 4, 7, 0x30d4) == 2;
    Moves(SPEED, SPEED_ENCODED, 0, Stage(4, 0x30d4, 13, 0, 17, 6), 4, 0x30fc, 276);
  }

  lemma SpeedDigits7()
    ensures Vli(280, BASE, 17) == [0x7a, 0x70]
  {
  }

  lemma SpeedBias7()
    ensures Adapt(280, 7, false) == 29
  {
  }

  lemma Speed7()
    requires Stands(SPEED, SPEED_ENCODED, Stage(0, 0x30fc, 13, 276, 17, 6))
    ensures Run(SPEED, SPEED_ENCODED, 0, Stage(0, 0x30fc, 13, 276, 17, 6)) == Some(SPEED_ENCODED)
  {
    hide Run, Stands, Times, Vli, Adapt;
    SpeedDigits7();
    SpeedBias7();
    assert SPEED_ENCODED[13..15] == [0x7a, 0x70];
    Emits(SPEED, SPEED_ENCODED, 0, Stage(0, 0x30fc, 13, 276, 17, 6), 4, 15, 29);
    assert Free(SPEED, 5, 7, 0x30fc) && Count(SPEED, 5, 7, 0x30fc) == 2;
    Ends(SPEED, SPEED_ENCODED, 0, Stage(5, 0x30fc, 15, 0, 29, 7));
  }

  lemma Speed()
    ensures Pair(SPEED, SPEED_ENCODED)
  {
    hide Encode, Run, Stands, Pair, Times;
    TimesIsProduct(12253, 1);
    assert Prefix(SPEED) == SPEED_ENCODED[..0];
    assert Count(SPEED, 0, 7, INITIAL_N) == 0;
    Starts(SPEED, SPEED_ENCODED, 0, 0, 0x305d, 12253);
    Speed1();
    Speed2();
    Speed3();
    Speed4();
    Speed5();
    Speed6();
    Speed7();
    ReadsBack(SPEED, SPEED_ENCODED);
  }
}
