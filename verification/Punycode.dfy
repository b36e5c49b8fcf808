/**
 * The Punycode encoder and decoder of `src/internal/idna.ts` and the proof that
 * the decoder undoes the encoder (sections 3, 5 and 6.1 to 6.3 of RFC 3492).
 */
module Punycode {
  import opened Common
  import opened Strings

  const BASE: nat := 36
  const TMIN: nat := 1
  const TMAX: nat := 26
  const SKEW: nat := 38
  const DAMP: nat := 700
  const INITIAL_BIAS: nat := 72
  const INITIAL_N: nat := 0x80
  const MAX_INT: nat := 0x7fffffff

  /** The longest input for which no overflow guard can fire. */
  const MAX_POINTS: nat := 1927

  // ------------------------------------------------------------ arithmetic

  /**
   * The product, defined by addition so that proofs about it stay linear; it is
   * `a * b` by `TimesIsProduct`.
   */
  function Times(a: nat, b: nat): nat { if a == 0 then 0 else b + Times(a - 1, b) }

  lemma {:induction false} TimesIsProduct(a: nat, b: nat)
    ensures Times(a, b) == a * b
  {
    if a == 0 {
    } else {
      TimesIsProduct(a - 1, b);
    }
  }

  lemma {:induction false} TimesAdds(a: nat, b: nat, c: nat)
    ensures Times(a + b, c) == Times(a, c) + Times(b, c)
  {
    if a == 0 {
    } else {
      TimesAdds(a - 1, b, c);
    }
  }

  lemma {:induction false} TimesGroups(a: nat, b: nat, c: nat)
    ensures Times(Times(a, b), c) == Times(a, Times(b, c))
  {
    if a == 0 {
    } else {
      TimesGroups(a - 1, b, c);
      TimesAdds(b, Times(a - 1, b), c);
    }
  }

  lemma {:induction false} TimesCommutes(a: nat, b: nat)
    ensures Times(a, b) == Times(b, a)
  {
    TimesIsProduct(a, b);
    TimesIsProduct(b, a);
  }

  lemma TimesMonotone(a: nat, a': nat, b: nat)
    requires a <= a'
    ensures Times(a, b) <= Times(a', b)
  {
    TimesAdds(a, a' - a, b);
  }

  /** Division with remainder in terms of `Times`. */
  lemma Divided(a: nat, b: nat)
    requires b > 0
    ensures a == Times(a / b, b) + a % b
  {
    TimesIsProduct(a / b, b);
  }

  lemma QuotientBound(a: nat, b: nat, q: nat)
    requires b > 0 && a <= q * b + b - 1
    ensures a / b <= q
  {
    Divided(a, b);
    TimesIsProduct(q, b);
    if a / b > q { TimesMonotone(q + 1, a / b, b); }
  }

  lemma NonnegativeQuotient(a: nat, b: nat)
    requires b > 0
    ensures a / b >= 0
  {
  }

  /** A guard written with a division is exactly 31-bit overflow of the sum it protects. */
  lemma GuardIsOverflow(x: nat, m: nat, base: nat)
    requires m > 0
    ensures x > (MAX_INT - base) / m <==> base + Times(x, m) > MAX_INT
  {
    if base <= MAX_INT {
      var d := (MAX_INT - base) / m;
      Divided(MAX_INT - base, m);
      if x > d { TimesMonotone(d + 1, x, m); } else { TimesMonotone(x, d, m); }
    } else {
      NegativeQuotient(MAX_INT - base, m);
    }
  }

  lemma NegativeQuotient(a: int, m: nat)
    requires a < 0 < m
    ensures a / m < 0
  {
  }

  // ---------------------------------------------------------------- digits

  function EncodeDigit(d: nat): (c: CodePoint)
    requires d < BASE
  {
    if d < 26 then d + 0x61 else d + 0x16
  }

  function DecodeDigit(c: CodePoint): (d: int)
    ensures -1 <= d < BASE
  {
    if IsDigit(c) then c - 0x30 + 26
    else if IsLower(c) then c - 0x61
    else if IsUpper(c) then c - 0x41
    else -1
  }

  // ------------------------------------------------------------------ bias

  function Threshold(k: nat, bias: nat): (t: nat)
    ensures TMIN <= t <= TMAX
  {
    if k <= bias then TMIN else if k >= bias + TMAX then TMAX else k - bias
  }

  function Damped(value: nat, k: nat): nat {
    if value > ((BASE - TMIN) * TMAX) / 2 then Damped(value / (BASE - TMIN), k + BASE)
    else k + ((BASE - TMIN + 1) * value) / (value + SKEW)
  }

  function Adapt(delta: nat, numPoints: nat, firstTime: bool): nat
    requires numPoints > 0
  {
    var value := if firstTime then delta / DAMP else delta / 2;
    NonnegativeQuotient(value, numPoints);
    Damped(value + value / numPoints, 0)
  }

  method ComputeAdapt(delta: nat, numPoints: nat, firstTime: bool) returns (bias: nat)
    requires numPoints > 0
    ensures bias == Adapt(delta, numPoints, firstTime)
  {
    var value: nat := if firstTime then delta / DAMP else delta / 2;
    NonnegativeQuotient(value, numPoints);
    value := value + value / numPoints;
    var k: nat := 0;
    while value > ((BASE - TMIN) * TMAX) / 2
      invariant Damped(value, k) == Adapt(delta, numPoints, firstTime)
    {
      value := value / (BASE - TMIN);
      k := k + BASE;
    }
    return k + ((BASE - TMIN + 1) * value) / (value + SKEW);
  }

  lemma {:induction false} DampedBound(value: nat, k: nat, rounds: nat, limit: nat)
    requires limit == 456 * Pow35(rounds)
    requires value < limit
    ensures Damped(value, k) <= k + BASE * rounds + 33
    decreases rounds
  {
    if value > 455 {
      assert rounds > 0;
      DampedBound(value / 35, k + BASE, rounds - 1, 456 * Pow35(rounds - 1));
    } else {
      assert (36 * value) / (value + 38) <= 33 by { QuotientBound(36 * value, value + 38, 33); }
    }
  }

  function Pow35(e: nat): nat { if e == 0 then 1 else 35 * Pow35(e - 1) }

  /** The adapted bias never exceeds 213 while deltas stay within 31 bits. */
  lemma AdaptBound(delta: nat, numPoints: nat, firstTime: bool)
    requires numPoints > 0 && delta <= MAX_INT
    ensures Adapt(delta, numPoints, firstTime) <= 213
  {
    var value := if firstTime then delta / DAMP else delta / 2;
    QuotientBound(value, numPoints, value);
    assert Pow35(5) == 52521875 by { assert Pow35(3) == 42875; }
    DampedBound(value + value / numPoints, 0, 5, 456 * 52521875);
  }

  // -------------------------------------------- variable-length integers

  /** The digit emitted for `q` when it reaches the threshold `t`. */
  function DigitOf(q: nat, t: nat): (d: nat)
    requires TMIN <= t <= TMAX && t <= q
    ensures t <= d < BASE
  {
    t + (q - t) % (BASE - t)
  }

  /** What is left of `q` after that digit. */
  function RestOf(q: nat, t: nat): (r: nat)
    requires TMIN <= t <= TMAX && t <= q
    ensures r < q
  {
    QuotientBound(q - t, BASE - t, q - t);
    (q - t) / (BASE - t)
  }

  lemma DigitAndRest(q: nat, t: nat)
    requires TMIN <= t <= TMAX && t <= q
    ensures q == DigitOf(q, t) + Times(RestOf(q, t), BASE - t)
  {
    Divided(q - t, BASE - t);
  }

  /** The digit string written for `q`, starting at weight index `k`. */
  function Vli(q: nat, k: nat, bias: nat): (digits: Text)
    ensures |digits| > 0
    ensures forall c | c in digits :: IsDigit(c) || IsLower(c)
    decreases q
  {
    hide DigitOf, RestOf;
    var t := Threshold(k, bias);
    if q < t then [EncodeDigit(q)]
    else [EncodeDigit(DigitOf(q, t))] + Vli(RestOf(q, t), k + BASE, bias)
  }

  datatype Reading = Reading(i: nat, pos: nat)

  /** Reads one variable-length integer and adds it to `i`. */
  function ReadVli(input: Text, pos: nat, i: nat, w: nat, k: nat, bias: nat): (r: Option<Reading>)
    requires pos <= |input|
    ensures r.Some? ==> pos < r.value.pos <= |input| && i <= r.value.i <= MAX_INT
    decreases |input| - pos
  {
    if pos >= |input| then None
    else
      var digit := DecodeDigit(input[pos]);
      if digit < 0 || i + Times(digit, w) > MAX_INT then None
      else
        var t := Threshold(k, bias);
        if digit < t then Some(Reading(i + Times(digit, w), pos + 1))
        else if Times(w, BASE - t) > MAX_INT then None
        else ReadVli(input, pos + 1, i + Times(digit, w), Times(w, BASE - t), k + BASE, bias)
  }

  /** The largest weight the decoder can reach at index `k` while the threshold is below TMAX. */
  function WeightBound(k: nat): nat { if k <= 36 then 1 else 35 * WeightBound(k - 36) }

  /** The digits `d` stand in `input` at `pos`. */
  predicate At(input: Text, pos: nat, d: Text) {
    pos + |d| <= |input| && input[pos..pos + |d|] == d
  }

  /**
   * Reading back the digits of `q` yields exactly `q`, stops after its last
   * digit, and fires neither overflow guard.
   */
  lemma {:induction false} VliRoundTrip(input: Text, pos: nat, q: nat, k: nat, bias: nat, i: nat, w: nat)
    requires bias <= 213 && k > 0 && k % 36 == 0 && w > 0
    requires k < bias + TMAX ==> w <= WeightBound(k)
    requires i + Times(q, w) <= MAX_INT
    requires At(input, pos, Vli(q, k, bias))
    ensures ReadVli(input, pos, i, w, k, bias) == Some(Reading(i + Times(q, w), pos + |Vli(q, k, bias)|))
    decreases q
  {
    hide Times, DigitOf, RestOf, WeightBound, EncodeDigit, DecodeDigit;
    var t := Threshold(k, bias);
    assert input[pos] == Vli(q, k, bias)[0];
    if q < t {
      DigitRoundTrip(q);
    } else {
      hide ReadVli;
      var rest := RestOf(q, t);
      AtTail(input, pos, Vli(q, k, bias), Vli(rest, k + BASE, bias));
      var i', w' := VliStep(input, pos, q, k, bias, i, w);
      VliRoundTrip(input, pos + 1, rest, k + BASE, bias, i', w');
    }
  }

  /** When the sum does not fit, reading the same digits fails, by one guard or the other. */
  lemma {:induction false} VliOverflows(input: Text, pos: nat, q: nat, k: nat, bias: nat, i: nat, w: nat)
    requires i + Times(q, w) > MAX_INT && pos <= |input|
    requires At(input, pos, Vli(q, k, bias))
    ensures ReadVli(input, pos, i, w, k, bias) == None
    decreases q
  {
    hide Times, DigitOf, RestOf, EncodeDigit, DecodeDigit;
    var t := Threshold(k, bias);
    assert input[pos] == Vli(q, k, bias)[0];
    if q < t {
      DigitRoundTrip(q);
    } else {
      var digit, rest := DigitOf(q, t), RestOf(q, t);
      DigitRoundTrip(digit);
      SplitWeight(q, w, t);
      AtTail(input, pos, Vli(q, k, bias), Vli(rest, k + BASE, bias));
      VliOverflows(input, pos + 1, rest, k + BASE, bias, i + Times(digit, w), Times(w, BASE - t));
    }
  }

  lemma DigitRoundTrip(d: nat)
    requires d < BASE
    ensures DecodeDigit(EncodeDigit(d)) == d
  {
  }

  /** One digit that continues the integer moves `i` and the weight together. */
  lemma VliStep(input: Text, pos: nat, q: nat, k: nat, bias: nat, i: nat, w: nat) returns (i': nat, w': nat)
    requires bias <= 213 && k > 0 && k % 36 == 0 && w > 0 && pos < |input|
    requires k < bias + TMAX ==> w <= WeightBound(k)
    requires i + Times(q, w) <= MAX_INT && q >= Threshold(k, bias)
    requires input[pos] == EncodeDigit(DigitOf(q, Threshold(k, bias)))
    ensures w' > 0 && (k + BASE < bias + TMAX ==> w' <= WeightBound(k + BASE))
    ensures i' + Times(RestOf(q, Threshold(k, bias)), w') == i + Times(q, w)
    ensures ReadVli(input, pos, i, w, k, bias) == ReadVli(input, pos + 1, i', w', k + BASE, bias)
  {
    hide Times, DigitOf, RestOf, WeightBound, EncodeDigit, DecodeDigit;
    var t := Threshold(k, bias);
    var digit := DigitOf(q, t);
    SplitWeight(q, w, t);
    WeightFits(q, w, k, bias);
    DigitRoundTrip(digit);
    i', w' := i + Times(digit, w), Times(w, BASE - t);
  }

  lemma AtTail(input: Text, pos: nat, digits: Text, tail: Text)
    requires At(input, pos, digits) && |digits| > 0 && digits[1..] == tail
    ensures At(input, pos + 1, tail)
  {
    assert input[pos + 1..pos + |digits|] == input[pos..pos + |digits|][1..];
  }

  lemma SplitWeight(q: nat, w: nat, t: nat)
    requires TMIN <= t <= TMAX && t <= q
    ensures Times(q, w) == Times(DigitOf(q, t), w) + Times(RestOf(q, t), Times(w, BASE - t))
  {
    hide Times, DigitOf, RestOf;
    var digit, rest, m := DigitOf(q, t), RestOf(q, t), BASE - t;
    DigitAndRest(q, t);
    TimesAdds(digit, Times(rest, m), w);
    TimesGroups(rest, m, w);
    TimesCommutes(m, w);
  }

  /** The weight guard of the decoder never fires on encoder output. */
  lemma WeightFits(q: nat, w: nat, k: nat, bias: nat)
    requires bias <= 213 && k > 0 && k % 36 == 0 && w > 0
    requires k < bias + TMAX ==> w <= WeightBound(k)
    requires q >= Threshold(k, bias) && Times(q, w) <= MAX_INT
    ensures 0 < Times(w, BASE - Threshold(k, bias)) <= MAX_INT
    ensures k + BASE < bias + TMAX ==> Times(w, BASE - Threshold(k, bias)) <= WeightBound(k + BASE)
  {
    var t := Threshold(k, bias);
    TimesCommutes(w, BASE - t);
    TimesMonotone(1, BASE - t, w);
    TimesMonotone(BASE - t, 35, w);
    TimesIsProduct(35, w);
    assert Times(1, w) == w;
    if t == TMAX {
      TimesMonotone(26, q, w);
      TimesIsProduct(26, w);
      TimesIsProduct(10, w);
    } else {
      WeightBoundAt(k);
    }
  }

  lemma WeightBoundAt(k: nat)
    requires 0 < k <= 216 && k % 36 == 0
    ensures WeightBound(k) <= 52521875
  {
    assert WeightBound(108) == 1225;
    assert WeightBound(180) == 1500625;
  }

  // --------------------------------------------------------------- encoder

  /** The code points of `s` below `n`, in order. */
  function Below(s: Text, n: nat): (r: Text)
    ensures |r| <= |s|
  {
    if s == [] then [] else (if s[0] < n then [s[0]] else []) + Below(s[1..], n)
  }

  /** The least code point of `s` that is at least `n`, or MAX_INT. */
  function Next(s: Text, n: nat): (r: nat)
    ensures n <= r || r == MAX_INT
    ensures r == MAX_INT || r in s
    ensures forall c | c in s && c >= n :: r <= c
  {
    if s == [] then MAX_INT
    else
      var rest := Next(s[1..], n);
      assert forall c | c in s :: c == s[0] || c in s[1..];
      if n <= s[0] < rest then s[0] else rest
  }

  /** The encoder's variables. */
  datatype Encoder = Encoder(out: Text, delta: nat, bias: nat, handled: nat)

  /** What inserting one code point does to the encoder's variables. */
  function Insert(st: Encoder, basic: nat): Encoder {
    Encoder(st.out + Vli(st.delta, BASE, st.bias), 0,
            Adapt(st.delta, st.handled + 1, st.handled == basic), st.handled + 1)
  }

  /** How many code points the encoder has handled at index `j` of the pass for `n`. */
  ghost function HandledAt(s: Text, j: nat, n: nat): nat
    requires j <= |s|
  {
    |Below(s[..j], n + 1)| + |Below(s[j..], n)|
  }

  /** One pass over the input for the code point `n`, from index `j`. */
  function Pass(s: Text, j: nat, n: nat, st: Encoder, basic: nat): (r: Option<Encoder>)
    requires j <= |s| && st.handled == HandledAt(s, j, n)
    ensures r.Some? ==> r.value.handled == |Below(s, n + 1)|
    decreases |s| - j
  {
    if j == |s| then
      assert s[..j] == s;
      Some(st)
    else
      HandledStep(s, j, n);
      if s[j] < n then
        if st.delta + 1 > MAX_INT then None else Pass(s, j + 1, n, st.(delta := st.delta + 1), basic)
      else if s[j] != n then Pass(s, j + 1, n, st, basic)
      else Pass(s, j + 1, n, Insert(st, basic), basic)
  }

  /** The encoder after moving on to the due code point `next`. */
  function Moved(st: Encoder, n: nat, next: nat): Encoder
    requires n <= next
  {
    st.(delta := st.delta + Times(next - n, st.handled + 1))
  }

  /** The encoder's main loop, entered with next code point bound `n`. */
  function Passes(s: Text, n: nat, st: Encoder, basic: nat): (r: Option<Text>)
    requires st.handled == |Below(s, n)|
    decreases |s| - st.handled, 1
  {
    hide Times, Insert, Adapt, Below, Next;
    if st.handled == |s| then Some(st.out)
    else
      var next := Next(s, n);
      NextIsDue(s, n);
      if Moved(st, n, next).delta > MAX_INT then None
      else
        var st' := Pass(s, 0, next, Moved(st, n, next), basic);
        if st'.None? then None
        else
          BelowGrows(s, next);
          Passes(s, next + 1, st'.value.(delta := st'.value.delta + 1), basic)
  }

  /** `encodePunycode`: `None` stands for the source's `undefined`. */
  function Encode(input: Text): Option<Text> {
    if !WellFormed(input) then None
    else
      var basics := Below(input, INITIAL_N);
      var out := if |basics| > 0 then basics + [HYPHEN] else [];
      Passes(input, INITIAL_N, Encoder(out, 0, INITIAL_BIAS, |basics|), |basics|)
  }

  lemma {:induction false} BelowAppend(a: Text, b: Text, n: nat)
    ensures Below(a + b, n) == Below(a, n) + Below(b, n)
  {
    if a == [] {
      assert a + b == b;
    } else {
      assert (a + b)[1..] == a[1..] + b;
      BelowAppend(a[1..], b, n);
    }
  }

  /** Splits the input around index `j`. */
  lemma BelowAround(s: Text, j: nat, n: nat)
    requires j < |s|
    ensures Below(s[..j + 1], n + 1) == Below(s[..j], n + 1) + (if s[j] <= n then [s[j]] else [])
    ensures Below(s[j..], n) == (if s[j] < n then [s[j]] else []) + Below(s[j + 1..], n)
  {
    assert s[..j + 1] == s[..j] + [s[j]];
    BelowAppend(s[..j], [s[j]], n + 1);
    assert Below([s[j]], n + 1) == if s[j] <= n then [s[j]] else [];
  }

  lemma HandledStep(s: Text, j: nat, n: nat)
    requires j < |s|
    ensures HandledAt(s, j + 1, n) == HandledAt(s, j, n) + (if s[j] == n then 1 else 0)
  {
    BelowAround(s, j, n);
  }

  /** While some code point is unhandled, `Next` finds one, and skips no code point. */
  lemma {:induction false} NextIsDue(s: Text, n: nat)
    requires |Below(s, n)| < |s|
    ensures n <= Next(s, n) <= 0x10FFFF && Next(s, n) in s
    ensures Below(s, Next(s, n)) == Below(s, n)
    ensures HandledAt(s, 0, Next(s, n)) == |Below(s, n)|
  {
    SomeNotBelow(s, n);
    BelowSame(s, n, Next(s, n));
    assert s[..0] == [] && s[0..] == s;
  }

  lemma {:induction false} SomeNotBelow(s: Text, n: nat)
    requires |Below(s, n)| < |s|
    ensures exists c :: c in s && c >= n
  {
    if s[0] < n {
      SomeNotBelow(s[1..], n);
      var c :| c in s[1..] && c >= n;
      assert c in s;
    } else {
      assert s[0] in s;
    }
  }

  lemma {:induction false} BelowSame(s: Text, n: nat, m: nat)
    requires n <= m && forall c | c in s :: c < n || c >= m
    ensures Below(s, m) == Below(s, n)
  {
    if s == [] {
    } else {
      assert s[0] in s;
      assert forall c | c in s[1..] :: c in s;
      BelowSame(s[1..], n, m);
    }
  }

  /** A pass for a code point that occurs handles at least one more. */
  lemma {:induction false} BelowGrows(s: Text, n: nat)
    ensures |Below(s, n)| <= |Below(s, n + 1)|
    ensures n in s ==> |Below(s, n)| < |Below(s, n + 1)|
  {
    if s == [] {
    } else {
      BelowGrows(s[1..], n);
    }
  }

  lemma {:induction false} BelowAll(s: Text, n: nat)
    requires |Below(s, n)| == |s|
    ensures Below(s, n) == s
  {
    if s == [] {
    } else {
      assert |Below(s[1..], n)| <= |s[1..]|;
      BelowAll(s[1..], n);
    }
  }

  // --------------------------------------------------------------- decoder

  /** The text with `c` inserted before position `i`, as the splice leaves it: `Array.from(parts.join(""))`. */
  function Spliced(out: Text, i: nat, c: CodePoint): Text
    requires i <= |out|
  {
    Merge(out[..i] + [c] + out[i..])
  }

  /** How many code points, and then how many positions, a distance of `i` covers. */
  function Rows(i: nat, length: nat): nat
    requires length > 0
  {
    i / length
  }

  function Column(i: nat, length: nat): (c: nat)
    requires length > 0
    ensures c < length
  {
    i % length
  }

  /** The decoder's main loop. */
  function DecodeFrom(out: Text, input: Text, pos: nat, n: nat, i: nat, bias: nat): Option<Text>
    requires pos <= |input| && n <= 0x10FFFF
    decreases |input| - pos
  {
    if pos == |input| then Some(out)
    else
      var reading := ReadVli(input, pos, i, 1, BASE, bias);
      if reading.None? then None
      else
        var length := |out| + 1;
        var rows := Rows(reading.value.i, length);
        var n' := n + rows;
        if rows > MAX_INT - n || n' > 0x10FFFF then None
        else
          var i' := Column(reading.value.i, length);
          DecodeFrom(Spliced(out, i', n'), input, reading.value.pos, n', i' + 1,
                     Adapt(reading.value.i - i, length, i == 0))
  }

  /** The number of code points up to and including the last delimiter; 0 when there is none. */
  function AfterLastDelimiter(input: Text): (p: nat)
    ensures p <= |input|
    ensures p > 0 ==> input[p - 1] == HYPHEN
    ensures forall k | p <= k < |input| :: input[k] != HYPHEN
  {
    if input == [] then 0
    else if input[|input| - 1] == HYPHEN then |input|
    else AfterLastDelimiter(input[..|input| - 1])
  }

  /** `decodePunycode`: `None` stands for the source's `undefined`. */
  function Decode(input: Text): Option<Text> {
    if input == [] then Some([])
    else if !IsAscii(input) then None
    else
      var pos := AfterLastDelimiter(input);
      DecodeFrom(if pos > 0 then input[..pos - 1] else [], input, pos, INITIAL_N, 0, INITIAL_BIAS)
  }

  // ------------------------------------------------------------ simulation

  /** The text the decoder holds when the encoder stands at index `j` of the pass for `n`. */
  ghost function Decoded(s: Text, j: nat, n: nat): (r: Text)
    requires j <= |s|
    ensures |r| == HandledAt(s, j, n)
  {
    Below(s[..j], n + 1) + Below(s[j..], n)
  }

  /**
   * The encoder at index `j` of the pass for `n` agrees with a decoder whose
   * last insertion left it at code point `nd` and position `id`: `delta` is the
   * distance from there.
   */
  ghost predicate InStep(s: Text, j: nat, n: nat, st: Encoder, basic: nat, nd: nat, id: nat) {
    && j <= |s| < MAX_INT && WellFormed(s)
    && nd <= n <= 0x110000 && INITIAL_N <= nd <= 0x10FFFF
    && st.handled == HandledAt(s, j, n)
    && id <= st.handled
    && basic <= st.handled && (id == 0 <==> st.handled == basic)
    && st.delta + id == Times(n - nd, st.handled + 1) + |Below(s[..j], n + 1)|
    && st.bias <= 213
  }

  /** Finishing the pass for `n` from index `j`, and every later pass. */
  ghost function Rest(s: Text, j: nat, n: nat, st: Encoder, basic: nat): Option<Text>
    requires j <= |s| && st.handled == HandledAt(s, j, n)
  {
    var st' := Pass(s, j, n, st, basic);
    if st'.None? then None else Passes(s, n + 1, st'.value.(delta := st'.value.delta + 1), basic)
  }

  /**
   * The decoder's distance from the code point `nd` to the first occurrence of
   * `n`: full rounds over the text so far, and the position in it.
   */
  function Distance(s: Text, n: CodePoint, nd: nat): nat
    requires nd <= n
  {
    Times(n - nd, |Below(s, n)| + 1) + |Below(s[..IndexOf(s, n)], n)|
  }

  /** From `nd` on, every distance to the next code point of the text fits 31 bits. */
  predicate WithinReach(s: Text, n: nat, nd: nat)
    requires nd <= n
    decreases |s| - |Below(s, n)|
  {
    hide Times, Below, Next, IndexOf;
    if |Below(s, n)| >= |s| then true
    else
      NextIsDue(s, n);
      BelowGrows(s, Next(s, n));
      Distance(s, Next(s, n), nd) <= MAX_INT && WithinReach(s, Next(s, n) + 1, Next(s, n))
  }

  /** The same in the middle of the pass for `n`: the distance to `n` itself counts until it was inserted. */
  ghost predicate StillWithin(s: Text, n: CodePoint, nd: nat)
    requires nd <= n
  {
    (nd == n || Distance(s, n, nd) <= MAX_INT) && WithinReach(s, n + 1, n)
  }

  /** What the simulation proves of the rest of a run. */
  ghost predicate Recovers(s: Text, r: Option<Text>, st: Encoder, held: Text, nd: nat, id: nat, within: bool) {
    && (|s| <= MAX_POINTS ==> r.Some?)
    && nd <= 0x10FFFF
    && (r.Some? ==>
          && |st.out| <= |r.value| && r.value[..|st.out|] == st.out
          && (forall c | c in r.value[|st.out|..] :: IsDigit(c) || IsLower(c))
          && DecodeFrom(held, r.value, |st.out|, nd, id, st.bias) == if within then Some(s) else None)
  }

  lemma {:induction false} PassesSim(s: Text, n: nat, st: Encoder, basic: nat, nd: nat, id: nat)
    requires InStep(s, 0, n, st, basic, nd, id) && st.handled == |Below(s, n)|
    ensures Recovers(s, Passes(s, n, st, basic), st, Below(s, n), nd, id, WithinReach(s, n, nd))
    decreases 0x110000 - n, |s| + 2
  {
    hide Adapt, Times, Below, Next, Pass, Decoded, ReadVli, Rest, Passes, Distance;
    PassesCases(s, n, st, basic);
    if st.handled == |s| {
      BelowAll(s, n);
    } else {
      hide DecodeFrom, WithinReach, InStep, StillWithin;
      NextInStep(s, n, st, basic, nd, id);
      ReachStep(s, n, nd);
      if Moved(st, n, Next(s, n)).delta <= MAX_INT {
        PassSim(s, 0, Next(s, n), Moved(st, n, Next(s, n)), basic, nd, id);
      }
    }
  }

  lemma ReachStep(s: Text, n: nat, nd: nat)
    requires |Below(s, n)| < |s| < MAX_INT && nd <= n
    ensures n <= Next(s, n) <= 0x10FFFF && WithinReach(s, n, nd) == StillWithin(s, Next(s, n), nd)
  {
    hide Below, Next, Times;
    NextIsDue(s, n);
    var next := Next(s, n);
    TimesIsProduct(0, |Below(s, next)| + 1);
    PositionFits(s, next);
  }

  lemma PositionFits(s: Text, n: CodePoint)
    ensures |Below(s[..IndexOf(s, n)], n)| <= |Below(s, n)|
  {
    hide Below;
    var i := IndexOf(s, n);
    BelowAppend(s[..i], s[i..], n);
    assert s[..i] + s[i..] == s;
  }

  /** Moving to the next due code point keeps the two in step, and overflows nothing in a short text. */
  lemma NextInStep(s: Text, n: nat, st: Encoder, basic: nat, nd: nat, id: nat)
    requires InStep(s, 0, n, st, basic, nd, id) && st.handled == |Below(s, n)| < |s|
    ensures n <= Next(s, n) <= 0x10FFFF && Decoded(s, 0, Next(s, n)) == Below(s, n) && Next(s, n) in s
    ensures |s| <= MAX_POINTS ==> Moved(st, n, Next(s, n)).delta <= MAX_INT
    ensures InStep(s, 0, Next(s, n), Moved(st, n, Next(s, n)), basic, nd, id)
  {
    hide Times, Next, Adapt;
    var next := Next(s, n);
    NextIsDue(s, n);
    assert s[..0] == [] && s[0..] == s;
    TimesAdds(n - nd, next - n, st.handled + 1);
    if |s| <= MAX_POINTS { SpanFits(next, nd, st.handled + 1); }
  }

  /** The four ways the main loop goes on. */
  lemma PassesCases(s: Text, n: nat, st: Encoder, basic: nat)
    requires st.handled == |Below(s, n)|
    ensures st.handled >= |s| ==> Passes(s, n, st, basic) == Some(st.out)
    ensures st.handled < |s| ==> n <= Next(s, n) && HandledAt(s, 0, Next(s, n)) == st.handled
    ensures st.handled < |s| && Moved(st, n, Next(s, n)).delta > MAX_INT ==> Passes(s, n, st, basic) == None
    ensures st.handled < |s| && Moved(st, n, Next(s, n)).delta <= MAX_INT ==>
      Passes(s, n, st, basic) == Rest(s, 0, Next(s, n), Moved(st, n, Next(s, n)), basic)
  {
    hide Adapt, Below, Pass, Next, Times;
    if st.handled < |s| { NextIsDue(s, n); }
  }

  /** The one place where the length bound is needed. */
  lemma SpanFits(n: nat, nd: nat, m: nat)
    requires INITIAL_N <= nd <= n <= 0x10FFFF && m <= MAX_POINTS
    ensures Times(n - nd, m) + m <= MAX_INT
  {
    hide Times;
    TimesMonotone(n - nd, 0x10FF7F, m);
    TimesIsProduct(0x10FF7F, m);
  }

  lemma {:induction false} PassSim(s: Text, j: nat, n: nat, st: Encoder, basic: nat, nd: nat, id: nat)
    requires InStep(s, j, n, st, basic, nd, id) && n <= 0x10FFFF && st.delta <= MAX_INT
    requires nd == n || (n !in s[..j] && n in s)
    ensures Recovers(s, Rest(s, j, n, st, basic), st, Decoded(s, j, n), nd, id, StillWithin(s, n, nd))
    decreases 0x110000 - n, |s| + 1 - j
  {
    hide DecodeFrom, Passes, Adapt, Times, Below, Decoded, WithinReach, Distance;
    if j == |s| {
      assert s[..j] == s;
      PassEnds(s, n, st, basic, n, id);
    } else {
      HandledStep(s, j, n);
      BelowAround(s, j, n);
      assert s[..j + 1] == s[..j] + [s[j]];
      if s[j] != n { DecodedSame(s, j, n); }
      if s[j] < n {
        if |s| <= MAX_POINTS { DeltaFits(s, j, n, st, basic, nd, id); }
        if st.delta + 1 <= MAX_INT { PassSim(s, j + 1, n, st.(delta := st.delta + 1), basic, nd, id); }
      } else if s[j] != n {
        PassSim(s, j + 1, n, st, basic, nd, id);
      } else {
        InsertionInStep(s, j, n, st, basic, nd, id);
        PassSim(s, j + 1, n, Insert(st, basic), basic, n, |Below(s[..j], n + 1)| + 1);
        InsertionSim(s, j, n, st, basic, nd, id, Rest(s, j, n, st, basic));
      }
    }
  }

  lemma DecodedSame(s: Text, j: nat, n: nat)
    requires j < |s| && s[j] != n
    ensures Decoded(s, j + 1, n) == Decoded(s, j, n)
  {
    BelowAround(s, j, n);
  }

  lemma DeltaFits(s: Text, j: nat, n: nat, st: Encoder, basic: nat, nd: nat, id: nat)
    requires InStep(s, j, n, st, basic, nd, id) && n <= 0x10FFFF && |s| <= MAX_POINTS
    requires nd == n || (n !in s[..j] && n in s)
    ensures st.delta + 1 <= MAX_INT
  {
    hide Times;
    if nd == n {
      TimesIsProduct(0, st.handled + 1);
    } else {
      assert s == s[..j] + s[j..];
      SomeNotHandled(s[j..], n);
      SpanFits(n, nd, st.handled + 1);
    }
  }

  lemma {:induction false} SomeNotHandled(s: Text, n: nat)
    requires n in s
    ensures |Below(s, n)| < |s|
  {
    if s[0] >= n {
    } else {
      SomeNotHandled(s[1..], n);
    }
  }

  /** At the end of a pass the encoder moves to the next code point. */
  lemma {:induction false} PassEnds(s: Text, n: nat, st: Encoder, basic: nat, nd: nat, id: nat)
    requires InStep(s, |s|, n, st, basic, nd, id) && n <= 0x10FFFF && nd == n
    ensures Recovers(s, Rest(s, |s|, n, st, basic), st, Decoded(s, |s|, n), nd, id, WithinReach(s, n + 1, n))
    decreases 0x110000 - n, 0
  {
    hide DecodeFrom, Passes, Adapt, Next, Times, WithinReach;
    assert s[..|s|] == s && s[|s|..] == [] && s[..0] == [] && s[0..] == s;
    TimesAdds(n - nd, 1, st.handled + 1);
    assert Times(1, st.handled + 1) == st.handled + 1 by { TimesIsProduct(1, st.handled + 1); }
    assert Decoded(s, |s|, n) == Below(s, n + 1);
    PassesSim(s, n + 1, st.(delta := st.delta + 1), basic, nd, id);
  }

  lemma InsertionInStep(s: Text, j: nat, n: nat, st: Encoder, basic: nat, nd: nat, id: nat)
    requires InStep(s, j, n, st, basic, nd, id) && n <= 0x10FFFF && j < |s| && s[j] == n && st.delta <= MAX_INT
    ensures InStep(s, j + 1, n, Insert(st, basic), basic, n, |Below(s[..j], n + 1)| + 1)
    ensures st.handled < |s|
  {
    hide Times, Vli, Adapt, Below;
    HandledStep(s, j, n);
    BelowAround(s, j, n);
    AdaptBound(st.delta, st.handled + 1, st.handled == basic);
    TimesIsProduct(0, st.handled + 2);
    HandledFits(s, j, n);
  }

  lemma HandledFits(s: Text, j: nat, n: nat)
    requires j < |s| && s[j] == n
    ensures HandledAt(s, j, n) < |s|
  {
    assert s[j..][0] == n && n in s[j..];
    SomeNotHandled(s[j..], n);
  }

  /** Where the first insertion of a pass is, the decoder's sum is the distance. */
  lemma FirstInsertion(s: Text, j: nat, n: CodePoint, nd: nat)
    requires j < |s| && s[j] == n && n !in s[..j] && nd <= n
    ensures Distance(s, n, nd) == Times(n - nd, HandledAt(s, j, n) + 1) + |Below(s[..j], n + 1)|
  {
    hide Times, Below;
    FirstIsAt(s, j, n);
    BelowSame(s[..j], n, n + 1);
    BelowAppend(s[..j], s[j..], n);
    assert s[..j] + s[j..] == s;
  }

  lemma FirstIsAt(s: Text, j: nat, n: CodePoint)
    requires j < |s| && s[j] == n && n !in s[..j]
    ensures IndexOf(s, n) == j
  {
    forall k | 0 <= k < j ensures s[k] != n { assert s[k] == s[..j][k]; }
  }

  /**
   * One insertion: the decoder reads the digits and splices the same code point
   * at the same place, unless the distance does not fit.
   */
  lemma InsertionSim(s: Text, j: nat, n: nat, st: Encoder, basic: nat, nd: nat, id: nat, r: Option<Text>)
    requires InStep(s, j, n, st, basic, nd, id) && n <= 0x10FFFF && j < |s| && s[j] == n
    requires nd == n || n !in s[..j]
    requires InStep(s, j + 1, n, Insert(st, basic), basic, n, |Below(s[..j], n + 1)| + 1)
    requires Recovers(s, r, Insert(st, basic), Decoded(s, j + 1, n), n, |Below(s[..j], n + 1)| + 1, WithinReach(s, n + 1, n))
    ensures Recovers(s, r, st, Decoded(s, j, n), nd, id, StillWithin(s, n, nd))
  {
    hide Adapt, Times, Below, Vli, ReadVli, Spliced, Rest, Rows, Column, WithinReach, Distance;
    if r.Some? {
      var digits, p, at := Vli(st.delta, BASE, st.bias), |Below(s[..j], n + 1)|, |st.out|;
      var E := r.value;
      DigitsAt(E, st.out, digits);
      TimesIsProduct(st.delta, 1);
      TimesIsProduct(0, st.handled + 1);
      if nd != n { FirstInsertion(s, j, n, nd); }
      if id + st.delta <= MAX_INT {
        VliRoundTrip(E, at, st.delta, BASE, st.bias, id, 1);
        Landing(n, nd, st.handled + 1, p, id + st.delta);
        SplicedDecoded(s, j, n);
      } else {
        VliOverflows(E, at, st.delta, BASE, st.bias, id, 1);
      }
    }
  }

  lemma DigitsAt(E: Text, out: Text, digits: Text)
    requires |out + digits| <= |E| && E[..|out + digits|] == out + digits
    ensures At(E, |out|, digits) && E[..|out|] == out
    ensures E[|out|..] == digits + E[|out + digits|..]
  {
    assert E[..|out|] == E[..|out + digits|][..|out|];
    assert E[|out|..|out| + |digits|] == E[..|out + digits|][|out|..];
  }

  /** The new length splits the distance into code point and position. */
  lemma Landing(n: nat, nd: nat, length: nat, p: nat, i: nat)
    requires nd <= n && p < length && i == Times(n - nd, length) + p
    ensures Rows(i, length) == n - nd && Column(i, length) == p
  {
    hide Times;
    var q, d := n - nd, i / length;
    Divided(i, length);
    if d < q { TimesMonotone(d + 1, q, length); TimesAdds(d, 1, length); TimesIsProduct(1, length); }
    if d > q { TimesMonotone(q + 1, d, length); TimesAdds(q, 1, length); TimesIsProduct(1, length); }
  }

  lemma SplicedDecoded(s: Text, j: nat, n: nat)
    requires j < |s| && s[j] == n && WellFormed(s)
    ensures |Below(s[..j], n + 1)| <= |Decoded(s, j, n)|
    ensures Spliced(Decoded(s, j, n), |Below(s[..j], n + 1)|, n) == Decoded(s, j + 1, n)
  {
    BelowAround(s, j, n);
    var a, b := Below(s[..j], n + 1), Below(s[j..], n);
    assert (a + b)[..|a|] == a && (a + b)[|a|..] == b;
    assert a + [n] + b == Decoded(s, j + 1, n);
    BelowElements(s[..j + 1], n + 1);
    BelowElements(s[j + 1..], n);
    MergeWellFormed(a + [n] + b);
  }

  lemma {:induction false} BelowElements(s: Text, n: nat)
    ensures forall c | c in Below(s, n) :: c in s && c < n
  {
    if s == [] {
    } else {
      BelowElements(s[1..], n);
    }
  }

  // --------------------------------------------------------------- theorems

  /**
   * Whatever the encoder accepts, the decoder gives back exactly when every
   * distance fits 31 bits, and refuses otherwise. (A JavaScript string is never
   * as long as the bound.)
   */
  lemma DecodesIfWithinReach(s: Text)
    requires Encode(s).Some? && |s| < MAX_INT
    ensures Decode(Encode(s).value) == if WithinReach(s, INITIAL_N, INITIAL_N) then Some(s) else None
  {
    hide Adapt, Passes, DecodeFrom, Below, WithinReach;
    var out := Prefix(s);
    var E := Encode(s).value;
    EncodedShape(s);
    if E == [] {
      assert Below(s, INITIAL_N) == [];
      DecodeOfNothing();
    } else {
      DelimiterIsLast(E, out);
      assert |out| > 0 ==> E[..|out| - 1] == E[..|out|][..|out| - 1] == Below(s, INITIAL_N);
    }
  }

  lemma DelimiterIsLast(E: Text, out: Text)
    requires out <= E && (out == [] || out[|out| - 1] == HYPHEN)
    requires forall c | c in E[|out|..] :: IsDigit(c) || IsLower(c)
    ensures AfterLastDelimiter(E) == |out|
  {
    forall k | |out| <= k < |E| ensures E[k] != HYPHEN { assert E[k] in E[|out|..]; }
    assert |out| > 0 ==> E[|out| - 1] == out[|out| - 1];
  }

  /**
   * Every text of at most 1927 Unicode scalar values encodes without overflow,
   * and decoding gives back exactly that text.
   */
  lemma RoundTrip(s: Text)
    requires WellFormed(s) && |s| <= MAX_POINTS
    ensures Encode(s).Some? && Decode(Encode(s).value) == Some(s)
  {
    hide Decode, WithinReach, Encode;
    ShortEncodes(s);
    ShortIsWithinReach(s, INITIAL_N, INITIAL_N);
    DecodesIfWithinReach(s);
  }

  lemma {:induction false} ShortIsWithinReach(s: Text, n: nat, nd: nat)
    requires |s| <= MAX_POINTS && INITIAL_N <= nd <= n && nd <= 0x10FFFF
    ensures WithinReach(s, n, nd)
    decreases |s| - |Below(s, n)|
  {
    hide Times, Below, Next, IndexOf;
    if |Below(s, n)| >= |s| {
    } else {
      NextIsDue(s, n);
      var next := Next(s, n);
      SpanFits(next, nd, |Below(s, n)| + 1);
      PositionFits(s, next);
      BelowGrows(s, next);
      ShortIsWithinReach(s, next + 1, next);
    }
  }

  /** The literal part: the ASCII code points, then a delimiter when there are any. */
  function Prefix(s: Text): Text {
    var basics := Below(s, INITIAL_N);
    if |basics| > 0 then basics + [HYPHEN] else []
  }

  lemma EncodedShape(s: Text)
    requires Encode(s).Some? && |s| < MAX_INT
    ensures var E := Encode(s).value;
      && Prefix(s) <= E && IsAscii(E)
      && (forall c | c in E[|Prefix(s)|..] :: IsDigit(c) || IsLower(c))
      && DecodeFrom(Below(s, INITIAL_N), E, |Prefix(s)|, INITIAL_N, 0, INITIAL_BIAS)
         == if WithinReach(s, INITIAL_N, INITIAL_N) then Some(s) else None
  {
    hide Adapt, Passes, DecodeFrom, Below, WithinReach;
    var basics, out := Below(s, INITIAL_N), Prefix(s);
    StartInStep(s);
    PassesSim(s, INITIAL_N, Encoder(out, 0, INITIAL_BIAS, |basics|), |basics|, INITIAL_N, 0);
    var E := Encode(s).value;
    BelowElements(s, INITIAL_N);
    assert E == out + E[|out|..];
  }

  lemma ShortEncodes(s: Text)
    requires WellFormed(s) && |s| <= MAX_POINTS
    ensures Encode(s).Some?
  {
    hide Adapt, Passes, DecodeFrom, Below, WithinReach;
    StartInStep(s);
    PassesSim(s, INITIAL_N, Encoder(Prefix(s), 0, INITIAL_BIAS, |Below(s, INITIAL_N)|), |Below(s, INITIAL_N)|, INITIAL_N, 0);
  }

  lemma StartInStep(s: Text)
    requires WellFormed(s) && |s| < MAX_INT
    ensures InStep(s, 0, INITIAL_N, Encoder(Prefix(s), 0, INITIAL_BIAS, |Below(s, INITIAL_N)|),
                   |Below(s, INITIAL_N)|, INITIAL_N, 0)
  {
    assert s[..0] == [] && s[0..] == s;
  }

  lemma DecodeOfNothing()
    ensures DecodeFrom([], [], 0, INITIAL_N, 0, INITIAL_BIAS) == Some([])
  {
  }

  /** The bound is the best one: some text of 1928 scalar values overflows the encoder. */
  lemma LongerTextOverflows() returns (s: Text)
    ensures |s| == MAX_POINTS + 1 && WellFormed(s) && Encode(s) == None
  {
    hide Adapt, Pass, Times, Passes, Below, Next;
    var a: Text := seq(MAX_POINTS, i => 0x61);
    s := a + [0x10FFFF];
    AllBelow(a, INITIAL_N);
    BelowAppend(a, [0x10FFFF], INITIAL_N);
    assert Below([0x10FFFF], INITIAL_N) == [] by { AllAbove(0x10FFFF); }
    assert Below(s, INITIAL_N) == a;
    NextIsDue(s, INITIAL_N);
    TimesIsProduct(0x10FF7F, MAX_POINTS + 1);
    PassesCases(s, INITIAL_N, Encoder(Prefix(s), 0, INITIAL_BIAS, MAX_POINTS), MAX_POINTS);
  }

  /** Code points below `n` only make the delta grow. */
  lemma {:induction false} PassOver(s: Text, j: nat, k: nat, n: nat, st: Encoder, basic: nat)
    requires j <= k <= |s| && (forall i | j <= i < k :: s[i] < n)
    requires st.handled == HandledAt(s, j, n) && st.delta + (k - j) <= MAX_INT
    ensures st.handled == HandledAt(s, k, n)
    ensures Pass(s, j, n, st, basic) == Pass(s, k, n, st.(delta := st.delta + (k - j)), basic)
    decreases k - j
  {
    hide Insert, Below;
    if j == k {
    } else {
      HandledStep(s, j, n);
      PassOver(s, j + 1, k, n, st.(delta := st.delta + 1), basic);
    }
  }

  /** U+10FAEE, 1928 letters, U+0080. */
  const FAR: CodePoint := 0x10FAEE
  const LETTERS: nat := 1928

  function FarText(): (s: Text)
    ensures |s| == LETTERS + 2 && s[0] == FAR && s[LETTERS + 1] == INITIAL_N
    ensures forall i | 0 < i <= LETTERS :: s[i] == 0x61
  {
    [FAR] + seq(LETTERS, i => 0x61) + [INITIAL_N]
  }

  lemma FarBelow(n: nat)
    requires n > 0x61
    ensures |Below(FarText(), n)| == LETTERS + (if FAR < n then 1 else 0) + (if INITIAL_N < n then 1 else 0)
  {
    hide Below;
    var a: Text := seq(LETTERS, i => 0x61);
    AllBelow(a, n);
    BelowAppend([FAR] + a, [INITIAL_N], n);
    BelowAppend([FAR], a, n);
    BelowOne(FAR, n);
    BelowOne(INITIAL_N, n);
    assert FarText() == [FAR] + a + [INITIAL_N];
  }

  lemma BelowOne(c: CodePoint, n: nat)
    ensures Below([c], n) == if c < n then [c] else []
  {
  }

  lemma FarNext()
    ensures Next(FarText(), INITIAL_N) == INITIAL_N && Next(FarText(), INITIAL_N + 1) == FAR
    ensures WellFormed(FarText())
  {
    hide Next;
    var s := FarText();
    assert s[0] in s && s[LETTERS + 1] in s;
    assert forall c | c in s :: c == FAR || c == 0x61 || c == INITIAL_N;
  }

  /** The pass for U+0080. */
  lemma FarFirst(st: Encoder, basic: nat) returns (st': Encoder)
    requires st.handled == LETTERS && st.delta == 0
    ensures HandledAt(FarText(), 0, INITIAL_N) == LETTERS
    ensures Pass(FarText(), 0, INITIAL_N, st, basic) == Some(st') && st'.handled == LETTERS + 1 && st'.delta == 0
  {
    hide Insert, Adapt, Vli, Below, FarText;
    var s := FarText();
    FarBelow(INITIAL_N);
    assert s[..0] == [] && s[0..] == s;
    BelowNothing(INITIAL_N + 1);
    HandledStep(s, 0, INITIAL_N);
    PassOver(s, 1, LETTERS + 1, INITIAL_N, st, basic);
    var before := st.(delta := LETTERS);
    HandledStep(s, LETTERS + 1, INITIAL_N);
    st' := Insert(before, basic);
    InsertResets(before, basic);
  }

  lemma BelowNothing(n: nat)
    ensures Below([], n) == []
  {
  }

  lemma InsertResets(st: Encoder, basic: nat)
    ensures Insert(st, basic).delta == 0 && Insert(st, basic).handled == st.handled + 1
  {
    hide Adapt, Vli;
  }

  /** The pass for U+10FAEE. */
  lemma FarSecond(st: Encoder, basic: nat) returns (st': Encoder)
    requires st.handled == LETTERS + 1
    ensures HandledAt(FarText(), 0, FAR) == LETTERS + 1
    ensures Pass(FarText(), 0, FAR, st, basic) == Some(st') && st'.handled == LETTERS + 2
  {
    hide Insert, Adapt, Vli, Below, FarText;
    var s := FarText();
    FarBelow(FAR);
    assert s[..0] == [] && s[0..] == s;
    BelowNothing(FAR + 1);
    HandledStep(s, 0, FAR);
    InsertResets(st, basic);
    PassOver(s, 1, LETTERS + 2, FAR, Insert(st, basic), basic);
    st' := Insert(st, basic).(delta := LETTERS + 1);
  }

  /**
   * Accepted and yet lost: the encoder counts from where it stands, the decoder
   * from the start of the text, and only the decoder's sum overflows.
   */
  lemma AcceptedButLost() returns (s: Text)
    ensures WellFormed(s) && |s| == 1930 && Encode(s).Some? && Decode(Encode(s).value) == None
  {
    hide Adapt, Pass, Passes, Below, Next, Times, WithinReach, Decode, Insert, FarText;
    s := FarText();
    FarEncodes();
    FarIsOutOfReach();
    FarNext();
    DecodesIfWithinReach(s);
  }

  lemma FarEncodes()
    ensures Encode(FarText()).Some?
  {
    hide Adapt, Pass, Below, Next, Times, Insert, FarText;
    var s := FarText();
    FarNext();
    FarBelow(INITIAL_N);
    FarBelow(INITIAL_N + 1);
    FarBelow(FAR + 1);
    var st := Encoder(Prefix(s), 0, INITIAL_BIAS, LETTERS);
    TimesIsProduct(0, LETTERS + 1);
    PassesCases(s, INITIAL_N, st, LETTERS);
    var first := FarFirst(st, LETTERS);
    var st1 := first.(delta := 1);
    PassesCases(s, INITIAL_N + 1, st1, LETTERS);
    TimesIsProduct(FAR - INITIAL_N - 1, LETTERS + 2);
    var second := FarSecond(Moved(st1, INITIAL_N + 1, FAR), LETTERS);
    PassesCases(s, FAR + 1, second.(delta := second.delta + 1), LETTERS);
  }

  lemma FarIsOutOfReach()
    ensures !WithinReach(FarText(), INITIAL_N, INITIAL_N)
  {
    hide Below, Next, Times, FarText;
    var s := FarText();
    FarNext();
    FarBelow(INITIAL_N);
    FarBelow(INITIAL_N + 1);
    FarBelow(FAR);
    TimesIsProduct(FAR - INITIAL_N, LETTERS + 2);
    assert Distance(s, FAR, INITIAL_N) > MAX_INT;
    assert !WithinReach(s, INITIAL_N + 1, INITIAL_N);
  }

  lemma AllAbove(c: CodePoint)
    requires c >= INITIAL_N
    ensures Below([c], INITIAL_N) == []
  {
  }

  lemma {:induction false} AllBelow(a: Text, n: nat)
    requires forall c | c in a :: c < n
    ensures Below(a, n) == a
  {
    if a == [] {
    } else {
      assert a[0] in a && forall c | c in a[1..] :: c in a;
      AllBelow(a[1..], n);
    }
  }

  /** Every code point costs at least one output character. */
  lemma EncodedIsNoShorter(s: Text)
    requires Encode(s).Some?
    ensures |s| <= |Encode(s).value|
  {
    PassesGrow(s, INITIAL_N, Encoder(Prefix(s), 0, INITIAL_BIAS, |Below(s, INITIAL_N)|), |Below(s, INITIAL_N)|);
  }

  lemma {:induction false} PassesGrow(s: Text, n: nat, st: Encoder, basic: nat)
    requires st.handled == |Below(s, n)| && Passes(s, n, st, basic).Some?
    ensures |Passes(s, n, st, basic).value| >= |st.out| + |s| - st.handled
    decreases |s| - st.handled
  {
    hide Adapt, Below, Next, Pass, Times;
    if st.handled < |s| {
      var next := Next(s, n);
      NextIsDue(s, n);
      PassesCases(s, n, st, basic);
      PassGrows(s, 0, next, Moved(st, n, next), basic);
      var st' := Pass(s, 0, next, Moved(st, n, next), basic).value;
      BelowGrows(s, next);
      PassesGrow(s, next + 1, st'.(delta := st'.delta + 1), basic);
    }
  }

  lemma {:induction false} PassGrows(s: Text, j: nat, n: nat, st: Encoder, basic: nat)
    requires j <= |s| && st.handled == HandledAt(s, j, n) && Pass(s, j, n, st, basic).Some?
    ensures var r := Pass(s, j, n, st, basic).value; |r.out| - r.handled >= |st.out| - st.handled
    decreases |s| - j
  {
    hide Adapt, Below;
    if j == |s| {
    } else {
      HandledStep(s, j, n);
      if s[j] < n { PassGrows(s, j + 1, n, st.(delta := st.delta + 1), basic); }
      else if s[j] != n { PassGrows(s, j + 1, n, st, basic); }
      else { PassGrows(s, j + 1, n, Insert(st, basic), basic); }
    }
  }

  // ---------------------------------------------------------------- methods

  /** The decoder inserts nothing below its first code point. */
  lemma {:induction false} InsertedAboveAscii(out: Text, input: Text, pos: nat, n: nat, i: nat, bias: nat)
    requires pos <= |input| && INITIAL_N <= n <= 0x10FFFF && DecodeFrom(out, input, pos, n, i, bias).Some?
    ensures forall c | c in DecodeFrom(out, input, pos, n, i, bias).value && c < INITIAL_N :: c in out
    decreases |input| - pos
  {
    hide Adapt, Merge, ReadVli, Column, Rows;
    if pos == |input| {
    } else {
      var reading, length := ReadVli(input, pos, i, 1, BASE, bias).value, |out| + 1;
      var n', i' := n + Rows(reading.i, length), Column(reading.i, length);
      MergeKeepsAscii(out[..i'] + [n'] + out[i'..]);
      InsertedAboveAscii(Spliced(out, i', n'), input, reading.pos, n', i' + 1,
                         Adapt(reading.i - i, length, i == 0));
    }
  }

  /** The ASCII of a decoded text was there before decoding. */
  lemma DecodedAscii(input: Text)
    requires Decode(input).Some?
    ensures forall c | c in Decode(input).value && c < INITIAL_N :: c in input
  {
    hide DecodeFrom;
    if input != [] {
      var pos := AfterLastDelimiter(input);
      InsertedAboveAscii(if pos > 0 then input[..pos - 1] else [], input, pos, INITIAL_N, 0, INITIAL_BIAS);
    }
  }

  method EncodePunycode(input: Text) returns (r: Option<Text>)
    ensures r == Encode(input)
    ensures WellFormed(input) && |input| <= MAX_POINTS ==> r.Some? && Decode(r.value) == Some(input)
  {
    hide Decode, Passes;
    if WellFormed(input) && |input| <= MAX_POINTS { RoundTrip(input); }
    for k := 0 to |input|
      invariant forall i | 0 <= i < k :: !IsSurrogate(input[i])
    {
      if IsSurrogate(input[k]) { return None; }
    }

    var output: Text := [];
    for k := 0 to |input|
      invariant output == Below(input[..k], INITIAL_N)
    {
      BelowAround(input, k, INITIAL_N - 1);
      if input[k] < INITIAL_N { output := output + [input[k]]; }
    }
    assert input[..|input|] == input;
    var basicCount := |output|;
    if basicCount > 0 { output := output + [HYPHEN]; }
    r := EncodeInsertions(input, output, basicCount);
  }

  /** The encoder's main loop. */
  method EncodeInsertions(input: Text, literal: Text, basicCount: nat) returns (r: Option<Text>)
    requires basicCount == |Below(input, INITIAL_N)|
    ensures r == Passes(input, INITIAL_N, Encoder(literal, 0, INITIAL_BIAS, basicCount), basicCount)
  {
    hide Adapt, Below, Pass, Next, Passes, Times;
    var n: nat := INITIAL_N;
    var st := Encoder(literal, 0, INITIAL_BIAS, basicCount);
    ghost var promise := Passes(input, n, st, basicCount);
    while st.handled < |input|
      invariant st.handled == |Below(input, n)|
      invariant Passes(input, n, st, basicCount) == promise
      decreases |input| - st.handled
    {
      var next := NextDue(input, n);
      NextIsDue(input, n);
      PassesCases(input, n, st, basicCount);
      GuardIsOverflow(next - n, st.handled + 1, st.delta);
      if next - n > (MAX_INT - st.delta) / (st.handled + 1) { return None; }
      BelowGrows(input, next);
      var st' := EncodePass(input, next, Moved(st, n, next), basicCount);
      if st'.None? { return None; }
      st := st'.value.(delta := st'.value.delta + 1);
      n := next + 1;
    }
    PassesCases(input, n, st, basicCount);
    return Some(st.out);
  }

  /** The smallest code point that is at least `n`. */
  method NextDue(input: Text, n: nat) returns (next: nat)
    ensures next == Next(input, n)
  {
    next := MAX_INT;
    for k := 0 to |input|
      invariant next == MAX_INT || (n <= next && next in input)
      invariant forall i | 0 <= i < k :: input[i] >= n ==> next <= input[i]
    {
      if input[k] >= n && input[k] < next { next := input[k]; }
    }
  }

  /** The encoder's inner loop for the code point `n`. */
  method EncodePass(input: Text, n: nat, st: Encoder, basicCount: nat) returns (r: Option<Encoder>)
    requires st.handled == HandledAt(input, 0, n)
    ensures r == Pass(input, 0, n, st, basicCount)
  {
    hide Adapt, Below, RestOf;
    var output, delta: nat, bias: nat, handled: nat := st.out, st.delta, st.bias, st.handled;
    for j := 0 to |input|
      invariant handled == HandledAt(input, j, n)
      invariant Pass(input, j, n, Encoder(output, delta, bias, handled), basicCount) == Pass(input, 0, n, st, basicCount)
    {
      HandledStep(input, j, n);
      if input[j] < n {
        delta := delta + 1;
        if delta > MAX_INT { return None; }
        continue;
      }
      if input[j] != n { continue; }
      ghost var before := output;
      var q: nat, k: nat := delta, BASE;
      var t := Threshold(k, bias);
      while q >= t
        invariant t == Threshold(k, bias)
        invariant output + Vli(q, k, bias) == before + Vli(delta, BASE, bias)
        decreases q
      {
        ghost var whole := Vli(q, k, bias);
        assert output + whole == (output + [whole[0]]) + whole[1..];
        output := output + [EncodeDigit(t + (q - t) % (BASE - t))];
        q := RestOf(q, t);
        k := k + BASE;
        t := Threshold(k, bias);
      }
      output := output + [EncodeDigit(q)];
      bias := ComputeAdapt(delta, handled + 1, handled == basicCount);
      delta := 0;
      handled := handled + 1;
    }
    return Some(Encoder(output, delta, bias, handled));
  }

  method DecodePunycode(input: Text) returns (r: Option<Text>)
    ensures r == Decode(input)
  {
    if input == [] { return Some([]); }
    if !IsAscii(input) { return None; }
    hide DecodeFrom;
    var output: Text := [];
    var pos := AfterLastDelimiter(input);
    if pos > 0 { output := input[..pos - 1]; }
    r := DecodeInsertions(input, output, pos);
  }

  /** The decoder's main loop. */
  method DecodeInsertions(input: Text, literal: Text, from: nat) returns (r: Option<Text>)
    requires from <= |input|
    ensures r == DecodeFrom(literal, input, from, INITIAL_N, 0, INITIAL_BIAS)
  {
    hide Adapt, ReadVli, Spliced, Rows, Column;
    var output, pos := literal, from;
    var n: nat, i: nat, bias: nat := INITIAL_N, 0, INITIAL_BIAS;
    ghost var promise := DecodeFrom(literal, input, from, n, i, bias);
    while pos < |input|
      invariant pos <= |input| && n <= 0x10FFFF
      invariant DecodeFrom(output, input, pos, n, i, bias) == promise
      decreases |input| - pos
    {
      var oldI := i;
      var reading := ReadInteger(input, pos, i, bias);
      if reading.None? { return None; }
      i, pos := reading.value.i, reading.value.pos;

      var length := |output| + 1;
      bias := ComputeAdapt(i - oldI, length, oldI == 0);
      if Rows(i, length) > MAX_INT - n { return None; }
      n := n + Rows(i, length);
      i := Column(i, length);

      if n > 0x10FFFF { return None; }
      output := Spliced(output, i, n);
      i := i + 1;
    }
    return Some(output);
  }

  /** The decoder's inner loop: one variable-length integer added to `start`. */
  method ReadInteger(input: Text, from: nat, start: nat, bias: nat) returns (r: Option<Reading>)
    requires from <= |input|
    ensures r == ReadVli(input, from, start, 1, BASE, bias)
  {
    hide Adapt, DecodeDigit, Threshold, Times;
    var pos: nat, i: nat, w: nat, k: nat := from, start, 1, BASE;
    while true
      invariant pos <= |input| && w > 0
      invariant ReadVli(input, pos, i, w, k, bias) == ReadVli(input, from, start, 1, BASE, bias)
      decreases |input| - pos
    {
      if pos >= |input| { return None; }
      var digit := DecodeDigit(input[pos]);
      pos := pos + 1;
      if digit < 0 { return None; }
      GuardIsOverflow(digit, w, i);
      if digit > (MAX_INT - i) / w { return None; }
      i := i + Times(digit, w);
      var t := Threshold(k, bias);
      if digit < t { return Some(Reading(i, pos)); }
      GuardIsOverflow(w, BASE - t, 0);
      if w > MAX_INT / (BASE - t) { return None; }
      TimesMonotone(1, w, BASE - t);
      TimesIsProduct(1, BASE - t);
      w := Times(w, BASE - t);
      k := k + BASE;
    }
  }
}
